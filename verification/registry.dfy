/** A Python `dict`: a map plus the insertion order in which iteration visits
    its keys. With natural-number keys it is the id-keyed registry of points
    and lines, where a new entry gets one more than the largest id. */
module Registries {
  import opened Wrappers

  predicate Distinct<K(==)>(s: seq<K>) {
    forall i, j :: 0 <= i < j < |s| ==> s[i] != s[j]
  }

  /** A distinct sequence from `i` on is its entry at `i`, which does not recur,
      followed by the rest. */
  lemma DistinctFrom<K>(s: seq<K>, i: nat)
    requires Distinct(s) && i < |s|
    ensures s[i..] == [s[i]] + s[i + 1..]
    ensures s[i] !in s[i + 1..]
  {
    assert s[i] !in s[i + 1..] by {
      forall j | i + 1 <= j < |s| ensures s[j] != s[i] { }
    }
  }

  datatype Registry<K(==, !new), T> = Registry(order: seq<K>, items: map<K, T>)
  {
    /** The iteration order lists every key exactly once. */
    ghost predicate Valid() {
      Distinct(order) && forall k :: k in items <==> k in order
    }
  }

  function Empty<K(==, !new), T>(): (r: Registry<K, T>)
    ensures r.Valid() && r.items == map[]
  {
    Registry([], map[])
  }

  /** `d[k] = v`: a new key goes to the end of the iteration order, an existing
      key keeps its place. */
  function Put<K(==, !new), T>(r: Registry<K, T>, k: K, v: T): (r': Registry<K, T>)
    requires r.Valid()
    ensures r'.Valid()
    ensures k in r'.items && r'.items[k] == v
    ensures forall j :: j != k ==> (j in r'.items <==> j in r.items)
    ensures forall j :: j != k && j in r.items ==> r'.items[j] == r.items[j]
    ensures k in r.items ==> r'.order == r.order
    ensures k !in r.items ==> r'.order == r.order + [k]
  {
    if k in r.items then Registry(r.order, r.items[k := v])
    else Registry(r.order + [k], r.items[k := v])
  }

  /** `s` without the element `k`, the others kept in order. */
  function Without<K(==, !new)>(s: seq<K>, k: K): (t: seq<K>)
    ensures forall j :: j in t <==> j in s && j != k
    ensures Distinct(s) ==> Distinct(t)
    ensures |t| <= |s|
  {
    if |s| == 0 then []
    else if s[0] == k then Without(s[1..], k)
    else
      var rest := Without(s[1..], k);
      assert Distinct(s) ==> s[0] !in rest by {
        if Distinct(s) {
          assert forall i :: 0 <= i < |s[1..]| ==> s[1..][i] == s[i + 1] != s[0];
        }
      }
      [s[0]] + rest
  }

  /** `del d[k]` (a no-op when `k` is absent). */
  function Remove<K(==, !new), T>(r: Registry<K, T>, k: K): (r': Registry<K, T>)
    requires r.Valid()
    ensures r'.Valid()
    ensures k !in r'.items
    ensures forall j :: j != k ==> (j in r'.items <==> j in r.items)
    ensures forall j :: j != k && j in r.items ==> r'.items[j] == r.items[j]
  {
    Registry(Without(r.order, k), r.items - {k})
  }

  /** `ids = 0; for iid in d: ids = max(ids, iid)`. */
  function MaxOf(s: seq<nat>): (m: nat)
    ensures forall i :: 0 <= i < |s| ==> s[i] <= m
    ensures m == 0 || m in s
  {
    if |s| == 0 then 0
    else
      var m := MaxOf(s[..|s| - 1]);
      if s[|s| - 1] > m then s[|s| - 1] else m
  }

  function MaxKey<T>(r: Registry<nat, T>): (m: nat)
    requires r.Valid()
    ensures forall k :: k in r.items ==> k <= m
    ensures m == 0 || m in r.items
  {
    MaxOf(r.order)
  }

  /** The id handed to a new entry: one more than the largest key, `1` when empty. */
  function NextId<T>(r: Registry<nat, T>): (id: nat)
    requires r.Valid()
    ensures id >= 1 && id !in r.items
    ensures forall k :: k in r.items ==> k < id
    ensures r.items == map[] ==> id == 1
  {
    MaxKey(r) + 1
  }

  /** Python's `for k, v in d.items(): if p(v): return k`: the first key in
      iteration order whose entry satisfies `p`. */
  function FindFirst<K(==, !new), T>(r: Registry<K, T>, p: T -> bool): (k: Option<K>)
    requires r.Valid()
    ensures k.None? <==> forall j :: j in r.items ==> !p(r.items[j])
    ensures k.Some? ==> k.value in r.items && p(r.items[k.value])
    ensures k.Some? ==> exists i :: 0 <= i < |r.order| && r.order[i] == k.value &&
                          forall i' :: 0 <= i' < i ==> !p(r.items[r.order[i']])
  {
    FindFrom(r, p, 0)
  }

  function FindFrom<K(==, !new), T>(r: Registry<K, T>, p: T -> bool, i: nat): (k: Option<K>)
    requires r.Valid() && i <= |r.order|
    requires forall i' :: 0 <= i' < i ==> !p(r.items[r.order[i']])
    ensures k.None? <==> forall j :: j in r.items ==> !p(r.items[j])
    ensures k.Some? ==> k.value in r.items && p(r.items[k.value])
    ensures k.Some? ==> exists i :: 0 <= i < |r.order| && r.order[i] == k.value &&
                          forall i' :: 0 <= i' < i ==> !p(r.items[r.order[i']])
    decreases |r.order| - i
  {
    if i == |r.order| then
      assert forall j :: j in r.items ==> !p(r.items[j]) by {
        forall j | j in r.items ensures !p(r.items[j]) {
          var i' :| 0 <= i' < |r.order| && r.order[i'] == j;
        }
      }
      None
    else if p(r.items[r.order[i]]) then Some(r.order[i])
    else FindFrom(r, p, i + 1)
  }

  /** Row `j` is the last row with id `k`. */
  predicate LastAt(ids: seq<nat>, k: nat, j: nat) {
    j < |ids| && ids[j] == k && forall i :: j < i < |ids| ==> ids[i] != k
  }

  /** `{ids[ix]: ix for ix in range(len(ids))}` built in order: each id maps to
      the position of its row, a later row overriding an earlier one. */
  function Positions(ids: seq<nat>): (m: map<nat, nat>)
    ensures forall k :: k in m <==> k in ids
    ensures forall k :: k in m ==> LastAt(ids, k, m[k])
  {
    if |ids| == 0 then map[]
    else
      var rest := Positions(ids[1..]);
      var m := if ids[0] in rest then map k | k in rest :: rest[k] + 1
               else (map k | k in rest :: rest[k] + 1)[ids[0] := 0];
      assert forall k :: k in m ==> LastAt(ids, k, m[k]) by {
        forall k | k in m ensures LastAt(ids, k, m[k]) {
          if k in rest {
            ShiftLast(ids, k, rest[k]);
          }
        }
      }
      m
  }

  lemma ShiftLast(ids: seq<nat>, k: nat, j: nat)
    requires |ids| > 0 && LastAt(ids[1..], k, j)
    ensures LastAt(ids, k, j + 1)
  {
    forall i | j + 1 < i < |ids| ensures ids[i] != k {
      assert ids[i] == ids[1..][i - 1];
    }
  }

  /** The lookup a row model keeps: each id to its row index plus `offset`. */
  function Lookup(ids: seq<nat>, offset: nat): (m: map<nat, nat>)
    ensures forall k :: k in m <==> k in ids
    ensures forall k :: k in m ==> m[k] >= offset && LastAt(ids, k, m[k] - offset)
  {
    var p := Positions(ids);
    map k | k in p :: p[k] + offset
  }

  /** When the ids are distinct, every row is found at its own position. */
  lemma LookupDistinct(ids: seq<nat>, offset: nat)
    requires Distinct(ids)
    ensures forall i :: 0 <= i < |ids| ==> ids[i] in Lookup(ids, offset) && Lookup(ids, offset)[ids[i]] == i + offset
  {
    var m := Lookup(ids, offset);
    forall i | 0 <= i < |ids| ensures ids[i] in m && m[ids[i]] == i + offset {
      assert ids[i] in ids;
      var j := m[ids[i]] - offset;
      assert ids[j] == ids[i];
    }
  }
}
