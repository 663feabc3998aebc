/** The registry rules inside the builder window's handlers: the list of recent
    projects, removing an invariant point, connecting a line to the two points it
    passes through, the choices offered when a line's end is edited, the id of a
    new dogmin result, and the phases read off the check lists. */
module Builders {
  import opened Wrappers
  import opened Registries
  import opened Topology

  // ---------------------------------------------------------------- recent projects

  /** How many recent projects are remembered. */
  const RecentLimit: nat := 15

  /** `s.index(x)`: the position of the first occurrence of `x`. */
  function IndexOf<T(==)>(s: seq<T>, x: T): (i: nat)
    requires x in s
    ensures i < |s| && s[i] == x
    ensures forall j :: 0 <= j < i ==> s[j] != x
  {
    if s[0] == x then 0 else 1 + IndexOf(s[1..], x)
  }

  /** `if x in s: s.pop(s.index(x))`: the first occurrence removed. */
  function PopFirst<T(==)>(s: seq<T>, x: T): (t: seq<T>)
    ensures x in s ==> |t| == |s| - 1
    ensures x !in s ==> t == s
    ensures forall y :: y in t ==> y in s
  {
    if x in s then var i := IndexOf(s, x); s[..i] + s[i + 1..] else s
  }

  /** The first `n` elements, or all of them when there are fewer. */
  function Take<T>(s: seq<T>, n: nat): (t: seq<T>)
    ensures |t| == if |s| <= n then |s| else n
    ensures forall i :: 0 <= i < |t| ==> t[i] == s[i]
  {
    if |s| <= n then s else s[..n]
  }

  /** Saving or opening `project`: it moves to the front of the recent list, which
      keeps at most `RecentLimit` entries. */
  function RecentUpdate(recent: seq<string>, project: string): (r: seq<string>)
    ensures 1 <= |r| <= RecentLimit && r[0] == project
    ensures forall x :: x in r ==> x == project || x in recent
  {
    Take([project] + PopFirst(recent, project), RecentLimit)
  }

  lemma {:induction false} PopFirstDistinct<T(!new)>(s: seq<T>, x: T)
    requires Distinct(s)
    ensures PopFirst(s, x) == Without(s, x)
    decreases |s|
  {
    if |s| > 0 {
      assert Distinct(s[1..]) by {
        forall i, j | 0 <= i < j < |s[1..]| ensures s[1..][i] != s[1..][j] {
          assert s[1..][i] == s[i + 1] && s[1..][j] == s[j + 1];
        }
      }
      PopFirstDistinct(s[1..], x);
      if s[0] == x {
        assert x !in s[1..] by {
          forall i | 0 <= i < |s[1..]| ensures s[1..][i] != x {
            assert s[1..][i] == s[i + 1];
          }
        }
        assert PopFirst(s, x) == s[1..];
        assert Without(s[1..], x) == s[1..] by { WithoutAbsent(s[1..], x); }
      } else if x in s {
        var i := IndexOf(s, x);
        assert i >= 1;
        assert IndexOf(s[1..], x) == i - 1;
        assert s[..i] + s[i + 1..] == [s[0]] + (s[1..][..i - 1] + s[1..][i..]);
      } else {
        assert x !in s[1..];
      }
    }
  }

  lemma {:induction false} WithoutAbsent<T(!new)>(s: seq<T>, x: T)
    requires x !in s
    ensures Without(s, x) == s
    decreases |s|
  {
    if |s| > 0 {
      assert x !in s[1..];
      WithoutAbsent(s[1..], x);
      assert s == [s[0]] + s[1..];
    }
  }

  /** For a list without repeats the update is: the project, then every other
      entry in its old order, cut to `RecentLimit`. */
  lemma RecentUpdateReference(recent: seq<string>, project: string)
    requires Distinct(recent)
    ensures RecentUpdate(recent, project) == Take([project] + Without(recent, project), RecentLimit)
  {
    PopFirstDistinct(recent, project);
  }

  /** The update never introduces a repeat. */
  lemma RecentUpdateDistinct(recent: seq<string>, project: string)
    requires Distinct(recent)
    ensures Distinct(RecentUpdate(recent, project))
  {
    RecentUpdateReference(recent, project);
    var w := [project] + Without(recent, project);
    assert Distinct(w) by {
      assert project !in Without(recent, project);
      forall i, j | 0 <= i < j < |w| ensures w[i] != w[j] {
        if i > 0 {
          assert w[i] == Without(recent, project)[i - 1] && w[j] == Without(recent, project)[j - 1];
        } else {
          assert w[j] in Without(recent, project);
        }
      }
    }
  }

  /** Saving the project that is already first changes nothing. */
  lemma RecentIdempotent(recent: seq<string>, project: string)
    ensures RecentUpdate(RecentUpdate(recent, project), project) == RecentUpdate(recent, project)
  {
    var r := RecentUpdate(recent, project);
    assert IndexOf(r, project) == 0;
    assert PopFirst(r, project) == r[1..];
    assert [project] + r[1..] == r;
  }

  /** While the list is short nothing is dropped: the entries are the old ones and
      the project. */
  lemma RecentKeepsAll(recent: seq<string>, project: string)
    requires Distinct(recent) && |recent| < RecentLimit
    ensures forall x :: x in RecentUpdate(recent, project) <==> x == project || x in recent
  {
    RecentUpdateReference(recent, project);
    assert |Without(recent, project)| <= |recent|;
    var w := [project] + Without(recent, project);
    assert RecentUpdate(recent, project) == w;
    forall x | x == project || x in recent ensures x in w {
      if x != project {
        assert x in Without(recent, project);
      }
    }
  }

  // ---------------------------------------------------------------- removing a point

  /** Some user-defined line starts or ends at point `id`. */
  predicate Pinned(lines: Registry<nat, UniLine>, id: nat) {
    exists k :: k in lines.items && lines.items[k].manual && (lines.items[k].begin == id || lines.items[k].end == id)
  }

  /** The guard loop: `todel` stays true unless a manual line ends at the point. */
  function Deletable(lines: Registry<nat, UniLine>, id: nat): (ok: bool)
    requires lines.Valid()
    ensures ok <==> !Pinned(lines, id)
  {
    DeletableFrom(lines, id, 0)
  }

  function DeletableFrom(lines: Registry<nat, UniLine>, id: nat, i: nat): (ok: bool)
    requires lines.Valid() && i <= |lines.order|
    requires forall j :: 0 <= j < i ==> var u := lines.items[lines.order[j]]; !(u.manual && (u.begin == id || u.end == id))
    ensures ok <==> !Pinned(lines, id)
    decreases |lines.order| - i
  {
    if i == |lines.order| then
      assert !Pinned(lines, id) by {
        forall k | k in lines.items
          ensures !(lines.items[k].manual && (lines.items[k].begin == id || lines.items[k].end == id))
        {
          var j :| 0 <= j < |lines.order| && lines.order[j] == k;
        }
      }
      true
    else
      var u := lines.items[lines.order[i]];
      if u.manual && (u.begin == id || u.end == id) then false
      else DeletableFrom(lines, id, i + 1)
  }

  /** A line with every end at `id` set back to `0`. */
  function Detach(u: UniLine, id: nat): (u': UniLine)
    ensures u'.id == u.id && u'.phases == u.phases && u'.out == u.out && u'.manual == u.manual
    ensures id != 0 ==> u'.begin != id && u'.end != id
    ensures u.begin != id && u.end != id ==> u' == u
  {
    u.(begin := if u.begin == id then 0 else u.begin, end := if u.end == id then 0 else u.end)
  }

  function DetachAll(lines: Registry<nat, UniLine>, id: nat): (lines': Registry<nat, UniLine>)
    requires lines.Valid()
    ensures lines'.Valid() && lines'.order == lines.order
    ensures forall k :: k in lines'.items <==> k in lines.items
    ensures forall k :: k in lines.items ==> lines'.items[k] == Detach(lines.items[k], id)
  {
    Registry(lines.order, map k | k in lines.items :: Detach(lines.items[k], id))
  }

  /** What the remove button does: refuse, keep the point when the user says no,
      or remove it. */
  datatype Removal = Refused | Declined | Removed(sec: Section)

  /** `remove_inv`: refused when a user-defined line ends at the point; otherwise,
      once confirmed, every end at the point is opened and the point deleted. */
  function RemoveInv(sec: Section, id: nat, confirmed: bool): (r: Removal)
    requires sec.Valid() && id in sec.invpoints.items
    ensures r.Refused? <==> Pinned(sec.unilines, id)
    ensures r.Declined? <==> !Pinned(sec.unilines, id) && !confirmed
    ensures r.Removed? ==> r.sec.Valid() && id !in r.sec.invpoints.items
  {
    if !Deletable(sec.unilines, id) then Refused
    else if !confirmed then Declined
    else Removed(Section(sec.excess, Remove(sec.invpoints, id), DetachAll(sec.unilines, id)))
  }

  /** After a removal no line refers to the point, every line is still there with
      only its ends at the point opened, and the other points are untouched. */
  lemma RemoveInvDetaches(sec: Section, id: nat)
    requires sec.Valid() && id in sec.invpoints.items && id != 0
    requires !Pinned(sec.unilines, id)
    ensures var r := RemoveInv(sec, id, true);
            r.Removed? &&
            (forall k :: k in r.sec.unilines.items <==> k in sec.unilines.items) &&
            (forall k :: k in r.sec.unilines.items ==>
               r.sec.unilines.items[k].begin != id && r.sec.unilines.items[k].end != id) &&
            (forall k :: k in sec.unilines.items && sec.unilines.items[k].begin != id && sec.unilines.items[k].end != id ==>
               r.sec.unilines.items[k] == sec.unilines.items[k]) &&
            (forall k :: k != id ==> (k in r.sec.invpoints.items <==> k in sec.invpoints.items)) &&
            (forall k :: k != id && k in sec.invpoints.items ==> r.sec.invpoints.items[k] == sec.invpoints.items[k])
  {
  }

  // ---------------------------------------------------------------- autoconnect

  /** The keys, in iteration order from `i`, of the points the line contains;
      `contains_inv` raising on some point propagates. */
  function CandidateKeys(pts: Registry<nat, InvPoint>, u: UniLine, i: nat): (r: Result<seq<nat>>)
    requires pts.Valid() && i <= |pts.order|
    ensures r.Err? <==> exists j :: i <= j < |pts.order| && |pts.items[pts.order[j]].out| != 2
    ensures r.Ok? ==> forall k :: k in r.value <==> k in pts.order[i..] && ContainsInv(u, pts.items[k]) == Ok(true)
    ensures r.Ok? ==> Distinct(r.value)
    decreases |pts.order| - i
  {
    if i == |pts.order| then Ok([])
    else
      var k := pts.order[i];
      var c := ContainsInv(u, pts.items[k]);
      if c.Err? then Err(c.error)
      else
        var rest := CandidateKeys(pts, u, i + 1);
        if rest.Err? then rest
        else
          DistinctFrom(pts.order, i);
          Ok(if c.value then [k] + rest.value else rest.value)
  }

  /** The points whose keys are listed. */
  function PointsAt(pts: Registry<nat, InvPoint>, keys: seq<nat>): (ps: seq<InvPoint>)
    requires forall k :: k in keys ==> k in pts.items
    ensures |ps| == |keys|
    ensures forall i :: 0 <= i < |keys| ==> ps[i] == pts.items[keys[i]]
  {
    if |keys| == 0 then [] else [pts.items[keys[0]]] + PointsAt(pts, keys[1..])
  }

  /** The keys of the points a line contains. */
  ghost function Containing(pts: Registry<nat, InvPoint>, u: UniLine): set<nat> {
    set k | k in pts.items && ContainsInv(u, pts.items[k]) == Ok(true)
  }

  /** The right-click menu on a line: `Autoconnect` is offered when an end is open
      and exactly two points lie on the line. */
  function AutoconnectOffered(sec: Section, id: nat): (r: Result<bool>)
    requires sec.Valid() && id in sec.unilines.items
    ensures var u := sec.unilines.items[id];
            r.Ok? && r.value ==> (u.begin == 0 || u.end == 0)
  {
    var u := sec.unilines.items[id];
    if u.begin == 0 || u.end == 0 then
      var keys :- CandidateKeys(sec.invpoints, u, 0);
      Ok(|keys| == 2)
    else Ok(false)
  }

  /** A list without repeats is as long as the set of its elements. */
  lemma {:induction false} DistinctCard<T>(s: seq<T>, elems: set<T>)
    requires Distinct(s)
    requires forall x :: x in elems <==> x in s
    ensures |elems| == |s|
    decreases |s|
  {
    if |s| > 0 {
      assert Distinct(s[1..]) by {
        forall i, j | 0 <= i < j < |s[1..]| ensures s[1..][i] != s[1..][j] {
          assert s[1..][i] == s[i + 1] && s[1..][j] == s[j + 1];
        }
      }
      assert s[0] !in s[1..] by {
        forall i | 0 <= i < |s[1..]| ensures s[1..][i] != s[0] {
          assert s[1..][i] == s[i + 1];
        }
      }
      forall x ensures x in elems - {s[0]} <==> x in s[1..] {
        assert x in s <==> x == s[0] || x in s[1..];
      }
      DistinctCard(s[1..], elems - {s[0]});
    }
  }

  /** The candidate search fails exactly when some point lacks a two-phase out pair. */
  lemma CandidateKeysErr(pts: Registry<nat, InvPoint>, u: UniLine)
    requires pts.Valid()
    ensures CandidateKeys(pts, u, 0).Err? <==> exists k :: k in pts.items && |pts.items[k].out| != 2
  {
    if CandidateKeys(pts, u, 0).Err? {
      var j :| 0 <= j < |pts.order| && |pts.items[pts.order[j]].out| != 2;
      assert pts.order[j] in pts.items;
    } else {
      forall k | k in pts.items ensures |pts.items[k].out| == 2 {
        var j :| 0 <= j < |pts.order| && pts.order[j] == k;
      }
    }
  }

  /** A successful search lists each containing point once. */
  lemma CandidateKeysCount(pts: Registry<nat, InvPoint>, u: UniLine)
    requires pts.Valid() && CandidateKeys(pts, u, 0).Ok?
    ensures |CandidateKeys(pts, u, 0).value| == |Containing(pts, u)|
  {
    var keys := CandidateKeys(pts, u, 0).value;
    assert pts.order[0..] == pts.order;
    forall x ensures x in Containing(pts, u) <==> x in keys {
      assert x in pts.order <==> x in pts.items;
    }
    DistinctCard(keys, Containing(pts, u));
  }

  /** Autoconnect is offered exactly when an end is open, every point has a
      two-phase out pair and exactly two points lie on the line. */
  lemma AutoconnectOfferedIff(sec: Section, id: nat)
    requires sec.Valid() && id in sec.unilines.items
    ensures var u := sec.unilines.items[id];
            AutoconnectOffered(sec, id) == Ok(true) <==>
              (u.begin == 0 || u.end == 0) &&
              (forall k :: k in sec.invpoints.items ==> |sec.invpoints.items[k].out| == 2) &&
              |Containing(sec.invpoints, u)| == 2
  {
    var u := sec.unilines.items[id];
    CandidateKeysErr(sec.invpoints, u);
    if CandidateKeys(sec.invpoints, u, 0).Ok? {
      CandidateKeysCount(sec.invpoints, u);
    }
  }

  /** `uni_connect`: the line's begin and end become the ids of the two candidates. */
  function UniConnect(sec: Section, id: nat, candidates: seq<InvPoint>): (sec': Section)
    requires sec.Valid() && id in sec.unilines.items && |candidates| >= 2
    ensures sec'.Valid()
    ensures id in sec'.unilines.items
    ensures sec'.unilines.items[id].begin == candidates[0].id && sec'.unilines.items[id].end == candidates[1].id
    ensures sec'.unilines.items[id] == sec.unilines.items[id].(begin := candidates[0].id, end := candidates[1].id)
    ensures forall k :: k != id ==> (k in sec'.unilines.items <==> k in sec.unilines.items)
    ensures forall k :: k != id && k in sec.unilines.items ==> sec'.unilines.items[k] == sec.unilines.items[k]
    ensures sec'.invpoints == sec.invpoints
  {
    var u := sec.unilines.items[id];
    sec.(unilines := Put(sec.unilines, id, u.(begin := candidates[0].id, end := candidates[1].id)))
  }

  /** Every point is stored under its own id. */
  ghost predicate IdsMatch(sec: Section) {
    forall k :: k in sec.invpoints.items ==> sec.invpoints.items[k].id == k
  }

  /** Accepting the offer connects the line to two different points, both of
      which lie on it. */
  lemma AutoconnectEnds(sec: Section, id: nat)
    requires sec.Valid() && IdsMatch(sec) && id in sec.unilines.items
    requires AutoconnectOffered(sec, id) == Ok(true)
    ensures var u := sec.unilines.items[id];
            var keys := CandidateKeys(sec.invpoints, u, 0).value;
            var sec' := UniConnect(sec, id, PointsAt(sec.invpoints, keys));
            var u' := sec'.unilines.items[id];
            u'.begin != u'.end &&
            u'.begin in sec.invpoints.items && ContainsInv(u, sec.invpoints.items[u'.begin]) == Ok(true) &&
            u'.end in sec.invpoints.items && ContainsInv(u, sec.invpoints.items[u'.end]) == Ok(true)
  {
    var u := sec.unilines.items[id];
    var keys := CandidateKeys(sec.invpoints, u, 0).value;
    assert sec.invpoints.order[0..] == sec.invpoints.order;
    assert keys[0] in keys && keys[1] in keys;
  }

  // ---------------------------------------------------------------- dogmin ids

  /** `for key in d: acc = max(acc, key)`. */
  function MaxFrom(keys: seq<nat>, acc: nat): (m: nat)
    ensures acc <= m
    ensures forall i :: 0 <= i < |keys| ==> keys[i] <= m
    ensures m == acc || m in keys
  {
    if |keys| == 0 then acc
    else MaxFrom(keys[1..], if keys[0] > acc then keys[0] else acc)
  }

  /** The id a new dogmin result is stored under: one more than the largest key. */
  function DogminId<T>(dogmins: Registry<nat, T>): (id: nat)
    requires dogmins.Valid()
    ensures id >= 1 && id !in dogmins.items
    ensures dogmins.items == map[] ==> id == 1
  {
    MaxFrom(dogmins.order, 0) + 1
  }

  /** It is the id every registry hands out. */
  lemma DogminIdIsNext<T>(dogmins: Registry<nat, T>)
    requires dogmins.Valid()
    ensures DogminId(dogmins) == NextId(dogmins)
  {
    var m := MaxFrom(dogmins.order, 0);
    var n := MaxOf(dogmins.order);
    assert m <= n by {
      if m != 0 {
        var i :| 0 <= i < |dogmins.order| && dogmins.order[i] == m;
      }
    }
    assert n <= m by {
      if n != 0 {
        var i :| 0 <= i < |dogmins.order| && dogmins.order[i] == n;
      }
    }
  }

  // ---------------------------------------------------------------- end editor

  /** The ids, in iteration order from `i`, of the points other than `other` that
      the line contains; `other` is skipped before `contains_inv` is asked. */
  function ChoiceIds(pts: Registry<nat, InvPoint>, u: UniLine, other: nat, i: nat): (r: Result<seq<nat>>)
    requires pts.Valid() && i <= |pts.order|
    ensures r.Err? <==> exists j :: i <= j < |pts.order| && pts.items[pts.order[j]].id != other &&
                                    |pts.items[pts.order[j]].out| != 2
    ensures r.Ok? ==> forall x :: x in r.value <==>
              exists j :: i <= j < |pts.order| && pts.items[pts.order[j]].id == x && x != other &&
                          ContainsInv(u, pts.items[pts.order[j]]) == Ok(true)
    decreases |pts.order| - i
  {
    if i == |pts.order| then Ok([])
    else
      var inv := pts.items[pts.order[i]];
      if inv.id == other then ChoiceIds(pts, u, other, i + 1)
      else
        var c := ContainsInv(u, inv);
        if c.Err? then Err(c.error)
        else
          var rest := ChoiceIds(pts, u, other, i + 1);
          if rest.Err? then rest
          else Ok(if c.value then [inv.id] + rest.value else rest.value)
  }

  /** `ComboDelegate.createEditor`: the choices for the begin (column 2) or end
      column of line `id`: `0` first unless the line is user-defined, then the
      points on the line other than its opposite end. */
  function EditorChoices(sec: Section, id: nat, column: nat): (r: Result<seq<nat>>)
    requires sec.Valid() && id in sec.unilines.items
    ensures var u := sec.unilines.items[id];
            r.Ok? && !u.manual ==> |r.value| >= 1 && r.value[0] == 0
  {
    var u := sec.unilines.items[id];
    var other := if column == 2 then u.end else u.begin;
    var ids :- ChoiceIds(sec.invpoints, u, other, 0);
    Ok((if u.manual then [] else [0]) + ids)
  }

  /** With points stored under their own nonzero ids, the editor offers `0`
      exactly for a computed line, and a point exactly when it is not the other
      end and lies on the line. */
  lemma EditorChoicesExactly(sec: Section, id: nat, column: nat)
    requires sec.Valid() && IdsMatch(sec) && 0 !in sec.invpoints.items && id in sec.unilines.items
    requires EditorChoices(sec, id, column).Ok?
    ensures var u := sec.unilines.items[id];
            var other := if column == 2 then u.end else u.begin;
            var r := EditorChoices(sec, id, column).value;
            (0 in r <==> !u.manual) &&
            forall k :: k in sec.invpoints.items ==>
              (k in r <==> k != other && ContainsInv(u, sec.invpoints.items[k]) == Ok(true))
  {
    var u := sec.unilines.items[id];
    var other := if column == 2 then u.end else u.begin;
    var pts := sec.invpoints;
    var ids := ChoiceIds(pts, u, other, 0).value;
    forall x | x in ids ensures x in pts.items {
      var j :| 0 <= j < |pts.order| && pts.items[pts.order[j]].id == x && x != other &&
               ContainsInv(u, pts.items[pts.order[j]]) == Ok(true);
      assert pts.order[j] in pts.items;
    }
    forall k | k in pts.items
      ensures k in ids <==> k != other && ContainsInv(u, pts.items[k]) == Ok(true)
    {
      var j :| 0 <= j < |pts.order| && pts.order[j] == k;
      if k in ids {
        var j' :| 0 <= j' < |pts.order| && pts.items[pts.order[j']].id == k && k != other &&
                  ContainsInv(u, pts.items[pts.order[j']]) == Ok(true);
        assert pts.order[j'] in pts.items;
      }
    }
  }

  // ---------------------------------------------------------------- phase lists

  /** The texts of the checked rows of a check list. */
  function Checked(rows: seq<(string, bool)>): (s: set<string>)
    ensures forall x :: x in s <==> exists i :: 0 <= i < |rows| && rows[i] == (x, true)
  {
    if |rows| == 0 then {}
    else
      var rest := Checked(rows[1..]);
      assert forall x :: x in rest <==> exists i :: 1 <= i < |rows| && rows[i] == (x, true) by {
        forall x ensures x in rest <==> exists i :: 1 <= i < |rows| && rows[i] == (x, true) {
          if x in rest {
            var i :| 0 <= i < |rows[1..]| && rows[1..][i] == (x, true);
            assert rows[i + 1] == (x, true);
          }
          if exists i :: 1 <= i < |rows| && rows[i] == (x, true) {
            var i :| 1 <= i < |rows| && rows[i] == (x, true);
            assert rows[1..][i - 1] == (x, true);
          }
        }
      }
      (if rows[0].1 then {rows[0].0} else {}) + rest
  }

  /** `get_phases_out`: the checked phases with the excess phases added, and the
      checked out phases. */
  function PhasesOut(phaseRows: seq<(string, bool)>, outRows: seq<(string, bool)>, excess: Phases): (r: (Phases, Phases))
    ensures forall x :: x in r.0 <==> x in excess || exists i :: 0 <= i < |phaseRows| && phaseRows[i] == (x, true)
    ensures forall x :: x in r.1 <==> exists i :: 0 <= i < |outRows| && outRows[i] == (x, true)
  {
    (Checked(phaseRows) + excess, Checked(outRows))
  }
}
