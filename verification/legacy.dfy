/** The older builder window, which keeps points and lines as table rows rather
    than in a section: id lookup over the rows, the begin/end edit guard, adding a
    user-defined line, the row lookups and removing a point. */
module Legacy {
  import opened Wrappers
  import opened Registries
  import opened Topology

  /** A row of the line table: id, label text, begin, end, and the line's data. */
  datatype UniRow = UniRow(id: nat, text: string, begin: nat, end: nat, phases: Phases, out: Phases, manual: bool)

  /** A row of the point table: id, label text, and the point's data. Row 0 of the
      table is a placeholder that lookups skip. */
  datatype InvRow = InvRow(id: nat, text: string, phases: Phases, out: Phases, manual: bool)

  /** What a row offers to the id lookup. */
  datatype Key = Key(id: nat, phases: Phases, out: Phases)

  function UniKeys(rows: seq<UniRow>): (ks: seq<Key>)
    ensures |ks| == |rows|
    ensures forall i :: 0 <= i < |rows| ==> ks[i] == Key(rows[i].id, rows[i].phases, rows[i].out)
  {
    if |rows| == 0 then [] else [Key(rows[0].id, rows[0].phases, rows[0].out)] + UniKeys(rows[1..])
  }

  function InvKeys(rows: seq<InvRow>): (ks: seq<Key>)
    ensures |ks| == |rows|
    ensures forall i :: 0 <= i < |rows| ==> ks[i] == Key(rows[i].id, rows[i].phases, rows[i].out)
  {
    if |rows| == 0 then [] else [Key(rows[0].id, rows[0].phases, rows[0].out)] + InvKeys(rows[1..])
  }

  /** `rows[1:]`: every row after the placeholder (none for an empty table). */
  function AfterPlaceholder<T>(rows: seq<T>): (rest: seq<T>)
    ensures |rows| >= 1 ==> rest == rows[1..]
    ensures |rows| == 0 ==> rest == []
  {
    if |rows| == 0 then [] else rows[1..]
  }

  function Ids(ks: seq<Key>): (ids: seq<nat>)
    ensures |ids| == |ks|
    ensures forall i :: 0 <= i < |ks| ==> ids[i] == ks[i].id
  {
    if |ks| == 0 then [] else [ks[0].id] + Ids(ks[1..])
  }

  predicate Matches(k: Key, zm: Assemblage) {
    k.phases == zm.phases && k.out == zm.out
  }

  /** The lookup loop from row `i`, `acc` holding the largest id seen so far:
      the first row with equal phases and equal out answers `(false, id)`, and
      running off the end answers `(true, largest + 1)`. */
  function GetIdFrom(ks: seq<Key>, zm: Option<Assemblage>, i: nat, acc: nat): (r: (bool, nat))
    requires i <= |ks|
    requires forall j :: 0 <= j < i ==> ks[j].id <= acc
    requires forall j :: 0 <= j < i ==> zm.None? || !Matches(ks[j], zm.value)
    ensures r.0 <==> forall j :: 0 <= j < |ks| ==> zm.None? || !Matches(ks[j], zm.value)
    ensures r.0 ==> forall j :: 0 <= j < |ks| ==> ks[j].id < r.1
    ensures r.0 ==> r.1 == 1 + MaxOf(Ids(ks)) || r.1 == acc + 1
    ensures !r.0 ==> exists j :: i <= j < |ks| && ks[j].id == r.1 && Matches(ks[j], zm.value) &&
                        forall j' :: 0 <= j' < j ==> !Matches(ks[j'], zm.value)
    decreases |ks| - i
  {
    if i == |ks| then (true, acc + 1)
    else if zm.Some? && Matches(ks[i], zm.value) then (false, ks[i].id)
    else GetIdFrom(ks, zm, i + 1, if ks[i].id > acc then ks[i].id else acc)
  }

  /** The answer of the lookup. */
  function GetId(ks: seq<Key>, zm: Option<Assemblage>): (r: (bool, nat))
    ensures r.0 <==> zm.None? || forall j :: 0 <= j < |ks| ==> !Matches(ks[j], zm.value)
    ensures r.0 ==> r.1 == 1 + MaxOf(Ids(ks))
    ensures !r.0 ==> exists j :: 0 <= j < |ks| && ks[j].id == r.1 && Matches(ks[j], zm.value) &&
                        forall j' :: 0 <= j' < j ==> !Matches(ks[j'], zm.value)
  {
    var r := GetIdFrom(ks, zm, 0, 0);
    if r.0 then
      MaxOfIsLeast(Ids(ks), r.1 - 1);
      r
    else r
  }

  /** The largest id is the least bound of the ids. */
  lemma MaxOfIsLeast(ids: seq<nat>, m: nat)
    requires forall i :: 0 <= i < |ids| ==> ids[i] <= m
    requires m == 0 || m in ids
    ensures m == MaxOf(ids)
  {
  }

  /** `getiduni(zm)`: the lookup over every line row. */
  function GetIdUni(rows: seq<UniRow>, zm: Option<Assemblage>): (r: (bool, nat))
    ensures r.0 ==> forall i :: 0 <= i < |rows| ==> rows[i].id < r.1
  {
    GetId(UniKeys(rows), zm)
  }

  /** `getidinv(zm)`: the lookup over the point rows after the placeholder. */
  function GetIdInv(rows: seq<InvRow>, zm: Option<Assemblage>): (r: (bool, nat))
    ensures r.0 ==> forall i :: 1 <= i < |rows| ==> rows[i].id < r.1
  {
    GetId(InvKeys(AfterPlaceholder(rows)), zm)
  }

  /** A query matching a stored key, among keys that name distinct lines, is
      answered with that key's id. */
  lemma GetIdStored(ks: seq<Key>, i: nat)
    requires i < |ks|
    requires forall j, j' :: 0 <= j < j' < |ks| ==> (ks[j].phases, ks[j].out) != (ks[j'].phases, ks[j'].out)
    ensures GetId(ks, Some(Assemblage(ks[i].phases, ks[i].out))) == (false, ks[i].id)
  {
    var zm := Assemblage(ks[i].phases, ks[i].out);
    assert Matches(ks[i], zm);
    forall j' | 0 <= j' < |ks| && j' != i ensures !Matches(ks[j'], zm) {
      if j' < i {
        assert (ks[j'].phases, ks[j'].out) != (ks[i].phases, ks[i].out);
      } else {
        assert (ks[i].phases, ks[i].out) != (ks[j'].phases, ks[j'].out);
      }
    }
    var r := GetId(ks, Some(zm));
    var j :| 0 <= j < |ks| && ks[j].id == r.1 && Matches(ks[j], zm) &&
             forall j' :: 0 <= j' < j ==> !Matches(ks[j'], zm);
    assert j == i;
  }

  /** A new id never collides with a row id, and is `1` for an empty table. */
  lemma GetIdNew(ks: seq<Key>, zm: Option<Assemblage>)
    requires GetId(ks, zm).0
    ensures forall i :: 0 <= i < |ks| ==> ks[i].id != GetId(ks, zm).1
    ensures |ks| == 0 ==> GetId(ks, zm).1 == 1
  {
    var ids := Ids(ks);
    forall i | 0 <= i < |ks| ensures ks[i].id < GetId(ks, zm).1 {
      assert ids[i] == ks[i].id;
    }
  }

  // ---------------------------------------------------------------- editing an end

  /** Lines whose ends are distinct unless both are open. */
  predicate ProperEnds(row: UniRow) {
    row.begin == row.end ==> row.begin == 0
  }

  /** `setModelData`: writing `value` into the begin (column 2) or end (column 3)
      column; the edit is rejected when it would make both ends the same point. */
  function SetEnd(row: UniRow, column: nat, value: nat): (r: Option<UniRow>)
    requires column == 2 || column == 3
    ensures r.None? <==> value != 0 && value == (if column == 2 then row.end else row.begin)
    ensures r.Some? ==> r.value.id == row.id && r.value.phases == row.phases && r.value.out == row.out
                        && r.value.text == row.text && r.value.manual == row.manual
    ensures r.Some? && column == 2 ==> r.value.begin == value && r.value.end == row.end
    ensures r.Some? && column == 3 ==> r.value.end == value && r.value.begin == row.begin
  {
    var other := if column == 2 then row.end else row.begin;
    if other == value && value != 0 then None
    else if column == 2 then Some(row.(begin := value))
    else Some(row.(end := value))
  }

  /** An accepted edit never puts both ends of a line on one point. */
  lemma SetEndProper(row: UniRow, column: nat, value: nat)
    requires column == 2 || column == 3
    requires SetEnd(row, column, value).Some?
    ensures ProperEnds(SetEnd(row, column, value).value)
  {
  }

  // ---------------------------------------------------------------- user-defined line

  /** The ids of the point rows, after the placeholder, whose phases and out
      include the line's. */
  function UserCandidates(rows: seq<InvRow>, phases: Phases, out: Phases): (ids: seq<nat>)
    ensures forall x :: x in ids <==> exists i :: 0 <= i < |rows| && rows[i].id == x &&
                                               phases <= rows[i].phases && out <= rows[i].out
  {
    if |rows| == 0 then []
    else
      var rest := UserCandidates(rows[1..], phases, out);
      assert forall i :: 1 <= i < |rows| ==> rows[1..][i - 1] == rows[i];
      if phases <= rows[0].phases && out <= rows[0].out then [rows[0].id] + rest else rest
  }

  /** What adding a user-defined line ends in. */
  datatype AddOutcome = NotEnough | Cancelled | SameEnds | Added(rows: seq<UniRow>, id: nat)

  /** The user-defined row for a line. */
  predicate UserRow(row: UniRow, id: nat, b: nat, e: nat) {
    row.id == id && row.manual && row.begin == b && row.end == e
  }

  /** The row of a line already listed, found through the lookup, rewritten as
      user-defined with the dialog's ends; the label is kept when none is given. */
  function RewriteListed(unirows: seq<UniRow>, id: nat, text: string, b: nat, e: nat,
                         phases: Phases, out: Phases): (rows: seq<UniRow>)
    requires id in UniIds(unirows)
    ensures |rows| == |unirows|
    ensures exists ix :: 0 <= ix < |unirows| && unirows[ix].id == id && UserRow(rows[ix], id, b, e) &&
                         (forall i :: 0 <= i < |unirows| && i != ix ==> rows[i] == unirows[i])
  {
    var ix := UniLookup(unirows)[id];
    var row := UniRow(id, if text != "" then text else unirows[ix].text, b, e, phases, out, true);
    assert unirows[ix := row][ix] == row;
    unirows[ix := row]
  }

  /** `add_user_defined` for one out phase: at least two points must offer the
      line; the dialog's begin and end must differ; the line then gets a new row
      or updates the row of the line already listed. */
  function AddUserUni(unirows: seq<UniRow>, invrows: seq<InvRow>, phases: Phases, out: Phases,
                      text: string, dialog: Option<(nat, nat)>): (r: AddOutcome)
    ensures r.NotEnough? <==> |UserCandidates(AfterPlaceholder(invrows), phases, out)| <= 1
    ensures r.Added? ==> dialog.Some? && dialog.value.0 != dialog.value.1
    ensures r.Added? && GetIdUni(unirows, Some(Assemblage(phases, out))).0 ==>
              |r.rows| == |unirows| + 1 && r.rows[..|unirows|] == unirows && UserRow(r.rows[|unirows|], r.id, dialog.value.0, dialog.value.1)
    ensures r.Added? && !GetIdUni(unirows, Some(Assemblage(phases, out))).0 ==>
              r.id in UniIds(unirows) && r.rows == RewriteListed(unirows, r.id, text, dialog.value.0, dialog.value.1, phases, out)
  {
    var invs := UserCandidates(AfterPlaceholder(invrows), phases, out);
    if |invs| <= 1 then NotEnough
    else if dialog.None? then Cancelled
    else
      var (b, e) := dialog.value;
      if b == e then SameEnds
      else
        var (isnew, id) := GetIdUni(unirows, Some(Assemblage(phases, out)));
        if isnew then
          Added(unirows + [UniRow(id, text, b, e, phases, out, true)], id)
        else
          ListedId(unirows, Assemblage(phases, out));
          Added(RewriteListed(unirows, id, text, b, e, phases, out), id)
  }

  /** A line the lookup finds is listed under the id it answers. */
  lemma ListedId(unirows: seq<UniRow>, zm: Assemblage)
    requires !GetIdUni(unirows, Some(zm)).0
    ensures GetIdUni(unirows, Some(zm)).1 in UniIds(unirows)
  {
    var ks := UniKeys(unirows);
    var j :| 0 <= j < |ks| && ks[j].id == GetIdUni(unirows, Some(zm)).1 && Matches(ks[j], zm) &&
             forall j' :: 0 <= j' < j ==> !Matches(ks[j'], zm);
    assert UniIds(unirows)[j] == ks[j].id;
  }

  // ---------------------------------------------------------------- row lookups

  function UniIds(rows: seq<UniRow>): (ids: seq<nat>)
    ensures |ids| == |rows|
    ensures forall i :: 0 <= i < |rows| ==> ids[i] == rows[i].id
  {
    Ids(UniKeys(rows))
  }

  function InvIds(rows: seq<InvRow>): (ids: seq<nat>)
    ensures |ids| == |rows|
    ensures forall i :: 0 <= i < |rows| ==> ids[i] == rows[i].id
  {
    Ids(InvKeys(rows))
  }

  /** `UniModel.lookup` after a row is removed: each id to its row index. */
  function UniLookup(rows: seq<UniRow>): (m: map<nat, nat>)
    ensures forall k :: k in m <==> k in UniIds(rows)
    ensures forall k :: k in m ==> m[k] < |rows| && rows[m[k]].id == k
  {
    Lookup(UniIds(rows), 0)
  }

  /** `InvModel.lookup` after a row is removed: each id after the placeholder to
      its row index, counting the placeholder. */
  function InvLookup(rows: seq<InvRow>): (m: map<nat, nat>)
    ensures forall k :: k in m ==> 1 <= m[k] < |rows| && rows[m[k]].id == k
  {
    var rest := AfterPlaceholder(rows);
    var m := Lookup(InvIds(rest), 1);
    assert forall k :: k in m ==> rest[m[k] - 1] == rows[m[k]];
    m
  }

  /** With distinct ids the point lookup finds every row after the placeholder at
      its own index. */
  lemma InvLookupRows(rows: seq<InvRow>)
    requires Distinct(InvIds(AfterPlaceholder(rows)))
    ensures forall i :: 1 <= i < |rows| ==> rows[i].id in InvLookup(rows) && InvLookup(rows)[rows[i].id] == i
  {
    var rest := AfterPlaceholder(rows);
    LookupDistinct(InvIds(rest), 1);
    forall i | 1 <= i < |rows| ensures rows[i].id in InvLookup(rows) && InvLookup(rows)[rows[i].id] == i {
      assert InvIds(rest)[i - 1] == rows[i].id;
    }
  }

  /** With distinct ids the line lookup finds every row at its own index. */
  lemma UniLookupRows(rows: seq<UniRow>)
    requires Distinct(UniIds(rows))
    ensures forall i :: 0 <= i < |rows| ==> rows[i].id in UniLookup(rows) && UniLookup(rows)[rows[i].id] == i
  {
    LookupDistinct(UniIds(rows), 0);
  }

  // ---------------------------------------------------------------- removing a point

  /** Some user-defined line row starts or ends at `id`. */
  predicate PinnedRows(rows: seq<UniRow>, id: nat) {
    exists i :: 0 <= i < |rows| && rows[i].manual && (rows[i].begin == id || rows[i].end == id)
  }

  /** The guard loop over the line rows. */
  function RowsDeletable(rows: seq<UniRow>, id: nat): (ok: bool)
    ensures ok <==> !PinnedRows(rows, id)
  {
    if |rows| == 0 then true
    else
      assert forall i :: 1 <= i < |rows| ==> rows[1..][i - 1] == rows[i];
      !(rows[0].manual && (rows[0].begin == id || rows[0].end == id)) && RowsDeletable(rows[1..], id)
  }

  /** One row with its begin and end at `id` zeroed. */
  function OpenEnd(row: UniRow, id: nat): (row': UniRow)
  {
    row.(begin := if row.begin == id then 0 else row.begin, end := if row.end == id then 0 else row.end)
  }

  function OpenEnds(rows: seq<UniRow>, id: nat): (rows': seq<UniRow>)
    ensures |rows'| == |rows|
    ensures forall i :: 0 <= i < |rows| ==> rows'[i] == OpenEnd(rows[i], id)
  {
    if |rows| == 0 then [] else [OpenEnd(rows[0], id)] + OpenEnds(rows[1..], id)
  }

  datatype RowRemoval = Refused | Declined | Removed(unirows: seq<UniRow>, invrows: seq<InvRow>, lookup: map<nat, nat>)

  /** `remove_inv` on the selected point row `sel`: the same guard as the section
      builder, then the begin and end columns at the point are zeroed, the row is
      deleted and the point lookup rebuilt. */
  function RemoveInvRow(unirows: seq<UniRow>, invrows: seq<InvRow>, sel: nat, confirmed: bool): (r: RowRemoval)
    requires sel < |invrows|
    ensures r.Refused? <==> PinnedRows(unirows, invrows[sel].id)
    ensures r.Declined? <==> !PinnedRows(unirows, invrows[sel].id) && !confirmed
    ensures r.Removed? ==> |r.unirows| == |unirows| && |r.invrows| == |invrows| - 1 && r.lookup == InvLookup(r.invrows)
  {
    var invnum := invrows[sel].id;
    if !RowsDeletable(unirows, invnum) then Refused
    else if !confirmed then Declined
    else
      var invrows' := invrows[..sel] + invrows[sel + 1..];
      Removed(OpenEnds(unirows, invnum), invrows', InvLookup(invrows'))
  }

  /** After a removal no line row refers to the point, rows not at it are kept
      as they were, and the other point rows keep their order. */
  lemma RemoveInvRowDetaches(unirows: seq<UniRow>, invrows: seq<InvRow>, sel: nat)
    requires sel < |invrows| && invrows[sel].id != 0
    requires !PinnedRows(unirows, invrows[sel].id)
    ensures var r := RemoveInvRow(unirows, invrows, sel, true);
            var id := invrows[sel].id;
            r.Removed? &&
            (forall i :: 0 <= i < |unirows| ==> r.unirows[i].begin != id && r.unirows[i].end != id) &&
            (forall i :: 0 <= i < |unirows| && unirows[i].begin != id && unirows[i].end != id ==> r.unirows[i] == unirows[i]) &&
            (forall i :: 0 <= i < |invrows| && i != sel ==> invrows[i] in r.invrows)
  {
    var invrows' := invrows[..sel] + invrows[sel + 1..];
    forall i | 0 <= i < |invrows| && i != sel ensures invrows[i] in invrows' {
      if i < sel {
        assert invrows'[i] == invrows[i];
      } else {
        assert invrows'[i - 1] == invrows[i];
      }
    }
  }
}
