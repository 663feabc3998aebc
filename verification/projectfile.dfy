/** A saved project read back for plotting: the row lookups built on loading and
    the coordinates of a line trimmed to the part between its end points. The
    coordinate values are opaque (`X`); the same assembly is applied to the
    temperature and to the pressure series. */
module ProjectFile {
  import opened Wrappers
  import opened Registries

  /** A saved line row: id, begin and end point ids (`0` for an open end), whether
      it is user-defined, its computed series and the index range kept by trimming. */
  datatype LineRow<X> = LineRow(id: nat, begin: nat, end: nat, manual: bool, xs: seq<X>, begix: nat, endix: nat)

  /** A saved point row: id and its series (the point is its first entry). */
  datatype PointRow<X> = PointRow(id: nat, xs: seq<X>)

  function LineIds<X>(lines: seq<LineRow<X>>): (ids: seq<nat>)
    ensures |ids| == |lines|
    ensures forall i :: 0 <= i < |lines| ==> ids[i] == lines[i].id
  {
    if |lines| == 0 then [] else [lines[0].id] + LineIds(lines[1..])
  }

  function PointIds<X>(points: seq<PointRow<X>>): (ids: seq<nat>)
    ensures |ids| == |points|
    ensures forall i :: 0 <= i < |points| ==> ids[i] == points[i].id
  {
    if |points| == 0 then [] else [points[0].id] + PointIds(points[1..])
  }

  /** `unilookup`: each line id to the index of its row. */
  function LineLookup<X>(lines: seq<LineRow<X>>): (m: map<nat, nat>)
    ensures forall k :: k in m <==> k in LineIds(lines)
    ensures forall k :: k in m ==> m[k] < |lines| && lines[m[k]].id == k
  {
    Lookup(LineIds(lines), 0)
  }

  /** `invlookup`: each point id to the index of its row. */
  function PointLookup<X>(points: seq<PointRow<X>>): (m: map<nat, nat>)
    ensures forall k :: k in m <==> k in PointIds(points)
    ensures forall k :: k in m ==> m[k] < |points| && points[m[k]].id == k
  {
    Lookup(PointIds(points), 0)
  }

  /** With distinct ids every row is found at its own index. */
  lemma LineLookupRow<X>(lines: seq<LineRow<X>>, i: nat)
    requires Distinct(LineIds(lines)) && i < |lines|
    ensures lines[i].id in LineLookup(lines) && LineLookup(lines)[lines[i].id] == i
  {
    var ids := LineIds(lines);
    LookupDistinct(ids, 0);
    assert ids[i] == lines[i].id;
  }

  /** Python's `s[i:j]` for non-negative bounds: both clamped to the length. */
  function PySlice<X>(s: seq<X>, i: nat, j: nat): (r: seq<X>)
    ensures i <= j <= |s| ==> r == s[i..j]
    ensures |r| == if j <= i || |s| <= i then 0 else (if j <= |s| then j else |s|) - i
  {
    var lo := if i <= |s| then i else |s|;
    var hi := if j <= |s| then j else |s|;
    if hi <= lo then [] else s[lo..hi]
  }

  /** The contribution of one end: nothing for an open end, otherwise the first
      entry of the end point's series; a missing point is a `KeyError` and an
      empty series an `IndexError`. */
  function EndPoint<X>(points: seq<PointRow<X>>, id: nat): (r: Result<seq<X>>)
    ensures id == 0 ==> r == Ok([])
    ensures id > 0 && id !in PointIds(points) ==> r.Err? && r.error.KeyError?
    ensures r.Ok? ==> |r.value| == if id > 0 then 1 else 0
    ensures r.Ok? && id > 0 ==> id in PointLookup(points) && |points[PointLookup(points)[id]].xs| > 0 &&
                                r.value[0] == points[PointLookup(points)[id]].xs[0]
  {
    if id == 0 then Ok([])
    else
      var lookup := PointLookup(points);
      if id !in lookup then Err(KeyError("point id"))
      else
        var xs := points[lookup[id]].xs;
        if |xs| == 0 then Err(IndexError("index 0 is out of bounds")) else Ok([xs[0]])
  }

  /** The series between the ends: the trimmed range `[begix:endix + 1]` of a
      computed line; for a user-defined line the whole series while both ends are
      open and nothing once an end is connected. */
  function Middle<X>(u: LineRow<X>): (m: seq<X>)
    ensures !u.manual && u.begix <= u.endix < |u.xs| ==> m == u.xs[u.begix..u.endix + 1]
    ensures u.manual && u.begin == 0 && u.end == 0 ==> m == u.xs
    ensures u.manual && (u.begin != 0 || u.end != 0) ==> m == []
  {
    if !u.manual then PySlice(u.xs, u.begix, u.endix + 1)
    else if u.begin == 0 && u.end == 0 then u.xs
    else []
  }

  /** `np.hstack((T1, T, T2))`, the begin end's error first. */
  function Assemble<X>(first: Result<seq<X>>, middle: seq<X>, last: Result<seq<X>>): (r: Result<seq<X>>)
    ensures r.Ok? <==> first.Ok? && last.Ok?
    ensures r.Ok? ==> |r.value| == |first.value| + |middle| + |last.value|
    ensures r.Ok? ==> r.value[..|first.value|] == first.value
    ensures r.Ok? ==> r.value[|first.value|..|first.value| + |middle|] == middle
    ensures r.Ok? ==> r.value[|first.value| + |middle|..] == last.value
    ensures first.Err? ==> r == Err(first.error)
  {
    if first.Err? then Err(first.error)
    else if last.Err? then Err(last.error)
    else
      var r := first.value + middle + last.value;
      assert r[|first.value|..|first.value| + |middle|] == middle;
      Ok(r)
  }

  /** `get_trimmed_uni(fid)`: the begin point, then the series between the ends,
      then the end point. */
  function TrimmedUni<X>(lines: seq<LineRow<X>>, points: seq<PointRow<X>>, fid: nat): (r: Result<seq<X>>)
    ensures fid !in LineIds(lines) ==> r.Err? && r.error.KeyError?
    ensures fid in LineIds(lines) ==>
              var u := lines[LineLookup(lines)[fid]];
              r == Assemble(EndPoint(points, u.begin), Middle(u), EndPoint(points, u.end))
  {
    var lookup := LineLookup(lines);
    if fid !in lookup then Err(KeyError("line id"))
    else
      var u := lines[lookup[fid]];
      Assemble(EndPoint(points, u.begin), Middle(u), EndPoint(points, u.end))
  }

  /** The pieces of a successful assembly, read back by position. */
  lemma AssembledAt<X>(first: seq<X>, middle: seq<X>, last: seq<X>)
    requires |first| <= 1 && |last| <= 1
    ensures var r := Assemble(Ok(first), middle, Ok(last)).value;
            |r| == |first| + |middle| + |last| &&
            r[|first|..|first| + |middle|] == middle &&
            (|first| == 1 ==> r[0] == first[0]) &&
            (|last| == 1 ==> r[|r| - 1] == last[0])
  {
    var r := Assemble(Ok(first), middle, Ok(last)).value;
    if |first| == 1 {
      assert r[0] == r[..|first|][0];
    }
    if |last| == 1 {
      assert r[|r| - 1] == r[|first| + |middle|..][0];
    }
  }

  /** A computed line is its trimmed range, preceded by the begin point and
      followed by the end point where those ends are connected. */
  lemma TrimmedComputed<X>(lines: seq<LineRow<X>>, points: seq<PointRow<X>>, fid: nat, u: LineRow<X>)
    requires fid in LineIds(lines) && u == lines[LineLookup(lines)[fid]]
    requires !u.manual && u.begix <= u.endix < |u.xs| && TrimmedUni(lines, points, fid).Ok?
    ensures |TrimmedUni(lines, points, fid).value|
            == (if u.begin > 0 then 1 else 0) + (u.endix + 1 - u.begix) + (if u.end > 0 then 1 else 0)
    ensures var nb := if u.begin > 0 then 1 else 0;
            TrimmedUni(lines, points, fid).value[nb..nb + (u.endix + 1 - u.begix)] == u.xs[u.begix..u.endix + 1]
    ensures u.begin > 0 ==> TrimmedUni(lines, points, fid).value[0] == points[PointLookup(points)[u.begin]].xs[0]
    ensures u.end > 0 ==> var r := TrimmedUni(lines, points, fid).value;
                          r[|r| - 1] == points[PointLookup(points)[u.end]].xs[0]
  {
    var first := EndPoint(points, u.begin);
    var last := EndPoint(points, u.end);
    assert TrimmedUni(lines, points, fid) == Assemble(first, Middle(u), last);
    assert first.Ok? && last.Ok?;
    assert Middle(u) == u.xs[u.begix..u.endix + 1];
    AssembledAt(first.value, Middle(u), last.value);
  }

  /** A user-defined line with both ends open is its whole series. */
  lemma TrimmedManualOpen<X>(lines: seq<LineRow<X>>, points: seq<PointRow<X>>, fid: nat)
    requires fid in LineIds(lines)
    requires var u := lines[LineLookup(lines)[fid]]; u.manual && u.begin == 0 && u.end == 0
    ensures TrimmedUni(lines, points, fid) == Ok(lines[LineLookup(lines)[fid]].xs)
  {
    var u := lines[LineLookup(lines)[fid]];
    var a := Assemble(Ok([]), u.xs, Ok([]));
    assert a.value[0..|u.xs|] == u.xs;
    assert a.value == a.value[0..|u.xs|];
  }

  /** A user-defined line with a connected end is only its end points. */
  lemma TrimmedManualConnected<X>(lines: seq<LineRow<X>>, points: seq<PointRow<X>>, fid: nat)
    requires fid in LineIds(lines)
    requires var u := lines[LineLookup(lines)[fid]]; u.manual && (u.begin != 0 || u.end != 0)
    requires TrimmedUni(lines, points, fid).Ok?
    ensures var u := lines[LineLookup(lines)[fid]];
            TrimmedUni(lines, points, fid).value == EndPoint(points, u.begin).value + EndPoint(points, u.end).value
    ensures 1 <= |TrimmedUni(lines, points, fid).value| <= 2
  {
    var u := lines[LineLookup(lines)[fid]];
    var first := EndPoint(points, u.begin).value;
    var r := TrimmedUni(lines, points, fid).value;
    assert r == r[..|first|] + r[|first|..];
  }
}
