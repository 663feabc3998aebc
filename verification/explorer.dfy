/** The discrete helpers of the pseudosection explorer: the 8-neighbourhood of a
    grid cell, the solution counts a grid reports, the points at the ends of a set
    of lines, the gating of `collect_data`, the endpoint labels of the drawpd
    file and the node dispatch of `eval_expr`. */
module Explorer {
  import opened Wrappers
  import opened Numerals
  import opened Topology

  // ---------------------------------------------------------------- GridData.neighs

  /** The offsets along one axis that survive the clipping of `neighs`: `-1` is
      dropped when `x < 1`, `+1` when `x > n - 2`. */
  function Offsets(x: int, n: int): (ds: seq<int>)
    ensures 0 in ds && |ds| >= 1
    ensures forall k :: 0 <= k < |ds| ==> -1 <= ds[k] <= 1
  {
    (if x < 1 then [] else [-1]) + [0] + (if x > n - 2 then [] else [1])
  }

  /** One row of the 3x3 neighbourhood, the centre left out. */
  function Row(r: int, c: int, dr: int, dcs: seq<int>): (cells: seq<(int, int)>)
    decreases |dcs|
  {
    if |dcs| == 0 then []
    else (if dr == 0 && dcs[0] == 0 then [] else [(r + dr, c + dcs[0])]) + Row(r, c, dr, dcs[1..])
  }

  /** The rows of the neighbourhood flattened row by row, as `m.flat` visits them. */
  function Cells(r: int, c: int, drs: seq<int>, dcs: seq<int>): (cells: seq<(int, int)>)
    decreases |drs|
  {
    if |drs| == 0 then [] else Row(r, c, drs[0], dcs) + Cells(r, c, drs[1..], dcs)
  }

  /** `neighs(r, c)` on a grid of `nrows` rows (`len(pspace)`) and `ncols` columns
      (`len(tspace)`). */
  function Neighs(r: int, c: int, nrows: nat, ncols: nat): (cells: seq<(int, int)>)
  {
    Cells(r, c, Offsets(r, nrows), Offsets(c, ncols))
  }

  /** A cell of the 8-neighbourhood of `(r, c)`: in the grid, not `(r, c)` itself,
      at most one step away along each axis. */
  predicate Adjacent(r: int, c: int, nrows: nat, ncols: nat, i: int, j: int) {
    && 0 <= i < nrows && 0 <= j < ncols
    && (i, j) != (r, c)
    && -1 <= i - r <= 1 && -1 <= j - c <= 1
  }

  lemma {:induction false} RowHas(r: int, c: int, dr: int, dcs: seq<int>, i: int, j: int)
    ensures (i, j) in Row(r, c, dr, dcs) <==> i == r + dr && j - c in dcs && (dr, j - c) != (0, 0)
    decreases |dcs|
  {
    if |dcs| > 0 {
      RowHas(r, c, dr, dcs[1..], i, j);
      assert dcs == [dcs[0]] + dcs[1..];
    }
  }

  lemma {:induction false} CellsHas(r: int, c: int, drs: seq<int>, dcs: seq<int>, i: int, j: int)
    ensures (i, j) in Cells(r, c, drs, dcs) <==> i - r in drs && j - c in dcs && (i, j) != (r, c)
    decreases |drs|
  {
    if |drs| > 0 {
      RowHas(r, c, drs[0], dcs, i, j);
      CellsHas(r, c, drs[1..], dcs, i, j);
      assert drs == [drs[0]] + drs[1..];
    }
  }

  /** Inside the grid, an offset survives exactly when it keeps the cell inside. */
  lemma OffsetsKeep(x: int, n: nat, d: int)
    requires 0 <= x < n
    ensures d in Offsets(x, n) <==> -1 <= d <= 1 && 0 <= x + d < n
  {
  }

  /** For a cell of the grid, `neighs` gives exactly its 8-neighbourhood clipped to
      the grid. */
  lemma NeighsExactly(r: int, c: int, nrows: nat, ncols: nat, i: int, j: int)
    requires 0 <= r < nrows && 0 <= c < ncols
    ensures (i, j) in Neighs(r, c, nrows, ncols) <==> Adjacent(r, c, nrows, ncols, i, j)
  {
    CellsHas(r, c, Offsets(r, nrows), Offsets(c, ncols), i, j);
    OffsetsKeep(r, nrows, i - r);
    OffsetsKeep(c, ncols, j - c);
  }

  /** How often `0` occurs among the offsets. */
  function Zeros(ds: seq<int>): (z: nat)
    ensures z <= |ds|
  {
    if |ds| == 0 then 0 else (if ds[0] == 0 then 1 else 0) + Zeros(ds[1..])
  }

  lemma {:induction false} RowSize(r: int, c: int, dr: int, dcs: seq<int>)
    ensures |Row(r, c, dr, dcs)| + (if dr == 0 then Zeros(dcs) else 0) == |dcs|
    decreases |dcs|
  {
    if |dcs| > 0 {
      RowSize(r, c, dr, dcs[1..]);
    }
  }

  lemma {:induction false} CellsSize(r: int, c: int, drs: seq<int>, dcs: seq<int>)
    ensures |Cells(r, c, drs, dcs)| + Zeros(drs) * Zeros(dcs) == |drs| * |dcs|
    decreases |drs|
  {
    if |drs| > 0 {
      RowSize(r, c, drs[0], dcs);
      CellsSize(r, c, drs[1..], dcs);
      SplitProducts(|drs[1..]|, |dcs|, Zeros(drs[1..]), if drs[0] == 0 then 1 else 0, Zeros(dcs));
    }
  }

  lemma SplitProducts(n: int, a: int, y: int, e: int, z: int)
    ensures (n + 1) * a == a + n * a
    ensures (y + e) * z == y * z + e * z
  {
  }

  lemma OffsetsShape(x: int, n: int)
    ensures Zeros(Offsets(x, n)) == 1
    ensures |Offsets(x, n)| == 1 + (if x < 1 then 0 else 1) + (if x > n - 2 then 0 else 1)
  {
    var ds := Offsets(x, n);
    assert Zeros([1]) == 0;
    assert Zeros([0, 1]) == 1 by { assert [0, 1][1..] == [1]; }
    assert Zeros([0]) == 1;
    if x < 1 {
      if x > n - 2 {
        assert ds == [0];
      } else {
        assert ds == [0, 1];
      }
    } else {
      if x > n - 2 {
        assert ds == [-1, 0];
        assert ds[1..] == [0];
      } else {
        assert ds == [-1, 0, 1];
        assert ds[1..] == [0, 1];
      }
    }
  }

  /** The number of neighbours: one less than the surviving rows times the
      surviving columns. */
  lemma NeighsCount(r: int, c: int, nrows: nat, ncols: nat)
    ensures |Neighs(r, c, nrows, ncols)| ==
            |Offsets(r, nrows)| * |Offsets(c, ncols)| - 1
  {
    OffsetsShape(r, nrows);
    OffsetsShape(c, ncols);
    CellsSize(r, c, Offsets(r, nrows), Offsets(c, ncols));
  }

  /** On a grid of at least 3x3: 8 neighbours inside, 5 on an edge, 3 at a corner. */
  lemma NeighsInteriorEdgeCorner(r: int, c: int, nrows: nat, ncols: nat)
    requires nrows >= 3 && ncols >= 3 && 0 <= r < nrows && 0 <= c < ncols
    ensures var onRowEdge := r == 0 || r == nrows - 1;
            var onColEdge := c == 0 || c == ncols - 1;
            |Neighs(r, c, nrows, ncols)| ==
              if onRowEdge && onColEdge then 3 else if onRowEdge || onColEdge then 5 else 8
  {
    NeighsCount(r, c, nrows, ncols);
    OffsetsShape(r, nrows);
    OffsetsShape(c, ncols);
  }

  // ---------------------------------------------------------------- GridData.__repr__

  /** A cell's `status`: `None` for the `nan` a cell starts with, else the value set. */
  type Status = Option<int>

  function CountOf(s: seq<Status>, v: Status): (n: nat)
    ensures n <= |s|
  {
    if |s| == 0 then 0 else (if s[0] == v then 1 else 0) + CountOf(s[1..], v)
  }

  /** The cells whose status is neither `1` nor `0`. */
  function Unsolved(s: seq<Status>): (n: nat)
    ensures n <= |s|
  {
    if |s| == 0 then 0 else (if s[0] != Some(1) && s[0] != Some(0) then 1 else 0) + Unsolved(s[1..])
  }

  datatype Counts = Counts(ok: nat, fail: nat, none: int)

  /** The counts `__repr__` reports for a grid whose `status` array holds
      `ncols * nrows` cells: `ok` with status 1, `fail` with status 0, `none` the rest. */
  function GridCounts(status: seq<Status>, nrows: nat, ncols: nat): (k: Counts)
    requires |status| == nrows * ncols
    ensures k.ok + k.fail + k.none == nrows * ncols
    ensures k.none >= 0
  {
    var ok := CountOf(status, Some(1));
    var fail := CountOf(status, Some(0));
    StatusSplit(status);
    Counts(ok, fail, nrows * ncols - ok - fail)
  }

  lemma {:induction false} StatusSplit(s: seq<Status>)
    ensures CountOf(s, Some(1)) + CountOf(s, Some(0)) + Unsolved(s) == |s|
    decreases |s|
  {
    if |s| > 0 {
      StatusSplit(s[1..]);
    }
  }

  /** The `none` count is exactly the number of cells that are neither solved nor failed. */
  lemma GridCountsNone(status: seq<Status>, nrows: nat, ncols: nat)
    requires |status| == nrows * ncols
    ensures GridCounts(status, nrows, ncols).none == Unsolved(status)
  {
    StatusSplit(status);
  }

  /** The text of `__repr__`. */
  function GridRepr(status: seq<Status>, nrows: nat, ncols: nat): (s: string)
    requires |status| == nrows * ncols
  {
    var k := GridCounts(status, nrows, ncols);
    "Grid " + NatToString(ncols) + "x" + NatToString(nrows) + " with ok/failed/none solutions " +
    NatToString(k.ok) + "/" + NatToString(k.fail) + "/" + NatToString(k.none)
  }

  // ---------------------------------------------------------------- PTPS.invs_from_edges

  /** `{uni.begin for ed in edges} | {uni.end for ed in edges} - {0}`, with the
      `KeyError` of the first edge that is not a stored line. */
  function InvsFromEdges(lines: map<nat, UniLine>, edges: seq<nat>): (r: Result<set<nat>>)
    ensures r.Ok? <==> forall k :: 0 <= k < |edges| ==> edges[k] in lines
    ensures r.Err? ==> r.error.KeyError?
    ensures r.Ok? ==> 0 !in r.value
    decreases |edges|
  {
    if |edges| == 0 then Ok({})
    else if edges[0] !in lines then Err(KeyError(NatToString(edges[0])))
    else
      var rest :- InvsFromEdges(lines, edges[1..]);
      var u := lines[edges[0]];
      Ok(({u.begin, u.end} - {0}) + rest)
  }

  /** Some edge begins or ends at `id`. */
  predicate Touches(lines: map<nat, UniLine>, edges: seq<nat>, id: nat) {
    exists k :: 0 <= k < |edges| && edges[k] in lines && (lines[edges[k]].begin == id || lines[edges[k]].end == id)
  }

  /** The points found are exactly the non-zero ends of the given lines. */
  lemma {:induction false} InvsFromEdgesExactly(lines: map<nat, UniLine>, edges: seq<nat>, id: nat)
    requires InvsFromEdges(lines, edges).Ok?
    ensures id in InvsFromEdges(lines, edges).value <==> id != 0 && Touches(lines, edges, id)
    decreases |edges|
  {
    if |edges| > 0 {
      InvsFromEdgesExactly(lines, edges[1..], id);
      if Touches(lines, edges[1..], id) {
        var k :| 0 <= k < |edges[1..]| && edges[1..][k] in lines &&
                 (lines[edges[1..][k]].begin == id || lines[edges[1..][k]].end == id);
        assert edges[k + 1] == edges[1..][k];
      }
      if Touches(lines, edges, id) {
        var k :| 0 <= k < |edges| && edges[k] in lines && (lines[edges[k]].begin == id || lines[edges[k]].end == id);
        if k > 0 {
          assert edges[1..][k - 1] == edges[k];
        }
      }
    }
  }

  // ---------------------------------------------------------------- PTPS.collect_data

  /** The first `)` at or after `k` that the non-greedy `.*?` of the pattern can
      reach: `None` when a line break or the end of the text comes first. */
  function CloseFrom(s: string, k: nat): (j: Option<nat>)
    requires k <= |s|
    ensures j.Some? ==> k <= j.value < |s| && s[j.value] == ')'
    ensures j.Some? ==> forall i :: k <= i < j.value ==> s[i] != ')' && s[i] != '\n'
    ensures j.None? ==> forall i :: k <= i < |s| && s[i] == ')' ==> exists m :: k <= m < i && s[m] == '\n'
    decreases |s| - k
  {
    if k == |s| || s[k] == '\n' then None
    else if s[k] == ')' then Some(k)
    else CloseFrom(s, k + 1)
  }

  /** `re.sub('[\\(].*?[\\)]', '', s)`: every `(` with a `)` after it on the same
      line is dropped together with that `)` and what lies between. */
  function DropGroups(s: string): (r: string)
    ensures |r| <= |s|
    decreases |s|
  {
    if |s| == 0 then ""
    else if s[0] == '(' then
      match CloseFrom(s, 1)
      case Some(j) => DropGroups(s[j + 1..])
      case None => [s[0]] + DropGroups(s[1..])
    else [s[0]] + DropGroups(s[1..])
  }

  /** Text without `(` is left alone. */
  lemma {:induction false} DropGroupsPlain(s: string)
    requires '(' !in s
    ensures DropGroups(s) == s
    decreases |s|
  {
    if |s| > 0 {
      DropGroupsPlain(s[1..]);
      assert s == [s[0]] + s[1..];
    }
  }

  /** An end-member in brackets after a phase name is removed with its brackets. */
  lemma DropGroupsSuffix(a: string, b: string)
    requires '(' !in a && ')' !in b && '\n' !in b
    ensures DropGroups(a + "(" + b + ")") == a
  {
    var g := "(" + b + ")";
    assert a + "(" + b + ")" == a + g;
    DropGroupsAfter(a, g);
    CloseAfterGroup(b);
    assert g[0] == '(' && g[|b| + 2..] == "";
    assert DropGroups(g) == DropGroups(g[|b| + 2..]);
  }

  lemma CloseAfterGroup(b: string)
    requires ')' !in b && '\n' !in b
    ensures CloseFrom("(" + b + ")", 1) == Some(|b| + 1)
  {
    var g := "(" + b + ")";
    CloseScan(g, 1, |b| + 1);
  }

  lemma {:induction false} CloseScan(g: string, k: nat, j: nat)
    requires k <= j < |g| && g[j] == ')'
    requires forall i :: k <= i < j ==> g[i] != ')' && g[i] != '\n'
    ensures CloseFrom(g, k) == Some(j)
    decreases j - k
  {
    if k < j {
      CloseScan(g, k + 1, j);
    }
  }

  /** A `(`-free prefix passes through unchanged. */
  lemma {:induction false} DropGroupsAfter(a: string, t: string)
    requires '(' !in a
    ensures DropGroups(a + t) == a + DropGroups(t)
    decreases |a|
  {
    if |a| > 0 {
      assert (a + t)[0] == a[0] && (a + t)[1..] == a[1..] + t;
      DropGroupsAfter(a[1..], t);
      assert a == [a[0]] + a[1..];
    } else {
      assert a + t == t;
    }
  }

  /** Python's `which & (1 << k) != 0` for a non-negative `which`. */
  predicate Bit(which: nat, k: nat) {
    (which / Pow2(k)) % 2 == 1
  }

  function Pow2(k: nat): (p: nat)
    ensures p >= 1
  {
    if k == 0 then 1 else 2 * Pow2(k - 1)
  }

  type Point = (real, real)

  /** The `dict(pts=[], data=[])` that the collectors fill. */
  datatype Data = Data(pts: seq<Point>, data: seq<real>)
  {
    predicate Parallel() {
      |pts| == |data|
    }
  }

  function Extend(d: Data, e: Data): (r: Data)
    ensures |r.pts| == |d.pts| + |e.pts| && |r.data| == |d.data| + |e.data|
  {
    Data(d.pts + e.pts, d.data + e.data)
  }

  const NoData := Data([], [])

  /** `collect_data(key, phase, expr, which)`, given what `collect_inv_data`,
      `collect_edges_data` and `collect_grid_data` collect for the same arguments:
      nothing unless the phase, its bracketed end-member removed, is in the key;
      otherwise the sources whose bit is set in `which`, in that order. */
  function CollectData(key: set<string>, phase: string, which: nat, inv: Data, edges: Data, grid: Data): (r: Data)
    ensures DropGroups(phase) !in key ==> r == NoData
    ensures DropGroups(phase) in key ==>
      |r.pts| == (if Bit(which, 0) then |inv.pts| else 0) + (if Bit(which, 1) then |edges.pts| else 0)
                 + (if Bit(which, 2) then |grid.pts| else 0)
    ensures inv.Parallel() && edges.Parallel() && grid.Parallel() ==> r.Parallel()
  {
    if DropGroups(phase) in key then
      var d0 := if Bit(which, 0) then inv else NoData;
      var d1 := if Bit(which, 1) then edges else NoData;
      var d2 := if Bit(which, 2) then grid else NoData;
      Extend(Extend(Extend(NoData, d0), d1), d2)
    else NoData
  }

  lemma BitsOfSmall(which: nat)
    requires which < 8
    ensures which == (if Bit(which, 0) then 1 else 0) + (if Bit(which, 1) then 2 else 0) + (if Bit(which, 2) then 4 else 0)
  {
    assert Pow2(1) == 2 && Pow2(2) == 4;
  }

  /** Asking for several sources at once collects what asking for each one alone
      collects, concatenated in the order inv, edges, grid. */
  lemma CollectDataByBits(key: set<string>, phase: string, which: nat, inv: Data, edges: Data, grid: Data)
    ensures CollectData(key, phase, which, inv, edges, grid) ==
            Extend(Extend(CollectData(key, phase, which % 2, inv, edges, grid),
                          CollectData(key, phase, which / 2 % 2 * 2, inv, edges, grid)),
                   CollectData(key, phase, which / 4 % 2 * 4, inv, edges, grid))
  {
    BitsAlone(which);
    if DropGroups(phase) in key {
      var d0 := if Bit(which, 0) then inv else NoData;
      var d1 := if Bit(which, 1) then edges else NoData;
      var d2 := if Bit(which, 2) then grid else NoData;
      OnlySource(key, phase, which % 2, inv, edges, grid, d0, 0);
      OnlySource(key, phase, which / 2 % 2 * 2, inv, edges, grid, d1, 1);
      OnlySource(key, phase, which / 4 % 2 * 4, inv, edges, grid, d2, 2);
      ExtendNoData(d0, d1, d2);
    }
  }

  /** With at most bit `k` set, `collect_data` returns that source or nothing. */
  lemma OnlySource(key: set<string>, phase: string, m: nat, inv: Data, edges: Data, grid: Data, d: Data, k: nat)
    requires DropGroups(phase) in key && k < 3
    requires forall b :: 0 <= b < 3 && b != k ==> !Bit(m, b)
    requires d == if !Bit(m, k) then NoData else if k == 0 then inv else if k == 1 then edges else grid
    ensures CollectData(key, phase, m, inv, edges, grid) == d
  {
    assert !Bit(m, 0) || k == 0;
    assert !Bit(m, 1) || k == 1;
    assert !Bit(m, 2) || k == 2;
    assert Extend(NoData, NoData) == NoData;
    assert Extend(NoData, d) == d;
    assert Extend(d, NoData) == d;
  }

  lemma ExtendNoData(d0: Data, d1: Data, d2: Data)
    ensures Extend(Extend(Extend(NoData, d0), d1), d2) == Extend(Extend(d0, d1), d2)
  {
    assert Extend(NoData, d0) == d0;
  }

  /** A one-bit mask has that bit and no other among the three. */
  lemma BitsAlone(which: nat)
    ensures var m := which % 2; Bit(m, 0) == Bit(which, 0) && !Bit(m, 1) && !Bit(m, 2)
    ensures var m := which / 2 % 2 * 2; Bit(m, 1) == Bit(which, 1) && !Bit(m, 0) && !Bit(m, 2)
    ensures var m := which / 4 % 2 * 4; Bit(m, 2) == Bit(which, 2) && !Bit(m, 0) && !Bit(m, 1)
  {
    assert Pow2(0) == 1 && Pow2(1) == 2 && Pow2(2) == 4;
  }

  // ---------------------------------------------------------------- gendrawpd

  /** The name drawpd is given for one end of a line: `begin` or `end` for an
      open end, `i<id>` for a point. */
  function EndLabel(id: nat, atBegin: bool): (s: string)
    ensures |s| > 0
  {
    if id == 0 then (if atBegin then "begin" else "end") else "i" + NatToString(id)
  }

  /** A point's label names its id: `i` then the id in decimal, read back by `int`. */
  lemma EndLabelReads(id: nat, atBegin: bool)
    requires id > 0
    ensures EndLabel(id, atBegin)[0] == 'i'
    ensures PyInt(EndLabel(id, atBegin)[1..]) == Ok(id)
  {
    var s := EndLabel(id, atBegin);
    assert s[1..] == NatToString(id);
    NatRoundTrip(id);
  }

  /** Different ends get different labels at the same side of a line. */
  lemma EndLabelInjective(a: nat, b: nat, atBegin: bool)
    requires EndLabel(a, atBegin) == EndLabel(b, atBegin)
    ensures a == b
  {
    EndLabelHead(a, atBegin);
    EndLabelHead(b, atBegin);
    if a > 0 && b > 0 {
      EndLabelReads(a, atBegin);
      EndLabelReads(b, atBegin);
    }
  }

  /** Only a point's label starts with `i`. */
  lemma EndLabelHead(id: nat, atBegin: bool)
    ensures EndLabel(id, atBegin)[0] == 'i' <==> id > 0
  {
  }

  /** The `connect` line written for a manual line. */
  function ConnectLine(u: UniLine): string {
    EndLabel(u.begin, true) + " " + EndLabel(u.end, false) + " connect\n"
  }

  // ---------------------------------------------------------------- eval_expr

  /** The binary operators of Python's `ast`; `ops` maps the first five. */
  datatype BinKind = Add | Sub | Mult | Div | Pow | Mod | FloorDiv | MatMult | LShift | RShift | BitOr | BitXor | BitAnd

  datatype UnaryKind = USub | UAdd | Not | Invert

  /** The nodes of a parsed expression: numbers, names, binary and unary
      operations, and any other node kind by its class name. */
  datatype Node =
    | Num(n: real)
    | Name(id: string)
    | BinOp(op: BinKind, left: Node, right: Node)
    | UnaryOp(uop: UnaryKind, operand: Node)
    | OtherNode(kind: string)

  /** numpy's `divide` and `power` on floats, which the model takes as given. */
  datatype Numpy = Numpy(divide: (real, real) -> real, power: (real, real) -> real)

  function BinName(op: BinKind): string {
    match op
    case Add => "Add" case Sub => "Sub" case Mult => "Mult" case Div => "Div" case Pow => "Pow"
    case Mod => "Mod" case FloorDiv => "FloorDiv" case MatMult => "MatMult" case LShift => "LShift"
    case RShift => "RShift" case BitOr => "BitOr" case BitXor => "BitXor" case BitAnd => "BitAnd"
  }

  function UnaryName(op: UnaryKind): string {
    match op
    case USub => "USub" case UAdd => "UAdd" case Not => "Not" case Invert => "Invert"
  }

  /** The `KeyError` of `ops[type(node.op)]` for an operator `ops` lacks. */
  function MissingOp(name: string): PyError {
    KeyError("<class 'ast." + name + "'>")
  }

  predicate InOps(op: BinKind) {
    op in {Add, Sub, Mult, Div, Pow}
  }

  function Apply(np: Numpy, op: BinKind, a: real, b: real): real
    requires InOps(op)
  {
    match op
    case Add => a + b
    case Sub => a - b
    case Mult => a * b
    case Div => np.divide(a, b)
    case Pow => np.power(a, b)
  }

  /** `eval_(node)` as written: the operator is looked up in `ops` before its
      operands are evaluated, and `ops` holds no unary operator, so every unary
      node raises `KeyError`. */
  function EvalAsWritten(e: Node, dt: map<string, real>, np: Numpy): (r: Result<real>)
    ensures e.UnaryOp? ==> r == Err(MissingOp(UnaryName(e.uop)))
    ensures e.OtherNode? ==> r == Err(TypeError(e.kind))
  {
    match e
    case Num(n) => Ok(n)
    case Name(id) => if id in dt then Ok(dt[id]) else Err(KeyError("'" + id + "'"))
    case BinOp(op, left, right) =>
      if !InOps(op) then Err(MissingOp(BinName(op)))
      else
        var a :- EvalAsWritten(left, dt, np);
        var b :- EvalAsWritten(right, dt, np);
        Ok(Apply(np, op, a, b))
    case UnaryOp(op, _) => Err(MissingOp(UnaryName(op)))
    case OtherNode(kind) => Err(TypeError(kind))
  }

  /** The example the code's own comment gives for its unary branch, `-1`, raises. */
  lemma UnaryMinusRaises(dt: map<string, real>, np: Numpy)
    ensures EvalAsWritten(UnaryOp(USub, Num(1.0)), dt, np).Err?
    ensures EvalAsWritten(UnaryOp(USub, Num(1.0)), dt, np).error.KeyError?
  {
  }

  /** `eval_(node)` with the unary operators `-` and `+` in `ops`, as its unary
      branch intends. */
  function Eval(e: Node, dt: map<string, real>, np: Numpy): (r: Result<real>)
    ensures r.Err? ==> r.error.KeyError? || r.error.TypeError?
    ensures e.OtherNode? ==> r == Err(TypeError(e.kind))
  {
    match e
    case Num(n) => Ok(n)
    case Name(id) => if id in dt then Ok(dt[id]) else Err(KeyError("'" + id + "'"))
    case BinOp(op, left, right) =>
      if !InOps(op) then Err(MissingOp(BinName(op)))
      else
        var a :- Eval(left, dt, np);
        var b :- Eval(right, dt, np);
        Ok(Apply(np, op, a, b))
    case UnaryOp(op, operand) =>
      if op !in {USub, UAdd} then Err(MissingOp(UnaryName(op)))
      else
        var a :- Eval(operand, dt, np);
        Ok(if op == USub then -a else a)
    case OtherNode(kind) => Err(TypeError(kind))
  }

  /** The expressions `eval_` can evaluate: every name bound, every operator in
      `ops`, no other node kind. */
  predicate Supported(e: Node, dt: map<string, real>) {
    match e
    case Num(_) => true
    case Name(id) => id in dt
    case BinOp(op, left, right) => InOps(op) && Supported(left, dt) && Supported(right, dt)
    case UnaryOp(op, operand) => op in {USub, UAdd} && Supported(operand, dt)
    case OtherNode(_) => false
  }

  /** The value of a supported expression, by the usual reading of its tree. */
  function Value(e: Node, dt: map<string, real>, np: Numpy): real
    requires Supported(e, dt)
  {
    match e
    case Num(n) => n
    case Name(id) => dt[id]
    case BinOp(op, left, right) => Apply(np, op, Value(left, dt, np), Value(right, dt, np))
    case UnaryOp(op, operand) => if op == USub then -Value(operand, dt, np) else Value(operand, dt, np)
  }

  /** `eval_` succeeds exactly on the supported expressions, with their value. */
  lemma {:induction false} EvalSupported(e: Node, dt: map<string, real>, np: Numpy)
    ensures Eval(e, dt, np).Ok? <==> Supported(e, dt)
    ensures Supported(e, dt) ==> Eval(e, dt, np) == Ok(Value(e, dt, np))
  {
    match e
    case Num(_) =>
    case Name(_) =>
    case BinOp(op, left, right) =>
      EvalSupported(left, dt, np);
      EvalSupported(right, dt, np);
    case UnaryOp(op, operand) =>
      EvalSupported(operand, dt, np);
    case OtherNode(_) =>
  }

  /** Without unary nodes the corrected evaluation is the code as written. */
  lemma {:induction false} EvalAgreesWithoutUnary(e: Node, dt: map<string, real>, np: Numpy)
    requires NoUnary(e)
    ensures Eval(e, dt, np) == EvalAsWritten(e, dt, np)
  {
    match e
    case Num(_) =>
    case Name(_) =>
    case BinOp(op, left, right) =>
      EvalAgreesWithoutUnary(left, dt, np);
      EvalAgreesWithoutUnary(right, dt, np);
    case UnaryOp(_, _) =>
    case OtherNode(_) =>
  }

  predicate NoUnary(e: Node) {
    match e
    case BinOp(_, left, right) => NoUnary(left) && NoUnary(right)
    case UnaryOp(_, _) => false
    case _ => true
  }

  /** The corrected evaluation negates under unary minus. */
  lemma EvalNegates(e: Node, dt: map<string, real>, np: Numpy)
    ensures Eval(UnaryOp(USub, e), dt, np).Ok? <==> Eval(e, dt, np).Ok?
    ensures Eval(e, dt, np).Ok? ==> Eval(UnaryOp(USub, e), dt, np) == Ok(-Eval(e, dt, np).value)
  {
  }
}
