/** The graph part of `construct_areas`: lines are grouped into candidate fields
    ("faces") by phase set, each face's lines become a graph over point ids, and
    a depth-first search looks for a closed loop that bounds the field. */
module Areas {
  import opened Wrappers
  import opened Text
  import opened Numerals
  import opened Registries
  import opened Topology

  // ---------------------------------------------------------------- faces

  /** The faces a line borders: its own phases, its phases without the out
      phase, and for each polymorph pair among its phases the phases without
      the polymorph that is not out. */
  function FaceKeys(u: UniLine): (fs: seq<Phases>)
    ensures forall f :: f in fs <==> f == u.phases || f == u.phases - u.out || PolymorphFace(f, u)
  {
    [u.phases, u.phases - u.out] + PolyFaces(u, Polymorphs)
  }

  ghost predicate PolymorphFace(f: Phases, u: UniLine) {
    exists i :: 0 <= i < |Polymorphs| && Polymorphs[i] <= u.phases && f == u.phases - (Polymorphs[i] - u.out)
  }

  function PolyFaces(u: UniLine, ps: seq<Phases>): (fs: seq<Phases>)
    ensures forall f :: f in fs <==> exists i :: 0 <= i < |ps| && ps[i] <= u.phases && f == u.phases - (ps[i] - u.out)
  {
    if |ps| == 0 then []
    else
      var rest := PolyFaces(u, ps[1..]);
      assert forall f :: f in rest <==> exists i :: 1 <= i < |ps| && ps[i] <= u.phases && f == u.phases - (ps[i] - u.out) by {
        forall f ensures f in rest <==> exists i :: 1 <= i < |ps| && ps[i] <= u.phases && f == u.phases - (ps[i] - u.out) {
          if f in rest {
            var i :| 0 <= i < |ps[1..]| && ps[1..][i] <= u.phases && f == u.phases - (ps[1..][i] - u.out);
            assert ps[i + 1] == ps[1..][i];
          }
          if exists i :: 1 <= i < |ps| && ps[i] <= u.phases && f == u.phases - (ps[i] - u.out) {
            var i :| 1 <= i < |ps| && ps[i] <= u.phases && f == u.phases - (ps[i] - u.out);
            assert ps[1..][i - 1] == ps[i];
          }
        }
      }
      (if ps[0] <= u.phases then [u.phases - (ps[0] - u.out)] else []) + rest
  }

  /** Face → indexes of its lines, in the order faces were first met. */
  type FaceTable = Registry<Phases, seq<nat>>

  ghost predicate Listed(t: FaceTable, f: Phases, ix: nat) {
    f in t.items && ix in t.items[f]
  }

  /** `faces[f].append(ix)`, creating the entry when `f` is new. */
  function AddToFace(t: FaceTable, f: Phases, ix: nat): (t': FaceTable)
    requires t.Valid()
    ensures t'.Valid()
    ensures forall g :: g in t'.items <==> g in t.items || g == f
    ensures forall g, j :: Listed(t', g, j) <==> Listed(t, g, j) || (g == f && j == ix)
  {
    Put(t, f, if f in t.items then t.items[f] + [ix] else [ix])
  }

  function AddToFaces(t: FaceTable, fs: seq<Phases>, ix: nat): (t': FaceTable)
    requires t.Valid()
    ensures t'.Valid()
    ensures forall g :: g in t'.items <==> g in t.items || g in fs
    ensures forall g, j :: Listed(t', g, j) <==> Listed(t, g, j) || (g in fs && j == ix)
    decreases |fs|
  {
    if |fs| == 0 then t
    else
      MemberOfTail(fs);
      AddToFaces(AddToFace(t, fs[0], ix), fs[1..], ix)
  }

  lemma MemberOfTail<T>(xs: seq<T>)
    requires |xs| > 0
    ensures forall x :: x in xs <==> x == xs[0] || x in xs[1..]
  {
    assert xs == [xs[0]] + xs[1..];
  }

  /** Line `ix` comes at or after position `i` of the registry and borders `f`. */
  ghost predicate ListedFrom(lines: Registry<nat, UniLine>, i: nat, f: Phases, ix: nat)
    requires lines.Valid()
  {
    exists j :: i <= j < |lines.order| && lines.order[j] == ix && f in FaceKeys(lines.items[ix])
  }

  function FacesFrom(lines: Registry<nat, UniLine>, i: nat, t: FaceTable): (t': FaceTable)
    requires lines.Valid() && t.Valid() && i <= |lines.order|
    ensures t'.Valid()
    ensures forall f, ix :: Listed(t', f, ix) <==> (Listed(t, f, ix) || ListedFrom(lines, i, f, ix))
    decreases |lines.order| - i
  {
    if i == |lines.order| then t
    else
      var ix := lines.order[i];
      var t1 := AddToFaces(t, FaceKeys(lines.items[ix]), ix);
      var t' := FacesFrom(lines, i + 1, t1);
      FacesStep(lines, i, t, t1, t');
      t'
  }

  lemma FacesStep(lines: Registry<nat, UniLine>, i: nat, t: FaceTable, t1: FaceTable, t': FaceTable)
    requires lines.Valid() && i < |lines.order|
    requires forall g, j :: Listed(t1, g, j) <==>
               (Listed(t, g, j) || (g in FaceKeys(lines.items[lines.order[i]]) && j == lines.order[i]))
    requires forall f, ix :: Listed(t', f, ix) <==> (Listed(t1, f, ix) || ListedFrom(lines, i + 1, f, ix))
    ensures forall f, ix :: Listed(t', f, ix) <==> (Listed(t, f, ix) || ListedFrom(lines, i, f, ix))
  {
    forall f, ix ensures ListedFrom(lines, i, f, ix) <==>
                   ((f in FaceKeys(lines.items[lines.order[i]]) && ix == lines.order[i]) || ListedFrom(lines, i + 1, f, ix)) {
      if ListedFrom(lines, i, f, ix) {
        var j :| i <= j < |lines.order| && lines.order[j] == ix && f in FaceKeys(lines.items[ix]);
        if j > i {
          assert ListedFrom(lines, i + 1, f, ix);
        }
      }
      if ListedFrom(lines, i + 1, f, ix) {
        var j :| i + 1 <= j < |lines.order| && lines.order[j] == ix && f in FaceKeys(lines.items[ix]);
        assert ListedFrom(lines, i, f, ix);
      }
      if f in FaceKeys(lines.items[lines.order[i]]) && ix == lines.order[i] {
        assert ListedFrom(lines, i, f, ix);
      }
    }
  }

  /** The face table of a section: every line is listed under exactly the faces
      it borders. */
  function Faces(sec: Section): (t: FaceTable)
    requires sec.Valid()
    ensures t.Valid()
    ensures forall f, ix :: Listed(t, f, ix) <==> ix in sec.unilines.items && f in FaceKeys(sec.unilines.items[ix])
  {
    var lines := sec.unilines;
    var t := FacesFrom(lines, 0, Empty());
    assert forall f, ix :: Listed(t, f, ix) <==> ix in lines.items && f in FaceKeys(lines.items[ix]) by {
      forall f, ix ensures Listed(t, f, ix) <==> ix in lines.items && f in FaceKeys(lines.items[ix]) {
        if ix in lines.items && f in FaceKeys(lines.items[ix]) {
          var j :| 0 <= j < |lines.order| && lines.order[j] == ix;
          assert ListedFrom(lines, 0, f, ix);
        }
      }
    }
    t
  }

  /** Every line appears under the face of its phases, the face of its phases
      without the out phase, and one face per polymorph pair among its phases;
      no line appears anywhere else. */
  lemma FaceRegistration(sec: Section, ix: nat, f: Phases)
    requires sec.Valid() && ix in sec.unilines.items
    ensures var u := sec.unilines.items[ix];
            Listed(Faces(sec), f, ix) <==> f == u.phases || f == u.phases - u.out || PolymorphFace(f, u)
  {
  }

  // ---------------------------------------------------------------- graph of a face

  /** Vertex → neighbours (one entry per line end), in the order vertices were met. */
  type Graph = Registry<nat, seq<nat>>

  /** Every neighbour is itself a vertex. */
  ghost predicate Closed(g: Graph) {
    forall u, i :: u in g.items && 0 <= i < |g.items[u]| ==> g.items[u][i] in g.items
  }

  /** Both orientations of a pair lead to the same line. */
  ghost predicate Symmetric(idx: map<(nat, nat), nat>) {
    forall p :: p in idx ==> (p.1, p.0) in idx && idx[(p.1, p.0)] == idx[p]
  }

  /** Every edge of the graph has a line in the index. */
  ghost predicate Indexed(g: Graph, idx: map<(nat, nat), nat>) {
    forall u, i :: u in g.items && 0 <= i < |g.items[u]| ==> (u, g.items[u][i]) in idx
  }

  /** The graph being built, the ids that have coordinates (real points, then
      synthetic ends) and the pair → line index shared by all faces. */
  datatype Build = Build(graph: Graph, coordIds: seq<nat>, uniIndex: map<(nat, nat), nat>)
  {
    ghost predicate Valid() {
      graph.Valid() && Closed(graph) && Symmetric(uniIndex) && Indexed(graph, uniIndex)
    }
  }

  /** `max(inv_coords.keys()) + 1`: the id an open line end gets, which raises
      when no point has coordinates yet. */
  function SyntheticId(coordIds: seq<nat>): (r: Result<nat>)
    ensures r.Ok? <==> |coordIds| > 0
    ensures r.Ok? ==> r.value !in coordIds && forall i :: 0 <= i < |coordIds| ==> coordIds[i] < r.value
    ensures r.Err? ==> r.error.ValueError?
  {
    if |coordIds| == 0 then Err(ValueError("max() arg is an empty sequence"))
    else Ok(MaxOf(coordIds) + 1)
  }

  /** An end id, replaced by a fresh synthetic id (and recorded) when it is `0`. */
  function ResolveEnd(coordIds: seq<nat>, x: nat): (r: Result<(nat, seq<nat>)>)
    ensures x != 0 ==> r == Ok((x, coordIds))
    ensures x == 0 && r.Ok? ==> r.value.0 !in coordIds && r.value.0 > 0 && r.value.1 == coordIds + [r.value.0]
    ensures x == 0 ==> (r.Ok? <==> |coordIds| > 0)
  {
    if x != 0 then Ok((x, coordIds))
    else
      var n := SyntheticId(coordIds);
      if n.Err? then Err(n.error) else Ok((n.value, coordIds + [n.value]))
  }

  /** `graph[x] = graph[x] + (y,)`, creating the entry when `x` is new. */
  function AppendNbr(g: Graph, x: nat, y: nat): (g': Graph)
    requires g.Valid()
    ensures g'.Valid()
    ensures forall w :: w in g'.items <==> w in g.items || w == x
    ensures forall w, v :: Adjacent(g', w, v) <==> Adjacent(g, w, v) || (w == x && v == y)
  {
    Put(g, x, (if x in g.items then g.items[x] else []) + [y])
  }

  /** `graph[b] += (e,)` then `graph[e] += (b,)`. */
  function AddEdge(g: Graph, b: nat, e: nat): (g': Graph)
    requires g.Valid() && Closed(g)
    ensures g'.Valid() && Closed(g')
    ensures forall w :: w in g'.items <==> w in g.items || w == b || w == e
    ensures forall w, v :: Adjacent(g', w, v) <==> Adjacent(g, w, v) || (w == b && v == e) || (w == e && v == b)
  {
    var g' := AppendNbr(AppendNbr(g, b, e), e, b);
    assert Closed(g') by {
      forall w, i | w in g'.items && 0 <= i < |g'.items[w]| ensures g'.items[w][i] in g'.items {
        assert Adjacent(g', w, g'.items[w][i]);
      }
    }
    g'
  }

  ghost predicate Adjacent(g: Graph, u: nat, v: nat) {
    u in g.items && v in g.items[u]
  }

  /** One line of the face: resolve its open ends, link its ends in the graph
      and index the pair in both orientations under the line's id. */
  function AddLine(st: Build, u: UniLine): (r: Result<Build>)
    requires st.Valid()
    ensures r.Ok? ==> r.value.Valid()
    ensures r.Ok? ==> |st.coordIds| <= |r.value.coordIds|
    ensures r.Ok? ==> forall i :: 0 <= i < |st.coordIds| ==> r.value.coordIds[i] == st.coordIds[i]
    ensures r.Ok? <==> (u.begin != 0 && u.end != 0) || |st.coordIds| > 0
    ensures r.Err? ==> r.error.ValueError?
  {
    var rb := ResolveEnd(st.coordIds, u.begin);
    if rb.Err? then Err(rb.error)
    else
      var (b, ids1) := rb.value;
      var re := ResolveEnd(ids1, u.end);
      if re.Err? then Err(re.error)
      else
        var (e, ids2) := re.value;
        var idx := IndexPair(st.uniIndex, b, e, u.id);
        var g := AddEdge(st.graph, b, e);
        EdgesIndexed(st.graph, st.uniIndex, g, idx, b, e);
        Ok(Build(g, ids2, idx))
  }

  /** `uni_index[(b, e)] = id; uni_index[(e, b)] = id`. */
  function IndexPair(idx: map<(nat, nat), nat>, b: nat, e: nat, id: nat): (idx': map<(nat, nat), nat>)
    requires Symmetric(idx)
    ensures Symmetric(idx')
    ensures (b, e) in idx' && (e, b) in idx' && idx'[(b, e)] == id && idx'[(e, b)] == id
    ensures forall p :: p in idx ==> p in idx'
    ensures forall p :: p in idx' ==> p in idx || p == (b, e) || p == (e, b)
  {
    idx[(b, e) := id][(e, b) := id]
  }

  lemma EdgesIndexed(g: Graph, idx: map<(nat, nat), nat>, g': Graph, idx': map<(nat, nat), nat>, b: nat, e: nat)
    requires Indexed(g, idx)
    requires forall w, v :: Adjacent(g', w, v) <==> Adjacent(g, w, v) || (w == b && v == e) || (w == e && v == b)
    requires forall p :: p in idx ==> p in idx'
    requires (b, e) in idx' && (e, b) in idx'
    ensures Indexed(g', idx')
  {
    forall x, i | x in g'.items && 0 <= i < |g'.items[x]| ensures (x, g'.items[x][i]) in idx' {
      assert Adjacent(g', x, g'.items[x][i]);
    }
  }

  /** `area_exists`'s graph construction over the lines of one face. */
  function BuildFace(lines: map<nat, UniLine>, indexes: seq<nat>, st: Build): (r: Result<Build>)
    requires st.Valid()
    requires forall i :: 0 <= i < |indexes| ==> indexes[i] in lines
    ensures r.Ok? ==> r.value.Valid()
    ensures r.Ok? ==> |st.coordIds| <= |r.value.coordIds|
    ensures r.Ok? ==> forall i :: 0 <= i < |st.coordIds| ==> r.value.coordIds[i] == st.coordIds[i]
    ensures r.Err? ==> r.error.ValueError?
    decreases |indexes|
  {
    if |indexes| == 0 then Ok(st)
    else
      var r1 := AddLine(st, lines[indexes[0]]);
      if r1.Err? then r1 else BuildFace(lines, indexes[1..], r1.value)
  }

  /** A synthetic end never takes the id of a point that already has coordinates. */
  lemma SyntheticFresh(st: Build, u: UniLine)
    requires st.Valid() && u.begin == 0 && |st.coordIds| > 0
    ensures AddLine(st, u).Ok?
    ensures var ids := AddLine(st, u).value.coordIds;
            |ids| > |st.coordIds| && ids[|st.coordIds|] !in st.coordIds
  {
  }

  // ---------------------------------------------------------------- depth-first search

  /** `found_cycle`, `marked` (as the set of marked vertices) and `path`. */
  datatype Dfs = Dfs(found: bool, marked: set<nat>, path: seq<nat>)

  /** The path lists each marked vertex once, and only vertices are marked. */
  ghost predicate Good(g: Graph, st: Dfs) {
    st.marked <= g.items.Keys && Distinct(st.path) && forall x :: x in st.path <==> x in st.marked
  }

  lemma SmallerUnmarked(k: set<nat>, m: set<nat>, m': set<nat>)
    requires m <= m'
    ensures |k - m'| <= |k - m|
  {
    assert k - m' <= k - m;
    SubsetCard(k - m', k - m);
  }

  lemma SubsetCard(a: set<nat>, b: set<nat>)
    requires a <= b
    ensures |a| <= |b|
  {
    assert b == a + (b - a);
  }

  /** `dfs_visit(graph, u, found_cycle, pred, marked, path)`. */
  function Visit(g: Graph, u: nat, pred: nat, st: Dfs): (r: Dfs)
    requires Closed(g) && st.marked <= g.items.Keys && u in g.items
    requires st.found || u !in st.marked
    ensures st.marked <= r.marked <= g.items.Keys
    ensures st.found ==> r == st
    ensures !st.found ==> u in r.marked
    decreases |g.items.Keys - st.marked|, 0, 0
  {
    if st.found then st
    else
      assert g.items.Keys - (st.marked + {u}) == (g.items.Keys - st.marked) - {u};
      VisitNbrs(g, u, pred, 0, Mark(st, u))
  }

  /** `marked[u] = True; path.append(u)`. */
  function Mark(st: Dfs, u: nat): (r: Dfs)
    ensures r.marked == st.marked + {u} && r.path == st.path + [u]
  {
    Dfs(st.found, st.marked + {u}, st.path + [u])
  }

  /** The loop `for v in graph[u]` of `dfs_visit`, from the `i`-th neighbour on. */
  function VisitNbrs(g: Graph, u: nat, pred: nat, i: nat, st: Dfs): (r: Dfs)
    requires Closed(g) && st.marked <= g.items.Keys && u in g.items && i <= |g.items[u]|
    ensures st.marked <= r.marked <= g.items.Keys
    ensures st.found ==> r == st
    decreases |g.items.Keys - st.marked|, 1, |g.items[u]| - i
  {
    if i == |g.items[u]| then st
    else
      var v := g.items[u][i];
      if v in st.marked && v != pred then st.(found := true)
      else if v !in st.marked then
        var st2 := Visit(g, v, u, st);
        SmallerUnmarked(g.items.Keys, st.marked, st2.marked);
        VisitNbrs(g, u, pred, i + 1, st2)
      else VisitNbrs(g, u, pred, i + 1, st)
  }

  /** `p` continues `q`. */
  predicate Extends(p: seq<nat>, q: seq<nat>) {
    |q| <= |p| && p[..|q|] == q
  }

  lemma ExtendsTrans(p: seq<nat>, q: seq<nat>, r: seq<nat>)
    requires Extends(p, q) && Extends(q, r)
    ensures Extends(p, r)
  {
    assert p[..|q|][..|r|] == p[..|r|];
  }

  lemma MarkGood(g: Graph, st: Dfs, u: nat)
    requires Good(g, st) && u in g.items && u !in st.marked
    ensures Good(g, Mark(st, u)) && Extends(Mark(st, u).path, st.path)
  {
    assert (st.path + [u])[..|st.path|] == st.path;
  }

  /** A visit keeps each marked vertex on the path exactly once and only extends
      the path. */
  lemma {:induction false} VisitGood(g: Graph, u: nat, pred: nat, st: Dfs)
    requires Closed(g) && Good(g, st) && u in g.items
    requires st.found || u !in st.marked
    ensures Good(g, Visit(g, u, pred, st)) && Extends(Visit(g, u, pred, st).path, st.path)
    decreases |g.items.Keys - st.marked|, 0, 0
  {
    if !st.found {
      assert g.items.Keys - (st.marked + {u}) == (g.items.Keys - st.marked) - {u};
      MarkGood(g, st, u);
      VisitNbrsGood(g, u, pred, 0, Mark(st, u));
      ExtendsTrans(Visit(g, u, pred, st).path, Mark(st, u).path, st.path);
    }
  }

  lemma {:induction false} VisitNbrsGood(g: Graph, u: nat, pred: nat, i: nat, st: Dfs)
    requires Closed(g) && Good(g, st) && u in g.items && i <= |g.items[u]|
    ensures Good(g, VisitNbrs(g, u, pred, i, st)) && Extends(VisitNbrs(g, u, pred, i, st).path, st.path)
    decreases |g.items.Keys - st.marked|, 1, |g.items[u]| - i
  {
    if i < |g.items[u]| {
      var v := g.items[u][i];
      if v in st.marked && v != pred {
      } else if v !in st.marked {
        var st2 := Visit(g, v, u, st);
        VisitGood(g, v, u, st);
        SmallerUnmarked(g.items.Keys, st.marked, st2.marked);
        VisitNbrsGood(g, u, pred, i + 1, st2);
        ExtendsTrans(VisitNbrs(g, u, pred, i, st).path, st2.path, st.path);
      } else {
        VisitNbrsGood(g, u, pred, i + 1, st);
      }
    } else {
      assert st.path[..|st.path|] == st.path;
    }
  }

  /** The outer loop of `area_exists`: start a visit at each unmarked vertex in
      order, stopping once a cycle is found. */
  function SearchFrom(g: Graph, i: nat, st: Dfs): (r: Dfs)
    requires g.Valid() && Closed(g) && Good(g, st) && i <= |g.order|
    requires !st.found ==> forall j :: 0 <= j < i ==> g.order[j] in st.marked
    ensures Good(g, r)
    ensures !r.found ==> forall j :: 0 <= j < |g.order| ==> g.order[j] in r.marked
    decreases |g.order| - i
  {
    if i == |g.order| || st.found then st
    else
      var u := g.order[i];
      var st1 := if u !in st.marked then VisitGood(g, u, u, st); Visit(g, u, u, st) else st;
      if st1.found then st1
      else
        assert forall j :: 0 <= j < i + 1 ==> g.order[j] in st1.marked;
        SearchFrom(g, i + 1, st1)
  }

  /** `found_cycle[0], path` for a face's graph. When no cycle is found the path
      visits every vertex exactly once. */
  function Search(g: Graph): (r: Dfs)
    requires g.Valid() && Closed(g)
    ensures Distinct(r.path)
    ensures forall x :: x in r.path ==> x in g.items
    ensures !r.found ==> forall x :: x in g.items <==> x in r.path
  {
    SearchFrom(g, 0, Dfs(false, {}, []))
  }

  /** The graph of two lines joining points 1 and 2. */
  function ParallelPair(): (g: Graph)
    ensures g.Valid() && Closed(g)
  {
    Registry([1, 2], map[1 := [2, 2], 2 := [1, 1]])
  }

  /** The graph of the lines 1–2, 2–3 and 3–1, added in that order. */
  function Triangle(): (g: Graph)
    ensures g.Valid() && Closed(g)
  {
    Registry([1, 2, 3], map[1 := [2, 3], 2 := [1, 3], 3 := [2, 1]])
  }

  /** The graph of the lines 1–2 and 2–3. */
  function Chain(): (g: Graph)
    ensures g.Valid() && Closed(g)
  {
    Registry([1, 2, 3], map[1 := [2], 2 := [1, 3], 3 := [2]])
  }

  /** From point 2, reached from 1, both neighbour entries lead back to 1. */
  lemma ParallelPairFar()
    ensures var st1 := Mark(Dfs(false, {}, []), 1);
            Visit(ParallelPair(), 2, 1, st1) == Mark(st1, 2)
  {
    var g := ParallelPair();
    var st2 := Mark(Mark(Dfs(false, {}, []), 1), 2);
    assert g.items[2] == [1, 1];
    assert VisitNbrs(g, 2, 1, 2, st2) == st2;
    assert VisitNbrs(g, 2, 1, 1, st2) == st2;
  }

  /** Two lines joining the same two points close a field: the second copy of
      the neighbour is met again from the near side. */
  lemma SearchFindsParallelPair()
    ensures Search(ParallelPair()).found && Search(ParallelPair()).path == [1, 2]
  {
    var g := ParallelPair();
    var st1 := Mark(Dfs(false, {}, []), 1);
    ParallelPairFar();
    assert g.items[1] == [2, 2];
    assert VisitNbrs(g, 1, 1, 1, Mark(st1, 2)) == Mark(st1, 2).(found := true);
    assert VisitNbrs(g, 1, 1, 0, st1) == Mark(st1, 2).(found := true);
  }

  /** From point 3, reached from 2, point 1 is met again. */
  lemma TriangleFar()
    ensures var st2 := Mark(Mark(Dfs(false, {}, []), 1), 2);
            Visit(Triangle(), 3, 2, st2) == Mark(st2, 3).(found := true)
  {
    var g := Triangle();
    var st3 := Mark(Mark(Mark(Dfs(false, {}, []), 1), 2), 3);
    assert g.items[3] == [2, 1];
    assert VisitNbrs(g, 3, 2, 1, st3) == st3.(found := true);
  }

  /** Three lines around a triangle close it. */
  lemma SearchFindsTriangle()
    ensures Search(Triangle()).found && Search(Triangle()).path == [1, 2, 3]
  {
    TriangleFromFirst();
  }

  /** The visit from point 1 goes round the triangle and meets 1 again. */
  lemma TriangleFromFirst()
    ensures Visit(Triangle(), 1, 1, Dfs(false, {}, [])) == Mark(Mark(Mark(Dfs(false, {}, []), 1), 2), 3).(found := true)
  {
    var g := Triangle();
    var st1 := Mark(Dfs(false, {}, []), 1);
    var st2 := Mark(st1, 2);
    var fin := Mark(st2, 3).(found := true);
    TriangleFar();
    assert g.items[2] == [1, 3];
    assert VisitNbrs(g, 2, 1, 1, st2) == fin;
    assert VisitNbrs(g, 2, 1, 0, st2) == fin;
    assert VisitNbrs(g, 1, 1, 0, st1) == fin;
  }

  /** From point 2, reached from 1, the chain runs on to 3 and stops. */
  lemma ChainFar()
    ensures var st1 := Mark(Dfs(false, {}, []), 1);
            Visit(Chain(), 2, 1, st1) == Mark(Mark(st1, 2), 3)
  {
    var g := Chain();
    var st2 := Mark(Mark(Dfs(false, {}, []), 1), 2);
    var st3 := Mark(st2, 3);
    assert g.items[3] == [2] && g.items[2] == [1, 3];
    assert VisitNbrs(g, 3, 2, 1, st3) == st3;
    assert Visit(g, 3, 2, st2) == st3;
    assert VisitNbrs(g, 2, 1, 2, st3) == st3;
    assert VisitNbrs(g, 2, 1, 1, st2) == st3;
  }

  /** An open chain of two lines closes nothing, and the path still runs
      through every point. */
  lemma SearchChainOpen()
    ensures !Search(Chain()).found && Search(Chain()).path == [1, 2, 3]
  {
    var st3 := Mark(Mark(Mark(Dfs(false, {}, []), 1), 2), 3);
    ChainFromFirst();
    ChainRest(st3);
  }

  /** The visit from point 1 reaches the whole chain. */
  lemma ChainFromFirst()
    ensures Visit(Chain(), 1, 1, Dfs(false, {}, [])) == Mark(Mark(Mark(Dfs(false, {}, []), 1), 2), 3)
  {
    var g := Chain();
    var st1 := Mark(Dfs(false, {}, []), 1);
    var st3 := Mark(Mark(st1, 2), 3);
    ChainFar();
    assert g.items[1] == [2];
    assert VisitNbrs(g, 1, 1, 1, st3) == st3;
    assert VisitNbrs(g, 1, 1, 0, st1) == st3;
  }

  /** Once every point is marked the outer loop starts no further visit. */
  lemma ChainRest(st: Dfs)
    requires !st.found && st.marked == {1, 2, 3} && st.path == [1, 2, 3]
    ensures SearchFrom(Chain(), 1, st) == st
  {
    var g := Chain();
    assert g.order == [1, 2, 3];
    assert SearchFrom(g, 3, st) == st;
    assert SearchFrom(g, 2, st) == st;
  }

  // ---------------------------------------------------------------- fields

  /** A closed field: its face, the cycle's vertices and the line on each side. */
  datatype Area = Area(face: Phases, verts: seq<nat>, edges: seq<nat>)

  /** What one face contributes. */
  datatype FaceResult =
    | Bounded(area: Area)
    | BadTopology(path: seq<nat>, edges: seq<Option<nat>>)
    | NoLoop

  /** The found areas and the topology-error messages, in face order. */
  datatype AreasOut = AreasOut(areas: seq<Area>, log: seq<string>)

  /** `uni_index.get((b, e), None)` for each vertex and the next one round the path. */
  function CycleEdges(path: seq<nat>, idx: map<(nat, nat), nat>): (es: seq<Option<nat>>)
    ensures |es| == |path|
    ensures forall k :: 0 <= k < |path| ==>
              es[k] == (var p := (path[k], path[(k + 1) % |path|]); if p in idx then Some(idx[p]) else None)
  {
    seq(|path|, k requires 0 <= k < |path| =>
      var p := (path[k], path[(k + 1) % |path|]); if p in idx then Some(idx[p]) else None)
  }

  /** A missing side of a found cycle joins two vertices that no line of the face
      joins: the index holds every edge the face's lines put in the graph. */
  lemma MissingEdgeNotAdjacent(g: Graph, idx: map<(nat, nat), nat>, path: seq<nat>, k: nat)
    requires Indexed(g, idx) && k < |path|
    requires CycleEdges(path, idx)[k].None?
    ensures !Adjacent(g, path[k], path[(k + 1) % |path|])
  {
    var u, v := path[k], path[(k + 1) % |path|];
    if u in g.items {
      forall i | 0 <= i < |g.items[u]| ensures g.items[u][i] != v {
        assert (u, g.items[u][i]) in idx;
      }
    }
  }

  predicate AllSome(es: seq<Option<nat>>) {
    forall k :: 0 <= k < |es| ==> es[k].Some?
  }

  function Values(es: seq<Option<nat>>): (vs: seq<nat>)
    requires AllSome(es)
    ensures |vs| == |es| && forall k :: 0 <= k < |es| ==> es[k] == Some(vs[k])
  {
    seq(|es|, k requires 0 <= k < |es| && AllSome(es) => es[k].value)
  }

  /** Python's `repr` of a list of ints. */
  function ReprInts(xs: seq<nat>): string {
    "[" + Join(seq(|xs|, k requires 0 <= k < |xs| => IntToString(xs[k])), ", ") + "]"
  }

  /** Python's `repr` of a list of ints and `None`s. */
  function ReprOptions(xs: seq<Option<nat>>): string {
    "[" + Join(seq(|xs|, k requires 0 <= k < |xs| => if xs[k].Some? then IntToString(xs[k].value) else "None"), ", ") + "]"
  }

  function TopologyMessage(path: seq<nat>, edges: seq<Option<nat>>): string {
    "Topology error in path " + ReprInts(path) + ". Edges " + ReprOptions(edges)
  }

  /** The first vertex of `path` without coordinates, if any. */
  function FirstUnknown(path: seq<nat>, coordIds: seq<nat>): (r: Option<nat>)
    ensures r.None? <==> forall k :: 0 <= k < |path| ==> path[k] in coordIds
    ensures r.Some? ==> r.value in path && r.value !in coordIds
  {
    if |path| == 0 then None
    else if path[0] !in coordIds then Some(path[0])
    else
      var r := FirstUnknown(path[1..], coordIds);
      assert r.None? ==> forall k :: 0 <= k < |path| ==> path[k] in coordIds by {
        if r.None? {
          forall k | 0 <= k < |path| ensures path[k] in coordIds {
            if k > 0 { assert path[k] == path[1..][k - 1]; }
          }
        }
      }
      r
  }

  /** What `construct_areas` carries from one face to the next: the ids that
      have coordinates, the pair index, and whether the local `e` of its path
      loops has been bound by an earlier face. */
  datatype Carry = Carry(coordIds: seq<nat>, uniIndex: map<(nat, nat), nat>, endBound: bool)

  /** The graph of one face, built on top of what earlier faces left. */
  function FaceGraph(lines: map<nat, UniLine>, indexes: seq<nat>, c: Carry): (r: Result<Build>)
    requires Symmetric(c.uniIndex)
    requires forall i :: 0 <= i < |indexes| ==> indexes[i] in lines
    ensures r.Ok? ==> r.value.Valid()
    ensures r.Err? ==> r.error.ValueError?
  {
    BuildFace(lines, indexes, Build(Empty(), c.coordIds, c.uniIndex))
  }

  /** One face of `construct_areas`: build its graph, search it, and look up the
      line on each side of a found cycle. Without a cycle the chain search looks
      up the coordinates of every vertex of the path but the last, then those of
      `e`: the last vertex, or for a one-vertex path whatever an earlier face
      left in `e`. Looking up a vertex no point or synthetic end provides
      raises `KeyError`. */
  function FaceStep(lines: map<nat, UniLine>, indexes: seq<nat>, f: Phases, c: Carry): (r: Result<(FaceResult, Carry)>)
    requires Symmetric(c.uniIndex)
    requires forall i :: 0 <= i < |indexes| ==> indexes[i] in lines
    ensures r.Ok? ==> Symmetric(r.value.1.uniIndex)
    ensures r.Ok? && c.endBound ==> r.value.1.endBound
    ensures r.Err? && r.error.UnboundLocalError? ==> !c.endBound
    ensures r.Ok? && r.value.0.Bounded? ==>
              (r.value.0.area.face == f && Distinct(r.value.0.area.verts) &&
               |r.value.0.area.edges| == |r.value.0.area.verts|)
    ensures r.Ok? && r.value.0.BadTopology? ==>
              (!AllSome(r.value.0.edges) && r.value.0.edges == CycleEdges(r.value.0.path, r.value.1.uniIndex))
  {
    var b := FaceGraph(lines, indexes, c);
    if b.Err? then Err(b.error)
    else
      var d := Search(b.value.graph);
      var missing := FirstUnknown(d.path, b.value.coordIds);
      var c' := Carry(b.value.coordIds, b.value.uniIndex, c.endBound || |d.path| > 0);
      if !d.found then
        if |d.path| >= 2 then
          if missing.Some? then Err(KeyError(IntToString(missing.value))) else Ok((NoLoop, c'))
        else if !c.endBound then Err(UnboundLocalError("local variable 'e' referenced before assignment"))
        else Ok((NoLoop, c'))
      else if missing.Some? then Err(KeyError(IntToString(missing.value)))
      else
        var es := CycleEdges(d.path, b.value.uniIndex);
        if AllSome(es) then Ok((Bounded(Area(f, d.path, Values(es))), c'))
        else Ok((BadTopology(d.path, es), c'))
  }

  /** The pair of a vertex of a cycle and the next one, the last wrapping round
      to the first. */
  function Side(vs: seq<nat>, k: nat): (p: (nat, nat))
    requires k < |vs|
  {
    (vs[k], vs[(k + 1) % |vs|])
  }

  /** A found area runs round its cycle: every vertex has coordinates, and the
      side from each vertex to the next (the last back to the first) is the line
      the pair index holds for that pair. */
  lemma BoundedSides(lines: map<nat, UniLine>, indexes: seq<nat>, f: Phases, c: Carry)
    requires Symmetric(c.uniIndex)
    requires forall i :: 0 <= i < |indexes| ==> indexes[i] in lines
    requires FaceStep(lines, indexes, f, c).Ok? && FaceStep(lines, indexes, f, c).value.0.Bounded?
    ensures var (fr, c') := FaceStep(lines, indexes, f, c).value;
            var vs := fr.area.verts;
            (forall k :: 0 <= k < |vs| ==> vs[k] in c'.coordIds) &&
            forall k :: 0 <= k < |vs| ==> Side(vs, k) in c'.uniIndex && fr.area.edges[k] == c'.uniIndex[Side(vs, k)]
  {
    var b := FaceGraph(lines, indexes, c);
    var d := Search(b.value.graph);
    var es := CycleEdges(d.path, b.value.uniIndex);
    assert FirstUnknown(d.path, b.value.coordIds).None?;
    assert AllSome(es);
    var vs := Values(es);
    forall k | 0 <= k < |d.path|
      ensures Side(d.path, k) in b.value.uniIndex && vs[k] == b.value.uniIndex[Side(d.path, k)]
    {
      assert es[k] == Some(vs[k]);
    }
  }

  /** Without a cycle and with at least two vertices on the path, the face
      raises exactly when some vertex of its graph has no coordinates. */
  lemma NoLoopLooksUpAll(lines: map<nat, UniLine>, indexes: seq<nat>, f: Phases, c: Carry)
    requires Symmetric(c.uniIndex)
    requires forall i :: 0 <= i < |indexes| ==> indexes[i] in lines
    requires var b := FaceGraph(lines, indexes, c);
             b.Ok? && !Search(b.value.graph).found && |Search(b.value.graph).path| >= 2
    ensures var b := FaceGraph(lines, indexes, c).value;
            var r := FaceStep(lines, indexes, f, c);
            (r.Err? <==> exists x :: x in b.graph.items && x !in b.coordIds) &&
            (r.Err? ==> r.error.KeyError?) &&
            (r.Ok? ==> r.value.0.NoLoop? && r.value.1.endBound)
  {
    var b := FaceGraph(lines, indexes, c).value;
    var d := Search(b.graph);
    if exists x :: x in b.graph.items && x !in b.coordIds {
      var x :| x in b.graph.items && x !in b.coordIds;
      assert x in d.path;
    }
  }

  /** Without a cycle and with at most one vertex on the path, no coordinates
      are looked up but `e`'s: the face raises `UnboundLocalError` exactly when
      no earlier face bound it. */
  lemma NoLoopOneVertex(lines: map<nat, UniLine>, indexes: seq<nat>, f: Phases, c: Carry)
    requires Symmetric(c.uniIndex)
    requires forall i :: 0 <= i < |indexes| ==> indexes[i] in lines
    requires var b := FaceGraph(lines, indexes, c);
             b.Ok? && !Search(b.value.graph).found && |Search(b.value.graph).path| <= 1
    ensures var r := FaceStep(lines, indexes, f, c);
            (r.Err? <==> !c.endBound) && (r.Err? ==> r.error.UnboundLocalError?) &&
            (r.Ok? ==> r.value.0.NoLoop?)
  {
  }

  /** The loop over faces in first-seen order. A topology error is logged, or,
      when `strict`, raised as the older `utils.construct_areas` does. */
  function FaceLoop(lines: map<nat, UniLine>, faces: FaceTable, i: nat, c: Carry, strict: bool): (r: Result<AreasOut>)
    requires faces.Valid() && Symmetric(c.uniIndex) && i <= |faces.order|
    requires forall f, ix :: Listed(faces, f, ix) ==> ix in lines
    ensures strict && r.Ok? ==> r.value.log == []
  {
    Collect(Outcomes(lines, faces, i, c), strict)
  }

  /** The outcome of each face from the `i`-th on, up to the first that raises. */
  function Outcomes(lines: map<nat, UniLine>, faces: FaceTable, i: nat, c: Carry): (os: seq<Result<FaceResult>>)
    requires faces.Valid() && Symmetric(c.uniIndex) && i <= |faces.order|
    requires forall f, ix :: Listed(faces, f, ix) ==> ix in lines
    ensures |os| <= |faces.order| - i
    decreases |faces.order| - i
  {
    if i == |faces.order| then []
    else
      var f := faces.order[i];
      FaceMembers(lines, faces, i);
      var step := FaceStep(lines, faces.items[f], f, c);
      if step.Err? then [Err(step.error)]
      else [Ok(step.value.0)] + Outcomes(lines, faces, i + 1, step.value.1)
  }

  /** The areas and log of a run of face outcomes; the first raised error ends
      it, and so does a topology error when `strict`. */
  function Collect(os: seq<Result<FaceResult>>, strict: bool): (r: Result<AreasOut>)
    ensures strict && r.Ok? ==> r.value.log == []
    ensures r.Ok? ==> forall k :: 0 <= k < |os| ==> os[k].Ok?
    decreases |os|
  {
    if |os| == 0 then Ok(AreasOut([], []))
    else if os[0].Err? then Err(os[0].error)
    else
      var fr := os[0].value;
      if fr.BadTopology? && strict then Err(Exception(TopologyMessage(fr.path, fr.edges)))
      else
        var rest := Collect(os[1..], strict);
        assert rest.Ok? ==> forall k :: 1 <= k < |os| ==> os[k] == os[1..][k - 1];
        Combine(fr, rest)
  }

  /** The lines of a listed face are known lines. */
  lemma FaceMembers(lines: map<nat, UniLine>, faces: FaceTable, i: nat)
    requires faces.Valid() && i < |faces.order|
    requires forall f, ix :: Listed(faces, f, ix) ==> ix in lines
    ensures forall k :: 0 <= k < |faces.items[faces.order[i]]| ==> faces.items[faces.order[i]][k] in lines
  {
    var f := faces.order[i];
    var members := faces.items[f];
    forall k | 0 <= k < |members| ensures members[k] in lines {
      assert Listed(faces, f, members[k]);
    }
  }

  /** One face's outcome put in front of the later faces': an area is added, a
      topology error logged, no loop changes nothing. */
  function Combine(fr: FaceResult, rest: Result<AreasOut>): (r: Result<AreasOut>)
    ensures rest.Err? ==> r == rest
    ensures rest.Ok? ==> r.Ok?
    ensures rest.Ok? && !fr.BadTopology? ==> r.value.log == rest.value.log
    ensures rest.Ok? && fr.BadTopology? ==> r.value.log == [TopologyMessage(fr.path, fr.edges)] + rest.value.log
    ensures rest.Ok? && fr.Bounded? ==> r.value.areas == [fr.area] + rest.value.areas
    ensures rest.Ok? && !fr.Bounded? ==> r.value.areas == rest.value.areas
  {
    if rest.Err? then rest
    else if fr.Bounded? then Ok(AreasOut([fr.area] + rest.value.areas, rest.value.log))
    else if fr.BadTopology? then Ok(AreasOut(rest.value.areas, [TopologyMessage(fr.path, fr.edges)] + rest.value.log))
    else rest
  }

  /** Raising on a topology error succeeds exactly when logging records none,
      and then both find the same areas. */
  lemma StrictIffNoLog(lines: map<nat, UniLine>, faces: FaceTable, i: nat, c: Carry)
    requires faces.Valid() && Symmetric(c.uniIndex) && i <= |faces.order|
    requires forall f, ix :: Listed(faces, f, ix) ==> ix in lines
    ensures var s := FaceLoop(lines, faces, i, c, true);
            var l := FaceLoop(lines, faces, i, c, false);
            (s.Ok? <==> l.Ok? && l.value.log == []) && (s.Ok? ==> s == l)
  {
    CollectStrict(Outcomes(lines, faces, i, c));
  }

  lemma {:induction false} CollectStrict(os: seq<Result<FaceResult>>)
    ensures var s := Collect(os, true);
            var l := Collect(os, false);
            (s.Ok? <==> l.Ok? && l.value.log == []) && (s.Ok? ==> s == l)
    decreases |os|
  {
    if |os| > 0 && os[0].Ok? {
      CollectStrict(os[1..]);
    }
  }

  /** `uni_index` before any face: every line under both orientations of its
      (begin, end) pair, open ends included. */
  function InitialIndex(lines: Registry<nat, UniLine>, i: nat, idx: map<(nat, nat), nat>): (r: map<(nat, nat), nat>)
    requires lines.Valid() && Symmetric(idx) && i <= |lines.order|
    ensures Symmetric(r)
    ensures forall p :: p in idx ==> p in r
    ensures forall j :: i <= j < |lines.order| ==>
              (lines.items[lines.order[j]].begin, lines.items[lines.order[j]].end) in r
    decreases |lines.order| - i
  {
    if i == |lines.order| then idx
    else
      var u := lines.items[lines.order[i]];
      InitialIndex(lines, i + 1, IndexPair(idx, u.begin, u.end, u.id))
  }

  /** `inv_coords` keys: the ids of the stored points, in order. */
  function PointIds(invs: Registry<nat, InvPoint>): (ids: seq<nat>)
    requires invs.Valid()
    ensures |ids| == |invs.order|
    ensures forall k :: k in invs.items ==> invs.items[k].id in ids
  {
    var ids := seq(|invs.order|, j requires 0 <= j < |invs.order| => invs.items[invs.order[j]].id);
    assert forall k :: k in invs.items ==> invs.items[k].id in ids by {
      forall k | k in invs.items ensures invs.items[k].id in ids {
        var j :| 0 <= j < |invs.order| && invs.order[j] == k;
        assert ids[j] == invs.items[k].id;
      }
    }
    ids
  }

  /** `construct_areas` of a section (graph part): nothing is computed unless
      there are lines and points, and topology errors are logged. */
  function ConstructAreas(sec: Section): (r: Result<AreasOut>)
    requires sec.Valid()
    ensures |sec.unilines.order| == 0 || |sec.invpoints.order| == 0 ==> r == Ok(AreasOut([], []))
  {
    var idx := InitialIndex(sec.unilines, 0, map[]);
    var ids := PointIds(sec.invpoints);
    var faces := Faces(sec);
    if |idx| > 0 && |ids| > 0 && |faces.order| > 0 then
      FaceLoop(sec.unilines.items, faces, 0, Carry(ids, idx, false), false)
    else Ok(AreasOut([], []))
  }

  /** The older `construct_areas` of the project-file utilities: no guard, and a
      topology error is raised. */
  function ConstructAreasStrict(sec: Section): (r: Result<seq<Area>>)
    requires sec.Valid()
  {
    var idx := InitialIndex(sec.unilines, 0, map[]);
    var ids := PointIds(sec.invpoints);
    var out := FaceLoop(sec.unilines.items, Faces(sec), 0, Carry(ids, idx, false), true);
    if out.Err? then Err(out.error) else Ok(out.value.areas)
  }

  /** With at least one line and one point, the raising variant succeeds exactly
      when the logging variant logs nothing, and both find the same areas. */
  lemma StrictMatchesLogged(sec: Section)
    requires sec.Valid() && |sec.unilines.order| > 0 && |sec.invpoints.order| > 0
    ensures ConstructAreasStrict(sec).Ok? <==> ConstructAreas(sec).Ok? && ConstructAreas(sec).value.log == []
    ensures ConstructAreasStrict(sec).Ok? ==> ConstructAreasStrict(sec).value == ConstructAreas(sec).value.areas
  {
    SectionHasFaces(sec);
    StrictIffNoLog(sec.unilines.items, Faces(sec), 0, Carry(PointIds(sec.invpoints), InitialIndex(sec.unilines, 0, map[]), false));
  }

  /** A section with lines has an indexed pair and a face. */
  lemma SectionHasFaces(sec: Section)
    requires sec.Valid() && |sec.unilines.order| > 0
    ensures |InitialIndex(sec.unilines, 0, map[])| > 0 && |Faces(sec).order| > 0
  {
    var u := sec.unilines.items[sec.unilines.order[0]];
    assert (u.begin, u.end) in InitialIndex(sec.unilines, 0, map[]);
    var faces := Faces(sec);
    assert Listed(faces, u.phases, sec.unilines.order[0]);
    assert u.phases in faces.items;
  }
}
