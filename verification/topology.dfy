/** Invariant points, univariant lines and the section that stores them: labels,
    the lines that leave a point, the point-on-line test and id lookup. */
module Topology {
  import opened Wrappers
  import opened Text
  import opened StrOrder
  import opened Registries

  type Phases = set<string>

  /** Pairs of phases that are polymorphs of one another, in the order the code
      tries them. */
  const Polymorphs: seq<Phases> :=
    [{"sill", "and"}, {"ky", "and"}, {"sill", "ky"}, {"q", "coe"}, {"diam", "gph"}]

  /** An invariant point: its stable phases and the two phases of zero mode. */
  datatype InvPoint = InvPoint(id: nat, phases: Phases, out: Phases, manual: bool)

  /** A univariant line: its stable phases, the one phase of zero mode and the
      points it starts and ends at (`0` for an open end). */
  datatype UniLine = UniLine(id: nat, phases: Phases, out: Phases, manual: bool, begin: nat, end: nat)

  /** A (phases, out) pair, as `all_unilines` yields them. */
  datatype Assemblage = Assemblage(phases: Phases, out: Phases)

  datatype Section = Section(excess: Phases, invpoints: Registry<nat, InvPoint>, unilines: Registry<nat, UniLine>)
  {
    ghost predicate Valid() {
      invpoints.Valid() && unilines.Valid()
    }
  }

  /** A phase name that `split()` keeps as one word. */
  predicate CleanName(p: string) {
    |p| > 0 && NoSpace(p)
  }

  // ---------------------------------------------------------------- labels

  /** `label(excess)`: the sorted non-excess phases, ` - `, the sorted out phases. */
  function Label(phases: Phases, out: Phases, excess: Phases): (s: string)
  {
    Join(Sort(phases - excess), " ") + " - " + Join(Sort(out), " ")
  }

  lemma WordsOfSortedJoin(s: Phases)
    requires forall p :: p in s ==> CleanName(p)
    ensures Words(Join(Sort(s), " ")) == Sort(s)
  {
    var xs := Sort(s);
    assert forall k :: 0 <= k < |xs| ==> xs[k] in s;
    WordsOfJoin(xs);
  }

  /** Read back word by word, a label is the sorted shown phases, a lone `-`, and
      the sorted out phases. */
  lemma LabelWords(phases: Phases, out: Phases, excess: Phases)
    requires forall p :: p in phases + out ==> CleanName(p)
    ensures Words(Label(phases, out, excess)) == Sort(phases - excess) + ["-"] + Sort(out)
  {
    WordsAroundDash(Join(Sort(phases - excess), " "), Join(Sort(out), " "));
    WordsOfSortedJoin(phases - excess);
    WordsOfSortedJoin(out);
  }

  lemma WordsAroundDash(a: string, b: string)
    ensures Words(a + " - " + b) == Words(a) + ["-"] + Words(b)
  {
    DashSpelled(a, b);
    WordsAroundSpace(a, ' ', "-" + [' '] + b);
    WordsAroundSpace("-", ' ', b);
    WordsOfWord("-");
  }

  lemma DashSpelled(a: string, b: string)
    ensures a + " - " + b == a + [' '] + ("-" + [' '] + b)
  {
    assert " - " == [' '] + "-" + [' '];
  }

  /** Two entries with the same label agree on their shown phases and their out
      phases, provided no phase is called `-`. */
  lemma LabelInjective(p: Phases, o: Phases, p': Phases, o': Phases, excess: Phases)
    requires forall x :: x in p + o + p' + o' ==> CleanName(x)
    requires "-" !in p && "-" !in p'
    requires Label(p, o, excess) == Label(p', o', excess)
    ensures p - excess == p' - excess && o == o'
  {
    LabelWords(p, o, excess);
    LabelWords(p', o', excess);
    CutAtDelimiter(Sort(p - excess), "-", Sort(o), Sort(p' - excess), Sort(o'));
    SortInjective(p - excess, p' - excess);
    SortInjective(o, o');
  }

  // ---------------------------------------------------------------- polymorphs

  lemma PolymorphPairs()
    ensures forall i :: 0 <= i < |Polymorphs| ==> |Polymorphs[i]| == 2
  {
    assert "sill" != "and" && "ky" != "and" && "sill" != "ky" && "q" != "coe" && "diam" != "gph" by {
      assert "sill"[0] != "and"[0] && "ky"[0] != "and"[0] && "sill"[0] != "ky"[0];
      assert "q"[0] != "coe"[0] && "diam"[0] != "gph"[0];
    }
  }

  /** The first polymorph pair wholly among `phases`. */
  function FirstPolyIn(phases: Phases, ps: seq<Phases>): (r: Option<Phases>)
    ensures r.None? <==> forall i :: 0 <= i < |ps| ==> !(ps[i] <= phases)
    ensures r.Some? ==> exists i :: 0 <= i < |ps| && ps[i] == r.value && r.value <= phases &&
                          forall j :: 0 <= j < i ==> !(ps[j] <= phases)
  {
    if |ps| == 0 then None
    else if ps[0] <= phases then Some(ps[0])
    else
      var r := FirstPolyIn(phases, ps[1..]);
      assert r.Some? ==> exists i :: 0 <= i < |ps| && ps[i] == r.value && r.value <= phases &&
                          forall j :: 0 <= j < i ==> !(ps[j] <= phases) by {
        if r.Some? {
          var i :| 0 <= i < |ps[1..]| && ps[1..][i] == r.value && r.value <= phases &&
                   forall j :: 0 <= j < i ==> !(ps[1..][j] <= phases);
          assert ps[i + 1] == r.value;
          assert forall j :: 0 <= j < i + 1 ==> !(ps[j] <= phases) by {
            forall j | 0 <= j < i + 1 ensures !(ps[j] <= phases) {
              if j > 0 { assert ps[j] == ps[1..][j - 1]; }
            }
          }
        }
      }
      r
  }

  /** A polymorph pair that puts a point on a polymorphic boundary: wholly among
      the point's phases, not its out pair, and sharing a phase with it. */
  predicate OnBoundary(poly: Phases, phases: Phases, out: Phases) {
    poly <= phases && poly != out && poly * out != {}
  }

  /** The first polymorph pair the point lies on the boundary of. */
  function BoundaryPolyIn(phases: Phases, out: Phases, ps: seq<Phases>): (r: Option<Phases>)
    ensures r.None? <==> forall i :: 0 <= i < |ps| ==> !OnBoundary(ps[i], phases, out)
    ensures r.Some? ==> r.value in ps && OnBoundary(r.value, phases, out)
  {
    if |ps| == 0 then None
    else if OnBoundary(ps[0], phases, out) then Some(ps[0])
    else
      var r := BoundaryPolyIn(phases, out, ps[1..]);
      assert r.None? ==> forall i :: 0 <= i < |ps| ==> !OnBoundary(ps[i], phases, out) by {
        if r.None? {
          forall i | 0 <= i < |ps| ensures !OnBoundary(ps[i], phases, out) {
            if i > 0 { assert ps[i] == ps[1..][i - 1]; }
          }
        }
      }
      r
  }

  /** `(out - poly) | (poly - out)`: the out pair with the polymorph swapped. */
  function Switch(out: Phases, poly: Phases): (r: Phases)
    ensures forall x :: x in r <==> (x in out <==> x !in poly)
  {
    (out - poly) + (poly - out)
  }

  /** Swapping the polymorph twice gives the out pair back. */
  lemma SwitchTwice(out: Phases, poly: Phases)
    ensures Switch(Switch(out, poly), poly) == out
  {
  }

  // ---------------------------------------------------------------- small sets

  lemma PairOf<T>(s: set<T>, y: T) returns (n: T)
    requires |s| == 2 && y in s
    ensures n != y && s == {y, n}
  {
    assert |s - {y}| == 1;
    n :| n in s - {y};
    assert s - {y, n} == {} by {
      assert |s - {y} - {n}| == 0;
      assert s - {y} - {n} == s - {y, n};
    }
  }

  lemma SingleOf<T>(s: set<T>) returns (x: T)
    requires |s| == 1
    ensures s == {x}
  {
    x :| x in s;
    assert |s - {x}| == 0;
  }

  // ---------------------------------------------------------------- all_unilines

  /** The four lines leaving an ordinary point with out pair {a, b}. */
  function PlainUnilines(phases: Phases, a: string, b: string): (r: multiset<Assemblage>)
    ensures |r| == 4
  {
    multiset{Assemblage(phases, {a}), Assemblage(phases, {b}),
             Assemblage(phases - {b}, {a}), Assemblage(phases - {a}, {b})}
  }

  /** The four lines leaving a point that sits on the boundary of `poly`. */
  function PolyUnilines(phases: Phases, out: Phases, poly: Phases): (r: multiset<Assemblage>)
    ensures |r| == 4
  {
    var yes := poly * out;
    var no := out - yes;
    multiset{Assemblage(phases - yes, no), Assemblage(phases - (poly - out), no),
             Assemblage(phases, yes), Assemblage(phases - no, yes)}
  }

  /** The two out phases in some fixed order. The code unpacks `a, b = out` in
      hash order; every use below is symmetric in the two. */
  function OutPair(out: Phases): (ab: (string, string))
    requires |out| == 2
    ensures out == {ab.0, ab.1} && ab.0 != ab.1
  {
    var s := Sort(out);
    assert s[0] in out && s[1] in out;
    assert s[0] != s[1] by { LessIrreflexive(s[0]); }
    assert out == {s[0], s[1]} by {
      forall x | x in out ensures x == s[0] || x == s[1] {
        assert x in s;
      }
    }
    (s[0], s[1])
  }

  /** `all_unilines` as written: the polymorph branch is taken whenever the first
      polymorph pair among the phases is not the out pair, even when it shares no
      phase with the out pair. Unpacking an out set of any size but two raises. */
  function AllUnilinesAsWritten(inv: InvPoint): (r: Result<multiset<Assemblage>>)
    ensures r.Ok? <==> |inv.out| == 2
    ensures r.Ok? ==> |r.value| == 4
  {
    if |inv.out| != 2 then Err(ValueError("too many values to unpack"))
    else
      var poly := FirstPolyIn(inv.phases, Polymorphs);
      if poly.Some? && poly.value != inv.out then Ok(PolyUnilines(inv.phases, inv.out, poly.value))
      else
        var (a, b) := OutPair(inv.out);
        Ok(PlainUnilines(inv.phases, a, b))
  }

  /** `all_unilines` with the polymorph branch taken only on a polymorphic
      boundary, the same condition `contains_inv` uses. */
  function AllUnilines(inv: InvPoint): (r: Result<multiset<Assemblage>>)
    ensures r.Ok? <==> |inv.out| == 2
    ensures r.Ok? ==> |r.value| == 4
  {
    if |inv.out| != 2 then Err(ValueError("too many values to unpack"))
    else
      var poly := BoundaryPolyIn(inv.phases, inv.out, Polymorphs);
      if poly.Some? then Ok(PolyUnilines(inv.phases, inv.out, poly.value))
      else
        var (a, b) := OutPair(inv.out);
        Ok(PlainUnilines(inv.phases, a, b))
  }

  /** With no polymorph pair among its phases, a point with out pair {a, b} gives
      the lines (phases, {a}), (phases, {b}), (phases - {b}, {a}) and
      (phases - {a}, {b}), whichever of a and b is unpacked first. */
  lemma AllUnilinesPlain(inv: InvPoint, a: string, b: string)
    requires inv.out == {a, b} && a != b
    requires forall i :: 0 <= i < |Polymorphs| ==> !(Polymorphs[i] <= inv.phases)
    ensures AllUnilines(inv) == Ok(multiset{
              Assemblage(inv.phases, {a}), Assemblage(inv.phases, {b}),
              Assemblage(inv.phases - {b}, {a}), Assemblage(inv.phases - {a}, {b})})
    ensures AllUnilinesAsWritten(inv) == AllUnilines(inv)
  {
    NoPolymorphAmong(inv.phases, inv.out);
    var ab := OutPair(inv.out);
    assert ab.0 in {a, b};
    if ab.0 == a {
      assert ab.1 == b;
    } else {
      assert ab == (b, a);
      PlainUnilinesSymmetric(inv.phases, a, b);
    }
  }

  lemma NoPolymorphAmong(phases: Phases, out: Phases)
    requires forall i :: 0 <= i < |Polymorphs| ==> !(Polymorphs[i] <= phases)
    ensures FirstPolyIn(phases, Polymorphs).None?
    ensures BoundaryPolyIn(phases, out, Polymorphs).None?
  {
  }

  lemma PlainUnilinesSymmetric(phases: Phases, a: string, b: string)
    ensures PlainUnilines(phases, a, b) == PlainUnilines(phases, b, a)
  {
  }

  /** The shape of a point on a polymorphic boundary: the out pair {y, n} shares
      exactly y with the polymorph pair {y, y'}. */
  lemma BoundaryShape(out: Phases, poly: Phases) returns (y: string, n: string, y': string)
    requires |out| == 2 && |poly| == 2 && poly != out && poly * out != {}
    ensures out == {y, n} && poly == {y, y'}
    ensures y != n && y != y' && n != y'
  {
    y :| y in poly * out;
    n := PairOf(out, y);
    y' := PairOf(poly, y);
  }

  // ---------------------------------------------------------------- contains_inv

  /** `checkme`: a line (uphases, uout) passes through a point (iphases, {a, b})
      when the phases agree and exactly one out phase of the point is not the
      line's, or when the line drops one out phase and keeps the other as out. */
  predicate Checkme(uphases: Phases, uout: Phases, iphases: Phases, iout: Phases)
    requires |iout| == 2
  {
    (iphases == uphases && |iout - uout| == 1)
    || exists x :: x in iout && iphases - (iout - {x}) == uphases && uout == {x}
  }

  lemma SwitchOnBoundary(out: Phases, poly: Phases)
    requires |out| == 2 && |poly| == 2 && poly != out && poly * out != {}
    ensures |Switch(out, poly)| == 2
  {
    var y, n, y' := BoundaryShape(out, poly);
    assert Switch(out, poly) == {n, y'};
  }

  /** `UniLine.contains_inv`: whether the point lies on the line, trying the
      polymorph-swapped out pairs of the point and of the line when the point
      sits on a polymorphic boundary. */
  function ContainsInv(u: UniLine, ip: InvPoint): (r: Result<bool>)
    ensures r.Ok? <==> |ip.out| == 2
    ensures r.Ok? && Checkme(u.phases, u.out, ip.phases, ip.out) ==> r.value
    ensures r.Ok? && BoundaryPolyIn(ip.phases, ip.out, Polymorphs).None? ==>
              r.value == Checkme(u.phases, u.out, ip.phases, ip.out)
  {
    if |ip.out| != 2 then Err(ValueError("too many values to unpack"))
    else
      var poly := BoundaryPolyIn(ip.phases, ip.out, Polymorphs);
      var fixi := poly.Some?;
      var fixu := fixi && poly.value <= u.phases && u.out * poly.value != {};
      var c1 := Checkme(u.phases, u.out, ip.phases, ip.out);
      var c2 := c1 || (fixi && (PolymorphPairs(); SwitchOnBoundary(ip.out, poly.value);
                               Checkme(u.phases, u.out, ip.phases, Switch(ip.out, poly.value))));
      var c3 := c2 || (fixu && Checkme(u.phases, poly.value - u.out, ip.phases, ip.out));
      Ok(c3)
  }

  /** Away from polymorphs, a line contains a point with out pair {a, b} in
      exactly three cases. */
  lemma ContainsInvPlain(u: UniLine, ip: InvPoint, a: string, b: string)
    requires ip.out == {a, b} && a != b
    requires forall i :: 0 <= i < |Polymorphs| ==> !(Polymorphs[i] <= ip.phases)
    ensures ContainsInv(u, ip) == Ok(
              (ip.phases == u.phases && |{a, b} - u.out| == 1)
              || (u.phases == ip.phases - {b} && u.out == {a})
              || (u.phases == ip.phases - {a} && u.out == {b}))
  {
    assert BoundaryPolyIn(ip.phases, ip.out, Polymorphs).None?;
    assert {a, b} - {a} == {b} && {a, b} - {b} == {a};
  }

  /** Away from polymorphs, the one-out lines through a point are exactly the lines
      `all_unilines` lists for it. */
  lemma ContainsInvIffListed(u: UniLine, ip: InvPoint)
    requires |ip.out| == 2 && |u.out| == 1
    requires forall i :: 0 <= i < |Polymorphs| ==> !(Polymorphs[i] <= ip.phases)
    ensures ContainsInv(u, ip) == Ok(true) <==> Assemblage(u.phases, u.out) in AllUnilines(ip).value
  {
    var ab := OutPair(ip.out);
    ContainsInvPlain(u, ip, ab.0, ab.1);
    AllUnilinesPlain(ip, ab.0, ab.1);
    var x := SingleOf(u.out);
    ListedIff(ip.phases, ab.0, ab.1, u.phases, x);
  }

  lemma ListedIff(P: Phases, a: string, b: string, up: Phases, x: string)
    requires a != b
    ensures ((P == up && |{a, b} - {x}| == 1) || (up == P - {b} && {x} == {a}) || (up == P - {a} && {x} == {b}))
            <==> Assemblage(up, {x}) in multiset{Assemblage(P, {a}), Assemblage(P, {b}),
                                                 Assemblage(P - {b}, {a}), Assemblage(P - {a}, {b})}
  {
    if x == a {
      assert {a, b} - {x} == {b};
    } else if x == b {
      assert {a, b} - {x} == {a};
    } else {
      assert {a, b} - {x} == {a, b};
    }
  }

  /** Every line `all_unilines` lists for a point has one out phase and passes
      through the point. */
  lemma AllUnilinesContained(ip: InvPoint, l: Assemblage)
    requires |ip.out| == 2
    requires l in AllUnilines(ip).value
    ensures |l.out| == 1
    ensures ContainsInv(UniLine(0, l.phases, l.out, false, 0, 0), ip) == Ok(true)
  {
    var poly := BoundaryPolyIn(ip.phases, ip.out, Polymorphs);
    if poly.None? {
      PlainContained(ip, l);
    } else {
      PolyContained(ip, poly.value, l);
    }
  }

  lemma PlainContained(ip: InvPoint, l: Assemblage)
    requires |ip.out| == 2 && BoundaryPolyIn(ip.phases, ip.out, Polymorphs).None?
    requires var ab := OutPair(ip.out); l in PlainUnilines(ip.phases, ab.0, ab.1)
    ensures |l.out| == 1
    ensures Checkme(l.phases, l.out, ip.phases, ip.out)
  {
    var P := ip.phases;
    var ab := OutPair(ip.out);
    var a, b := ab.0, ab.1;
    assert {a, b} - {a} == {b} && {a, b} - {b} == {a};
    if l == Assemblage(P - {b}, {a}) {
      assert P - ({a, b} - {a}) == l.phases;
    } else if l == Assemblage(P - {a}, {b}) {
      assert P - ({a, b} - {b}) == l.phases;
    }
  }

  lemma PolyContained(ip: InvPoint, pp: Phases, l: Assemblage)
    requires |ip.out| == 2 && BoundaryPolyIn(ip.phases, ip.out, Polymorphs) == Some(pp)
    requires l in PolyUnilines(ip.phases, ip.out, pp)
    ensures |l.out| == 1
    ensures ContainsInv(UniLine(0, l.phases, l.out, false, 0, 0), ip) == Ok(true)
  {
    var u := UniLine(0, l.phases, l.out, false, 0, 0);
    var P := ip.phases;
    PolymorphPairs();
    var y, n, y' := BoundaryShape(ip.out, pp);
    PolyUnilinesShape(P, ip.out, pp, y, n, y');
    PolyLineCases(P, y, n, y', l);
    if l == Assemblage(P - {y'}, {n}) {
      SwitchOnBoundary(ip.out, pp);
      assert Switch(ip.out, pp) == {n, y'};
      SwitchedContains(u, ip, pp);
    }
  }

  /** The four lines listed at a polymorphic boundary, named by their phases. */
  lemma PolyUnilinesShape(P: Phases, out: Phases, pp: Phases, y: string, n: string, y': string)
    requires out == {y, n} && pp == {y, y'} && y != n && y != y' && n != y'
    ensures PolyUnilines(P, out, pp) == multiset{Assemblage(P - {y}, {n}), Assemblage(P - {y'}, {n}),
                                                 Assemblage(P, {y}), Assemblage(P - {n}, {y})}
  {
    assert pp * out == {y} && out - {y} == {n} && pp - out == {y'};
  }

  /** Each listed line has one out phase, and all but one pass through the point
      with its own out pair. */
  lemma PolyLineCases(P: Phases, y: string, n: string, y': string, l: Assemblage)
    requires y != n && y != y' && n != y'
    requires l in multiset{Assemblage(P - {y}, {n}), Assemblage(P - {y'}, {n}),
                           Assemblage(P, {y}), Assemblage(P - {n}, {y})}
    ensures |l.out| == 1
    ensures l == Assemblage(P - {y'}, {n}) ==> Checkme(l.phases, l.out, P, {n, y'})
    ensures l != Assemblage(P - {y'}, {n}) ==> Checkme(l.phases, l.out, P, {y, n})
  {
    if l == Assemblage(P - {y'}, {n}) {
      assert P - ({n, y'} - {n}) == l.phases;
    } else if l == Assemblage(P - {y}, {n}) {
      assert P - ({y, n} - {n}) == l.phases;
    } else if l == Assemblage(P - {n}, {y}) {
      assert P - ({y, n} - {y}) == l.phases;
    } else {
      assert {y, n} - {y} == {n};
    }
  }

  /** A line through the point once its out pair is polymorph-swapped contains it. */
  lemma SwitchedContains(u: UniLine, ip: InvPoint, pp: Phases)
    requires |ip.out| == 2 && BoundaryPolyIn(ip.phases, ip.out, Polymorphs) == Some(pp)
    requires |Switch(ip.out, pp)| == 2 && Checkme(u.phases, u.out, ip.phases, Switch(ip.out, pp))
    ensures ContainsInv(u, ip) == Ok(true)
  {
  }

  /** A point on no polymorphic boundary although a polymorph pair is among its
      phases: the code as written lists lines with two out phases and with none. */
  lemma AllUnilinesAsWrittenDegenerate()
    ensures var inv := InvPoint(1, {"sill", "ky", "g", "bi"}, {"g", "bi"}, false);
            AllUnilinesAsWritten(inv).Ok? &&
            Assemblage(inv.phases, {}) in AllUnilinesAsWritten(inv).value
  {
    var inv := InvPoint(1, {"sill", "ky", "g", "bi"}, {"g", "bi"}, false);
    assert "g" != "bi" by { assert "g"[0] != "bi"[0]; }
    assert !("and" in inv.phases) by {
      assert "and"[0] != "sill"[0] && "and"[0] != "ky"[0] && "and"[0] != "g"[0] && "and"[0] != "bi"[0];
    }
    assert !(Polymorphs[0] <= inv.phases) && !(Polymorphs[1] <= inv.phases);
    assert Polymorphs[2] <= inv.phases;
    assert Polymorphs[2] != inv.out by { assert "sill" !in inv.out by { assert "sill"[0] != "g"[0] && "sill"[0] != "bi"[0]; } }
    assert FirstPolyIn(inv.phases, Polymorphs) == Some(Polymorphs[2]);
    assert Polymorphs[2] * inv.out == {} by {
      assert "sill"[0] != "g"[0] && "sill"[0] != "bi"[0] && "ky"[0] != "g"[0] && "ky"[0] != "bi"[0];
    }
  }

  // ---------------------------------------------------------------- add and id lookup

  /** `add_inv(id, inv)`: store the point under `id` and give it that id. */
  function AddInv(sec: Section, id: nat, inv: InvPoint): (sec': Section)
    requires sec.Valid()
    ensures sec'.Valid()
    ensures id in sec'.invpoints.items && sec'.invpoints.items[id] == inv.(id := id)
    ensures forall k :: k != id ==> (k in sec'.invpoints.items <==> k in sec.invpoints.items)
    ensures forall k :: k != id && k in sec.invpoints.items ==> sec'.invpoints.items[k] == sec.invpoints.items[k]
    ensures sec'.unilines == sec.unilines && sec'.excess == sec.excess
  {
    sec.(invpoints := Put(sec.invpoints, id, inv.(id := id)))
  }

  /** `add_uni(id, uni)`: store the line under `id` and give it that id. */
  function AddUni(sec: Section, id: nat, uni: UniLine): (sec': Section)
    requires sec.Valid()
    ensures sec'.Valid()
    ensures id in sec'.unilines.items && sec'.unilines.items[id] == uni.(id := id)
    ensures forall k :: k != id ==> (k in sec'.unilines.items <==> k in sec.unilines.items)
    ensures forall k :: k != id && k in sec.unilines.items ==> sec'.unilines.items[k] == sec.unilines.items[k]
    ensures sec'.invpoints == sec.invpoints && sec'.excess == sec.excess
  {
    sec.(unilines := Put(sec.unilines, id, uni.(id := id)))
  }

  /** What `getidinv`/`getiduni` answer: whether the entry is new, its id, and the
      out set the query is left holding (the stored one on a match). */
  datatype IdAnswer = IdAnswer(isNew: bool, id: nat, out: Phases)

  /** `o` is `out` with the polymorph pair `poly` (among `phases`) swapped, and not empty. */
  predicate SwitchedBy(o: Phases, phases: Phases, out: Phases, poly: Phases) {
    poly <= phases && Switch(out, poly) != {} && o == Switch(out, poly)
  }

  /** The out pairs `getidinv` accepts as naming the same point: the query's own
      and, for each polymorph pair among the phases, the pair with the polymorph
      swapped when that is not empty. */
  function InvOuts(phases: Phases, out: Phases): (outs: seq<Phases>)
    ensures forall o :: o in outs <==> o == out || (exists i :: 0 <= i < |Polymorphs| && SwitchedBy(o, phases, out, Polymorphs[i]))
  {
    [out] + SwitchedOuts(phases, out, Polymorphs)
  }

  function SwitchedOuts(phases: Phases, out: Phases, ps: seq<Phases>): (outs: seq<Phases>)
    ensures forall o :: o in outs <==> (exists i :: 0 <= i < |ps| && SwitchedBy(o, phases, out, ps[i]))
  {
    if |ps| == 0 then []
    else
      var rest := SwitchedOuts(phases, out, ps[1..]);
      assert forall o :: o in rest <==> (exists i :: 1 <= i < |ps| && SwitchedBy(o, phases, out, ps[i])) by {
        forall o ensures o in rest <==> (exists i :: 1 <= i < |ps| && SwitchedBy(o, phases, out, ps[i])) {
          if o in rest {
            var i :| 0 <= i < |ps[1..]| && SwitchedBy(o, phases, out, ps[1..][i]);
            assert ps[i + 1] == ps[1..][i];
          }
          if exists i :: 1 <= i < |ps| && SwitchedBy(o, phases, out, ps[i]) {
            var i :| 1 <= i < |ps| && SwitchedBy(o, phases, out, ps[i]);
            assert ps[1..][i - 1] == ps[i];
          }
        }
      }
      (if ps[0] <= phases && Switch(out, ps[0]) != {} then [Switch(out, ps[0])] else []) + rest
  }

  /** The out sets `getiduni` accepts as naming the same line: the query's own
      and, for each polymorph pair among the phases, the pair minus that out. */
  function UniOuts(phases: Phases, out: Phases): (outs: seq<Phases>)
    ensures forall o :: o in outs <==> o == out || (exists i :: 0 <= i < |Polymorphs| && Polymorphs[i] <= phases && o == Polymorphs[i] - out)
  {
    [out] + OtherPolymorphs(phases, out, Polymorphs)
  }

  function OtherPolymorphs(phases: Phases, out: Phases, ps: seq<Phases>): (outs: seq<Phases>)
    ensures forall o :: o in outs <==> exists i :: 0 <= i < |ps| && ps[i] <= phases && o == ps[i] - out
  {
    if |ps| == 0 then []
    else
      var rest := OtherPolymorphs(phases, out, ps[1..]);
      assert forall o :: o in rest <==> exists i :: 1 <= i < |ps| && ps[i] <= phases && o == ps[i] - out by {
        forall o ensures o in rest <==> exists i :: 1 <= i < |ps| && ps[i] <= phases && o == ps[i] - out {
          if o in rest {
            var i :| 0 <= i < |ps[1..]| && ps[1..][i] <= phases && o == ps[1..][i] - out;
            assert ps[i + 1] == ps[1..][i];
          }
          if exists i :: 1 <= i < |ps| && ps[i] <= phases && o == ps[i] - out {
            var i :| 1 <= i < |ps| && ps[i] <= phases && o == ps[i] - out;
            assert ps[1..][i - 1] == ps[i];
          }
        }
      }
      (if ps[0] <= phases then [ps[0] - out] else []) + rest
  }

  /** A stored point `c` answers a query for (phases, out). */
  predicate SameInv(c: InvPoint, phases: Phases, out: Phases) {
    c.phases == phases && c.out in InvOuts(phases, out)
  }

  /** A stored line `c` answers a query for (phases, out). */
  predicate SameUni(c: UniLine, phases: Phases, out: Phases) {
    c.phases == phases && c.out in UniOuts(phases, out)
  }

  /** `getidinv(inv)`: the first stored point, in insertion order, with the same
      phases and an equivalent out pair; otherwise a new id one above the largest. */
  function GetIdInv(sec: Section, q: InvPoint): (r: IdAnswer)
    requires sec.Valid()
    ensures r.isNew <==> forall k :: k in sec.invpoints.items ==> !SameInv(sec.invpoints.items[k], q.phases, q.out)
    ensures r.isNew ==> r.id == NextId(sec.invpoints) && r.id !in sec.invpoints.items && r.out == q.out
    ensures !r.isNew ==> r.id in sec.invpoints.items && SameInv(sec.invpoints.items[r.id], q.phases, q.out)
                         && r.out == sec.invpoints.items[r.id].out
    ensures !r.isNew ==> exists i :: 0 <= i < |sec.invpoints.order| && sec.invpoints.order[i] == r.id
                           && forall i' :: 0 <= i' < i ==> !SameInv(sec.invpoints.items[sec.invpoints.order[i']], q.phases, q.out)
  {
    var outs := InvOuts(q.phases, q.out);
    var hit := FindFirst(sec.invpoints, (c: InvPoint) => c.phases == q.phases && c.out in outs);
    if hit.Some? then IdAnswer(false, hit.value, sec.invpoints.items[hit.value].out)
    else IdAnswer(true, NextId(sec.invpoints), q.out)
  }

  /** `getiduni(uni)`: as `GetIdInv`, for lines. */
  function GetIdUni(sec: Section, q: UniLine): (r: IdAnswer)
    requires sec.Valid()
    ensures r.isNew <==> forall k :: k in sec.unilines.items ==> !SameUni(sec.unilines.items[k], q.phases, q.out)
    ensures r.isNew ==> r.id == NextId(sec.unilines) && r.id !in sec.unilines.items && r.out == q.out
    ensures !r.isNew ==> r.id in sec.unilines.items && SameUni(sec.unilines.items[r.id], q.phases, q.out)
                         && r.out == sec.unilines.items[r.id].out
    ensures !r.isNew ==> exists i :: 0 <= i < |sec.unilines.order| && sec.unilines.order[i] == r.id
                           && forall i' :: 0 <= i' < i ==> !SameUni(sec.unilines.items[sec.unilines.order[i']], q.phases, q.out)
  {
    var outs := UniOuts(q.phases, q.out);
    var hit := FindFirst(sec.unilines, (c: UniLine) => c.phases == q.phases && c.out in outs);
    if hit.Some? then IdAnswer(false, hit.value, sec.unilines.items[hit.value].out)
    else IdAnswer(true, NextId(sec.unilines), q.out)
  }

  /** No two stored points name the same point. */
  ghost predicate InvsDistinct(sec: Section) {
    forall k, j :: k in sec.invpoints.items && j in sec.invpoints.items && k != j ==>
      !SameInv(sec.invpoints.items[k], sec.invpoints.items[j].phases, sec.invpoints.items[j].out)
  }

  /** No two stored lines name the same line. */
  ghost predicate UnisDistinct(sec: Section) {
    forall k, j :: k in sec.unilines.items && j in sec.unilines.items && k != j ==>
      !SameUni(sec.unilines.items[k], sec.unilines.items[j].phases, sec.unilines.items[j].out)
  }

  /** Looking up a stored point finds it under its own key. */
  lemma GetIdInvStored(sec: Section, k: nat)
    requires sec.Valid() && InvsDistinct(sec) && k in sec.invpoints.items
    ensures var c := sec.invpoints.items[k];
            GetIdInv(sec, c) == IdAnswer(false, k, c.out)
  {
    var c := sec.invpoints.items[k];
    assert SameInv(c, c.phases, c.out);
  }

  /** Looking up a stored line finds it under its own key. */
  lemma GetIdUniStored(sec: Section, k: nat)
    requires sec.Valid() && UnisDistinct(sec) && k in sec.unilines.items
    ensures var c := sec.unilines.items[k];
            GetIdUni(sec, c) == IdAnswer(false, k, c.out)
  {
    var c := sec.unilines.items[k];
    assert SameUni(c, c.phases, c.out);
  }

  /** For two-phase out pairs, naming the same point is symmetric. */
  lemma SameInvSymmetric(c: InvPoint, phases: Phases, out: Phases)
    requires |c.out| == 2 && |out| == 2
    requires SameInv(c, phases, out)
    ensures c.out in InvOuts(phases, out) && out in InvOuts(c.phases, c.out)
  {
    if c.out != out {
      var i :| 0 <= i < |Polymorphs| && SwitchedBy(c.out, phases, out, Polymorphs[i]);
      SwitchTwice(out, Polymorphs[i]);
    }
  }

  /** For one-phase outs, naming the same line is symmetric. */
  lemma SameUniSymmetric(c: UniLine, phases: Phases, out: Phases)
    requires |c.out| == 1 && |out| == 1
    requires SameUni(c, phases, out)
    ensures out in UniOuts(c.phases, c.out)
  {
    if c.out != out {
      var i :| 0 <= i < |Polymorphs| && Polymorphs[i] <= phases && c.out == Polymorphs[i] - out;
      PolymorphPairs();
      var poly := Polymorphs[i];
      var x := SingleOf(out);
      assert x in poly by {
        assert |poly - out| == 1;
        assert |poly - out| == |poly| - |poly * out|;
      }
      var y := PairOf(poly, x);
      assert poly - out == {y};
      assert poly - c.out == out;
    }
  }

  /** Every stored point has a two-phase out pair, every stored line a one-phase out. */
  ghost predicate WellFormed(sec: Section) {
    (forall k :: k in sec.invpoints.items ==> |sec.invpoints.items[k].out| == 2) &&
    (forall k :: k in sec.unilines.items ==> |sec.unilines.items[k].out| == 1)
  }

  /** Adding a point under the id `getidinv` allocates keeps the points distinct,
      and the point is found under that id from then on. */
  lemma AddNewInv(sec: Section, q: InvPoint)
    requires sec.Valid() && WellFormed(sec) && InvsDistinct(sec) && |q.out| == 2
    requires GetIdInv(sec, q).isNew
    ensures var sec' := AddInv(sec, GetIdInv(sec, q).id, q);
            InvsDistinct(sec') && WellFormed(sec') && GetIdInv(sec', q) == IdAnswer(false, GetIdInv(sec, q).id, q.out)
  {
    var id := GetIdInv(sec, q).id;
    var sec' := AddInv(sec, id, q);
    var items := sec'.invpoints.items;
    forall k, j | k in items && j in items && k != j
      ensures !SameInv(items[k], items[j].phases, items[j].out)
    {
      if k == id {
        if SameInv(items[k], items[j].phases, items[j].out) {
          SameInvSymmetric(items[k], items[j].phases, items[j].out);
          assert SameInv(sec.invpoints.items[j], q.phases, q.out);
        }
      } else if j == id {
        assert !SameInv(sec.invpoints.items[k], q.phases, q.out);
      }
    }
    GetIdInvStored(sec', id);
  }

  /** Adding a line under the id `getiduni` allocates keeps the lines distinct,
      and the line is found under that id from then on. */
  lemma AddNewUni(sec: Section, q: UniLine)
    requires sec.Valid() && WellFormed(sec) && UnisDistinct(sec) && |q.out| == 1
    requires GetIdUni(sec, q).isNew
    ensures var sec' := AddUni(sec, GetIdUni(sec, q).id, q);
            UnisDistinct(sec') && WellFormed(sec') && GetIdUni(sec', q) == IdAnswer(false, GetIdUni(sec, q).id, q.out)
  {
    var id := GetIdUni(sec, q).id;
    var sec' := AddUni(sec, id, q);
    var items := sec'.unilines.items;
    forall k, j | k in items && j in items && k != j
      ensures !SameUni(items[k], items[j].phases, items[j].out)
    {
      if k == id {
        if SameUni(items[k], items[j].phases, items[j].out) {
          SameUniSymmetric(items[k], items[j].phases, items[j].out);
          assert SameUni(sec.unilines.items[j], q.phases, q.out);
        }
      } else if j == id {
        assert !SameUni(sec.unilines.items[k], q.phases, q.out);
      }
    }
    GetIdUniStored(sec', id);
  }
}
