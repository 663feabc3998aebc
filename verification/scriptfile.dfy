/** Editing the blocks pypsbuilder owns inside a THERMOCALC scriptfile. A block is
    the text between a `%{PSB…-BEGIN}` and a `%{PSB…-END}` marker; the editors read
    the old block back and put new lines in its place, leaving the rest alone. */
module Scriptfile {
  import opened Wrappers
  import opened Text
  import opened Find
  import opened Numerals
  import opened Registries

  /** The two markers around one block. */
  datatype Block = Block(begin: string, end: string)

  const Calc := Block("%{PSBCALC-BEGIN}", "%{PSBCALC-END}")
  const Guess := Block("%{PSBGUESS-BEGIN}", "%{PSBGUESS-END}")
  const Bulk := Block("%{PSBBULK-BEGIN}", "%{PSBBULK-END}")
  const Dogmin := Block("%{PSBDOGMIN-BEGIN}", "%{PSBDOGMIN-END}")

  /** The characters between a marker's `%` and its closing `}`. */
  predicate MarkerChar(c: char) {
    'A' <= c <= 'Z' || c == '{' || c == '-'
  }

  /** A marker has `%` first, `}` last and neither anywhere else, so no occurrence
      of a marker can overlap another marker. */
  predicate Delimited(m: string) {
    |m| >= 2 && m[0] == '%' && m[|m| - 1] == '}' &&
    forall j :: 0 < j < |m| - 1 ==> MarkerChar(m[j])
  }

  predicate ProperBlock(blk: Block) {
    Delimited(blk.begin) && Delimited(blk.end) && blk.begin != blk.end
  }

  lemma CalcProper()
    ensures ProperBlock(Calc)
  {
  }

  lemma GuessProper()
    ensures ProperBlock(Guess)
  {
  }

  lemma BulkProper()
    ensures ProperBlock(Bulk)
  {
  }

  // ---------------------------------------------------------------- markers in text

  /** A marker absent from `x` and from `y` is still absent once a different
      marker is put between them. */
  lemma NoOccurrenceAroundMarker(m: string, x: string, p: string, y: string)
    requires Delimited(m) && Delimited(p) && m != p
    requires !Occurs(m, x) && !Occurs(m, y)
    ensures !Occurs(m, x + p + y)
  {
    var s := x + p + y;
    forall j | 0 <= j <= |s| - |m| ensures !OccursAt(m, s, j) {
      var w := s[j..j + |m|];
      if j + |m| <= |x| {
        assert x[j..j + |m|] == w;
        assert !OccursAt(m, x, j);
      } else if j >= |x| + |p| {
        var j' := j - |x| - |p|;
        assert forall t :: 0 <= t < |m| ==> w[t] == y[j' + t];
        assert y[j'..j' + |m|] == w;
        assert !OccursAt(m, y, j');
      } else if j < |x| {
        // the window runs into `p`, whose leading `%` lands inside `m`
        assert w[|x| - j] == p[0];
      } else if j > |x| {
        // the window starts inside `p`, where there is no `%`
        assert w[0] == p[j - |x|];
      } else if |m| < |p| {
        assert w[|m| - 1] == p[|m| - 1];
      } else if |m| > |p| {
        assert w[|p| - 1] == p[|p| - 1];
      } else {
        assert w == p;
      }
    }
  }

  /** `ps[0] + ms[0] + ps[1] + ms[1] + … + ps[|ms|]`: a scriptfile cut at its markers. */
  function Interleave(ps: seq<string>, ms: seq<string>): (s: string)
    requires |ps| == |ms| + 1
    ensures |ms| == 0 ==> s == ps[0]
    decreases |ms|
  {
    if |ms| == 0 then ps[0] else ps[0] + ms[0] + Interleave(ps[1..], ms[1..])
  }

  lemma {:induction false} InterleaveFree(m: string, ps: seq<string>, ms: seq<string>)
    requires |ps| == |ms| + 1
    requires Delimited(m)
    requires forall i :: 0 <= i < |ms| ==> Delimited(ms[i]) && ms[i] != m
    requires forall i :: 0 <= i < |ps| ==> !Occurs(m, ps[i])
    ensures !Occurs(m, Interleave(ps, ms))
    decreases |ms|
  {
    if |ms| > 0 {
      InterleaveFree(m, ps[1..], ms[1..]);
      NoOccurrenceAroundMarker(m, ps[0], ms[0], Interleave(ps[1..], ms[1..]));
    }
  }

  /** Cutting an interleaving at its `i`-th marker. */
  lemma {:induction false} InterleaveAt(ps: seq<string>, ms: seq<string>, i: nat)
    requires |ps| == |ms| + 1 && i < |ms|
    ensures Interleave(ps, ms) == Interleave(ps[..i + 1], ms[..i]) + ms[i] + Interleave(ps[i + 1..], ms[i + 1..])
    decreases i
  {
    if i > 0 {
      InterleaveAt(ps[1..], ms[1..], i - 1);
      assert ps[1..][..i] == ps[1..i + 1] && ms[1..][..i - 1] == ms[1..i];
      assert ps[..i + 1][1..] == ps[1..i + 1] && ms[..i][1..] == ms[1..i];
      assert ps[1..][i..] == ps[i + 1..] && ms[1..][i..] == ms[i + 1..];
    } else {
      assert ps[..1] == [ps[0]];
    }
  }

  /** A scriptfile cut at each of its markers into pieces of text free of every
      marker, each marker occurring once. */
  ghost predicate Layout(ps: seq<string>, ms: seq<string>) {
    && |ps| == |ms| + 1
    && Distinct(ms)
    && (forall i :: 0 <= i < |ms| ==> Delimited(ms[i]))
    && (forall i, j :: 0 <= i < |ps| && 0 <= j < |ms| ==> !Occurs(ms[j], ps[i]))
  }

  /** The `i`-th marker of the layout opens `blk` and the next one closes it. */
  predicate HasBlock(ms: seq<string>, blk: Block, i: nat) {
    i + 1 < |ms| && ms[i] == blk.begin && ms[i + 1] == blk.end
  }

  // ---------------------------------------------------------------- one block

  /** The text before, inside and after one block. */
  datatype Cut = Cut(before: string, inside: string, after: string)

  /** Python's message when `a, b = parts` gets `n` parts. */
  function UnpackMessage(n: nat): (msg: string)
    requires n != 2
  {
    if n < 2 then "not enough values to unpack (expected 2, got " + NatToString(n) + ")"
    else "too many values to unpack (expected 2)"
  }

  /** `before, rem = s.split(begin); old, after = rem.split(end)`: a `ValueError`
      unless `begin` occurs once and `end` once after it. */
  function CutAt(s: string, blk: Block): (r: Result<Cut>)
    requires ProperBlock(blk)
    ensures r.Ok? ==> s == r.value.before + blk.begin + r.value.inside + blk.end + r.value.after
    ensures r.Ok? ==> !Occurs(blk.begin, r.value.before)
    ensures r.Ok? ==> !Occurs(blk.begin, r.value.inside + blk.end + r.value.after)
    ensures r.Ok? ==> !Occurs(blk.end, r.value.inside) && !Occurs(blk.end, r.value.after)
    ensures r.Err? ==> r.error.ValueError?
  {
    var parts := Split(s, blk.begin);
    if |parts| != 2 then Err(ValueError(UnpackMessage(|parts|)))
    else
      var inner := Split(parts[1], blk.end);
      if |inner| != 2 then Err(ValueError(UnpackMessage(|inner|)))
      else
        CutParts(s, blk, parts[0], parts[1], inner[0], inner[1]);
        Ok(Cut(parts[0], inner[0], inner[1]))
  }

  lemma CutParts(s: string, blk: Block, a: string, rem: string, o: string, c: string)
    requires ProperBlock(blk)
    requires Split(s, blk.begin) == [a, rem] && Split(rem, blk.end) == [o, c]
    ensures s == a + blk.begin + o + blk.end + c
    ensures !Occurs(blk.begin, a) && !Occurs(blk.begin, o + blk.end + c)
    ensures !Occurs(blk.end, o) && !Occurs(blk.end, c)
  {
    SplitTwo(s, blk.begin, a, rem);
    SplitTwo(rem, blk.end, o, c);
    Regroup(a, blk.begin, o, blk.end, c);
  }

  /** Cutting is the inverse of gluing marker-free text around the two markers. */
  lemma CutAtGlued(a: string, blk: Block, o: string, c: string)
    requires ProperBlock(blk)
    requires !Occurs(blk.begin, a) && !Occurs(blk.begin, o) && !Occurs(blk.begin, c)
    requires !Occurs(blk.end, o) && !Occurs(blk.end, c)
    ensures CutAt(a + blk.begin + o + blk.end + c, blk) == Ok(Cut(a, o, c))
  {
    NoOccurrenceAroundMarker(blk.begin, o, blk.end, c);
    SplitGlued(a, blk.begin, o + blk.end + c);
    Regroup(a, blk.begin, o, blk.end, c);
    SplitGlued(o, blk.end, c);
    CutAtSplit(a + blk.begin + o + blk.end + c, blk, a, o + blk.end + c, o, c);
  }

  /** `CutAt` when both splits give two parts. */
  lemma CutAtSplit(s: string, blk: Block, a: string, rem: string, o: string, c: string)
    requires ProperBlock(blk)
    requires Split(s, blk.begin) == [a, rem] && Split(rem, blk.end) == [o, c]
    ensures CutAt(s, blk) == Ok(Cut(a, o, c))
  {
  }

  /** What `'\n'.join(lines)` between `BEGIN\n` and `\nEND` puts inside a block. */
  function Body(lines: seq<string>): (b: string)
    ensures |b| >= 2 && b[0] == '\n' && b[|b| - 1] == '\n'
  {
    "\n" + Join(lines, "\n") + "\n"
  }

  /** `old.strip().splitlines()`: the lines of an old block. */
  function ReadOld(inside: string): seq<string> {
    SplitLines(Strip(inside))
  }

  /** A line the editors can write and read back unchanged: not empty, no line
      boundary, no surrounding whitespace, none of the markers `ms`. */
  ghost predicate CleanLine(l: string, ms: seq<string>) {
    && |l| > 0 && NoLineBreak(l) && !IsSpace(l[0]) && !IsSpace(l[|l| - 1])
    && forall j :: 0 <= j < |ms| ==> !Occurs(ms[j], l)
  }

  ghost predicate CleanLines(lines: seq<string>, ms: seq<string>) {
    forall k :: 0 <= k < |lines| ==> CleanLine(lines[k], ms)
  }

  lemma {:induction false} JoinEnds(xs: seq<string>, sep: string)
    requires |xs| > 0 && forall k :: 0 <= k < |xs| ==> |xs[k]| > 0
    ensures |Join(xs, sep)| > 0
    ensures Join(xs, sep)[0] == xs[0][0]
    ensures Join(xs, sep)[|Join(xs, sep)| - 1] == xs[|xs| - 1][|xs[|xs| - 1]| - 1]
    decreases |xs|
  {
    if |xs| > 1 {
      JoinEnds(xs[1..], sep);
    }
  }

  /** A block written from clean lines reads back as exactly those lines. */
  lemma ReadBody(lines: seq<string>, ms: seq<string>)
    requires CleanLines(lines, ms)
    ensures ReadOld(Body(lines)) == lines
  {
    var j := Join(lines, "\n");
    if |lines| > 0 {
      JoinEnds(lines, "\n");
    }
    StripPadded("\n", j, "\n");
    SplitLinesOfJoin(lines);
  }

  /** A block written from clean lines holds none of their markers. */
  lemma BodyFree(lines: seq<string>, ms: seq<string>, j: nat)
    requires CleanLines(lines, ms) && j < |ms| && Delimited(ms[j])
    ensures !Occurs(ms[j], Body(lines))
  {
    var m := ms[j];
    forall k | 0 <= k < |lines| ensures !Occurs(m, lines[k]) {
      assert CleanLine(lines[k], ms);
    }
    assert forall k :: 0 <= k < |m| ==> m[k] != '\n' by {
      forall k | 0 <= k < |m| ensures m[k] != '\n' {
        if 0 < k < |m| - 1 {
          assert MarkerChar(m[k]);
        }
      }
    }
    NoOccurrenceInJoin(m, lines, '\n');
    NoOccurrenceInEmpty(m);
    NoOccurrenceAcross(m, "", '\n', Join(lines, "\n"));
    assert "" + "\n" + Join(lines, "\n") == "\n" + Join(lines, "\n");
    NoOccurrenceAcross(m, "\n" + Join(lines, "\n"), '\n', "");
    assert "\n" + Join(lines, "\n") + "\n" + "" == Body(lines);
  }

  /** The scriptfile with the block of `c` replaced by `lines`. */
  function Glue(c: Cut, blk: Block, lines: seq<string>): string {
    c.before + blk.begin + Body(lines) + blk.end + c.after
  }

  /** Reading a block back: its stripped lines, or the `ValueError` of the cut. */
  function ReadBlock(s: string, blk: Block): (r: Result<seq<string>>)
    requires ProperBlock(blk)
    ensures r.Ok? <==> CutAt(s, blk).Ok?
  {
    var c :- CutAt(s, blk);
    Ok(ReadOld(c.inside))
  }

  /** Splicing a block keeps the text before and after it and makes the block read
      back as the new lines. */
  lemma GlueReads(s: string, blk: Block, lines: seq<string>)
    requires ProperBlock(blk) && CutAt(s, blk).Ok?
    requires CleanLines(lines, [blk.begin, blk.end])
    ensures var c := CutAt(s, blk).value;
      CutAt(Glue(c, blk, lines), blk) == Ok(Cut(c.before, Body(lines), c.after))
    ensures ReadBlock(Glue(CutAt(s, blk).value, blk, lines), blk) == Ok(lines)
  {
    var c := CutAt(s, blk).value;
    NoOccurrenceInSuffix(blk.begin, c.inside + blk.end + c.after, |c.inside + blk.end|);
    assert (c.inside + blk.end + c.after)[|c.inside + blk.end|..] == c.after;
    BodyFree(lines, [blk.begin, blk.end], 0);
    BodyFree(lines, [blk.begin, blk.end], 1);
    CutAtGlued(c.before, blk, Body(lines), c.after);
    ReadBody(lines, [blk.begin, blk.end]);
  }

  /** The layout's pieces around block `blk`. */
  lemma CutLayout(ps: seq<string>, ms: seq<string>, blk: Block, i: nat)
    requires Layout(ps, ms) && ProperBlock(blk) && HasBlock(ms, blk, i)
    ensures CutAt(Interleave(ps, ms), blk) ==
      Ok(Cut(Interleave(ps[..i + 1], ms[..i]), ps[i + 1], Interleave(ps[i + 2..], ms[i + 2..])))
  {
    InterleaveAt(ps, ms, i);
    var tail := ps[i + 1..];
    assert tail[1..] == ps[i + 2..] && ms[i + 1..][1..] == ms[i + 2..];
    var a := Interleave(ps[..i + 1], ms[..i]);
    var c := Interleave(ps[i + 2..], ms[i + 2..]);
    assert Interleave(ps, ms) == a + blk.begin + ps[i + 1] + blk.end + c;
    forall m | m == blk.begin || m == blk.end
      ensures !Occurs(m, a) && !Occurs(m, c) && !Occurs(m, ps[i + 1])
    {
      var jm := if m == blk.begin then i else i + 1;
      assert ms[jm] == m;
      var front, back := ms[..i], ms[i + 2..];
      forall k | 0 <= k < |front| ensures Delimited(front[k]) && front[k] != m {
        assert front[k] == ms[k];
      }
      forall k | 0 <= k < |back| ensures Delimited(back[k]) && back[k] != m {
        assert back[k] == ms[i + 2 + k];
      }
      InterleaveFree(m, ps[..i + 1], ms[..i]);
      InterleaveFree(m, ps[i + 2..], ms[i + 2..]);
    }
    CutAtGlued(a, blk, ps[i + 1], c);
  }

  /** Splicing a block of a layout replaces exactly its piece. */
  lemma GlueLayout(ps: seq<string>, ms: seq<string>, blk: Block, i: nat, lines: seq<string>)
    requires Layout(ps, ms) && ProperBlock(blk) && HasBlock(ms, blk, i)
    requires CleanLines(lines, ms)
    ensures CutAt(Interleave(ps, ms), blk).Ok?
    ensures Glue(CutAt(Interleave(ps, ms), blk).value, blk, lines) ==
      Interleave(ps[i + 1 := Body(lines)], ms)
    ensures Layout(ps[i + 1 := Body(lines)], ms)
  {
    CutLayout(ps, ms, blk, i);
    ReplacedPiece(ps, ms, i, Body(lines));
    forall j | 0 <= j < |ms| ensures !Occurs(ms[j], Body(lines)) {
      BodyFree(lines, ms, j);
    }
    ReplacedLayout(ps, ms, i + 1, Body(lines));
  }

  /** The interleaving with piece `i + 1` replaced, cut around marker `i` and `i + 1`. */
  lemma ReplacedPiece(ps: seq<string>, ms: seq<string>, i: nat, b: string)
    requires |ps| == |ms| + 1 && i + 1 < |ms|
    ensures Interleave(ps[i + 1 := b], ms) ==
      Interleave(ps[..i + 1], ms[..i]) + ms[i] + b + ms[i + 1] + Interleave(ps[i + 2..], ms[i + 2..])
  {
    var ps' := ps[i + 1 := b];
    InterleaveAt(ps', ms, i);
    assert ps'[..i + 1] == ps[..i + 1];
    ReplacedTail(ps, ms, i, b);
    Regroup(Interleave(ps[..i + 1], ms[..i]), ms[i], b, ms[i + 1], Interleave(ps[i + 2..], ms[i + 2..]));
  }

  lemma Regroup(a: string, m: string, b: string, n: string, c: string)
    ensures a + m + (b + n + c) == a + m + b + n + c
  {
  }

  lemma ReplacedTail(ps: seq<string>, ms: seq<string>, i: nat, b: string)
    requires |ps| == |ms| + 1 && i + 1 < |ms|
    ensures Interleave(ps[i + 1 := b][i + 1..], ms[i + 1..]) == b + ms[i + 1] + Interleave(ps[i + 2..], ms[i + 2..])
  {
    var tail, mtail := ps[i + 1 := b][i + 1..], ms[i + 1..];
    assert tail[0] == b && tail[1..] == ps[i + 2..];
    assert mtail[0] == ms[i + 1] && mtail[1..] == ms[i + 2..];
    InterleaveCons(tail, mtail);
  }

  lemma InterleaveCons(ps: seq<string>, ms: seq<string>)
    requires |ps| == |ms| + 1 && |ms| > 0
    ensures Interleave(ps, ms) == ps[0] + ms[0] + Interleave(ps[1..], ms[1..])
  {
  }

  /** A marker-free piece in place of another keeps a layout. */
  lemma ReplacedLayout(ps: seq<string>, ms: seq<string>, k: nat, b: string)
    requires Layout(ps, ms) && k < |ps|
    requires forall j :: 0 <= j < |ms| ==> !Occurs(ms[j], b)
    ensures Layout(ps[k := b], ms)
  {
  }

  // ---------------------------------------------------------------- words on a line

  /** A marker cannot occur in text without a `%`. */
  lemma NoMarkerWithoutPercent(m: string, t: string)
    requires Delimited(m)
    requires forall k :: 0 <= k < |t| ==> t[k] != '%'
    ensures !Occurs(m, t)
  {
    forall j | 0 <= j <= |t| - |m| ensures !OccursAt(m, t, j) {
      assert t[j..j + |m|][0] == t[j];
    }
  }

  /** A word a directive line can carry: not empty, no whitespace, no marker of `ms`. */
  ghost predicate Token(t: string, ms: seq<string>) {
    |t| > 0 && NoSpace(t) && forall j :: 0 <= j < |ms| ==> !Occurs(ms[j], t)
  }

  ghost predicate Tokens(ws: seq<string>, ms: seq<string>) {
    forall k :: 0 <= k < |ws| ==> Token(ws[k], ms)
  }

  lemma {:induction false} NoBreakInJoin(ws: seq<string>)
    requires forall k :: 0 <= k < |ws| ==> NoSpace(ws[k])
    ensures NoLineBreak(Join(ws, " "))
    decreases |ws|
  {
    if |ws| > 1 {
      NoBreakInJoin(ws[1..]);
      var x, y := ws[0], Join(ws[1..], " ");
      assert NoSpace(x);
      forall i | 0 <= i < |x + " " + y| ensures !IsLineBreak((x + " " + y)[i]) {
        if i < |x| {
          assert (x + " " + y)[i] == x[i];
        } else if i > |x| {
          assert (x + " " + y)[i] == y[i - |x| - 1];
        }
      }
    } else if |ws| == 1 {
      assert NoSpace(ws[0]);
    }
  }

  /** Words joined by single spaces make a clean line. */
  lemma WordsLineClean(ws: seq<string>, ms: seq<string>)
    requires |ws| > 0 && Tokens(ws, ms)
    requires forall j :: 0 <= j < |ms| ==> Delimited(ms[j])
    ensures CleanLine(Join(ws, " "), ms)
  {
    assert forall k :: 0 <= k < |ws| ==> |ws[k]| > 0 && NoSpace(ws[k]) by {
      forall k | 0 <= k < |ws| ensures |ws[k]| > 0 && NoSpace(ws[k]) {
        assert Token(ws[k], ms);
      }
    }
    JoinEnds(ws, " ");
    NoBreakInJoin(ws);
    var last := ws[|ws| - 1];
    assert !IsSpace(last[|last| - 1]);
    forall j | 0 <= j < |ms| ensures !Occurs(ms[j], Join(ws, " ")) {
      JoinMarkerFree(ws, ms, j);
    }
  }

  lemma JoinMarkerFree(ws: seq<string>, ms: seq<string>, j: nat)
    requires Tokens(ws, ms) && j < |ms| && Delimited(ms[j])
    ensures !Occurs(ms[j], Join(ws, " "))
  {
    var m := ms[j];
    forall k | 0 <= k < |m| ensures m[k] != ' ' {
      if 0 < k < |m| - 1 {
        assert MarkerChar(m[k]);
      }
    }
    forall k | 0 <= k < |ws| ensures !Occurs(m, ws[k]) {
      assert Token(ws[k], ms);
    }
    NoOccurrenceInJoin(m, ws, ' ');
  }

  lemma JoinCons(x: string, xs: seq<string>, sep: string)
    requires |xs| > 0
    ensures Join([x] + xs, sep) == x + sep + Join(xs, sep)
  {
    assert ([x] + xs)[1..] == xs;
  }

  lemma {:induction false} JoinSnoc(xs: seq<string>, y: string, sep: string)
    requires |xs| > 0
    ensures Join(xs + [y], sep) == Join(xs, sep) + sep + y
    decreases |xs|
  {
    if |xs| > 1 {
      assert (xs + [y])[1..] == xs[1..] + [y];
      JoinSnoc(xs[1..], y, sep);
    } else {
      assert xs + [y] == [xs[0], y];
      assert [xs[0], y][1..] == [y];
    }
  }

  lemma KeywordToken(w: string, ms: seq<string>)
    requires w == "bulk" || w == "setbulk" || w == "yes" || w == "dogmin" || w == "which" || w == "setPwindow" || w == "setTwindow"
    requires forall j :: 0 <= j < |ms| ==> Delimited(ms[j])
    ensures Token(w, ms)
  {
    forall j | 0 <= j < |ms| ensures !Occurs(ms[j], w) {
      NoMarkerWithoutPercent(ms[j], w);
    }
  }

  /** `'{}'.format(x)` for an optional integer keyword argument. */
  function ShowOptional(x: Option<int>): (t: string)
    ensures |t| > 0 && forall k :: 0 <= k < |t| ==> t[k] != '%' && !IsSpace(t[k])
  {
    if x.None? then "None"
    else
      var t := IntToString(x.value);
      assert forall k :: 0 <= k < |t| ==> t[k] == '-' || IsDigit(t[k]) by {
        if x.value < 0 {
          assert forall k :: 1 <= k < |t| ==> t[k] == t[1..][k - 1];
        }
      }
      t
  }

  lemma ShowOptionalToken(x: Option<int>, ms: seq<string>)
    requires forall j :: 0 <= j < |ms| ==> Delimited(ms[j])
    ensures Token(ShowOptional(x), ms)
  {
    forall j | 0 <= j < |ms| ensures !Occurs(ms[j], ShowOptional(x)) {
      NoMarkerWithoutPercent(ms[j], ShowOptional(x));
    }
  }

  // ---------------------------------------------------------------- TC35 bulk block

  /** `'bulk {}'.format(' '.join(tokens))`. */
  function BulkLine(tokens: seq<string>): string {
    "bulk " + Join(tokens, " ")
  }

  /** The bulk block written for a requested bulk: two rows give two `bulk` lines,
      more give three with `xsteps` after the third row; fewer than two raise
      `IndexError`. */
  function BulkLines(bulk: seq<seq<string>>, xsteps: Option<int>): (r: Result<seq<string>>)
    ensures r.Err? <==> |bulk| < 2
    ensures r.Err? ==> r.error.IndexError?
    ensures r.Ok? ==> |r.value| == if |bulk| == 2 then 2 else 3
  {
    if |bulk| < 2 then Err(IndexError("list index out of range"))
    else if |bulk| == 2 then Ok([BulkLine(bulk[0]), BulkLine(bulk[1])])
    else Ok([BulkLine(bulk[0]), BulkLine(bulk[1]), BulkLine(bulk[2]) + " " + ShowOptional(xsteps)])
  }

  /** The bulk block the `xsteps` branch writes from the bulk read at start-up:
      three lines when it has three rows, none otherwise. */
  function StepLines(current: seq<seq<string>>, xsteps: int): (r: seq<string>)
    ensures |r| == if |current| == 3 then 3 else 0
  {
    if |current| == 3 then
      [BulkLine(current[0]), BulkLine(current[1]), BulkLine(current[2]) + " " + IntToString(xsteps)]
    else []
  }

  /** Bulk rows fit for a scriptfile: each a non-empty list of tokens. */
  ghost predicate BulkRows(bulk: seq<seq<string>>, ms: seq<string>) {
    forall i :: 0 <= i < |bulk| ==> |bulk[i]| > 0 && Tokens(bulk[i], ms)
  }

  lemma BulkLineWords(tokens: seq<string>, ms: seq<string>)
    requires |tokens| > 0 && Tokens(tokens, ms)
    requires forall j :: 0 <= j < |ms| ==> Delimited(ms[j])
    ensures BulkLine(tokens) == Join(["bulk"] + tokens, " ")
    ensures Tokens(["bulk"] + tokens, ms)
  {
    BulkLineJoin(tokens);
    KeywordToken("bulk", ms);
    ConsTokens("bulk", tokens, ms);
  }

  lemma BulkLineJoin(tokens: seq<string>)
    requires |tokens| > 0
    ensures BulkLine(tokens) == Join(["bulk"] + tokens, " ")
  {
    JoinCons("bulk", tokens, " ");
    assert "bulk " == "bulk" + " ";
  }

  lemma ConsTokens(w: string, tokens: seq<string>, ms: seq<string>)
    requires Token(w, ms) && Tokens(tokens, ms)
    ensures Tokens([w] + tokens, ms)
  {
    forall k | 0 <= k < |[w] + tokens| ensures Token(([w] + tokens)[k], ms) {
      if k > 0 {
        assert ([w] + tokens)[k] == tokens[k - 1];
      }
    }
  }

  lemma LastBulkLineWords(tokens: seq<string>, last: string, ms: seq<string>)
    requires |tokens| > 0 && Tokens(tokens, ms) && Token(last, ms)
    requires forall j :: 0 <= j < |ms| ==> Delimited(ms[j])
    ensures BulkLine(tokens) + " " + last == Join(["bulk"] + tokens + [last], " ")
    ensures Tokens(["bulk"] + tokens + [last], ms)
  {
    BulkLineWords(tokens, ms);
    JoinSnoc(["bulk"] + tokens, last, " ");
    var ws := ["bulk"] + tokens;
    forall k | 0 <= k < |ws + [last]| ensures Token((ws + [last])[k], ms) {
      if k < |ws| {
        assert (ws + [last])[k] == ws[k];
      }
    }
  }

  /** Well-formed bulk rows give clean bulk lines. */
  lemma BulkLinesClean(bulk: seq<seq<string>>, xsteps: Option<int>, ms: seq<string>)
    requires BulkRows(bulk, ms) && |bulk| >= 2
    requires forall j :: 0 <= j < |ms| ==> Delimited(ms[j])
    ensures CleanLines(BulkLines(bulk, xsteps).value, ms)
  {
    BulkLineWords(bulk[0], ms);
    WordsLineClean(["bulk"] + bulk[0], ms);
    BulkLineWords(bulk[1], ms);
    WordsLineClean(["bulk"] + bulk[1], ms);
    if |bulk| > 2 {
      ShowOptionalToken(xsteps, ms);
      LastBulkLineWords(bulk[2], ShowOptional(xsteps), ms);
      WordsLineClean(["bulk"] + bulk[2] + [ShowOptional(xsteps)], ms);
    }
  }

  lemma StepLinesClean(current: seq<seq<string>>, xsteps: int, ms: seq<string>)
    requires BulkRows(current, ms)
    requires forall j :: 0 <= j < |ms| ==> Delimited(ms[j])
    ensures CleanLines(StepLines(current, xsteps), ms)
  {
    if |current| == 3 {
      assert StepLines(current, xsteps) == BulkLines(current, Some(xsteps)).value;
      BulkLinesClean(current, Some(xsteps), ms);
    }
  }

  /** Each bulk line splits into `bulk`, the row's tokens and, on a third line, the
      step count. */
  lemma BulkLinesWords(bulk: seq<seq<string>>, xsteps: Option<int>, ms: seq<string>)
    requires BulkRows(bulk, ms) && |bulk| >= 2
    requires forall j :: 0 <= j < |ms| ==> Delimited(ms[j])
    ensures var ls := BulkLines(bulk, xsteps).value;
      && Words(ls[0]) == ["bulk"] + bulk[0]
      && Words(ls[1]) == ["bulk"] + bulk[1]
      && (|bulk| > 2 ==> Words(ls[2]) == ["bulk"] + bulk[2] + [ShowOptional(xsteps)])
  {
    forall i | 0 <= i < (if |bulk| == 2 then 2 else 3)
      ensures Tokens(["bulk"] + bulk[i], ms) && BulkLine(bulk[i]) == Join(["bulk"] + bulk[i], " ")
    {
      BulkLineWords(bulk[i], ms);
    }
    WordsOfTokens(["bulk"] + bulk[0], ms);
    WordsOfTokens(["bulk"] + bulk[1], ms);
    if |bulk| > 2 {
      ShowOptionalToken(xsteps, ms);
      LastBulkLineWords(bulk[2], ShowOptional(xsteps), ms);
      WordsOfTokens(["bulk"] + bulk[2] + [ShowOptional(xsteps)], ms);
    }
  }

  lemma WordsOfTokens(ws: seq<string>, ms: seq<string>)
    requires Tokens(ws, ms)
    ensures Words(Join(ws, " ")) == ws
  {
    forall k | 0 <= k < |ws| ensures |ws[k]| > 0 && NoSpace(ws[k]) {
      assert Token(ws[k], ms);
    }
    WordsOfJoin(ws);
  }

  // ---------------------------------------------------------------- TC35 update_scriptfile

  /** The keyword arguments of `TCAPI.update_scriptfile`; `None` where not given. */
  datatype Request = Request(
    calcs: Option<seq<string>>, getOldCalcs: bool,
    guesses: Option<seq<string>>, getOldGuesses: bool,
    bulk: Option<seq<seq<string>>>, xsteps: Option<int>)

  /** What the call returns. */
  datatype Returned =
    | NoneReturned
    | OldCalcs(calcs: seq<string>)
    | OldGuesses(guesses: seq<string>)
    | OldBoth(calcs: seq<string>, guesses: seq<string>)

  /** The scriptfile text after the call and whether the file was written. */
  datatype Outcome = Outcome(text: string, written: bool, returned: Returned)

  /** The old calcs, the old guesses, both as a pair, or `None`, as the flags ask. */
  function Returns(req: Request, oldCalcs: seq<string>, oldGuesses: seq<string>): (r: Returned)
    ensures r.NoneReturned? <==> !req.getOldCalcs && !req.getOldGuesses
    ensures req.getOldCalcs && req.getOldGuesses ==> r == OldBoth(oldCalcs, oldGuesses)
    ensures req.getOldCalcs && !req.getOldGuesses ==> r == OldCalcs(oldCalcs)
    ensures !req.getOldCalcs && req.getOldGuesses ==> r == OldGuesses(oldGuesses)
  {
    if req.getOldCalcs && req.getOldGuesses then OldBoth(oldCalcs, oldGuesses)
    else if req.getOldCalcs then OldCalcs(oldCalcs)
    else if req.getOldGuesses then OldGuesses(oldGuesses)
    else NoneReturned
  }

  /** The file is written when any block was asked to change. */
  predicate Changes(req: Request) {
    req.calcs.Some? || req.guesses.Some? || req.bulk.Some? || req.xsteps.Some?
  }

  /** Cut `s` at `blk`, keep the old block's lines, and splice `lines` in if given. */
  function Step(s: string, blk: Block, lines: Option<seq<string>>): (r: Result<(string, seq<string>)>)
    requires ProperBlock(blk)
    ensures r.Ok? <==> CutAt(s, blk).Ok?
    ensures r.Err? ==> r.error.ValueError?
  {
    var c :- CutAt(s, blk);
    Ok((if lines.Some? then Glue(c, blk, lines.value) else s, ReadOld(c.inside)))
  }

  /** The calcs and guesses part, common to the code as written and as corrected. */
  function CalcsAndGuesses(scf: string, req: Request): (r: Result<(string, seq<string>, seq<string>)>)
    ensures r.Err? ==> r.error.ValueError?
  {
    CalcProper();
    GuessProper();
    var p1 :- Step(scf, Calc, req.calcs);
    var p2 :- Step(p1.0, Guess, req.guesses);
    Ok((p2.0, p1.1, p2.1))
  }

  /** `bulk` given: cut at the bulk block, then build its lines. */
  function PutBulk(s: string, bulk: seq<seq<string>>, xsteps: Option<int>): (r: Result<string>)
    ensures r.Err? ==> r.error.ValueError? || r.error.IndexError?
  {
    BulkProper();
    var c :- CutAt(s, Bulk);
    var lines :- BulkLines(bulk, xsteps);
    Ok(Glue(c, Bulk, lines))
  }

  /** `xsteps` given: rewrite the bulk block from the start-up bulk. */
  function PutSteps(s: string, current: seq<seq<string>>, xsteps: int): (r: Result<string>)
    ensures r.Err? ==> r.error.ValueError?
  {
    BulkProper();
    var c :- CutAt(s, Bulk);
    Ok(Glue(c, Bulk, StepLines(current, xsteps)))
  }

  /** The bulk part as written: the `xsteps` branch runs after the `bulk` branch
      as well. */
  function BulkPartAsWritten(s: string, req: Request, current: seq<seq<string>>): (r: Result<string>)
    ensures r.Err? ==> r.error.ValueError? || (r.error.IndexError? && req.bulk.Some? && |req.bulk.value| < 2)
  {
    var s3 :- if req.bulk.Some? then PutBulk(s, req.bulk.value, req.xsteps) else Ok(s);
    if req.xsteps.Some? then PutSteps(s3, current, req.xsteps.value) else Ok(s3)
  }

  /** The bulk part with the `xsteps` branch taken only when no bulk is given. */
  function BulkPart(s: string, req: Request, current: seq<seq<string>>): (r: Result<string>)
    ensures r.Err? ==> r.error.ValueError? || (r.error.IndexError? && req.bulk.Some? && |req.bulk.value| < 2)
  {
    if req.bulk.Some? then PutBulk(s, req.bulk.value, req.xsteps)
    else if req.xsteps.Some? then PutSteps(s, current, req.xsteps.value)
    else Ok(s)
  }

  /** `TCAPI.update_scriptfile` as written, where a requested bulk given together
      with `xsteps` is overwritten by the start-up bulk `current`. */
  function UpdateScriptfileAsWritten(scf: string, req: Request, current: seq<seq<string>>): (r: Result<Outcome>)
    ensures r.Err? ==> r.error.ValueError? || (r.error.IndexError? && req.bulk.Some? && |req.bulk.value| < 2)
    ensures r.Ok? && !r.value.written ==> r.value.text == scf
  {
    var cg :- CalcsAndGuesses(scf, req);
    var s3 :- BulkPartAsWritten(cg.0, req, current);
    Ok(Outcome(s3, Changes(req), Returns(req, cg.1, cg.2)))
  }

  /** `TCAPI.update_scriptfile`, with the bulk block holding the requested bulk. */
  function UpdateScriptfile(scf: string, req: Request, current: seq<seq<string>>): (r: Result<Outcome>)
    ensures r.Err? ==> r.error.ValueError? || (r.error.IndexError? && req.bulk.Some? && |req.bulk.value| < 2)
    ensures r.Ok? && !r.value.written ==> r.value.text == scf
  {
    var cg :- CalcsAndGuesses(scf, req);
    var s3 :- BulkPart(cg.0, req, current);
    Ok(Outcome(s3, Changes(req), Returns(req, cg.1, cg.2)))
  }

  // ---------------------------------------------------------------- TC35 on a laid-out scriptfile

  /** The pieces with block `i`'s piece replaced when new lines are given. */
  function Edited(ps: seq<string>, i: nat, lines: Option<seq<string>>): (ps': seq<string>)
    requires i + 1 < |ps|
    ensures |ps'| == |ps|
  {
    if lines.Some? then ps[i + 1 := Body(lines.value)] else ps
  }

  /** A scriptfile holding the calc, guess and bulk blocks, opened by markers
      `ic`, `ig` and `ib` of its layout. */
  ghost predicate ThreeBlocks(ps: seq<string>, ms: seq<string>, ic: nat, ig: nat, ib: nat) {
    Layout(ps, ms) && HasBlock(ms, Calc, ic) && HasBlock(ms, Guess, ig) && HasBlock(ms, Bulk, ib)
  }

  lemma ThreeBlocksApart(ps: seq<string>, ms: seq<string>, ic: nat, ig: nat, ib: nat)
    requires ThreeBlocks(ps, ms, ic, ig, ib)
    ensures ic != ig && ic != ib && ig != ib
  {
    assert Calc.begin != Guess.begin && Calc.begin != Bulk.begin && Guess.begin != Bulk.begin;
  }

  /** Requested lines and bulk rows the scriptfile can hold. */
  ghost predicate CleanRequest(req: Request, current: seq<seq<string>>, ms: seq<string>) {
    && (req.calcs.Some? ==> CleanLines(req.calcs.value, ms))
    && (req.guesses.Some? ==> CleanLines(req.guesses.value, ms))
    && (req.bulk.Some? ==> BulkRows(req.bulk.value, ms))
    && BulkRows(current, ms)
  }

  /** The bulk lines the corrected call writes, if any. */
  function NewBulk(req: Request, current: seq<seq<string>>): Option<seq<string>>
    requires req.bulk.Some? ==> |req.bulk.value| >= 2
  {
    if req.bulk.Some? then Some(BulkLines(req.bulk.value, req.xsteps).value)
    else if req.xsteps.Some? then Some(StepLines(current, req.xsteps.value))
    else None
  }

  /** The bulk lines the call as written leaves behind, if any. */
  function NewBulkAsWritten(req: Request, current: seq<seq<string>>): Option<seq<string>>
    requires req.bulk.Some? ==> |req.bulk.value| >= 2
  {
    if req.xsteps.Some? then Some(StepLines(current, req.xsteps.value))
    else if req.bulk.Some? then Some(BulkLines(req.bulk.value, req.xsteps).value)
    else None
  }

  lemma StepLayout(ps: seq<string>, ms: seq<string>, blk: Block, i: nat, lines: Option<seq<string>>)
    requires Layout(ps, ms) && ProperBlock(blk) && HasBlock(ms, blk, i)
    requires lines.Some? ==> CleanLines(lines.value, ms)
    ensures Step(Interleave(ps, ms), blk, lines) == Ok((Interleave(Edited(ps, i, lines), ms), ReadOld(ps[i + 1])))
    ensures Layout(Edited(ps, i, lines), ms)
  {
    CutLayout(ps, ms, blk, i);
    if lines.Some? {
      GlueLayout(ps, ms, blk, i, lines.value);
    }
  }

  lemma CalcsAndGuessesLayout(ps: seq<string>, ms: seq<string>, ic: nat, ig: nat, ib: nat, req: Request, current: seq<seq<string>>)
    requires ThreeBlocks(ps, ms, ic, ig, ib) && CleanRequest(req, current, ms)
    ensures var ps2 := Edited(Edited(ps, ic, req.calcs), ig, req.guesses);
      && CalcsAndGuesses(Interleave(ps, ms), req) == Ok((Interleave(ps2, ms), ReadOld(ps[ic + 1]), ReadOld(ps[ig + 1])))
      && ThreeBlocks(ps2, ms, ic, ig, ib)
  {
    CalcProper();
    GuessProper();
    ThreeBlocksApart(ps, ms, ic, ig, ib);
    StepLayout(ps, ms, Calc, ic, req.calcs);
    var ps1 := Edited(ps, ic, req.calcs);
    assert ps1[ig + 1] == ps[ig + 1];
    StepLayout(ps1, ms, Guess, ig, req.guesses);
  }

  /** Splicing the bulk block of a layout, as `PutBulk` or `PutSteps` do. */
  lemma BulkLayout(ps: seq<string>, ms: seq<string>, ib: nat, req: Request, current: seq<seq<string>>)
    requires Layout(ps, ms) && HasBlock(ms, Bulk, ib) && CleanRequest(req, current, ms)
    ensures req.bulk.Some? ==>
      PutBulk(Interleave(ps, ms), req.bulk.value, req.xsteps) ==
        if |req.bulk.value| < 2 then Err(IndexError("list index out of range"))
        else Ok(Interleave(ps[ib + 1 := Body(BulkLines(req.bulk.value, req.xsteps).value)], ms))
    ensures req.xsteps.Some? ==>
      PutSteps(Interleave(ps, ms), current, req.xsteps.value) ==
        Ok(Interleave(ps[ib + 1 := Body(StepLines(current, req.xsteps.value))], ms))
    ensures req.bulk.Some? && |req.bulk.value| >= 2 ==>
      Layout(ps[ib + 1 := Body(BulkLines(req.bulk.value, req.xsteps).value)], ms)
    ensures req.xsteps.Some? ==> Layout(ps[ib + 1 := Body(StepLines(current, req.xsteps.value))], ms)
  {
    BulkProper();
    assert forall j :: 0 <= j < |ms| ==> Delimited(ms[j]);
    CutLayout(ps, ms, Bulk, ib);
    if req.bulk.Some? && |req.bulk.value| >= 2 {
      BulkLinesClean(req.bulk.value, req.xsteps, ms);
      GlueLayout(ps, ms, Bulk, ib, BulkLines(req.bulk.value, req.xsteps).value);
    }
    if req.xsteps.Some? {
      StepLinesClean(current, req.xsteps.value, ms);
      GlueLayout(ps, ms, Bulk, ib, StepLines(current, req.xsteps.value));
    }
  }

  /** Reading a block of a layout gives its piece's lines. */
  lemma ReadLayout(ps: seq<string>, ms: seq<string>, blk: Block, i: nat)
    requires Layout(ps, ms) && ProperBlock(blk) && HasBlock(ms, blk, i)
    ensures ReadBlock(Interleave(ps, ms), blk) == Ok(ReadOld(ps[i + 1]))
  {
    CutLayout(ps, ms, blk, i);
  }

  /** On a scriptfile holding the three blocks, the corrected call replaces each
      requested block by its new lines and keeps every other piece of text,
      returns the old calcs and guesses as the flags ask, and writes the file
      exactly when a change was asked for. Only a bulk of fewer than two rows
      fails, with `IndexError`. */
  lemma UpdateOnLayout(ps: seq<string>, ms: seq<string>, ic: nat, ig: nat, ib: nat, req: Request, current: seq<seq<string>>)
    requires ThreeBlocks(ps, ms, ic, ig, ib) && CleanRequest(req, current, ms)
    ensures var r := UpdateScriptfile(Interleave(ps, ms), req, current);
      r.Err? <==> req.bulk.Some? && |req.bulk.value| < 2
    ensures (req.bulk.Some? ==> |req.bulk.value| >= 2) ==>
      var ps' := Edited(Edited(Edited(ps, ic, req.calcs), ig, req.guesses), ib, NewBulk(req, current));
      && UpdateScriptfile(Interleave(ps, ms), req, current) ==
           Ok(Outcome(Interleave(ps', ms), Changes(req), Returns(req, ReadOld(ps[ic + 1]), ReadOld(ps[ig + 1]))))
      && ThreeBlocks(ps', ms, ic, ig, ib)
  {
    CalcsAndGuessesLayout(ps, ms, ic, ig, ib, req, current);
    var ps2 := Edited(Edited(ps, ic, req.calcs), ig, req.guesses);
    BulkLayout(ps2, ms, ib, req, current);
  }

  lemma BulkPartAsWrittenLayout(ps: seq<string>, ms: seq<string>, ib: nat, req: Request, current: seq<seq<string>>)
    requires Layout(ps, ms) && HasBlock(ms, Bulk, ib) && CleanRequest(req, current, ms)
    ensures BulkPartAsWritten(Interleave(ps, ms), req, current).Err? <==> req.bulk.Some? && |req.bulk.value| < 2
    ensures (req.bulk.Some? ==> |req.bulk.value| >= 2) ==>
      && BulkPartAsWritten(Interleave(ps, ms), req, current) ==
           Ok(Interleave(Edited(ps, ib, NewBulkAsWritten(req, current)), ms))
      && Layout(Edited(ps, ib, NewBulkAsWritten(req, current)), ms)
  {
    BulkLayout(ps, ms, ib, req, current);
    if req.bulk.Some? && |req.bulk.value| >= 2 && req.xsteps.Some? {
      StepsAfterBulk(ps, ms, ib, req, current);
    }
  }

  /** The `xsteps` branch run on the text the `bulk` branch left. */
  lemma StepsAfterBulk(ps: seq<string>, ms: seq<string>, ib: nat, req: Request, current: seq<seq<string>>)
    requires Layout(ps, ms) && HasBlock(ms, Bulk, ib) && CleanRequest(req, current, ms)
    requires req.bulk.Some? && |req.bulk.value| >= 2 && req.xsteps.Some?
    ensures var ps3 := ps[ib + 1 := Body(BulkLines(req.bulk.value, req.xsteps).value)];
      PutSteps(Interleave(ps3, ms), current, req.xsteps.value) ==
        Ok(Interleave(ps[ib + 1 := Body(StepLines(current, req.xsteps.value))], ms))
  {
    BulkLayout(ps, ms, ib, req, current);
    var ps3 := ps[ib + 1 := Body(BulkLines(req.bulk.value, req.xsteps).value)];
    BulkLayout(ps3, ms, ib, req, current);
    assert ps3[ib + 1 := Body(StepLines(current, req.xsteps.value))] ==
           ps[ib + 1 := Body(StepLines(current, req.xsteps.value))];
  }

  /** The same for the call as written, except that with `xsteps` given the bulk
      block ends up holding the lines built from the start-up bulk `current`. */
  lemma UpdateAsWrittenOnLayout(ps: seq<string>, ms: seq<string>, ic: nat, ig: nat, ib: nat, req: Request, current: seq<seq<string>>)
    requires ThreeBlocks(ps, ms, ic, ig, ib) && CleanRequest(req, current, ms)
    ensures var r := UpdateScriptfileAsWritten(Interleave(ps, ms), req, current);
      r.Err? <==> req.bulk.Some? && |req.bulk.value| < 2
    ensures (req.bulk.Some? ==> |req.bulk.value| >= 2) ==>
      var ps' := Edited(Edited(Edited(ps, ic, req.calcs), ig, req.guesses), ib, NewBulkAsWritten(req, current));
      && UpdateScriptfileAsWritten(Interleave(ps, ms), req, current) ==
           Ok(Outcome(Interleave(ps', ms), Changes(req), Returns(req, ReadOld(ps[ic + 1]), ReadOld(ps[ig + 1]))))
      && ThreeBlocks(ps', ms, ic, ig, ib)
  {
    CalcsAndGuessesLayout(ps, ms, ic, ig, ib, req, current);
    var ps2 := Edited(Edited(ps, ic, req.calcs), ig, req.guesses);
    BulkPartAsWrittenLayout(ps2, ms, ib, req, current);
  }

  /** A block whose piece holds the given lines, or its original piece, reads
      back as those lines, or the original ones. */
  lemma ReadPiece(ps: seq<string>, ms: seq<string>, blk: Block, i: nat, lines: Option<seq<string>>, orig: string)
    requires Layout(ps, ms) && ProperBlock(blk) && HasBlock(ms, blk, i)
    requires ps[i + 1] == if lines.Some? then Body(lines.value) else orig
    requires lines.Some? ==> CleanLines(lines.value, ms)
    ensures ReadBlock(Interleave(ps, ms), blk) == Ok(if lines.Some? then lines.value else ReadOld(orig))
  {
    ReadLayout(ps, ms, blk, i);
    if lines.Some? {
      ReadBody(lines.value, ms);
    }
  }

  lemma NewBulkClean(req: Request, current: seq<seq<string>>, ms: seq<string>)
    requires CleanRequest(req, current, ms) && (req.bulk.Some? ==> |req.bulk.value| >= 2)
    requires forall j :: 0 <= j < |ms| ==> Delimited(ms[j])
    ensures NewBulk(req, current).Some? ==> CleanLines(NewBulk(req, current).value, ms)
  {
    if req.bulk.Some? {
      BulkLinesClean(req.bulk.value, req.xsteps, ms);
    } else if req.xsteps.Some? {
      StepLinesClean(current, req.xsteps.value, ms);
    }
  }

  /** Three edits at different places each leave their own piece. */
  lemma ThreeEdits(ps: seq<string>, ic: nat, ig: nat, ib: nat, c: Option<seq<string>>, g: Option<seq<string>>, b: Option<seq<string>>)
    requires ic + 1 < |ps| && ig + 1 < |ps| && ib + 1 < |ps| && ic != ig && ic != ib && ig != ib
    ensures var ps' := Edited(Edited(Edited(ps, ic, c), ig, g), ib, b);
      && ps'[ic + 1] == (if c.Some? then Body(c.value) else ps[ic + 1])
      && ps'[ig + 1] == (if g.Some? then Body(g.value) else ps[ig + 1])
      && ps'[ib + 1] == (if b.Some? then Body(b.value) else ps[ib + 1])
  {
  }

  /** Each block of the corrected call's result reads back as the lines asked
      for, or as its old lines when it was left alone. */
  lemma UpdateReadsBack(ps: seq<string>, ms: seq<string>, ic: nat, ig: nat, ib: nat, req: Request, current: seq<seq<string>>)
    requires ThreeBlocks(ps, ms, ic, ig, ib) && CleanRequest(req, current, ms)
    requires req.bulk.Some? ==> |req.bulk.value| >= 2
    ensures UpdateScriptfile(Interleave(ps, ms), req, current).Ok?
    ensures var text := UpdateScriptfile(Interleave(ps, ms), req, current).value.text;
      && ReadBlock(text, Calc) == Ok(if req.calcs.Some? then req.calcs.value else ReadOld(ps[ic + 1]))
      && ReadBlock(text, Guess) == Ok(if req.guesses.Some? then req.guesses.value else ReadOld(ps[ig + 1]))
      && ReadBlock(text, Bulk) == Ok(if NewBulk(req, current).Some? then NewBulk(req, current).value else ReadOld(ps[ib + 1]))
  {
    UpdateOnLayout(ps, ms, ic, ig, ib, req, current);
    ThreeBlocksApart(ps, ms, ic, ig, ib);
    CalcProper();
    GuessProper();
    BulkProper();
    var ps' := Edited(Edited(Edited(ps, ic, req.calcs), ig, req.guesses), ib, NewBulk(req, current));
    ThreeEdits(ps, ic, ig, ib, req.calcs, req.guesses, NewBulk(req, current));
    assert forall j :: 0 <= j < |ms| ==> Delimited(ms[j]);
    NewBulkClean(req, current, ms);
    ReadPiece(ps', ms, Calc, ic, req.calcs, ps[ic + 1]);
    ReadPiece(ps', ms, Guess, ig, req.guesses, ps[ig + 1]);
    ReadPiece(ps', ms, Bulk, ib, NewBulk(req, current), ps[ib + 1]);
  }

  /** As written, a bulk passed together with `xsteps` is lost: the bulk block
      reads back as the start-up bulk's lines, which are none at all when the
      start-up bulk has two rows. The corrected call keeps the requested bulk. */
  lemma BulkOverwrittenAsWritten(ps: seq<string>, ms: seq<string>, ic: nat, ig: nat, ib: nat, req: Request, current: seq<seq<string>>)
    requires ThreeBlocks(ps, ms, ic, ig, ib) && CleanRequest(req, current, ms)
    requires req.bulk.Some? && |req.bulk.value| >= 2 && req.xsteps.Some?
    ensures UpdateScriptfileAsWritten(Interleave(ps, ms), req, current).Ok?
    ensures ReadBlock(UpdateScriptfileAsWritten(Interleave(ps, ms), req, current).value.text, Bulk) ==
            Ok(StepLines(current, req.xsteps.value))
    ensures |current| != 3 ==>
            ReadBlock(UpdateScriptfileAsWritten(Interleave(ps, ms), req, current).value.text, Bulk) == Ok([])
    ensures ReadBlock(UpdateScriptfile(Interleave(ps, ms), req, current).value.text, Bulk) ==
            Ok(BulkLines(req.bulk.value, req.xsteps).value)
  {
    UpdateAsWrittenOnLayout(ps, ms, ic, ig, ib, req, current);
    UpdateReadsBack(ps, ms, ic, ig, ib, req, current);
    BulkProper();
    var ps' := Edited(Edited(Edited(ps, ic, req.calcs), ig, req.guesses), ib, NewBulkAsWritten(req, current));
    ReadLayout(ps', ms, Bulk, ib);
    assert forall j :: 0 <= j < |ms| ==> Delimited(ms[j]);
    StepLinesClean(current, req.xsteps.value, ms);
    ReadBody(StepLines(current, req.xsteps.value), ms);
  }
}
