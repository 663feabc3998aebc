/** The line-based scriptfile editors: `TC34API.update_scriptfile` and
    `utils.update_guesses`. The file is its list of lines as `readlines()` gives
    them (each with its own line end), so writing the list back out concatenates
    it. A block is found by its first BEGIN line and its first END line. */
module LineEdit {
  import opened Wrappers
  import opened Text
  import opened Find
  import opened Numerals

  /** The index of the first line passing `p`: `[ix for ix, ln in enumerate(sc) if p(ln)][0]`,
      `None` when that list is empty. */
  function FirstWhere(sc: seq<string>, p: string -> bool): (r: Option<nat>)
    ensures r.None? <==> forall i :: 0 <= i < |sc| ==> !p(sc[i])
    ensures r.Some? ==> r.value < |sc| && p(sc[r.value])
    ensures r.Some? ==> forall i :: 0 <= i < r.value ==> !p(sc[i])
  {
    FirstFrom(sc, p, 0)
  }

  function FirstFrom(sc: seq<string>, p: string -> bool, k: nat): (r: Option<nat>)
    requires k <= |sc| && forall i :: 0 <= i < k ==> !p(sc[i])
    ensures r.None? <==> forall i :: 0 <= i < |sc| ==> !p(sc[i])
    ensures r.Some? ==> r.value < |sc| && p(sc[r.value])
    ensures r.Some? ==> forall i :: 0 <= i < r.value ==> !p(sc[i])
    decreases |sc| - k
  {
    if k == |sc| then None
    else if p(sc[k]) then Some(k)
    else FirstFrom(sc, p, k + 1)
  }

  /** Python's `sc[i:j]` for `0 <= i, j <= |sc|`: empty when `j < i`. */
  function PySlice(sc: seq<string>, i: nat, j: nat): (r: seq<string>)
    requires i <= |sc| && j <= |sc|
    ensures i <= j ==> r == sc[i..j]
    ensures j < i ==> r == []
  {
    if i <= j then sc[i..j] else []
  }

  /** `sc[:b + 1] + lines + sc[e:]`. */
  function Splice(sc: seq<string>, b: nat, e: nat, lines: seq<string>): seq<string>
    requires b < |sc| && e <= |sc|
  {
    sc[..b + 1] + lines + sc[e..]
  }

  /** The lines strictly between the first BEGIN line and the first END line,
      when both exist. */
  function Between(sc: seq<string>, pb: string -> bool, pe: string -> bool): (r: Option<seq<string>>)
    ensures r.Some? <==> FirstWhere(sc, pb).Some? && FirstWhere(sc, pe).Some?
  {
    var b := FirstWhere(sc, pb);
    var e := FirstWhere(sc, pe);
    if b.Some? && e.Some? then Some(PySlice(sc, b.value + 1, e.value)) else None
  }

  /** Replace the block found by `pb`/`pe` with `lines`; `None` (nothing to
      write) when either marker line is missing. */
  function Replace(sc: seq<string>, pb: string -> bool, pe: string -> bool, lines: seq<string>): (r: Option<seq<string>>)
    ensures r.Some? <==> FirstWhere(sc, pb).Some? && FirstWhere(sc, pe).Some?
  {
    var b := FirstWhere(sc, pb);
    var e := FirstWhere(sc, pe);
    if b.Some? && e.Some? then Some(Splice(sc, b.value, e.value, lines)) else None
  }

  /** With the BEGIN line (at `b`) before the END line (at `e`) and no marker line
      among the new lines, the lines up to BEGIN and from END on are kept, the new
      lines sit in between, and the block reads back as exactly the new lines. */
  lemma ReplaceReadsBack(sc: seq<string>, pb: string -> bool, pe: string -> bool, b: nat, e: nat, lines: seq<string>)
    requires FirstWhere(sc, pb) == Some(b) && FirstWhere(sc, pe) == Some(e) && b < e
    requires forall k :: 0 <= k < |lines| ==> !pb(lines[k]) && !pe(lines[k])
    ensures Replace(sc, pb, pe, lines).Some?
    ensures var r := Replace(sc, pb, pe, lines).value;
      && |r| == |sc| - (e - b - 1) + |lines|
      && r[..b + 1] == sc[..b + 1]
      && r[b + 1..b + 1 + |lines|] == lines
      && r[b + 1 + |lines|..] == sc[e..]
    ensures FirstWhere(Replace(sc, pb, pe, lines).value, pb) == Some(b)
    ensures FirstWhere(Replace(sc, pb, pe, lines).value, pe) == Some(b + 1 + |lines|)
    ensures Between(Replace(sc, pb, pe, lines).value, pb, pe) == Some(lines)
  {
    var r := Splice(sc, b, e, lines);
    assert Replace(sc, pb, pe, lines) == Some(r);
    SpliceShape(sc, b, e, lines);
    SpliceMarkers(sc, pb, pe, b, e, lines);
    assert Between(r, pb, pe) == Some(PySlice(r, b + 1, b + 1 + |lines|));
  }

  lemma SpliceMarkers(sc: seq<string>, pb: string -> bool, pe: string -> bool, b: nat, e: nat, lines: seq<string>)
    requires b < e <= |sc|
    requires FirstWhere(sc, pb) == Some(b) && FirstWhere(sc, pe) == Some(e)
    requires forall k :: 0 <= k < |lines| ==> !pb(lines[k]) && !pe(lines[k])
    ensures FirstWhere(Splice(sc, b, e, lines), pb) == Some(b)
    ensures FirstWhere(Splice(sc, b, e, lines), pe) == Some(b + 1 + |lines|)
  {
    SpliceShape(sc, b, e, lines);
    SpliceFirst(sc, pb, b, e, lines, b);
    SpliceFirst(sc, pe, b, e, lines, b + 1 + |lines|);
  }

  /** In a splice, a line index `i` up to the new END position is the first line
      passing `p` when every earlier kept or new line fails it. */
  lemma SpliceFirst(sc: seq<string>, p: string -> bool, b: nat, e: nat, lines: seq<string>, i: nat)
    requires b < e <= |sc|
    requires i == b || i == b + 1 + |lines|
    requires i == b ==> p(sc[b])
    requires i > b ==> FirstWhere(sc, p) == Some(e)
    requires forall j :: 0 <= j < b ==> !p(sc[j])
    requires i > b ==> !p(sc[b]) && forall k :: 0 <= k < |lines| ==> !p(lines[k])
    ensures FirstWhere(Splice(sc, b, e, lines), p) == Some(i)
  {
    var r := Splice(sc, b, e, lines);
    SpliceShape(sc, b, e, lines);
    forall j | 0 <= j < i ensures !p(r[j]) {
      if j <= b {
        assert r[j] == sc[j];
      } else {
        assert r[j] == lines[j - b - 1];
      }
    }
    if i > b {
      assert p(sc[e]);
    }
    FirstAt(r, p, i);
  }

  lemma SpliceShape(sc: seq<string>, b: nat, e: nat, lines: seq<string>)
    requires b < |sc| && e <= |sc|
    ensures var r, n := Splice(sc, b, e, lines), b + 1 + |lines|;
      && |r| == b + 1 + |lines| + |sc| - e
      && r[..b + 1] == sc[..b + 1] && r[b + 1..n] == lines && r[n..] == sc[e..]
      && (forall i :: 0 <= i <= b ==> r[i] == sc[i])
      && (forall i :: b < i < n ==> r[i] == lines[i - b - 1])
      && (e < |sc| ==> r[n] == sc[e])
  {
    var r, n := Splice(sc, b, e, lines), b + 1 + |lines|;
    assert r[..b + 1] == sc[..b + 1];
    assert r[b + 1..n] == lines;
    assert r[n..] == sc[e..];
  }

  lemma FirstAt(sc: seq<string>, p: string -> bool, i: nat)
    requires i < |sc| && p(sc[i]) && forall j :: 0 <= j < i ==> !p(sc[j])
    ensures FirstWhere(sc, p) == Some(i)
  {
    var r := FirstWhere(sc, p);
    assert r.Some?;
  }
  /** The first match of a sequence, found from its first element and the
      first match of the rest. */
  lemma FirstWhereCons(sc: seq<string>, p: string -> bool)
    requires |sc| > 0
    ensures p(sc[0]) ==> FirstWhere(sc, p) == Some(0)
    ensures !p(sc[0]) && FirstWhere(sc[1..], p).None? ==> FirstWhere(sc, p).None?
    ensures !p(sc[0]) && FirstWhere(sc[1..], p).Some? ==> FirstWhere(sc, p) == Some(FirstWhere(sc[1..], p).value + 1)
  {
    var tail := sc[1..];
    if p(sc[0]) {
      FirstAt(sc, p, 0);
    } else {
      match FirstWhere(tail, p)
      case None =>
        assert forall i :: 1 <= i < |sc| ==> sc[i] == tail[i - 1];
      case Some(k) =>
        assert sc[k + 1] == tail[k];
        assert forall j :: 1 <= j < k + 1 ==> sc[j] == tail[j - 1];
        FirstAt(sc, p, k + 1);
    }
  }


  /** Replacing a block by the lines it already holds changes nothing, so doing
      the same replacement twice is doing it once. */
  lemma ReplaceIdempotent(sc: seq<string>, pb: string -> bool, pe: string -> bool, lines: seq<string>)
    requires FirstWhere(sc, pb).Some? && FirstWhere(sc, pe).Some?
    requires FirstWhere(sc, pb).value < FirstWhere(sc, pe).value
    requires forall k :: 0 <= k < |lines| ==> !pb(lines[k]) && !pe(lines[k])
    ensures Replace(Replace(sc, pb, pe, lines).value, pb, pe, lines) == Replace(sc, pb, pe, lines)
  {
    var b, e := FirstWhere(sc, pb).value, FirstWhere(sc, pe).value;
    ReplaceReadsBack(sc, pb, pe, b, e, lines);
    var r := Replace(sc, pb, pe, lines).value;
    var n := b + 1 + |lines|;
    assert Replace(r, pb, pe, lines) == Some(Splice(r, b, n, lines));
    SpliceSelf(r, b, n, lines);
  }

  /** Splicing back the lines already between `b` and `n` changes nothing. */
  lemma SpliceSelf(r: seq<string>, b: nat, n: nat, lines: seq<string>)
    requires b < n <= |r| && r[b + 1..n] == lines
    ensures Splice(r, b, n, lines) == r
  {
    assert r == r[..b + 1] + r[b + 1..n] + r[n..];
  }

  // ---------------------------------------------------------------- TC34API.update_scriptfile

  function StartsWithMarker(m: string): string -> bool {
    ln => StartsWith(ln, m)
  }

  const GuessBegin := StartsWithMarker("%{PSBGUESS-BEGIN}")
  const GuessEnd := StartsWithMarker("%{PSBGUESS-END}")
  const DogminBegin := StartsWithMarker("%{PSBDOGMIN-BEGIN}")
  const DogminEnd := StartsWithMarker("%{PSBDOGMIN-END}")
  const BulkBegin := StartsWithMarker("%{PSBBULK-BEGIN}")
  const BulkEnd := StartsWithMarker("%{PSBBULK-END}")

  /** `[ln.strip() for ln in ls]`. */
  function StripEach(ls: seq<string>): (r: seq<string>)
    ensures |r| == |ls| && forall k :: 0 <= k < |ls| ==> r[k] == Strip(ls[k])
  {
    seq(|ls|, k requires 0 <= k < |ls| => Strip(ls[k]))
  }

  /** `[ln + '\n' for ln in ls]`. */
  function Terminated(ls: seq<string>): (r: seq<string>)
    ensures |r| == |ls| && forall k :: 0 <= k < |ls| ==> r[k] == ls[k] + "\n"
  {
    seq(|ls|, k requires 0 <= k < |ls| => ls[k] + "\n")
  }

  /** Stripping lines written with their line end gives back lines that had no
      surrounding whitespace. */
  lemma StripTerminated(ls: seq<string>)
    requires forall k :: 0 <= k < |ls| ==> |ls[k]| > 0 ==> !IsSpace(ls[k][0]) && !IsSpace(ls[k][|ls[k]| - 1])
    ensures StripEach(Terminated(ls)) == ls
  {
    forall k | 0 <= k < |ls| ensures Strip(ls[k] + "\n") == ls[k] {
      StripPadded("", ls[k], "\n");
      assert "" + ls[k] + "\n" == ls[k] + "\n";
    }
  }

  /** The keyword arguments of `TC34API.update_scriptfile`. `which` lists the
      phase set in its iteration order; `xvals` and `p`/`t` arrive already
      formatted, `None` where not given. */
  datatype Request34 = Request34(
    guesses: Option<seq<string>>, getOldGuesses: bool,
    dogmin: Option<string>, which: Option<seq<string>>,
    bulk: Option<seq<seq<string>>>, xvals: (string, string), xsteps: int,
    p: Option<string>, t: Option<string>)

  /** The file's lines afterwards, whether they were written, and what the call
      returns: the old guesses, `None`, or the `UnboundLocalError` raised after
      the write when the old guesses were asked for but never read. */
  datatype Outcome34 = Outcome34(lines: seq<string>, written: bool, returned: Result<Option<seq<string>>>)

  function ShowOr(x: Option<string>): string {
    if x.None? then "None" else x.value
  }

  /** The dogmin block: `dogmin <arg>`, and with `which` the phases and a
      one-point P and T window. */
  function DogminLines(req: Request34): (r: seq<string>)
    requires req.dogmin.Some?
    ensures |r| == if req.which.Some? then 4 else 1
    ensures r[0] == "dogmin " + req.dogmin.value + "\n"
  {
    var p, t := ShowOr(req.p), ShowOr(req.t);
    ["dogmin " + req.dogmin.value + "\n"] +
    if req.which.Some? then
      ["which " + Join(req.which.value, " ") + "\n",
       "setPwindow " + p + " " + p + "\n",
       "setTwindow " + t + " " + t + "\n"]
    else []
  }

  /** The TC34 bulk block: two `setbulk` lines for two rows (the second with the
      step count), otherwise one from the first row; no row at all raises
      `IndexError`. */
  function SetbulkLines(bulk: seq<seq<string>>, xvals: (string, string), xsteps: int): (r: Result<seq<string>>)
    ensures r.Err? <==> |bulk| == 0
    ensures r.Err? ==> r.error.IndexError?
    ensures r.Ok? ==> |r.value| == if |bulk| == 2 then 2 else 1
  {
    if |bulk| == 2 then
      Ok(["setbulk yes " + Join(bulk[0], " ") + " % x=" + xvals.0 + "\n",
          "setbulk yes " + Join(bulk[1], " ") + " " + IntToString(xsteps) + " % x=" + xvals.1 + "\n"])
    else if |bulk| == 0 then Err(IndexError("list index out of range"))
    else Ok(["setbulk yes " + Join(bulk[0], " ") + "\n"])
  }

  /** Replace one block when asked to and when both its marker lines exist;
      the flag says whether anything was replaced. */
  function Maybe(sc: seq<string>, pb: string -> bool, pe: string -> bool, lines: Option<seq<string>>): (r: (seq<string>, bool))
    ensures !r.1 ==> r.0 == sc
    ensures r.1 <==> lines.Some? && FirstWhere(sc, pb).Some? && FirstWhere(sc, pe).Some?
  {
    if lines.Some? then
      var n := Replace(sc, pb, pe, lines.value);
      if n.Some? then (n.value, true) else (sc, false)
    else (sc, false)
  }

  /** `TC34API.update_scriptfile` on the file's lines. */
  function UpdateScriptfile34(sc: seq<string>, req: Request34): (r: Result<Outcome34>)
    ensures r.Err? <==> req.bulk.Some? && |req.bulk.value| == 0
    ensures r.Err? ==> r.error.IndexError?
    ensures r.Ok? && !r.value.written ==> r.value.lines == sc
    ensures r.Ok? && !req.getOldGuesses ==> r.value.returned == Ok(None)
    ensures r.Ok? && req.getOldGuesses ==>
      r.value.returned == if Between(sc, GuessBegin, GuessEnd).Some?
                          then Ok(Some(StripEach(Between(sc, GuessBegin, GuessEnd).value)))
                          else Err(UnboundLocalError("local variable 'old_guesses' referenced before assignment"))
  {
    var read := Between(sc, GuessBegin, GuessEnd);
    var g := Maybe(sc, GuessBegin, GuessEnd, if req.guesses.Some? then Some(Terminated(req.guesses.value)) else None);
    var d := Maybe(g.0, DogminBegin, DogminEnd, if req.dogmin.Some? then Some(DogminLines(req)) else None);
    var bl :- if req.bulk.Some? then
                var ls :- SetbulkLines(req.bulk.value, req.xvals, req.xsteps); Ok(Some(ls))
              else Ok(None);
    var u := Maybe(d.0, BulkBegin, BulkEnd, bl);
    var returned :=
      if !req.getOldGuesses then Ok(None)
      else if read.Some? then Ok(Some(StripEach(read.value)))
      else Err(UnboundLocalError("local variable 'old_guesses' referenced before assignment"));
    Ok(Outcome34(u.0, g.1 || d.1 || u.1, returned))
  }

  /** A line that none of the given marker tests picks up. */
  predicate Unmarked(l: string, ms: seq<string>) {
    forall j :: 0 <= j < |ms| ==> !StartsWith(l, ms[j])
  }

  function GuessesOnly(guesses: seq<string>): Request34 {
    Request34(Some(guesses), false, None, None, None, ("0", "1"), 20, None, None)
  }

  function ReadGuesses(): Request34 {
    Request34(None, true, None, None, None, ("0", "1"), 20, None, None)
  }

  /** Setting only the guesses replaces the lines between the first BEGIN and
      first END lines and writes the file; with either marker line missing the
      file is neither changed nor written. */
  lemma UpdateGuesses34(sc: seq<string>, guesses: seq<string>)
    ensures UpdateScriptfile34(sc, GuessesOnly(guesses)).Ok?
    ensures var o := UpdateScriptfile34(sc, GuessesOnly(guesses)).value;
      if FirstWhere(sc, GuessBegin).Some? && FirstWhere(sc, GuessEnd).Some?
      then o.written && o.lines == Replace(sc, GuessBegin, GuessEnd, Terminated(guesses)).value
      else !o.written && o.lines == sc
  {
  }

  /** Guesses written by one call are what the next call asking for the old
      guesses returns, provided the BEGIN line comes first and the guesses are
      free of surrounding whitespace and of marker lines. */
  lemma GuessesRoundTrip34(sc: seq<string>, guesses: seq<string>, b: nat, e: nat)
    requires FirstWhere(sc, GuessBegin) == Some(b) && FirstWhere(sc, GuessEnd) == Some(e) && b < e
    requires forall k :: 0 <= k < |guesses| ==>
      Unmarked(guesses[k] + "\n", ["%{PSBGUESS-BEGIN}", "%{PSBGUESS-END}"])
    requires forall k :: 0 <= k < |guesses| ==>
      |guesses[k]| > 0 ==> !IsSpace(guesses[k][0]) && !IsSpace(guesses[k][|guesses[k]| - 1])
    ensures var written := UpdateScriptfile34(sc, GuessesOnly(guesses)).value.lines;
      UpdateScriptfile34(written, ReadGuesses()).value.returned == Ok(Some(guesses))
  {
    var t := Terminated(guesses);
    forall k | 0 <= k < |t| ensures !GuessBegin(t[k]) && !GuessEnd(t[k]) {
      var ms := ["%{PSBGUESS-BEGIN}", "%{PSBGUESS-END}"];
      assert Unmarked(t[k], ms);
      assert !StartsWith(t[k], ms[0]) && !StartsWith(t[k], ms[1]);
      assert GuessBegin(t[k]) == StartsWith(t[k], ms[0]);
      assert GuessEnd(t[k]) == StartsWith(t[k], ms[1]);
    }
    ReplaceReadsBack(sc, GuessBegin, GuessEnd, b, e, t);
    StripTerminated(guesses);
  }

  // ---------------------------------------------------------------- utils.update_guesses

  function Containing(m: string): string -> bool {
    ln => Occurs(m, ln)
  }

  /** `utils.update_guesses`: the lines written, or `None` when a marker line is
      missing and the file is left alone. Marker lines are found by substring. */
  function UpdateGuesses(sc: seq<string>, guesses: seq<string>): (r: Option<seq<string>>)
    ensures r.None? <==>
      (forall i :: 0 <= i < |sc| ==> !Occurs("{PSBGUESS-BEGIN}", sc[i])) ||
      (forall i :: 0 <= i < |sc| ==> !Occurs("{PSBGUESS-END}", sc[i]))
  {
    Replace(sc, Containing("{PSBGUESS-BEGIN}"), Containing("{PSBGUESS-END}"), Terminated(guesses))
  }

  lemma FirstWhereSame(sc: seq<string>, p: string -> bool, q: string -> bool)
    requires forall i :: 0 <= i < |sc| ==> p(sc[i]) == q(sc[i])
    ensures FirstWhere(sc, p) == FirstWhere(sc, q)
  {
  }

  /** On a file whose marker lines are exactly the lines starting with the
      markers, `utils.update_guesses` writes what the TC34 editor writes. */
  lemma UpdateGuessesAgrees(sc: seq<string>, guesses: seq<string>)
    requires forall i :: 0 <= i < |sc| ==>
      (Occurs("{PSBGUESS-BEGIN}", sc[i]) <==> StartsWith(sc[i], "%{PSBGUESS-BEGIN}"))
    requires forall i :: 0 <= i < |sc| ==>
      (Occurs("{PSBGUESS-END}", sc[i]) <==> StartsWith(sc[i], "%{PSBGUESS-END}"))
    ensures UpdateGuesses(sc, guesses) == Replace(sc, GuessBegin, GuessEnd, Terminated(guesses))
  {
    FirstWhereSame(sc, Containing("{PSBGUESS-BEGIN}"), GuessBegin);
    FirstWhereSame(sc, Containing("{PSBGUESS-END}"), GuessEnd);
  }

  /** `update_guesses` keeps the lines up to the first BEGIN line and from the
      first END line on, and puts the guesses, each ended by a newline, between. */
  lemma UpdateGuessesShape(sc: seq<string>, guesses: seq<string>, b: nat, e: nat)
    requires FirstWhere(sc, Containing("{PSBGUESS-BEGIN}")) == Some(b)
    requires FirstWhere(sc, Containing("{PSBGUESS-END}")) == Some(e)
    requires b < e
    requires forall k :: 0 <= k < |guesses| ==>
      !Occurs("{PSBGUESS-BEGIN}", guesses[k] + "\n") && !Occurs("{PSBGUESS-END}", guesses[k] + "\n")
    ensures UpdateGuesses(sc, guesses).Some?
    ensures var r := UpdateGuesses(sc, guesses).value;
      && r[..b + 1] == sc[..b + 1]
      && r[b + 1..b + 1 + |guesses|] == Terminated(guesses)
      && r[b + 1 + |guesses|..] == sc[e..]
      && Between(r, Containing("{PSBGUESS-BEGIN}"), Containing("{PSBGUESS-END}")) == Some(Terminated(guesses))
  {
    ReplaceReadsBack(sc, Containing("{PSBGUESS-BEGIN}"), Containing("{PSBGUESS-END}"), b, e, Terminated(guesses));
  }
}
