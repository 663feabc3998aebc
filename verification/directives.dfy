/** What THERMOCALC 3.5 start-up reads from a scriptfile (the lines before `*`,
    the pypsbuilder block tags, the directive dictionary, the `bulk` and
    `inexcess` directives), and what the builder reads back from THERMOCALC's
    output: the variance of an assemblage and the status of a calculation. */
module Directives {
  import opened Wrappers
  import opened Text
  import opened Find
  import opened Numerals
  import opened LineEdit
  import StrOrder
  import Scriptfile

  // ---------------------------------------------------------------- the lines THERMOCALC reads

  /** `[ln.strip() for ln in ls if ln.strip() != '']`. */
  function Compact(ls: seq<string>): (r: seq<string>)
    ensures |r| <= |ls|
    decreases |ls|
  {
    if |ls| == 0 then []
    else
      var s := Strip(ls[0]);
      if s == "" then Compact(ls[1..]) else [s] + Compact(ls[1..])
  }

  /** Some line strips to `t`. */
  predicate StripsTo(ls: seq<string>, t: string) {
    exists i :: 0 <= i < |ls| && Strip(ls[i]) == t
  }

  /** A non-blank text is among the kept lines exactly when some line strips to it. */
  lemma CompactHas(ls: seq<string>, t: string)
    requires t != ""
    ensures t in Compact(ls) <==> StripsTo(ls, t)
  {
    if exists i :: 0 <= i < |ls| && Strip(ls[i]) == t {
      var i :| 0 <= i < |ls| && Strip(ls[i]) == t;
      CompactKeeps(ls, i);
    }
    if t in Compact(ls) {
      CompactFrom(ls, t);
    }
  }

  lemma {:induction false} CompactKeeps(ls: seq<string>, i: nat)
    requires i < |ls| && Strip(ls[i]) != ""
    ensures Strip(ls[i]) in Compact(ls)
    decreases i
  {
    if i > 0 {
      CompactKeeps(ls[1..], i - 1);
      assert ls[1..][i - 1] == ls[i];
    }
  }

  lemma {:induction false} CompactFrom(ls: seq<string>, t: string)
    requires t in Compact(ls)
    ensures exists i :: 0 <= i < |ls| && Strip(ls[i]) == t
    decreases |ls|
  {
    if Strip(ls[0]) != t {
      CompactFrom(ls[1..], t);
      var i :| 0 <= i < |ls[1..]| && Strip(ls[1..][i]) == t;
      assert ls[i + 1] == ls[1..][i];
    }
  }

  /** The kept lines are non-empty and already stripped. */
  lemma CompactStripped(ls: seq<string>)
    ensures forall k :: 0 <= k < |Compact(ls)| ==> |Compact(ls)[k]| > 0 && Strip(Compact(ls)[k]) == Compact(ls)[k]
  {
    forall k | 0 <= k < |Compact(ls)| ensures |Compact(ls)[k]| > 0 && Strip(Compact(ls)[k]) == Compact(ls)[k] {
      CompactFrom(ls, Compact(ls)[k]);
      var i :| 0 <= i < |ls| && Strip(ls[i]) == Compact(ls)[k];
      CompactNonBlank(ls, k);
      StripClean(Strip(ls[i]));
    }
  }

  lemma {:induction false} CompactNonBlank(ls: seq<string>, k: nat)
    requires k < |Compact(ls)|
    ensures Compact(ls)[k] != ""
    decreases |ls|
  {
    if Strip(ls[0]) == "" || k > 0 {
      CompactNonBlank(ls[1..], if Strip(ls[0]) == "" then k else k - 1);
    }
  }

  /** `lines[:lines.index('*')]`: the lines before the first `*` line, or the
      `ValueError` of `index` when there is none. */
  function BeforeStar(lines: seq<string>): (r: Result<seq<string>>)
    ensures r.Ok? <==> "*" in lines
    ensures r.Err? ==> r.error.ValueError?
    ensures r.Ok? ==> |r.value| < |lines| && r.value == lines[..|r.value|] && lines[|r.value|] == "*"
    ensures r.Ok? ==> "*" !in r.value
  {
    match FirstWhere(lines, ln => ln == "*")
    case None =>
      assert forall i :: 0 <= i < |lines| ==> lines[i] != "*";
      Err(ValueError("'*' is not in list"))
    case Some(i) =>
      assert forall j :: 0 <= j < i ==> lines[..i][j] == lines[j] != "*";
      Ok(lines[..i])
  }

  /** The stripped, non-empty lines of the scriptfile text up to the `*` line;
      `ValueError` when no line is `*` once stripped. */
  function ScriptLines(text: string): (r: Result<seq<string>>)
    ensures r.Ok? <==> StripsTo(SplitLines(text), "*")
    ensures r.Err? ==> r.error.ValueError?
    ensures r.Ok? ==> "*" !in r.value
    ensures r.Ok? ==> forall k :: 0 <= k < |r.value| ==> |r.value[k]| > 0 && Strip(r.value[k]) == r.value[k]
  {
    var ls := SplitLines(text);
    var lines := Compact(ls);
    CompactHas(ls, "*");
    StarPrefixStripped(ls);
    BeforeStar(lines)
  }

  /** The kept lines before `*` are non-empty and stripped. */
  lemma StarPrefixStripped(ls: seq<string>)
    ensures var r := BeforeStar(Compact(ls));
      r.Ok? ==> forall k :: 0 <= k < |r.value| ==> |r.value[k]| > 0 && Strip(r.value[k]) == r.value[k]
  {
    var lines := Compact(ls);
    var r := BeforeStar(lines);
    CompactStripped(ls);
    if r.Ok? {
      forall k | 0 <= k < |r.value| ensures |r.value[k]| > 0 && Strip(r.value[k]) == r.value[k] {
        assert r.value[k] == lines[k];
      }
    }
  }

  // ---------------------------------------------------------------- block tags

  /** Both tags of a block stand on lines of their own. */
  predicate Tagged(lines: seq<string>, blk: Scriptfile.Block) {
    blk.begin in lines && blk.end in lines
  }

  /** The three pypsbuilder blocks must be tagged, checked in the order guesses,
      calculations, bulk; the first one missing raises its `ScriptfileError`. */
  function CheckTags(lines: seq<string>): (r: Result<()>)
    ensures r.Ok? <==> Tagged(lines, Scriptfile.Guess) && Tagged(lines, Scriptfile.Calc) && Tagged(lines, Scriptfile.Bulk)
    ensures !Tagged(lines, Scriptfile.Guess) ==>
              r == Err(ScriptfileError("There are not {PSBGUESS-BEGIN} and {PSBGUESS-END} tags in your scriptfile."))
    ensures Tagged(lines, Scriptfile.Guess) && !Tagged(lines, Scriptfile.Calc) ==>
              r == Err(ScriptfileError("There are not {PSBCALC-BEGIN} and {PSBCALC-END} tags in your scriptfile."))
    ensures Tagged(lines, Scriptfile.Guess) && Tagged(lines, Scriptfile.Calc) && !Tagged(lines, Scriptfile.Bulk) ==>
              r == Err(ScriptfileError("There are not {PSBBULK-BEGIN} and {PSBBULK-END} tags in your scriptfile."))
  {
    if !Tagged(lines, Scriptfile.Guess) then
      Err(ScriptfileError("There are not {PSBGUESS-BEGIN} and {PSBGUESS-END} tags in your scriptfile."))
    else if !Tagged(lines, Scriptfile.Calc) then
      Err(ScriptfileError("There are not {PSBCALC-BEGIN} and {PSBCALC-END} tags in your scriptfile."))
    else if !Tagged(lines, Scriptfile.Bulk) then
      Err(ScriptfileError("There are not {PSBBULK-BEGIN} and {PSBBULK-END} tags in your scriptfile."))
    else Ok(())
  }

  // ---------------------------------------------------------------- directives

  /** `s.split(c)[0]`: the text of `s` before its first `c`. */
  function Before(s: string, c: char): (r: string)
    ensures |r| <= |s| && r == s[..|r|] && c !in r
    ensures |r| < |s| ==> s[|r|] == c
  {
    if |s| == 0 || s[0] == c then "" else [s[0]] + Before(s[1..], c)
  }

  /** One scriptfile directive: its keyword and, when more follows, its argument. */
  datatype Directive = Directive(key: string, arg: Option<string>)

  /** A stripped string holds what the string holds. */
  lemma StripWithin(s: string, c: char)
    requires c !in s
    ensures c !in Strip(s)
  {
    var l := LStrip(s);
    assert forall k :: 0 <= k < |l| ==> l[k] == s[|s| - |l| + k];
    var r := RStrip(l);
    assert forall k :: 0 <= k < |r| ==> r[k] == l[k];
  }

  lemma AfterWord(clean: string, n: nat)
    requires '%' !in clean && n <= |clean|
    ensures '%' !in LStrip(clean[n..])
  {
    var rest := LStrip(clean[n..]);
    assert forall k :: 0 <= k < |rest| ==> rest[k] == clean[|clean| - |rest| + k];
  }

  /** A non-empty remainder starting with a non-space strips to a non-empty text. */
  lemma RestClean(rest: string)
    requires '%' !in rest && (|rest| > 0 ==> !IsSpace(rest[0]))
    ensures rest != "" ==> var a := Strip(rest); |a| > 0 && '%' !in a
  {
    if rest != "" {
      StripWithin(rest, '%');
      assert LStrip(rest) == rest;
    }
  }

  /** A line as start-up reads it: the text before the first `%`, stripped, is
      nothing (`None`), or a directive. */
  function Parse(ln: string): (r: Option<Directive>)
    ensures r.None? <==> Strip(Before(ln, '%')) == ""
  {
    ReadDirective(Strip(Before(ln, '%')))
  }

  /** `clean.split(maxsplit=1)` as a directive: the first word, followed, after
      whitespace, by the stripped remainder when there is one. */
  function ReadDirective(clean: string): (r: Option<Directive>)
    ensures r.None? <==> clean == ""
  {
    if clean == "" then None
    else
      var key := TakeWord(clean);
      var rest := LStrip(clean[|key|..]);
      Some(Directive(key, if rest == "" then None else Some(Strip(rest))))
  }

  /** A directive's keyword is one `%`-free word; its argument, when present, is
      non-empty and `%`-free. */
  lemma ParseShape(ln: string)
    ensures Parse(ln).Some? ==> var k := Parse(ln).value.key; |k| > 0 && NoSpace(k) && '%' !in k
    ensures Parse(ln).Some? && Parse(ln).value.arg.Some? ==>
              var a := Parse(ln).value.arg.value; |a| > 0 && '%' !in a
  {
    StripWithin(Before(ln, '%'), '%');
    CleanShape(Strip(Before(ln, '%')));
  }

  lemma CleanShape(clean: string)
    requires '%' !in clean && (|clean| > 0 ==> !IsSpace(clean[0]))
    ensures ReadDirective(clean).Some? ==> var k := ReadDirective(clean).value.key; |k| > 0 && NoSpace(k) && '%' !in k
    ensures ReadDirective(clean).Some? && ReadDirective(clean).value.arg.Some? ==>
              var a := ReadDirective(clean).value.arg.value; |a| > 0 && '%' !in a
  {
    if clean != "" {
      var key := TakeWord(clean);
      assert forall k :: 0 <= k < |key| ==> key[k] == clean[k];
      AfterWord(clean, |key|);
      RestClean(LStrip(clean[|key|..]));
    }
  }

  /** Every line parsed. */
  function ParseAll(lines: seq<string>): (ds: seq<Option<Directive>>)
    ensures |ds| == |lines|
    decreases |lines|
  {
    if |lines| == 0 then [] else [Parse(lines[0])] + ParseAll(lines[1..])
  }

  lemma {:induction false} ParseAllAppend(xs: seq<string>, ys: seq<string>)
    ensures ParseAll(xs + ys) == ParseAll(xs) + ParseAll(ys)
    decreases |xs|
  {
    if |xs| == 0 {
      assert xs + ys == ys;
    } else {
      assert (xs + ys)[1..] == xs[1..] + ys;
      ParseAllAppend(xs[1..], ys);
    }
  }

  /** The directive dictionary `scripts` of `TC35API.__init__`. */
  function Scripts(lines: seq<string>): map<string, seq<string>> {
    Dictionary(ParseAll(lines))
  }

  /** The dictionary built from parsed lines: a directive with an argument
      appends it to its keyword's list, a bare keyword sets its list to empty. */
  function Dictionary(ds: seq<Option<Directive>>): map<string, seq<string>>
    decreases |ds|
  {
    if |ds| == 0 then map[]
    else
      var d := Dictionary(ds[..|ds| - 1]);
      match ds[|ds| - 1]
      case None => d
      case Some(Directive(k, None)) => d[k := []]
      case Some(Directive(k, Some(a))) => d[k := (if k in d then d[k] else []) + [a]]
  }

  // Reference reading of the dictionary, one keyword at a time.

  predicate Names(d: Option<Directive>, key: string) {
    d.Some? && d.value.key == key
  }

  predicate Mentions(ds: seq<Option<Directive>>, key: string) {
    exists i :: 0 <= i < |ds| && Names(ds[i], key)
  }

  /** A bare `key` directive, which empties the keyword's list. */
  predicate Resets(d: Option<Directive>, key: string) {
    d == Some(Directive(key, None))
  }

  /** The argument a directive gives `key`, as a list of zero or one. */
  function ArgOf(d: Option<Directive>, key: string): (r: seq<string>)
    ensures |r| <= 1
    ensures |r| == 1 ==> Names(d, key)
  {
    match d
    case Some(Directive(k, Some(a))) => if k == key then [a] else []
    case _ => []
  }

  /** The arguments given to `key`, in line order. */
  function ArgsOf(ds: seq<Option<Directive>>, key: string): seq<string>
    decreases |ds|
  {
    if |ds| == 0 then [] else ArgOf(ds[0], key) + ArgsOf(ds[1..], key)
  }

  /** One past the last bare `key` directive; `0` when there is none. */
  function LastReset(ds: seq<Option<Directive>>, key: string): (r: nat)
    ensures r <= |ds|
    ensures r > 0 ==> Resets(ds[r - 1], key)
    ensures forall j :: r <= j < |ds| ==> !Resets(ds[j], key)
    decreases |ds|
  {
    if |ds| == 0 then 0
    else if Resets(ds[|ds| - 1], key) then |ds|
    else
      var r := LastReset(ds[..|ds| - 1], key);
      assert forall j :: r <= j < |ds| - 1 ==> ds[..|ds| - 1][j] == ds[j];
      r
  }

  lemma {:induction false} ArgsOfAppend(xs: seq<Option<Directive>>, ys: seq<Option<Directive>>, key: string)
    ensures ArgsOf(xs + ys, key) == ArgsOf(xs, key) + ArgsOf(ys, key)
    decreases |xs|
  {
    if |xs| == 0 {
      assert xs + ys == ys;
    } else {
      assert (xs + ys)[1..] == xs[1..] + ys;
      ArgsOfAppend(xs[1..], ys, key);
    }
  }

  lemma {:induction false} ArgsOfUnmentioned(ds: seq<Option<Directive>>, key: string)
    requires !Mentions(ds, key)
    ensures ArgsOf(ds, key) == []
    decreases |ds|
  {
    if |ds| > 0 {
      assert !Mentions(ds[1..], key) by {
        forall i | 0 <= i < |ds[1..]| ensures !Names(ds[1..][i], key) {
          assert ds[1..][i] == ds[i + 1];
        }
      }
      ArgsOfUnmentioned(ds[1..], key);
      assert !Names(ds[0], key);
    }
  }

  /** A keyword is in the dictionary exactly when some directive names it, and
      its list holds, in order, the arguments of the directives naming it after
      the last bare one. */
  lemma DictionaryByKey(ds: seq<Option<Directive>>, key: string)
    ensures key in Dictionary(ds) <==> Mentions(ds, key)
    ensures key in Dictionary(ds) ==> Dictionary(ds)[key] == ArgsOf(ds[LastReset(ds, key)..], key)
  {
    DictionaryHas(ds, key);
    if key in Dictionary(ds) {
      DictionaryValue(ds, key);
    }
  }

  lemma MentionsSnoc(init: seq<Option<Directive>>, last: Option<Directive>, key: string)
    ensures Mentions(init + [last], key) <==> Mentions(init, key) || Names(last, key)
  {
    var ds := init + [last];
    if Mentions(ds, key) && !Names(last, key) {
      var i :| 0 <= i < |ds| && Names(ds[i], key);
      assert ds[i] == init[i];
    }
    if Mentions(init, key) {
      var i :| 0 <= i < |init| && Names(init[i], key);
      assert ds[i] == init[i];
    }
    assert ds[|init|] == last;
  }

  lemma {:induction false} DictionaryHas(ds: seq<Option<Directive>>, key: string)
    ensures key in Dictionary(ds) <==> Mentions(ds, key)
    decreases |ds|
  {
    if |ds| > 0 {
      var init := ds[..|ds| - 1];
      assert ds == init + [ds[|ds| - 1]];
      DictionaryHas(init, key);
      MentionsSnoc(init, ds[|ds| - 1], key);
    }
  }

  /** A bare `key` directive names `key`. */
  lemma ResetMentions(ds: seq<Option<Directive>>, key: string)
    ensures LastReset(ds, key) > 0 ==> Mentions(ds, key)
  {
    var r := LastReset(ds, key);
    if r > 0 {
      assert Names(ds[r - 1], key);
    }
  }

  lemma {:induction false} DictionaryValue(ds: seq<Option<Directive>>, key: string)
    requires key in Dictionary(ds)
    ensures Dictionary(ds)[key] == ArgsOf(ds[LastReset(ds, key)..], key)
    decreases |ds|
  {
    var init := ds[..|ds| - 1];
    var last := ds[|ds| - 1];
    assert ds == init + [last];
    DictionarySnoc(init, last, key);
    var r := LastReset(ds, key);
    if Resets(last, key) {
      assert ds[r..] == [];
    } else {
      ArgsAfterReset(init, last, key);
      if key in Dictionary(init) {
        DictionaryValue(init, key);
      } else {
        DictionaryHas(init, key);
        ResetMentions(init, key);
        ArgsOfUnmentioned(init, key);
        assert init[0..] == init;
      }
    }
  }

  /** One more directive, seen from one keyword. */
  lemma DictionarySnoc(init: seq<Option<Directive>>, last: Option<Directive>, key: string)
    ensures Resets(last, key) ==> key in Dictionary(init + [last]) && Dictionary(init + [last])[key] == []
    ensures !Resets(last, key) ==> (key in Dictionary(init + [last]) <==> key in Dictionary(init) || Names(last, key))
    ensures !Resets(last, key) && key in Dictionary(init + [last]) ==>
              Dictionary(init + [last])[key] == (if key in Dictionary(init) then Dictionary(init)[key] else []) + ArgOf(last, key)
  {
    assert (init + [last])[..|init|] == init;
  }

  /** Without a new reset, the arguments after the last reset gain those of the new directive. */
  lemma ArgsAfterReset(init: seq<Option<Directive>>, last: Option<Directive>, key: string)
    requires !Resets(last, key)
    ensures LastReset(init + [last], key) == LastReset(init, key)
    ensures ArgsOf((init + [last])[LastReset(init, key)..], key) == ArgsOf(init[LastReset(init, key)..], key) + ArgOf(last, key)
  {
    var ds := init + [last];
    assert ds[..|ds| - 1] == init;
    var r := LastReset(init, key);
    assert ds[r..] == init[r..] + [last];
    ArgsOfAppend(init[r..], [last], key);
    assert ArgsOf([last], key) == ArgOf(last, key);
  }

  /** Directives that never name `key` leave its arguments alone. */
  lemma ArgsAround(pre: seq<Option<Directive>>, mid: seq<Option<Directive>>, post: seq<Option<Directive>>, key: string)
    requires !Mentions(pre, key) && !Mentions(post, key)
    ensures ArgsOf(pre + mid + post, key) == ArgsOf(mid, key)
  {
    ArgsOfAppend(pre + mid, post, key);
    ArgsOfAppend(pre, mid, key);
    ArgsOfUnmentioned(pre, key);
    ArgsOfUnmentioned(post, key);
  }

  /** A keyword named only in `mid`, never bare there, has in the dictionary of
      `pre + mid + post` the arguments `mid` gives it. */
  lemma DictionaryOfOnly(pre: seq<Option<Directive>>, mid: seq<Option<Directive>>, post: seq<Option<Directive>>, key: string)
    requires !Mentions(pre, key) && !Mentions(post, key) && Mentions(mid, key)
    requires forall j :: 0 <= j < |mid| ==> !Resets(mid[j], key)
    ensures key in Dictionary(pre + mid + post)
    ensures Dictionary(pre + mid + post)[key] == ArgsOf(mid, key)
  {
    var ds := pre + mid + post;
    var i :| 0 <= i < |mid| && Names(mid[i], key);
    assert ds[|pre| + i] == mid[i];
    assert forall j :: 0 <= j < |ds| ==> !Resets(ds[j], key) by {
      forall j | 0 <= j < |ds| ensures !Resets(ds[j], key) {
        if j < |pre| {
          assert ds[j] == pre[j];
          assert !Names(pre[j], key);
        } else if j < |pre| + |mid| {
          assert ds[j] == mid[j - |pre|];
        } else {
          assert ds[j] == post[j - |pre| - |mid|];
          assert !Names(post[j - |pre| - |mid|], key);
        }
      }
    }
    DictionaryByKey(ds, key);
    assert LastReset(ds, key) == 0;
    assert ds[0..] == ds;
    ArgsAround(pre, mid, post, key);
  }

  // ---------------------------------------------------------------- writing directives

  predicate CleanWord(w: string) {
    |w| > 0 && NoSpace(w) && '%' !in w
  }

  predicate CleanWords(ws: seq<string>) {
    forall k :: 0 <= k < |ws| ==> CleanWord(ws[k])
  }

  lemma {:induction false} JoinWithout(xs: seq<string>, sep: string, c: char)
    requires c !in sep && forall k :: 0 <= k < |xs| ==> c !in xs[k]
    ensures c !in Join(xs, sep)
    decreases |xs|
  {
    if |xs| > 1 {
      JoinWithout(xs[1..], sep, c);
    }
  }

  /** `key` followed by a space and space-separated words reads as that keyword
      with the words as its argument. */
  lemma ParseWords(key: string, args: seq<string>)
    requires CleanWord(key) && |args| > 0 && CleanWords(args)
    ensures Parse(key + " " + Join(args, " ")) == Some(Directive(key, Some(Join(args, " "))))
  {
    var j := Join(args, " ");
    JoinClean(args);
    LineClean(key, j);
    WordThenRest(key, j);
    StripClean(j);
  }

  /** Clean words joined by spaces: non-empty, `%`-free, not space at either end. */
  lemma JoinClean(args: seq<string>)
    requires |args| > 0 && CleanWords(args)
    ensures var j := Join(args, " "); |j| > 0 && '%' !in j && !IsSpace(j[0]) && !IsSpace(j[|j| - 1])
  {
    JoinWithout(args, " ", '%');
    Scriptfile.JoinEnds(args, " ");
  }

  /** A `%`-free line with no surrounding whitespace is its own cleaned text. */
  lemma LineClean(key: string, j: string)
    requires CleanWord(key) && |j| > 0 && '%' !in j && !IsSpace(j[|j| - 1])
    ensures Strip(Before(key + " " + j, '%')) == key + " " + j
  {
    var ln := key + " " + j;
    SpacedEnds(key, j, '%');
    BeforeAbsent(ln, '%');
    StripClean(ln);
  }

  lemma SpacedEnds(a: string, b: string, c: char)
    requires |a| > 0 && |b| > 0 && c != ' '
    ensures var ln := a + " " + b; ln[0] == a[0] && ln[|ln| - 1] == b[|b| - 1]
    ensures c !in a && c !in b ==> c !in a + " " + b
  {
  }

  lemma BeforeAbsent(s: string, c: char)
    requires c !in s
    ensures Before(s, c) == s
  {
  }


  /** The first word of `key j` is `key`, and `j` follows it once the space is dropped. */
  lemma WordThenRest(key: string, j: string)
    requires CleanWord(key) && |j| > 0 && !IsSpace(j[0])
    ensures TakeWord(key + " " + j) == key
    ensures LStrip((key + " " + j)[|key|..]) == j
  {
    FirstWord(key, j);
    RestAfterWord(key, j);
  }

  lemma FirstWord(key: string, j: string)
    requires CleanWord(key)
    ensures TakeWord(key + " " + j) == key
  {
    SpaceBetween(key, j);
    TakeWordBeforeSpace(key, ' ', j);
    TakeWordAll(key);
  }

  lemma RestAfterWord(key: string, j: string)
    requires |j| > 0 && !IsSpace(j[0])
    ensures LStrip((key + " " + j)[|key|..]) == j
  {
    SpaceBetween(key, j);
    LStripPadded(" ", j);
    assert LStrip(j) == j;
  }

  lemma SpaceBetween(a: string, b: string)
    ensures a + " " + b == a + [' '] + b
    ensures (a + " " + b)[|a|..] == " " + b
  {
    assert (a + " " + b)[|a|..] == (a + (" " + b))[|a|..];
  }


  // ---------------------------------------------------------------- bulk

  /** Python's `xs[:n]`. */
  function Take(xs: seq<string>, n: nat): (r: seq<string>)
    ensures |r| == if n < |xs| then n else |xs|
    ensures r == xs[..|r|]
  {
    if n < |xs| then xs[..n] else xs
  }

  /** The bulk composition read at start-up: two or three `bulk` lines split into
      words, the third cut to the length of the first (dropping a step count). */
  function ParseBulk(scripts: map<string, seq<string>>): (r: Result<seq<seq<string>>>)
    ensures r.Ok? <==> "bulk" in scripts && 2 <= |scripts["bulk"]| <= 3
    ensures "bulk" !in scripts ==> r == Err(ScriptfileError("No bulk script, bulk must be provided."))
    ensures "bulk" in scripts && !(2 <= |scripts["bulk"]| <= 3) ==>
              r == Err(ScriptfileError("Bulk script must have 2 or 3 lines."))
    ensures r.Ok? ==> |r.value| == |scripts["bulk"]|
    ensures r.Ok? ==> forall i :: 0 <= i < 2 ==> r.value[i] == Words(scripts["bulk"][i])
    ensures r.Ok? && |r.value| == 3 ==>
              var ws := Words(scripts["bulk"][2]);
              |r.value[2]| <= |r.value[0]| && |r.value[2]| <= |ws| && r.value[2] == ws[..|r.value[2]|] &&
              (|r.value[2]| < |r.value[0]| ==> r.value[2] == ws)
  {
    if "bulk" !in scripts then Err(ScriptfileError("No bulk script, bulk must be provided."))
    else
      var b := scripts["bulk"];
      if !(1 < |b| < 4) then Err(ScriptfileError("Bulk script must have 2 or 3 lines."))
      else
        var first := Words(b[0]);
        if |b| == 3 then Ok([first, Words(b[1]), Take(Words(b[2]), |first|)])
        else Ok([first, Words(b[1])])
  }

  /** The bulk a bulk block holds: two or three rows of clean words, the third as
      long as the first. */
  predicate ReadableBulk(bulk: seq<seq<string>>) {
    && 2 <= |bulk| <= 3
    && (forall i :: 0 <= i < |bulk| ==> |bulk[i]| > 0 && CleanWords(bulk[i]))
    && (|bulk| == 3 ==> |bulk[2]| == |bulk[0]|)
  }

  lemma BulkLineParse(row: seq<string>)
    requires |row| > 0 && CleanWords(row)
    ensures Parse(Scriptfile.BulkLine(row)) == Some(Directive("bulk", Some(Join(row, " "))))
  {
    BulkLineSpelled(row);
    KeywordClean("bulk");
    ParseWords("bulk", row);
  }

  lemma BulkLineSpelled(row: seq<string>)
    ensures Scriptfile.BulkLine(row) == "bulk" + " " + Join(row, " ")
  {
    assert "bulk" + " " == "bulk ";
  }

  lemma StepLineParse(row: seq<string>, xsteps: Option<int>)
    requires |row| > 0 && CleanWords(row)
    ensures Parse(Scriptfile.BulkLine(row) + " " + Scriptfile.ShowOptional(xsteps)) ==
            Some(Directive("bulk", Some(Join(row + [Scriptfile.ShowOptional(xsteps)], " "))))
  {
    var t := Scriptfile.ShowOptional(xsteps);
    ShowOptionalClean(xsteps);
    CleanSnoc(row, t);
    StepLineSpelled(row, t);
    KeywordClean("bulk");
    ParseWords("bulk", row + [t]);
  }

  /** The fixed words the builder writes are single `%`-free words. */
  lemma KeywordClean(key: string)
    requires key in {"bulk", "inexcess", "no"}
    ensures CleanWord(key)
  {
  }

  lemma ShowOptionalClean(x: Option<int>)
    ensures CleanWord(Scriptfile.ShowOptional(x))
  {
    var t := Scriptfile.ShowOptional(x);
    assert forall k :: 0 <= k < |t| ==> t[k] != '%' && !IsSpace(t[k]);
  }

  lemma CleanSnoc(ws: seq<string>, w: string)
    requires CleanWords(ws) && CleanWord(w)
    ensures CleanWords(ws + [w])
  {
    assert forall k :: 0 <= k < |ws| ==> (ws + [w])[k] == ws[k];
  }

  lemma StepLineSpelled(row: seq<string>, t: string)
    requires |row| > 0
    ensures Scriptfile.BulkLine(row) + " " + t == "bulk" + " " + Join(row + [t], " ")
  {
    Scriptfile.JoinSnoc(row, t, " ");
    BulkLineSpelled(row);
    Scriptfile.Regroup("bulk", " ", Join(row, " "), " ", t);
  }

  /** The bulk block written for a bulk (`TCAPI.update_scriptfile`), in a
      scriptfile where no other line names `bulk`, reads back at start-up as that
      bulk; the step count written after the third row is dropped again. */
  lemma BulkRoundTrip(pre: seq<string>, bulk: seq<seq<string>>, xsteps: Option<int>, post: seq<string>)
    requires ReadableBulk(bulk)
    requires !Mentions(ParseAll(pre), "bulk") && !Mentions(ParseAll(post), "bulk")
    ensures Scriptfile.BulkLines(bulk, xsteps).Ok?
    ensures ParseBulk(Scripts(pre + Scriptfile.BulkLines(bulk, xsteps).value + post)) == Ok(bulk)
  {
    var t := Scriptfile.ShowOptional(xsteps);
    var mid := Scriptfile.BulkLines(bulk, xsteps).value;
    BulkLinesParse(bulk, xsteps);
    ScriptsOfGiven(pre, mid, post, "bulk", BulkArgs(bulk, t));
    ShowOptionalClean(xsteps);
    ParseBulkArgs(Scripts(pre + mid + post), bulk, t);
  }

  /** The arguments of the `bulk` lines written for a bulk, `t` after the third row. */
  function BulkArgs(bulk: seq<seq<string>>, t: string): (args: seq<string>)
    requires |bulk| >= 2
    ensures |args| == if |bulk| == 3 then 3 else 2
  {
    [Join(bulk[0], " "), Join(bulk[1], " ")] + (if |bulk| == 3 then [Join(bulk[2] + [t], " ")] else [])
  }

  /** The written `bulk` lines are `bulk` directives carrying the rows. */
  lemma BulkLinesParse(bulk: seq<seq<string>>, xsteps: Option<int>)
    requires ReadableBulk(bulk)
    ensures Scriptfile.BulkLines(bulk, xsteps).Ok?
    ensures ParseAll(Scriptfile.BulkLines(bulk, xsteps).value) == Given("bulk", BulkArgs(bulk, Scriptfile.ShowOptional(xsteps)))
  {
    var lines := Scriptfile.BulkLines(bulk, xsteps).value;
    var g := Given("bulk", BulkArgs(bulk, Scriptfile.ShowOptional(xsteps)));
    forall i | 0 <= i < |lines| ensures Parse(lines[i]) == g[i] {
      BulkLineAt(bulk, xsteps, i);
    }
    ParseAllPointwise(lines, g);
  }

  lemma BulkLineAt(bulk: seq<seq<string>>, xsteps: Option<int>, i: nat)
    requires ReadableBulk(bulk) && i < |bulk|
    ensures Scriptfile.BulkLines(bulk, xsteps).Ok?
    ensures Parse(Scriptfile.BulkLines(bulk, xsteps).value[i]) == Given("bulk", BulkArgs(bulk, Scriptfile.ShowOptional(xsteps)))[i]
  {
    var t := Scriptfile.ShowOptional(xsteps);
    BulkArgsAt(bulk, t);
    var want := Some(Directive("bulk", Some(BulkArgs(bulk, t)[i])));
    assert Given("bulk", BulkArgs(bulk, t))[i] == want;
    if i < 2 {
      RowLineAt(bulk, xsteps, i);
    } else {
      StepLineAt(bulk, xsteps);
    }
  }

  lemma BulkArgsAt(bulk: seq<seq<string>>, t: string)
    requires 2 <= |bulk| <= 3
    ensures forall i :: 0 <= i < 2 ==> BulkArgs(bulk, t)[i] == Join(bulk[i], " ")
    ensures |bulk| == 3 ==> BulkArgs(bulk, t)[2] == Join(bulk[2] + [t], " ")
  {
  }

  lemma RowLineAt(bulk: seq<seq<string>>, xsteps: Option<int>, i: nat)
    requires ReadableBulk(bulk) && i < 2
    ensures Scriptfile.BulkLines(bulk, xsteps).Ok?
    ensures Parse(Scriptfile.BulkLines(bulk, xsteps).value[i]) == Some(Directive("bulk", Some(Join(bulk[i], " "))))
  {
    assert CleanWords(bulk[i]);
    BulkLinesAt(bulk, xsteps);
    BulkLineParse(bulk[i]);
  }

  /** The lines of a bulk block, one by one. */
  lemma BulkLinesAt(bulk: seq<seq<string>>, xsteps: Option<int>)
    requires 2 <= |bulk|
    ensures Scriptfile.BulkLines(bulk, xsteps).Ok?
    ensures forall i :: 0 <= i < 2 ==> Scriptfile.BulkLines(bulk, xsteps).value[i] == Scriptfile.BulkLine(bulk[i])
    ensures |bulk| > 2 ==>
              Scriptfile.BulkLines(bulk, xsteps).value[2] == Scriptfile.BulkLine(bulk[2]) + " " + Scriptfile.ShowOptional(xsteps)
  {
  }

  lemma StepLineAt(bulk: seq<seq<string>>, xsteps: Option<int>)
    requires ReadableBulk(bulk) && |bulk| == 3
    ensures Scriptfile.BulkLines(bulk, xsteps).Ok?
    ensures Parse(Scriptfile.BulkLines(bulk, xsteps).value[2]) ==
            Some(Directive("bulk", Some(Join(bulk[2] + [Scriptfile.ShowOptional(xsteps)], " "))))
  {
    assert CleanWords(bulk[2]);
    BulkLinesAt(bulk, xsteps);
    StepLineParse(bulk[2], xsteps);
  }

  /** Lines parsing one by one to given directives parse to them all. */
  lemma {:induction false} ParseAllPointwise(lines: seq<string>, ds: seq<Option<Directive>>)
    requires |lines| == |ds| && forall i :: 0 <= i < |lines| ==> Parse(lines[i]) == ds[i]
    ensures ParseAll(lines) == ds
    decreases |lines|
  {
    if |lines| > 0 {
      ParseAllPointwise(lines[1..], ds[1..]);
    }
  }

  /** A bulk row's words, read back from a `bulk` line argument. */
  lemma ParseBulkArgs(d: map<string, seq<string>>, bulk: seq<seq<string>>, t: string)
    requires ReadableBulk(bulk) && CleanWord(t)
    requires "bulk" in d && d["bulk"] == BulkArgs(bulk, t)
    ensures ParseBulk(d) == Ok(bulk)
  {
    assert CleanWords(bulk[0]) && CleanWords(bulk[1]);
    WordsOfJoin(bulk[0]);
    WordsOfJoin(bulk[1]);
    if |bulk| == 3 {
      assert CleanWords(bulk[2]);
      CleanSnoc(bulk[2], t);
      WordsOfJoin(bulk[2] + [t]);
      assert (bulk[2] + [t])[..|bulk[0]|] == bulk[2];
      assert bulk == [bulk[0], bulk[1], bulk[2]];
    } else {
      assert bulk == [bulk[0], bulk[1]];
    }
  }

  /** Directives giving `key` each argument of `args` in turn. */
  function Given(key: string, args: seq<string>): (ds: seq<Option<Directive>>)
    ensures |ds| == |args|
    ensures forall i :: 0 <= i < |args| ==> ds[i] == Some(Directive(key, Some(args[i])))
    decreases |args|
  {
    if |args| == 0 then [] else [Some(Directive(key, Some(args[0])))] + Given(key, args[1..])
  }

  lemma {:induction false} GivenArgs(key: string, args: seq<string>)
    ensures ArgsOf(Given(key, args), key) == args
    decreases |args|
  {
    if |args| > 0 {
      GivenArgs(key, args[1..]);
      assert Given(key, args)[1..] == Given(key, args[1..]);
    }
  }

  /** Lines that read as directives giving `key` the arguments `args`, among
      lines that never name `key`, make `args` the dictionary's entry. */
  lemma ScriptsOfGiven(pre: seq<string>, mid: seq<string>, post: seq<string>, key: string, args: seq<string>)
    requires !Mentions(ParseAll(pre), key) && !Mentions(ParseAll(post), key)
    requires ParseAll(mid) == Given(key, args) && |args| > 0
    ensures key in Scripts(pre + mid + post) && Scripts(pre + mid + post)[key] == args
  {
    ParseAllAppend(pre + mid, post);
    ParseAllAppend(pre, mid);
    var g := Given(key, args);
    GivenArgs(key, args);
    assert Names(g[0], key);
    DictionaryOfOnly(ParseAll(pre), g, ParseAll(post), key);
  }

  // ---------------------------------------------------------------- inexcess

  /** The phases in excess: `setexcess` is refused, `inexcess` needs an argument
      whose words, `no` aside, are the phases; `None` leaves them unset. */
  function ParseInexcess(scripts: map<string, seq<string>>): (r: Result<Option<set<string>>>)
    ensures "setexcess" in scripts ==> r == Err(ScriptfileError("setexcess script depreceated, use inexcess instead."))
    ensures "setexcess" !in scripts && "inexcess" in scripts && scripts["inexcess"] == [] ==>
              r == Err(ScriptfileError("In case of no excess phases, use inexcess no"))
    ensures r == Ok(None) <==> "setexcess" !in scripts && "inexcess" !in scripts
    ensures r.Ok? && r.value.Some? ==>
              "inexcess" in scripts && |scripts["inexcess"]| > 0 &&
              forall x :: x in r.value.value <==> x in Words(scripts["inexcess"][0]) && x != "no"
  {
    if "setexcess" in scripts then Err(ScriptfileError("setexcess script depreceated, use inexcess instead."))
    else if "inexcess" in scripts then
      if |scripts["inexcess"]| > 0 then
        Ok(Some((set w | w in Words(scripts["inexcess"][0])) - {"no"}))
      else Err(ScriptfileError("In case of no excess phases, use inexcess no"))
    else Ok(None)
  }

  /** The words of the `inexcess` line written for a set of phases: the phases
      in `sorted` order, or `no` for none. */
  function InexcessWords(excess: set<string>): (ws: seq<string>)
    ensures |ws| > 0
    ensures forall w :: w in ws <==> w in excess || (excess == {} && w == "no")
  {
    if excess == {} then ["no"]
    else
      var x :| x in excess;
      assert x in StrOrder.Sort(excess);
      StrOrder.Sort(excess)
  }

  /** The `inexcess` line written for a set of phases. */
  function InexcessLine(excess: set<string>): string {
    "inexcess " + Join(InexcessWords(excess), " ")
  }

  /** An `inexcess` line, the only line naming excess phases, reads back as the
      set it lists. */
  lemma InexcessRoundTrip(pre: seq<string>, excess: set<string>, post: seq<string>)
    requires forall x :: x in excess ==> CleanWord(x) && x != "no"
    requires !Mentions(ParseAll(pre), "inexcess") && !Mentions(ParseAll(post), "inexcess")
    requires !Mentions(ParseAll(pre), "setexcess") && !Mentions(ParseAll(post), "setexcess")
    ensures ParseInexcess(Scripts(pre + [InexcessLine(excess)] + post)) == Ok(Some(excess))
  {
    var ws := InexcessWords(excess);
    var mid := [InexcessLine(excess)];
    var args := [Join(ws, " ")];
    InexcessLineParse(excess);
    ScriptsOfGiven(pre, mid, post, "inexcess", args);
    GivenNamesOnly("inexcess", args, "setexcess");
    ScriptsWithout(pre, mid, post, "setexcess");
    ParseInexcessOf(Scripts(pre + mid + post), excess);
  }

  /** A dictionary whose only excess entry is the written `inexcess` argument
      yields the phases written. */
  lemma ParseInexcessOf(d: map<string, seq<string>>, excess: set<string>)
    requires forall x :: x in excess ==> CleanWord(x) && x != "no"
    requires "setexcess" !in d && "inexcess" in d && d["inexcess"] == [Join(InexcessWords(excess), " ")]
    ensures ParseInexcess(d) == Ok(Some(excess))
  {
    var ws := InexcessWords(excess);
    InexcessWordsClean(excess);
    WordsOfJoin(ws);
    InexcessSet(excess);
  }

  lemma InexcessSet(excess: set<string>)
    requires "no" !in excess
    ensures (set w | w in InexcessWords(excess)) - {"no"} == excess
  {
  }

  lemma InexcessWordsClean(excess: set<string>)
    requires forall x :: x in excess ==> CleanWord(x)
    ensures CleanWords(InexcessWords(excess))
  {
    var ws := InexcessWords(excess);
    forall k | 0 <= k < |ws| ensures CleanWord(ws[k]) {
      if excess == {} {
        KeywordClean(ws[k]);
      } else {
        assert ws[k] in excess;
      }
    }
  }

  /** The `inexcess` line reads as one `inexcess` directive carrying its words. */
  lemma InexcessLineParse(excess: set<string>)
    requires forall x :: x in excess ==> CleanWord(x)
    ensures ParseAll([InexcessLine(excess)]) == Given("inexcess", [Join(InexcessWords(excess), " ")])
  {
    var ws := InexcessWords(excess);
    InexcessWordsClean(excess);
    KeywordClean("inexcess");
    assert "inexcess" + " " == "inexcess ";
    ParseWords("inexcess", ws);
    ParseAllPointwise([InexcessLine(excess)], Given("inexcess", [Join(ws, " ")]));
  }

  /** Directives giving one keyword name no other. */
  lemma GivenNamesOnly(key: string, args: seq<string>, other: string)
    requires other != key
    ensures !Mentions(Given(key, args), other)
  {
  }

  lemma MentionsAppend(xs: seq<Option<Directive>>, ys: seq<Option<Directive>>, key: string)
    ensures Mentions(xs + ys, key) <==> Mentions(xs, key) || Mentions(ys, key)
  {
    var zs := xs + ys;
    if Mentions(zs, key) {
      var i :| 0 <= i < |zs| && Names(zs[i], key);
      if i < |xs| {
        assert zs[i] == xs[i];
      } else {
        assert zs[i] == ys[i - |xs|];
      }
    }
    if Mentions(xs, key) {
      var i :| 0 <= i < |xs| && Names(xs[i], key);
      assert zs[i] == xs[i];
    }
    if Mentions(ys, key) {
      var i :| 0 <= i < |ys| && Names(ys[i], key);
      assert zs[|xs| + i] == ys[i];
    }
  }

  /** A keyword no line names is not in the dictionary. */
  lemma ScriptsWithout(pre: seq<string>, mid: seq<string>, post: seq<string>, key: string)
    requires !Mentions(ParseAll(pre), key) && !Mentions(ParseAll(mid), key) && !Mentions(ParseAll(post), key)
    ensures key !in Scripts(pre + mid + post)
  {
    ParseAllAppend(pre + mid, post);
    ParseAllAppend(pre, mid);
    MentionsAppend(ParseAll(pre), ParseAll(mid), key);
    MentionsAppend(ParseAll(pre) + ParseAll(mid), ParseAll(post), key);
    DictionaryHas(ParseAll(pre + mid + post), key);
  }

  // ---------------------------------------------------------------- variance

  const VariancePhrase := "variance of required equilibrium"

  predicate HasVariance(ln: string) {
    Occurs(VariancePhrase, ln)
  }

  /** Python's `s[i:j]` for `0 <= i <= |s|` and `j <= |s|`: empty when `j < i`. */
  function SliceStr(s: string, i: nat, j: nat): (r: string)
    requires i <= |s| && j <= |s|
    ensures i <= j ==> r == s[i..j]
    ensures j < i ==> r == ""
  {
    if i <= j then s[i..j] else ""
  }

  /** `ln[ln.index('(') + 1:ln.index('?')]`; `index` raises `ValueError` for a
      missing character. */
  function Delimited(ln: string): (r: Result<string>)
    ensures r.Err? ==> r.error.ValueError?
    ensures r.Ok? ==> '(' in ln && '?' in ln
  {
    var o := Index(ln, "(");
    if o == -1 then Err(ValueError("substring not found"))
    else
      var q := Index(ln, "?");
      if q == -1 then Err(ValueError("substring not found"))
      else
        assert ln[o] == '(' && ln[q] == '?' by {
          assert ln[o..o + 1] == "(" && ln[q..q + 1] == "?";
        }
        Ok(SliceStr(ln, o + 1, q))
  }

  /** `int(ln[ln.index('(') + 1:ln.index('?')])`: `int` raises `ValueError` for
      anything but a number. */
  function VarianceOf(ln: string): (r: Result<int>)
    ensures r.Err? ==> r.error.ValueError?
    ensures r.Ok? ==> '(' in ln && '?' in ln
  {
    var d :- Delimited(ln);
    PyInt(d)
  }

  /** The leftmost occurrence of a character not in `pre`, placed right after it. */
  lemma IndexAfter(pre: string, c: char, rest: string)
    requires c !in pre
    ensures Index(pre + [c] + rest, [c]) == |pre|
  {
    var s := pre + [c] + rest;
    forall j | 0 <= j <= |s| ensures OccursAt([c], s, j) <==> j < |s| && s[j] == c {
      OccursAtOne(c, s, j);
    }
    assert s[|pre|] == c;
    assert Occurs([c], s);
    assert forall j :: 0 <= j < |pre| ==> s[j] == pre[j];
  }

  /** A one-character text occurs where that character stands. */
  lemma OccursAtOne(c: char, s: string, j: nat)
    requires j <= |s|
    ensures OccursAt([c], s, j) <==> j < |s| && s[j] == c
  {
    if j < |s| {
      assert s[j..j + 1] == [s[j]];
    }
  }

  /** A variance written between `(` and `?`, after text holding neither, reads
      back as that variance. */
  lemma VarianceRoundTrip(pre: string, v: int, post: string)
    requires '(' !in pre && '?' !in pre
    ensures VarianceOf(pre + "(" + IntToString(v) + "?" + post) == Ok(v)
  {
    NumeralPlain(v);
    VarianceBetween(pre, IntToString(v), post);
    IntToStringRoundTrip(v);
  }

  /** What stands between the delimiters is what `int` is given. */
  lemma VarianceBetween(pre: string, d: string, post: string)
    requires '(' !in pre && '?' !in pre && '?' !in d
    ensures VarianceOf(pre + "(" + d + "?" + post) == PyInt(d)
  {
    var ln := pre + "(" + d + "?" + post;
    VarianceDelimiters(pre, d, post);
    SliceBetween(pre, d, post);
    VarianceAt(ln, |pre|, |pre| + 1 + |d|, d);
  }

  lemma SliceBetween(pre: string, d: string, post: string)
    ensures var ln := pre + "(" + d + "?" + post;
      |pre| + 1 + |d| < |ln| && ln[|pre| + 1..|pre| + 1 + |d|] == d
  {
    var ln := pre + "(" + d + "?" + post;
    assert ln == (pre + "(") + d + ("?" + post);
  }

  /** `VarianceOf` once both delimiters are found, the `(` first. */
  lemma VarianceAt(ln: string, o: nat, q: nat, d: string)
    requires o < q < |ln| && Index(ln, "(") == o && Index(ln, "?") == q && ln[o + 1..q] == d
    ensures VarianceOf(ln) == PyInt(d)
  {
    assert SliceStr(ln, o + 1, q) == d;
    assert Delimited(ln) == Ok(d);
  }

  /** A written integer holds no `(` and no `?`. */
  lemma NumeralPlain(v: int)
    ensures '(' !in IntToString(v) && '?' !in IntToString(v)
  {
    var d := IntToString(v);
    if v < 0 {
      assert forall k :: 1 <= k < |d| ==> d[k] == d[1..][k - 1];
    }
  }

  /** Where `(` and `?` are found around a written number. */
  lemma VarianceDelimiters(pre: string, d: string, post: string)
    requires '(' !in pre && '?' !in pre && '?' !in d
    ensures Index(pre + "(" + d + "?" + post, "(") == |pre|
    ensures Index(pre + "(" + d + "?" + post, "?") == |pre| + 1 + |d|
  {
    var ln := pre + "(" + d + "?" + post;
    assert ln == pre + ['('] + (d + "?" + post);
    IndexAfter(pre, '(', d + "?" + post);
    assert ln == (pre + "(" + d) + ['?'] + post;
    IndexAfter(pre + "(" + d, '?', post);
  }



  /** An error passed on, or the value made optional. */
  function Present(r: Result<int>): (o: Result<Option<int>>)
    ensures o.Ok? <==> r.Ok?
    ensures r.Ok? ==> o.value == Some(r.value)
    ensures r.Err? ==> o.error == r.error
  {
    if r.Ok? then Ok(Some(r.value)) else Err(r.error)
  }

  /** The loop of `calc_variance`: the variance on the first line that reports
      one, `None` when no line does. */
  function FirstVariance(lines: seq<string>): (r: Result<Option<int>>)
    ensures r.Err? ==> r.error.ValueError?
    ensures r == Ok(None) <==> forall i :: 0 <= i < |lines| ==> !HasVariance(lines[i])
    ensures forall i :: 0 <= i < |lines| && HasVariance(lines[i]) && (forall j :: 0 <= j < i ==> !HasVariance(lines[j])) ==>
              r == Present(VarianceOf(lines[i]))
  {
    match FirstWhere(lines, HasVariance)
    case None => Ok(None)
    case Some(k) =>
      assert forall i :: 0 <= i < |lines| && HasVariance(lines[i]) && (forall j :: 0 <= j < i ==> !HasVariance(lines[j])) ==>
               i == k;
      Present(VarianceOf(lines[k]))
  }

  /** The loop of `calc_variance` one line at a time. */
  lemma FirstVarianceCons(lines: seq<string>)
    requires |lines| > 0
    ensures FirstVariance(lines) ==
            if HasVariance(lines[0]) then Present(VarianceOf(lines[0])) else FirstVariance(lines[1..])
  {
    FirstWhereCons(lines, HasVariance);
    if !HasVariance(lines[0]) {
      match FirstWhere(lines[1..], HasVariance)
      case None =>
      case Some(k) =>
        assert lines[1..][k] == lines[k + 1];
    }
  }

  /** The variance THERMOCALC reports for an assemblage (`calc_variance` of both
      APIs), read from its output. */
  function CalcVariance(tcout: string): (r: Result<Option<int>>)
    ensures r.Err? ==> r.error.ValueError?
  {
    FirstVariance(SplitLines(tcout))
  }

  /** `parse_variance`: the loop variable outlives the loop, so without a
      variance line the last line is parsed, and without any line the variable
      was never bound. */
  function ParseVariance(out: string): (r: Result<int>)
    ensures r.Err? ==> r.error.ValueError? || r.error.UnboundLocalError?
    ensures r.Err? && r.error.UnboundLocalError? <==> out == ""
  {
    var lines := SplitLines(out);
    match FirstWhere(lines, HasVariance)
    case Some(i) => VarianceOf(lines[i])
    case None =>
      if |lines| == 0 then Err(UnboundLocalError("local variable 'ln' referenced before assignment"))
      else VarianceOf(lines[|lines| - 1])
  }

  /** `parse_variance` agrees with `calc_variance` whenever the output has a
      variance line; otherwise it parses the last line. */
  lemma ParseVarianceAgrees(out: string)
    ensures CalcVariance(out).Ok? && CalcVariance(out).value.Some? ==> ParseVariance(out) == Ok(CalcVariance(out).value.value)
    ensures CalcVariance(out).Err? ==> ParseVariance(out) == Err(CalcVariance(out).error)
    ensures CalcVariance(out) == Ok(None) && out != "" ==>
              ParseVariance(out) == VarianceOf(SplitLines(out)[|SplitLines(out)| - 1])
  {
    var lines := SplitLines(out);
    var f := FirstWhere(lines, HasVariance);
    if f.Some? {
      assert forall j :: 0 <= j < f.value ==> !HasVariance(lines[j]);
    } else {
      assert forall j :: 0 <= j < |lines| ==> !HasVariance(lines[j]);
    }
  }

  // ---------------------------------------------------------------- log status

  /** The outcome `parse_logfile` reports: `bombed`, `ok`, `nir` (nothing in range). */
  datatype Status = Bombed | Calculated | NothingInRange

  datatype LogSummary = LogSummary(status: Status, variance: int)

  /** `''.join(c for c in ln if ord(c) < 128)`. */
  function Ascii(ln: string): (r: string)
    ensures |r| <= |ln|
    ensures (forall k :: 0 <= k < |ln| ==> ln[k] as int < 128) ==> r == ln
    decreases |ln|
  {
    if |ln| == 0 then ""
    else (if ln[0] as int < 128 then [ln[0]] else []) + Ascii(ln[1..])
  }

  /** The non-empty lines of the output, each with its non-ASCII characters removed. */
  function LogLines(ls: seq<string>): (r: seq<string>)
    ensures |r| <= |ls|
    decreases |ls|
  {
    if |ls| == 0 then []
    else (if ls[0] != "" then [Ascii(ls[0])] else []) + LogLines(ls[1..])
  }

  predicate Bombs(ln: string) {
    Occurs("BOMBED", ln)
  }

  predicate StartsBlock(ln: string) {
    StartsWith(ln, " P(kbar)")
  }

  /** Some line reports that THERMOCALC bombed. */
  predicate AnyBombs(lines: seq<string>) {
    exists i :: 0 <= i < |lines| && Bombs(lines[i])
  }

  /** Some line starts a block of results. */
  predicate AnyBlock(lines: seq<string>) {
    exists i :: 0 <= i < |lines| && StartsBlock(lines[i])
  }

  /** The lines `parse_logfile` looks at. */
  function LogOf(out: string): seq<string> {
    LogLines(SplitLines(out))
  }

  /** The index of the first line at or after `j` that starts a block, or the
      number of lines when none does: where the block before it ends. */
  function NextStart(lines: seq<string>, j: nat): (e: nat)
    requires j <= |lines|
    ensures j <= e <= |lines|
    ensures e < |lines| ==> StartsBlock(lines[e])
    ensures forall k :: j <= k < e ==> !StartsBlock(lines[k])
    decreases |lines| - j
  {
    if j == |lines| || StartsBlock(lines[j]) then j else NextStart(lines, j + 1)
  }

  /** The lines the parse of one result block reads by position are there: the
      second line (the P–T values), a `ptguess` line (`[...][0]`), an `xyzguess`
      line (`xyz[-1]`), an `rbi yes` line (`[...][0]`), and after the first of
      those the line of oxide names and one line per phase named on the line
      before it (`block[rbix - 1]`, which Python reads from the end when
      `rbix` is `0`). */
  predicate BlockReadable(block: seq<string>) {
    |block| >= 2 &&
    FirstWhere(block, ln => StartsWith(ln, "ptguess")).Some? &&
    FirstWhere(block, ln => StartsWith(ln, "xyzguess")).Some? &&
    var rb := FirstWhere(block, ln => StartsWith(ln, "rbi yes"));
    rb.Some? &&
    var names := Words(block[if rb.value == 0 then |block| - 1 else rb.value - 1]);
    rb.value + 1 + (if |names| > 0 then |names| - 1 else 0) < |block|
  }

  /** Every block, from each ` P(kbar)` line up to the next one, can be read. */
  ghost predicate AllBlocksReadable(lines: seq<string>) {
    forall i :: 0 <= i < |lines| && StartsBlock(lines[i]) ==> BlockReadable(lines[i..NextStart(lines, i + 1)])
  }

  /** `zip(bstarts[:-1], bstarts[1:])` from line `i` on: each block is read in
      turn and the first that lacks a line it reads raises `IndexError`. */
  function ReadBlocks(lines: seq<string>, i: nat): (r: Result<()>)
    requires i <= |lines|
    ensures r.Err? ==> r.error.IndexError?
    ensures r.Ok? <==> forall j :: i <= j < |lines| && StartsBlock(lines[j]) ==> BlockReadable(lines[j..NextStart(lines, j + 1)])
    decreases |lines| - i
  {
    if i == |lines| then Ok(())
    else if StartsBlock(lines[i]) && !BlockReadable(lines[i..NextStart(lines, i + 1)]) then
      Err(IndexError("list index out of range"))
    else ReadBlocks(lines, i + 1)
  }

  /** The status and variance `parse_logfile` reports for a THERMOCALC log: a
      bombed run carries no variance; otherwise the first variance line gives
      the variance (`-1` when there is none), each ` P(kbar)` block is read, and
      any block makes the run a success. */
  function LogStatus(out: string): (r: Result<LogSummary>)
    ensures r.Err? ==> (r.error.ValueError? || r.error.IndexError?) && !AnyBombs(LogOf(out))
    ensures AnyBombs(LogOf(out)) ==> r == Ok(LogSummary(Bombed, -1))
    ensures !AnyBombs(LogOf(out)) ==>
              (r.Ok? <==> FirstVariance(LogOf(out)).Ok? && AllBlocksReadable(LogOf(out)))
    ensures r.Err? && r.error.IndexError? ==> FirstVariance(LogOf(out)).Ok? && !AllBlocksReadable(LogOf(out))
    ensures r.Ok? ==> (r.value.status == Bombed <==> AnyBombs(LogOf(out)))
    ensures r.Ok? ==> (r.value.status == Calculated <==> !AnyBombs(LogOf(out)) && AnyBlock(LogOf(out)))
    ensures r.Ok? && r.value.variance != -1 ==> FirstVariance(LogOf(out)) == Ok(Some(r.value.variance))
  {
    var lines := LogOf(out);
    if AnyBombs(lines) then Ok(LogSummary(Bombed, -1))
    else
      var v :- FirstVariance(lines);
      var _ :- ReadBlocks(lines, 0);
      var status := if AnyBlock(lines) then Calculated else NothingInRange;
      Ok(LogSummary(status, if v.Some? then v.value else -1))
  }

  /** The block header alone: ASCII, neither a bombed nor a variance line. */
  lemma HeaderLine()
    ensures AsciiText(" P(kbar)") && StartsBlock(" P(kbar)")
    ensures !Bombs(" P(kbar)") && !HasVariance(" P(kbar)")
  {
    var header := " P(kbar)";
    NoOccurrenceWithoutFirst("BOMBED", header);
    NoOccurrenceWithoutFirst(VariancePhrase, header);
  }

  lemma SplitHeader()
    ensures SplitLines(" P(kbar)\n") == [" P(kbar)"]
  {
    var header := " P(kbar)";
    HeaderLine();
    SplitLinesAfterBreak(header, "");
    assert " P(kbar)\n" == header + "\n" + "";
    assert SplitLines("") == [];
  }

  lemma LogOfHeader()
    ensures LogOf(" P(kbar)\n") == [" P(kbar)"]
  {
    var header := " P(kbar)";
    HeaderLine();
    SplitHeader();
    assert [header][1..] == [];
    assert LogLines([header]) == [Ascii(header)] + LogLines([]);
  }

  lemma HeaderBlockUnreadable(lines: seq<string>)
    requires lines == [" P(kbar)"]
    ensures !AnyBombs(lines) && FirstVariance(lines) == Ok(None) && !AllBlocksReadable(lines)
  {
    HeaderLine();
    assert NextStart(lines, 1) == 1;
    assert !BlockReadable(lines[0..1]);
  }

  /** A block without its P–T line cannot be read; a log whose only block is
      the ` P(kbar)` header raises `IndexError`. */
  lemma HeaderOnlyRaises()
    ensures LogStatus(" P(kbar)\n").Err? && LogStatus(" P(kbar)\n").error.IndexError?
  {
    LogOfHeader();
    HeaderBlockUnreadable(LogOf(" P(kbar)\n"));
  }

  predicate AsciiText(s: string) {
    forall k :: 0 <= k < |s| ==> s[k] as int < 128
  }

  /** On ASCII lines, dropping the empty ones changes no variance reading. */
  lemma {:induction false} FirstVarianceOfLogLines(ls: seq<string>)
    requires forall i :: 0 <= i < |ls| ==> AsciiText(ls[i])
    ensures FirstVariance(LogLines(ls)) == FirstVariance(ls)
    decreases |ls|
  {
    if |ls| > 0 {
      FirstVarianceOfLogLines(ls[1..]);
      FirstVarianceCons(ls);
      var rest := LogLines(ls[1..]);
      if ls[0] == "" {
        assert !HasVariance(ls[0]);
        assert LogLines(ls) == rest;
      } else {
        assert Ascii(ls[0]) == ls[0];
        var l := [ls[0]] + rest;
        assert LogLines(ls) == l;
        assert l[0] == ls[0] && l[1..] == rest;
        FirstVarianceCons(l);
      }
    }
  }

  lemma {:induction false} SplitLinesAscii(s: string)
    requires AsciiText(s)
    ensures forall i :: 0 <= i < |SplitLines(s)| ==> AsciiText(SplitLines(s)[i])
    decreases |s|
  {
    if |s| > 0 {
      var i := FirstBreak(s);
      if i < |s| {
        var skip := if s[i] == '\r' && i + 1 < |s| && s[i + 1] == '\n' then 2 else 1;
        SplitLinesAscii(s[i + skip..]);
      }
    }
  }

  /** For a log that did not bomb, written in ASCII, `parse_logfile` reads the
      same variance as `calc_variance`, `-1` standing for none. */
  lemma LogVarianceAgrees(out: string)
    requires AsciiText(out)
    requires !AnyBombs(LogOf(out))
    ensures LogStatus(out).Ok? <==> CalcVariance(out).Ok? && AllBlocksReadable(LogOf(out))
    ensures CalcVariance(out) == Ok(None) && AllBlocksReadable(LogOf(out)) ==> LogStatus(out).value.variance == -1
    ensures CalcVariance(out).Ok? && CalcVariance(out).value.Some? && AllBlocksReadable(LogOf(out)) ==>
              LogStatus(out).value.variance == CalcVariance(out).value.value
  {
    SplitLinesAscii(out);
    FirstVarianceOfLogLines(SplitLines(out));
  }
}
