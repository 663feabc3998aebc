/** Python `str` semantics used by the scriptfile and log handling: whitespace as
    `str.isspace` sees it, `strip()`, argument-less `split()`, `join` and `splitlines()`. */
module Text {

  /** The characters for which Python's `str.isspace()` is true. */
  predicate IsSpace(c: char) {
    || c == ' ' || c == '\t' || c == '\n' || c == '\r' || c == '\U{b}' || c == '\U{c}'
    || c == '\U{1c}' || c == '\U{1d}' || c == '\U{1e}' || c == '\U{1f}' || c == '\U{85}'
    || c == '\U{a0}' || c == '\U{1680}' || ('\U{2000}' <= c <= '\U{200a}') || c == '\U{2028}'
    || c == '\U{2029}' || c == '\U{202f}' || c == '\U{205f}' || c == '\U{3000}'
  }

  /** The characters `str.splitlines()` treats as line boundaries (`\r\n` counts once). */
  predicate IsLineBreak(c: char) {
    || c == '\n' || c == '\r' || c == '\U{b}' || c == '\U{c}' || c == '\U{1c}' || c == '\U{1d}'
    || c == '\U{1e}' || c == '\U{85}' || c == '\U{2028}' || c == '\U{2029}'
  }

  predicate NoSpace(s: string) {
    forall i :: 0 <= i < |s| ==> !IsSpace(s[i])
  }

  predicate NoLineBreak(s: string) {
    forall i :: 0 <= i < |s| ==> !IsLineBreak(s[i])
  }

  predicate StartsWith(s: string, p: string) {
    |p| <= |s| && s[..|p|] == p
  }

  // ---------------------------------------------------------------- strip

  /** Index of the first non-whitespace character of `s` at or after `k`, or `|s|`. */
  function Leading(s: string, k: nat): (n: nat)
    requires k <= |s|
    ensures k <= n <= |s|
    ensures forall i :: k <= i < n ==> IsSpace(s[i])
    ensures n < |s| ==> !IsSpace(s[n])
    decreases |s| - k
  {
    if k == |s| || !IsSpace(s[k]) then k else Leading(s, k + 1)
  }

  /** One past the last non-whitespace character of `s` before `k`, or `0`. */
  function Trailing(s: string, k: nat): (n: nat)
    requires k <= |s|
    ensures n <= k
    ensures forall i :: n <= i < k ==> IsSpace(s[i])
    ensures n > 0 ==> !IsSpace(s[n - 1])
    decreases k
  {
    if k == 0 || !IsSpace(s[k - 1]) then k else Trailing(s, k - 1)
  }

  function LStrip(s: string): (r: string)
    ensures |r| <= |s| && r == s[|s| - |r|..]
    ensures forall i :: 0 <= i < |s| - |r| ==> IsSpace(s[i])
    ensures |r| > 0 ==> !IsSpace(r[0])
  {
    s[Leading(s, 0)..]
  }

  function RStrip(s: string): (r: string)
    ensures |r| <= |s| && r == s[..|r|]
    ensures forall i :: |r| <= i < |s| ==> IsSpace(s[i])
    ensures |r| > 0 ==> !IsSpace(r[|r| - 1])
  {
    s[..Trailing(s, |s|)]
  }

  /** Python's `s.strip()`: the text with leading and trailing whitespace removed. */
  function Strip(s: string): (r: string)
    ensures |r| <= |s|
    ensures |r| > 0 ==> !IsSpace(r[0]) && !IsSpace(r[|r| - 1])
  {
    RStrip(LStrip(s))
  }

  /** A string already free of surrounding whitespace is its own strip. */
  lemma StripClean(s: string)
    requires |s| > 0 ==> !IsSpace(s[0]) && !IsSpace(s[|s| - 1])
    ensures Strip(s) == s
  {
  }

  /** Whitespace wrapped around clean text is exactly what strip removes. */
  lemma {:induction false} StripPadded(pre: string, s: string, post: string)
    requires forall i :: 0 <= i < |pre| ==> IsSpace(pre[i])
    requires forall i :: 0 <= i < |post| ==> IsSpace(post[i])
    requires |s| > 0 ==> !IsSpace(s[0]) && !IsSpace(s[|s| - 1])
    ensures Strip(pre + s + post) == s
  {
    assert pre + s + post == pre + (s + post);
    if |s| > 0 {
      LStripPadded(pre, s + post);
      assert LStrip(s + post) == s + post;
    } else {
      assert s + post == post;
      LStripPadded(pre + post, "");
      assert pre + post + "" == pre + s + post;
    }
    RStripPadded(s, post);
  }

  lemma {:induction false} LStripPadded(pre: string, s: string)
    requires forall i :: 0 <= i < |pre| ==> IsSpace(pre[i])
    requires |s| > 0 ==> !IsSpace(s[0])
    ensures LStrip(pre + s) == LStrip(s)
    decreases |pre|
  {
    if |pre| > 0 {
      assert (pre + s)[1..] == pre[1..] + s;
      LStripPadded(pre[1..], s);
    } else {
      assert pre + s == s;
    }
  }

  lemma {:induction false} RStripPadded(s: string, post: string)
    requires forall i :: 0 <= i < |post| ==> IsSpace(post[i])
    requires |s| > 0 ==> !IsSpace(s[|s| - 1])
    ensures RStrip(s + post) == s
    decreases |post|
  {
    if |post| > 0 {
      assert (s + post)[..|s + post| - 1] == s + post[..|post| - 1];
      RStripPadded(s, post[..|post| - 1]);
    } else {
      assert s + post == s;
      if |s| > 0 {
        assert !IsSpace(s[|s| - 1]);
      }
    }
  }

  // ---------------------------------------------------------------- split()

  /** The longest whitespace-free prefix of `s`. */
  function TakeWord(s: string): (w: string)
    ensures |w| <= |s| && w == s[..|w|]
    ensures NoSpace(w)
    ensures |w| < |s| ==> IsSpace(s[|w|])
  {
    if |s| == 0 || IsSpace(s[0]) then "" else [s[0]] + TakeWord(s[1..])
  }

  /** Python's argument-less `s.split()`: maximal runs of non-whitespace, in order. */
  function Words(s: string): (ws: seq<string>)
    ensures forall k :: 0 <= k < |ws| ==> |ws[k]| > 0 && NoSpace(ws[k])
    decreases |s|
  {
    if |s| == 0 then []
    else if IsSpace(s[0]) then Words(s[1..])
    else
      var w := TakeWord(s);
      [w] + Words(s[|w|..])
  }

  lemma {:induction false} TakeWordBeforeSpace(a: string, c: char, b: string)
    requires IsSpace(c)
    ensures TakeWord(a + [c] + b) == TakeWord(a)
    decreases |a|
  {
    if |a| > 0 && !IsSpace(a[0]) {
      assert (a + [c] + b)[1..] == a[1..] + [c] + b;
      TakeWordBeforeSpace(a[1..], c, b);
    }
  }

  /** One whitespace character separates the words on its two sides. */
  lemma {:induction false} WordsAroundSpace(a: string, c: char, b: string)
    requires IsSpace(c)
    ensures Words(a + [c] + b) == Words(a) + Words(b)
    decreases |a|
  {
    var s := a + [c] + b;
    if |a| == 0 {
      assert s == [c] + b;
      assert s[1..] == b;
    } else if IsSpace(a[0]) {
      assert s[1..] == a[1..] + [c] + b;
      WordsAroundSpace(a[1..], c, b);
    } else {
      TakeWordBeforeSpace(a, c, b);
      var w := TakeWord(a);
      assert s[|w|..] == a[|w|..] + [c] + b;
      WordsAroundSpace(a[|w|..], c, b);
    }
  }

  /** A non-empty whitespace-free string is one word. */
  lemma WordsOfWord(w: string)
    requires |w| > 0 && NoSpace(w)
    ensures Words(w) == [w]
  {
    assert TakeWord(w) == w by { TakeWordAll(w); }
    assert w[|w|..] == "";
  }

  lemma {:induction false} TakeWordAll(w: string)
    requires NoSpace(w)
    ensures TakeWord(w) == w
    decreases |w|
  {
    if |w| > 0 {
      TakeWordAll(w[1..]);
    }
  }

  // ---------------------------------------------------------------- join

  /** Python's `sep.join(xs)`. */
  function Join(xs: seq<string>, sep: string): (r: string)
    ensures |xs| == 1 ==> r == xs[0]
    ensures |xs| == 0 ==> r == ""
  {
    if |xs| == 0 then "" else if |xs| == 1 then xs[0] else xs[0] + sep + Join(xs[1..], sep)
  }

  /** Splitting a space-joined list of single words gives the list back. */
  lemma {:induction false} WordsOfJoin(xs: seq<string>)
    requires forall k :: 0 <= k < |xs| ==> |xs[k]| > 0 && NoSpace(xs[k])
    ensures Words(Join(xs, " ")) == xs
    decreases |xs|
  {
    if |xs| == 1 {
      WordsOfWord(xs[0]);
    } else if |xs| > 1 {
      assert Join(xs, " ") == xs[0] + [' '] + Join(xs[1..], " ");
      WordsAroundSpace(xs[0], ' ', Join(xs[1..], " "));
      WordsOfWord(xs[0]);
      WordsOfJoin(xs[1..]);
      assert xs == [xs[0]] + xs[1..];
    }
  }

  // ---------------------------------------------------------------- splitlines()

  /** Index of the first line boundary in `s`, or `|s|` when there is none. */
  function FirstBreak(s: string): (i: nat)
    ensures i <= |s|
    ensures forall j :: 0 <= j < i ==> !IsLineBreak(s[j])
    ensures i < |s| ==> IsLineBreak(s[i])
  {
    if |s| == 0 || IsLineBreak(s[0]) then 0 else 1 + FirstBreak(s[1..])
  }

  /** Python's `s.splitlines()` (line ends dropped, no trailing empty line). */
  function SplitLines(s: string): (ls: seq<string>)
    ensures forall k :: 0 <= k < |ls| ==> NoLineBreak(ls[k])
    ensures |s| > 0 <==> |ls| > 0
    decreases |s|
  {
    if |s| == 0 then []
    else
      var i := FirstBreak(s);
      if i == |s| then [s]
      else
        var skip := if s[i] == '\r' && i + 1 < |s| && s[i + 1] == '\n' then 2 else 1;
        [s[..i]] + SplitLines(s[i + skip..])
  }

  lemma FirstBreakOfClean(s: string, t: string)
    requires NoLineBreak(s)
    ensures FirstBreak(s + t) == |s| + FirstBreak(t)
  {
    if |s| > 0 {
      assert (s + t)[1..] == s[1..] + t;
      FirstBreakOfClean(s[1..], t);
    } else {
      assert s + t == t;
    }
  }

  /** Lines joined with `\n` split back into the same lines, provided none of them
      holds a line boundary and the last one is not empty. */
  lemma {:induction false} SplitLinesOfJoin(xs: seq<string>)
    requires forall k :: 0 <= k < |xs| ==> NoLineBreak(xs[k])
    requires |xs| > 0 ==> |xs[|xs| - 1]| > 0
    ensures SplitLines(Join(xs, "\n")) == xs
    decreases |xs|
  {
    if |xs| == 1 {
      SplitLinesOfLine(xs[0]);
    } else if |xs| > 1 {
      var rest := Join(xs[1..], "\n");
      assert Join(xs, "\n") == xs[0] + "\n" + rest;
      SplitLinesAfterBreak(xs[0], rest);
      SplitLinesOfJoin(xs[1..]);
      assert xs == [xs[0]] + xs[1..];
    }
  }

  /** A non-empty line without a boundary splits into itself. */
  lemma SplitLinesOfLine(a: string)
    requires NoLineBreak(a) && |a| > 0
    ensures SplitLines(a) == [a]
  {
    FirstBreakOfClean(a, "");
    assert a + "" == a;
  }

  /** A clean line ended by `\n` is the first line of what follows. */
  lemma SplitLinesAfterBreak(a: string, rest: string)
    requires NoLineBreak(a)
    ensures SplitLines(a + "\n" + rest) == [a] + SplitLines(rest)
  {
    var s := a + "\n" + rest;
    FirstBreakOfClean(a, "\n" + rest);
    assert s == a + ("\n" + rest);
    assert s[|a|] == '\n';
    assert s[..|a|] == a;
    assert s[|a| + 1..] == rest;
  }
}
