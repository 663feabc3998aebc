/** Substring search and Python's `s.split(sep)` with an explicit separator. */
module Find {
  import opened Text

  /** `m` occurs in `s` starting at index `i`. */
  predicate OccursAt(m: string, s: string, i: int) {
    0 <= i && i + |m| <= |s| && s[i..i + |m|] == m
  }

  /** Python's `m in s`. */
  predicate Occurs(m: string, s: string) {
    exists i :: 0 <= i <= |s| - |m| && OccursAt(m, s, i)
  }

  /** Index of the leftmost occurrence of `m` in `s` at or after `k`, or `-1`. */
  function IndexFrom(s: string, m: string, k: nat): (i: int)
    requires k <= |s|
    ensures i == -1 || (k <= i && OccursAt(m, s, i))
    ensures forall j :: k <= j && (i == -1 || j < i) ==> !OccursAt(m, s, j)
    decreases |s| - k
  {
    if k + |m| > |s| then -1
    else if s[k..k + |m|] == m then k
    else IndexFrom(s, m, k + 1)
  }

  /** Python's `s.find(m)`. */
  function Index(s: string, m: string): (i: int)
    ensures i == -1 <==> !Occurs(m, s)
    ensures i != -1 ==> OccursAt(m, s, i) && forall j :: 0 <= j < i ==> !OccursAt(m, s, j)
  {
    IndexFrom(s, m, 0)
  }

  /** Python's `s.split(m)` for a non-empty separator: the pieces between the
      leftmost non-overlapping occurrences of `m`. */
  function Split(s: string, m: string): (parts: seq<string>)
    requires |m| > 0
    ensures |parts| >= 1
    decreases |s|
  {
    var i := Index(s, m);
    if i == -1 then [s] else [s[..i]] + Split(s[i + |m|..], m)
  }

  /** A separator whose first character does not come back later in it; such a
      separator cannot overlap itself (all the scriptfile markers start with their
      only `%`). */
  predicate Unbordered(m: string) {
    |m| > 0 && forall j :: 1 <= j < |m| ==> m[j] != m[0]
  }

  /** `a, b = s.split(m)` succeeds exactly when `m` occurs once, and then `s` is
      `a + m + b` with `m` in neither part. */
  lemma SplitTwo(s: string, m: string, a: string, b: string)
    requires |m| > 0
    requires Split(s, m) == [a, b]
    ensures s == a + m + b
    ensures !Occurs(m, a) && !Occurs(m, b)
  {
    var i := Index(s, m);
    var rest := Split(s[i + |m|..], m);
    assert Split(s, m) == [s[..i]] + rest;
    assert a == s[..i] && rest == [b] by {
      assert ([s[..i]] + rest)[0] == s[..i];
      assert rest == ([s[..i]] + rest)[1..];
    }
    assert b == s[i + |m|..];
    assert s == a + m + b by {
      assert s[i..i + |m|] == m;
      assert s == s[..i] + s[i..i + |m|] + s[i + |m|..];
    }
    NoneBefore(s, m, i);
  }

  /** No occurrence of `m` starts before `i`, so `s[..i]` does not contain `m`. */
  lemma NoneBefore(s: string, m: string, i: int)
    requires |m| > 0 && 0 <= i <= |s|
    requires forall j :: 0 <= j < i ==> !OccursAt(m, s, j)
    ensures !Occurs(m, s[..i])
  {
    forall j | 0 <= j <= i - |m| ensures !OccursAt(m, s[..i], j) {
      assert s[..i][j..j + |m|] == s[j..j + |m|];
      assert !OccursAt(m, s, j);
    }
  }

  /** Gluing an unbordered separator between two pieces free of it gives a text
      that `split` cuts back into the same two pieces. */
  lemma SplitGlued(a: string, m: string, b: string)
    requires Unbordered(m)
    requires !Occurs(m, a) && !Occurs(m, b)
    ensures Split(a + m + b, m) == [a, b]
  {
    var s := a + m + b;
    assert OccursAt(m, s, |a|) by { assert s[|a|..|a| + |m|] == m; }
    forall j | 0 <= j < |a| ensures !OccursAt(m, s, j) {
      if j + |m| <= |a| {
        assert a[j..j + |m|] == s[j..j + |m|];
        assert !OccursAt(m, a, j);
      } else {
        var d := |a| - j;
        assert s[j + d] == m[0];
        assert m[d] != m[0];
        assert s[j..j + |m|][d] != m[d];
      }
    }
    assert Index(s, m) == |a|;
    assert s[..|a|] == a;
    assert s[|a| + |m|..] == b;
  }

  lemma NoOccurrenceInSuffix(m: string, s: string, k: nat)
    requires k <= |s| && !Occurs(m, s)
    ensures !Occurs(m, s[k..])
  {
    forall j | 0 <= j <= |s[k..]| - |m| ensures !OccursAt(m, s[k..], j) {
      assert s[k..][j..j + |m|] == s[k + j..k + j + |m|];
      assert !OccursAt(m, s, k + j);
    }
  }

  lemma NoOccurrenceInPrefix(m: string, s: string, k: nat)
    requires k <= |s| && !Occurs(m, s)
    ensures !Occurs(m, s[..k])
  {
    forall j | 0 <= j <= k - |m| ensures !OccursAt(m, s[..k], j) {
      assert s[..k][j..j + |m|] == s[j..j + |m|];
      assert !OccursAt(m, s, j);
    }
  }

  /** A pattern without the character `c`, found in `x + [c] + y`, lies wholly in
      `x` or in `y`. */
  lemma NoOccurrenceAcross(m: string, x: string, c: char, y: string)
    requires forall k :: 0 <= k < |m| ==> m[k] != c
    requires !Occurs(m, x) && !Occurs(m, y)
    ensures !Occurs(m, x + [c] + y)
  {
    var s := x + [c] + y;
    forall j | 0 <= j <= |s| - |m| ensures !OccursAt(m, s, j) {
      if j + |m| <= |x| {
        assert x[j..j + |m|] == s[j..j + |m|];
        assert !OccursAt(m, x, j);
      } else if j > |x| {
        assert y[j - |x| - 1..j - |x| - 1 + |m|] == s[j..j + |m|];
        assert !OccursAt(m, y, j - |x| - 1);
      } else {
        assert s[|x|] == c;
        assert s[j..j + |m|][|x| - j] != m[|x| - j];
      }
    }
  }

  /** An unbordered separator written at the very front of `y` is the only
      occurrence there when `y` itself has none. */
  lemma SplitAtFront(m: string, y: string)
    requires Unbordered(m) && !Occurs(m, y)
    ensures Split(m + y, m) == ["", y]
  {
    SplitGlued("", m, y);
    assert "" + m + y == m + y;
  }

  /** `m` does not occur where its first character does not. */
  lemma NoOccurrenceWithoutFirst(m: string, s: string)
    requires |m| > 0 && forall k :: 0 <= k < |s| ==> s[k] != m[0]
    ensures !Occurs(m, s)
  {
    forall i | 0 <= i <= |s| - |m| ensures !OccursAt(m, s, i) {
      assert s[i] != m[0];
    }
  }

  lemma NoOccurrenceInEmpty(m: string)
    requires |m| > 0
    ensures !Occurs(m, "")
  {
  }

  /** Joining pieces free of a pattern with a character the pattern lacks keeps it out. */
  lemma {:induction false} NoOccurrenceInJoin(m: string, xs: seq<string>, c: char)
    requires |m| > 0
    requires forall k :: 0 <= k < |m| ==> m[k] != c
    requires forall k :: 0 <= k < |xs| ==> !Occurs(m, xs[k])
    ensures !Occurs(m, Join(xs, [c]))
    decreases |xs|
  {
    if |xs| > 1 {
      NoOccurrenceInJoin(m, xs[1..], c);
      NoOccurrenceAcross(m, xs[0], c, Join(xs[1..], [c]));
    }
  }
}
