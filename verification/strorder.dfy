/** Python's ordering of `str` values (code point by code point, a proper prefix
    first) and `sorted()` of a set of strings. */
module StrOrder {

  predicate Less(a: string, b: string)
    decreases |a|
  {
    if |a| == 0 then |b| > 0
    else if |b| == 0 then false
    else if a[0] != b[0] then a[0] < b[0]
    else Less(a[1..], b[1..])
  }

  lemma {:induction false} LessIrreflexive(a: string)
    ensures !Less(a, a)
    decreases |a|
  {
    if |a| > 0 {
      LessIrreflexive(a[1..]);
    }
  }

  lemma {:induction false} LessTransitive(a: string, b: string, c: string)
    requires Less(a, b) && Less(b, c)
    ensures Less(a, c)
    decreases |a|
  {
    if |a| > 0 && a[0] == b[0] && b[0] == c[0] {
      LessTransitive(a[1..], b[1..], c[1..]);
    }
  }

  lemma {:induction false} LessTotal(a: string, b: string)
    ensures a == b || Less(a, b) || Less(b, a)
    decreases |a|
  {
    if |a| > 0 && |b| > 0 && a[0] == b[0] {
      LessTotal(a[1..], b[1..]);
      if a[1..] == b[1..] {
        assert a == [a[0]] + a[1..] && b == [b[0]] + b[1..];
      }
    }
  }

  /** Strictly increasing: what `sorted()` yields for the members of a set. */
  predicate Sorted(xs: seq<string>) {
    forall i, j :: 0 <= i < j < |xs| ==> Less(xs[i], xs[j])
  }

  predicate IsLeast(m: string, s: set<string>) {
    m in s && forall x :: x in s ==> !Less(x, m)
  }

  lemma {:induction false} LeastExists(s: set<string>)
    requires s != {}
    ensures exists m :: IsLeast(m, s)
    decreases |s|
  {
    var x :| x in s;
    if s == {x} {
      LessIrreflexive(x);
      assert IsLeast(x, s);
    } else {
      LeastExists(s - {x});
      var m :| IsLeast(m, s - {x});
      LessTotal(x, m);
      if Less(x, m) {
        forall y | y in s ensures !Less(y, x) {
          if y == x {
            LessIrreflexive(x);
          } else if Less(y, x) {
            LessTransitive(y, x, m);
          }
        }
        assert IsLeast(x, s);
      } else {
        assert IsLeast(m, s);
      }
    }
  }

  lemma LeastUnique(s: set<string>)
    ensures forall m, n :: IsLeast(m, s) && IsLeast(n, s) ==> m == n
  {
    forall m, n | IsLeast(m, s) && IsLeast(n, s) ensures m == n {
      LessTotal(m, n);
    }
  }

  /** Python's `sorted(s)` for a set of strings. */
  function Sort(s: set<string>): (r: seq<string>)
    ensures Sorted(r)
    ensures |r| == |s|
    ensures forall x :: x in r <==> x in s
    decreases |s|
  {
    if s == {} then []
    else
      LeastExists(s);
      LeastUnique(s);
      var m :| IsLeast(m, s);
      var rest := Sort(s - {m});
      assert forall j :: 0 <= j < |rest| ==> Less(m, rest[j]) by {
        forall j | 0 <= j < |rest| ensures Less(m, rest[j]) {
          assert rest[j] in rest;
          assert rest[j] in s - {m};
          LessTotal(m, rest[j]);
        }
      }
      [m] + rest
  }

  /** Two sets with the same sorted listing are the same set. */
  lemma SortInjective(s: set<string>, t: set<string>)
    requires Sort(s) == Sort(t)
    ensures s == t
  {
    forall x ensures x in s <==> x in t {
      assert x in s <==> x in Sort(s);
    }
  }

  /** A list cut at the first occurrence of a delimiter that neither head holds
      determines both its head and its tail. */
  lemma CutAtDelimiter<T>(xs: seq<T>, d: T, ys: seq<T>, xs': seq<T>, ys': seq<T>)
    requires d !in xs && d !in xs'
    requires xs + [d] + ys == xs' + [d] + ys'
    ensures xs == xs' && ys == ys'
  {
    var l := xs + [d] + ys;
    assert l[|xs|] == d;
    assert l[|xs'|] == d;
    assert forall k :: 0 <= k < |xs| ==> l[k] == xs[k];
    assert forall k :: 0 <= k < |xs'| ==> l[k] == xs'[k];
    assert |xs| == |xs'|;
    assert xs == l[..|xs|] == xs';
    assert ys == l[|xs| + 1..] == ys';
  }
}
