/** Decimal integers as Python writes them with `str(i)` and reads them back
    with `int(s)`. */
module Numerals {
  import opened Wrappers
  import opened Text

  predicate IsDigit(c: char) {
    '0' <= c <= '9'
  }

  predicate AllDigits(s: string) {
    forall i :: 0 <= i < |s| ==> IsDigit(s[i])
  }

  function DigitChar(d: nat): (c: char)
    requires d < 10
    ensures IsDigit(c) && c as int - '0' as int == d
  {
    (48 + d) as char
  }

  /** `str(n)` for a natural number: no sign, no leading zero. */
  function NatToString(n: nat): (r: string)
    ensures |r| > 0 && AllDigits(r)
    ensures |r| > 1 ==> r[0] != '0'
    decreases n
  {
    if n < 10 then [DigitChar(n)] else NatToString(n / 10) + [DigitChar(n % 10)]
  }

  /** `str(i)` for any integer: a leading `-` only for negative values. */
  function IntToString(i: int): (r: string)
    ensures |r| > 0
    ensures (r[0] == '-') <==> i < 0
    ensures i >= 0 ==> AllDigits(r)
    ensures i < 0 ==> AllDigits(r[1..])
  {
    if i < 0 then "-" + NatToString(-i) else NatToString(i)
  }

  /** The value of a string of decimal digits. */
  function DigitsValue(s: string): (v: nat)
    requires AllDigits(s)
    ensures |s| == 0 ==> v == 0
  {
    if |s| == 0 then 0 else DigitsValue(s[..|s| - 1]) * 10 + (s[|s| - 1] as int - 48)
  }

  /** The digits of a literal as `int` accepts them: ASCII digits, where a single
      `_` may separate two digits. */
  predicate DigitGroups(s: string)
    decreases |s|
  {
    |s| > 0 && IsDigit(s[0]) &&
    (|s| == 1 || if s[1] == '_' then DigitGroups(s[2..]) else DigitGroups(s[1..]))
  }

  /** The value of the digits of `s`, its `_` separators skipped. */
  function GroupsValue(s: string): (v: nat)
  {
    if |s| == 0 then 0
    else if s[|s| - 1] == '_' then GroupsValue(s[..|s| - 1])
    else GroupsValue(s[..|s| - 1]) * 10 + (if IsDigit(s[|s| - 1]) then s[|s| - 1] as int - 48 else 0)
  }

  /** Without separators the value is that of the digits. */
  lemma {:induction false} GroupsValueOfDigits(s: string)
    requires AllDigits(s)
    ensures GroupsValue(s) == DigitsValue(s)
    decreases |s|
  {
    if |s| > 0 {
      GroupsValueOfDigits(s[..|s| - 1]);
    }
  }

  /** A run of digits is one group. */
  lemma {:induction false} DigitsAreGroups(s: string)
    requires |s| > 0 && AllDigits(s)
    ensures DigitGroups(s)
    decreases |s|
  {
    if |s| > 1 {
      assert IsDigit(s[1]);
      DigitsAreGroups(s[1..]);
    }
  }

  /** The part of a stripped literal after its optional sign. */
  function Unsigned(t: string): (body: string)
  {
    if |t| > 0 && (t[0] == '-' || t[0] == '+') then t[1..] else t
  }

  /** Python's `int(s)` in base 10: surrounding whitespace is ignored, then an
      optional sign, then ASCII digits with single `_` separators between them;
      anything else raises `ValueError`. */
  function PyInt(s: string): (r: Result<int>)
    ensures r.Ok? <==> DigitGroups(Unsigned(Strip(s)))
    ensures r.Err? ==> r.error.ValueError?
  {
    var t := Strip(s);
    var negative := |t| > 0 && t[0] == '-';
    var body := Unsigned(t);
    if DigitGroups(body) then
      var v: int := GroupsValue(body);
      Ok(if negative then -v else v)
    else
      Err(ValueError("invalid literal for int() with base 10: '" + s + "'"))
  }

  /** An unsigned literal without surrounding whitespace is read exactly when
      its digit groups are well formed, as the value of its digits. */
  lemma PyIntOfPlain(s: string)
    requires |s| > 0 && IsDigit(s[0]) && IsDigit(s[|s| - 1])
    ensures PyInt(s).Ok? <==> DigitGroups(s)
    ensures DigitGroups(s) ==> PyInt(s) == Ok(GroupsValue(s))
  {
    StripClean(s);
    assert Unsigned(s) == s;
  }

  lemma OneZeroGroups()
    ensures DigitGroups("1_0") && GroupsValue("1_0") == 10
  {
    var s := "1_0";
    assert s[1] == '_' && s[2..] == "0";
    assert DigitGroups("0");
    assert s[..2] == "1_" && "1_"[..1] == "1" && "1"[..0] == "";
    assert GroupsValue("1") == 1;
    assert GroupsValue("1_") == 1;
  }

  /** A separator between digits is dropped: `int("1_0") == 10`. */
  lemma SeparatorDropped()
    ensures PyInt("1_0") == Ok(10)
  {
    PyIntOfPlain("1_0");
    OneZeroGroups();
  }

  /** Two separators in a row raise: `int("1__0")`. */
  lemma DoubleSeparatorRaises()
    ensures PyInt("1__0").Err?
  {
    var s := "1__0";
    PyIntOfPlain(s);
    assert s[1] == '_' && s[2..] == "_0";
    assert !DigitGroups("_0");
  }

  /** A separator at either end raises. */
  lemma EdgeSeparatorRaises()
    ensures PyInt("_1").Err? && PyInt("1_").Err?
  {
    StripClean("_1");
    assert Unsigned("_1") == "_1";
    StripClean("1_");
    assert Unsigned("1_") == "1_";
  }

  lemma {:induction false} DigitsValueOfNat(n: nat)
    ensures DigitsValue(NatToString(n)) == n
    decreases n
  {
    if n >= 10 {
      var r := NatToString(n);
      assert r[..|r| - 1] == NatToString(n / 10);
      DigitsValueOfNat(n / 10);
    }
  }

  /** `int(str(i)) == i` for every integer. */
  lemma IntToStringRoundTrip(i: int)
    ensures PyInt(IntToString(i)) == Ok(i)
  {
    if i < 0 {
      NegativeRoundTrip(-i);
    } else {
      NatRoundTrip(i);
    }
  }

  lemma NatRoundTrip(n: nat)
    ensures PyInt(IntToString(n)) == Ok(n)
  {
    DigitsValueOfNat(n);
    PyIntDigits(NatToString(n));
  }

  lemma NegativeRoundTrip(n: nat)
    requires n > 0
    ensures PyInt(IntToString(-(n as int))) == Ok(-(n as int))
  {
    assert IntToString(-(n as int)) == "-" + NatToString(n);
    DigitsValueOfNat(n);
    PyIntNegative(NatToString(n));
  }

  /** A plain run of digits reads as its value. */
  lemma PyIntDigits(d: string)
    requires |d| > 0 && AllDigits(d)
    ensures PyInt(d) == Ok(DigitsValue(d))
  {
    assert !IsSpace(d[0]) && !IsSpace(d[|d| - 1]);
    StripClean(d);
    assert Unsigned(d) == d;
    DigitsAreGroups(d);
    GroupsValueOfDigits(d);
  }

  /** A minus sign before a run of digits negates its value. */
  lemma PyIntNegative(d: string)
    requires |d| > 0 && AllDigits(d)
    ensures PyInt("-" + d) == Ok(-(DigitsValue(d) as int))
  {
    var r := "-" + d;
    assert !IsSpace(r[0]) && r[|r| - 1] == d[|d| - 1] && !IsSpace(d[|d| - 1]);
    StripClean(r);
    assert r[0] == '-' && r[1..] == d;
    SignedValue(r, d);
  }

  lemma SignedValue(r: string, d: string)
    requires Strip(r) == r && |r| > 0 && r[0] == '-' && r[1..] == d && |d| > 0 && AllDigits(d)
    ensures PyInt(r) == Ok(-(DigitsValue(d) as int))
  {
    assert Unsigned(r) == d;
    DigitsAreGroups(d);
    GroupsValueOfDigits(d);
  }

  /** Distinct integers print differently. */
  lemma IntToStringInjective(i: int, j: int)
    requires IntToString(i) == IntToString(j)
    ensures i == j
  {
    IntToStringRoundTrip(i);
    IntToStringRoundTrip(j);
  }
}
