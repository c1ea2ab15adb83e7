/** Decimal numerals: Python's `str(n)` for integers and `int(s)` for
    strings, the two conversions the event script performs. */
module Numerals {
  import opened Wrappers
  import opened Text

  predicate IsDigit(c: char) {
    '0' <= c <= '9'
  }

  predicate AllDigits(s: string) {
    forall i :: 0 <= i < |s| ==> IsDigit(s[i])
  }

  function DigitChar(d: nat): (c: char)
    requires d < 10
    ensures IsDigit(c)
  {
    ('0' as int + d) as char
  }

  function DigitValue(c: char): (d: nat)
    requires IsDigit(c)
    ensures d < 10 && DigitChar(d) == c
  {
    c as int - '0' as int
  }

  /** The number a string of decimal digits denotes, most significant first. */
  function DecimalValue(s: string): nat
    requires AllDigits(s)
  {
    if s == [] then 0 else 10 * DecimalValue(s[..|s| - 1]) + DigitValue(s[|s| - 1])
  }

  /** A numeral as `str` writes it: at least one digit, no leading zero. */
  predicate Canonical(s: string) {
    |s| >= 1 && AllDigits(s) && (s[0] == '0' ==> |s| == 1)
  }

  /** `str(n)` for a non-negative integer `n`. */
  function Decimal(n: nat): (r: string)
    ensures Canonical(r)
    ensures DecimalValue(r) == n
  {
    if n < 10 then [DigitChar(n)]
    else
      var r := Decimal(n / 10) + [DigitChar(n % 10)];
      assert r[..|r| - 1] == Decimal(n / 10);
      r
  }

  /** A numeral whose first digit is not zero denotes a positive number. */
  lemma {:induction false} LeadingDigitPositive(s: string)
    requires |s| >= 1 && AllDigits(s) && s[0] != '0'
    ensures DecimalValue(s) >= 1
  {
    if |s| > 1 {
      LeadingDigitPositive(s[..|s| - 1]);
    }
  }

  lemma ShiftDigit(a: nat, d: nat)
    requires d < 10
    ensures (10 * a + d) / 10 == a && (10 * a + d) % 10 == d
  {
  }

  /** `str` is onto the canonical numerals: each is `str` of its own value. */
  lemma {:induction false} DecimalOfValue(s: string)
    requires Canonical(s)
    ensures Decimal(DecimalValue(s)) == s
  {
    if |s| > 1 {
      var t, d := s[..|s| - 1], DigitValue(s[|s| - 1]);
      var v := DecimalValue(s);
      assert v == 10 * DecimalValue(t) + d;
      LeadingDigitPositive(t);
      assert v / 10 == DecimalValue(t) && v % 10 == d by {
        ShiftDigit(DecimalValue(t), d);
      }
      DecimalOfValue(t);
      assert Decimal(v) == Decimal(v / 10) + [DigitChar(v % 10)];
      assert s == t + [s[|s| - 1]];
    }
  }

  /** Digits with single underscores between them, as PEP 515 lets `int()` accept. */
  predicate DigitRun(b: string) {
    && |b| >= 1 && IsDigit(b[0]) && IsDigit(b[|b| - 1])
    && (forall i :: 0 <= i < |b| ==> IsDigit(b[i]) || b[i] == '_')
    && (forall i :: 0 <= i < |b| - 1 ==> IsDigit(b[i]) || IsDigit(b[i + 1]))
  }

  function WithoutUnderscores(b: string): (d: string)
    requires forall i :: 0 <= i < |b| ==> IsDigit(b[i]) || b[i] == '_'
    ensures AllDigits(d)
    ensures AllDigits(b) ==> d == b
  {
    if b == [] then []
    else
      assert forall i :: 0 <= i < |b| - 1 ==> b[1..][i] == b[i + 1];
      (if b[0] == '_' then [] else [b[0]]) + WithoutUnderscores(b[1..])
  }

  /** U+001C to U+001F, the four ASCII information separators: `str.isspace()`
      accepts them, but `int()` does not skip them. */
  predicate IsSeparator(c: char) {
    '\U{1C}' <= c <= '\U{1F}'
  }

  /** The whitespace `int()` skips around a number: ASCII space, tab and
      the line and page breaks, and every non-ASCII `isspace()` character. */
  predicate IsIntSpace(c: char) {
    IsSpace(c) && !IsSeparator(c)
  }

  predicate AllIntSpace(s: string) {
    forall i :: 0 <= i < |s| ==> IsIntSpace(s[i])
  }

  /** What `int()` is left with once it skips its whitespace at both ends. */
  function StripIntSpace(s: string): (r: string)
    ensures |r| <= |s|
    ensures r == [] <==> AllIntSpace(s)
    ensures r != [] ==> !IsIntSpace(r[0]) && !IsIntSpace(r[|r| - 1])
    decreases |s|
  {
    if s == [] then []
    else if IsIntSpace(s[0]) then
      assert AllIntSpace(s) <==> AllIntSpace(s[1..]) by {
        assert forall i :: 0 < i < |s| ==> s[i] == s[1..][i - 1];
      }
      StripIntSpace(s[1..])
    else if IsIntSpace(s[|s| - 1]) then
      assert AllIntSpace(s) <==> AllIntSpace(s[..|s| - 1]) by {
        assert forall i :: 0 <= i < |s| - 1 ==> s[i] == s[..|s| - 1][i];
      }
      StripIntSpace(s[..|s| - 1])
    else s
  }

  /** Without separators in the field, `int()` skips exactly what `str.strip()` removes. */
  lemma {:induction false} StripIntSpaceAgrees(s: string)
    requires forall k :: 0 <= k < |s| ==> !IsSeparator(s[k])
    ensures StripIntSpace(s) == Strip(s)
    decreases |s|
  {
    if s != [] {
      if IsSpace(s[0]) {
        StripIntSpaceAgrees(s[1..]);
      } else if IsSpace(s[|s| - 1]) {
        StripIntSpaceAgrees(s[..|s| - 1]);
      }
    }
  }

  /** A character that is not `int()` whitespace is never skipped. */
  lemma {:induction false} StripIntSpaceKeeps(s: string, c: char)
    requires c in s && !IsIntSpace(c)
    ensures c in StripIntSpace(s)
    decreases |s|
  {
    if IsIntSpace(s[0]) {
      assert c in s[1..] by { assert s == [s[0]] + s[1..]; }
      StripIntSpaceKeeps(s[1..], c);
    } else if IsIntSpace(s[|s| - 1]) {
      assert c in s[..|s| - 1] by { assert s == s[..|s| - 1] + [s[|s| - 1]]; }
      StripIntSpaceKeeps(s[..|s| - 1], c);
    }
  }

  /** Python's `int(s)` for a string: surrounding whitespace, an optional
      sign and a run of decimal digits; `None` where `int` raises. */
  function ParseInt(s: string): (r: Option<int>)
    ensures AllIntSpace(s) ==> r == None
  {
    var t := StripIntSpace(s);
    var signed := |t| > 0 && (t[0] == '+' || t[0] == '-');
    var body := if signed then t[1..] else t;
    if DigitRun(body) then
      var v: int := DecimalValue(WithoutUnderscores(body));
      var n := if signed && t[0] == '-' then -v else v;
      Some(n)
    else None
  }

  /** A separator anywhere in the field makes `int()` raise, although
      `str.isspace()` counts it as whitespace. */
  lemma SeparatorRejected(s: string, k: nat)
    requires k < |s| && IsSeparator(s[k])
    ensures ParseInt(s) == None
  {
    var c := s[k];
    var t := StripIntSpace(s);
    StripIntSpaceKeeps(s, c);
    var j :| 0 <= j < |t| && t[j] == c;
    var signed := |t| > 0 && (t[0] == '+' || t[0] == '-');
    var body := if signed then t[1..] else t;
    if signed {
      assert body[j - 1] == c;
    } else {
      assert body[j] == c;
    }
  }

  /** A plain run of digits reads as the number it denotes, leading zeros included. */
  lemma ParseIntDigits(d: string)
    requires |d| >= 1 && AllDigits(d)
    ensures ParseInt(d) == Some(DecimalValue(d))
  {
    assert !IsSpace(d[0]) && !IsSpace(d[|d| - 1]);
    StripUnpadded(d);
    StripIntSpaceAgrees(d);
  }

  /** `int(str(x)) == x` for every integer `x`. */
  lemma ParseIntOfStr(x: int)
    ensures ParseInt(if x < 0 then "-" + Decimal(-x) else Decimal(x)) == Some(x)
  {
    if x < 0 {
      var d := Decimal(-x);
      var s := "-" + d;
      assert !IsSpace(s[0]) && s[|s| - 1] == d[|d| - 1] && !IsSpace(s[|s| - 1]);
      StripUnpadded(s);
      StripIntSpaceAgrees(s);
      assert s[1..] == d;
    } else {
      ParseIntDigits(Decimal(x));
    }
  }

  /** `int()` raises on any character other than whitespace, a digit, a
      sign or an underscore. */
  lemma ParseIntCharset(s: string)
    requires ParseInt(s).Some?
    ensures forall k :: 0 <= k < |s| ==>
              IsSpace(s[k]) || IsDigit(s[k]) || s[k] == '+' || s[k] == '-' || s[k] == '_'
  {
    if k0 :| 0 <= k0 < |s| && IsSeparator(s[k0]) {
      SeparatorRejected(s, k0);
      assert false;
    }
    StripIntSpaceAgrees(s);
    var t := Strip(s);
    StripInfix(s);
    var i: nat :| StripsTo(s, t, i);
    forall k | 0 <= k < |s|
      ensures IsSpace(s[k]) || IsDigit(s[k]) || s[k] == '+' || s[k] == '-' || s[k] == '_'
    {
      if k < i {
        assert s[k] == s[..i][k];
      } else if k >= i + |t| {
        assert s[k] == s[i + |t|..][k - i - |t|];
      } else {
        assert s[k] == t[k - i];
        if k > i || !(t[0] == '+' || t[0] == '-') {
          var signed := |t| > 0 && (t[0] == '+' || t[0] == '-');
          var body := if signed then t[1..] else t;
          assert DigitRun(body);
          if signed {
            assert t[k - i] == body[k - i - 1];
          } else {
            assert t[k - i] == body[k - i];
          }
        }
      }
    }
  }
}
