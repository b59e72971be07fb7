/**
 * The handful of PHP string primitives the command relies on: `strcmp`,
 * the decimal rendering of an `int`, the integer part of `is_numeric`,
 * `strtolower`, `substr($s, -n)` and the truthiness of a `?string`.
 */
module PhpStrings {
  import opened Wrappers

  /** `strcmp($a, $b)`: byte-wise lexicographic comparison, as -1, 0 or 1. */
  function Strcmp(a: string, b: string): (r: int)
    ensures -1 <= r <= 1
    ensures r == 0 <==> a == b
  {
    if |a| == 0 && |b| == 0 then 0
    else if |a| == 0 then -1
    else if |b| == 0 then 1
    else if a[0] < b[0] then -1
    else if a[0] > b[0] then 1
    else
      var r := Strcmp(a[1..], b[1..]);
      assert a == [a[0]] + a[1..] && b == [b[0]] + b[1..];
      r
  }

  /**
   * `a` comes before `b` at position `k`: the two agree on their first `k`
   * characters, and there `a` ends while `b` goes on, or `a` has the smaller
   * character.
   */
  predicate LexLessAt(a: string, b: string, k: nat)
  {
    && k <= |a| && k <= |b| && a[..k] == b[..k]
    && ((k == |a| && k < |b|) || (k < |a| && k < |b| && a[k] < b[k]))
  }

  /** `strcmp` is the lexicographic order: it is negative exactly when `a` comes before `b` somewhere. */
  lemma {:induction false} StrcmpLess(a: string, b: string)
    ensures Strcmp(a, b) < 0 <==> exists k: nat :: LexLessAt(a, b, k)
  {
    if |a| > 0 && |b| > 0 {
      if a[0] < b[0] {
        assert LexLessAt(a, b, 0);
      } else if a[0] > b[0] {
        forall k: nat | 0 < k <= |a| && k <= |b|
          ensures a[..k] != b[..k]
        {
          assert a[..k][0] != b[..k][0];
        }
      } else {
        var a', b' := a[1..], b[1..];
        StrcmpLess(a', b');
        if exists k: nat :: LexLessAt(a', b', k) {
          var k: nat :| LexLessAt(a', b', k);
          assert a[..k + 1] == [a[0]] + a'[..k] && b[..k + 1] == [b[0]] + b'[..k];
          assert LexLessAt(a, b, k + 1);
        }
        forall k: nat | LexLessAt(a, b, k)
          ensures LexLessAt(a', b', k - 1)
        {
          assert a'[..k - 1] == a[..k][1..] && b'[..k - 1] == b[..k][1..];
        }
      }
    } else if |b| > 0 {
      assert LexLessAt(a, b, 0);
    }
  }

  /** Swapping the operands of `strcmp` negates its result. */
  lemma {:induction false} StrcmpAntisymmetric(a: string, b: string)
    ensures Strcmp(a, b) == -Strcmp(b, a)
  {
    if |a| > 0 && |b| > 0 && a[0] == b[0] {
      StrcmpAntisymmetric(a[1..], b[1..]);
    }
  }

  /** `strcmp(...) <= 0` is a transitive relation. */
  lemma {:induction false} StrcmpTransitive(a: string, b: string, c: string)
    requires Strcmp(a, b) <= 0 && Strcmp(b, c) <= 0
    ensures Strcmp(a, c) <= 0
  {
    if |a| > 0 && |b| > 0 && |c| > 0 && a[0] == b[0] && b[0] == c[0] {
      StrcmpTransitive(a[1..], b[1..], c[1..]);
    }
  }

  predicate IsDigit(c: char) { '0' <= c <= '9' }

  predicate AllDigits(s: string) { forall i :: 0 <= i < |s| ==> IsDigit(s[i]) }

  function DigitChar(d: nat): (c: char)
    requires d < 10
    ensures IsDigit(c) && c as int - '0' as int == d
  {
    ('0' as int + d) as char
  }

  /** The decimal digits of `n`, most significant first, without leading zeros. */
  function NatToString(n: nat): (s: string)
    ensures |s| > 0 && AllDigits(s)
    ensures s[0] == '0' ==> n == 0
    ensures n < 10 <==> |s| == 1
    ensures n < 100 ==> |s| <= 2
  {
    if n < 10 then [DigitChar(n)]
    else NatToString(n / 10) + [DigitChar(n % 10)]
  }

  /** PHP's conversion of an `int` to `string`: a minus sign for negatives, then the digits. */
  function IntToString(i: int): (s: string)
    ensures |s| > 0
    ensures s[0] == '-' <==> i < 0
    ensures i < 0 ==> |s| > 1
    ensures AllDigits(if i < 0 then s[1..] else s)
    ensures (if i < 0 then s[1] else s[0]) == '0' ==> i == 0
  {
    if i < 0 then "-" + NatToString(-i) else NatToString(i)
  }

  /** The value of a string of decimal digits (leading zeros allowed). */
  function DigitsValue(s: string): nat
    requires AllDigits(s)
  {
    if |s| == 0 then 0
    else DigitsValue(s[..|s| - 1]) * 10 + (s[|s| - 1] as int - '0' as int)
  }

  lemma {:induction false} NatToStringRoundTrip(n: nat)
    ensures DigitsValue(NatToString(n)) == n
  {
    if n >= 10 {
      var s := NatToString(n);
      assert s[..|s| - 1] == NatToString(n / 10);
      NatToStringRoundTrip(n / 10);
    }
  }

  /** Leading zeros do not change the value of a digit string. */
  lemma {:induction false} LeadingZeroIgnored(s: string)
    requires AllDigits(s)
    ensures DigitsValue("0" + s) == DigitsValue(s)
  {
    if |s| > 0 {
      var t := "0" + s;
      assert t[..|t| - 1] == "0" + s[..|s| - 1];
      LeadingZeroIgnored(s[..|s| - 1]);
    }
  }

  /**
   * The part of `is_numeric` this model keeps: an optional sign followed by
   * one or more decimal digits.
   */
  function IsNumeric(s: string): (ok: bool)
    ensures ok ==> |s| > 0 && IsDigit(s[|s| - 1])
    ensures ok && !IsDigit(s[0]) ==> s[0] == '-' || s[0] == '+'
    ensures |s| > 0 && AllDigits(s) ==> ok
  {
    if |s| > 0 && (s[0] == '-' || s[0] == '+') then |s| > 1 && AllDigits(s[1..])
    else |s| > 0 && AllDigits(s)
  }

  /** The integer a numeric string denotes. */
  function NumericValue(s: string): (v: int)
    requires IsNumeric(s)
    ensures s[0] == '-' ==> v <= 0
    ensures s[0] != '-' ==> v >= 0
  {
    if s[0] == '-' then -(DigitsValue(s[1..]) as int)
    else if s[0] == '+' then DigitsValue(s[1..])
    else DigitsValue(s)
  }

  /** A digit string denotes a positive number exactly when some digit is not zero. */
  lemma {:induction false} DigitsValuePositive(s: string)
    requires AllDigits(s)
    ensures DigitsValue(s) > 0 <==> exists i :: 0 <= i < |s| && s[i] != '0'
  {
    if |s| > 0 {
      var p := s[..|s| - 1];
      DigitsValuePositive(p);
      if exists i :: 0 <= i < |p| && p[i] != '0' {
        var i :| 0 <= i < |p| && p[i] != '0';
        assert s[i] != '0';
      }
      if exists i :: 0 <= i < |s| && s[i] != '0' {
        var i :| 0 <= i < |s| && s[i] != '0';
        if i < |p| {
          assert p[i] != '0';
        }
      }
    }
  }

  /** A negative `int` renders as a minus sign and the digits of its magnitude. */
  lemma NegativeRoundTrip(i: int)
    requires i < 0
    ensures IsNumeric(IntToString(i)) && NumericValue(IntToString(i)) == i
  {
    var digits := NatToString(-i);
    var s := "-" + digits;
    assert s[0] == '-' && s[1..] == digits;
    assert IsNumeric(s);
    NatToStringRoundTrip(-i);
    assert NumericValue(s) == i;
  }

  /** Every rendered `int` is numeric and denotes that `int` again. */
  lemma IntToStringRoundTrip(i: int)
    ensures IsNumeric(IntToString(i))
    ensures NumericValue(IntToString(i)) == i
  {
    if i < 0 {
      NegativeRoundTrip(i);
    } else {
      NatToStringRoundTrip(i);
      assert IsDigit(IntToString(i)[0]);
    }
  }

  /** Two `int`s render to the same string only when they are equal. */
  lemma IntToStringInjective(i: int, j: int)
    requires IntToString(i) == IntToString(j)
    ensures i == j
  {
    IntToStringRoundTrip(i);
    IntToStringRoundTrip(j);
  }

  /** `strtolower` on one character (ASCII letters only). */
  function LowerChar(c: char): char
  {
    if 'A' <= c <= 'Z' then (c as int - 'A' as int + 'a' as int) as char else c
  }

  /** `strtoupper` on one character (ASCII letters only). */
  function UpperChar(c: char): char
  {
    if 'a' <= c <= 'z' then (c as int - 'a' as int + 'A' as int) as char else c
  }

  function ToLower(s: string): (r: string)
    ensures |r| == |s|
    ensures forall i :: 0 <= i < |s| ==> r[i] == LowerChar(s[i])
  {
    seq(|s|, i requires 0 <= i < |s| => LowerChar(s[i]))
  }

  function ToUpper(s: string): (r: string)
    ensures |r| == |s|
  {
    seq(|s|, i requires 0 <= i < |s| => UpperChar(s[i]))
  }

  /** Lower-casing ignores the case the string came in. */
  lemma ToLowerIgnoresCase(s: string)
    ensures ToLower(ToLower(s)) == ToLower(s)
    ensures ToLower(ToUpper(s)) == ToLower(s)
  {
  }

  /**
   * `substr($s, -n)`: the last `n` characters, or the whole string when it
   * is shorter than `n`.
   */
  function SubstrTail(s: string, n: nat): (r: string)
    ensures |r| == if |s| < n then |s| else n
    ensures r == s[|s| - |r|..]
  {
    if |s| >= n then s[|s| - n..] else s
  }

  /** PHP truthiness of a `?string`: null, "" and "0" are false. */
  function Truthy(s: Option<string>): (r: bool)
    ensures r ==> s.Some? && |s.value| > 0
    ensures s.Some? && |s.value| > 1 ==> r
    ensures s.Some? && |s.value| == 1 ==> (r <==> s.value[0] != '0')
  {
    s.Some? && s.value != "" && s.value != "0"
  }
}
