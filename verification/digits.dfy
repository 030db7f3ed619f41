/** ASCII digit strings and the natural numbers they denote: Python's
    `int(digit_string)`, `str(n)`, `str.zfill`, `str.lstrip('0')` and the
    thousands grouping of the `"{:,}"` format specifier. */
module Digits {

  predicate IsDigit(c: char) {
    '0' <= c <= '9'
  }

  predicate AllDigits(s: string) {
    forall i :: 0 <= i < |s| ==> IsDigit(s[i])
  }

  function DigitValue(c: char): nat
    requires IsDigit(c)
  {
    (c as int) - ('0' as int)
  }

  function DigitChar(d: nat): (c: char)
    requires d < 10
    ensures IsDigit(c) && DigitValue(c) == d
  {
    (('0' as int) + d) as char
  }

  function Pow10(n: nat): (p: nat)
    ensures p >= 1
  {
    if n == 0 then 1 else 10 * Pow10(n - 1)
  }

  /** The number a digit string denotes, most significant digit first
      (Python's `int(s)` on an ASCII digit string; the empty string denotes 0
      here, which the callers never rely on for `int`). */
  function ValueOf(s: string): nat
    requires AllDigits(s)
  {
    if |s| == 0 then 0 else ValueOf(s[..|s| - 1]) * 10 + DigitValue(s[|s| - 1])
  }

  /** Python's `str(n)` for a non-negative integer. */
  function NatToString(n: nat): string
  {
    if n < 10 then [DigitChar(n)] else NatToString(n / 10) + [DigitChar(n % 10)]
  }

  /** Python's `str(i)` for any integer. */
  function IntToString(i: int): string
  {
    if i < 0 then "-" + NatToString(-i) else NatToString(i)
  }

  /** A run of n '0' characters. */
  function Zeros(n: nat): (r: string)
    ensures |r| == n && forall i :: 0 <= i < n ==> r[i] == '0'
  {
    seq(n, _ => '0')
  }

  /** `s.zfill(width)` for a string without a sign: left-pad with '0'. */
  function ZeroFill(s: string, width: nat): (r: string)
    ensures |r| == if |s| >= width then |s| else width
  {
    if |s| >= width then s else Zeros(width - |s|) + s
  }

  /** `s.lstrip('0')`. */
  function StripLeadingZeros(s: string): (r: string)
    ensures |r| <= |s|
    ensures |r| == 0 || r[0] != '0'
  {
    if |s| > 0 && s[0] == '0' then StripLeadingZeros(s[1..]) else s
  }

  /** A non-negative integer rendered with `sep` between groups of three
      digits, counted from the right. */
  function Grouped(n: nat, sep: char): string
  {
    if n < 1000 then NatToString(n)
    else Grouped(n / 1000, sep) + [sep] + ZeroFill(NatToString(n % 1000), 3)
  }

  /** Python's `"{:,}".format(i).replace(",", ".")` for any integer: the sign,
      then the magnitude grouped in threes with '.'. */
  function IntWithSeparators(i: int): string
  {
    if i < 0 then "-" + Grouped(-i, '.') else Grouped(i, '.')
  }

  // ---------------------------------------------------------------------
  // Facts about digit strings

  lemma {:induction false} AllDigitsConcat(a: string, b: string)
    requires AllDigits(a) && AllDigits(b)
    ensures AllDigits(a + b)
  {
    forall i | 0 <= i < |a + b| ensures IsDigit((a + b)[i]) {
      if i < |a| { assert (a + b)[i] == a[i]; } else { assert (a + b)[i] == b[i - |a|]; }
    }
  }

  /** Cutting a digit string leaves two digit strings that rejoin to it. */
  lemma {:induction false} SplitDigits(s: string, k: nat)
    requires AllDigits(s) && k <= |s|
    ensures AllDigits(s[..k]) && AllDigits(s[k..])
    ensures s[..k] + s[k..] == s
  {
    assert forall i :: 0 <= i < |s[k..]| ==> s[k..][i] == s[k + i];
  }

  lemma {:induction false} ValueOfConcat(a: string, b: string)
    requires AllDigits(a) && AllDigits(b)
    ensures AllDigits(a + b)
    ensures ValueOf(a + b) == ValueOf(a) * Pow10(|b|) + ValueOf(b)
    decreases |b|
  {
    AllDigitsConcat(a, b);
    if |b| == 0 {
      assert a + b == a;
    } else {
      var b' := b[..|b| - 1];
      var d := DigitValue(b[|b| - 1]);
      AllDigitsConcat(a, b');
      assert ValueOf(a + b) == ValueOf(a + b') * 10 + d by {
        assert (a + b)[..|a + b| - 1] == a + b';
        assert (a + b)[|a + b| - 1] == b[|b| - 1];
      }
      ValueOfConcat(a, b');
      Distribute(ValueOf(a), Pow10(|b'|), ValueOf(b'), d);
    }
  }

  lemma {:induction false} Distribute(x: int, p: int, y: int, d: int)
    ensures (x * p + y) * 10 + d == x * (p * 10) + (y * 10 + d)
  {
  }

  lemma {:induction false} ValueOfBound(s: string)
    requires AllDigits(s)
    ensures ValueOf(s) < Pow10(|s|)
  {
    if |s| > 0 {
      ValueOfBound(s[..|s| - 1]);
    }
  }

  /** A digit string denotes zero exactly when every digit is '0'. */
  lemma {:induction false} ValueZeroIffAllZeros(s: string)
    requires AllDigits(s)
    ensures ValueOf(s) == 0 <==> forall i :: 0 <= i < |s| ==> s[i] == '0'
  {
    if |s| > 0 {
      var s' := s[..|s| - 1];
      ValueZeroIffAllZeros(s');
      if ValueOf(s) == 0 {
        forall i | 0 <= i < |s| ensures s[i] == '0' {
          if i < |s| - 1 { assert s[i] == s'[i]; }
        }
      }
    }
  }

  lemma {:induction false} NatToStringDigits(n: nat)
    ensures AllDigits(NatToString(n))
    ensures 1 <= |NatToString(n)|
    ensures ValueOf(NatToString(n)) == n
    ensures NatToString(n)[0] != '0' || n == 0
  {
    if n >= 10 {
      NatToStringDigits(n / 10);
      var s := NatToString(n / 10);
      assert NatToString(n)[..|NatToString(n)| - 1] == s;
      assert NatToString(n)[0] == s[0];
    }
  }

  /** `str(n)` is the only digit string without leading zeros denoting n. */
  lemma {:induction false} CanonicalDigits(s: string)
    requires AllDigits(s) && |s| > 0 && (s[0] != '0' || |s| == 1)
    ensures NatToString(ValueOf(s)) == s
  {
    if |s| > 1 {
      var s' := s[..|s| - 1];
      assert s'[0] == s[0];
      ValueZeroIffAllZeros(s');
      CanonicalDigits(s');
    }
  }

  /** Two digit strings of the same length denoting the same number are equal. */
  lemma {:induction false} DigitsInjective(a: string, b: string)
    requires AllDigits(a) && AllDigits(b) && |a| == |b|
    requires ValueOf(a) == ValueOf(b)
    ensures a == b
  {
    if |a| > 0 {
      var a', b' := a[..|a| - 1], b[..|b| - 1];
      var da, db := DigitValue(a[|a| - 1]), DigitValue(b[|b| - 1]);
      assert ValueOf(a) % 10 == da && ValueOf(a) / 10 == ValueOf(a');
      assert ValueOf(b) % 10 == db && ValueOf(b) / 10 == ValueOf(b');
      DigitsInjective(a', b');
      assert a == a' + [a[|a| - 1]] && b == b' + [b[|b| - 1]];
    }
  }

  /** A run of '0' characters is a digit string denoting zero. */
  lemma {:induction false} ZerosDigits(pad: string)
    requires forall i :: 0 <= i < |pad| ==> pad[i] == '0'
    ensures AllDigits(pad) && ValueOf(pad) == 0
  {
    ValueZeroIffAllZeros(pad);
  }

  /** Leading zeros change neither digit-ness nor value. */
  lemma {:induction false} LeadingZeros(pad: string, s: string)
    requires forall i :: 0 <= i < |pad| ==> pad[i] == '0'
    requires AllDigits(s)
    ensures AllDigits(pad + s) && ValueOf(pad + s) == ValueOf(s)
  {
    ZerosDigits(pad);
    ValueOfConcat(pad, s);
  }

  lemma {:induction false} ZeroFillDigits(s: string, width: nat)
    requires AllDigits(s)
    ensures AllDigits(ZeroFill(s, width))
    ensures ValueOf(ZeroFill(s, width)) == ValueOf(s)
  {
    if |s| < width {
      LeadingZeros(Zeros(width - |s|), s);
    }
  }

  lemma {:induction false} StripLeadingZerosDigits(s: string)
    requires AllDigits(s)
    ensures AllDigits(StripLeadingZeros(s))
    ensures ValueOf(StripLeadingZeros(s)) == ValueOf(s)
    ensures StripLeadingZeros(s) == "" <==> ValueOf(s) == 0
  {
    var r := StripLeadingZeros(s);
    StrippedValue(s);
    if r != "" {
      ValueZeroIffAllZeros(r);
      assert r[0] != '0';
    }
  }

  /** Dropping one leading zero at a time keeps the digits and the value. */
  lemma {:induction false} StrippedValue(s: string)
    requires AllDigits(s)
    ensures AllDigits(StripLeadingZeros(s))
    ensures ValueOf(StripLeadingZeros(s)) == ValueOf(s)
    decreases |s|
  {
    if |s| > 0 && s[0] == '0' {
      var t := s[1..];
      assert AllDigits(t) by {
        forall i | 0 <= i < |t| ensures IsDigit(t[i]) { assert t[i] == s[i + 1]; }
      }
      StrippedValue(t);
      assert s == "0" + t;
      assert ValueOf("0") == 0 by { assert "0"[..0] == ""; }
      ValueOfConcat("0", t);
    }
  }

  lemma {:induction false} NatToStringLength(n: nat, k: nat)
    requires 1 <= k && n < Pow10(k)
    ensures |NatToString(n)| <= k
  {
    if n >= 10 {
      NatToStringLength(n / 10, k - 1);
    }
  }

  /** A fixed-width zero-padded rendering denotes the number it renders. */
  lemma {:induction false} PaddedDigits(n: nat, width: nat)
    requires 1 <= width && n < Pow10(width)
    ensures AllDigits(ZeroFill(NatToString(n), width))
    ensures |ZeroFill(NatToString(n), width)| == width
    ensures ValueOf(ZeroFill(NatToString(n), width)) == n
  {
    NatToStringDigits(n);
    ZeroFillDigits(NatToString(n), width);
    NatToStringLength(n, width);
  }

}
