/** The string operations the source composes: `str.replace`, the digit
    filter `re.sub(r'[^\d]', '', s)` and `str.strip()`. */
module Text {
  import opened Digits

  /** Python's `s.replace(pat, rep)`: every non-overlapping occurrence of
      `pat`, scanning from the left, is replaced by `rep`. */
  function ReplaceAll(s: string, pat: string, rep: string): string
    requires |pat| > 0
    decreases |s|
  {
    if |s| < |pat| then s
    else if s[..|pat|] == pat then rep + ReplaceAll(s[|pat|..], pat, rep)
    else [s[0]] + ReplaceAll(s[1..], pat, rep)
  }

  /** `re.sub(r'[^\d]', '', s)` restricted to ASCII digits: keeps the digits
      of `s`, in order. */
  function KeepDigits(s: string): (r: string)
    ensures AllDigits(r)
    ensures |r| <= |s|
  {
    if |s| == 0 then ""
    else (if IsDigit(s[0]) then [s[0]] else "") + KeepDigits(s[1..])
  }

  /** The characters `str.isspace()` accepts (Unicode White_Space with
      bidirectional class WS, B or S, or category Zs). */
  predicate IsWhitespace(c: char) {
    || ('\U{0009}' <= c <= '\U{000D}') || ('\U{001C}' <= c <= '\U{0020}')
    || c == '\U{0085}' || c == '\U{00A0}' || c == '\U{1680}'
    || ('\U{2000}' <= c <= '\U{200A}') || c == '\U{2028}' || c == '\U{2029}'
    || c == '\U{202F}' || c == '\U{205F}' || c == '\U{3000}'
  }

  /** The number of whitespace characters `s` starts with. */
  function LeadingWhitespace(s: string): (k: nat)
    ensures k <= |s|
    ensures forall j :: 0 <= j < k ==> IsWhitespace(s[j])
    ensures k < |s| ==> !IsWhitespace(s[k])
  {
    if |s| == 0 then 0
    else
      var k := LeadingWhitespace(s[..|s| - 1]);
      if k == |s| - 1 && IsWhitespace(s[|s| - 1]) then |s| else k
  }

  function StripLeft(s: string): (r: string)
  {
    s[LeadingWhitespace(s)..]
  }

  function StripRight(s: string): (r: string)
    ensures |r| <= |s| && r == s[..|r|]
    ensures |r| == 0 || !IsWhitespace(r[|r| - 1])
  {
    if |s| > 0 && IsWhitespace(s[|s| - 1]) then StripRight(s[..|s| - 1]) else s
  }

  /** Python's `s.strip()`. */
  function Strip(s: string): string
  {
    StripRight(StripLeft(s))
  }

  // ---------------------------------------------------------------------
  // Facts about replacement

  /** Replacing every `c` by a text without `c` leaves no `c` behind. */
  lemma {:induction false} ReplaceRemoves(s: string, c: char, rep: string)
    requires c !in rep
    ensures c !in ReplaceAll(s, [c], rep)
    decreases |s|
  {
    if |s| >= 1 {
      ReplaceRemoves(s[1..], c, rep);
    }
  }

  /** A pattern whose first character never occurs is never replaced. */
  lemma {:induction false} ReplaceAbsent(s: string, pat: string, rep: string)
    requires |pat| > 0 && pat[0] !in s
    ensures ReplaceAll(s, pat, rep) == s
    decreases |s|
  {
    if |s| >= |pat| {
      assert s[..|pat|][0] == s[0];
      assert s[0] in s;
      ReplaceAbsent(s[1..], pat, rep);
      assert s == [s[0]] + s[1..];
    }
  }

  /** An occurrence at the very start is replaced and scanning resumes after it. */
  lemma {:induction false} ReplaceLeading(pat: string, s: string, rep: string)
    requires |pat| > 0
    ensures ReplaceAll(pat + s, pat, rep) == rep + ReplaceAll(s, pat, rep)
  {
    assert (pat + s)[..|pat|] == pat;
    assert (pat + s)[|pat|..] == s;
  }

  /** Replacing a single character distributes over concatenation. */
  lemma {:induction false} ReplaceCharConcat(a: string, b: string, c: char, rep: string)
    ensures ReplaceAll(a + b, [c], rep) == ReplaceAll(a, [c], rep) + ReplaceAll(b, [c], rep)
    decreases |a|
  {
    if |a| == 0 {
      assert a + b == b;
    } else {
      assert (a + b)[1..] == a[1..] + b;
      assert (a + b)[..1] == a[..1];
      assert (a + b)[0] == a[0];
      ReplaceCharConcat(a[1..], b, c, rep);
    }
  }

  /** Replacing a character that occurs only in the middle part touches
      nothing around it. */
  lemma {:induction false} ReplaceCharInside(head: string, middle: string, tail: string, c: char, rep: string)
    requires c !in head && c !in tail
    ensures ReplaceAll(head + middle + tail, [c], rep) == head + ReplaceAll(middle, [c], rep) + tail
  {
    ReplaceCharConcat(head + middle, tail, c, rep);
    ReplaceCharConcat(head, middle, c, rep);
    ReplaceAbsent(head, [c], rep);
    ReplaceAbsent(tail, [c], rep);
  }

  /** The one occurrence of a character is replaced, nothing else changes. */
  lemma {:induction false} ReplaceSingle(head: string, tail: string, c: char, rep: string)
    requires c !in head && c !in tail
    ensures ReplaceAll(head + [c] + tail, [c], rep) == head + rep + tail
  {
    ReplaceCharConcat(head + [c], tail, c, rep);
    ReplaceCharConcat(head, [c], c, rep);
    ReplaceAbsent(head, [c], rep);
    ReplaceAbsent(tail, [c], rep);
    assert ReplaceAll([c], [c], rep) == rep;
  }

  lemma {:induction false} KeepDigitsConcat(a: string, b: string)
    ensures KeepDigits(a + b) == KeepDigits(a) + KeepDigits(b)
    decreases |a|
  {
    if |a| == 0 {
      assert a + b == b;
    } else {
      var head := if IsDigit(a[0]) then [a[0]] else "";
      assert (a + b)[0] == a[0];
      assert (a + b)[1..] == a[1..] + b;
      KeepDigitsConcat(a[1..], b);
      calc {
        KeepDigits(a + b);
        head + KeepDigits(a[1..] + b);
        head + (KeepDigits(a[1..]) + KeepDigits(b));
        (head + KeepDigits(a[1..])) + KeepDigits(b);
        KeepDigits(a) + KeepDigits(b);
      }
    }
  }

  lemma {:induction false} KeepDigitsOfDigits(s: string)
    requires AllDigits(s)
    ensures KeepDigits(s) == s
    decreases |s|
  {
    if |s| > 0 {
      KeepDigitsOfDigits(s[1..]);
      assert s == [s[0]] + s[1..];
    }
  }

  /** Python's `"{:,}"` layout of the digit string `digits`, with `sep` for
      the comma: counted from the right, every fourth character is `sep` and
      every other one a digit, the text does not start with `sep`, and
      dropping the separators leaves `digits`. */
  predicate ThousandsLayout(g: string, sep: char, digits: string)
  {
    && |g| % 4 != 0
    && (forall i :: 0 <= i < |g| ==> if (|g| - i) % 4 == 0 then g[i] == sep else IsDigit(g[i]))
    && KeepDigits(g) == digits
  }

  /** `Grouped(n, sep)` is `str(n)` laid out in threes. */
  lemma {:induction false} GroupedLayout(n: nat, sep: char)
    requires !IsDigit(sep)
    ensures ThousandsLayout(Grouped(n, sep), sep, NatToString(n))
  {
    if n < 1000 {
      NatToStringDigits(n);
      assert Pow10(3) == 1000;
      NatToStringLength(n, 3);
      ShortLayout(NatToString(n), sep);
      assert Grouped(n, sep) == NatToString(n);
    } else {
      var hi, lo := Grouped(n / 1000, sep), ZeroFill(NatToString(n % 1000), 3);
      assert Grouped(n, sep) == hi + [sep] + lo;
      GroupedLayout(n / 1000, sep);
      assert Pow10(3) == 1000;
      PaddedDigits(n % 1000, 3);
      GroupStep(hi, sep, lo);
      ThousandsStep(hi, sep, lo);
      NatThousands(n);
    }
  }

  /** One to three digits are their own layout. */
  lemma {:induction false} ShortLayout(s: string, sep: char)
    requires AllDigits(s) && 1 <= |s| <= 3
    ensures ThousandsLayout(s, sep, s)
  {
    KeepDigitsOfDigits(s);
  }

  /** Appending a separator and a group of three digits keeps the layout. */
  lemma {:induction false} ThousandsStep(hi: string, sep: char, lo: string)
    requires |hi| % 4 != 0 && AllDigits(lo) && |lo| == 3
    requires forall i :: 0 <= i < |hi| ==> if (|hi| - i) % 4 == 0 then hi[i] == sep else IsDigit(hi[i])
    ensures var g := hi + [sep] + lo;
            && |g| % 4 != 0
            && forall i :: 0 <= i < |g| ==> if (|g| - i) % 4 == 0 then g[i] == sep else IsDigit(g[i])
  {
    var g := hi + [sep] + lo;
    forall i | 0 <= i < |g|
      ensures if (|g| - i) % 4 == 0 then g[i] == sep else IsDigit(g[i])
    {
      if i < |hi| {
        assert g[i] == hi[i];
        assert (|g| - i) % 4 == (|hi| - i) % 4;
      } else if i > |hi| {
        assert g[i] == lo[i - |hi| - 1];
      }
    }
  }

  /** `str(n)` splits into `str(n // 1000)` and the last three digits. */
  lemma {:induction false} NatThousands(n: nat)
    requires n >= 1000
    ensures NatToString(n) == NatToString(n / 1000) + ZeroFill(NatToString(n % 1000), 3)
  {
    var q, m := n / 1000, n % 1000;
    var hi, lo := NatToString(q), ZeroFill(NatToString(m), 3);
    NatToStringDigits(q);
    PaddedDigits(m, 3);
    assert Pow10(3) == 1000;
    ValueOfConcat(hi, lo);
    assert ValueOf(hi + lo) == q * 1000 + m == n;
    assert (hi + lo)[0] == hi[0] != '0';
    CanonicalDigits(hi + lo);
  }

  /** The thousands-grouped rendering starts with a digit and contains no
      character other than digits and the separator. */
  lemma {:induction false} GroupedShape(n: nat, sep: char, c: char)
    requires !IsDigit(sep) && !IsDigit(c) && c != sep
    ensures |Grouped(n, sep)| > 0 && IsDigit(Grouped(n, sep)[0])
    ensures c !in Grouped(n, sep)
    ensures ReplaceAll(Grouped(n, sep), [sep], "") == KeepDigits(Grouped(n, sep))
  {
    NatToStringDigits(n);
    if n < 1000 {
      KeepDigitsOfDigits(NatToString(n));
      DeleteAbsentDigits(NatToString(n), sep);
      assert c !in NatToString(n) by { DigitsAvoid(NatToString(n), c); }
    } else {
      var hi := Grouped(n / 1000, sep);
      var lo := ZeroFill(NatToString(n % 1000), 3);
      GroupedShape(n / 1000, sep, c);
      PaddedDigits(n % 1000, 3);
      DigitsAvoid(lo, c);
      var g := hi + [sep] + lo;
      assert g[0] == hi[0];
      ReplaceCharConcat(hi + [sep], lo, sep, "");
      ReplaceCharConcat(hi, [sep], sep, "");
      assert ReplaceAll([sep], [sep], "") == "";
      DeleteAbsentDigits(lo, sep);
      KeepDigitsConcat(hi + [sep], lo);
      KeepDigitsConcat(hi, [sep]);
      KeepDigitsOfDigits(lo);
      assert KeepDigits([sep]) == "";
    }
  }

  lemma {:induction false} DigitsAvoid(s: string, c: char)
    requires AllDigits(s) && !IsDigit(c)
    ensures c !in s
  {
  }

  lemma {:induction false} DeleteAbsentDigits(s: string, sep: char)
    requires AllDigits(s) && !IsDigit(sep)
    ensures ReplaceAll(s, [sep], "") == s
  {
    DigitsAvoid(s, sep);
    ReplaceAbsent(s, [sep], "");
  }

  /** The digits of the thousands-grouped rendering of n denote n. */
  lemma {:induction false} GroupedValue(n: nat, sep: char)
    requires !IsDigit(sep)
    ensures |KeepDigits(Grouped(n, sep))| > 0
    ensures ValueOf(KeepDigits(Grouped(n, sep))) == n
  {
    if n < 1000 {
      NatToStringDigits(n);
      KeepDigitsOfDigits(NatToString(n));
    } else {
      GroupedValue(n / 1000, sep);
      PaddedDigits(n % 1000, 3);
      var hi, lo := Grouped(n / 1000, sep), ZeroFill(NatToString(n % 1000), 3);
      GroupStep(hi, sep, lo);
      ValueOfConcat(KeepDigits(hi), lo);
      assert Pow10(3) == 1000;
    }
  }

  lemma {:induction false} GroupStep(hi: string, sep: char, lo: string)
    requires !IsDigit(sep) && AllDigits(lo)
    ensures KeepDigits(hi + [sep] + lo) == KeepDigits(hi) + lo
  {
    KeepDigitsConcat(hi + [sep], lo);
    KeepDigitsConcat(hi, [sep]);
    KeepDigitsOfDigits(lo);
    assert KeepDigits([sep]) == "" by { assert [sep][1..] == ""; }
    assert KeepDigits(hi + [sep]) == KeepDigits(hi);
  }

  lemma {:induction false} DropSuffix(a: string, b: string)
    ensures (a + b)[..|a|] == a
  {
  }

  lemma {:induction false} StripOfTrimmed(s: string)
    requires |s| > 0 && !IsWhitespace(s[0]) && !IsWhitespace(s[|s| - 1])
    ensures Strip(s) == s
  {
  }
}
