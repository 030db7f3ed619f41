/** `Decimal(text)`: the numeric-string grammar of Python's `decimal` module,
    restricted to finite values written with ASCII digits:

      [sign] (digits '.' [digits] | ['.'] digits) [('e' | 'E') [sign] digits]

    after surrounding whitespace is stripped. `None` stands for the
    InvalidOperation the constructor raises. */
module DecimalParse {
  import opened Wrappers
  import opened Digits
  import opened Text

  /** Position of the first `c` in `s`, or `|s|` when there is none. */
  function IndexOf(s: string, c: char): (i: nat)
    ensures i <= |s|
    ensures i < |s| ==> s[i] == c
    ensures forall j :: 0 <= j < i ==> s[j] != c
  {
    if |s| == 0 then 0
    else
      var i := IndexOf(s[..|s| - 1], c);
      if i < |s| - 1 || s[|s| - 1] == c then i else |s|
  }

  /** Position of the first exponent indicator, or `|s|`. */
  function IndexOfExponent(s: string): (i: nat)
    ensures i <= |s|
    ensures i < |s| ==> s[i] == 'e' || s[i] == 'E'
    ensures forall j :: 0 <= j < i ==> s[j] != 'e' && s[j] != 'E'
  {
    if |s| == 0 then 0
    else
      var i := IndexOfExponent(s[..|s| - 1]);
      if i < |s| - 1 || s[|s| - 1] == 'e' || s[|s| - 1] == 'E' then i else |s|
  }

  /** v × 10^e for any integer exponent. */
  function ScaleByExponent(v: real, e: int): real
  {
    if e >= 0 then v * (Pow10(e) as real) else v / (Pow10(-e) as real)
  }

  /** The value of an integer part and a fractional digit string. */
  function PointValue(ip: nat, frac: string): real
    requires AllDigits(frac)
  {
    (ip as real) + (ValueOf(frac) as real) / (Pow10(|frac|) as real)
  }

  /** `digits '.' [digits] | ['.'] digits`. */
  function ParseCoefficient(m: string): Option<real>
  {
    var dot := IndexOf(m, '.');
    var ip := m[..dot];
    var fp := if dot < |m| then m[dot + 1..] else "";
    if AllDigits(ip) && AllDigits(fp) && |ip| + |fp| > 0 then Some(PointValue(ValueOf(ip), fp))
    else None
  }

  /** `[sign] digits`. */
  function ParseExponent(e: string): Option<int>
  {
    var digits := Unsigned(e);
    if |digits| > 0 && AllDigits(digits) then
      Some(if HasMinus(e) then -(ValueOf(digits) as int) else ValueOf(digits))
    else None
  }

  /** A coefficient with an optional exponent part. */
  function ParseUnsigned(body: string): Option<real>
  {
    var e := IndexOfExponent(body);
    match ParseCoefficient(body[..e])
    case None => None
    case Some(c) =>
      if e == |body| then Some(c)
      else match ParseExponent(body[e + 1..])
        case None => None
        case Some(x) => Some(ScaleByExponent(c, x))
  }

  /** `Decimal(s)` for a finite numeric string; `None` where Python raises. */
  function ParseDecimal(s: string): (r: Option<real>)
    ensures r.Some? ==> ContainsDigit(s)
  {
    ReadNeedsDigit(s);
    ParseTrimmed(Strip(s))
  }

  predicate ContainsDigit(s: string) {
    exists i :: 0 <= i < |s| && IsDigit(s[i])
  }

  /** Whatever the constructor reads, it read at least one digit of the
      text: every branch of the grammar needs one. */
  lemma {:induction false} ReadNeedsDigit(s: string)
    ensures ParseTrimmed(Strip(s)).Some? ==> ContainsDigit(s)
  {
    var k := StripSlice(s);
    TrimmedNeedsDigit(Strip(s));
    DigitWithin(s, k, k + |Strip(s)|);
  }

  /** The stripped text is a slice of the text. */
  lemma {:induction false} StripSlice(s: string) returns (k: nat)
    ensures k + |Strip(s)| <= |s| && Strip(s) == s[k..k + |Strip(s)|]
  {
    k := LeadingWhitespace(s);
    var t := Strip(s);
    assert t == StripRight(s[k..]);
    assert t == s[k..][..|t|];
  }

  lemma {:induction false} TrimmedNeedsDigit(t: string)
    ensures ParseTrimmed(t).Some? ==> ContainsDigit(t)
  {
    UnsignedNeedsDigit(Unsigned(t));
    if |t| > 0 && (t[0] == '+' || t[0] == '-') {
      assert Unsigned(t) == t[1..|t|];
      DigitWithin(t, 1, |t|);
    }
  }

  lemma {:induction false} UnsignedNeedsDigit(body: string)
    ensures ParseUnsigned(body).Some? ==> ContainsDigit(body)
  {
    var e := IndexOfExponent(body);
    if ParseCoefficient(body[..e]).Some? {
      CoefficientNeedsDigit(body[..e]);
      DigitWithin(body, 0, e);
    }
  }

  lemma {:induction false} CoefficientNeedsDigit(m: string)
    requires ParseCoefficient(m).Some?
    ensures ContainsDigit(m)
  {
    var dot := IndexOf(m, '.');
    var ip := m[..dot];
    if |ip| > 0 {
      assert IsDigit(ip[0]) && ip[0] == m[0];
    } else {
      var fp := m[dot + 1..];
      assert IsDigit(fp[0]) && fp[0] == m[dot + 1];
    }
  }

  /** A digit of a slice is a digit of the whole. */
  lemma {:induction false} DigitWithin(s: string, lo: nat, hi: nat)
    requires lo <= hi <= |s|
    ensures ContainsDigit(s[lo..hi]) ==> ContainsDigit(s)
  {
    if ContainsDigit(s[lo..hi]) {
      var i :| 0 <= i < hi - lo && IsDigit(s[lo..hi][i]);
      assert s[lo + i] == s[lo..hi][i];
    }
  }

  /** A numeric string without surrounding whitespace. */
  function ParseTrimmed(t: string): Option<real>
  {
    match ParseUnsigned(Unsigned(t))
    case None => None
    case Some(v) => Some(Signed(HasMinus(t), v))
  }

  /** Whether `t` carries a leading '-'. */
  predicate HasMinus(t: string) {
    |t| > 0 && t[0] == '-'
  }

  /** `t` without its leading sign, if it has one. */
  function Unsigned(t: string): (r: string)
    ensures |r| <= |t|
  {
    if |t| > 0 && (t[0] == '+' || t[0] == '-') then t[1..] else t
  }

  /** The sign prefix of a fixed-point rendering. */
  function SignText(negative: bool): string
  {
    if negative then "-" else ""
  }

  function Signed(negative: bool, v: real): real
  {
    if negative then -v else v
  }

  // ---------------------------------------------------------------------
  // What the parser reads from a fixed-point rendering

  /** A sign followed by a body that begins and ends with a digit: the
      parser strips nothing and applies the sign to the body's value. */
  lemma {:induction false} ParseSignedBody(negative: bool, body: string, v: real)
    requires |body| > 0 && IsDigit(body[0]) && IsDigit(body[|body| - 1])
    requires ParseUnsigned(body) == Some(v)
    ensures ParseDecimal(SignText(negative) + body) == Some(Signed(negative, v))
  {
    StripSigned(negative, body);
    ParseTrimmedSigned(negative, body, v);
  }

  /** A sign and a body ending in a digit carry no surrounding whitespace. */
  lemma {:induction false} StripSigned(negative: bool, body: string)
    requires |body| > 0 && IsDigit(body[0]) && IsDigit(body[|body| - 1])
    ensures Strip(SignText(negative) + body) == SignText(negative) + body
  {
    var s := SignText(negative) + body;
    assert s[0] == if negative then '-' else body[0];
    assert s[|s| - 1] == body[|body| - 1];
    StripOfTrimmed(s);
  }

  lemma {:induction false} ParseTrimmedSigned(negative: bool, body: string, v: real)
    requires |body| > 0 && IsDigit(body[0])
    requires ParseUnsigned(body) == Some(v)
    ensures ParseTrimmed(SignText(negative) + body) == Some(Signed(negative, v))
  {
    SignedParts(negative, body);
  }

  /** The sign in front of a digit is read off and removed. */
  lemma {:induction false} SignedParts(negative: bool, body: string)
    requires |body| > 0 && IsDigit(body[0])
    ensures HasMinus(SignText(negative) + body) == negative
    ensures Unsigned(SignText(negative) + body) == body
  {
    var s := SignText(negative) + body;
    if negative {
      assert s[0] == '-' && s[1..] == body;
    } else {
      assert s == body;
    }
  }

  /** A plain integer rendering `[-]D` parses to its value. */
  lemma {:induction false} ParseInteger(negative: bool, ip: string)
    requires AllDigits(ip) && |ip| > 0
    ensures ParseDecimal(SignText(negative) + ip) == Some(Signed(negative, ValueOf(ip) as real))
  {
    NoIndicators(ip);
    NoChar(ip, '.');
    assert ip[..|ip|] == ip;
    assert ParseCoefficient(ip) == Some(PointValue(ValueOf(ip), ""));
    assert ParseUnsigned(ip) == Some(ValueOf(ip) as real);
    ParseSignedBody(negative, ip, ValueOf(ip) as real);
  }

  lemma {:induction false} ParseUnsignedPointed(ip: string, fp: string)
    requires AllDigits(ip) && |ip| > 0 && AllDigits(fp)
    ensures ParseUnsigned(ip + "." + fp) == Some(PointValue(ValueOf(ip), fp))
  {
    var body := ip + "." + fp;
    assert IndexOf(body, '.') == |ip| by {
      assert body[|ip|] == '.';
      assert forall j :: 0 <= j < |ip| ==> body[j] == ip[j];
    }
    assert body[..|ip|] == ip && body[|ip| + 1..] == fp;
    assert IndexOfExponent(body) == |body| by {
      forall j | 0 <= j < |body| ensures body[j] != 'e' && body[j] != 'E' {
        if j < |ip| { assert body[j] == ip[j]; }
        else if j > |ip| { assert body[j] == fp[j - |ip| - 1]; }
      }
    }
    assert body[..|body|] == body;
  }

  /** A rendering `[-]D.F` parses to `D + F / 10^|F|`, signed. */
  lemma {:induction false} ParsePointed(negative: bool, ip: string, fp: string)
    requires AllDigits(ip) && |ip| > 0 && AllDigits(fp) && |fp| > 0
    ensures ParseDecimal(SignText(negative) + (ip + "." + fp))
            == Some(Signed(negative, PointValue(ValueOf(ip), fp)))
  {
    var body := ip + "." + fp;
    ParseUnsignedPointed(ip, fp);
    assert body[0] == ip[0] && body[|body| - 1] == fp[|fp| - 1];
    ParseSignedBody(negative, body, PointValue(ValueOf(ip), fp));
  }

  /** A rendering `[-]D.CC` parses to its count of hundredths over 100. */
  lemma {:induction false} ParseCents(negative: bool, ip: string, c: string, v: real)
    requires AllDigits(ip) && |ip| > 0 && AllDigits(c) && |c| == 2
    requires v == ((ValueOf(ip) * 100 + ValueOf(c)) as real) / 100.0
    ensures ParseDecimal(SignText(negative) + (ip + "." + c)) == Some(Signed(negative, v))
  {
    HundredthsValue(ValueOf(ip), c, v);
    ParsePointed(negative, ip, c);
  }

  lemma {:induction false} HundredthsValue(ip: nat, c: string, v: real)
    requires AllDigits(c) && |c| == 2
    requires v == ((ip * 100 + ValueOf(c)) as real) / 100.0
    ensures PointValue(ip, c) == v
  {
    assert Pow10(|c|) == 100;
  }

  lemma {:induction false} NoChar(s: string, c: char)
    requires AllDigits(s) && !IsDigit(c)
    ensures IndexOf(s, c) == |s|
  {
  }

  lemma {:induction false} NoIndicators(s: string)
    requires AllDigits(s)
    ensures IndexOfExponent(s) == |s|
  {
  }
}
