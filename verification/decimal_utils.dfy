/** The decimal arithmetic core: floor truncation to a fixed number of
    decimal places, the guarded conversion to Decimal, and the Brazilian
    currency and percentage renderings. */
module DecimalUtils {
  import opened Wrappers
  import opened Digits
  import opened Text
  import opened PyValues
  import opened DecimalParse
  import opened RealFacts

  /** 10^n as a real. */
  function Scale(n: nat): (p: real)
    ensures p >= 1.0
  {
    Pow10(n) as real
  }

  /** The two scales the source truncates to. */
  lemma {:induction false} ScaleValues()
    ensures Scale(2) == 100.0 && Scale(4) == 10000.0
  {
    assert Pow10(2) == 100 && Pow10(4) == 10000;
  }

  /** x·p is a whole number: x is a multiple of 1/p. */
  predicate IsMultiple(x: real, p: real) {
    (x * p).Floor as real == x * p
  }

  /** x is a whole multiple of 10^-n, i.e. has at most n decimal places. */
  predicate OnGrid(x: real, n: nat) {
    IsMultiple(x, Scale(n))
  }

  function Abs(x: real): real {
    if x < 0.0 then -x else x
  }

  // ---------------------------------------------------------------------
  // Truncation

  /** The largest multiple of 1/p not above x. */
  function FloorTo(x: real, p: real): real
    requires p > 0.0
  {
    ((x * p).Floor as real) / p
  }

  lemma {:induction false} FloorToBounds(x: real, p: real)
    requires p > 0.0
    ensures IsMultiple(FloorTo(x, p), p)
    ensures FloorTo(x, p) <= x < FloorTo(x, p) + 1.0 / p
  {
    var f := (x * p).Floor;
    var t := FloorTo(x, p);
    assert t * p == f as real by { MulDivCancel(f as real, p); }
    assert IsMultiple(t, p) by { FloorOfInt(f); }
    assert f as real <= x * p < f as real + 1.0 by { FloorBounds(x * p); }
    assert t <= x by {
      DivLe(f as real, x * p, p);
      MulDivCancel(x, p);
    }
    assert x < t + 1.0 / p by {
      DivLt(x * p, f as real + 1.0, p);
      MulDivCancel(x, p);
      DivAdd(f as real, 1.0, p);
    }
  }

  lemma {:induction false} FloorToUnique(x: real, p: real, t: real)
    requires p > 0.0 && IsMultiple(t, p) && t <= x < t + 1.0 / p
    ensures t == FloorTo(x, p)
  {
    var a := (t * p).Floor;
    assert a as real <= x * p by { MulLe(t, x, p); }
    assert x * p < a as real + 1.0 by {
      MulLt(x, t + 1.0 / p, p);
      MulAdd(t, 1.0 / p, p);
      MulDivCancel(1.0, p);
    }
    FloorChar(x * p, a);
    MulDivCancel(t, p);
  }

  lemma {:induction false} FloorToMonotone(x: real, y: real, p: real)
    requires p > 0.0 && x <= y
    ensures FloorTo(x, p) <= FloorTo(y, p)
  {
    MulLe(x, y, p);
    FloorMono(x * p, y * p);
    CastLe((x * p).Floor, (y * p).Floor);
    DivLe((x * p).Floor as real, (y * p).Floor as real, p);
  }

  lemma {:induction false} IsMultipleAdd(a: real, b: real, p: real)
    requires IsMultiple(a, p) && IsMultiple(b, p)
    ensures IsMultiple(a + b, p)
  {
    var fa, fb := (a * p).Floor, (b * p).Floor;
    MulAdd(a, b, p);
    CastAdd(fa, fb);
    FloorOfInt(fa + fb);
  }

  /** A multiple of 1/p is a multiple of 1/(p·k). */
  lemma {:induction false} IsMultipleFiner(x: real, p: real, k: int)
    requires IsMultiple(x, p)
    ensures IsMultiple(x, p * (k as real))
  {
    var f := (x * p).Floor;
    assert x * (p * (k as real)) == (f * k) as real by {
      MulAssoc(x, p, k as real);
      CastMul(f, k);
    }
    FloorOfInt(f * k);
  }

  /** `value.quantize(Decimal(10^-n), rounding=ROUND_FLOOR)`: the largest
      multiple of 10^-n that does not exceed x (a floor toward -infinity,
      also for negative x). */
  function TruncateTo(x: real, n: nat): (t: real)
    ensures OnGrid(t, n)
    ensures t <= x < t + 1.0 / Scale(n)
  {
    FloorToBounds(x, Scale(n));
    FloorTo(x, Scale(n))
  }

  /** The truncation is the only grid point within one step below x. */
  lemma {:induction false} TruncateUnique(x: real, n: nat, t: real)
    requires OnGrid(t, n) && t <= x < t + 1.0 / Scale(n)
    ensures t == TruncateTo(x, n)
  {
    FloorToUnique(x, Scale(n), t);
  }

  /** A value already on the grid is left unchanged, and only such values are. */
  lemma {:induction false} TruncateFixesGrid(x: real, n: nat)
    ensures TruncateTo(x, n) == x <==> OnGrid(x, n)
  {
    if OnGrid(x, n) {
      TruncateUnique(x, n, x);
    }
  }

  lemma {:induction false} TruncateIdempotent(x: real, n: nat)
    ensures TruncateTo(TruncateTo(x, n), n) == TruncateTo(x, n)
  {
    TruncateFixesGrid(TruncateTo(x, n), n);
  }

  lemma {:induction false} TruncateMonotone(x: real, y: real, n: nat)
    requires x <= y
    ensures TruncateTo(x, n) <= TruncateTo(y, n)
  {
    FloorToMonotone(x, y, Scale(n));
  }

  /** Grid points are closed under addition. */
  lemma {:induction false} OnGridAdd(a: real, b: real, n: nat)
    requires OnGrid(a, n) && OnGrid(b, n)
    ensures OnGrid(a + b, n)
  {
    IsMultipleAdd(a, b, Scale(n));
  }

  /** A value with at most 2 decimals has at most 4. */
  lemma {:induction false} OnGridCoarser(x: real)
    requires OnGrid(x, 2)
    ensures OnGrid(x, 4)
  {
    ScaleValues();
    IsMultipleFiner(x, 100.0, 100);
  }

  /** `truncate_at_4_decimals`: None passes through, a Decimal is floored to
      4 places, anything else raises TypeError naming its type. */
  function TruncateAt4Decimals(v: PyValue): (r: Result<Option<real>, Error>)
    ensures v.PyNone? <==> r == Ok(None)
    ensures v.PyDecimal? <==> (r.Ok? && r.value.Some?)
    ensures v.PyDecimal? ==>
              var t := r.value.value; OnGrid(t, 4) && t <= v.d < t + 0.0001
    ensures !v.PyNone? && !v.PyDecimal? ==>
              r == Err(ExpectedDecimal(TypeName(v))) && r.error.Kind() == TypeError
  {
    match v
    case PyNone => Ok(None)
    case PyDecimal(d) => Ok(Some(TruncateTo(d, 4)))
    case _ => Err(ExpectedDecimal(TypeName(v)))
  }

  /** `truncate_at_2_decimals`: the same, floored to cents. */
  function TruncateAt2Decimals(v: PyValue): (r: Result<Option<real>, Error>)
    ensures v.PyNone? <==> r == Ok(None)
    ensures v.PyDecimal? <==> (r.Ok? && r.value.Some?)
    ensures v.PyDecimal? ==>
              var t := r.value.value; OnGrid(t, 2) && t <= v.d < t + 0.01
    ensures !v.PyNone? && !v.PyDecimal? ==>
              r == Err(ExpectedDecimal(TypeName(v))) && r.error.Kind() == TypeError
  {
    match v
    case PyNone => Ok(None)
    case PyDecimal(d) => Ok(Some(TruncateTo(d, 2)))
    case _ => Err(ExpectedDecimal(TypeName(v)))
  }

  /** Feeding a truncator its own result changes nothing. */
  lemma {:induction false} TruncatorsIdempotent(x: real)
    ensures TruncateAt4Decimals(PyDecimal(TruncateAt4Decimals(PyDecimal(x)).value.value))
            == TruncateAt4Decimals(PyDecimal(x))
    ensures TruncateAt2Decimals(PyDecimal(TruncateAt2Decimals(PyDecimal(x)).value.value))
            == TruncateAt2Decimals(PyDecimal(x))
  {
    TruncateIdempotent(x, 4);
    TruncateIdempotent(x, 2);
  }

  // ---------------------------------------------------------------------
  // Conversion

  /** `ensure_decimal`: Decimal unchanged, str parsed (ValueError when it is
      not a number), int (and bool, an int subclass) converted exactly,
      float and every other type refused with TypeError. */
  function EnsureDecimal(v: PyValue): (r: Result<real, Error>)
    ensures v.PyDecimal? ==> r == Ok(v.d)
    ensures v.PyInt? ==> r == Ok(v.i as real)
    ensures v.PyBool? ==> r == Ok(if v.b then 1.0 else 0.0)
    ensures v.PyStr? ==> (r.Ok? <==> ParseDecimal(v.text).Some?)
    ensures v.PyStr? && r.Ok? ==> ParseDecimal(v.text) == Some(r.value)
    ensures v.PyStr? && r.Err? ==> r.error == InvalidDecimalString(v.text)
    ensures v.PyFloat? ==> r == Err(FloatRejected(v.repr))
    ensures r.Err? ==> (r.error.Kind() == ValueError <==> v.PyStr?)
    ensures r.Err? && !v.PyStr? && !v.PyFloat? ==> r.error == UnsupportedType(TypeName(v))
  {
    match v
    case PyDecimal(d) => Ok(d)
    case PyStr(s) =>
      (match ParseDecimal(s)
       case Some(d) => Ok(d)
       case None => Err(InvalidDecimalString(s)))
    case PyInt(i) => Ok(i as real)
    case PyBool(b) => Ok(if b then 1.0 else 0.0)
    case PyFloat(f) => Err(FloatRejected(f))
    case _ => Err(UnsupportedType(TypeName(v)))
  }

  /** Converting an already converted value gives the same value back. */
  lemma {:induction false} EnsureDecimalIdempotent(v: PyValue)
    requires EnsureDecimal(v).Ok?
    ensures EnsureDecimal(PyDecimal(EnsureDecimal(v).value)) == EnsureDecimal(v)
  {
  }

  // ---------------------------------------------------------------------
  // Fixed-point rendering (`f"{value:.{d}f}"` on a Decimal)

  /** A non-negative real rounded to an integer, ties to even (the decimal
      context's default rounding, which `:.{d}f` applies). */
  function RoundHalfEven(y: real): (n: nat)
    requires y >= 0.0
    ensures -0.5 <= (n as real) - y <= 0.5
    ensures ((n as real) - y == 0.5 || y - (n as real) == 0.5) ==> n % 2 == 0
  {
    var f := y.Floor;
    var frac := y - (f as real);
    if frac < 0.5 then f
    else if frac > 0.5 then f + 1
    else if f % 2 == 0 then f
    else f + 1
  }

  /** The digits `:.{d}f` prints for x, as one integer (|x|·10^d, rounded). */
  function FixedDigits(x: real, d: nat): nat
  {
    RoundHalfEven(Abs(x) * Scale(d))
  }

  /** The digits of n padded with zeros to at least d + 1. */
  function PaddedText(n: nat, d: nat): string
  {
    ZeroFill(NatToString(n), d + 1)
  }

  /** The digits before the point: all but the last d of the padded text. */
  function IntDigits(n: nat, d: nat): string
  {
    var s := PaddedText(n, d);
    s[..|s| - d]
  }

  /** The last d digits of the padded text. */
  function FracDigits(n: nat, d: nat): string
  {
    var s := PaddedText(n, d);
    s[|s| - d..]
  }

  /** The unsigned text for n·10^-d, as the decimal module lays it out:
      the digits of n padded with zeros to at least d + 1, and a point
      before the last d of them when d > 0. */
  function FixedBody(n: nat, d: nat): string
  {
    if d == 0 then PaddedText(n, d) else IntDigits(n, d) + "." + FracDigits(n, d)
  }

  /** The two parts are digit strings, the integer part never empty and the
      fraction exactly d long. */
  lemma {:induction false} FixedPartsShape(n: nat, d: nat)
    ensures AllDigits(IntDigits(n, d)) && |IntDigits(n, d)| >= 1
    ensures AllDigits(FracDigits(n, d)) && |FracDigits(n, d)| == d
  {
    var s := PaddedText(n, d);
    NatToStringDigits(n);
    ZeroFillDigits(NatToString(n), d + 1);
    SplitDigits(s, |s| - d);
  }

  /** Together the two parts denote n. */
  lemma {:induction false} FixedParts(n: nat, d: nat)
    ensures AllDigits(IntDigits(n, d)) && |IntDigits(n, d)| >= 1
    ensures AllDigits(FracDigits(n, d)) && |FracDigits(n, d)| == d
    ensures ValueOf(IntDigits(n, d)) * Pow10(d) + ValueOf(FracDigits(n, d)) == n
  {
    var s := PaddedText(n, d);
    FixedPartsShape(n, d);
    PaddedValue(n, d);
    assert IntDigits(n, d) + FracDigits(n, d) == s;
    ValueOfConcat(IntDigits(n, d), FracDigits(n, d));
  }

  /** The padded text is a digit string denoting n. */
  lemma {:induction false} PaddedValue(n: nat, d: nat)
    ensures AllDigits(PaddedText(n, d)) && ValueOf(PaddedText(n, d)) == n
  {
    NatToStringDigits(n);
    ZeroFillDigits(NatToString(n), d + 1);
  }

  /** `f"{x:.{d}f}"`: the sign of x (kept even when the digits round to
      zero), then the rounded magnitude. */
  function FormatFixed(x: real, d: nat): string
  {
    SignText(x < 0.0) + FixedBody(FixedDigits(x, d), d)
  }

  /** The number FormatFixed(x, d) shows. */
  function RoundedValue(x: real, d: nat): real
  {
    Signed(x < 0.0, (FixedDigits(x, d) as real) / Scale(d))
  }

  /** Rounding moves a value by at most half a step of the grid. */
  lemma {:induction false} RoundedValueClose(x: real, d: nat)
    ensures OnGrid(RoundedValue(x, d), d)
    ensures Abs(RoundedValue(x, d) - x) <= 0.5 / Scale(d)
  {
    var p := Scale(d);
    var n := FixedDigits(x, d);
    QuotientOnGrid(n, p);
    CloseDivided(n as real, Abs(x), p);
  }

  /** n/p and its negation are multiples of 1/p. */
  lemma {:induction false} QuotientOnGrid(n: int, p: real)
    requires p > 0.0
    ensures IsMultiple((n as real) / p, p) && IsMultiple(-((n as real) / p), p)
  {
    MulDivCancel(n as real, p);
    FloorOfInt(n);
    MulNeg((n as real) / p, p);
    FloorOfInt(-n);
  }

  /** A distance of at most ½ in scaled space is at most ½/p unscaled. */
  lemma {:induction false} CloseDivided(a: real, y: real, p: real)
    requires p > 0.0 && -0.5 <= a - y * p <= 0.5
    ensures -(0.5 / p) <= a / p - y <= 0.5 / p
  {
    DivLe(-0.5, a - y * p, p);
    DivLe(a - y * p, 0.5, p);
    DivAdd(a, -(y * p), p);
    DivNeg(y * p, p);
    DivNeg(0.5, p);
    MulDivCancel(y, p);
  }

  /** On the grid, the rendering shows the value exactly. */
  lemma {:induction false} RoundedValueOnGrid(x: real, d: nat)
    requires OnGrid(x, d)
    ensures RoundedValue(x, d) == x
  {
    RoundOnGrid(x, Scale(d), FixedDigits(x, d));
  }

  /** Rounding |x|·p to the nearest integer loses nothing when x is a
      multiple of 1/p. */
  lemma {:induction false} RoundOnGrid(x: real, p: real, n: nat)
    requires p > 0.0 && IsMultiple(x, p)
    requires -0.5 <= (n as real) - Abs(x) * p <= 0.5
    ensures Signed(x < 0.0, (n as real) / p) == x
  {
    var k := (x * p).Floor;
    if x < 0.0 {
      MulNeg(x, p);
      CastClose(n, -k);
      MulDivCancel(-x, p);
    } else {
      CastClose(n, k);
      MulDivCancel(x, p);
    }
  }

  /** What the text `[-]FixedBody(n, d)` denotes. */
  lemma {:induction false} FixedBodyValue(negative: bool, n: nat, d: nat)
    ensures ParseDecimal(SignText(negative) + FixedBody(n, d))
            == Some(Signed(negative, (n as real) / Scale(d)))
  {
    if d == 0 {
      FixedIntegerValue(negative, n);
    } else {
      FixedPointedValue(negative, n, d);
    }
  }

  lemma {:induction false} FixedIntegerValue(negative: bool, n: nat)
    ensures ParseDecimal(SignText(negative) + FixedBody(n, 0))
            == Some(Signed(negative, (n as real) / Scale(0)))
  {
    var ip := IntDigits(n, 0);
    UnpointedBody(n);
    ParseInteger(negative, ip);
    WholeScale(n, ValueOf(ip));
  }

  /** With no places, the body is the integer digits, and they spell n. */
  lemma {:induction false} UnpointedBody(n: nat)
    ensures FixedBody(n, 0) == IntDigits(n, 0)
    ensures AllDigits(IntDigits(n, 0)) && |IntDigits(n, 0)| > 0
    ensures ValueOf(IntDigits(n, 0)) == n
  {
    FixedParts(n, 0);
    assert FracDigits(n, 0) == "";
  }

  lemma {:induction false} WholeScale(n: nat, m: nat)
    requires m == n
    ensures (n as real) / Scale(0) == m as real
  {
  }

  lemma {:induction false} FixedPointedValue(negative: bool, n: nat, d: nat)
    requires d > 0
    ensures ParseDecimal(SignText(negative) + FixedBody(n, d))
            == Some(Signed(negative, (n as real) / Scale(d)))
  {
    FixedParts(n, d);
    var ip, fp := IntDigits(n, d), FracDigits(n, d);
    assert PointValue(ValueOf(ip), fp) == (n as real) / Scale(d) by {
      SplitValue(ValueOf(ip), ValueOf(fp), Pow10(d));
    }
    ParsePointed(negative, ip, fp);
  }

  lemma {:induction false} SplitValue(q: nat, r: nat, p: nat)
    requires p >= 1
    ensures (q as real) + (r as real) / (p as real) == ((q * p + r) as real) / (p as real)
  {
    assert ((q * p) as real) == (q as real) * (p as real);
    DivAdd((q * p) as real, r as real, p as real);
    MulDivCancel(q as real, p as real);
  }

  /** Reading back `f"{x:.{d}f}"` gives the rounded value of x. */
  lemma {:induction false} FormatFixedRoundTrip(x: real, d: nat)
    ensures ParseDecimal(FormatFixed(x, d)) == Some(RoundedValue(x, d))
  {
    FixedBodyValue(x < 0.0, FixedDigits(x, d), d);
  }

  // ---------------------------------------------------------------------
  // Brazilian renderings

  /** The two cent digits of a rendering whose rounded digits are n. */
  function Cents(n: nat): string
  {
    ZeroFill(NatToString(n % 100), 2)
  }

  /** The Decimal n cents make: n/100. */
  function FromCents(n: int): real
  {
    (n as real) / 100.0
  }

  /** Rounded to cents, x is its rounded cent digits with its sign. */
  lemma {:induction false} RoundedCents(x: real)
    ensures RoundedValue(x, 2) == Signed(x < 0.0, FromCents(FixedDigits(x, 2)))
  {
    ScaleValues();
  }

  /** `format_brazilian_currency` as written: None gives "R$ 0,00";
      otherwise `f"{x:.2f}"` is split at the point, the integer part goes
      through `int()` (which turns "-0" into 0) and is grouped in threes
      with '.', and the two fraction digits follow a comma. */
  function FormatBrazilianCurrency(v: Option<real>): (r: string)
    ensures v.None? ==> r == "R$ 0,00"
    ensures |r| >= 6 && r[..3] == "R$ " && r[|r| - 3] == ',' && AllDigits(r[|r| - 2..])
    ensures v.Some? ==> ValueOf(r[|r| - 2..]) == FixedDigits(v.value, 2) % 100
    ensures v.Some? ==> ThousandsLayout(IntegerPartOf(r), '.', NatToString(FixedDigits(v.value, 2) / 100))
    ensures v.Some? ==> (r[3] == '-' <==> v.value < 0.0 && FixedDigits(v.value, 2) >= 100)
    ensures v.Some? ==>
              (r == FormatBrazilianCurrencySigned(v) <==> !(v.value < 0.0 && 0 < FixedDigits(v.value, 2) < 100))
  {
    match v
    case None => CurrencyLayout("0", 0); "R$ 0,00"
    case Some(x) =>
      var n := FixedDigits(x, 2);
      AsWrittenHead(x < 0.0, n);
      RenderingLayout(x < 0.0 && n >= 100, n);
      CurrencyTextsAgreement(x < 0.0, n);
      CurrencyAsWritten(x < 0.0, n)
  }

  /** The as-written rendering of the rounded digits n (in cents) of a
      value whose sign is `negative`. */
  function CurrencyAsWritten(negative: bool, n: nat): string
  {
    var integerPart := if negative then -(n / 100) else n / 100;
    "R$ " + IntWithSeparators(integerPart) + "," + Cents(n)
  }

  /** The rendering with the sign the value evidently should carry: a minus
      sign whenever the rounded value is negative, including magnitudes
      below one. */
  function FormatBrazilianCurrencySigned(v: Option<real>): (r: string)
    ensures v.None? ==> r == "R$ 0,00"
    ensures |r| >= 6 && r[..3] == "R$ " && r[|r| - 3] == ',' && AllDigits(r[|r| - 2..])
    ensures v.Some? ==> ValueOf(r[|r| - 2..]) == FixedDigits(v.value, 2) % 100
    ensures v.Some? ==> (r[3] == '-' <==> RoundedValue(v.value, 2) < 0.0)
    ensures v.Some? ==> ThousandsLayout(IntegerPartOf(r), '.', NatToString(FixedDigits(v.value, 2) / 100))
  {
    match v
    case None => CurrencyLayout("0", 0); "R$ 0,00"
    case Some(x) =>
      var n := FixedDigits(x, 2);
      RenderingLayout(x < 0.0, n);
      RoundedCents(x);
      CurrencyWithSign(x < 0.0, n)
  }

  function CurrencyWithSign(negative: bool, n: nat): string
  {
    "R$ " + SignText(negative && n > 0) + Grouped(n / 100, '.') + "," + Cents(n)
  }

  /** Both renderings are "R$ ", an integer part, a comma and the two cent
      digits, which denote the last two rounded digits. */
  lemma {:induction false} CurrencyLayout(head: string, n: nat)
    ensures var r := "R$ " + head + "," + Cents(n);
            && |r| == |head| + 6 && r[..3] == "R$ " && r[|r| - 3] == ','
            && r[|r| - 2..] == Cents(n)
    ensures AllDigits(Cents(n)) && ValueOf(Cents(n)) == n % 100
  {
    PaddedDigits(n % 100, 2);
    assert Pow10(2) == 100;
  }

  /** `int()` drops the sign of "-0", so the as-written rendering carries
      '-' only from one unit up. */
  lemma {:induction false} AsWrittenHead(negative: bool, n: nat)
    ensures CurrencyAsWritten(negative, n) == CurrencyWithSign(negative && n >= 100, n)
  {
  }

  /** A rendering of n cents is "R$ ", a '-' exactly when the value is
      negative and n is not zero, n / 100 laid out in threes with '.', a
      comma and the two cent digits. */
  lemma {:induction false} RenderingLayout(negative: bool, n: nat)
    ensures var r := CurrencyWithSign(negative, n);
            && |r| >= 6 && r[..3] == "R$ " && r[|r| - 3] == ','
            && AllDigits(r[|r| - 2..]) && ValueOf(r[|r| - 2..]) == n % 100
            && (r[3] == '-' <==> negative && n > 0)
            && ThousandsLayout(IntegerPartOf(r), '.', NatToString(n / 100))
  {
    CurrencyLayout(SignText(negative && n > 0) + Grouped(n / 100, '.'), n);
    CurrencyIntegerPart(negative && n > 0, n / 100, n);
  }

  /** The integer part of a currency rendering: the text between "R$ " and
      the comma, less a leading minus sign. */
  function IntegerPartOf(r: string): string
    requires |r| >= 6
  {
    var middle := r[3..|r| - 3];
    if |middle| > 0 && middle[0] == '-' then middle[1..] else middle
  }

  /** Between "R$ " and the comma, a rendering holds the optional sign and
      then q laid out in threes with '.'. */
  lemma {:induction false} CurrencyIntegerPart(negative: bool, q: nat, n: nat)
    ensures var r := "R$ " + SignText(negative) + Grouped(q, '.') + "," + Cents(n);
            && |r| >= 6
            && (r[3] == '-' <==> negative)
            && ThousandsLayout(IntegerPartOf(r), '.', NatToString(q))
  {
    GroupedShape(q, '.', ',');
    GroupedLayout(q, '.');
    PaddedDigits(n % 100, 2);
    assert Pow10(2) == 100;
    CurrencyMiddle(SignText(negative), Grouped(q, '.'), Cents(n));
  }

  lemma {:induction false} CurrencyMiddle(sign: string, g: string, c: string)
    requires sign == "" || sign == "-"
    requires |g| > 0 && g[0] != '-' && |c| == 2
    ensures var r := "R$ " + sign + g + "," + c;
            && |r| >= 6
            && (r[3] == '-' <==> sign == "-")
            && IntegerPartOf(r) == g
  {
    var r := "R$ " + sign + g + "," + c;
    assert r[3..|r| - 3] == sign + g;
    assert r[3] == (sign + g)[0];
    if sign == "-" {
      assert (sign + g)[1..] == g;
    }
  }

  /** The two renderings agree except when a negative value rounds to a
      magnitude below one, where the source drops the sign. */
  lemma {:induction false} CurrencySignedAgreement(x: real)
    ensures var n := FixedDigits(x, 2);
            FormatBrazilianCurrency(Some(x)) == FormatBrazilianCurrencySigned(Some(x))
            <==> !(x < 0.0 && 0 < n < 100)
  {
    CurrencyTextsAgreement(x < 0.0, FixedDigits(x, 2));
  }

  lemma {:induction false} CurrencyTextsAgreement(negative: bool, n: nat)
    ensures CurrencyAsWritten(negative, n) == CurrencyWithSign(negative, n)
            <==> !(negative && 0 < n < 100)
  {
    if negative && 0 < n < 100 {
      CurrencySignLost(n);
    } else {
      CurrencySignKept(negative, n);
    }
  }

  lemma {:induction false} CurrencySignLost(n: nat)
    requires 0 < n < 100
    ensures CurrencyAsWritten(true, n)[3] == '0'
    ensures CurrencyWithSign(true, n)[3] == '-'
    ensures CurrencyAsWritten(true, n) == CurrencyWithSign(false, n)
  {
    assert n / 100 == 0;
    assert CurrencyAsWritten(true, n) == "R$ " + "0" + "," + Cents(n);
  }

  lemma {:induction false} CurrencySignKept(negative: bool, n: nat)
    requires !(negative && 0 < n < 100)
    ensures CurrencyAsWritten(negative, n) == CurrencyWithSign(negative, n)
  {
    if negative && n >= 100 {
      assert -(n / 100) < 0;
    }
  }

  /** The sign loss shown on a concrete input: -0.10 renders as "R$ 0,10". */
  lemma {:induction false} CurrencyDropsSign()
    ensures FormatBrazilianCurrency(Some(-0.1)) == "R$ 0,10"
    ensures FormatBrazilianCurrencySigned(Some(-0.1)) == "R$ -0,10"
  {
    TenthInCents();
    TenCentsTexts();
    assert FormatBrazilianCurrency(Some(-0.1)) == CurrencyAsWritten(true, 10);
    assert FormatBrazilianCurrencySigned(Some(-0.1)) == CurrencyWithSign(true, 10);
  }

  /** Ten cents of a negative value, as written and with the sign kept. */
  lemma {:induction false} TenCentsTexts()
    ensures CurrencyAsWritten(true, 10) == "R$ 0,10"
    ensures CurrencyWithSign(true, 10) == "R$ -0,10"
  {
    assert Cents(10) == "10" by {
      assert NatToString(10) == "10";
    }
    assert NatToString(0) == "0";
  }

  /** -0.1 rounds to ten cents. */
  lemma {:induction false} TenthInCents()
    ensures FixedDigits(-0.1, 2) == 10
  {
    assert Scale(2) == 100.0;
    assert Abs(-0.1) * 100.0 == 10.0;
    assert (10.0).Floor == 10;
  }

  /** The value in percent. */
  function PercentOf(x: real): real
  {
    x * 100.0
  }

  /** `format_percentage`: None gives "0,0000%" whatever `decimals` is;
      otherwise `f"{x*100:.{decimals}f}"` with the point turned into a comma,
      then '%'. */
  function FormatPercentage(v: Option<real>, decimals: nat): (r: string)
    ensures v.None? ==> r == "0,0000%"
    ensures |r| >= 1 && r[|r| - 1] == '%'
    ensures '.' !in r
  {
    match v
    case None => "0,0000%"
    case Some(x) =>
      ReplaceRemoves(FormatFixed(PercentOf(x), decimals), '.', ",");
      ReplaceAll(FormatFixed(PercentOf(x), decimals), ".", ",") + "%"
  }

  /** Swapping the point of `[-]FixedBody(n, d)` for a comma. */
  lemma {:induction false} CommaBody(negative: bool, n: nat, d: nat)
    requires d > 0
    ensures ReplaceAll(SignText(negative) + FixedBody(n, d), ".", ",")
            == SignText(negative) + IntDigits(n, d) + "," + FracDigits(n, d)
  {
    var head := SignText(negative) + IntDigits(n, d);
    var tail := FracDigits(n, d);
    assert ReplaceAll(head + "." + tail, ".", ",") == head + "," + tail by {
      FixedPartsShape(n, d);
      DigitsAvoid(IntDigits(n, d), '.');
      DigitsAvoid(tail, '.');
      ReplaceSingle(head, tail, '.', ",");
    }
    assert FixedBody(n, d) == IntDigits(n, d) + "." + tail;
    assert SignText(negative) + FixedBody(n, d) == head + "." + tail;
  }

  /** And back: the comma turns into the point again. */
  lemma {:induction false} PointBody(negative: bool, n: nat, d: nat)
    requires d > 0
    ensures ReplaceAll(SignText(negative) + IntDigits(n, d) + "," + FracDigits(n, d), ",", ".")
            == SignText(negative) + FixedBody(n, d)
  {
    var head := SignText(negative) + IntDigits(n, d);
    var tail := FracDigits(n, d);
    assert ReplaceAll(head + "," + tail, ",", ".") == head + "." + tail by {
      FixedPartsShape(n, d);
      DigitsAvoid(IntDigits(n, d), ',');
      DigitsAvoid(tail, ',');
      ReplaceSingle(head, tail, ',', ".");
    }
    assert FixedBody(n, d) == IntDigits(n, d) + "." + tail;
    assert SignText(negative) + FixedBody(n, d) == head + "." + tail;
  }

  /** Without a fraction there is no point, so no comma either. */
  lemma {:induction false} IntegerBody(negative: bool, n: nat)
    ensures SignText(negative) + FixedBody(n, 0) == SignText(negative) + NatToString(n)
    ensures ReplaceAll(SignText(negative) + NatToString(n), ".", ",") == SignText(negative) + NatToString(n)
    ensures ReplaceAll(SignText(negative) + NatToString(n), ",", ".") == SignText(negative) + NatToString(n)
  {
    var t := SignText(negative) + NatToString(n);
    NatToStringDigits(n);
    DigitsAvoid(NatToString(n), '.');
    DigitsAvoid(NatToString(n), ',');
    ReplaceAbsent(t, ".", ",");
    ReplaceAbsent(t, ",", ".");
  }

  /** With decimals > 0 the percentage text is the sign, the integer
      digits, a comma, exactly `decimals` fraction digits and '%'. */
  lemma {:induction false} PercentagePointed(x: real, decimals: nat)
    requires decimals > 0
    ensures var y := PercentOf(x);
            var n := FixedDigits(y, decimals);
            FormatPercentage(Some(x), decimals)
            == SignText(y < 0.0) + IntDigits(n, decimals) + "," + FracDigits(n, decimals) + "%"
  {
    CommaBody(PercentOf(x) < 0.0, FixedDigits(PercentOf(x), decimals), decimals);
  }

  /** With decimals == 0 the percentage text is the sign, the rounded
      integer and '%', with no comma. */
  lemma {:induction false} PercentageInteger(x: real)
    ensures var y := PercentOf(x);
            FormatPercentage(Some(x), 0) == SignText(y < 0.0) + NatToString(FixedDigits(y, 0)) + "%"
  {
    IntegerBody(PercentOf(x) < 0.0, FixedDigits(PercentOf(x), 0));
  }

  /** Reads a percentage text back: drop a trailing '%', turn commas into
      points and parse. The source has no such reader; it stands here as
      the inverse the rendering is checked against. */
  function ReadPercentage(r: string): Option<real>
  {
    if |r| > 0 && r[|r| - 1] == '%' then ParseDecimal(ReplaceAll(r[..|r| - 1], ",", "."))
    else None
  }

  /** Reading the percentage text back gives x·100 rounded to `decimals`
      places. */
  lemma {:induction false} PercentageRoundTrip(x: real, decimals: nat)
    ensures ReadPercentage(FormatPercentage(Some(x), decimals)) == Some(RoundedValue(PercentOf(x), decimals))
  {
    PercentageBody(x, decimals);
    FormatFixedRoundTrip(PercentOf(x), decimals);
  }

  /** Dropping '%' and turning the comma back into a point gives
      `f"{x*100:.{decimals}f}"` again. */
  lemma {:induction false} PercentageBody(x: real, decimals: nat)
    ensures var r := FormatPercentage(Some(x), decimals);
            && |r| >= 1 && r[|r| - 1] == '%'
            && ReplaceAll(r[..|r| - 1], ",", ".") == FormatFixed(PercentOf(x), decimals)
  {
    var y := PercentOf(x);
    var negative := y < 0.0;
    var n := FixedDigits(y, decimals);
    if decimals == 0 {
      PercentageInteger(x);
      IntegerBody(negative, n);
      DropSuffix(SignText(negative) + NatToString(n), "%");
    } else {
      PercentagePointed(x, decimals);
      PointBody(negative, n, decimals);
      DropSuffix(SignText(negative) + IntDigits(n, decimals) + "," + FracDigits(n, decimals), "%");
    }
  }
}
