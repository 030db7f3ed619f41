/** The measurement field of the calculation page: the live reformatting of
    what the user types into "R$ 1.234,56", and the reading of such a text
    back into a Decimal. Typed characters other than digits are dropped and
    the digits are read as a whole number of cents. */
module CurrencyInput {
  import opened Wrappers
  import opened Digits
  import opened Text
  import opened PyValues
  import opened DecimalParse
  import opened DecimalUtils
  import opened RealFacts

  /** `format_currency_input`: the empty field stays empty; otherwise only
      the digits of what was typed are kept and laid out as cents. */
  function FormatCurrencyInput(s: string): (r: string)
    ensures r == "" <==> KeepDigits(s) == ""
    ensures r != "" ==> |r| >= 7 && r[..3] == "R$ "
  {
    if s == "" then "" else FormatDigits(KeepDigits(s))
  }

  /** The layout of the kept digits: none gives the empty text; otherwise,
      less their leading zeros, they are cents: "R$ 0,00" when nothing is
      left, else the digits padded to three, the last two after a comma and
      the rest grouped in threes with '.'. */
  function FormatDigits(digits: string): (r: string)
    requires AllDigits(digits)
    ensures r == "" <==> digits == ""
    ensures r != "" ==> |r| >= 7 && r[..3] == "R$ "
  {
    if digits == "" then ""
    else
      var significant := StripLeadingZeros(digits);
      StripLeadingZerosDigits(digits);
      if significant == "" then "R$ 0,00"
      else
        var padded := if |significant| < 3 then ZeroFill(significant, 3) else significant;
        var integerPart := padded[..|padded| - 2];
        var decimalPart := padded[|padded| - 2..];
        DropSuffix("R$ ", IntWithSeparators(ValueOf(integerPart)) + "," + decimalPart);
        GroupedShape(ValueOf(integerPart), '.', ',');
        "R$ " + IntWithSeparators(ValueOf(integerPart)) + "," + decimalPart
  }

  /** The number the typed digits spell, which the field reads as cents. */
  function TypedCents(s: string): nat
  {
    ValueOf(KeepDigits(s))
  }

  /** The substitutions `parse_brazilian_currency` applies before reading,
      in order: "R$", spaces and '.' are deleted, then ',' becomes '.'. */
  function CleanCurrencyText(s: string): string
  {
    ReplaceAll(ReplaceAll(ReplaceAll(ReplaceAll(s, "R$", ""), " ", ""), ".", ""), ",", ".")
  }

  /** `parse_brazilian_currency`: the empty text is refused, anything the
      Decimal constructor cannot read after the substitutions is refused
      with the original text, and otherwise the Decimal is returned. */
  function ParseBrazilianCurrency(s: string): (r: Result<real, Error>)
    ensures r.Err? ==> r.error.Kind() == ValueError
    ensures s == "" ==> r == Err(EmptyCurrencyText)
    ensures s != "" && r.Err? ==> r == Err(InvalidCurrencyText(s))
    ensures r.Ok? <==> s != "" && ParseDecimal(CleanCurrencyText(s)).Some?
    ensures r.Ok? ==> ParseDecimal(CleanCurrencyText(s)) == Some(r.value)
  {
    if s == "" then Err(EmptyCurrencyText)
    else
      match ParseDecimal(CleanCurrencyText(s))
      case Some(d) => Ok(d)
      case None => Err(InvalidCurrencyText(s))
  }

  /** A text that is nothing but the currency mark is not empty, but it
      cleans to the empty string, which the Decimal constructor refuses. */
  lemma {:induction false} CurrencyMarkAlone()
    ensures ParseBrazilianCurrency("R$ ") == Err(InvalidCurrencyText("R$ "))
  {
    assert ReplaceAll("R$ ", "R$", "") == " ";
    assert ReplaceAll(" ", " ", "") == "";
    assert CleanCurrencyText("R$ ") == "";
    assert ParseDecimal("") == None;
  }

  // ---------------------------------------------------------------------
  // The field shows the typed cents the way the currency rendering would

  /** Whatever was typed, a field with digits shows the currency rendering
      of the number those digits spell, read as cents. */
  lemma {:induction false} InputRendersCents(s: string)
    requires KeepDigits(s) != ""
    ensures FormatCurrencyInput(s) == CurrencyWithSign(false, TypedCents(s))
  {
    DigitsRenderCents(KeepDigits(s));
  }

  lemma {:induction false} DigitsRenderCents(digits: string)
    requires AllDigits(digits) && digits != ""
    ensures FormatDigits(digits) == CurrencyWithSign(false, ValueOf(digits))
  {
    var significant := StripLeadingZeros(digits);
    StripLeadingZerosDigits(digits);
    if significant == "" {
      ZeroCents();
    } else {
      var padded := if |significant| < 3 then ZeroFill(significant, 3) else significant;
      ZeroFillDigits(significant, 3);
      assert AllDigits(padded) && ValueOf(padded) == ValueOf(digits);
      PaddedCents(padded);
    }
  }

  /** No cents at all render as "R$ 0,00". */
  lemma {:induction false} ZeroCents()
    ensures CurrencyWithSign(false, 0) == "R$ 0,00"
  {
    assert NatToString(0) == "0";
    assert Cents(0) == "00" by {
      assert ZeroFill("0", 2) == Zeros(1) + "0";
      assert Zeros(1) == "0";
    }
    assert SignText(false) == "";
  }

  /** A digit string of at least three digits, cut before its last two,
      renders as the currency text of its value. */
  lemma {:induction false} PaddedCents(padded: string)
    requires AllDigits(padded) && |padded| >= 3
    ensures var n := ValueOf(padded);
            "R$ " + IntWithSeparators(ValueOf(padded[..|padded| - 2])) + ","
            + padded[|padded| - 2..] == CurrencyWithSign(false, n)
  {
    var n := ValueOf(padded);
    var integerPart, decimalPart := padded[..|padded| - 2], padded[|padded| - 2..];
    SplitDigits(padded, |padded| - 2);
    ValueOfConcat(integerPart, decimalPart);
    ValueOfBound(decimalPart);
    assert Pow10(2) == 100;
    DivModOfParts(ValueOf(integerPart), ValueOf(decimalPart), n);
    CentsText(decimalPart, n);
    assert SignText(false) == "";
  }

  /** n = q·100 + r with r < 100 has quotient q and remainder r. */
  lemma {:induction false} DivModOfParts(q: nat, r: nat, n: nat)
    requires r < 100 && q * 100 + r == n
    ensures n / 100 == q && n % 100 == r
  {
  }

  /** Two digits that spell n % 100 are the cents text of n. */
  lemma {:induction false} CentsText(decimalPart: string, n: nat)
    requires AllDigits(decimalPart) && |decimalPart| == 2 && ValueOf(decimalPart) == n % 100
    ensures decimalPart == Cents(n)
  {
    assert Pow10(2) == 100;
    PaddedDigits(n % 100, 2);
    DigitsInjective(decimalPart, Cents(n));
  }

  /** A whole number N of cents, as a Decimal, has the digits N when
      rendered with two places. */
  lemma {:induction false} CentsDigits(n: nat)
    ensures FixedDigits(FromCents(n), 2) == n
  {
    ScaleValues();
    assert Abs((n as real) / 100.0) == (n as real) / 100.0;
    MulDivCancel(n as real, 100.0);
    var m := RoundHalfEven(n as real);
    CastClose(m, n);
  }

  /** So the field agrees with `format_brazilian_currency` of the typed
      cents. */
  lemma {:induction false} InputMatchesCurrency(s: string)
    requires KeepDigits(s) != ""
    ensures FormatCurrencyInput(s) == FormatBrazilianCurrency(Some(FromCents(TypedCents(s))))
  {
    InputRendersCents(s);
    CentsRendering(TypedCents(s));
  }

  /** A whole number of cents renders as its currency text. */
  lemma {:induction false} CentsRendering(n: nat)
    ensures FormatBrazilianCurrency(Some(FromCents(n))) == CurrencyWithSign(false, n)
  {
    CentsDigits(n);
    assert FromCents(n) >= 0.0;
    CurrencySignKept(false, n);
  }

  // ---------------------------------------------------------------------
  // Reformatting is idempotent

  /** The digits of a currency text spell its number of cents. */
  lemma {:induction false} CurrencyTextDigits(n: nat)
    ensures KeepDigits(CurrencyWithSign(false, n)) != ""
    ensures TypedCents(CurrencyWithSign(false, n)) == n
  {
    var g, c := Grouped(n / 100, '.'), Cents(n);
    PaddedDigits(n % 100, 2);
    assert Pow10(2) == 100;
    GroupedValue(n / 100, '.');
    var t := CurrencyWithSign(false, n);
    assert t == "R$ " + g + "," + c by { assert SignText(false) == ""; }
    KeepDigitsConcat("R$ " + g + ",", c);
    KeepDigitsConcat("R$ " + g, ",");
    KeepDigitsConcat("R$ ", g);
    KeepDigitsOfDigits(c);
    assert KeepDigits("R$ ") == "" && KeepDigits(",") == "";
    assert KeepDigits(t) == KeepDigits(g) + c;
    ValueOfConcat(KeepDigits(g), c);
  }

  /** Reformatting what the field shows changes nothing, so the callback
      that rewrites the field on every edit settles after one pass. */
  lemma {:induction false} FormatCurrencyInputIdempotent(s: string)
    ensures FormatCurrencyInput(FormatCurrencyInput(s)) == FormatCurrencyInput(s)
  {
    if KeepDigits(s) != "" {
      InputRendersCents(s);
      CurrencyTextDigits(TypedCents(s));
      InputRendersCents(CurrencyWithSign(false, TypedCents(s)));
    }
  }

  // ---------------------------------------------------------------------
  // Reading a rendering back

  /** What the substitutions leave of a currency text: its sign, the digits
      of the integer part, a point and the cents. */
  lemma {:induction false} CleanRendering(negative: bool, n: nat)
    ensures CleanCurrencyText(CurrencyWithSign(negative, n))
            == SignText(negative && n > 0) + (KeepDigits(Grouped(n / 100, '.')) + "." + Cents(n))
  {
    var sign, q, c := SignText(negative && n > 0), n / 100, Cents(n);
    var g := Grouped(q, '.');
    PaddedDigits(n % 100, 2);
    assert CurrencyWithSign(negative, n) == "R$ " + sign + g + "," + c;
    GroupedShape(q, '.', 'R');
    GroupedShape(q, '.', ' ');
    DigitsAvoid(c, 'R');
    DigitsAvoid(c, ' ');
    CleanMark(sign, g, c);
    CleanSpace(sign, g, c);
    CleanDots(sign, q, c);
    GroupedValue(q, '.');
    CleanComma(sign, KeepDigits(g), c);
  }

  /** "R$" occurs only at the front. */
  lemma {:induction false} CleanMark(sign: string, g: string, c: string)
    requires sign == "" || sign == "-"
    requires 'R' !in g && 'R' !in c
    ensures ReplaceAll("R$ " + sign + g + "," + c, "R$", "") == " " + sign + g + "," + c
  {
    var rest := " " + sign + g + "," + c;
    assert "R$ " + sign + g + "," + c == "R$" + rest;
    ReplaceLeading("R$", rest, "");
    assert 'R' !in rest;
    ReplaceAbsent(rest, "R$", "");
  }

  /** The one space follows "R$". */
  lemma {:induction false} CleanSpace(sign: string, g: string, c: string)
    requires sign == "" || sign == "-"
    requires ' ' !in g && ' ' !in c
    ensures ReplaceAll(" " + sign + g + "," + c, " ", "") == sign + g + "," + c
  {
    var rest := sign + g + "," + c;
    assert " " + sign + g + "," + c == " " + rest;
    ReplaceLeading(" ", rest, "");
    assert ' ' !in rest;
    ReplaceAbsent(rest, " ", "");
  }

  /** Deleting the thousands separators leaves the integer part's digits. */
  lemma {:induction false} CleanDots(sign: string, q: nat, c: string)
    requires sign == "" || sign == "-"
    requires AllDigits(c)
    ensures var g := Grouped(q, '.');
            ReplaceAll(sign + g + "," + c, ".", "") == sign + KeepDigits(g) + "," + c
  {
    var g := Grouped(q, '.');
    var tail := "," + c;
    assert sign + g + "," + c == sign + g + tail;
    GroupedShape(q, '.', ',');
    DigitsAvoid(c, '.');
    assert '.' !in tail;
    ReplaceCharInside(sign, g, tail, '.', "");
    assert sign + KeepDigits(g) + "," + c == sign + KeepDigits(g) + tail;
  }

  /** The one comma, before the cents, becomes the decimal point. */
  lemma {:induction false} CleanComma(sign: string, digits: string, c: string)
    requires sign == "" || sign == "-"
    requires AllDigits(digits) && AllDigits(c)
    ensures ReplaceAll(sign + digits + "," + c, ",", ".") == sign + (digits + "." + c)
  {
    DigitsAvoid(digits, ',');
    DigitsAvoid(c, ',');
    ReplaceSingle(sign + digits, c, ',', ".");
  }

  /** The Decimal a currency text reads back as: its cents over 100, with
      the sign the text shows. */
  lemma {:induction false} ParseRendering(negative: bool, n: nat)
    ensures ParseBrazilianCurrency(CurrencyWithSign(negative, n))
            == Ok(Signed(negative, FromCents(n)))
  {
    var text := CurrencyWithSign(negative, n);
    assert text[0] == 'R';
    ReadRendering(negative, n);
  }

  lemma {:induction false} ReadRendering(negative: bool, n: nat)
    ensures ParseDecimal(CleanCurrencyText(CurrencyWithSign(negative, n)))
            == Some(Signed(negative, FromCents(n)))
  {
    CleanIsCents(negative, n);
    ReadCents(CleanCurrencyText(CurrencyWithSign(negative, n)), negative && n > 0, n);
    NoCentsNoSign(negative, n);
  }

  /** Zero cents read the same with or without a sign. */
  lemma {:induction false} NoCentsNoSign(negative: bool, n: nat)
    ensures Signed(negative && n > 0, FromCents(n)) == Signed(negative, FromCents(n))
  {
  }

  /** t is a sign, a non-empty run of digits spelling n / 100, a point and
      two digits spelling n % 100. */
  ghost predicate PointedCents(t: string, negative: bool, n: nat)
  {
    exists digits: string, c: string {:trigger digits + "." + c}
      :: && AllDigits(digits) && |digits| > 0 && ValueOf(digits) == n / 100
         && AllDigits(c) && |c| == 2 && ValueOf(c) == n % 100
         && t == SignText(negative) + (digits + "." + c)
  }

  /** The cleaned currency text is such a text. */
  lemma {:induction false} CleanIsCents(negative: bool, n: nat)
    ensures PointedCents(CleanCurrencyText(CurrencyWithSign(negative, n)), negative && n > 0, n)
  {
    var digits, c := KeepDigits(Grouped(n / 100, '.')), Cents(n);
    CleanRendering(negative, n);
    GroupedValue(n / 100, '.');
    PaddedDigits(n % 100, 2);
  }

  /** Such a text reads as the cents over 100. */
  lemma {:induction false} ReadCents(t: string, negative: bool, n: nat)
    ensures PointedCents(t, negative, n) ==> ParseDecimal(t) == Some(Signed(negative, FromCents(n)))
  {
    if PointedCents(t, negative, n) {
      var digits, c :| && AllDigits(digits) && |digits| > 0 && ValueOf(digits) == n / 100
                       && AllDigits(c) && |c| == 2 && ValueOf(c) == n % 100
                       && t == SignText(negative) + (digits + "." + c);
      HundredthsOf(n, ValueOf(digits), ValueOf(c), FromCents(n));
      ParseCents(negative, digits, c, FromCents(n));
    }
  }

  lemma {:induction false} HundredthsOf(n: nat, q: nat, r: nat, v: real)
    requires q == n / 100 && r == n % 100 && v == (n as real) / 100.0
    ensures v == ((q * 100 + r) as real) / 100.0
  {
  }

  // ---------------------------------------------------------------------
  // Round trips

  /** A field with digits reads back as the typed cents over 100. */
  lemma {:induction false} InputRoundTrip(s: string)
    requires KeepDigits(s) != ""
    ensures ParseBrazilianCurrency(FormatCurrencyInput(s)) == Ok(FromCents(TypedCents(s)))
  {
    ReadsAsRendering(s);
    ParseRendering(false, TypedCents(s));
  }

  /** The field reads back as the currency text of the typed cents does. */
  lemma {:induction false} ReadsAsRendering(s: string)
    requires KeepDigits(s) != ""
    ensures ParseBrazilianCurrency(FormatCurrencyInput(s))
            == ParseBrazilianCurrency(CurrencyWithSign(false, TypedCents(s)))
  {
    InputRendersCents(s);
  }

  /** With the sign kept, reading a rendered value back gives exactly the
      value rounded to cents. */
  lemma {:induction false} SignedCurrencyRoundTrip(x: real)
    ensures ParseBrazilianCurrency(FormatBrazilianCurrencySigned(Some(x))) == Ok(RoundedValue(x, 2))
  {
    ParseRendering(x < 0.0, FixedDigits(x, 2));
    RoundedCents(x);
  }

  /** The as-written rendering reads back as the rounded value except on the
      negative values that round to less than one in magnitude, which come
      back positive. */
  lemma {:induction false} CurrencyRoundTrip(x: real)
    ensures var n := FixedDigits(x, 2);
            ParseBrazilianCurrency(FormatBrazilianCurrency(Some(x))) == Ok(RoundedValue(x, 2))
            <==> !(x < 0.0 && 0 < n < 100)
  {
    var n := FixedDigits(x, 2);
    SignedCurrencyRoundTrip(x);
    CurrencySignedAgreement(x);
    if x < 0.0 && 0 < n < 100 {
      SignLostReadsPositive(x);
    }
  }

  /** Such a value comes back as its own magnitude. */
  lemma {:induction false} SignLostReadsPositive(x: real)
    requires x < 0.0 && 0 < FixedDigits(x, 2) < 100
    ensures ParseBrazilianCurrency(FormatBrazilianCurrency(Some(x)))
            == Ok(FromCents(FixedDigits(x, 2)))
    ensures RoundedValue(x, 2) == -FromCents(FixedDigits(x, 2)) < 0.0
  {
    var n := FixedDigits(x, 2);
    ReadsAsMagnitude(x);
    ParseRendering(false, n);
    RoundedCents(x);
  }

  lemma {:induction false} ReadsAsMagnitude(x: real)
    requires x < 0.0 && 0 < FixedDigits(x, 2) < 100
    ensures ParseBrazilianCurrency(FormatBrazilianCurrency(Some(x)))
            == ParseBrazilianCurrency(CurrencyWithSign(false, FixedDigits(x, 2)))
  {
    CurrencySignLost(FixedDigits(x, 2));
  }

  /** -0.10 is shown as "R$ 0,10" and read back as 0.10. */
  lemma {:induction false} CurrencyRoundTripFails()
    ensures ParseBrazilianCurrency(FormatBrazilianCurrency(Some(-0.1))) == Ok(0.1)
    ensures RoundedValue(-0.1, 2) == -0.1
  {
    assert FixedDigits(-0.1, 2) == 10 by { CentsDigits(10); }
    SignLostReadsPositive(-0.1);
    ScaleValues();
  }
}
