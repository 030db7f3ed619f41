/** The worked examples that accompany the formulas, checked against the
    model: the factor, adjustment and total of concrete contracts, the
    string inputs the entry points accept, and the interval on concrete
    dates. */
module Scenarios {
  import opened Wrappers
  import opened Digits
  import opened PyValues
  import opened DecimalParse
  import opened DecimalUtils
  import opened Dates
  import opened Calculation

  /** t is the four-place truncation of x when t·10^4 is the whole number
      k and x lies in [t, t + 0.0001). */
  lemma {:induction false} TruncatesTo4(x: real, t: real, k: int)
    requires t * 10000.0 == k as real && t <= x < t + 0.0001
    ensures TruncateTo(x, 4) == t
  {
    ScaleValues();
    assert (t * 10000.0).Floor == k;
    TruncateUnique(x, 4, t);
  }

  lemma {:induction false} TruncatesTo2(x: real, t: real, k: int)
    requires t * 100.0 == k as real && t <= x < t + 0.01
    ensures TruncateTo(x, 2) == t
  {
    ScaleValues();
    assert (t * 100.0).Floor == k;
    TruncateUnique(x, 2, t);
  }

  /** 105.5 / 105.4 - 1 = 0.000948… truncates to 0.0009, not 0.0010. */
  lemma {:induction false} FactorSmallIncrease()
    ensures FactorK(PyDecimal(105.4), PyDecimal(105.5)) == Ok(0.0009)
  {
    TruncatesTo4(Ratio(105.5, 105.4) - 1.0, 0.0009, 9);
  }

  lemma {:induction false} FactorTenPercent()
    ensures FactorK(PyDecimal(100.0), PyDecimal(110.0)) == Ok(0.1)
  {
    TruncatesTo4(Ratio(110.0, 100.0) - 1.0, 0.1, 1000);
  }

  /** 105.6 / 105.0 - 1 = 0.005714… truncates to 0.0057 where rounding
      would give 0.0058. */
  lemma {:induction false} FactorTruncatesNotRounds()
    ensures FactorK(PyDecimal(105.0), PyDecimal(105.6)) == Ok(0.0057)
  {
    TruncatesTo4(Ratio(105.6, 105.0) - 1.0, 0.0057, 57);
  }

  lemma {:induction false} FactorIndexSeries()
    ensures FactorK(PyDecimal(105.456), PyDecimal(106.234)) == Ok(0.0073)
  {
    TruncatesTo4(Ratio(106.234, 105.456) - 1.0, 0.0073, 73);
  }

  lemma {:induction false} FactorRejections()
    ensures FactorK(PyDecimal(0.0), PyDecimal(100.0)) == Err(ZeroBaseIndex)
    ensures FactorK(PyDecimal(-100.0), PyDecimal(105.0)) == Err(NegativeIndex)
    ensures FactorK(PyDecimal(100.0), PyDecimal(-105.0)) == Err(NegativeIndex)
  {
  }

  /** The indices may arrive as text: "105.4" and "105.5" give 0.0009. */
  lemma {:induction false} FactorFromText()
    ensures FactorK(PyStr("105.4"), PyStr("105.5")) == Ok(0.0009)
  {
    ReadsIndexText();
    TruncatesTo4(Ratio(105.5, 105.4) - 1.0, 0.0009, 9);
  }

  lemma {:induction false} ReadsIndexText()
    ensures EnsureDecimal(PyStr("105.4")) == Ok(105.4)
    ensures EnsureDecimal(PyStr("105.5")) == Ok(105.5)
  {
    ReadsBaseIndex();
    ReadsTargetIndex();
  }

  lemma {:induction false} ReadsBaseIndex()
    ensures EnsureDecimal(PyStr("105.4")) == Ok(105.4)
  {
    assert "105.4" == "105" + "." + "4";
    ReadsAsDecimal("105.4", "4", 105.4);
  }

  lemma {:induction false} ReadsTargetIndex()
    ensures EnsureDecimal(PyStr("105.5")) == Ok(105.5)
  {
    assert "105.5" == "105" + "." + "5";
    ReadsAsDecimal("105.5", "5", 105.5);
  }

  /** "105." followed by one digit reads as 105 plus a tenth of it. */
  lemma {:induction false} ReadsAsDecimal(text: string, fp: string, v: real)
    requires text == "105" + "." + fp
    requires |fp| == 1 && IsDigit(fp[0]) && 105.0 + (DigitValue(fp[0]) as real) / 10.0 == v
    ensures EnsureDecimal(PyStr(text)) == Ok(v)
  {
    WholePart();
    ParsePointed(false, "105", fp);
    assert SignText(false) + text == text;
    TenthValue(fp, v);
  }

  lemma {:induction false} TenthValue(fp: string, v: real)
    requires |fp| == 1 && IsDigit(fp[0]) && 105.0 + (DigitValue(fp[0]) as real) / 10.0 == v
    ensures AllDigits(fp) && PointValue(105, fp) == v
  {
    assert ValueOf(fp) == DigitValue(fp[0]) by { assert fp[..0] == ""; }
    assert Pow10(1) == 10;
  }

  lemma {:induction false} WholePart()
    ensures AllDigits("105") && ValueOf("105") == 105
  {
    assert "105"[..2] == "10" && "10"[..1] == "1";
  }

  lemma {:induction false} AdjustmentExamples()
    ensures Adjustment(PyDecimal(10000.0), PyDecimal(0.0009)) == Ok(9.0)
    ensures Adjustment(PyDecimal(50000.0), PyDecimal(0.1234)) == Ok(6170.0)
    ensures Adjustment(PyDecimal(12345.67), PyDecimal(0.0009)) == Ok(11.11)
    ensures Adjustment(PyDecimal(10000.0), PyDecimal(0.0)) == Ok(0.0)
    ensures Adjustment(PyDecimal(-1000.0), PyDecimal(0.1)) == Err(NegativeMeasurement)
  {
    TruncatesTo2(Product(10000.0, 0.0009), 9.0, 900);
    TruncatesTo2(Product(50000.0, 0.1234), 6170.0, 617000);
    TruncatesTo2(Product(12345.67, 0.0009), 11.11, 1111);
    TruncatesTo2(Product(10000.0, 0.0), 0.0, 0);
  }

  lemma {:induction false} TotalExamples()
    ensures Total(PyDecimal(10000.0), PyDecimal(9.0)) == Ok(10009.0)
    ensures Total(PyDecimal(50000.0), PyDecimal(6170.0)) == Ok(56170.0)
  {
    TruncatesTo2(10000.0 + 9.0, 10009.0, 1000900);
    TruncatesTo2(50000.0 + 6170.0, 56170.0, 5617000);
  }

  /** I_0 = 100.0, I_i = 110.5, Vr = 1,000,000.00: K = 0.1050,
      R = 105,000.00, total 1,105,000.00. */
  lemma {:induction false} WorkflowLargeAdjustment()
    ensures FactorK(PyDecimal(100.0), PyDecimal(110.5)) == Ok(0.105)
    ensures Adjustment(PyDecimal(1000000.0), PyDecimal(0.105)) == Ok(105000.0)
    ensures Total(PyDecimal(1000000.0), PyDecimal(105000.0)) == Ok(1105000.0)
  {
    TruncatesTo4(Ratio(110.5, 100.0) - 1.0, 0.105, 1050);
    TruncatesTo2(Product(1000000.0, 0.105), 105000.0, 10500000);
    TruncatesTo2(1000000.0 + 105000.0, 1105000.0, 110500000);
  }

  /** A factor below zero is accepted and yields a negative adjustment,
      which the currency rendering then shows without its sign. */
  lemma {:induction false} NegativeAdjustmentShownUnsigned()
    ensures FactorK(PyDecimal(100.0), PyDecimal(99.99)) == Ok(-0.0001)
    ensures Adjustment(PyDecimal(1000.0), PyDecimal(-0.0001)) == Ok(-0.1)
    ensures FormatBrazilianCurrency(Some(-0.1)) == "R$ 0,10"
  {
    TruncatesTo4(Ratio(99.99, 100.0) - 1.0, -0.0001, -1);
    TruncatesTo2(Product(1000.0, -0.0001), -0.1, -10);
    CurrencyDropsSign();
  }

  // ---------------------------------------------------------------------
  // The interval on concrete dates

  /** 2024 is a leap year: 2024-01-01 to 2025-01-01 is 366 days. */
  lemma {:induction false} LeapYearLength()
    ensures DaysBetween(Date(2024, 1, 1), Date(2025, 1, 1)) == 366
  {
  }

  lemma {:induction false} IntervalOneLeapYear()
    ensures ValidateInterval(Date(2024, 1, 1), Date(2025, 1, 1)).0
    ensures ValidateInterval(Date(2024, 1, 1), Date(2025, 6, 1)).0
  {
    LeapYearLength();
  }

  lemma {:induction false} CommonYearShortOfInterval()
    ensures DaysBetween(Date(2023, 1, 1), Date(2023, 12, 31)) == 364
  {
  }

  lemma {:induction false} IntervalHalfYear()
    ensures !ValidateInterval(Date(2024, 1, 1), Date(2024, 6, 1)).0
  {
  }

  /** 364 days fall one short. */
  lemma {:induction false} IntervalOneDayShort()
    ensures !ValidateInterval(Date(2023, 1, 1), Date(2023, 12, 31)).0
  {
    CommonYearShortOfInterval();
  }

  /** The refusal names the day count and the budget date. */
  lemma {:induction false} IntervalMessage()
    ensures ValidateInterval(Date(2023, 1, 1), Date(2023, 12, 31)).1
            == "Interstício legal não cumprido. Passaram-se " + "364"
               + " dias, mas são necessários 365 dias desde a data base do orçamento ("
               + "01/01/2023" + ")."
  {
    CommonYearShortOfInterval();
    DayCountText();
    BudgetDateText();
  }

  lemma {:induction false} DayCountText()
    ensures IntToString(364) == "364"
  {
    assert NatToString(3) == "3";
    assert NatToString(36) == "36";
  }

  lemma {:induction false} BudgetDateText()
    ensures FormatDateBr(Date(2023, 1, 1)) == "01/01/2023"
  {
    var dd := ZeroFill(NatToString(1), 2);
    var yy := NatToString(2023);
    assert dd == "01";
    YearText();
    assert FormatDateBr(Date(2023, 1, 1)) == dd + "/" + dd + "/" + yy;
  }

  lemma {:induction false} YearText()
    ensures NatToString(2023) == "2023"
  {
    assert NatToString(2) == "2";
    assert NatToString(20) == "20";
    assert NatToString(202) == "202";
  }

  // ---------------------------------------------------------------------
  // The currency and percentage renderings

  /** An amount already in cents has that many cents as its rounded digits. */
  lemma {:induction false} CentsOf(x: real, k: nat)
    requires x >= 0.0 && x * 100.0 == k as real
    ensures FixedDigits(x, 2) == k
  {
    ScaleValues();
    assert (k as real).Floor == k;
  }

  /** A non-negative amount renders as its grouped whole part and its cents. */
  lemma {:induction false} RendersAs(x: real, n: nat, whole: string, cents: string)
    requires x >= 0.0 && FixedDigits(x, 2) == n
    requires Grouped(n / 100, '.') == whole && Cents(n) == cents
    ensures FormatBrazilianCurrency(Some(x)) == "R$ " + whole + "," + cents
  {
  }

  lemma {:induction false} GroupTexts()
    ensures NatToString(0) == "0" && NatToString(1) == "1"
    ensures NatToString(56) == "56" && NatToString(99) == "99"
    ensures NatToString(100) == "100" && NatToString(123) == "123"
    ensures NatToString(234) == "234" && NatToString(456) == "456"
    ensures NatToString(789) == "789"
  {
    assert NatToString(5) == "5" && NatToString(9) == "9";
    assert NatToString(10) == "10" && NatToString(12) == "12" && NatToString(23) == "23";
    assert NatToString(45) == "45" && NatToString(78) == "78";
  }

  lemma {:induction false} GroupedExamples()
    ensures Grouped(1234, '.') == "1.234"
    ensures Grouped(100, '.') == "100"
    ensures Grouped(1000000, '.') == "1.000.000"
    ensures Grouped(123456789, '.') == "123.456.789"
  {
    GroupTexts();
    GroupedThousand();
    GroupedMillion();
    GroupedLarge();
  }

  lemma {:induction false} GroupedThousand()
    requires NatToString(1) == "1" && NatToString(234) == "234"
    ensures Grouped(1234, '.') == "1.234"
  {
    GroupOfThree(1234, "1", "234");
    assert "1" + "." + "234" == "1.234";
  }

  lemma {:induction false} GroupedMillion()
    requires NatToString(1) == "1" && NatToString(0) == "0"
    ensures Grouped(1000000, '.') == "1.000.000"
  {
    assert ZeroFill("0", 3) == "000";
    GroupOfThree(1000, "1", "000");
    assert "1" + "." + "000" == "1.000";
    GroupOfThree(1000000, "1.000", "000");
    assert "1.000" + "." + "000" == "1.000.000";
  }

  lemma {:induction false} GroupedLarge()
    requires NatToString(123) == "123" && NatToString(456) == "456" && NatToString(789) == "789"
    ensures Grouped(123456789, '.') == "123.456.789"
  {
    GroupOfThree(123456, "123", "456");
    assert "123" + "." + "456" == "123.456";
    GroupOfThree(123456789, "123.456", "789");
    assert "123.456" + "." + "789" == "123.456.789";
  }

  /** One step of the grouping: the groups above the last three, '.', and
      the last three digits padded. */
  lemma {:induction false} GroupOfThree(n: nat, hi: string, lo: string)
    requires n >= 1000 && Grouped(n / 1000, '.') == hi
    requires ZeroFill(NatToString(n % 1000), 3) == lo
    ensures Grouped(n, '.') == hi + "." + lo
  {
  }

  /** The currency renderings of the test suite. */
  lemma {:induction false} CurrencyExamples()
    ensures FormatBrazilianCurrency(Some(1234.56)) == "R$ 1.234,56"
    ensures FormatBrazilianCurrency(Some(100.0)) == "R$ 100,00"
    ensures FormatBrazilianCurrency(Some(1000000.0)) == "R$ 1.000.000,00"
    ensures FormatBrazilianCurrency(Some(123456789.99)) == "R$ 123.456.789,99"
    ensures FormatBrazilianCurrency(None) == "R$ 0,00"
  {
    GroupTexts();
    GroupedExamples();
    CentsTexts();
    ThousandsRendering();
    HundredRendering();
    MillionRendering();
    LargeRendering();
  }

  lemma {:induction false} CentsTexts()
    requires NatToString(0) == "0" && NatToString(56) == "56" && NatToString(99) == "99"
    ensures Cents(123456) == "56" && Cents(10000) == "00"
    ensures Cents(100000000) == "00" && Cents(12345678999) == "99"
  {
    assert ZeroFill("0", 2) == "00";
  }

  lemma {:induction false} ThousandsRendering()
    requires Grouped(1234, '.') == "1.234" && Cents(123456) == "56"
    ensures FormatBrazilianCurrency(Some(1234.56)) == "R$ 1.234,56"
  {
    CentsOf(1234.56, 123456);
    assert "R$ " + "1.234" + "," + "56" == "R$ 1.234,56";
    RendersAs(1234.56, 123456, "1.234", "56");
  }

  lemma {:induction false} HundredRendering()
    requires Grouped(100, '.') == "100" && Cents(10000) == "00"
    ensures FormatBrazilianCurrency(Some(100.0)) == "R$ 100,00"
  {
    CentsOf(100.0, 10000);
    assert "R$ " + "100" + "," + "00" == "R$ 100,00";
    RendersAs(100.0, 10000, "100", "00");
  }

  lemma {:induction false} MillionRendering()
    requires Grouped(1000000, '.') == "1.000.000" && Cents(100000000) == "00"
    ensures FormatBrazilianCurrency(Some(1000000.0)) == "R$ 1.000.000,00"
  {
    CentsOf(1000000.0, 100000000);
    assert "R$ " + "1.000.000" + "," + "00" == "R$ 1.000.000,00";
    RendersAs(1000000.0, 100000000, "1.000.000", "00");
  }

  lemma {:induction false} LargeRendering()
    requires Grouped(123456789, '.') == "123.456.789" && Cents(12345678999) == "99"
    ensures FormatBrazilianCurrency(Some(123456789.99)) == "R$ 123.456.789,99"
  {
    assert 123456789.99 * 100.0 == 12345678999 as real;
    CentsOf(123456789.99, 12345678999);
    assert 12345678999 / 100 == 123456789;
    assert "R$ " + "123.456.789" + "," + "99" == "R$ 123.456.789,99";
    RendersAs(123456789.99, 12345678999, "123.456.789", "99");
  }

  /** 100·x in units of 10^-d. */
  lemma {:induction false} PercentDigits(x: real, d: nat, k: nat)
    requires x >= 0.0 && PercentOf(x) * (Pow10(d) as real) == k as real
    ensures FixedDigits(PercentOf(x), d) == k
  {
    assert (k as real).Floor == k;
  }

  /** A non-negative percentage with decimals renders as the padded digits
      split before the last `d`, a comma between them. */
  lemma {:induction false} PercentRendersAs(x: real, d: nat, k: nat, whole: string, frac: string)
    requires d > 0 && x >= 0.0 && FixedDigits(PercentOf(x), d) == k
    requires IntDigits(k, d) == whole && FracDigits(k, d) == frac
    ensures FormatPercentage(Some(x), d) == whole + "," + frac + "%"
  {
    PercentagePointed(x, d);
  }

  lemma {:induction false} PercentTexts()
    ensures NatToString(123400) == "123400" && NatToString(50000) == "50000"
    ensures NatToString(1234) == "1234" && NatToString(50) == "50"
  {
    assert NatToString(12) == "12" && NatToString(123) == "123";
    assert NatToString(12340) == "12340";
    assert NatToString(500) == "500" && NatToString(5000) == "5000";
  }

  /** The percentage renderings of the test suite. */
  lemma {:induction false} PercentageExamples()
    ensures FormatPercentage(Some(0.1234), 4) == "12,3400%"
    ensures FormatPercentage(Some(0.05), 4) == "5,0000%"
    ensures FormatPercentage(Some(0.1234), 2) == "12,34%"
    ensures FormatPercentage(Some(0.05), 1) == "5,0%"
    ensures FormatPercentage(None, 4) == "0,0000%"
  {
    PercentTexts();
    PercentFourPlaces();
    FivePercentFourPlaces();
    PercentTwoPlaces();
    FivePercentOnePlace();
  }

  lemma {:induction false} PercentFourPlaces()
    requires NatToString(123400) == "123400"
    ensures FormatPercentage(Some(0.1234), 4) == "12,3400%"
  {
    assert Pow10(4) == 10000;
    PercentDigits(0.1234, 4, 123400);
    assert PaddedText(123400, 4) == "123400";
    assert "12" + "," + "3400" + "%" == "12,3400%";
    PercentRendersAs(0.1234, 4, 123400, "12", "3400");
  }

  lemma {:induction false} FivePercentFourPlaces()
    requires NatToString(50000) == "50000"
    ensures FormatPercentage(Some(0.05), 4) == "5,0000%"
  {
    assert Pow10(4) == 10000;
    PercentDigits(0.05, 4, 50000);
    assert PaddedText(50000, 4) == "50000";
    assert "5" + "," + "0000" + "%" == "5,0000%";
    PercentRendersAs(0.05, 4, 50000, "5", "0000");
  }

  lemma {:induction false} PercentTwoPlaces()
    requires NatToString(1234) == "1234"
    ensures FormatPercentage(Some(0.1234), 2) == "12,34%"
  {
    assert Pow10(2) == 100;
    PercentDigits(0.1234, 2, 1234);
    assert PaddedText(1234, 2) == "1234";
    assert "12" + "," + "34" + "%" == "12,34%";
    PercentRendersAs(0.1234, 2, 1234, "12", "34");
  }

  lemma {:induction false} FivePercentOnePlace()
    requires NatToString(50) == "50"
    ensures FormatPercentage(Some(0.05), 1) == "5,0%"
  {
    assert Pow10(1) == 10;
    PercentDigits(0.05, 1, 50);
    assert PaddedText(50, 1) == "50";
    assert "5" + "," + "0" + "%" == "5,0%";
    PercentRendersAs(0.05, 1, 50, "5", "0");
  }
}
