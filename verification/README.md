# Reajuste: the truncating adjustment engine, in Dafny

A model of the calculation core of *reajuste*. This is a tool that adjusts
public-contract measurements under Lei 14.133/21. It covers the following:

- **Factor.** The adjustment factor K = I_i / I_0 − 1 is truncated (never
  rounded) to four decimal places.
- **Adjustment.** R = K × Vr is truncated to cents, and so is the updated
  total Vr + R.
- **Interval.** The legal interval of 365 days runs from the budget date to
  the adjustment month.
- **Audit record.** `salvar_calculo` assembles one record before the
  database write.
- **Helpers.** The decimal helpers behind these steps: the two truncators,
  `ensure_decimal`, the Brazilian currency and percentage renderings.
- **Measurement field.** The live reformatting of what the user types
  (`format_currency_input`) and the reading of "R$ 1.234,56" back into a
  Decimal (`parse_brazilian_currency`).

Python's `Decimal` is modelled as an exact Dafny `real`. The dynamically
typed arguments are modelled as a `PyValue` datatype. Every exception the
code raises is an `Error` value, carrying its Python kind and its message.
Dates follow CPython's proleptic-Gregorian ordinal, and a day-by-day
calendar walk serves as the independent definition the ordinal is checked
against.

| file | module | what it holds |
|---|---|---|
| wrappers.dfy | Wrappers | `Option` and `Result` |
| python_values.dfy | PyValues | Python arguments and the raised exceptions |
| digits.dfy | Digits | decimal digit strings, `str(int)`, zero-fill, grouping in threes |
| text.dfy | Text | `str.replace`, `str.strip`, keeping only digits |
| real_facts.dfy | RealFacts | small facts of real arithmetic |
| decimal_parse.dfy | DecimalParse | the `Decimal(str)` constructor for finite numbers |
| decimal_utils.dfy | DecimalUtils | truncation, `ensure_decimal`, `:.Nf` formatting, currency and percentage |
| dates.dfy | Dates | `datetime.date`, day differences, `%d/%m/%Y` |
| calculation.dfy | Calculation | K, R, total, legal interval, audit record |
| currency_input.dfy | CurrencyInput | the measurement field: formatting as typed, parsing back |
| scenarios.dfy | Scenarios | the worked examples of the test suite, proved on the model |

## Model

| member | source | states |
|---|---|---|
| DecimalUtils.TruncateTo | src/utils/decimal_utils.py:50-53 | the result lies on the 10^-n grid and is the greatest such point not above the input: t ≤ x < t + 10^-n |
| DecimalUtils.TruncateUnique | src/utils/decimal_utils.py:50-53 | any grid point t with t ≤ x < t + 10^-n is the truncation, so the floor quantization is determined by its bounds |
| DecimalUtils.TruncateFixesGrid | src/utils/decimal_utils.py:50-53 | truncation leaves x unchanged exactly when x already has at most n decimals |
| DecimalUtils.TruncateIdempotent | src/utils/decimal_utils.py:50-53 | truncating twice equals truncating once |
| DecimalUtils.TruncateMonotone | src/utils/decimal_utils.py:50-53 | truncation preserves order (ROUND_FLOOR rounds every value down, negatives included) |
| DecimalUtils.TruncateAt4Decimals | src/utils/decimal_utils.py:44-53 | None gives None; a Decimal gives its floor to 0.0001; any other argument raises TypeError naming its type |
| DecimalUtils.TruncateAt2Decimals | src/utils/decimal_utils.py:78-84 | None gives None; a Decimal gives its floor to 0.01; any other argument raises TypeError naming its type |
| DecimalUtils.TruncatorsIdempotent | src/utils/decimal_utils.py:44-84 | feeding either truncator's output back to it changes nothing |
| DecimalUtils.EnsureDecimal | src/utils/decimal_utils.py:114-136 | a Decimal passes unchanged; an int (or bool) converts exactly; a str gives the value the Decimal constructor reads from it, and a str the constructor refuses raises ValueError quoting that string; a float raises TypeError; any other type raises TypeError naming it |
| DecimalUtils.EnsureDecimalIdempotent | src/utils/decimal_utils.py:114-115 | converting a converted value again yields the same Decimal |
| DecimalUtils.RoundHalfEven | src/utils/decimal_utils.py:160 | the `:.2f` digit count is within one half of the scaled value, and ties go to the even count |
| DecimalUtils.RoundedValueClose | src/utils/decimal_utils.py:160 | the value a `:.Nf` rendering denotes has N decimals and is within half a unit in the last place of the input |
| DecimalUtils.RoundedValueOnGrid | src/utils/decimal_utils.py:160 | a value that already has N decimals is rendered exactly |
| DecimalUtils.FormatFixedRoundTrip | src/utils/decimal_utils.py:160 | reading a `:.Nf` rendering back with the Decimal constructor gives the rounded value |
| DecimalUtils.CurrencySignedAgreement | src/utils/decimal_utils.py:156-169 | the rendering as written and the sign-preserving rendering agree on every value except a negative whose magnitude rounds below one |
| DecimalUtils.CurrencySignLost | src/utils/decimal_utils.py:163-169 | for 0 < cents < 100 with a minus sign, the integer part "-0" goes through `int()` and the text is that of the positive value |
| DecimalUtils.CurrencySignKept | src/utils/decimal_utils.py:163-169 | outside that case the rendering carries the minus sign exactly when the rounded value is negative |
| DecimalUtils.CurrencyDropsSign | src/utils/decimal_utils.py:156-169 | −0.10 is rendered "R$ 0,10"; the corrected rendering gives "R$ -0,10" |
| DecimalUtils.PercentageRoundTrip | src/utils/decimal_utils.py:190-195 | reading a percentage text back (comma to point, drop "%") gives 100·x rounded to the requested decimals |
| DecimalUtils.PercentageBody | src/utils/decimal_utils.py:193-195 | the percentage text is the fixed rendering of 100·x with the point turned into a comma, followed by "%" |
| DecimalUtils.PercentagePointed | src/utils/decimal_utils.py:193-195 | with decimals > 0, the text is sign, integer digits, comma, exactly `decimals` fraction digits and "%" |
| DecimalUtils.PercentageInteger | src/utils/decimal_utils.py:193-195 | with decimals = 0, the text is sign, integer digits and "%", with no comma |
| DecimalUtils.RoundedCents | src/utils/decimal_utils.py:160 | the value of a two-decimal rendering is its cent digits over 100 with the input's sign |
| DecimalUtils.FormatBrazilianCurrency | src/utils/decimal_utils.py:156-169 | None gives "R$ 0,00"; otherwise the text is "R$ ", a '-' exactly when the value is negative with a rounded magnitude of at least one, the whole part of the rounded magnitude laid out in threes with '.', ',' and the two `:.2f` cent digits; it equals the sign-preserving rendering exactly when the value is not a negative whose magnitude rounds below one |
| DecimalUtils.FormatBrazilianCurrencySigned | src/utils/decimal_utils.py:156-169 | the same layout: "R$ ", a '-' exactly when the value rounded to cents is negative, the whole part of the rounded magnitude laid out in threes with '.', ',' and the two cent digits |
| Text.GroupedLayout | src/utils/decimal_utils.py:166 | the thousands grouping of n is `str(n)` with '.' as every fourth character counted from the right, never first, and digits everywhere else |
| DecimalUtils.FormatPercentage | src/utils/decimal_utils.py:190-195 | None gives "0,0000%"; otherwise the text ends in '%' and contains no '.', the point of the fixed rendering having become ',' |
| DecimalParse.ParseDecimal | src/utils/decimal_utils.py:119 | the Decimal constructor accepts only texts that contain at least one digit |
| DecimalParse.ParseTrimmedSigned | src/utils/decimal_utils.py:119 | the constructor applies a leading '-' to the value of the digits that follow |
| DecimalParse.ParsePointed | src/utils/decimal_utils.py:119 | "ddd.ff" reads as its integer part plus its fraction digits over the matching power of ten |
| Calculation.FactorK | src/services/calculation.py:48-65 | K is defined iff both indices convert, I_0 > 0 and I_i ≥ 0; it is then the floor to 0.0001 of I_i/I_0 − 1; conversion errors come first, in argument order, and a zero I_0 is refused before the sign check |
| Calculation.FactorKErrors | src/services/calculation.py:52-57 | a zero base index gives the zero-base error, even if the other index is negative; otherwise a negative index gives the negative-index error |
| Calculation.FactorKAtLeastMinusOne | src/services/calculation.py:56-63 | for admissible indices K is defined and never below −1 |
| Calculation.FactorKNonNegative | src/services/calculation.py:59-63 | a target index at least the base gives K ≥ 0, and equal indices give K = 0 |
| Calculation.FactorKMonotone | src/services/calculation.py:59-63 | K does not decrease as the target index grows |
| Calculation.Adjustment | src/services/calculation.py:99-109 | R is defined iff both inputs convert and Vr ≥ 0; it is then Vr × K floored to cents; a negative Vr raises ValueError, even with a negative K |
| Calculation.AdjustmentBounds | src/services/calculation.py:105-109 | for non-negative Vr and K, 0 ≤ R ≤ Vr × K, so truncation never pays more than the exact product |
| Calculation.Total | src/services/calculation.py:125-128 | the total is defined iff both inputs convert, and is then Vr + R floored to cents |
| Calculation.TotalExactOnCents | src/services/calculation.py:125-128 | for amounts already in cents, the total is exactly Vr + R |
| Calculation.TotalOfAdjustment | src/services/calculation.py:99-128 | for a measurement in cents, the total after the adjustment is exactly Vr + R |
| Calculation.ValidateInterval | src/services/calculation.py:203-217 | the interval is accepted iff the adjustment month lies at least 365 calendar days after the budget date |
| Calculation.IntervalBoundary | src/services/calculation.py:204-206 | n days after any budget date is acceptable iff n ≥ 365, on every calendar |
| Calculation.BuildRecord | src/services/calculation.py:165-175 | the record holds the five amounts converted by ensure_decimal and the other fields as given; the first failing conversion, in argument order (I_0, I_i, K, Vr, R), is the error |
| Calculation.RecordKeepsDecimals | src/services/calculation.py:165-175 | Decimal arguments are stored unchanged |
| Dates.NextDayOrdinal | src/services/calculation.py:204 | the ordinal behind `(b − a).days` grows by exactly one from each day to the next |
| Dates.DaysBetween | src/services/calculation.py:204 | the day difference is zero exactly for equal dates and positive exactly when the first date comes before the second in calendar order |
| Dates.FormatDateBr | src/services/calculation.py:211 | `%d/%m/%Y` gives two digits for the day, '/', two digits for the month, '/', and the year's digits, each spelling the date's own field |
| Dates.DaysBetweenAddDays | src/services/calculation.py:204 | the day difference between d and the date n calendar days later is n |
| CurrencyInput.FormatCurrencyInput | views/calculate.py:24-55 | the field becomes empty iff what was typed holds no digit; otherwise it starts with "R$ " |
| CurrencyInput.InputRendersCents | views/calculate.py:29-55 | a field with digits shows the number those digits spell as cents, grouped with '.' and with two decimals after ',' |
| CurrencyInput.InputMatchesCurrency | views/calculate.py:24-55 | the field's text is exactly what format_brazilian_currency prints for the typed digits read as cents |
| CurrencyInput.FormatCurrencyInputIdempotent | views/calculate.py:151-153 | reformatting an already formatted field changes nothing, so the on-change callback is stable |
| CurrencyInput.ParseBrazilianCurrency | views/calculate.py:58-74 | the empty text and every text the Decimal constructor refuses after the substitutions raise ValueError, the latter quoting the original text; every other text gives the value the constructor reads from the cleaned text |
| CurrencyInput.CleanRendering | views/calculate.py:65-69 | cleaning a currency rendering "R$ " + sign + grouped digits + "," + cents leaves exactly the sign, the integer digits without separators, '.', and the cents |
| CurrencyInput.CurrencyMarkAlone | views/calculate.py:62-74 | "R$ " is not empty but cleans to nothing, so it is refused as an invalid format |
| CurrencyInput.InputRoundTrip | views/calculate.py:24-74 | parsing the formatted field gives the typed digits over 100 |
| CurrencyInput.ParseRendering | views/calculate.py:58-74 | parsing any sign-carrying rendering of n cents gives ±n/100 |
| CurrencyInput.SignedCurrencyRoundTrip | views/calculate.py:58-74 | parsing the sign-preserving currency rendering of x gives x rounded to cents |
| CurrencyInput.CurrencyRoundTrip | views/calculate.py:58-74 | parsing format_brazilian_currency(x) gives x rounded to cents iff x is not a negative whose magnitude rounds below one |
| CurrencyInput.SignLostReadsPositive | views/calculate.py:58-74 | for such a negative, the rendering reads back as the positive amount |
| CurrencyInput.CurrencyRoundTripFails | views/calculate.py:58-74 | −0.1 renders and reads back as +0.1 |
| Scenarios.FactorSmallIncrease | tests/test_calculation.py:21-27 | 105.5/105.4 − 1 truncates to 0.0009, not 0.0010 |
| Scenarios.FactorTruncatesNotRounds | tests/test_calculation.py:37-44 | 105.6/105.0 − 1 truncates to 0.0057 |
| Scenarios.FactorIndexSeries | tests/test_calculation.py:46-57 | 106.234/105.456 − 1 truncates to 0.0073 |
| Scenarios.FactorRejections | tests/test_calculation.py:59-70 | a zero base or a negative index is refused with the source's errors |
| Scenarios.FactorFromText | tests/test_calculation.py:79-82 | the indices given as the strings "105.4" and "105.5" also give 0.0009 |
| Scenarios.AdjustmentExamples | tests/test_calculation.py:88-123 | R for the suite's measurements: 9.00, 6170.00, 11.11, 0.00, and the refusal of a negative Vr |
| Scenarios.TotalExamples | tests/test_calculation.py:134-146 | the totals 10009.00 and 56170.00 |
| Scenarios.WorkflowLargeAdjustment | tests/test_calculation.py:217-238 | K = 0.1050, R = 105000.00, total 1105000.00 |
| Scenarios.NegativeAdjustmentShownUnsigned | src/services/calculation.py:56-109 | an index decrease gives K = −0.0001, R = −0.10, and the currency rendering shows "R$ 0,10" |
| Scenarios.CurrencyExamples | tests/test_decimal_utils.py:113-125 | "R$ 1.234,56", "R$ 100,00", "R$ 1.000.000,00", "R$ 123.456.789,99", and "R$ 0,00" for None |
| Scenarios.PercentageExamples | tests/test_decimal_utils.py:131-143 | "12,3400%", "5,0000%", "12,34%", "5,0%", and "0,0000%" for None |
| Scenarios.IntervalOneLeapYear | tests/test_calculation.py:152-169 | 2024-01-01 to 2025-01-01 (366 days) and to 2025-06-01 are accepted |
| Scenarios.IntervalOneDayShort | tests/test_calculation.py:181-190 | 2023-01-01 to 2023-12-31 is 364 days and refused |
| Scenarios.IntervalHalfYear | tests/test_calculation.py:171-179 | 2024-01-01 to 2024-06-01 is refused |
| Scenarios.IntervalMessage | src/services/calculation.py:206-212 | the refusal text for 364 days after 01/01/2023 |

## Left out

- The 28-digit precision context (`getcontext().prec = 28`). Every
  Decimal operation here is exact, where Python rounds each result to 28
  significant digits (half-even). The four lines below name the members
  this touches.
- Calculation.FactorK: Python rounds the quotient I_i / I_0, and then the
  difference with 1 (src/services/calculation.py:60), before truncating K.
  K can then be one unit of 0.0001 higher than the model's, when the exact
  quotient lies just below a 0.0001 boundary, within half a unit of its
  28th significant digit. For I_0 = 3 and I_1 = 3.0026999999999999999999999991
  Python gives K = 0.0009 and the model 0.0008.
- Calculation.Adjustment: Python rounds the product Vr × K
  (src/services/calculation.py:106) before truncating it to cents.
- Calculation.Total: Python rounds the sum Vr + R
  (src/services/calculation.py:128) before truncating it to cents.
- DecimalUtils.FormatPercentage: Python rounds 100 × x
  (src/utils/decimal_utils.py:193) before rendering it.
- DecimalUtils.TruncateAt4Decimals: Python's `quantize` raises
  InvalidOperation when the result would need more than 28 digits, that
  is for |x| ≥ 10^24 at four places; the model returns the floor.
- DecimalUtils.TruncateAt2Decimals: likewise for |x| ≥ 10^26 at two places.
- DecimalUtils.FormatPercentage: `decimals` is a natural number. Python
  accepts any int there, and a negative one makes the format specification
  invalid, so `format_percentage` raises ValueError; no caller passes one.
- `Decimal` exponents, signs of zero and precision of the stored value.
  `-0`, `0.10` and `0.1` are the same number here. The source's comparisons
  (`==`, `<`) and its arithmetic ignore the distinction. Python's `str()`
  of a stored value would show it, and so does the `:.Nf` format for a
  negative zero: `format_percentage(Decimal("-0"))` prints "-0,0000%" in
  Python (src/utils/decimal_utils.py:193-195) and "0,0000%" here.
- `Decimal(str)` for NaN, Infinity, underscores and non-ASCII digits. The
  model's constructor refuses them, where Python accepts them.
- Calculation.ValidateInterval: its contract states only the verdict. The
  message text is stated for one refusal (Scenarios.IntervalMessage), not
  for every pair of dates.
- Arguments of `validar_intersticio_legal` other than `datetime.date`
  values. A `datetime.datetime` mixed with a `date` would raise
  `TypeError`; the model takes dates only.
- Dates.FormatDateBr: the year is printed unpadded, as glibc's `%Y` does.
  Other C libraries pad years below 1000 to four digits.
- The database session in `salvar_calculo` (add, commit, refresh) and
  `datetime.utcnow()`. The clock reading is a parameter of
  Calculation.BuildRecord, and the write itself is not modelled.
- CurrencyInput.FormatCurrencyInput: only the ASCII digits 0-9 are kept.
  Python's `\d`, `lstrip('0')` and `int()` also accept every other Unicode
  decimal digit, so "٥" becomes "R$ 0,0٥" in Python and "" in the model.
- The Streamlit page around the measurement field. Only the field's
  callback, its formatter and its parser are modelled.
- `format_date_br` is modelled only for dates (Dates.FormatDateBr). Its
  `None` branch returns the empty string and is not modelled.
- The PDF report, the index and contract services, seeding and the other
  views, which are not part of this model.

## Findings

| source | as written | input that shows it | evidently intended | confidence | as-written member | corrected member |
|---|---|---|---|---|---|---|
| src/utils/decimal_utils.py:163-169 | the integer part of the `:.2f` text goes through `int()`, so "-0" loses its sign | `format_brazilian_currency(Decimal("-0.10"))` gives "R$ 0,10"; `parse_brazilian_currency` reads it back as +0.10 | the sign kept for every negative amount: "R$ -0,10" | high; not executed | DecimalUtils.CurrencyDropsSign, CurrencyInput.CurrencyRoundTripFails | DecimalUtils.FormatBrazilianCurrencySigned, CurrencyInput.SignedCurrencyRoundTrip |

The input is reachable. `calcular_fator_k_truncado` accepts a target index
below the base index, so K can be negative. With Vr = 1000 and K = −0.0001,
R = −0.10 (Scenarios.NegativeAdjustmentShownUnsigned). The model keeps
`format_brazilian_currency` as written (DecimalUtils.FormatBrazilianCurrency).
The sign-preserving rendering is DecimalUtils.FormatBrazilianCurrencySigned,
and CurrencyInput.SignedCurrencyRoundTrip proves that it reads back as the
rounded amount for every x.
