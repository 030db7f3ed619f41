/** The adjustment formulas: the factor K = I_i / I_0 - 1 truncated to four
    places, the adjustment R = Vr × K truncated to cents, the updated total
    Vr + R, the 365-day interval between the budget date and the adjustment
    month, and the fields of the audit record of one calculation. */
module Calculation {
  import opened Wrappers
  import opened Digits
  import opened PyValues
  import opened DecimalUtils
  import opened Dates
  import opened RealFacts

  // ---------------------------------------------------------------------
  // The factor K

  /** `calcular_fator_k_truncado`: both indices go through ensure_decimal
      (I_0 first), then a zero I_0 and then a negative index are refused;
      otherwise (I_i / I_0) - 1 is floored to four places. */
  function FactorK(baseIndex: PyValue, targetIndex: PyValue): (r: Result<real, Error>)
    ensures r.Ok? <==>
              && EnsureDecimal(baseIndex).Ok? && EnsureDecimal(targetIndex).Ok?
              && EnsureDecimal(baseIndex).value > 0.0 && EnsureDecimal(targetIndex).value >= 0.0
    ensures r.Ok? ==>
              var i0, i1 := EnsureDecimal(baseIndex).value, EnsureDecimal(targetIndex).value;
              OnGrid(r.value, 4) && r.value <= Ratio(i1, i0) - 1.0 < r.value + 0.0001
    ensures EnsureDecimal(baseIndex).Err? ==> r == Err(EnsureDecimal(baseIndex).error)
    ensures EnsureDecimal(baseIndex).Ok? && EnsureDecimal(targetIndex).Err? ==>
              r == Err(EnsureDecimal(targetIndex).error)
    ensures EnsureDecimal(baseIndex) == Ok(0.0) && EnsureDecimal(targetIndex).Ok? ==>
              r == Err(ZeroBaseIndex)
  {
    var i0 :- EnsureDecimal(baseIndex);
    var i1 :- EnsureDecimal(targetIndex);
    if i0 == 0.0 then Err(ZeroBaseIndex)
    else if i0 < 0.0 || i1 < 0.0 then Err(NegativeIndex)
    else
      ScaleValues();
      Ok(TruncateTo(Ratio(i1, i0) - 1.0, 4))
  }

  /** I_i / I_0, the exact quotient of two Decimals. */
  function Ratio(a: real, b: real): real
    requires b != 0.0
  {
    a / b
  }

  /** The error a failed factor reports, when both indices converted:
      ZeroBaseIndex for a zero I_0 (even with a negative I_i), otherwise
      NegativeIndex. */
  lemma {:induction false} FactorKErrors(i0: real, i1: real)
    ensures i0 == 0.0 ==> FactorK(PyDecimal(i0), PyDecimal(i1)) == Err(ZeroBaseIndex)
    ensures i0 != 0.0 && (i0 < 0.0 || i1 < 0.0) ==>
              FactorK(PyDecimal(i0), PyDecimal(i1)) == Err(NegativeIndex)
  {
  }

  /** K never falls below -1: the ratio of two non-negative indices is
      non-negative and -1 is on the grid. */
  lemma {:induction false} FactorKAtLeastMinusOne(i0: real, i1: real)
    requires i0 > 0.0 && i1 >= 0.0
    ensures FactorK(PyDecimal(i0), PyDecimal(i1)).Ok?
    ensures FactorK(PyDecimal(i0), PyDecimal(i1)).value >= -1.0
  {
    DivLe(0.0, i1, i0);
    TruncateMonotone(-1.0, Ratio(i1, i0) - 1.0, 4);
    ScaleValues();
    assert OnGrid(-1.0, 4) by { assert (-1.0 * 10000.0).Floor == -10000; }
    TruncateFixesGrid(-1.0, 4);
  }

  /** An index that did not fall gives a non-negative factor, and equal
      indices give exactly zero. */
  lemma {:induction false} FactorKNonNegative(i0: real, i1: real)
    requires i0 > 0.0 && i1 >= i0
    ensures FactorK(PyDecimal(i0), PyDecimal(i1)).Ok?
    ensures FactorK(PyDecimal(i0), PyDecimal(i1)).value >= 0.0
    ensures i1 == i0 ==> FactorK(PyDecimal(i0), PyDecimal(i1)).value == 0.0
  {
    DivLe(i0, i1, i0);
    MulDivCancel(1.0, i0);
    TruncateMonotone(0.0, Ratio(i1, i0) - 1.0, 4);
    assert OnGrid(0.0, 4);
    TruncateFixesGrid(0.0, 4);
    if i1 == i0 {
      MulDivCancel(1.0, i0);
    }
  }

  /** A higher adjustment-month index never gives a smaller factor. */
  lemma {:induction false} FactorKMonotone(i0: real, i1: real, i1': real)
    requires i0 > 0.0 && 0.0 <= i1 <= i1'
    ensures FactorK(PyDecimal(i0), PyDecimal(i1)).value <= FactorK(PyDecimal(i0), PyDecimal(i1')).value
  {
    DivLe(i1, i1', i0);
    TruncateMonotone(Ratio(i1, i0) - 1.0, Ratio(i1', i0) - 1.0, 4);
  }

  // ---------------------------------------------------------------------
  // The adjustment R and the total

  /** `calcular_valor_reajuste`: both values go through ensure_decimal (Vr
      first), a negative Vr is refused, and Vr × K is floored to cents. K is
      not checked: a negative factor gives a negative adjustment. */
  function Adjustment(measurement: PyValue, factor: PyValue): (r: Result<real, Error>)
    ensures r.Ok? <==>
              && EnsureDecimal(measurement).Ok? && EnsureDecimal(factor).Ok?
              && EnsureDecimal(measurement).value >= 0.0
    ensures r.Ok? ==>
              var vr, k := EnsureDecimal(measurement).value, EnsureDecimal(factor).value;
              OnGrid(r.value, 2) && r.value <= Product(vr, k) < r.value + 0.01
    ensures EnsureDecimal(measurement).Err? ==> r == Err(EnsureDecimal(measurement).error)
    ensures EnsureDecimal(measurement).Ok? && EnsureDecimal(factor).Err? ==>
              r == Err(EnsureDecimal(factor).error)
    ensures (EnsureDecimal(measurement).Ok? && EnsureDecimal(factor).Ok?
             && EnsureDecimal(measurement).value < 0.0) ==> r == Err(NegativeMeasurement)
  {
    var vr :- EnsureDecimal(measurement);
    var k :- EnsureDecimal(factor);
    if vr < 0.0 then Err(NegativeMeasurement)
    else
      ScaleValues();
      Ok(TruncateTo(Product(vr, k), 2))
  }

  /** Vr × K, the exact product of two Decimals. */
  function Product(a: real, b: real): real
  {
    a * b
  }

  /** With a non-negative factor the adjustment lies between zero and the
      exact product; truncation never rounds in the contractor's favour. */
  lemma {:induction false} AdjustmentBounds(vr: real, k: real)
    requires vr >= 0.0 && k >= 0.0
    ensures Adjustment(PyDecimal(vr), PyDecimal(k)).Ok?
    ensures 0.0 <= Adjustment(PyDecimal(vr), PyDecimal(k)).value <= Product(vr, k)
  {
    assert Product(vr, k) >= 0.0;
    TruncateMonotone(0.0, Product(vr, k), 2);
    assert OnGrid(0.0, 2);
    TruncateFixesGrid(0.0, 2);
  }

  /** `calcular_valor_total_atualizado`: both values go through
      ensure_decimal and Vr + R is floored to cents; there is no sign check. */
  function Total(measurement: PyValue, adjustment: PyValue): (r: Result<real, Error>)
    ensures r.Ok? <==> EnsureDecimal(measurement).Ok? && EnsureDecimal(adjustment).Ok?
    ensures r.Ok? ==>
              var vr, adj := EnsureDecimal(measurement).value, EnsureDecimal(adjustment).value;
              OnGrid(r.value, 2) && r.value <= vr + adj < r.value + 0.01
    ensures EnsureDecimal(measurement).Err? ==> r == Err(EnsureDecimal(measurement).error)
    ensures EnsureDecimal(measurement).Ok? && EnsureDecimal(adjustment).Err? ==>
              r == Err(EnsureDecimal(adjustment).error)
  {
    var vr :- EnsureDecimal(measurement);
    var adj :- EnsureDecimal(adjustment);
    ScaleValues();
    Ok(TruncateTo(vr + adj, 2))
  }

  /** Amounts already in cents add up exactly: the final truncation does
      not change Vr + R. */
  lemma {:induction false} TotalExactOnCents(vr: real, adj: real)
    requires OnGrid(vr, 2) && OnGrid(adj, 2)
    ensures Total(PyDecimal(vr), PyDecimal(adj)) == Ok(vr + adj)
  {
    OnGridAdd(vr, adj, 2);
    TruncateFixesGrid(vr + adj, 2);
  }

  /** The total of a measurement and the adjustment computed from it. */
  lemma {:induction false} TotalOfAdjustment(vr: real, k: real)
    requires OnGrid(vr, 2) && vr >= 0.0
    ensures Adjustment(PyDecimal(vr), PyDecimal(k)).Ok?
    ensures var adj := Adjustment(PyDecimal(vr), PyDecimal(k)).value;
            Total(PyDecimal(vr), PyDecimal(adj)) == Ok(vr + adj)
  {
    TotalExactOnCents(vr, Adjustment(PyDecimal(vr), PyDecimal(k)).value);
  }

  // ---------------------------------------------------------------------
  // The legal interval

  /** `validar_intersticio_legal`: the adjustment month must lie at least
      365 days after the budget date; the message reports the day count
      (negative when the month precedes the base date). */
  function ValidateInterval(budgetDate: PyDate, adjustmentMonth: PyDate): (r: (bool, string))
    ensures r.0 <==> DaysBetween(budgetDate, adjustmentMonth) >= 365
  {
    var days := DaysBetween(budgetDate, adjustmentMonth);
    if days < 365 then
      (false,
       "Interstício legal não cumprido. Passaram-se " + IntToString(days)
       + " dias, mas são necessários 365 dias desde a data base do orçamento ("
       + FormatDateBr(budgetDate) + ").")
    else
      (true, "Interstício legal cumprido (" + IntToString(days) + " dias desde a data base).")
  }

  /** Walking n days from the budget date meets the interval exactly when
      n is at least 365. */
  lemma {:induction false} IntervalBoundary(budgetDate: PyDate, n: nat)
    requires InDateRange(AddDays(budgetDate, n))
    ensures ValidateInterval(budgetDate, AddDays(budgetDate, n)).0 <==> n >= 365
  {
    DaysBetweenAddDays(budgetDate, n);
  }

  // ---------------------------------------------------------------------
  // The audit record

  /** The fields of a `CalculoRealizado` row as `salvar_calculo` fills them. */
  datatype CalculationRecord = CalculationRecord(
    contractId: int,
    calculatedAt: int,
    baseMonth: PyDate,
    baseIndex: real,
    adjustmentMonth: PyDate,
    adjustmentIndex: real,
    factorK: real,
    measurement: real,
    adjustment: real)

  /** `salvar_calculo` up to the database write: the five amounts go
      through ensure_decimal in argument order, the first failure aborts,
      and every other field is stored as given. The clock reading
      (`datetime.utcnow()`) is a parameter. */
  function BuildRecord(contractId: int, calculatedAt: int,
                       baseMonth: PyDate, baseIndex: PyValue,
                       adjustmentMonth: PyDate, adjustmentIndex: PyValue,
                       factorK: PyValue, measurement: PyValue, adjustment: PyValue)
    : (r: Result<CalculationRecord, Error>)
    ensures r.Ok? <==>
              && EnsureDecimal(baseIndex).Ok? && EnsureDecimal(adjustmentIndex).Ok?
              && EnsureDecimal(factorK).Ok? && EnsureDecimal(measurement).Ok?
              && EnsureDecimal(adjustment).Ok?
    ensures r.Ok? ==>
              && r.value.contractId == contractId && r.value.calculatedAt == calculatedAt
              && r.value.baseMonth == baseMonth && r.value.adjustmentMonth == adjustmentMonth
              && r.value.baseIndex == EnsureDecimal(baseIndex).value
              && r.value.adjustmentIndex == EnsureDecimal(adjustmentIndex).value
              && r.value.factorK == EnsureDecimal(factorK).value
              && r.value.measurement == EnsureDecimal(measurement).value
              && r.value.adjustment == EnsureDecimal(adjustment).value
    ensures EnsureDecimal(baseIndex).Err? ==> r == Err(EnsureDecimal(baseIndex).error)
    ensures EnsureDecimal(baseIndex).Ok? && EnsureDecimal(adjustmentIndex).Err? ==>
              r == Err(EnsureDecimal(adjustmentIndex).error)
    ensures EnsureDecimal(baseIndex).Ok? && EnsureDecimal(adjustmentIndex).Ok?
            && EnsureDecimal(factorK).Err? ==>
              r == Err(EnsureDecimal(factorK).error)
    ensures EnsureDecimal(baseIndex).Ok? && EnsureDecimal(adjustmentIndex).Ok?
            && EnsureDecimal(factorK).Ok? && EnsureDecimal(measurement).Err? ==>
              r == Err(EnsureDecimal(measurement).error)
    ensures EnsureDecimal(baseIndex).Ok? && EnsureDecimal(adjustmentIndex).Ok?
            && EnsureDecimal(factorK).Ok? && EnsureDecimal(measurement).Ok?
            && EnsureDecimal(adjustment).Err? ==>
              r == Err(EnsureDecimal(adjustment).error)
  {
    var i0 :- EnsureDecimal(baseIndex);
    var i1 :- EnsureDecimal(adjustmentIndex);
    var k :- EnsureDecimal(factorK);
    var vr :- EnsureDecimal(measurement);
    var adj :- EnsureDecimal(adjustment);
    Ok(CalculationRecord(contractId, calculatedAt, baseMonth, i0, adjustmentMonth, i1, k, vr, adj))
  }

  /** Storing values that are already Decimals keeps them unchanged. */
  lemma {:induction false} RecordKeepsDecimals(contractId: int, calculatedAt: int,
                                               baseMonth: PyDate, i0: real,
                                               adjustmentMonth: PyDate, i1: real,
                                               k: real, vr: real, adj: real)
    ensures BuildRecord(contractId, calculatedAt, baseMonth, PyDecimal(i0), adjustmentMonth,
                        PyDecimal(i1), PyDecimal(k), PyDecimal(vr), PyDecimal(adj))
            == Ok(CalculationRecord(contractId, calculatedAt, baseMonth, i0, adjustmentMonth,
                                    i1, k, vr, adj))
  {
  }
}
