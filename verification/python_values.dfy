/** The dynamically typed values the source's entry points receive, and the
    exceptions they raise. */
module PyValues {

  /** A Python argument, as far as the source distinguishes it: `None`, a
      `Decimal` (an exact rational here), a `str`, an `int`, a `bool` (which
      Python treats as an `int`), a `float` (carried as its `str()` text,
      the only thing the source ever reads from it) or any other object,
      known by its type name. */
  datatype PyValue =
    | PyNone
    | PyDecimal(d: real)
    | PyStr(text: string)
    | PyInt(i: int)
    | PyBool(b: bool)
    | PyFloat(repr: string)
    | PyObject(typeName: string)

  /** `type(value).__name__`. */
  function TypeName(v: PyValue): string
  {
    match v
    case PyNone => "NoneType"
    case PyDecimal(_) => "Decimal"
    case PyStr(_) => "str"
    case PyInt(_) => "int"
    case PyBool(_) => "bool"
    case PyFloat(_) => "float"
    case PyObject(name) => name
  }

  datatype ErrorKind = TypeError | ValueError

  /** Every exception the modelled code raises, with the data its message
      carries. */
  datatype Error =
    | ExpectedDecimal(gotType: string)
    | FloatRejected(floatText: string)
    | UnsupportedType(typeName: string)
    | InvalidDecimalString(text: string)
    | ZeroBaseIndex
    | NegativeIndex
    | NegativeMeasurement
    | EmptyCurrencyText
    | InvalidCurrencyText(text: string)
  {
    function Kind(): ErrorKind
    {
      match this
      case ExpectedDecimal(_) => TypeError
      case FloatRejected(_) => TypeError
      case UnsupportedType(_) => TypeError
      case _ => ValueError
    }

    /** The exception text. For an unparsable string the detail after the
        colon is what the C implementation of `decimal` reports. */
    function Message(): string
    {
      match this
      case ExpectedDecimal(t) => "Expected Decimal, got " + t
      case FloatRejected(f) =>
        "Cannot convert float to Decimal directly. Use string conversion: Decimal(str("
        + f + ")) instead of Decimal(" + f + ")"
      case UnsupportedType(t) =>
        "Cannot convert " + t + " to Decimal. Supported types: Decimal, str, int"
      case InvalidDecimalString(s) =>
        "Cannot convert string '" + s + "' to Decimal: [<class 'decimal.ConversionSyntax'>]"
      case ZeroBaseIndex => "Base index (I_0) cannot be zero"
      case NegativeIndex => "Indices must be positive values"
      case NegativeMeasurement => "Measurement value (Vr) cannot be negative"
      case EmptyCurrencyText => "Valor não pode ser vazio"
      case InvalidCurrencyText(s) => "Formato de valor inválido: " + s
    }
  }
}
