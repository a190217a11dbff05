/**
 * The cell value of a QVD table (`Value`): a type code plus an integer, a double and a
 * string payload, with strict (`As*`) and coercing (`To*`) accessors.
 *
 * Doubles are opaque 64-bit patterns; string payloads are the undecoded UTF-8 bytes.
 * Library conversions (`Convert.ToInt32`, `Convert.ToDouble`, `ToString`) are parameters.
 */
module Values {
  import opened Wrappers
  import opened Numerics

  /** The IEEE-754 bit pattern of a `double`; no floating-point arithmetic is modelled. */
  type Bits64 = n: nat | n < 0x1_0000_0000_0000_0000

  datatype Float64 = Float64(bits: Bits64)

  /** The members of the `ValueType` enumeration. */
  const NullType: Int32 := 0
  const IntType: Int32 := 1
  const DoubleType: Int32 := 2
  const StringType: Int32 := 4
  const DualIntType: Int32 := 5
  const DualDoubleType: Int32 := 6

  predicate IsKnownType(kind: Int32) {
    kind == NullType || kind == IntType || kind == DoubleType
    || kind == StringType || kind == DualIntType || kind == DualDoubleType
  }

  /**
   * The `Value` struct. `stringPart` is `None` where the C# string is `null`; a struct
   * created without initialisers has type Null and all payloads at their defaults.
   */
  datatype Value = Value(kind: Int32, intPart: Int32, doublePart: Float64, stringPart: Option<Bytes>)

  /** `default(Value)`, which is also what `new Value { Type = ValueType.Null }` builds. */
  const NullValue: Value := Value(NullType, 0, Float64(0), None)

  predicate HasInt(v: Value) { v.kind == IntType || v.kind == DualIntType }
  predicate HasDouble(v: Value) { v.kind == DoubleType || v.kind == DualDoubleType }
  predicate HasString(v: Value) { v.kind == StringType || v.kind == DualIntType || v.kind == DualDoubleType }

  /** The exceptions the accessors throw. */
  datatype ValueError =
    | NotAnInteger            // AsInt on a value without an integer payload
    | NotADouble              // AsDouble on a value without a double payload
    | NoStringRepresentation  // AsString on Int or Double
    | NotConvertible          // ToInt/ToDouble on String without convertFromString
    | UnknownType             // a type code outside the enumeration
    | ConversionFailed        // a library conversion threw (format or overflow)

  /**
   * The library conversions the coercing accessors call. A `None` result is the
   * library throwing. The string parsers receive a non-null string; a null string is
   * handled by the accessors themselves (`Convert` maps it to zero).
   */
  datatype Conversions = Conversions(
    doubleToInt32: Float64 -> Option<Int32>,   // Convert.ToInt32(double): rounds, may overflow
    int32ToDouble: Int32 -> Float64,           // Convert.ToDouble(int)
    parseInt32: Bytes -> Option<Int32>,        // Convert.ToInt32(string)
    parseDouble: Bytes -> Option<Float64>,     // Convert.ToDouble(string)
    formatInt32: Int32 -> Bytes,               // int.ToString()
    formatDouble: Float64 -> Bytes)            // double.ToString()

  function AsInt(v: Value): (r: Result<Option<Int32>, ValueError>)
    ensures r.Success? <==> HasInt(v) || v.kind == NullType
    ensures r.Success? ==> (r.value.Some? <==> HasInt(v))
    ensures r.Success? && r.value.Some? ==> r.value.value == v.intPart
    ensures r.Failure? ==> r.error == NotAnInteger
  {
    if HasInt(v) then Success(Some(v.intPart))
    else if v.kind == NullType then Success(None)
    else Failure(NotAnInteger)
  }

  function AsDouble(v: Value): (r: Result<Option<Float64>, ValueError>)
    ensures r.Success? <==> HasDouble(v) || v.kind == NullType
    ensures r.Success? ==> (r.value.Some? <==> HasDouble(v))
    ensures r.Success? && r.value.Some? ==> r.value.value == v.doublePart
    ensures r.Failure? ==> r.error == NotADouble
  {
    if HasDouble(v) then Success(Some(v.doublePart))
    else if v.kind == NullType then Success(None)
    else Failure(NotADouble)
  }

  function AsString(v: Value): (r: Result<Option<Bytes>, ValueError>)
    ensures r.Success? <==> HasString(v) || v.kind == NullType
    ensures r.Success? && HasString(v) ==> r.value == v.stringPart
    ensures v.kind == NullType ==> r == Success(None)
    ensures r.Failure? ==> r.error == NoStringRepresentation
  {
    if HasString(v) then Success(v.stringPart)
    else if v.kind == NullType then Success(None)
    else Failure(NoStringRepresentation)
  }

  /** `Convert.ToInt32(string)`, with a null string giving zero. */
  function ParseInt(conv: Conversions, s: Option<Bytes>): (r: Result<Int32, ValueError>)
    ensures s.None? ==> r == Success(0)
    ensures s.Some? ==> (r.Success? <==> conv.parseInt32(s.value).Some?)
    ensures s.Some? && r.Success? ==> conv.parseInt32(s.value) == Some(r.value)
    ensures r.Failure? ==> r.error == ConversionFailed
  {
    if s.None? then Success(0)
    else if conv.parseInt32(s.value).Some? then Success(conv.parseInt32(s.value).value)
    else Failure(ConversionFailed)
  }

  /** `Convert.ToDouble(string)`, with a null string giving zero. */
  function ParseDouble(conv: Conversions, s: Option<Bytes>): (r: Result<Float64, ValueError>)
    ensures s.None? ==> r == Success(Float64(0))
    ensures s.Some? ==> (r.Success? <==> conv.parseDouble(s.value).Some?)
    ensures s.Some? && r.Success? ==> conv.parseDouble(s.value) == Some(r.value)
    ensures r.Failure? ==> r.error == ConversionFailed
  {
    if s.None? then Success(Float64(0))
    else if conv.parseDouble(s.value).Some? then Success(conv.parseDouble(s.value).value)
    else Failure(ConversionFailed)
  }

  function ToInt(v: Value, conv: Conversions, convertFromString: bool): (r: Result<Option<Int32>, ValueError>)
    ensures HasInt(v) ==> r == Success(Some(v.intPart))
    ensures v.kind == NullType ==> r == Success(None)
    ensures !IsKnownType(v.kind) ==> r == Failure(UnknownType)
    ensures v.kind == StringType && !convertFromString ==> r == Failure(NotConvertible)
    ensures HasDouble(v) ==> (r.Success? <==> conv.doubleToInt32(v.doublePart).Some?)
    ensures r.Success? && HasDouble(v) ==> r.value == conv.doubleToInt32(v.doublePart)
    ensures v.kind == StringType && convertFromString ==>
      (r.Success? <==> ParseInt(conv, v.stringPart).Success?) &&
      (r.Success? ==> r.value == Some(ParseInt(conv, v.stringPart).value)) &&
      (r.Failure? ==> r.error == ConversionFailed)
  {
    if HasInt(v) then Success(Some(v.intPart))
    else if HasDouble(v) then
      match conv.doubleToInt32(v.doublePart)
      case Some(n) => Success(Some(n))
      case None => Failure(ConversionFailed)
    else if v.kind == StringType then
      if convertFromString then
        match ParseInt(conv, v.stringPart)
        case Success(n) => Success(Some(n))
        case Failure(e) => Failure(e)
      else Failure(NotConvertible)
    else if v.kind == NullType then Success(None)
    else Failure(UnknownType)
  }

  function ToDouble(v: Value, conv: Conversions, convertFromString: bool): (r: Result<Option<Float64>, ValueError>)
    ensures HasDouble(v) ==> r == Success(Some(v.doublePart))
    ensures HasInt(v) ==> r == Success(Some(conv.int32ToDouble(v.intPart)))
    ensures v.kind == NullType ==> r == Success(None)
    ensures !IsKnownType(v.kind) ==> r == Failure(UnknownType)
    ensures v.kind == StringType && !convertFromString ==> r == Failure(NotConvertible)
    ensures v.kind == StringType && convertFromString ==>
      (r.Success? <==> ParseDouble(conv, v.stringPart).Success?) &&
      (r.Success? ==> r.value == Some(ParseDouble(conv, v.stringPart).value)) &&
      (r.Failure? ==> r.error == ConversionFailed)
  {
    if HasDouble(v) then Success(Some(v.doublePart))
    else if HasInt(v) then Success(Some(conv.int32ToDouble(v.intPart)))
    else if v.kind == StringType then
      if convertFromString then
        match ParseDouble(conv, v.stringPart)
        case Success(d) => Success(Some(d))
        case Failure(e) => Failure(e)
      else Failure(NotConvertible)
    else if v.kind == NullType then Success(None)
    else Failure(UnknownType)
  }

  /** The `ToString` override. */
  function ToText(v: Value, conv: Conversions): (r: Result<Option<Bytes>, ValueError>)
    ensures HasString(v) ==> r == Success(v.stringPart)
    ensures v.kind == IntType ==> r == Success(Some(conv.formatInt32(v.intPart)))
    ensures v.kind == DoubleType ==> r == Success(Some(conv.formatDouble(v.doublePart)))
    ensures v.kind == NullType ==> r == Success(None)
    ensures r.Failure? <==> !IsKnownType(v.kind)
  {
    if HasString(v) then Success(v.stringPart)
    else if v.kind == IntType then Success(Some(conv.formatInt32(v.intPart)))
    else if v.kind == DoubleType then Success(Some(conv.formatDouble(v.doublePart)))
    else if v.kind == NullType then Success(None)
    else Failure(UnknownType)
  }

  /** On a Null value every accessor returns null and none of them throws. */
  lemma NullAccessors(v: Value, conv: Conversions, convertFromString: bool)
    requires v.kind == NullType
    ensures AsInt(v) == Success(None) && AsDouble(v) == Success(None) && AsString(v) == Success(None)
    ensures ToInt(v, conv, convertFromString) == Success(None)
    ensures ToDouble(v, conv, convertFromString) == Success(None)
    ensures ToText(v, conv) == Success(None)
  {
  }

  /** Where a strict accessor succeeds, the coercing one returns the same thing. */
  lemma StrictAgreesWithCoercing(v: Value, conv: Conversions, convertFromString: bool)
    ensures AsInt(v).Success? ==> ToInt(v, conv, convertFromString) == AsInt(v)
    ensures AsDouble(v).Success? ==> ToDouble(v, conv, convertFromString) == AsDouble(v)
    ensures AsString(v).Success? ==> ToText(v, conv) == AsString(v)
  {
  }

  /** A Dual value prints as its text, whatever its numeric part. */
  lemma DualTextIgnoresNumber(v: Value, w: Value, conv: Conversions)
    requires v.kind == w.kind && (v.kind == DualIntType || v.kind == DualDoubleType)
    requires v.stringPart == w.stringPart
    ensures ToText(v, conv) == ToText(w, conv)
  {
  }

  /** A String value converts to a number only when the caller asks for it. */
  lemma StringConversionNeedsFlag(v: Value, conv: Conversions)
    requires v.kind == StringType
    ensures ToInt(v, conv, false) == Failure(NotConvertible)
    ensures ToDouble(v, conv, false) == Failure(NotConvertible)
    ensures v.stringPart.Some? && conv.parseInt32(v.stringPart.value).Some? ==>
      ToInt(v, conv, true) == Success(conv.parseInt32(v.stringPart.value))
    ensures v.stringPart.None? ==> ToInt(v, conv, true) == Success(Some(0))
    ensures v.stringPart.Some? && conv.parseInt32(v.stringPart.value).None? ==>
      ToInt(v, conv, true) == Failure(ConversionFailed)
    ensures v.stringPart.Some? && conv.parseDouble(v.stringPart.value).Some? ==>
      ToDouble(v, conv, true) == Success(conv.parseDouble(v.stringPart.value))
    ensures v.stringPart.Some? && conv.parseDouble(v.stringPart.value).None? ==>
      ToDouble(v, conv, true) == Failure(ConversionFailed)
    ensures v.stringPart.None? ==> ToDouble(v, conv, true) == Success(Some(Float64(0)))
  {
  }
}
