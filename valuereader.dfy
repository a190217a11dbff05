/**
 * The symbol-table reader (`ValueReader`): a run of tagged values, each a type byte
 * followed by a 4-byte little-endian integer, an 8-byte double, a NUL-terminated string,
 * or a number followed by a string.
 *
 * `DecodeValue`, `DecodeString` and `DecodeValues` say what a read yields; the
 * `ValueReader` class reads the same from a stream, with the growable scratch buffer.
 * `EncodeValue` writes the format, and the round-trip lemmas connect the two.
 */
module ValueReading {
  import opened Wrappers
  import opened Numerics
  import opened Values
  import opened Schema
  import opened Streams

  /** The largest buffer length that may still be doubled. */
  const MaxBufferSize: nat := 1048576
  const InitialBufferSize: nat := 64

  /**
   * A string of this many bytes fails: the buffer fills at this length once it can no
   * longer grow (the doubling stops above `MaxBufferSize`, at `2 * MaxBufferSize`).
   */
  const StringLimit: nat := 2 * MaxBufferSize

  /** The lengths the scratch buffer can have: 64 doubled at most 15 times. */
  const BufferLengths: set<nat> := {
    64, 128, 256, 512, 1024, 2048, 4096, 8192, 16384, 32768, 65536,
    131072, 262144, 524288, 1048576, 2097152 }

  datatype ReadError =
    | EndOfStream                 // the stream ended inside a value
    | UnknownValueType(tag: Byte) // InvalidValueException "Unknown value type"
    | StringTooLong               // InvalidValueException "String is longer than max length"
    | NegativeCount               // `new Value[NoOfSymbols]` with a negative count

  /** A string payload this format can carry: no NUL byte and below the length limit. */
  predicate ValidText(t: Bytes) {
    |t| < StringLimit && forall i :: 0 <= i < |t| ==> t[i] != 0
  }

  /**
   * The values a read can produce: a type the format knows, the payloads its tag
   * carries and the defaults everywhere else. Null is not among them.
   */
  predicate Canonical(v: Value) {
    if v.kind == IntType then v.doublePart == Float64(0) && v.stringPart.None?
    else if v.kind == DoubleType then v.intPart == 0 && v.stringPart.None?
    else if v.kind == StringType then
      v.intPart == 0 && v.doublePart == Float64(0) && v.stringPart.Some? && ValidText(v.stringPart.value)
    else if v.kind == DualIntType then
      v.doublePart == Float64(0) && v.stringPart.Some? && ValidText(v.stringPart.value)
    else if v.kind == DualDoubleType then
      v.intPart == 0 && v.stringPart.Some? && ValidText(v.stringPart.value)
    else false
  }

  /**
   * Scanning a string whose first `k` bytes were non-zero: its length, or the failure
   * that ends the scan.
   */
  function ScanText(data: Bytes, start: nat, k: nat): (r: Result<nat, ReadError>)
    requires k < StringLimit
    ensures r.Success? ==> k <= r.value < StringLimit && start + r.value < |data|
    ensures r.Success? ==> data[start + r.value] == 0
    ensures r.Success? ==> forall j :: start + k <= j < start + r.value ==> data[j] != 0
    decreases StringLimit - k
  {
    if start + k >= |data| then Failure(EndOfStream)
    else if data[start + k] == 0 then Success(k)
    else if k + 1 == StringLimit then Failure(StringTooLong)
    else ScanText(data, start, k + 1)
  }

  /** `ReadString`: the bytes before the first NUL, and the position past the NUL. */
  function DecodeString(data: Bytes, start: nat): (r: Result<(Bytes, nat), ReadError>)
    ensures r.Success? ==> ValidText(r.value.0) && r.value.1 == start + |r.value.0| + 1 <= |data|
    ensures r.Success? ==> data[start..r.value.1] == r.value.0 + [0]
  {
    match ScanText(data, start, 0)
    case Failure(e) => Failure(e)
    case Success(n) =>
      assert data[start..start + n + 1] == data[start..start + n] + [0];
      Success((data[start..start + n], start + n + 1))
  }

  /** `BinaryReader.ReadInt32`. */
  function DecodeInt(data: Bytes, pos: nat): (r: Result<(Int32, nat), ReadError>)
    ensures r.Success? <==> pos + 4 <= |data|
    ensures r.Success? ==> r.value == (Int32FromBytes(data[pos..pos + 4]), pos + 4)
  {
    if pos + 4 <= |data| then Success((Int32FromBytes(data[pos..pos + 4]), pos + 4))
    else Failure(EndOfStream)
  }

  /** `BinaryReader.ReadDouble`: the 8 bytes are the double's bit pattern, low byte first. */
  function DecodeDouble(data: Bytes, pos: nat): (r: Result<(Float64, nat), ReadError>)
    ensures r.Success? <==> pos + 8 <= |data|
    ensures r.Success? ==> r.value.1 == pos + 8 && r.value.0.bits == LittleEndian(data[pos..pos + 8])
  {
    if pos + 8 <= |data| then
      Pow2Constants();
      Success((Float64(LittleEndian(data[pos..pos + 8])), pos + 8))
    else Failure(EndOfStream)
  }

  /** `ReadValue`: one tagged value starting at `pos`, and the position after it. */
  function DecodeValue(data: Bytes, pos: nat): (r: Result<(Value, nat), ReadError>)
    ensures pos >= |data| ==> r == Failure(EndOfStream)
    ensures pos < |data| && !(data[pos] in {IntType, DoubleType, StringType, DualIntType, DualDoubleType}) ==>
      r == Failure(UnknownValueType(data[pos]))
    ensures r.Success? ==> pos < r.value.1 <= |data| && r.value.0.kind == data[pos] && Canonical(r.value.0)
    // the payloads: the number right after the tag, then (for the Dual types) the text
    ensures r.Success? ==> PayloadsAt(data, pos, r.value.0, r.value.1)
  {
    if pos >= |data| then Failure(EndOfStream)
    else
      var tag := data[pos];
      if tag == IntType then
        var n :- DecodeInt(data, pos + 1);
        Success((Value(IntType, n.0, Float64(0), None), n.1))
      else if tag == DoubleType then
        var d :- DecodeDouble(data, pos + 1);
        Success((Value(DoubleType, 0, d.0, None), d.1))
      else if tag == StringType then
        var s :- DecodeString(data, pos + 1);
        Success((Value(StringType, 0, Float64(0), Some(s.0)), s.1))
      else if tag == DualIntType then
        var n :- DecodeInt(data, pos + 1);
        var s :- DecodeString(data, n.1);
        Success((Value(DualIntType, n.0, Float64(0), Some(s.0)), s.1))
      else if tag == DualDoubleType then
        var d :- DecodeDouble(data, pos + 1);
        var s :- DecodeString(data, d.1);
        Success((Value(DualDoubleType, 0, d.0, Some(s.0)), s.1))
      else Failure(UnknownValueType(tag))
  }

  /** `count` values back to back from `pos`: the symbol table of one field. */
  function DecodeRun(data: Bytes, pos: nat, count: nat): (r: Result<(seq<Value>, nat), ReadError>)
    ensures r.Success? ==> |r.value.0| == count && pos <= r.value.1
    ensures r.Success? && count > 0 ==> r.value.1 <= |data|
    ensures r.Success? ==> forall i :: 0 <= i < count ==> Canonical(r.value.0[i])
    decreases count
  {
    if count == 0 then Success(([], pos))
    else
      var first :- DecodeValue(data, pos);
      var rest :- DecodeRun(data, first.1, count - 1);
      Success(([first.0] + rest.0, rest.1))
  }

  /** `ReadValues`: a table of `NoOfSymbols` values; a negative count cannot be allocated. */
  function DecodeValues(data: Bytes, pos: nat, count: Int32): (r: Result<(seq<Value>, nat), ReadError>)
    ensures count < 0 ==> r == Failure(NegativeCount)
    ensures r.Success? ==> |r.value.0| == count
  {
    if count < 0 then Failure(NegativeCount) else DecodeRun(data, pos, count)
  }

  /** A method's result paired with where it left the stream, to compare with a decoder. */
  function Outcome<T>(r: Result<T, ReadError>, pos: nat): Result<(T, nat), ReadError> {
    match r
    case Success(x) => Success((x, pos))
    case Failure(e) => Failure(e)
  }

  // ---------------------------------------------------------------------------
  // The encoder and the round trips

  function EncodeText(t: Bytes): Bytes { t + [0] }

  /** The text a value carries, empty where it has none. */
  function TextOf(v: Value): Bytes {
    if v.stringPart.Some? then v.stringPart.value else []
  }

  /**
   * The bytes a writer of this format emits for a value of a known, non-Null type
   * (nothing for any other type code, which the format cannot carry).
   */
  function EncodeValue(v: Value): (r: Bytes)
    ensures Canonical(v) ==> |r| > 0 && r[0] == v.kind
  {
    if v.kind == IntType then [1] + Int32ToBytes(v.intPart)
    else if v.kind == DoubleType then [2] + ToLittleEndian(v.doublePart.bits, 8)
    else if v.kind == StringType then [4] + EncodeText(TextOf(v))
    else if v.kind == DualIntType then [5] + Int32ToBytes(v.intPart) + EncodeText(TextOf(v))
    else if v.kind == DualDoubleType then [6] + ToLittleEndian(v.doublePart.bits, 8) + EncodeText(TextOf(v))
    else []
  }

  lemma {:induction false} ScanValidText(data: Bytes, start: nat, t: Bytes, k: nat)
    requires ValidText(t) && k <= |t|
    requires start + |t| < |data| && data[start..start + |t| + 1] == t + [0]
    ensures ScanText(data, start, k) == Success(|t|)
    decreases |t| - k
  {
    assert data[start + k] == (t + [0])[k];
    if k < |t| {
      ScanValidText(data, start, t, k + 1);
    }
  }

  lemma DecodeEncodedText(data: Bytes, start: nat, t: Bytes)
    requires ValidText(t) && start + |t| < |data| && data[start..start + |t| + 1] == EncodeText(t)
    ensures DecodeString(data, start) == Success((t, start + |t| + 1))
  {
    ScanValidText(data, start, t, 0);
    assert data[start..start + |t|] == data[start..start + |t| + 1][..|t|];
  }

  lemma DecodeEncodedInt(data: Bytes, pos: nat, x: Int32)
    requires pos + 4 <= |data| && data[pos..pos + 4] == Int32ToBytes(x)
    ensures DecodeInt(data, pos) == Success((x, pos + 4))
  {
    Int32RoundTrip(x);
  }

  lemma DecodeEncodedDouble(data: Bytes, pos: nat, d: Float64)
    requires pos + 8 <= |data| && data[pos..pos + 8] == ToLittleEndian(d.bits, 8)
    ensures DecodeDouble(data, pos) == Success((d, pos + 8))
  {
    Pow2Constants();
    LittleEndianRoundTrip(d.bits, 8);
  }

  /**
   * Round trip: an encoded value, wherever it sits in the stream, reads back as itself
   * with the cursor just past its encoding.
   */
  lemma DecodeEncodeValue(pre: Bytes, v: Value, post: Bytes)
    requires Canonical(v)
    ensures DecodeValue(pre + EncodeValue(v) + post, |pre|) == Success((v, |pre| + |EncodeValue(v)|))
  {
    EncodedBetween(pre, v, post);
    DecodeEncodedAt(pre + EncodeValue(v) + post, |pre|, v, |pre| + |EncodeValue(v)|);
  }

  lemma EncodedBetween(pre: Bytes, v: Value, post: Bytes)
    requires Canonical(v)
    ensures ValueEncodedAt(pre + EncodeValue(v) + post, |pre|, v, |pre| + |EncodeValue(v)|)
  {
    var e := EncodeValue(v);
    assert (pre + e + post)[|pre|..|pre| + |e|] == e;
  }

  /** The encoding of one readable value sits in `data` from `p` to `q`. */
  predicate ValueEncodedAt(data: Bytes, p: nat, v: Value, q: nat) {
    Canonical(v) && q == p + |EncodeValue(v)| && q <= |data| && data[p..q] == EncodeValue(v)
  }

  /** What a value read at `pos` and ending at `q` holds: for each tag, the
      number right after it and then, for the Dual types, the text. */
  predicate PayloadsAt(data: Bytes, pos: nat, v: Value, q: nat) {
    if v.kind == IntType then
      DecodeInt(data, pos + 1) == Success((v.intPart, q)) && q == pos + 5
    else if v.kind == DoubleType then
      DecodeDouble(data, pos + 1) == Success((v.doublePart, q)) && q == pos + 9
    else if v.kind == StringType then
      v.stringPart.Some? && DecodeString(data, pos + 1) == Success((v.stringPart.value, q))
    else if v.kind == DualIntType then
      DecodeInt(data, pos + 1) == Success((v.intPart, pos + 5)) &&
      v.stringPart.Some? && DecodeString(data, pos + 5) == Success((v.stringPart.value, q))
    else if v.kind == DualDoubleType then
      DecodeDouble(data, pos + 1) == Success((v.doublePart, pos + 9)) &&
      v.stringPart.Some? && DecodeString(data, pos + 9) == Success((v.stringPart.value, q))
    else false
  }

  /** Reading a value at `p` gives `v` and stops at `q`. */
  predicate ValueReadsBack(data: Bytes, p: nat, v: Value, q: nat) {
    DecodeValue(data, p) == Success((v, q))
  }

  lemma DecodeEncodedAt(data: Bytes, p: nat, v: Value, q: nat)
    requires ValueEncodedAt(data, p, v, q)
    ensures ValueReadsBack(data, p, v, q)
  {
    if v.kind == IntType {
      IntEncodedAt(data, p, v, q);
    } else if v.kind == DoubleType {
      DoubleEncodedAt(data, p, v, q);
    } else if v.kind == StringType {
      StringEncodedAt(data, p, v, q);
    } else if v.kind == DualIntType {
      DualIntEncodedAt(data, p, v, q);
    } else {
      DualDoubleEncodedAt(data, p, v, q);
    }
  }

  /** A window inside an encoding that sits at `p` is the same window of the stream. */
  lemma Window(data: Bytes, p: nat, e: Bytes, a: nat, b: nat)
    requires p + |e| <= |data| && data[p..p + |e|] == e && a <= b <= |e|
    ensures data[p + a..p + b] == e[a..b]
  {
    forall i | a <= i < b
      ensures data[p + a..p + b][i - a] == e[i]
    {
      assert e[i] == data[p..p + |e|][i];
    }
  }

  lemma IntEncodedAt(data: Bytes, p: nat, v: Value, q: nat)
    requires ValueEncodedAt(data, p, v, q) && v.kind == IntType
    ensures ValueReadsBack(data, p, v, q)
  {
    var e := EncodeValue(v);
    assert data[p] == data[p..q][0];
    Window(data, p, e, 1, 5);
    DecodeEncodedInt(data, p + 1, v.intPart);
    ReadsInt(data, p, v.intPart, q);
    assert v == Value(IntType, v.intPart, Float64(0), None);
  }

  lemma DoubleEncodedAt(data: Bytes, p: nat, v: Value, q: nat)
    requires ValueEncodedAt(data, p, v, q) && v.kind == DoubleType
    ensures ValueReadsBack(data, p, v, q)
  {
    var e := EncodeValue(v);
    assert data[p] == data[p..q][0];
    Window(data, p, e, 1, 9);
    DecodeEncodedDouble(data, p + 1, v.doublePart);
    ReadsDouble(data, p, v.doublePart, q);
    assert v == Value(DoubleType, 0, v.doublePart, None);
  }

  lemma StringEncodedAt(data: Bytes, p: nat, v: Value, q: nat)
    requires ValueEncodedAt(data, p, v, q) && v.kind == StringType
    ensures ValueReadsBack(data, p, v, q)
  {
    var e := EncodeValue(v);
    var t := v.stringPart.value;
    assert data[p] == data[p..q][0];
    Window(data, p, e, 1, |e|);
    assert e[1..|e|] == EncodeText(t);
    DecodeEncodedText(data, p + 1, t);
    ReadsString(data, p, t, q);
    assert v == Value(StringType, 0, Float64(0), Some(t));
  }

  lemma DualIntEncodedAt(data: Bytes, p: nat, v: Value, q: nat)
    requires ValueEncodedAt(data, p, v, q) && v.kind == DualIntType
    ensures ValueReadsBack(data, p, v, q)
  {
    var e := EncodeValue(v);
    var t := v.stringPart.value;
    assert data[p] == data[p..q][0];
    Window(data, p, e, 1, 5);
    assert e[1..5] == Int32ToBytes(v.intPart);
    DecodeEncodedInt(data, p + 1, v.intPart);
    Window(data, p, e, 5, |e|);
    assert e[5..|e|] == EncodeText(t);
    DecodeEncodedText(data, p + 5, t);
    ReadsDualInt(data, p, v.intPart, t, q);
    assert v == Value(DualIntType, v.intPart, Float64(0), Some(t));
  }

  lemma DualDoubleEncodedAt(data: Bytes, p: nat, v: Value, q: nat)
    requires ValueEncodedAt(data, p, v, q) && v.kind == DualDoubleType
    ensures ValueReadsBack(data, p, v, q)
  {
    var e := EncodeValue(v);
    var t := v.stringPart.value;
    assert data[p] == data[p..q][0];
    Window(data, p, e, 1, 9);
    assert e[1..9] == ToLittleEndian(v.doublePart.bits, 8);
    DecodeEncodedDouble(data, p + 1, v.doublePart);
    Window(data, p, e, 9, |e|);
    assert e[9..|e|] == EncodeText(t);
    DecodeEncodedText(data, p + 9, t);
    ReadsDualDouble(data, p, v.doublePart, t, q);
    assert v == Value(DualDoubleType, 0, v.doublePart, Some(t));
  }

  // What the tag switch yields once the payload reads are known.

  lemma ReadsInt(data: Bytes, p: nat, x: Int32, q: nat)
    requires p < |data| && data[p] == IntType && DecodeInt(data, p + 1) == Success((x, q))
    ensures ValueReadsBack(data, p, Value(IntType, x, Float64(0), None), q)
  {
  }

  lemma ReadsDouble(data: Bytes, p: nat, d: Float64, q: nat)
    requires p < |data| && data[p] == DoubleType && DecodeDouble(data, p + 1) == Success((d, q))
    ensures ValueReadsBack(data, p, Value(DoubleType, 0, d, None), q)
  {
  }

  lemma ReadsString(data: Bytes, p: nat, t: Bytes, q: nat)
    requires p < |data| && data[p] == StringType && DecodeString(data, p + 1) == Success((t, q))
    ensures ValueReadsBack(data, p, Value(StringType, 0, Float64(0), Some(t)), q)
  {
  }

  lemma ReadsDualInt(data: Bytes, p: nat, x: Int32, t: Bytes, q: nat)
    requires p < |data| && data[p] == DualIntType && DecodeInt(data, p + 1) == Success((x, p + 5))
    requires DecodeString(data, p + 5) == Success((t, q))
    ensures ValueReadsBack(data, p, Value(DualIntType, x, Float64(0), Some(t)), q)
  {
  }

  lemma ReadsDualDouble(data: Bytes, p: nat, d: Float64, t: Bytes, q: nat)
    requires p < |data| && data[p] == DualDoubleType && DecodeDouble(data, p + 1) == Success((d, p + 9))
    requires DecodeString(data, p + 9) == Success((t, q))
    ensures ValueReadsBack(data, p, Value(DualDoubleType, 0, d, Some(t)), q)
  {
  }

  /** The converse: whatever a read accepts is the encoding of the value it returns. */
  lemma EncodeDecodedValue(data: Bytes, pos: nat)
    requires DecodeValue(data, pos).Success?
    ensures EncodeValue(DecodeValue(data, pos).value.0) == data[pos..DecodeValue(data, pos).value.1]
  {
    var tag := data[pos];
    if tag == IntType {
      EncodeDecodedInt(data, pos);
    } else if tag == DoubleType {
      EncodeDecodedDouble(data, pos);
    } else if tag == StringType {
      EncodeDecodedString(data, pos);
    } else if tag == DualIntType {
      EncodeDecodedDualInt(data, pos);
    } else {
      EncodeDecodedDualDouble(data, pos);
    }
  }

  lemma EncodeDecodedInt(data: Bytes, pos: nat)
    requires DecodeValue(data, pos).Success? && data[pos] == IntType
    ensures EncodeValue(DecodeValue(data, pos).value.0) == data[pos..DecodeValue(data, pos).value.1]
  {
    var q := DecodeValue(data, pos).value.1;
    Int32BytesInverse(data[pos + 1..pos + 5]);
    assert data[pos..q] == [data[pos]] + data[pos + 1..pos + 5];
  }

  lemma EncodeDecodedDouble(data: Bytes, pos: nat)
    requires DecodeValue(data, pos).Success? && data[pos] == DoubleType
    ensures EncodeValue(DecodeValue(data, pos).value.0) == data[pos..DecodeValue(data, pos).value.1]
  {
    var q := DecodeValue(data, pos).value.1;
    LittleEndianInverse(data[pos + 1..pos + 9]);
    assert data[pos..q] == [data[pos]] + data[pos + 1..pos + 9];
  }

  lemma EncodeDecodedString(data: Bytes, pos: nat)
    requires DecodeValue(data, pos).Success? && data[pos] == StringType
    ensures EncodeValue(DecodeValue(data, pos).value.0) == data[pos..DecodeValue(data, pos).value.1]
  {
    var q := DecodeValue(data, pos).value.1;
    assert data[pos..q] == [data[pos]] + data[pos + 1..q];
  }

  lemma EncodeDecodedDualInt(data: Bytes, pos: nat)
    requires DecodeValue(data, pos).Success? && data[pos] == DualIntType
    ensures EncodeValue(DecodeValue(data, pos).value.0) == data[pos..DecodeValue(data, pos).value.1]
  {
    var q := DecodeValue(data, pos).value.1;
    Int32BytesInverse(data[pos + 1..pos + 5]);
    assert data[pos..q] == [data[pos]] + data[pos + 1..pos + 5] + data[pos + 5..q];
  }

  lemma EncodeDecodedDualDouble(data: Bytes, pos: nat)
    requires DecodeValue(data, pos).Success? && data[pos] == DualDoubleType
    ensures EncodeValue(DecodeValue(data, pos).value.0) == data[pos..DecodeValue(data, pos).value.1]
  {
    var q := DecodeValue(data, pos).value.1;
    LittleEndianInverse(data[pos + 1..pos + 9]);
    assert data[pos..q] == [data[pos]] + data[pos + 1..pos + 9] + data[pos + 9..q];
  }

  /** A symbol table never holds a Null value. */
  lemma NoNullInTable(data: Bytes, pos: nat, count: Int32, i: nat)
    requires DecodeValues(data, pos, count).Success? && i < count
    ensures DecodeValues(data, pos, count).value.0[i].kind != NullType
  {
  }

  // ---------------------------------------------------------------------------
  // The reader

  /**
   * `ValueReader` with its static scratch buffer, which keeps its grown length from one
   * string to the next.
   */
  class ValueReader {
    var buffer: array<Byte>

    ghost predicate Valid()
      reads this
    {
      buffer.Length in BufferLengths
    }

    constructor ()
      ensures Valid() && fresh(buffer) && buffer.Length == InitialBufferSize
    {
      buffer := new Byte[InitialBufferSize](_ => 0);
    }

    /** `Array.Resize(ref buffer, buffer.Length * 2)`. */
    method Grow()
      requires Valid() && buffer.Length <= MaxBufferSize
      modifies this
      ensures Valid() && fresh(buffer) && buffer.Length == 2 * old(buffer.Length)
      ensures buffer[..old(buffer.Length)] == old(buffer[..])
    {
      var larger := new Byte[2 * buffer.Length](_ => 0);
      var previous := buffer;
      forall i | 0 <= i < previous.Length {
        larger[i] := previous[i];
      }
      buffer := larger;
      assert buffer[..previous.Length] == previous[..];
    }

    /**
     * `buffer[pos++] = nextByte` with the growth step after it: doubles a full buffer,
     * and fails when a full buffer may not grow any more.
     */
    method Append(pos: nat, b: Byte) returns (ok: bool)
      requires Valid() && pos < buffer.Length
      modifies this, buffer
      ensures Valid() && (buffer == old(buffer) || fresh(buffer))
      ensures ok <==> pos + 1 < StringLimit
      ensures ok ==> pos + 1 < buffer.Length && buffer[..pos + 1] == old(buffer[..pos]) + [b]
    {
      buffer[pos] := b;
      assert buffer[..pos + 1] == old(buffer[..pos]) + [b];
      BufferLimit(buffer.Length);
      if pos + 1 == buffer.Length {
        if buffer.Length <= MaxBufferSize {
          Grow();
          BufferLimit(buffer.Length);
        } else {
          return false;
        }
      }
      return true;
    }

    /** `ReadString`: the bytes up to the next NUL, which is consumed and not kept. */
    method ReadString(input: ByteStream) returns (r: Result<Bytes, ReadError>)
      requires Valid()
      modifies this, buffer, input
      ensures Valid()
      ensures Outcome(r, input.pos) == DecodeString(input.data, old(input.pos))
      ensures buffer == old(buffer) || fresh(buffer)
      ensures r.Success? ==> |r.value| < buffer.Length && r.value == buffer[..|r.value|]
    {
      ghost var start := input.pos;
      ghost var data := input.data;
      var pos := 0;
      var next := input.ReadByte();
      ScanStart(data, start);
      if next < 0 {
        ScanEnd(data, start, 0);
        return Failure(EndOfStream);
      }
      while next != 0
        invariant Valid() && (buffer == old(buffer) || fresh(buffer))
        invariant pos < buffer.Length && pos < StringLimit && input.data == data
        invariant start + pos < |data| && next == data[start + pos]
        invariant input.pos == start + pos + 1
        invariant buffer[..pos] == data[start..start + pos]
        invariant Scanned(data, start, pos)
        decreases StringLimit - pos
      {
        ghost var kept := buffer[..pos];
        var stored := Append(pos, next);
        if !stored {
          ScanFull(data, start, pos);
          return Failure(StringTooLong);
        }
        ScanStep(data, start, pos);
        SliceExtend(data, start, pos, kept);
        pos := pos + 1;
        next := input.ReadByte();
        if next < 0 {
          ScanEnd(data, start, pos);
          return Failure(EndOfStream);
        }
      }
      ScanFound(data, start, pos);
      return Success(buffer[..pos]);
    }

    /** `ReadValue`: the type byte, then the payloads that type carries. */
    method ReadValue(input: ByteStream) returns (r: Result<Value, ReadError>)
      requires Valid()
      modifies this, buffer, input
      ensures Valid() && (buffer == old(buffer) || fresh(buffer))
      ensures Outcome(r, input.pos) == DecodeValue(input.data, old(input.pos))
    {
      ghost var start := input.pos;
      var tag := input.ReadByte();
      if tag < 0 {
        return Failure(EndOfStream);
      }
      if tag == IntType {
        var bs, ok := input.ReadBytes(4);
        if !ok {
          return Failure(EndOfStream);
        }
        r := Success(Value(IntType, Int32FromBytes(bs), Float64(0), None));
      } else if tag == DoubleType {
        var d := ReadDouble(input);
        if d.Failure? {
          return Failure(d.error);
        }
        r := Success(Value(DoubleType, 0, d.value, None));
      } else if tag == StringType {
        var s := ReadString(input);
        if s.Failure? {
          return Failure(s.error);
        }
        r := Success(Value(StringType, 0, Float64(0), Some(s.value)));
      } else if tag == DualIntType {
        var bs, ok := input.ReadBytes(4);
        if !ok {
          return Failure(EndOfStream);
        }
        var s := ReadString(input);
        if s.Failure? {
          return Failure(s.error);
        }
        r := Success(Value(DualIntType, Int32FromBytes(bs), Float64(0), Some(s.value)));
      } else if tag == DualDoubleType {
        var d := ReadDouble(input);
        if d.Failure? {
          return Failure(d.error);
        }
        var s := ReadString(input);
        if s.Failure? {
          return Failure(s.error);
        }
        r := Success(Value(DualDoubleType, 0, d.value, Some(s.value)));
      } else {
        r := Failure(UnknownValueType(tag));
      }
    }

    /** `BinaryReader.ReadDouble`. */
    static method ReadDouble(input: ByteStream) returns (r: Result<Float64, ReadError>)
      modifies input
      ensures r.Success? ==> Outcome(r, input.pos) == DecodeDouble(input.data, old(input.pos))
      ensures r.Failure? <==> DecodeDouble(input.data, old(input.pos)).Failure?
      ensures r.Failure? ==> r.error == EndOfStream
    {
      var bs, ok := input.ReadBytes(8);
      if !ok {
        return Failure(EndOfStream);
      }
      Pow2Constants();
      r := Success(Float64(LittleEndian(bs)));
    }

    /** `ReadValues`: `NoOfSymbols` values into a new array, in stream order. */
    method ReadValues(field: FieldInfo, input: ByteStream) returns (r: Result<array<Value>, ReadError>)
      requires Valid()
      modifies this, buffer, input
      ensures Valid() && (buffer == old(buffer) || fresh(buffer))
      ensures r.Success? ==> fresh(r.value)
      ensures r.Success? <==> DecodeValues(input.data, old(input.pos), field.noOfSymbols).Success?
      ensures r.Success? ==> DecodeValues(input.data, old(input.pos), field.noOfSymbols).value == (r.value[..], input.pos)
      ensures r.Failure? ==> DecodeValues(input.data, old(input.pos), field.noOfSymbols).error == r.error
    {
      if field.noOfSymbols < 0 {
        return Failure(NegativeCount);
      }
      ghost var start := input.pos;
      ghost var data := input.data;
      var n: nat := field.noOfSymbols;
      var values := new Value[n](_ => NullValue);
      assert values[..0] == [];
      ReadSoFarStart(data, start, n);
      for i := 0 to n
        invariant Valid() && fresh(values) && (buffer == old(buffer) || fresh(buffer))
        invariant input.data == data
        invariant ReadSoFar(data, start, n, values[..i], input.pos)
      {
        ghost var here := input.pos;
        ghost var done := values[..i];
        var v := ReadValue(input);
        ReadSoFarStep(data, start, n, done, here, v, input.pos);
        if v.Failure? {
          return Failure(v.error);
        }
        values[i] := v.value;
        assert values[..i + 1] == done + [v.value];
      }
      assert values[..] == values[..n];
      ReadSoFarEnd(data, start, n, values[..], input.pos);
      return Success(values);
    }
  }

  /** The first `k` bytes of the string at `start` are non-zero, so the scan goes on from `k`. */
  predicate Scanned(data: Bytes, start: nat, k: nat) {
    k < StringLimit && ScanText(data, start, k) == ScanText(data, start, 0)
  }

  lemma ScanStart(data: Bytes, start: nat)
    ensures Scanned(data, start, 0)
  {
  }

  lemma ScanStep(data: Bytes, start: nat, k: nat)
    requires Scanned(data, start, k) && k + 1 < StringLimit && start + k < |data| && data[start + k] != 0
    ensures Scanned(data, start, k + 1)
  {
  }

  /** The stream ends before the terminator: the string read fails. */
  lemma ScanEnd(data: Bytes, start: nat, k: nat)
    requires Scanned(data, start, k) && start + k >= |data|
    ensures DecodeString(data, start) == Failure(EndOfStream)
  {
  }

  /** A non-zero byte at the last place the buffer has: the string is too long. */
  lemma ScanFull(data: Bytes, start: nat, k: nat)
    requires Scanned(data, start, k) && k + 1 == StringLimit && start + k < |data| && data[start + k] != 0
    ensures DecodeString(data, start) == Failure(StringTooLong)
  {
  }

  /** The terminator after `k` bytes: the string is those bytes. */
  lemma ScanFound(data: Bytes, start: nat, k: nat)
    requires Scanned(data, start, k) && start + k < |data| && data[start + k] == 0
    ensures DecodeString(data, start) == Success((data[start..start + k], start + k + 1))
  {
  }

  /** The bytes kept so far plus the next one are the next prefix of the string. */
  lemma SliceExtend(data: Bytes, start: nat, k: nat, kept: Bytes)
    requires start + k < |data| && kept == data[start..start + k]
    ensures kept + [data[start + k]] == data[start..start + k + 1]
  {
  }

  /** Only the largest buffer length is above the growth bound, and it is the string limit. */
  lemma BufferLimit(n: nat)
    requires n in BufferLengths
    ensures n <= StringLimit
    ensures n > MaxBufferSize ==> n == StringLimit
    ensures n <= MaxBufferSize ==> 2 * n in BufferLengths
  {
  }

  /**
   * `done` are the first values of the run of `n` at `start`, and the rest of the run
   * starts at `p`.
   */
  predicate ReadSoFar(data: Bytes, start: nat, n: nat, done: seq<Value>, p: nat) {
    |done| <= n && Then(done, DecodeRun(data, p, n - |done|)) == DecodeRun(data, start, n)
  }

  lemma ReadSoFarStart(data: Bytes, start: nat, n: nat)
    ensures ReadSoFar(data, start, n, [], start)
  {
    ThenNothing(DecodeRun(data, start, n));
  }

  /** One more value read: the run fails with it, or it joins the values read so far. */
  lemma ReadSoFarStep(data: Bytes, start: nat, n: nat, done: seq<Value>, p: nat,
                      r: Result<Value, ReadError>, q: nat)
    requires |done| < n && ReadSoFar(data, start, n, done, p)
    requires Outcome(r, q) == DecodeValue(data, p)
    ensures r.Failure? ==> DecodeRun(data, start, n) == Failure(r.error)
    ensures r.Success? ==> ReadSoFar(data, start, n, done + [r.value], q)
  {
    var k := n - |done|;
    RunStep(data, p, k);
    if r.Success? {
      assert |done + [r.value]| == |done| + 1;
      ThenThen(done, [r.value], DecodeRun(data, q, k - 1));
    }
  }

  lemma ReadSoFarEnd(data: Bytes, start: nat, n: nat, done: seq<Value>, p: nat)
    requires |done| == n && ReadSoFar(data, start, n, done, p)
    ensures DecodeRun(data, start, n) == Success((done, p))
  {
    assert DecodeRun(data, p, 0) == Success(([], p));
    assert done + [] == done;
  }

  /** A run is its first value followed by the rest of the run. */
  lemma RunStep(data: Bytes, pos: nat, count: nat)
    requires count > 0
    ensures DecodeValue(data, pos).Failure? ==> DecodeRun(data, pos, count) == Failure(DecodeValue(data, pos).error)
    ensures DecodeValue(data, pos).Success? ==> (DecodeRun(data, pos, count) ==
      Then([DecodeValue(data, pos).value.0], DecodeRun(data, DecodeValue(data, pos).value.1, count - 1)))
  {
  }

  lemma ThenThen(a: seq<Value>, b: seq<Value>, rest: Result<(seq<Value>, nat), ReadError>)
    ensures Then(a, Then(b, rest)) == Then(a + b, rest)
  {
    if rest.Success? {
      assert a + (b + rest.value.0) == (a + b) + rest.value.0;
    }
  }

  lemma ThenNothing(rest: Result<(seq<Value>, nat), ReadError>)
    ensures Then([], rest) == rest
  {
    if rest.Success? {
      assert [] + rest.value.0 == rest.value.0;
    }
  }

  /** Puts already-read values in front of the rest of a run. */
  function Then(done: seq<Value>, rest: Result<(seq<Value>, nat), ReadError>): Result<(seq<Value>, nat), ReadError> {
    match rest
    case Success(x) => Success((done + x.0, x.1))
    case Failure(e) => Failure(e)
  }
}
