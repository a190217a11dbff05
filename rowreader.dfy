/**
 * The row decoder (`RowReader`). A record is `RecordByteSize` bytes; the fields, in the
 * order of their bit offsets, take `BitWidth` bits each, back to back from bit 0, least
 * significant bit first. A field's bits plus its `Bias` give an index into the field's
 * symbol table, and the index -2 stands for Null.
 *
 * The bit offsets only order the fields: they never place the cursor.
 */
module RowReading {
  import opened Wrappers
  import opened Numerics
  import opened BitOps
  import opened Sorting
  import opened Values
  import opened Schema
  import opened Streams

  /** `BitMasks[k]` keeps the low `k` bits of a byte. */
  const BitMasks: seq<Byte> := [0x00, 0x01, 0x03, 0x07, 0x0F, 0x1F, 0x3F, 0x7F, 0xFF]

  /** The index that stands for a Null cell once the bias is added. */
  const NullIndex: int := -2

  /** The exceptions `ReadRow` can end with. */
  datatype RowError =
    | EndOfStream       // fewer than RecordByteSize bytes are left (`ReadExactly`)
    | BufferOverrun     // a field's bits run past the end of the record buffer
    | MissingTable      // a field beyond the list of symbol tables
    | SymbolOutOfRange  // a biased index that is neither -2 nor inside the table

  /** Every width is small enough for `bitValue << bitsRead` to stay a non-negative `int`. */
  predicate Narrow(fields: seq<FieldInfo>) {
    forall i :: 0 <= i < |fields| ==> fields[i].bitWidth <= 31
  }

  /** The bits a field takes: `while (bitsLeft > 0)` reads nothing for a width below 1. */
  function Width(f: FieldInfo): nat {
    if f.bitWidth > 0 then f.bitWidth else 0
  }

  /** The bit at which field `i` starts: the widths of the fields before it, added up. */
  function Start(fields: seq<FieldInfo>, i: nat): nat
    requires i <= |fields|
  {
    if i == 0 then 0 else Start(fields, i - 1) + Width(fields[i - 1])
  }

  lemma {:induction false} StartMonotonic(fields: seq<FieldInfo>, i: nat, j: nat)
    requires i <= j <= |fields|
    ensures Start(fields, i) <= Start(fields, j)
    decreases j
  {
    if i < j {
      StartMonotonic(fields, i, j - 1);
    }
  }

  /** The raw index of field `i`: its bits, the first one the least significant. */
  function RawIndex(rec: Bytes, fields: seq<FieldInfo>, i: nat): nat
    requires i < |fields| && Start(fields, i + 1) <= 8 * |rec|
  {
    BitsAt(rec, Start(fields, i), Width(fields[i]))
  }

  lemma RawIndexFits(rec: Bytes, fields: seq<FieldInfo>, i: nat)
    requires Narrow(fields) && i < |fields| && Start(fields, i + 1) <= 8 * |rec|
    ensures RawIndex(rec, fields, i) < 0x8000_0000
  {
    Pow2Monotonic(Width(fields[i]), 31);
    Pow2Constants();
  }

  /** The biased index of field `i`, added with `int` wrap-around as C# does. */
  function Index(rec: Bytes, fields: seq<FieldInfo>, i: nat): Int32
    requires Narrow(fields) && i < |fields| && Start(fields, i + 1) <= 8 * |rec|
  {
    RawIndexFits(rec, fields, i);
    Int32Add(RawIndex(rec, fields, i), fields[i].bias)
  }

  /** The cell for field `i` and biased index `index`: Null for -2, else the table entry. */
  function Cell(tables: seq<seq<Value>>, i: nat, index: int): Result<Value, RowError>
  {
    if i >= |tables| then Failure(MissingTable)
    else if index == NullIndex then Success(NullValue)
    else if 0 <= index < |tables[i]| then Success(tables[i][index])
    else Failure(SymbolOutOfRange)
  }

  /** The cells of the first `n` fields, or the error of the first field that fails. */
  function DecodePrefix(rec: Bytes, fields: seq<FieldInfo>, tables: seq<seq<Value>>, n: nat): (r: Result<seq<Value>, RowError>)
    requires Narrow(fields) && n <= |fields|
    ensures r.Success? ==> |r.value| == n && n <= |tables| && Start(fields, n) <= 8 * |rec|
  {
    if n == 0 then Success([])
    else
      match DecodePrefix(rec, fields, tables, n - 1)
      case Failure(e) => Failure(e)
      case Success(cells) =>
        if Start(fields, n) > 8 * |rec| then Failure(BufferOverrun)
        else
          match Cell(tables, n - 1, Index(rec, fields, n - 1))
          case Failure(e) => Failure(e)
          case Success(v) => Success(cells + [v])
  }

  /**
   * The row a record decodes to: one cell per field, then Null cells up to the number
   * of symbol tables (`new Value[values.Count]` holds Null values).
   */
  function DecodeRow(rec: Bytes, fields: seq<FieldInfo>, tables: seq<seq<Value>>): (r: Result<seq<Value>, RowError>)
    requires Narrow(fields)
    ensures r.Success? ==> |r.value| == |tables| && |fields| <= |tables|
  {
    match DecodePrefix(rec, fields, tables, |fields|)
    case Failure(e) => Failure(e)
    case Success(cells) => Success(cells + seq(|tables| - |cells|, _ => NullValue))
  }

  /** `ReadRow` on a stream at `p`: the next `size` bytes decoded, or the end of the stream. */
  function RecordAt(data: Bytes, p: nat, size: nat, fields: seq<FieldInfo>, tables: seq<seq<Value>>): Result<seq<Value>, RowError>
    requires Narrow(fields)
  {
    if p + size <= |data| then DecodeRow(data[p..p + size], fields, tables) else Failure(EndOfStream)
  }

  /** Field `i` decodes: its bits lie in the record, it has a table, and its index is -2 or in the table. */
  predicate Fits(rec: Bytes, fields: seq<FieldInfo>, tables: seq<seq<Value>>, i: nat)
    requires Narrow(fields) && i < |fields|
  {
    Start(fields, i + 1) <= 8 * |rec| && Cell(tables, i, Index(rec, fields, i)).Success?
  }

  /** Cell `v` is what field `i` stands for: Null for the index -2, else its table's entry. */
  predicate CellAgrees(rec: Bytes, fields: seq<FieldInfo>, tables: seq<seq<Value>>, i: nat, v: Value)
    requires Narrow(fields) && i < |fields|
  {
    Start(fields, i + 1) <= 8 * |rec| && i < |tables| &&
    var k := Index(rec, fields, i);
    if k == NullIndex then v == NullValue else 0 <= k < |tables[i]| && v == tables[i][k]
  }

  // ---------------------------------------------------------------------------------
  // The record buffer as `ReadRow` leaves it
  // ---------------------------------------------------------------------------------

  /**
   * The buffer after the first `i` fields. A field whose last bit falls inside a byte
   * leaves that byte shifted right by the bits taken from it so far.
   */
  function ShiftAfter(rec: Bytes, fields: seq<FieldInfo>, i: nat): (r: Bytes)
    requires i <= |fields| && Start(fields, i) <= 8 * |rec|
    ensures |r| == |rec|
  {
    if i == 0 then rec
    else
      var e := Start(fields, i);
      var s := ShiftAfter(rec, fields, i - 1);
      if Width(fields[i - 1]) > 0 && e % 8 != 0 then
        s[e / 8 := ShiftRight(rec[e / 8], e % 8)]
      else s
  }

  /** The buffer while field `i` is being read, with the cursor at byte `b`, bit `j`. */
  function Pending(rec: Bytes, fields: seq<FieldInfo>, i: nat, b: nat, j: nat): (r: Bytes)
    requires i <= |fields| && Start(fields, i) <= 8 * |rec|
    ensures |r| == |rec| && (b < |rec| ==> r[b] == ShiftRight(rec[b], j))
  {
    if b < |rec| then
      ShiftAfter(rec, fields, i)[b := ShiftRight(rec[b], j)]
    else ShiftAfter(rec, fields, i)
  }

  /** Bytes beyond the cursor are untouched. */
  lemma {:induction false} ShiftAfterAhead(rec: Bytes, fields: seq<FieldInfo>, i: nat, k: nat)
    requires i <= |fields| && Start(fields, i) <= 8 * |rec|
    requires Start(fields, i) / 8 < k < |rec|
    ensures ShiftAfter(rec, fields, i)[k] == rec[k]
  {
    if i > 0 {
      StartMonotonic(fields, i - 1, i);
      ShiftAfterAhead(rec, fields, i - 1, k);
    }
  }

  /** The byte under the cursor is shifted by the cursor's bit position. */
  lemma {:induction false} ShiftAfterCursor(rec: Bytes, fields: seq<FieldInfo>, i: nat)
    requires i <= |fields| && Start(fields, i) < 8 * |rec|
    ensures ShiftAfter(rec, fields, i)[Start(fields, i) / 8] == ShiftRight(rec[Start(fields, i) / 8], Start(fields, i) % 8)
  {
    var e := Start(fields, i);
    if i == 0 {
    } else if Width(fields[i - 1]) == 0 {
      ShiftAfterCursor(rec, fields, i - 1);
    } else if e % 8 == 0 {
      ShiftAfterAhead(rec, fields, i - 1, e / 8);
    }
  }

  /** At a field boundary the pending byte is already in the buffer. */
  lemma Settled(rec: Bytes, fields: seq<FieldInfo>, i: nat, b: nat, j: nat)
    requires i <= |fields| && Start(fields, i) <= 8 * |rec|
    requires j < 8 && 8 * b + j == Start(fields, i)
    ensures Pending(rec, fields, i, b, j) == ShiftAfter(rec, fields, i)
  {
    if b < |rec| {
      ModDivUnique(Start(fields, i), 8, b, j);
      ShiftAfterCursor(rec, fields, i);
    }
  }

  /** At the end of field `i` the buffer is the one after `i + 1` fields. */
  lemma Advance(rec: Bytes, fields: seq<FieldInfo>, i: nat, b: nat, j: nat)
    requires i < |fields| && Start(fields, i + 1) <= 8 * |rec|
    requires j < 8 && 8 * b + j == Start(fields, i + 1)
    ensures Pending(rec, fields, i, b, j) == ShiftAfter(rec, fields, i + 1)
  {
    ModDivUnique(Start(fields, i + 1), 8, b, j);
    assert Pending(rec, fields, i, b, j) == Pending(rec, fields, i + 1, b, j);
    Settled(rec, fields, i + 1, b, j);
  }

  /** Moving on from a byte that was read to its end changes nothing in the buffer. */
  lemma Cross(rec: Bytes, fields: seq<FieldInfo>, i: nat, b: nat, j: nat)
    requires i <= |fields| && Start(fields, i) <= 8 * |rec| && b < |rec| && j < 8
    requires 8 * b + j == Start(fields, i) || (j == 0 && 8 * b > Start(fields, i))
    ensures Pending(rec, fields, i, b, j) == Pending(rec, fields, i, b + 1, 0)
  {
    var s := ShiftAfter(rec, fields, i);
    if 8 * b + j == Start(fields, i) {
      ModDivUnique(Start(fields, i), 8, b, j);
      ShiftAfterCursor(rec, fields, i);
    } else {
      ShiftAfterAhead(rec, fields, i, b);
    }
    if b + 1 < |rec| {
      ShiftAfterAhead(rec, fields, i, b + 1);
    }
  }

  /** Shifting the byte under the cursor right by `t` moves the cursor `t` bits on. */
  lemma Shift(rec: Bytes, fields: seq<FieldInfo>, i: nat, b: nat, j: nat, t: nat, x: Byte)
    requires i <= |fields| && Start(fields, i) <= 8 * |rec| && b < |rec|
    requires x == ShiftRight(rec[b], j)
    ensures Pending(rec, fields, i, b, j)[b := ShiftRight(x, t)] == Pending(rec, fields, i, b, j + t)
  {
    ShiftRightTwice(rec[b], j, t);
  }

  // ---------------------------------------------------------------------------------
  // The state of the `ReadRow` loops
  // ---------------------------------------------------------------------------------

  /** The cursor (byte `b`, bit `j`) is where field `i` starts. */
  predicate Cursor(fields: seq<FieldInfo>, i: nat, b: int, j: int)
    requires i <= |fields|
  {
    0 <= b && 0 <= j < 8 && 8 * b + j == Start(fields, i)
  }

  /**
   * Midway through field `i`: `r` of its bits are read into `v`, and the cursor has moved
   * past them; once a field's first byte is left, reads start at bit 0.
   */
  predicate Reading(rec: Bytes, fields: seq<FieldInfo>, i: nat, b: int, j: int, r: nat, v: int)
    requires i < |fields|
  {
    0 <= b && 0 <= j < 8 && 8 * b + j == Start(fields, i) + r && r <= Width(fields[i])
    && Start(fields, i) + r <= 8 * |rec|
    && v == BitsAt(rec, Start(fields, i), r)
    && (0 < r < Width(fields[i]) ==> j == 0)
  }

  /** The cursor, count and index after one pass of the inner loop, which reads `t` bits. */
  predicate Passed(b: nat, j: nat, r: nat, t: nat, b2: int, j2: int, r2: int) {
    r2 == r + t && (j + t == 8 ==> b2 == b + 1 && j2 == 0) && (j + t != 8 ==> b2 == b && j2 == j + t)
  }

  /** The arithmetic of one pass: `t` bits of the record, shifted into place above the `r` read. */
  lemma ReadStep(rec: Bytes, fields: seq<FieldInfo>, i: nat, b: nat, j: nat, r: nat, v: nat, t: nat, x: nat,
                 b2: int, j2: int, r2: int, v2: int)
    requires i < |fields| && Reading(rec, fields, i, b, j, r, v) && b < |rec|
    requires r < Width(fields[i])
    requires t == if 8 - j < Width(fields[i]) - r then 8 - j else Width(fields[i]) - r
    requires x == BitsAt(rec, Start(fields, i) + r, t)
    requires Passed(b, j, r, t, b2, j2, r2) && v2 == v + ShiftLeft(x, r)
    ensures r2 >= 0 && Reading(rec, fields, i, b2, j2, r2, v2)
  {
    Moved(fields, i, |rec|, b, j, r, t, b2, j2, r2);
    Gather(rec, Start(fields, i), r, t, r2, v, x, v2);
  }

  /** The cursor arithmetic of one pass, for a record of `len` bytes. */
  lemma Moved(fields: seq<FieldInfo>, i: nat, len: nat, b: nat, j: nat, r: nat, t: nat, b2: int, j2: int, r2: int)
    requires i < |fields| && j < 8 && 8 * b + j == Start(fields, i) + r && b < len
    requires r < Width(fields[i]) && (0 < r ==> j == 0)
    requires t == if 8 - j < Width(fields[i]) - r then 8 - j else Width(fields[i]) - r
    requires Passed(b, j, r, t, b2, j2, r2)
    ensures 0 <= b2 && 0 <= j2 < 8 && 8 * b2 + j2 == Start(fields, i) + r2 && r2 <= Width(fields[i])
    ensures Start(fields, i) + r2 <= 8 * len && (0 < r2 < Width(fields[i]) ==> j2 == 0)
  {
  }

  /** `n` bits from `c` are the `r` low ones plus the `t` that follow them, shifted up by `r`. */
  lemma Gather(rec: Bytes, c: nat, r: nat, t: nat, n: nat, v: nat, x: nat, w: int)
    requires n == r + t && c + n <= 8 * |rec|
    requires v == BitsAt(rec, c, r) && x == BitsAt(rec, c + r, t) && w == v + ShiftLeft(x, r)
    ensures w == BitsAt(rec, c, n)
  {
    ShiftLeftMul(x, r);
    SplitAt(rec, c, r, t, n);
    Regroup(BitsAt(rec, c, n), v, Pow2(r), x, BitsAt(rec, c + r, t));
  }

  lemma SplitAt(rec: Bytes, c: nat, r: nat, t: nat, n: nat)
    requires n == r + t && c + n <= 8 * |rec|
    ensures BitsAt(rec, c, n) == BitsAt(rec, c, r) + Pow2(r) * BitsAt(rec, c + r, t)
  {
    BitsSplit(rec, c, r, t);
  }

  /** The mask for `t` bits keeps the remainder modulo 2^t. */
  lemma Mask(y: nat, t: nat)
    requires t <= 8
    ensures And(y, BitMasks[t]) == y % Pow2(t)
  {
    BitMasksLow(t);
    AndMask(y, t);
  }

  /**
   * One pass of the inner loop: `t` bits of the byte under the cursor (already shifted
   * right by `j`) are masked out and or-ed into the index above the `r` bits read.
   */
  lemma Take(rec: Bytes, fields: seq<FieldInfo>, i: nat, b: nat, j: nat, r: nat, v: nat, t: nat,
             b2: int, j2: int, r2: int, v2: int)
    requires i < |fields| && Reading(rec, fields, i, b, j, r, v) && b < |rec|
    requires r < Width(fields[i])
    requires t == if 8 - j < Width(fields[i]) - r then 8 - j else Width(fields[i]) - r
    requires v2 == Or(v, ShiftLeft(And(ShiftRight(rec[b], j), BitMasks[t]), r))
    requires Passed(b, j, r, t, b2, j2, r2)
    ensures r2 >= 0 && Reading(rec, fields, i, b2, j2, r2, v2)
  {
    var x := And(ShiftRight(rec[b], j), BitMasks[t]);
    Chunk(rec, b, j, t, Start(fields, i) + r, r, v, x, v2);
    ReadStep(rec, fields, i, b, j, r, v, t, x, b2, j2, r2, v2);
  }

  /** The buffer after one pass: unchanged when the byte is used up, else that byte shifted on. */
  lemma BufferStep(rec: Bytes, fields: seq<FieldInfo>, i: nat, b: nat, j: nat, r: nat, v: nat, t: nat,
                   b2: int, j2: int, r2: int, before: seq<int>, after: seq<int>)
    requires i < |fields| && Reading(rec, fields, i, b, j, r, v) && b < |rec|
    requires r < Width(fields[i])
    requires t == if 8 - j < Width(fields[i]) - r then 8 - j else Width(fields[i]) - r
    requires Passed(b, j, r, t, b2, j2, r2)
    requires before == Pending(rec, fields, i, b, j)
    requires j + t == 8 ==> after == before
    requires j + t != 8 ==> after == before[b := ShiftRight(before[b], t)]
    ensures b2 >= 0 && j2 >= 0 && after == Pending(rec, fields, i, b2, j2)
  {
    if j + t == 8 {
      Cross(rec, fields, i, b, j);
    } else {
      Shift(rec, fields, i, b, j, t, before[b]);
    }
  }

  /** The inner loop is over: the field's raw index is read and the cursor is at the next field. */
  lemma FieldRead(rec: Bytes, fields: seq<FieldInfo>, i: nat, b: nat, j: nat, r: nat, v: nat)
    requires Narrow(fields) && i < |fields| && Reading(rec, fields, i, b, j, r, v)
    requires fields[i].bitWidth - r <= 0
    ensures Start(fields, i + 1) <= 8 * |rec| && Cursor(fields, i + 1, b, j)
    ensures v == RawIndex(rec, fields, i) && v < 0x8000_0000
  {
    RawIndexFits(rec, fields, i);
  }

  lemma Regroup(w: int, v: int, p: int, x: int, y: int)
    requires w == v + p * y && x == y
    ensures w == v + x * p
  {
  }

  /** The masked, shifted byte is the next `t` record bits, and OR-ing it in above `v` adds. */
  lemma Chunk(rec: Bytes, b: nat, j: nat, t: nat, pos: nat, r: nat, v: nat, x: nat, v2: int)
    requires b < |rec| && j + t <= 8 && pos == 8 * b + j && v < Pow2(r)
    requires x == And(ShiftRight(rec[b], j), BitMasks[t]) && v2 == Or(v, ShiftLeft(x, r))
    ensures pos + t <= 8 * |rec| && x == BitsAt(rec, pos, t) && v2 == v + ShiftLeft(x, r)
  {
    ChunkAt(rec, b, j, t, pos);
    ShiftedOr(v, x, r);
  }

  lemma ChunkAt(rec: Bytes, b: nat, j: nat, t: nat, pos: nat)
    requires b < |rec| && j + t <= 8 && pos == 8 * b + j
    ensures And(ShiftRight(rec[b], j), BitMasks[t]) == BitsAt(rec, pos, t)
  {
    Mask(ShiftRight(rec[b], j), t);
    ShiftRightDiv(rec[b], j);
    ByteChunk(rec, b, j, t);
  }

  /** The cells are those of the first `i` fields, followed by Null cells. */
  predicate Filled(rec: Bytes, fields: seq<FieldInfo>, tables: seq<seq<Value>>, i: nat, cells: seq<Value>)
    requires Narrow(fields) && i <= |fields|
  {
    |cells| == |tables| && i <= |cells|
    && DecodePrefix(rec, fields, tables, i) == Success(cells[..i])
    && forall k :: i <= k < |cells| ==> cells[k] == NullValue
  }

  lemma FilledStart(rec: Bytes, fields: seq<FieldInfo>, tables: seq<seq<Value>>, cells: seq<Value>)
    requires Narrow(fields)
    requires |cells| == |tables| && forall k :: 0 <= k < |cells| ==> cells[k] == NullValue
    ensures Filled(rec, fields, tables, 0, cells)
  {
    assert cells[..0] == [];
  }

  /** A failing prefix makes the whole row fail with the same error. */
  lemma {:induction false} PrefixFailure(rec: Bytes, fields: seq<FieldInfo>, tables: seq<seq<Value>>, n: nat, e: RowError)
    requires Narrow(fields) && n <= |fields|
    requires DecodePrefix(rec, fields, tables, n) == Failure(e)
    ensures DecodeRow(rec, fields, tables) == Failure(e)
    decreases |fields| - n
  {
    if n < |fields| {
      PrefixFailure(rec, fields, tables, n + 1, e);
    }
  }

  /** The inner loop ran out of record with bits of field `i` still to read. */
  lemma OutOfRecord(rec: Bytes, fields: seq<FieldInfo>, i: nat, b: nat, j: nat, r: nat, v: nat)
    requires i < |fields| && Reading(rec, fields, i, b, j, r, v) && r < Width(fields[i]) && b >= |rec|
    ensures Start(fields, i + 1) > 8 * |rec|
  {
  }

  /** The bits of field `i` run past the record: the row fails there. */
  lemma Overrun(rec: Bytes, fields: seq<FieldInfo>, tables: seq<seq<Value>>, i: nat, cells: seq<Value>)
    requires Narrow(fields) && i < |fields| && Filled(rec, fields, tables, i, cells)
    requires Start(fields, i + 1) > 8 * |rec|
    ensures DecodeRow(rec, fields, tables) == Failure(BufferOverrun)
  {
    PrefixFailure(rec, fields, tables, i + 1, BufferOverrun);
  }

  /** Field `i` is looked up: the row fails with the lookup's error, or gains the cell. */
  lemma Lookup(rec: Bytes, fields: seq<FieldInfo>, tables: seq<seq<Value>>, i: nat, cells: seq<Value>, index: int)
    requires Narrow(fields) && i < |fields| && Filled(rec, fields, tables, i, cells)
    requires Start(fields, i + 1) <= 8 * |rec| && index == Index(rec, fields, i)
    ensures Cell(tables, i, index).Failure? ==> DecodeRow(rec, fields, tables) == Failure(Cell(tables, i, index).error)
    ensures Cell(tables, i, index).Success? ==> i < |cells| && Filled(rec, fields, tables, i + 1, cells[i := Cell(tables, i, index).value])
  {
    var c := Cell(tables, i, index);
    if c.Failure? {
      PrefixFailure(rec, fields, tables, i + 1, c.error);
    } else {
      var next := cells[i := c.value];
      assert next[..i + 1] == cells[..i] + [c.value];
    }
  }

  /** Once every field is done, the cells are the decoded row. */
  lemma FilledEnd(rec: Bytes, fields: seq<FieldInfo>, tables: seq<seq<Value>>, cells: seq<Value>)
    requires Narrow(fields) && Filled(rec, fields, tables, |fields|, cells)
    ensures DecodeRow(rec, fields, tables) == Success(cells)
  {
    var n := |fields|;
    assert cells == cells[..n] + seq(|tables| - n, _ => NullValue);
  }

  // ---------------------------------------------------------------------------------
  // What a decoded row holds
  // ---------------------------------------------------------------------------------

  /** Each mask is 2^k - 1. */
  lemma {:induction false} BitMasksLow(k: nat)
    requires k <= 8
    ensures BitMasks[k] == Pow2(k) - 1
  {
    if k > 0 {
      BitMasksLow(k - 1);
      assert BitMasks[k] == 2 * BitMasks[k - 1] + 1;
    }
  }

  /** Bit `k` of a field's raw index is record bit `Start + k`: earlier bits are lower. */
  lemma RawIndexBits(rec: Bytes, fields: seq<FieldInfo>, i: nat, k: nat)
    requires i < |fields| && Start(fields, i + 1) <= 8 * |rec| && k < Width(fields[i])
    ensures (RawIndex(rec, fields, i) / Pow2(k)) % 2 == Bit(rec, Start(fields, i) + k)
  {
    BitsAtBit(rec, Start(fields, i), Width(fields[i]), k);
  }

  /** A field of width 0 (or less) reads no bits and its index is its bias. */
  lemma ZeroWidth(rec: Bytes, fields: seq<FieldInfo>, i: nat)
    requires Narrow(fields) && i < |fields| && fields[i].bitWidth <= 0
    requires Start(fields, i) <= 8 * |rec|
    ensures Start(fields, i + 1) == Start(fields, i)
    ensures RawIndex(rec, fields, i) == 0
    ensures Index(rec, fields, i) == fields[i].bias
  {
  }

  lemma {:induction false} PrefixCells(rec: Bytes, fields: seq<FieldInfo>, tables: seq<seq<Value>>, n: nat, i: nat)
    requires Narrow(fields) && n <= |fields| && DecodePrefix(rec, fields, tables, n).Success? && i < n
    ensures CellAgrees(rec, fields, tables, i, DecodePrefix(rec, fields, tables, n).value[i])
    decreases n
  {
    StartMonotonic(fields, i + 1, n);
    if i < n - 1 {
      PrefixCells(rec, fields, tables, n - 1, i);
    }
  }

  /**
   * A decoded row has one cell per symbol table; cell `i` of a field is Null for the
   * index -2 and otherwise entry `index` of table `i`; cells past the fields are Null.
   */
  lemma RowCells(rec: Bytes, fields: seq<FieldInfo>, tables: seq<seq<Value>>)
    requires Narrow(fields) && DecodeRow(rec, fields, tables).Success?
    ensures |DecodeRow(rec, fields, tables).value| == |tables| && |fields| <= |tables|
    ensures forall i :: 0 <= i < |fields| ==> CellAgrees(rec, fields, tables, i, DecodeRow(rec, fields, tables).value[i])
    ensures forall i :: |fields| <= i < |tables| ==> DecodeRow(rec, fields, tables).value[i] == NullValue
  {
    var cells := DecodePrefix(rec, fields, tables, |fields|).value;
    forall i | 0 <= i < |fields|
      ensures CellAgrees(rec, fields, tables, i, DecodeRow(rec, fields, tables).value[i])
    {
      PrefixCells(rec, fields, tables, |fields|, i);
    }
  }

  lemma {:induction false} PrefixFits(rec: Bytes, fields: seq<FieldInfo>, tables: seq<seq<Value>>, n: nat, i: nat)
    requires Narrow(fields) && n <= |fields| && DecodePrefix(rec, fields, tables, n).Success? && i < n
    ensures Fits(rec, fields, tables, i)
    decreases n
  {
    StartMonotonic(fields, i + 1, n);
    if i < n - 1 {
      PrefixFits(rec, fields, tables, n - 1, i);
    }
  }

  lemma {:induction false} FitsPrefix(rec: Bytes, fields: seq<FieldInfo>, tables: seq<seq<Value>>, n: nat)
    requires Narrow(fields) && n <= |fields| && forall i :: 0 <= i < n ==> Fits(rec, fields, tables, i)
    ensures DecodePrefix(rec, fields, tables, n).Success?
    decreases n
  {
    if n > 0 {
      FitsPrefix(rec, fields, tables, n - 1);
      assert Fits(rec, fields, tables, n - 1);
    }
  }

  /** A record decodes exactly when every field fits: bits in the record, a table, an index in range or -2. */
  lemma RowSucceeds(rec: Bytes, fields: seq<FieldInfo>, tables: seq<seq<Value>>)
    requires Narrow(fields)
    ensures DecodeRow(rec, fields, tables).Success? <==> forall i :: 0 <= i < |fields| ==> Fits(rec, fields, tables, i)
  {
    if DecodeRow(rec, fields, tables).Success? {
      forall i | 0 <= i < |fields| ensures Fits(rec, fields, tables, i) {
        PrefixFits(rec, fields, tables, |fields|, i);
      }
    } else if forall i :: 0 <= i < |fields| ==> Fits(rec, fields, tables, i) {
      FitsPrefix(rec, fields, tables, |fields|);
    }
  }

  /** Two field lists with the same widths and biases lay the record out alike. */
  predicate SameLayout(fields: seq<FieldInfo>, other: seq<FieldInfo>) {
    |fields| == |other|
    && forall i :: 0 <= i < |fields| ==> fields[i].bitWidth == other[i].bitWidth && fields[i].bias == other[i].bias
  }

  lemma {:induction false} SameStart(fields: seq<FieldInfo>, other: seq<FieldInfo>, i: nat)
    requires SameLayout(fields, other) && i <= |fields|
    ensures Start(fields, i) == Start(other, i)
  {
    if i > 0 {
      SameStart(fields, other, i - 1);
    }
  }

  lemma {:induction false} SamePrefix(rec: Bytes, fields: seq<FieldInfo>, other: seq<FieldInfo>, tables: seq<seq<Value>>, n: nat)
    requires Narrow(fields) && Narrow(other) && SameLayout(fields, other) && n <= |fields|
    ensures DecodePrefix(rec, fields, tables, n) == DecodePrefix(rec, other, tables, n)
  {
    if n > 0 {
      SamePrefix(rec, fields, other, tables, n - 1);
      SameStart(fields, other, n - 1);
      SameStart(fields, other, n);
      if Start(fields, n) <= 8 * |rec| {
        SameIndex(rec, fields, other, n - 1);
      }
    }
  }

  lemma SameIndex(rec: Bytes, fields: seq<FieldInfo>, other: seq<FieldInfo>, i: nat)
    requires Narrow(fields) && Narrow(other) && SameLayout(fields, other) && i < |fields|
    requires Start(fields, i + 1) <= 8 * |rec| && Start(fields, i) == Start(other, i)
    requires Start(fields, i + 1) == Start(other, i + 1)
    ensures Index(rec, fields, i) == Index(rec, other, i)
  {
    assert fields[i].bitWidth == other[i].bitWidth && fields[i].bias == other[i].bias;
  }

  /** Bit offsets (and names, symbol counts, formats) play no part in decoding a row. */
  lemma OffsetsIgnored(rec: Bytes, fields: seq<FieldInfo>, other: seq<FieldInfo>, tables: seq<seq<Value>>)
    requires Narrow(fields) && Narrow(other) && SameLayout(fields, other)
    ensures DecodeRow(rec, fields, tables) == DecodeRow(rec, other, tables)
  {
    SamePrefix(rec, fields, other, tables, |fields|);
  }

  lemma {:induction false} ZeroBits(rec: Bytes, c: nat, w: nat)
    requires c + w <= 8 * |rec| && forall k :: 0 <= k < |rec| ==> rec[k] == 0
    ensures BitsAt(rec, c, w) == 0
    decreases w
  {
    if w > 0 {
      ZeroBits(rec, c + 1, w - 1);
      ByteBitShift(0, c % 8);
    }
  }

  /** One 8-bit field over the byte 0x00 with bias 0 gives entry 0 of its table. */
  lemma ZeroByteReadsFirstEntry(field: FieldInfo, v: Value)
    requires field.bitWidth == 8 && field.bias == 0
    ensures DecodeRow([0x00], [field], [[v]]) == Success([v])
  {
    var rec: Bytes := [0x00];
    assert Start([field], 1) == 8;
    ZeroBits(rec, 0, 8);
    assert Index(rec, [field], 0) == 0;
    assert DecodePrefix(rec, [field], [[v]], 0) == Success([]);
    assert Cell([[v]], 0, 0) == Success(v);
    assert [] + [v] == [v];
    assert DecodePrefix(rec, [field], [[v]], 1) == Success([v]);
    assert [v] + seq(0, _ => NullValue) == [v];
  }

  /** With bias -2 the same record gives a Null cell, whatever the table holds. */
  lemma ZeroByteBiasMinusTwoIsNull(field: FieldInfo, v: Value)
    requires field.bitWidth == 8 && field.bias == -2
    ensures DecodeRow([0x00], [field], [[v]]) == Success([NullValue])
  {
    var rec: Bytes := [0x00];
    assert Start([field], 1) == 8;
    ZeroBits(rec, 0, 8);
    assert Index(rec, [field], 0) == -2;
    assert DecodePrefix(rec, [field], [[v]], 0) == Success([]);
    assert Cell([[v]], 0, -2) == Success(NullValue);
    assert [] + [NullValue] == [NullValue];
    assert DecodePrefix(rec, [field], [[v]], 1) == Success([NullValue]);
    assert [NullValue] + seq(0, _ => NullValue) == [NullValue];
  }

  // ---------------------------------------------------------------------------------
  // Field indices
  // ---------------------------------------------------------------------------------

  /** No two fields share a name. */
  predicate DistinctNames(fields: seq<FieldInfo>) {
    forall i, j :: 0 <= i < j < |fields| ==> fields[i].name != fields[j].name
  }

  function Names(fields: seq<FieldInfo>): set<string> {
    set i | 0 <= i < |fields| :: fields[i].name
  }

  /**
   * Maps each field's name to its position, as `Dictionary.Add` in a loop does;
   * `None` where a name repeats (`Add` throws).
   */
  method IndexFields(fields: seq<FieldInfo>) returns (r: Option<map<string, int>>)
    ensures r.Some? <==> DistinctNames(fields)
    ensures r.Some? ==> r.value.Keys == Names(fields)
    ensures r.Some? ==> forall i :: 0 <= i < |fields| ==> r.value[fields[i].name] == i
  {
    var m: map<string, int> := map[];
    for i := 0 to |fields|
      invariant DistinctNames(fields[..i])
      invariant m.Keys == Names(fields[..i])
      invariant forall k :: 0 <= k < i ==> m[fields[k].name] == k
    {
      if fields[i].name in m {
        assert !DistinctNames(fields) by {
          var k :| 0 <= k < i && fields[k].name == fields[i].name;
        }
        return None;
      }
      assert fields[..i + 1] == fields[..i] + [fields[i]];
      m := m[fields[i].name := i];
    }
    assert fields[..|fields|] == fields;
    return Some(m);
  }

  // ---------------------------------------------------------------------------------
  // The reader
  // ---------------------------------------------------------------------------------

  /** A returned row as the sequence of its cells. */
  function Outcome(r: Result<array<Value>, RowError>): Result<seq<Value>, RowError>
    reads if r.Success? then {r.value} else {}
  {
    match r
    case Success(a) => Success(a[..])
    case Failure(e) => Failure(e)
  }

  /** The sort key of a `(field, symbol table)` dictionary entry. */
  function EntryOffset(e: (FieldInfo, seq<Value>)): int {
    e.0.bitOffset
  }

  function TablesOf(entries: seq<(FieldInfo, seq<Value>)>): (r: seq<seq<Value>>)
    ensures |r| == |entries| && forall i :: 0 <= i < |entries| ==> r[i] == entries[i].1
  {
    seq(|entries|, i requires 0 <= i < |entries| => entries[i].1)
  }

  class RowReader {
    /** The header's fields, stably sorted by bit offset. */
    const fields: seq<FieldInfo>
    /** The symbol tables, their dictionary entries stably sorted by the field's bit offset. */
    const tables: seq<seq<Value>>
    /** The record buffer, `RecordByteSize` bytes, reused from row to row. */
    const buffer: array<Byte>

    constructor (header: QvdHeader, values: seq<(FieldInfo, seq<Value>)>)
      requires header.recordByteSize >= 0
      ensures fields == SortBy(header.fields, BitOffsetOf)
      ensures tables == TablesOf(SortBy(values, EntryOffset))
      ensures fresh(buffer) && buffer.Length == header.recordByteSize
    {
      buffer := new Byte[header.recordByteSize](_ => 0);
      tables := TablesOf(SortBy(values, EntryOffset));
      fields := SortBy(header.fields, BitOffsetOf);
    }

    /** The name of the i-th field in bit-offset order maps to i. */
    method GetFieldIndices() returns (r: Option<map<string, int>>)
      ensures r.Some? <==> DistinctNames(fields)
      ensures r.Some? ==> r.value.Keys == Names(fields)
      ensures r.Some? ==> forall i :: 0 <= i < |fields| ==> r.value[fields[i].name] == i
    {
      r := IndexFields(fields);
    }

    /**
     * The inner loop of `ReadRow` for field `i`: gathers its bits least significant first,
     * a byte's unused bits at a time, shifting a partly used byte down in the buffer.
     * It fails when the record runs out first.
     */
    method ReadBits(i: nat, b: nat, j: nat, ghost rec: Bytes) returns (ok: bool, byteIndex: nat, bitIndex: nat, valueIndex: nat)
      requires Narrow(fields) && i < |fields| && Cursor(fields, i, b, j)
      requires |rec| == buffer.Length && Start(fields, i) <= 8 * |rec| && buffer[..] == ShiftAfter(rec, fields, i)
      modifies buffer
      ensures ok <==> Start(fields, i + 1) <= 8 * |rec|
      ensures ok ==> Cursor(fields, i + 1, byteIndex, bitIndex) && valueIndex == RawIndex(rec, fields, i)
      ensures ok ==> valueIndex < 0x8000_0000 && buffer[..] == ShiftAfter(rec, fields, i + 1)
    {
      byteIndex, bitIndex := b, j;
      var bitsLeft := fields[i].bitWidth;
      var bitsRead := 0;
      valueIndex := 0;
      Settled(rec, fields, i, byteIndex, bitIndex);
      while bitsLeft > 0
        invariant Reading(rec, fields, i, byteIndex, bitIndex, bitsRead, valueIndex)
        invariant bitsLeft == fields[i].bitWidth - bitsRead
        invariant buffer[..] == Pending(rec, fields, i, byteIndex, bitIndex)
        decreases bitsLeft
      {
        if byteIndex >= buffer.Length {
          OutOfRecord(rec, fields, i, byteIndex, bitIndex, bitsRead, valueIndex);
          return false, byteIndex, bitIndex, valueIndex;
        }
        ghost var b0, j0, r0, v0, buf0 := byteIndex, bitIndex, bitsRead, valueIndex, buffer[..];
        var bitsToRead := if 8 - bitIndex < bitsLeft then 8 - bitIndex else bitsLeft;
        var bitValue := And(buffer[byteIndex], BitMasks[bitsToRead]);
        valueIndex := Or(valueIndex, ShiftLeft(bitValue, bitsRead));
        bitsLeft := bitsLeft - bitsToRead;
        bitsRead := bitsRead + bitsToRead;
        bitIndex := bitIndex + bitsToRead;
        if bitIndex == 8 {
          byteIndex := byteIndex + 1;
          bitIndex := 0;
        } else {
          buffer[byteIndex] := ShiftRight(buffer[byteIndex], bitsToRead);
        }
        Take(rec, fields, i, b0, j0, r0, v0, bitsToRead, byteIndex, bitIndex, bitsRead, valueIndex);
        BufferStep(rec, fields, i, b0, j0, r0, v0, bitsToRead, byteIndex, bitIndex, bitsRead, buf0, buffer[..]);
      }
      FieldRead(rec, fields, i, byteIndex, bitIndex, bitsRead, valueIndex);
      Advance(rec, fields, i, byteIndex, bitIndex);
      ok := true;
    }

    /**
     * Reads one record and decodes it. The stream moves on by `RecordByteSize` bytes,
     * or to its end if fewer are left; the buffer ends up shifted as `ShiftAfter` says.
     */
    method ReadRow(input: ByteStream) returns (r: Result<array<Value>, RowError>)
      requires Narrow(fields)
      modifies input, buffer
      ensures input.pos == if old(input.pos) + buffer.Length <= |input.data| then old(input.pos) + buffer.Length
                           else if old(input.pos) < |input.data| then |input.data| else old(input.pos)
      ensures Outcome(r) == RecordAt(input.data, old(input.pos), buffer.Length, fields, tables)
      ensures r.Success? ==> fresh(r.value)
      ensures r.Success? ==>
        Start(fields, |fields|) <= 8 * buffer.Length && buffer[..] == ShiftAfter(input.data[old(input.pos)..old(input.pos) + buffer.Length], fields, |fields|)
    {
      ghost var p := input.pos;
      var ok := input.ReadExactly(buffer);
      if !ok {
        return Failure(EndOfStream);
      }
      ghost var rec := buffer[..];
      ghost var spec := DecodeRow(rec, fields, tables);
      var rowData := new Value[|tables|](_ => NullValue);
      var byteIndex := 0;
      var bitIndex := 0;
      FilledStart(rec, fields, tables, rowData[..]);
      for i := 0 to |fields|
        modifies buffer, rowData
        invariant Cursor(fields, i, byteIndex, bitIndex) && Start(fields, i) <= 8 * |rec|
        invariant Filled(rec, fields, tables, i, rowData[..])
        invariant buffer[..] == ShiftAfter(rec, fields, i)
      {
        ghost var cells := rowData[..];
        var ok, valueIndex;
        ok, byteIndex, bitIndex, valueIndex := ReadBits(i, byteIndex, bitIndex, rec);
        if !ok {
          Overrun(rec, fields, tables, i, cells);
          return Failure(BufferOverrun);
        }
        assert rowData[..] == cells;
        var index := Int32Add(valueIndex, fields[i].bias);
        Lookup(rec, fields, tables, i, cells, index);
        if index != NullIndex {
          if i >= |tables| {
            return Failure(MissingTable);
          }
          if index < 0 || index >= |tables[i]| {
            return Failure(SymbolOutOfRange);
          }
          rowData[i] := tables[i][index];
        } else {
          if i >= rowData.Length {
            return Failure(MissingTable);
          }
          rowData[i] := NullValue;
        }
      }
      FilledEnd(rec, fields, tables, rowData[..]);
      return Success(rowData);
    }
  }
}
