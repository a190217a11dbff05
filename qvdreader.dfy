/**
 * `QvdReader`: opens a QVD image, reads its header, indexes the fields by name, reads
 * one symbol table per field, and then delivers the records one row at a time.
 * Opening a file becomes `Open` on its bytes; the XML loader and the text conversions
 * are parameters.
 */
module QvdReading {
  import opened Wrappers
  import opened Numerics
  import opened Sorting
  import opened Values
  import opened Schema
  import opened Streams
  import opened Xml
  import opened ValueReading
  import opened HeaderReading
  import opened HeaderParsing
  import opened RowReading

  /** What makes the constructor throw, in the order it meets them. */
  datatype OpenError =
    | ScanFailed(scan: HeaderReadError)   // the header's closing tag or its XML
    | InvalidHeader(header: HeaderError)  // `HeaderParser`
    | DuplicateField                      // `fieldIndices.Add` of a name already there
    | InvalidValues(values: ReadError)    // `ValueReader.ReadValues`
    | NegativeRecordSize                  // `new byte[RecordByteSize]` in `RowReader`

  /** What makes the indexers and `GetValues` throw. */
  datatype AccessError =
    | NoRowRead               // InvalidOperationException "No row has been read yet."
    | IndexOutOfRange         // `currentRow[fieldIndex]` outside the row
    | FieldNotFound(name: string)  // ArgumentException "Field ... not found."

  /**
   * The symbol tables of the first `n` fields, read back to back from `p`, and the
   * position after them; the first failing table decides the error.
   */
  function TablesUpTo(data: Bytes, p: nat, fields: seq<FieldInfo>, n: nat): (r: Result<(seq<seq<Value>>, nat), ReadError>)
    requires n <= |fields|
    ensures r.Success? ==> |r.value.0| == n
    ensures r.Success? ==> forall k :: 0 <= k < n ==> |r.value.0[k]| == fields[k].noOfSymbols
  {
    if n == 0 then Success(([], p))
    else
      match TablesUpTo(data, p, fields, n - 1)
      case Failure(e) => Failure(e)
      case Success(prev) =>
        match DecodeValues(data, prev.1, fields[n - 1].noOfSymbols)
        case Failure(e) => Failure(e)
        case Success(t) => Success((prev.0 + [t.0], t.1))
  }

  /** The loop's step: one more table read after the first `i`. */
  lemma TableRead(data: Bytes, p: nat, fields: seq<FieldInfo>, i: nat, values: seq<(FieldInfo, seq<Value>)>, t: seq<Value>, q: nat)
    requires i < |fields| && TablesUpTo(data, p, fields, i).Success?
    requires TablesUpTo(data, p, fields, i).value.0 == TablesOf(values)
    requires DecodeValues(data, TablesUpTo(data, p, fields, i).value.1, fields[i].noOfSymbols) == Success((t, q))
    requires |values| == i && forall k :: 0 <= k < i ==> values[k].0 == fields[k]
    ensures TablesUpTo(data, p, fields, i + 1) == Success((TablesOf(values + [(fields[i], t)]), q))
    ensures forall k :: 0 <= k < i + 1 ==> (values + [(fields[i], t)])[k].0 == fields[k]
  {
    assert TablesOf(values + [(fields[i], t)]) == TablesOf(values) + [t];
  }

  /** Once a table fails, every longer run of tables fails the same way. */
  lemma {:induction false} TablesFail(data: Bytes, p: nat, fields: seq<FieldInfo>, i: nat, n: nat)
    requires i < n <= |fields| && TablesUpTo(data, p, fields, i).Success?
    requires DecodeValues(data, TablesUpTo(data, p, fields, i).value.1, fields[i].noOfSymbols).Failure?
    ensures TablesUpTo(data, p, fields, n)
         == Failure(DecodeValues(data, TablesUpTo(data, p, fields, i).value.1, fields[i].noOfSymbols).error)
  {
    if n > i + 1 {
      TablesFail(data, p, fields, i, n - 1);
    }
  }

  /** What a successful constructor leaves behind. */
  datatype Opened = Opened(header: QvdHeader, tables: seq<seq<Value>>, pos: nat)

  /**
   * The constructor once the header is scanned up to `e` and parsed: the field names
   * indexed; one byte skipped; a symbol table per field in header order; a record buffer
   * of `RecordByteSize` bytes.
   */
  function AfterHeader(data: Bytes, e: nat, header: QvdHeader): Result<Opened, OpenError> {
    if !DistinctNames(header.fields) then Failure(DuplicateField)
    else
      match TablesUpTo(data, e + 1, header.fields, |header.fields|)
      case Failure(err) => Failure(InvalidValues(err))
      case Success(read) =>
        if header.recordByteSize < 0 then Failure(NegativeRecordSize)
        else Success(Opened(header, read.0, read.1))
  }

  /** The constructor on the image `data`: the header up to its closing tag, parsed, then the rest. */
  function OpenSpec(data: Bytes, load: Bytes -> Option<Document>, conv: Converters): Result<Opened, OpenError> {
    match ReadHeaderSpec(data, 0, load)
    case Failure(e) => Failure(ScanFailed(e))
    case Success(scanned) =>
      match Parse(scanned.0, conv)
      case Failure(e) => Failure(InvalidHeader(e))
      case Success(header) => AfterHeader(data, scanned.1, header)
  }

  /** `fieldIndices`: every field's name, mapped to its position in the header. */
  ghost predicate Indexes(m: map<string, int>, fields: seq<FieldInfo>) {
    m.Keys == Names(fields) && forall i :: 0 <= i < |fields| ==> fields[i].name in m && m[fields[i].name] == i
  }

  /** A name in the index leads to the field that bears it. */
  lemma IndexedName(m: map<string, int>, fields: seq<FieldInfo>, name: string)
    requires Indexes(m, fields) && name in m
    ensures 0 <= m[name] < |fields| && fields[m[name]].name == name
  {
    var k :| 0 <= k < |fields| && fields[k].name == name;
  }

  /** What `IndexFields` returns is an index of the fields. */
  lemma IndexFieldsIndexes(m: map<string, int>, fields: seq<FieldInfo>)
    requires m.Keys == Names(fields) && forall i :: 0 <= i < |fields| ==> m[fields[i].name] == i
    ensures Indexes(m, fields)
  {
    forall i | 0 <= i < |fields|
      ensures fields[i].name in m
    {
      assert fields[i].name in Names(fields);
    }
  }

  class QvdReader {
    const input: ByteStream
    const header: QvdHeader
    /** `Values`: the dictionary's entries in the order they were added. */
    const values: seq<(FieldInfo, seq<Value>)>
    const fieldIndices: map<string, int>
    const reader: RowReader
    /** The last row read, null before the first. */
    var currentRow: Option<array<Value>>

    /** The fields in the order they were indexed are the fields the rows are laid out by. */
    ghost predicate Valid()
      reads this
    {
      && |values| == |header.fields|
      && (forall i :: 0 <= i < |values| ==> values[i].0 == header.fields[i])
      && DistinctNames(header.fields)
      && Indexes(fieldIndices, header.fields)
      && reader.fields == header.fields
      && reader.tables == TablesOf(values)
      && reader.buffer.Length == header.recordByteSize
      && (currentRow.Some? ==> currentRow.value.Length == |header.fields|)
    }

    constructor (input: ByteStream, header: QvdHeader, values: seq<(FieldInfo, seq<Value>)>, fieldIndices: map<string, int>, reader: RowReader)
      requires |values| == |header.fields| && forall i :: 0 <= i < |values| ==> values[i].0 == header.fields[i]
      requires DistinctNames(header.fields) && Indexes(fieldIndices, header.fields)
      requires reader.fields == header.fields && reader.tables == TablesOf(values)
      requires reader.buffer.Length == header.recordByteSize
      ensures Valid()
      ensures this.input == input && this.header == header && this.values == values
      ensures this.fieldIndices == fieldIndices && this.reader == reader && currentRow == None
    {
      this.input := input;
      this.header := header;
      this.values := values;
      this.fieldIndices := fieldIndices;
      this.reader := reader;
      currentRow := None;
    }

    /** `this[fieldIndex]`. */
    function Item(fieldIndex: int): (r: Result<Value, AccessError>)
      reads this, if currentRow.Some? then {currentRow.value} else {}
      ensures currentRow.None? <==> r == Failure(NoRowRead)
      ensures currentRow.Some? && !(0 <= fieldIndex < currentRow.value.Length) ==> r == Failure(IndexOutOfRange)
      ensures currentRow.Some? && 0 <= fieldIndex < currentRow.value.Length ==> r == Success(currentRow.value[fieldIndex])
    {
      if currentRow.None? then Failure(NoRowRead)
      else if 0 <= fieldIndex < currentRow.value.Length then Success(currentRow.value[fieldIndex])
      else Failure(IndexOutOfRange)
    }

    /** `this[fieldName]`. */
    function ItemByName(fieldName: string): (r: Result<Value, AccessError>)
      requires Valid()
      reads this, if currentRow.Some? then {currentRow.value} else {}
      ensures currentRow.None? <==> r == Failure(NoRowRead)
      ensures currentRow.Some? ==> (r == Failure(FieldNotFound(fieldName)) <==> fieldName !in Names(header.fields))
      ensures r.Success? ==> exists i :: 0 <= i < |header.fields| && header.fields[i].name == fieldName && r.value == currentRow.value[i]
    {
      if currentRow.None? then Failure(NoRowRead)
      else if fieldName !in fieldIndices then Failure(FieldNotFound(fieldName))
      else
        IndexedName(fieldIndices, header.fields, fieldName);
        Success(currentRow.value[fieldIndices[fieldName]])
    }

    /** `GetValues`: the current row itself. */
    function GetValues(): (r: Result<array<Value>, AccessError>)
      reads this
      ensures currentRow.None? <==> r == Failure(NoRowRead)
      ensures currentRow.Some? ==> r == Success(currentRow.value)
    {
      if currentRow.None? then Failure(NoRowRead) else Success(currentRow.value)
    }

    /** Looking a field up by name is looking it up by its position in the header. */
    lemma NamedIsIndexed(i: nat)
      requires Valid() && currentRow.Some? && i < |header.fields|
      ensures ItemByName(header.fields[i].name) == Item(i)
      ensures Item(i) == Success(currentRow.value[i])
    {
    }

    /** `GetValues` hands out the row the indexers read. */
    lemma ValuesAreItems(i: int)
      requires GetValues().Success?
      ensures Item(i).Success? <==> 0 <= i < GetValues().value.Length
      ensures Item(i).Success? ==> Item(i).value == GetValues().value[i]
    {
    }

    /**
     * `NextRow`: false at the end of the stream, leaving everything as it is; otherwise
     * the record at the current position becomes the current row. A failing record
     * leaves the previous row in place.
     */
    method NextRow() returns (r: Result<bool, RowError>)
      requires Valid() && Narrow(header.fields)
      modifies this, input, reader.buffer
      ensures Valid()
      ensures old(input.pos) == |input.data| ==>
        r == Success(false) && input.pos == old(input.pos) && currentRow == old(currentRow)
      ensures old(input.pos) != |input.data| ==>
        var record := RecordAt(input.data, old(input.pos), header.recordByteSize, header.fields, TablesOf(values));
        && (r.Success? <==> record.Success?)
        && (r.Success? ==> r.value && currentRow.Some? && fresh(currentRow.value) && currentRow.value[..] == record.value)
        && (r.Failure? ==> r.error == record.error && currentRow == old(currentRow))
      ensures old(input.pos) + header.recordByteSize <= |input.data| ==> input.pos == old(input.pos) + header.recordByteSize
      // a short final record: `ReadExactly` reads to the end before it fails
      ensures old(input.pos) < |input.data| < old(input.pos) + header.recordByteSize ==>
        input.pos == |input.data| && r == Failure(RowError.EndOfStream)
    {
      if input.pos == |input.data| {
        return Success(false);
      }
      var row := reader.ReadRow(input);
      if row.Failure? {
        return Failure(row.error);
      }
      currentRow := Some(row.value);
      return Success(true);
    }

    /**
     * A caller's `while (reader.NextRow())` loop, run to the end of the stream: the rows
     * delivered are `Rows` from where it starts, or the first failing record's error.
     */
    method ReadToEnd() returns (r: Result<seq<seq<Value>>, RowError>)
      requires Valid() && Narrow(header.fields)
      requires header.recordByteSize > 0 && input.pos <= |input.data|
      modifies this, input, reader.buffer
      ensures Valid()
      ensures r == Rows(input.data, old(input.pos), header.recordByteSize, header.fields, TablesOf(values))
    {
      ghost var start := input.pos;
      var rows: seq<seq<Value>> := [];
      PrependNothing(Rows(input.data, start, header.recordByteSize, header.fields, TablesOf(values)));
      while true
        invariant Valid() && input.pos <= |input.data|
        invariant Rows(input.data, start, header.recordByteSize, header.fields, TablesOf(values))
               == Prepend(rows, Rows(input.data, input.pos, header.recordByteSize, header.fields, TablesOf(values)))
        decreases |input.data| - input.pos
      {
        ghost var p := input.pos;
        var more := NextRow();
        RowsStep(input.data, p, header.recordByteSize, header.fields, TablesOf(values), rows);
        if more.Failure? {
          return Failure(more.error);
        }
        if !more.value {
          return Success(rows);
        }
        rows := rows + [currentRow.value[..]];
      }
    }
  }

  /** Entries made in the order of bit-offset-sorted fields are sorted by their field's bit offset. */
  lemma EntriesSorted(fields: seq<FieldInfo>, values: seq<(FieldInfo, seq<Value>)>)
    requires SortedBy(fields, BitOffsetOf)
    requires |values| == |fields| && forall i :: 0 <= i < |values| ==> values[i].0 == fields[i]
    ensures SortedBy(values, EntryOffset)
  {
    forall i, j | 0 <= i < j < |values|
      ensures EntryOffset(values[i]) <= EntryOffset(values[j])
    {
      assert EntryOffset(values[i]) == BitOffsetOf(fields[i]);
    }
  }

  /** Sorting the parsed fields, or the entries read for them, changes nothing. */
  lemma AlreadySorted(fields: seq<FieldInfo>, values: seq<(FieldInfo, seq<Value>)>)
    requires SortedBy(fields, BitOffsetOf)
    requires |values| == |fields| && forall i :: 0 <= i < |values| ==> values[i].0 == fields[i]
    ensures SortBy(fields, BitOffsetOf) == fields
    ensures SortBy(values, EntryOffset) == values
  {
    SortBySorted(fields, BitOffsetOf);
    EntriesSorted(fields, values);
    SortBySorted(values, EntryOffset);
  }

  /** The `foreach` over the fields that reads their symbol tables into `Values`, in header order. */
  method ReadTables(fields: seq<FieldInfo>, input: ByteStream) returns (r: Result<seq<(FieldInfo, seq<Value>)>, ReadError>)
    modifies input
    ensures r.Success? <==> TablesUpTo(input.data, old(input.pos), fields, |fields|).Success?
    ensures r.Failure? ==> r.error == TablesUpTo(input.data, old(input.pos), fields, |fields|).error
    ensures r.Success? ==> TablesUpTo(input.data, old(input.pos), fields, |fields|).value == (TablesOf(r.value), input.pos)
    ensures r.Success? ==> |r.value| == |fields| && forall k :: 0 <= k < |fields| ==> r.value[k].0 == fields[k]
  {
    ghost var p := input.pos;
    var valueReader := new ValueReader();
    var values: seq<(FieldInfo, seq<Value>)> := [];
    for i := 0 to |fields|
      invariant valueReader.Valid() && fresh(valueReader.buffer)
      invariant |values| == i && forall k :: 0 <= k < i ==> values[k].0 == fields[k]
      invariant TablesUpTo(input.data, p, fields, i) == Success((TablesOf(values), input.pos))
    {
      var table := valueReader.ReadValues(fields[i], input);
      if table.Failure? {
        TablesFail(input.data, p, fields, i, |fields|);
        return Failure(table.error);
      }
      TableRead(input.data, p, fields, i, values, table.value[..], input.pos);
      values := values + [(fields[i], table.value[..])];
    }
    return Success(values);
  }

  /**
   * The header stage of the constructor, `HeaderExtractor.ReadHeader` then `HeaderParser`:
   * an error ends the constructor, a header leaves the rest to `AfterHeader`.
   */
  method OpenHeader(input: ByteStream, load: Bytes -> Option<Document>, conv: Converters) returns (r: Result<QvdHeader, OpenError>)
    requires input.pos == 0
    modifies input
    ensures r.Failure? ==> OpenSpec(input.data, load, conv) == Failure(r.error)
    ensures r.Success? ==> OpenSpec(input.data, load, conv) == AfterHeader(input.data, input.pos, r.value)
    ensures r.Success? ==> SortedBy(r.value.fields, BitOffsetOf)
  {
    var headerReader := new HeaderReader(input);
    var doc := headerReader.ReadHeader(load);
    if doc.Failure? {
      return Failure(ScanFailed(doc.error));
    }
    var parsed := Parse(doc.value, conv);
    if parsed.Failure? {
      return Failure(InvalidHeader(parsed.error));
    }
    ParsedFields(doc.value.root.value, conv);
    return Success(parsed.value);
  }

  /** What follows the header: indexing, the symbol tables, the row reader. */
  method OpenTables(input: ByteStream, header: QvdHeader) returns (r: Result<QvdReader, OpenError>)
    requires SortedBy(header.fields, BitOffsetOf)
    modifies input
    ensures var spec := AfterHeader(input.data, old(input.pos), header);
      && (r.Success? <==> spec.Success?)
      && (r.Failure? ==> r.error == spec.error)
      && (r.Success? ==>
            && fresh(r.value) && r.value.Valid() && r.value.currentRow == None
            && r.value.header == spec.value.header && TablesOf(r.value.values) == spec.value.tables
            && r.value.input == input && input.pos == spec.value.pos)
  {
    var indices := IndexFields(header.fields);
    if indices.None? {
      return Failure(DuplicateField);
    }
    input.Skip(1);
    var tables := ReadTables(header.fields, input);
    if tables.Failure? {
      return Failure(InvalidValues(tables.error));
    }
    var values := tables.value;
    if header.recordByteSize < 0 {
      return Failure(NegativeRecordSize);
    }
    var reader := new RowReader(header, values);
    AlreadySorted(header.fields, values);
    IndexFieldsIndexes(indices.value, header.fields);
    var qvd := new QvdReader(input, header, values, indices.value, reader);
    return Success(qvd);
  }

  /** The constructor, on an image already in memory. */
  method Open(data: Bytes, load: Bytes -> Option<Document>, conv: Converters) returns (r: Result<QvdReader, OpenError>)
    ensures r.Success? <==> OpenSpec(data, load, conv).Success?
    ensures r.Failure? ==> r.error == OpenSpec(data, load, conv).error
    ensures r.Success? ==>
      var o := OpenSpec(data, load, conv).value;
      && fresh(r.value) && r.value.Valid() && r.value.currentRow == None
      && r.value.header == o.header && TablesOf(r.value.values) == o.tables
      && r.value.input.data == data && r.value.input.pos == o.pos
  {
    var input := new ByteStream(data);
    var header := OpenHeader(input, load, conv);
    if header.Failure? {
      return Failure(header.error);
    }
    r := OpenTables(input, header.value);
  }

  // ---------------------------------------------------------------------------
  // Reading a whole table

  /**
   * The rows `NextRow` delivers from `p` until it returns false, for records of `size`
   * bytes; the first failing record decides the error.
   */
  function Rows(data: Bytes, p: nat, size: nat, fields: seq<FieldInfo>, tables: seq<seq<Value>>): (r: Result<seq<seq<Value>>, RowError>)
    requires Narrow(fields) && size > 0 && p <= |data|
    decreases |data| - p
  {
    if p == |data| then Success([])
    else
      match RecordAt(data, p, size, fields, tables)
      case Failure(e) => Failure(e)
      case Success(row) =>
        match Rows(data, p + size, size, fields, tables)
        case Failure(e) => Failure(e)
        case Success(rest) => Success([row] + rest)
  }

  /** The rows read so far, followed by the rest, unless the rest fails. */
  function Prepend(rows: seq<seq<Value>>, rest: Result<seq<seq<Value>>, RowError>): Result<seq<seq<Value>>, RowError> {
    match rest
    case Failure(e) => Failure(e)
    case Success(more) => Success(rows + more)
  }

  lemma PrependNothing(rest: Result<seq<seq<Value>>, RowError>)
    ensures Prepend([], rest) == rest
  {
    if rest.Success? {
      assert [] + rest.value == rest.value;
    }
  }

  /** One `NextRow` step of `Rows`: the end, a failing record, or one more row. */
  lemma RowsStep(data: Bytes, p: nat, size: nat, fields: seq<FieldInfo>, tables: seq<seq<Value>>, rows: seq<seq<Value>>)
    requires Narrow(fields) && size > 0 && p <= |data|
    ensures p == |data| ==> Prepend(rows, Rows(data, p, size, fields, tables)) == Success(rows)
    ensures p < |data| && RecordAt(data, p, size, fields, tables).Failure? ==>
      Prepend(rows, Rows(data, p, size, fields, tables)) == Failure(RecordAt(data, p, size, fields, tables).error)
    ensures p < |data| && RecordAt(data, p, size, fields, tables).Success? ==>
      p + size <= |data| &&
      Prepend(rows, Rows(data, p, size, fields, tables))
        == Prepend(rows + [RecordAt(data, p, size, fields, tables).value], Rows(data, p + size, size, fields, tables))
  {
    if p < |data| && RecordAt(data, p, size, fields, tables).Success? {
      var row := RecordAt(data, p, size, fields, tables).value;
      var rest := Rows(data, p + size, size, fields, tables);
      if rest.Success? {
        assert rows + ([row] + rest.value) == (rows + [row]) + rest.value;
      }
    }
    if p == |data| {
      assert rows + [] == rows;
    }
  }

  /**
   * The number of rows is fixed by the bytes after the symbol tables, not by
   * `NoOfRecords`: they must split into whole records, one row each.
   */
  lemma {:induction false} RowsCount(data: Bytes, p: nat, size: nat, fields: seq<FieldInfo>, tables: seq<seq<Value>>)
    requires Narrow(fields) && size > 0 && p <= |data|
    requires Rows(data, p, size, fields, tables).Success?
    ensures |Rows(data, p, size, fields, tables).value| * size == |data| - p
    decreases |data| - p
  {
    if p < |data| {
      var rows := Rows(data, p, size, fields, tables).value;
      assert p + size <= |data|;
      RowsCount(data, p + size, size, fields, tables);
      MoreRows(|rows| - 1, size);
    }
  }

  lemma MoreRows(n: nat, size: nat)
    ensures (n + 1) * size == n * size + size
  {
  }

  /** A tail shorter than one record ends the table with `EndOfStream`. */
  lemma ShortTail(data: Bytes, p: nat, size: nat, fields: seq<FieldInfo>, tables: seq<seq<Value>>)
    requires Narrow(fields) && size > 0 && p < |data| < p + size
    ensures Rows(data, p, size, fields, tables) == Failure(RowError.EndOfStream)
  {
  }
}
