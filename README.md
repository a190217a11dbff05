# QVD reader decode core

A model of the decode pipeline of Bondski.QvdLib, a reader for Qlik's QVD files, with
proofs about it. A QVD file is an XML table header closed by `</QvdTableHeader>`, then a
pad byte, then one symbol table per field, then fixed-size bit-packed records. The model
covers each stage:

- `HeaderReading` scans the stream byte by byte for the closing tag. It keeps the bytes
  it has read and hands them to the XML loader, which is a parameter. It also models
  `IsRead` and `HeaderDocument`.
- `HeaderParsing` maps the header document to a `QvdHeader`. The document is an abstract
  element tree (`Xml`). Empty elements count as missing. Required elements are checked.
  Values are converted by caller-supplied converters. The fields are stably sorted by
  `BitOffset`.
- `ValueReading` reads the symbol tables. Each value is a type byte plus its payload:
  - a 4-byte little-endian int;
  - an 8-byte double;
  - a NUL-terminated string;
  - a number followed by a string.

  `ValueReader` is a class. Its string buffer is an `array`, doubled up to
  `MaxBufferSize`. Its methods are proved against the pure decoders `DecodeValue` and
  `DecodeValues`, and an encoder gives round trips in both directions.
- `Values` holds the `Value` struct with its strict (`As*`) and coercing (`To*`)
  accessors.
- `RowReading` decodes one record. Each field takes `BitWidth` bits, least significant
  first, in bit-offset order. The field's bias is added with int wrap-around. The index
  -2 gives Null; any other index selects an entry of the field's symbol table.
  - `ReadRow` is the imperative loop of the source. It shifts the record buffer in
    place. It is proved equal to the function `DecodeRow`, and `DecodeRow`'s meaning is
    stated by `RowCells` and `RowSucceeds`.
- `QvdReading` is the `QvdReader` class. `Open` runs the constructor's steps in order:
  1. read the header and parse it;
  2. build the name index, and fail on a duplicate name;
  3. skip one byte;
  4. read one table per field in header order;
  5. build the `RowReader`.

  Each step is proved against the function `OpenSpec`. `NextRow`, the two indexers and
  `GetValues` guard `currentRow` as the source does.

Shared modules:
- `Wrappers`: `Option` and `Result`.
- `Numerics`: powers of two, little-endian bytes and int32 wrap-around.
- `BitOps`: byte `&`, `|`, `<<` and `>>` on non-negative integers.
- `Sorting`: the stable sort that LINQ `OrderBy` performs.
- `Schema`: `FieldInfo`, `NumberFormat` and `QvdHeader`.
- `Streams`: a byte stream with a position.

## Model

| member | source | states |
|---|---|---|
| RowReading.BitMasksLow | Bondski.QvdLib/RowReader.cs:17-28 | mask k keeps the low k bits: it equals 2^k - 1 for k = 0..8 |
| RowReading.RowReader.constructor | Bondski.QvdLib/RowReader.cs:41-49 | the fields are the header's fields, stably sorted by bit offset; the tables are the dictionary's entries, sorted by their field's bit offset; the buffer is a fresh array of RecordByteSize bytes |
| RowReading.RowReader.GetFieldIndices | Bondski.QvdLib/RowReader.cs:55-64 | succeeds exactly when the names are distinct; its keys are exactly the field names, and the i-th field in bit-offset order maps to i |
| RowReading.IndexFields | Bondski.QvdLib/QvdReader.cs:33-38 | the Dictionary.Add loop: fails exactly on a repeated name, else maps each field's name to its position and has no other keys |
| RowReading.RowReader.ReadBits | Bondski.QvdLib/RowReader.cs:76-110 | the bit loop for one field: it succeeds exactly when the field's bits lie inside the record; the index is the field's raw bits; the cursor keeps bitIndex below 8 and byteIndex*8+bitIndex equal to the widths read so far; the buffer is left shifted as ShiftAfter says |
| RowReading.RowReader.ReadRow | Bondski.QvdLib/RowReader.cs:72-131 | reads RecordByteSize bytes, or runs to the end of the stream when fewer are left; the row equals DecodeRow of those bytes, or is EndOfStream; a returned row is a fresh array; the final buffer contents are stated |
| RowReading.RawIndexBits | Bondski.QvdLib/RowReader.cs:86-110 | bit k of a field's raw index is record bit Start+k, taken least significant first, so earlier bits are the lower-order ones |
| RowReading.ZeroWidth | Bondski.QvdLib/RowReader.cs:82-87 | a field of width 0 or less reads no bits, leaves the cursor where it was, and its index is its bias |
| RowReading.RowCells | Bondski.QvdLib/RowReader.cs:112-130 | a decoded row has one cell per symbol table; a field's cell is Null when its biased index is -2, else that entry of its table; cells past the fields are Null |
| RowReading.RowSucceeds | Bondski.QvdLib/RowReader.cs:80-128 | a record decodes if and only if every field fits: its bits are inside the record, it has a table, and its index is -2 or in range |
| RowReading.DecodeRow | Bondski.QvdLib/RowReader.cs:75 | a decoded row has as many cells as there are symbol tables |
| RowReading.OffsetsIgnored | Bondski.QvdLib/RowReader.cs:48 | two field lists with the same widths and biases decode every record alike, so bit offsets never place the cursor |
| RowReading.ZeroByteReadsFirstEntry | Bondski.QvdLib.Tests/RowReaderTest.cs:43-62 | one 8-bit field with bias 0 over the byte 0x00 yields entry 0 of its table |
| RowReading.ZeroByteBiasMinusTwoIsNull | Bondski.QvdLib.Tests/RowReaderTest.cs:66-87 | the same record with bias -2 yields a Null cell, whatever the table holds |
| Sorting.SortBy | Bondski.QvdLib/HeaderParser.cs:80 | the result is sorted by the key and keeps the length and the multiset of elements |
| Sorting.SortByStable | Bondski.QvdLib/HeaderParser.cs:80 | the sort is stable: the elements with any one key keep their order |
| Sorting.SortByIdempotent | Bondski.QvdLib/RowReader.cs:47-48 | sorting by a key twice, as HeaderParser and then RowReader do, gives the same sequence as sorting once |
| Sorting.SortBySorted | Bondski.QvdLib/RowReader.cs:47-48 | sorting a sequence that is already sorted changes nothing |
| Numerics.Int32Add | Bondski.QvdLib/RowReader.cs:114 | adding in int wraps modulo 2^32 into the int32 range, and equals the exact sum whenever that sum fits |
| Numerics.Int32RoundTrip | Bondski.QvdLib/ValueReader.cs:44-49 | reading back the four little-endian two's-complement bytes of an int gives that int |
| ValueReading.DecodeValue | Bondski.QvdLib/ValueReader.cs:38-79 | ReadValue's tag switch: end of stream and unknown tags (Null and 3 among them) fail; a decoded value has the tag byte as its kind and ends inside the data; its payloads are what the primitive readers give, in order: the int or double right after the tag, then for String, DualInt and DualDouble the text that starts at offset 1, 5 or 9 and ends where the value ends |
| ValueReading.DecodeInt | Bondski.QvdLib/ValueReader.cs:44-49 | succeeds exactly when four bytes remain; the value is their little-endian two's-complement int, and the cursor moves on by 4 |
| ValueReading.DecodeDouble | Bondski.QvdLib/ValueReader.cs:50-55 | succeeds exactly when eight bytes remain; the double's bit pattern is their little-endian value, and the cursor moves on by 8 |
| ValueReading.DecodeString | Bondski.QvdLib/ValueReader.cs:83-109 | a string is the NUL-free bytes before the first 0x00; the terminator is consumed but is not part of the string |
| ValueReading.DecodeValues | Bondski.QvdLib/ValueReader.cs:24-36 | a negative NoOfSymbols fails; otherwise exactly NoOfSymbols values are decoded back to back |
| ValueReading.DecodeEncodeValue | Bondski.QvdLib/ValueReader.cs:38-79 | encoding a non-Null value (text without 0x00) and decoding it, with any bytes around it, gives the same value, with the cursor just past the encoding |
| ValueReading.EncodeDecodedValue | Bondski.QvdLib/ValueReader.cs:62-75 | any value that decodes re-encodes to exactly the bytes consumed, including Dual values with both payloads |
| ValueReading.NoNullInTable | Bondski.QvdLib/ValueReader.cs:76-77 | no entry of a decoded symbol table has type Null |
| ValueReading.ScanFull | Bondski.QvdLib/ValueReader.cs:93-103 | a string that has no terminator by the last buffer position fails with StringTooLong |
| ValueReading.BufferLimit | Bondski.QvdLib/ValueReader.cs:16 | buffer lengths double only while at most MaxBufferSize, so no buffer exceeds 2*MaxBufferSize |
| ValueReading.ValueReader.constructor | Bondski.QvdLib/ValueReader.cs:81 | the shared buffer starts as a fresh array of 64 bytes |
| ValueReading.ValueReader.Grow | Bondski.QvdLib/ValueReader.cs:95-98 | Array.Resize: a fresh buffer twice as long that keeps the old contents |
| ValueReading.ValueReader.Append | Bondski.QvdLib/ValueReader.cs:90-104 | stores a byte, growing the buffer when it is full; fails exactly when the position would reach 2*MaxBufferSize |
| ValueReading.ValueReader.ReadString | Bondski.QvdLib/ValueReader.cs:83-109 | the result and the new stream position are what DecodeString gives; the string is the buffer's prefix |
| ValueReading.ValueReader.ReadValue | Bondski.QvdLib/ValueReader.cs:38-79 | the value and the new stream position are what DecodeValue gives |
| ValueReading.ValueReader.ReadValues | Bondski.QvdLib/ValueReader.cs:24-36 | succeeds exactly when DecodeValues does; a fresh array holds the decoded values; the stream stops where the decoder ends |
| Values.AsInt | Bondski.QvdLib/Value.cs:39-52 | returns the int for Int and DualInt and null for Null; fails for every other type |
| Values.AsDouble | Bondski.QvdLib/Value.cs:59-72 | returns the double for Double and DualDouble and null for Null; fails for every other type |
| Values.AsString | Bondski.QvdLib/Value.cs:79-92 | returns the text for String, DualInt and DualDouble and null for Null; fails for every other type |
| Values.ToInt | Bondski.QvdLib/Value.cs:102-127 | returns the int payload unchanged for Int and DualInt; converts a Double or DualDouble with the double-to-int conversion, failing where it fails; a String fails unless convertFromString is set, and then it is the parsed int, or ConversionFailed when the text does not parse; gives null for Null; fails for an unknown type |
| Values.ToDouble | Bondski.QvdLib/Value.cs:137-162 | returns the double payload unchanged for Double and DualDouble; converts an int; a String fails unless convertFromString is set, and then it is the parsed double, or ConversionFailed when the text does not parse; gives null for Null; fails for an unknown type |
| Values.ToText | Bondski.QvdLib/Value.cs:169-186 | returns the text for String and Dual values; formats Int and Double; gives null for Null; fails for an unknown type |
| Values.NullAccessors | Bondski.QvdLib.Tests/ValueTest.cs:125-143 | on a Null value all six accessors return null and none of them fails |
| Values.StrictAgreesWithCoercing | Bondski.QvdLib/Value.cs:102-186 | wherever a strict accessor succeeds, the coercing one returns the same result |
| Values.DualTextIgnoresNumber | Bondski.QvdLib/Value.cs:173-176 | two Dual values with the same text print alike, whatever their numbers |
| Values.StringConversionNeedsFlag | Bondski.QvdLib.Tests/ValueTest.cs:26-31 | without convertFromString, ToInt and ToDouble on a String fail; with it, both give the parsed number when the text parses and fail with ConversionFailed when it does not; a null text gives 0 |
| HeaderReading.Step | Bondski.QvdLib/HeaderReader.cs:64-71 | the matched count increments exactly when the byte is the next marker byte, and otherwise resets to 0 |
| HeaderReading.Scan | Bondski.QvdLib/HeaderReader.cs:61-79 | a successful scan ends strictly inside the data; it fails with HeaderNotFound once the stream is at its end after a byte |
| HeaderReading.HeaderEndsWithMarker | Bondski.QvdLib/HeaderReader.cs:57-79 | the scanned header bytes end with `</QvdTableHeader>`, and the stream has bytes left after them |
| HeaderReading.MarkerAtEndNotFound | Bondski.QvdLib/HeaderReader.cs:75-78 | a stream that is exactly the marker fails: the position reaches the length on the byte that completes it |
| HeaderReading.ShortStreamNotFound | Bondski.QvdLib/HeaderReader.cs:61-79 | a scan with no more than the marker's length of bytes left fails with HeaderNotFound, because the byte after the marker must still be in the stream |
| HeaderReading.NoStartNoHeader | Bondski.QvdLib/HeaderReader.cs:61-79 | a stream with no `<` after the start never yields a header |
| HeaderReading.RepeatedOpenMissesMarker | Bondski.QvdLib/HeaderReader.cs:68-71 | the reset does not re-test the failing byte: `<` followed by the marker is not found |
| HeaderReading.HeaderReader.constructor | Bondski.QvdLib/HeaderReader.cs:33 | a new reader has IsRead false and no document |
| HeaderReading.HeaderReader.HeaderDocument | Bondski.QvdLib/HeaderReader.cs:38-49 | fails with NotRead exactly when IsRead is false; otherwise it returns the stored document |
| HeaderReading.HeaderReader.ReadHeader | Bondski.QvdLib/HeaderReader.cs:55-86 | the result and the stream position are what the scan and the loader give; success sets IsRead and stores the document; failure changes neither |
| HeaderParsing.Present | Bondski.QvdLib/HeaderParser.cs:159-166 | an element counts as present only when its first occurrence exists and has non-empty text |
| HeaderParsing.GetValue | Bondski.QvdLib/HeaderParser.cs:159-180 | the missing flag is set exactly when the element is missing or empty, and then the value is the default; a present value is its conversion; failure happens exactly when a present value does not convert |
| HeaderParsing.Get | Bondski.QvdLib/HeaderParser.cs:130-134 | a missing element gives the type default; a present one succeeds exactly when its text converts, and then the value is that conversion |
| HeaderParsing.GetRequired | Bondski.QvdLib/HeaderParser.cs:118-128 | fails with MissingElement exactly when the element is missing or empty; on success the value is the text's conversion |
| HeaderParsing.GetDateTime | Bondski.QvdLib/HeaderParser.cs:136-145 | a missing element gives null; a converted value equal to the default gives null; otherwise it gives the converted value |
| HeaderParsing.GetStringList | Bondski.QvdLib/HeaderParser.cs:147-157 | null exactly when the list element is missing or empty; otherwise the texts of its String children, in document order |
| HeaderParsing.GetNumberFormat | Bondski.QvdLib/HeaderParser.cs:100-116 | no NumberFormat element gives the empty format; a present one succeeds exactly when nDec and UseThou convert, and then nDec and useThou are those values and Type, Fmt, Dec and Thou are the elements' texts |
| HeaderParsing.GetFieldInfo | Bondski.QvdLib/HeaderParser.cs:83-98 | succeeds exactly when FieldName is present and every numeric property and the number format convert; then the name is the FieldName text, BitOffset, BitWidth, Bias, NoOfSymbols, Offset and Length are their Get values, the number format is GetNumberFormat's, the comment is the Comment text and the tags are the Tags list |
| HeaderParsing.FieldInfos | Bondski.QvdLib/HeaderParser.cs:69-81 | succeeds exactly when every field element converts; the result is those field infos, in document order |
| Wrappers.MapResult | Bondski.QvdLib/HeaderParser.cs:71-73 | the Select over the field elements: succeeds exactly when every element converts, gives their results in order, and otherwise fails with the first failing element's error |
| HeaderParsing.GetFields | Bondski.QvdLib/HeaderParser.cs:69-81 | no field elements fail with NoFields; otherwise the fields are their infos, stably sorted by BitOffset |
| HeaderParsing.ParseElement | Bondski.QvdLib/HeaderParser.cs:30-62 | a null root, or a root that is not QvdTableHeader, fails; for a QvdTableHeader root it succeeds exactly when the fields, the four dates, SourceFileSize and the four required sizes all convert; then each header property is its element's value: the texts, the dates by GetDateTime, the sizes by GetRequired, and the fields by GetFields |
| HeaderParsing.ParsedFields | Bondski.QvdLib/HeaderParser.cs:80 | the parsed fields are a stable bit-offset sort of the declared fields: the same length and multiset, sorted |
| HeaderParsing.ParsedFieldNames | Bondski.QvdLib/HeaderParser.cs:87 | every field of a parsed header has a non-empty FieldName |
| HeaderParsing.EmptyIsMissing | Bondski.QvdLib/HeaderParser.cs:161-166 | an element with empty text reads as if it were absent, and gives the default |
| HeaderParsing.EmptyDateIsNull | Bondski.QvdLib.Tests/HeaderParserTest.cs:141 | an empty date element gives null |
| HeaderParsing.UnconvertibleBitOffset | Bondski.QvdLib.Tests/HeaderParserTest.cs:119-124 | a BitOffset of "A" makes the field fail with InvalidValue |
| HeaderParsing.ParsesNumericValue | Bondski.QvdLib.Tests/HeaderParserTest.cs:127-132 | a field element with a FieldName and BitOffset 0 parses, with that name, bit offset 0, bit width 0 and the empty number format |
| HeaderParsing.TagList | Bondski.QvdLib.Tests/HeaderParserTest.cs:156-164 | a Tags element with two String children gives both texts, in order |
| Xml.FirstElementIsHead | Bondski.QvdLib/HeaderParser.cs:130-134 | Element(name) is the first of Elements(name), or null when there are none |
| Xml.FirstChildAbsent | Bondski.QvdLib/HeaderParser.cs:130-134 | Element(name) is null exactly when no child element has that name |
| Xml.EmptyContent | Bondski.QvdLib/HeaderParser.cs:161-166 | an element's text is empty exactly when every part of its content has empty text |
| QvdReading.TablesUpTo | Bondski.QvdLib/QvdReader.cs:44-47 | reading the first n tables in header order gives n tables, and table k has the length of field k's NoOfSymbols |
| QvdReading.TableRead | Bondski.QvdLib/QvdReader.cs:44-47 | reading one more table appends it, with its field, to the tables read so far, and moves on to where it ends |
| QvdReading.TablesFail | Bondski.QvdLib/QvdReader.cs:44-47 | one failing table makes the whole sequence of reads fail with that error |
| QvdReading.IndexedName | Bondski.QvdLib/QvdReader.cs:99 | every name in the index maps to an in-range field that has that name |
| QvdReading.ReadTables | Bondski.QvdLib/QvdReader.cs:43-47 | the loop succeeds exactly when TablesUpTo does, with the same error or the same tables; entry k belongs to field k |
| QvdReading.OpenHeader | Bondski.QvdLib/QvdReader.cs:29-31 | the header read and the parse agree with OpenSpec; the fields it returns are sorted by bit offset |
| QvdReading.OpenTables | Bondski.QvdLib/QvdReader.cs:33-49 | the name index, the one skipped byte, the tables and the row reader agree with AfterHeader on every path |
| QvdReading.Open | Bondski.QvdLib/QvdReader.cs:27-50 | the constructor succeeds exactly when OpenSpec does, with the same error; on success the reader is valid, has no current row, and holds OpenSpec's header, tables and stream position |
| QvdReading.AlreadySorted | Bondski.QvdLib/RowReader.cs:47-48 | RowReader's re-sort changes neither the header's fields nor the dictionary's entries, since both are already in bit-offset order |
| QvdReading.QvdReader.constructor | Bondski.QvdLib/QvdReader.cs:49 | the reader holds the given header, tables, index and row reader, has no current row, and is valid |
| QvdReading.QvdReader.Item | Bondski.QvdLib/QvdReader.cs:67-78 | fails with NoRowRead exactly before a row is read; an out-of-range index fails; otherwise the result is that cell of the current row |
| QvdReading.QvdReader.ItemByName | Bondski.QvdLib/QvdReader.cs:85-101 | fails with NoRowRead exactly before a row is read; fails with FieldNotFound exactly for a name that is not a field; otherwise the result is the cell of the field with that name |
| QvdReading.QvdReader.GetValues | Bondski.QvdLib/QvdReader.cs:125-133 | fails with NoRowRead exactly before a row is read; otherwise the result is the current row itself |
| QvdReading.QvdReader.NamedIsIndexed | Bondski.QvdLib/QvdReader.cs:94-99 | looking up field i by its name is the same as indexing cell i |
| QvdReading.QvdReader.ValuesAreItems | Bondski.QvdLib/QvdReader.cs:76 | indexing cell i succeeds exactly for the indices of GetValues' array, and gives its element i |
| QvdReading.QvdReader.NextRow | Bondski.QvdLib/QvdReader.cs:107-118 | at the end of the stream returns false and changes nothing; otherwise succeeds exactly when the record decodes, and then returns true with a fresh current row holding the decoded cells and the stream RecordByteSize further on; a failure keeps the previous row; a short final record fails with EndOfStream and leaves the stream at its end, so the next call returns false |
| QvdReading.QvdReader.ReadToEnd | Bondski.QvdLib/QvdReader.cs:107-118 | calling NextRow until it returns false delivers exactly the rows Rows gives from the starting position, or fails with the first failing record's error |
| QvdReading.RowsCount | Bondski.QvdLib/QvdReader.cs:109 | reading rows to the end of the stream delivers (remaining bytes) / RecordByteSize rows; NoOfRecords plays no part |
| QvdReading.ShortTail | Bondski.QvdLib/RowReader.cs:74 | a trailing part-record fails with EndOfStream |

## Left out

- Bytes are integers from 0 to 255, not bit-vectors. The C# byte operators `&`, `|`, `<<` and `>>` are modelled on non-negative integers.
- Doubles are opaque: `Float64` holds the IEEE bit pattern. `Convert.ToInt32(double)`, `Convert.ToDouble`, string parsing and number formatting are uninterpreted functions in a `Conversions` record. `Convert.ChangeType` and DateTime parsing in the header are in `Converters`; a DateTime is its tick count.
- UTF-8 decoding is not modelled. A value's text is kept as its undecoded bytes, and the header's XML text is already characters.
- `XDocument.Load` and XPath come from the XML library. Loading is a parameter (`None` stands for a load that throws). XPath is modelled by `Xml.SelectPath` over the abstract tree. Namespaces are ignored: element names are local names.
- File I/O, `Seek`, `BinaryReader` buffering and `Dispose` are not modelled. A file is a byte sequence with a position (`Streams.ByteStream`), and `File.OpenRead` becomes `QvdReading.Open` on that sequence.
- HeaderExtractor is not part of this model; `QvdReading.Open` uses `HeaderReading.HeaderReader` to find the header in its place.
- The exception classes become error variants of a `Result`. `NumberFormat` and `QvdHeader` are plain datatypes.
- QvdHeader.cs is a stale variant of the header record and is not used; the header is the one HeaderParser fills in.
- The ValueReader buffer is static and shared in the source. Here each `ValueReader` object owns one, and `Open` makes one for all the tables. Concurrency is not modelled.
- RowReading.RowReader.ReadRow: requires every BitWidth to be at most 31 (`Narrow`). A wider field would make `bitValue << bitsRead` leave int32, and C#'s masking of shift counts is not modelled. `QvdReading.QvdReader.NextRow` carries the same requirement. A record whose widths need more bytes than RecordByteSize is not excluded: it is the `BufferOverrun` error, where C# throws IndexOutOfRangeException.
- RowReading.RowReader.ReadRow: the final buffer contents are stated only for a successful read.
- RowReading.RowReader.constructor: requires RecordByteSize >= 0, where C# `new byte[]` throws. `QvdReading.Open` checks this before building the RowReader, after the tables are read, and returns `NegativeRecordSize`.
- QvdReading.QvdReader.ReadToEnd: requires RecordByteSize > 0, as RowsCount does, and a position no further than the end of the stream, where `Rows` is defined. Past the end, the first `NextRow` fails with EndOfStream.
- QvdReading.RowsCount: requires RecordByteSize > 0. With size 0 the source's `NextRow` returns true forever on a non-empty tail, and no row count exists.
- HeaderReading.HeaderReader.ReadHeader: requires the stream position to be at most its length. Past the end, `ReadByte` returns -1, which is read as byte 255, and the loop never stops.
- HeaderParsing.GetRequired: the source's separate null check for a missing value is folded into the missing flag, because the converters never return null for a present value.
- The `NoOfRecords` value is parsed but never consulted by the reader, so no property relates it to the rows.
- The CLI, benchmark and demo programs are not modelled; they are console front ends.
- The doc comment on the String type code says 0x03, but its enum value is 4. The model follows the code, so tag 3 is an unknown tag.
- The string limit follows the code. The buffer doubles while its length is at most `MaxBufferSize` (1 MiB), so a string of up to 2 MiB - 1 bytes is accepted, not 1 MiB.
