/**
 * The records the header describes: `FieldInfo` (one column), its `NumberFormat`, and
 * the table header the parser builds. They are plain values shared by all components.
 */
module Schema {
  import opened Wrappers
  import opened Numerics

  /** A `DateTime` as its tick count; 0 is `default(DateTime)`. */
  type DateTime = nat

  datatype NumberFormat = NumberFormat(
    formatType: Option<string>,
    nDec: Option<Byte>,
    useThou: Option<Byte>,
    fmt: Option<string>,
    dec: Option<string>,
    thou: Option<string>)

  /** A number format with every property unset (`new NumberFormat()`). */
  const EmptyNumberFormat: NumberFormat := NumberFormat(None, None, None, None, None, None)

  /** One column of the table. Only the bit layout and the symbol count drive decoding. */
  datatype FieldInfo = FieldInfo(
    name: string,
    bitOffset: Int32,
    bitWidth: Int32,
    bias: Int32,
    numberFormat: Option<NumberFormat>,
    noOfSymbols: Int32,
    offset: Option<Int32>,
    length: Option<Int32>,
    comment: Option<string>,
    tags: Option<seq<string>>)

  /** The sort key of both the header parser and the row reader. */
  function BitOffsetOf(f: FieldInfo): int { f.bitOffset }

  /** The table header, with the properties the header parser sets. */
  datatype QvdHeader = QvdHeader(
    fields: seq<FieldInfo>,
    qvBuildNo: Option<string>,
    creatorDoc: Option<string>,
    createTime: Option<DateTime>,
    sourceCreateTime: Option<DateTime>,
    sourceFileTime: Option<DateTime>,
    sourceFileSize: Int64,
    staleUtcTime: Option<DateTime>,
    tableName: Option<string>,
    compression: Option<string>,
    recordByteSize: Int32,
    noOfRecords: Int32,
    offset: Int32,
    length: Int64,
    lineage: Option<string>,
    comment: Option<string>,
    encryptionInfo: Option<string>)
}
