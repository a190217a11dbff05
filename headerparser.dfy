/**
 * `HeaderParser`: maps the `QvdTableHeader` element of the header document to a
 * `QvdHeader` and its `FieldInfo` list. An element that is absent or whose text is empty
 * counts as missing; required elements must be present; text that does not convert is an
 * error. `Convert.ChangeType` is a parameter: one partial conversion per target type.
 */
module HeaderParsing {
  import opened Wrappers
  import opened Numerics
  import opened Sorting
  import opened Schema
  import opened Xml

  /** The `InvalidHeaderException`s, by message. */
  datatype HeaderError =
    | NullRoot                                  // "Header element is null."
    | NotQvdTableHeader                         // "XML element not QvdTableHeader."
    | NoFields                                  // "QVD header needs to have at least 1 field."
    | MissingElement(name: string)              // "QVD header is missing element ..."
    | InvalidValue(name: string, text: string)  // "Invalid field value ... in element ..."

  /** `Convert.ChangeType(text, typeof(T))` for each `T` the header uses; `None` when it throws. */
  datatype Converters = Converters(
    toInt: string -> Option<Int32>,
    toLong: string -> Option<Int64>,
    toByte: string -> Option<Byte>,
    toDateTime: string -> Option<DateTime>)

  /** Conversion to `string` returns the text itself. */
  function AsText(s: string): Option<string> { Some(s) }

  /** Conversion to `string?`, the type of the optional string properties. */
  function AsOptionalText(s: string): Option<Option<string>> { Some(Some(s)) }

  /** The text of child `name` when it counts as present: the element exists and its text is not empty. */
  function Present(e: XNode, name: string): (r: Option<string>)
    ensures r.Some? <==> FirstElement(e, name).Some? && Value(FirstElement(e, name).value) != ""
    ensures r.Some? ==> r.value == Value(FirstElement(e, name).value)
  {
    match FirstElement(e, name)
    case None => None
    case Some(x) => if Value(x) == "" then None else Some(Value(x))
  }

  /**
   * `GetValue<T>`: the converted text of child `name` and the `missing` flag; a missing
   * element gives `dflt`, which stands for `default(T)`.
   */
  function GetValue<T>(e: XNode, name: string, convert: string -> Option<T>, dflt: T): (r: Result<(T, bool), HeaderError>)
    ensures r.Success? && r.value.1 <==> Present(e, name).None?
    ensures r.Success? && r.value.1 ==> r.value.0 == dflt
    ensures r.Success? && !r.value.1 ==> convert(Present(e, name).value) == Some(r.value.0)
    ensures r.Failure? <==> Present(e, name).Some? && convert(Present(e, name).value).None?
    ensures r.Failure? ==> r.error == InvalidValue(name, Present(e, name).value)
  {
    match Present(e, name)
    case None => Success((dflt, true))
    case Some(text) =>
      match convert(text)
      case None => Failure(InvalidValue(name, text))
      case Some(v) => Success((v, false))
  }

  /** `Get<T>`: the value, or the type's default when the element is missing. */
  function Get<T>(e: XNode, name: string, convert: string -> Option<T>, dflt: T): (r: Result<T, HeaderError>)
    ensures Present(e, name).None? ==> r == Success(dflt)
    ensures Present(e, name).Some? ==> (r.Success? <==> convert(Present(e, name).value).Some?)
    ensures Present(e, name).Some? && r.Success? ==> convert(Present(e, name).value) == Some(r.value)
    ensures r.Failure? ==> Present(e, name).Some? && r.error == InvalidValue(name, Present(e, name).value)
  {
    var got :- GetValue(e, name, convert, dflt);
    Success(got.0)
  }

  /**
   * `Get<string>`: the text of a present element, else null. Conversion to a string
   * cannot fail, so this is `Get` with `AsOptionalText` (see `GetTextIsGet`).
   */
  function GetText(e: XNode, name: string): (r: Option<string>)
    ensures r.Some? ==> r.value != ""
  {
    Present(e, name)
  }

  lemma GetTextIsGet(e: XNode, name: string)
    ensures Get(e, name, AsOptionalText, None) == Success(GetText(e, name))
  {
  }

  /**
   * `GetRequired<T>`: the value, or `MissingElement` when the element is missing. (The
   * extra `result == null` test can only hold for a missing element: every conversion
   * here yields a non-null value.)
   */
  function GetRequired<T>(e: XNode, name: string, convert: string -> Option<T>, dflt: T): (r: Result<T, HeaderError>)
    ensures Present(e, name).None? <==> r == Failure(MissingElement(name))
    ensures r.Success? ==> convert(Present(e, name).value) == Some(r.value)
  {
    var got :- GetValue(e, name, convert, dflt);
    if got.1 then Failure(MissingElement(name)) else Success(got.0)
  }

  /** `GetDateTime`: a date equal to `default(DateTime)`, missing or written out, becomes null. */
  function GetDateTime(e: XNode, name: string, conv: Converters): (r: Result<Option<DateTime>, HeaderError>)
    ensures Present(e, name).None? ==> r == Success(None)
    ensures r.Success? ==> (r.value.None? <==> Get(e, name, conv.toDateTime, 0) == Success(0))
    ensures r.Success? && r.value.Some? ==> Get(e, name, conv.toDateTime, 0) == Success(r.value.value)
    ensures r.Failure? <==> Get(e, name, conv.toDateTime, 0).Failure?
  {
    var d :- Get(e, name, conv.toDateTime, 0);
    if d == 0 then Success(None) else Success(Some(d))
  }

  /** `GetStringList`: null for a missing list, else the texts of its `sub` children in document order. */
  function GetStringList(e: XNode, name: string, sub: string): (r: Option<seq<string>>)
    ensures r.None? <==> Present(e, name).None?
    ensures r.Some? ==> var items := Elements(FirstElement(e, name).value, sub);
      |r.value| == |items| && forall k :: 0 <= k < |items| ==> r.value[k] == Value(items[k])
  {
    match FirstElement(e, name)
    case None => None
    case Some(x) =>
      if Value(x) == "" then None
      else
        var items := Elements(x, sub);
        Some(seq(|items|, k requires 0 <= k < |items| => Value(items[k])))
  }

  /** `GetNumberFormat`: all properties unset without the element; else each one read (bytes default to 0). */
  function GetNumberFormat(element: Option<XNode>, conv: Converters): (r: Result<NumberFormat, HeaderError>)
    ensures element.None? ==> r == Success(EmptyNumberFormat)
    ensures element.Some? ==>
      (r.Success? <==> Get(element.value, "nDec", conv.toByte, 0).Success? && Get(element.value, "UseThou", conv.toByte, 0).Success?)
    ensures element.Some? && r.Success? ==>
      r.value.nDec.Some? && Get(element.value, "nDec", conv.toByte, 0) == Success(r.value.nDec.value) &&
      r.value.useThou.Some? && Get(element.value, "UseThou", conv.toByte, 0) == Success(r.value.useThou.value)
    ensures element.Some? && r.Success? ==>
      r.value.formatType == GetText(element.value, "Type") && r.value.fmt == GetText(element.value, "Fmt") &&
      r.value.dec == GetText(element.value, "Dec") && r.value.thou == GetText(element.value, "Thou")
  {
    match element
    case None => Success(EmptyNumberFormat)
    case Some(x) =>
      var formatType := GetText(x, "Type");
      var nDec :- Get(x, "nDec", conv.toByte, 0);
      var useThou :- Get(x, "UseThou", conv.toByte, 0);
      var fmt := GetText(x, "Fmt");
      var dec := GetText(x, "Dec");
      var thou := GetText(x, "Thou");
      Success(NumberFormat(formatType, Some(nDec), Some(useThou), fmt, dec, thou))
  }

  /**
   * `GetFieldInfo`: one `QvdFieldHeader` element, its children read in the order of the
   * object initialiser. Only `FieldName` is required. `Offset` and `Length` default to 0
   * (the generic `Get<int>` cannot return null), so they are never null.
   */
  function GetFieldInfo(e: XNode, conv: Converters): (r: Result<FieldInfo, HeaderError>)
    ensures Present(e, "FieldName").None? ==> r == Failure(MissingElement("FieldName"))
    ensures r.Success? ==> Some(r.value.name) == Present(e, "FieldName")
    ensures r.Success? <==>
      Present(e, "FieldName").Some? && Get(e, "BitOffset", conv.toInt, 0).Success? &&
      Get(e, "BitWidth", conv.toInt, 0).Success? && Get(e, "Bias", conv.toInt, 0).Success? &&
      GetNumberFormat(FirstElement(e, "NumberFormat"), conv).Success? && Get(e, "NoOfSymbols", conv.toInt, 0).Success? &&
      Get(e, "Offset", conv.toInt, 0).Success? && Get(e, "Length", conv.toInt, 0).Success?
    ensures r.Success? ==> Some(r.value.name) == Present(e, "FieldName")
    ensures r.Success? ==>
      Get(e, "BitOffset", conv.toInt, 0) == Success(r.value.bitOffset) &&
      Get(e, "BitWidth", conv.toInt, 0) == Success(r.value.bitWidth) &&
      Get(e, "Bias", conv.toInt, 0) == Success(r.value.bias) &&
      Get(e, "NoOfSymbols", conv.toInt, 0) == Success(r.value.noOfSymbols)
    ensures r.Success? ==>
      r.value.offset.Some? && Get(e, "Offset", conv.toInt, 0) == Success(r.value.offset.value) &&
      r.value.length.Some? && Get(e, "Length", conv.toInt, 0) == Success(r.value.length.value)
    ensures r.Success? ==>
      r.value.numberFormat.Some? && GetNumberFormat(FirstElement(e, "NumberFormat"), conv) == Success(r.value.numberFormat.value)
    ensures r.Success? ==> r.value.comment == GetText(e, "Comment") && r.value.tags == GetStringList(e, "Tags", "String")
  {
    var name :- GetRequired(e, "FieldName", AsText, "");
    var bitOffset :- Get(e, "BitOffset", conv.toInt, 0);
    var bitWidth :- Get(e, "BitWidth", conv.toInt, 0);
    var bias :- Get(e, "Bias", conv.toInt, 0);
    var numberFormat :- GetNumberFormat(FirstElement(e, "NumberFormat"), conv);
    var noOfSymbols :- Get(e, "NoOfSymbols", conv.toInt, 0);
    var offset :- Get(e, "Offset", conv.toInt, 0);
    var length :- Get(e, "Length", conv.toInt, 0);
    var comment := GetText(e, "Comment");
    Success(FieldInfo(name, bitOffset, bitWidth, bias, Some(numberFormat), noOfSymbols,
                      Some(offset), Some(length), comment, GetStringList(e, "Tags", "String")))
  }

  /**
   * The `Select(GetFieldInfo)` of `GetFields`, enumerated in document order: every
   * element's field, or the error of the first element that fails.
   */
  function FieldInfos(elements: seq<XNode>, conv: Converters): (r: Result<seq<FieldInfo>, HeaderError>)
    ensures r.Success? <==> forall k :: 0 <= k < |elements| ==> GetFieldInfo(elements[k], conv).Success?
    ensures r.Success? ==> |r.value| == |elements|
    ensures r.Success? ==> forall k :: 0 <= k < |elements| ==> r.value[k] == GetFieldInfo(elements[k], conv).value
    ensures r.Failure? ==> exists k :: 0 <= k < |elements| && GetFieldInfo(elements[k], conv) == Failure(r.error)
                                       && forall m :: 0 <= m < k ==> GetFieldInfo(elements[m], conv).Success?
  {
    MapResult(elements, e => GetFieldInfo(e, conv))
  }

  /** The `Fields/QvdFieldHeader` elements of the table header, in document order. */
  function FieldElements(root: XNode): seq<XNode> {
    SelectPath(root, "Fields", "QvdFieldHeader")
  }

  /** `GetFields`: at least one field, in the stable order of their bit offsets. */
  function GetFields(root: XNode, conv: Converters): (r: Result<seq<FieldInfo>, HeaderError>)
    ensures FieldElements(root) == [] ==> r == Failure(NoFields)
    ensures r.Success? ==> FieldInfos(FieldElements(root), conv).Success?
    ensures r.Success? ==> r.value == SortBy(FieldInfos(FieldElements(root), conv).value, BitOffsetOf)
  {
    var elements := FieldElements(root);
    if elements == [] then Failure(NoFields)
    else
      var declared :- FieldInfos(elements, conv);
      Success(SortBy(declared, BitOffsetOf))
  }

  /**
   * The `HeaderParser(XElement?)` constructor: checks the root, then reads every property
   * in the order of the object initialiser, so the first failing one decides the error.
   */
  function ParseElement(root: Option<XNode>, conv: Converters): (r: Result<QvdHeader, HeaderError>)
    ensures root.None? ==> r == Failure(NullRoot)
    ensures root.Some? && !(root.value.Element? && root.value.name == "QvdTableHeader") ==> r == Failure(NotQvdTableHeader)
    ensures root.Some? && root.value.Element? && root.value.name == "QvdTableHeader" ==> var e := root.value;
      (r.Success? <==>
        GetFields(e, conv).Success? &&
        GetDateTime(e, "CreateUtcTime", conv).Success? && GetDateTime(e, "SourceCreateUtcTime", conv).Success? &&
        GetDateTime(e, "SourceFileUtcTime", conv).Success? && Get(e, "SourceFileSize", conv.toLong, 0).Success? &&
        GetDateTime(e, "StaleUtcTime", conv).Success? &&
        GetRequired(e, "RecordByteSize", conv.toInt, 0).Success? && GetRequired(e, "NoOfRecords", conv.toInt, 0).Success? &&
        GetRequired(e, "Offset", conv.toInt, 0).Success? && GetRequired(e, "Length", conv.toLong, 0).Success?)
    ensures r.Success? ==> root.Some? && GetFields(root.value, conv) == Success(r.value.fields)
    ensures r.Success? ==> Present(root.value, "RecordByteSize").Some? && Present(root.value, "NoOfRecords").Some?
    ensures r.Success? ==> Present(root.value, "Offset").Some? && Present(root.value, "Length").Some?
    ensures r.Success? ==> var e := root.value;
      GetRequired(e, "RecordByteSize", conv.toInt, 0) == Success(r.value.recordByteSize) &&
      GetRequired(e, "NoOfRecords", conv.toInt, 0) == Success(r.value.noOfRecords) &&
      GetRequired(e, "Offset", conv.toInt, 0) == Success(r.value.offset) &&
      GetRequired(e, "Length", conv.toLong, 0) == Success(r.value.length)
    ensures r.Success? ==> var e := root.value;
      GetDateTime(e, "CreateUtcTime", conv) == Success(r.value.createTime) &&
      GetDateTime(e, "SourceCreateUtcTime", conv) == Success(r.value.sourceCreateTime) &&
      GetDateTime(e, "SourceFileUtcTime", conv) == Success(r.value.sourceFileTime) &&
      GetDateTime(e, "StaleUtcTime", conv) == Success(r.value.staleUtcTime) &&
      Get(e, "SourceFileSize", conv.toLong, 0) == Success(r.value.sourceFileSize)
    ensures r.Success? ==> var e := root.value;
      r.value.qvBuildNo == GetText(e, "QvBuildNo") && r.value.creatorDoc == GetText(e, "CreatorDoc") &&
      r.value.tableName == GetText(e, "TableName") && r.value.compression == GetText(e, "Compression") &&
      r.value.lineage == GetText(e, "Lineage") && r.value.comment == GetText(e, "Comment") &&
      r.value.encryptionInfo == GetText(e, "EncryptionInfo")
  {
    if root.None? then Failure(NullRoot)
    else
      var e := root.value;
      if !(e.Element? && e.name == "QvdTableHeader") then Failure(NotQvdTableHeader)
      else
        var fields :- GetFields(e, conv);
        var qvBuildNo := GetText(e, "QvBuildNo");
        var creatorDoc := GetText(e, "CreatorDoc");
        var createTime :- GetDateTime(e, "CreateUtcTime", conv);
        var sourceCreateTime :- GetDateTime(e, "SourceCreateUtcTime", conv);
        var sourceFileTime :- GetDateTime(e, "SourceFileUtcTime", conv);
        var sourceFileSize :- Get(e, "SourceFileSize", conv.toLong, 0);
        var staleUtcTime :- GetDateTime(e, "StaleUtcTime", conv);
        var tableName := GetText(e, "TableName");
        var compression := GetText(e, "Compression");
        var recordByteSize :- GetRequired(e, "RecordByteSize", conv.toInt, 0);
        var noOfRecords :- GetRequired(e, "NoOfRecords", conv.toInt, 0);
        var offset :- GetRequired(e, "Offset", conv.toInt, 0);
        var length :- GetRequired(e, "Length", conv.toLong, 0);
        var lineage := GetText(e, "Lineage");
        var comment := GetText(e, "Comment");
        var encryptionInfo := GetText(e, "EncryptionInfo");
        Success(QvdHeader(fields, qvBuildNo, creatorDoc, createTime, sourceCreateTime, sourceFileTime,
                          sourceFileSize, staleUtcTime, tableName, compression, recordByteSize,
                          noOfRecords, offset, length, lineage, comment, encryptionInfo))
  }

  /** The `HeaderParser(XDocument)` constructor: the document's root element. */
  function Parse(doc: Document, conv: Converters): Result<QvdHeader, HeaderError> {
    ParseElement(doc.root, conv)
  }

  // ---------------------------------------------------------------------------
  // Properties

  /**
   * The parsed fields are the declared ones, reordered: sorted by bit offset, a
   * permutation, and stable (fields with the same offset keep their document order).
   */
  lemma ParsedFields(root: XNode, conv: Converters)
    requires ParseElement(Some(root), conv).Success?
    ensures FieldInfos(FieldElements(root), conv).Success?
    ensures var fields := ParseElement(Some(root), conv).value.fields;
            var declared := FieldInfos(FieldElements(root), conv).value;
            |fields| == |declared| >= 1 && SortedBy(fields, BitOffsetOf)
            && multiset(fields) == multiset(declared)
            && forall k :: Filter(fields, BitOffsetOf, k) == Filter(declared, BitOffsetOf, k)
  {
    var declared := FieldInfos(FieldElements(root), conv).value;
    forall k {
      SortByStable(declared, BitOffsetOf, k);
    }
  }

  /** A successful parse found a `FieldName` in every field element. */
  lemma ParsedFieldNames(root: XNode, conv: Converters)
    requires ParseElement(Some(root), conv).Success?
    ensures forall k :: 0 <= k < |FieldElements(root)| ==> Present(FieldElements(root)[k], "FieldName").Some?
  {
    var elements := FieldElements(root);
    assert FieldInfos(elements, conv).Success?;
    forall k | 0 <= k < |elements|
      ensures Present(elements[k], "FieldName").Some?
    {
      assert GetFieldInfo(elements[k], conv).Success?;
    }
  }

  /** An element with empty text reads exactly as an absent one. */
  lemma EmptyIsMissing<T>(e: XNode, name: string, convert: string -> Option<T>, dflt: T)
    requires FirstElement(e, name).Some? && Value(FirstElement(e, name).value) == ""
    ensures GetValue(e, name, convert, dflt) == GetValue(Element(e.name, []), name, convert, dflt)
    ensures GetValue(e, name, convert, dflt) == Success((dflt, true))
  {
  }

  /** A date element that is empty, like the test header's `SourceCreateUtcTime`, gives null. */
  lemma EmptyDateIsNull(e: XNode, name: string, conv: Converters)
    requires FirstElement(e, name).Some? && Value(FirstElement(e, name).value) == ""
    ensures GetDateTime(e, name, conv) == Success(None)
  {
  }

  /** A field whose `BitOffset` is text that does not convert, as "A", fails with that element. */
  lemma UnconvertibleBitOffset(conv: Converters, name: string)
    requires name != "" && conv.toInt("A") == None
    ensures var field := Element("QvdFieldHeader", [
                           Element("FieldName", [Text(name)]),
                           Element("BitOffset", [Text("A")])]);
            GetFieldInfo(field, conv) == Failure(InvalidValue("BitOffset", "A"))
  {
    var field := Element("QvdFieldHeader", [
                   Element("FieldName", [Text(name)]),
                   Element("BitOffset", [Text("A")])]);
    assert Value(Element("FieldName", [Text(name)])) == name by {
      assert ContentValue([Text(name)]) == name + ContentValue([]);
    }
    assert Value(Element("BitOffset", [Text("A")])) == "A" by {
      assert ContentValue([Text("A")]) == "A" + ContentValue([]);
    }
    assert FirstElement(field, "FieldName") == Some(field.content[0]);
    assert "FieldName" != "BitOffset" by {
      assert "FieldName"[0] != "BitOffset"[0];
    }
    assert FirstChild(field.content, "BitOffset") == FirstChild(field.content[1..], "BitOffset");
    assert field.content[1..] == [Element("BitOffset", [Text("A")])];
    assert FirstElement(field, "BitOffset") == Some(field.content[1]);
  }

  /**
   * A field whose `BitOffset` text converts, as "0" does, gets that offset; the elements
   * it lacks take their defaults.
   */
  lemma ParsesNumericValue(conv: Converters, name: string)
    requires name != "" && conv.toInt("0") == Some(0)
    ensures var field := Element("QvdFieldHeader", [
                           Element("FieldName", [Text(name)]),
                           Element("BitOffset", [Text("0")])]);
            GetFieldInfo(field, conv).Success? &&
            GetFieldInfo(field, conv).value.name == name &&
            GetFieldInfo(field, conv).value.bitOffset == 0 &&
            GetFieldInfo(field, conv).value.bitWidth == 0 &&
            GetFieldInfo(field, conv).value.numberFormat == Some(EmptyNumberFormat)
  {
    var field := Element("QvdFieldHeader", [
                   Element("FieldName", [Text(name)]),
                   Element("BitOffset", [Text("0")])]);
    assert Value(Element("FieldName", [Text(name)])) == name by {
      assert ContentValue([Text(name)]) == name + ContentValue([]);
    }
    assert Value(Element("BitOffset", [Text("0")])) == "0" by {
      assert ContentValue([Text("0")]) == "0" + ContentValue([]);
    }
    assert FirstElement(field, "FieldName") == Some(field.content[0]);
    assert "FieldName" != "BitOffset" by {
      assert "FieldName"[0] != "BitOffset"[0];
    }
    assert FirstChild(field.content, "BitOffset") == FirstChild(field.content[1..], "BitOffset");
    assert field.content[1..] == [Element("BitOffset", [Text("0")])];
    assert FirstElement(field, "BitOffset") == Some(field.content[1]);
    forall x | x in {"BitWidth", "Bias", "NumberFormat", "NoOfSymbols", "Offset", "Length", "Comment", "Tags"}
      ensures FirstElement(field, x) == None
    {
      FirstChildAbsent(field.content, x);
    }
  }

  /** The test header's tag list: two `String` children, read in document order. */
  lemma TagList(e: XNode, a: string, b: string)
    requires a != "" && e.Element? && e.content == [Element("Tags", [Element("String", [Text(a)]), Element("String", [Text(b)])])]
    ensures GetStringList(e, "Tags", "String") == Some([a, b])
  {
    var sa := Element("String", [Text(a)]);
    var sb := Element("String", [Text(b)]);
    var tags := Element("Tags", [sa, sb]);
    assert Value(sa) == a by {
      assert ContentValue([Text(a)]) == a + ContentValue([]);
    }
    assert Value(sb) == b by {
      assert ContentValue([Text(b)]) == b + ContentValue([]);
    }
    assert Value(tags) == a + b by {
      assert [sa, sb][1..] == [sb];
      assert ContentValue([sb]) == b + ContentValue([]);
    }
    assert FirstElement(e, "Tags") == Some(tags);
    assert Elements(tags, "String") == [sa, sb] by {
      assert [sa, sb][1..] == [sb];
      assert ChildElements([sb], "String") == [sb] + ChildElements([], "String");
    }
    var r := GetStringList(e, "Tags", "String");
    assert r.Some? && |r.value| == 2 && r.value[0] == a && r.value[1] == b;
    assert r.value == [a, b];
  }
}
