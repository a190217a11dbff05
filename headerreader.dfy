/**
 * `HeaderReader`: finds the end of the XML table header by scanning the stream byte by
 * byte for `</QvdTableHeader>`, keeps the bytes read, and hands them to the XML loader
 * (a parameter: `None` stands for a loader that throws).
 */
module HeaderReading {
  import opened Wrappers
  import opened Numerics
  import opened Streams
  import opened Xml

  /** The closing tag the scan looks for. */
  const MarkerText: string := "</QvdTableHeader>"

  /** `Encoding.UTF8.GetBytes(MarkerText)`: the tag is ASCII, one byte per character. */
  const Marker: Bytes := [0x3C, 0x2F, 0x51, 0x76, 0x64, 0x54, 0x61, 0x62, 0x6C, 0x65, 0x48, 0x65, 0x61, 0x64, 0x65, 0x72, 0x3E]

  datatype HeaderReadError =
    | HeaderNotFound  // InvalidDataException "Could not find QVD XML table header."
    | MalformedXml    // the loader throws
    | NotRead         // InvalidOperationException "Header has not been read yet."

  lemma MarkerIsText()
    ensures |Marker| == |MarkerText| == 17
    ensures forall k :: 0 <= k < |Marker| ==> Marker[k] == MarkerText[k] as int
  {
  }

  /** The matched-prefix counter after byte `x`: one more on a match, else back to 0 (without retrying `x`). */
  function Step(found: nat, x: int): (r: nat)
    requires found < |Marker|
    ensures r <= found + 1
    ensures r == found + 1 <==> x == Marker[found]
  {
    if x == Marker[found] then found + 1 else 0
  }

  /**
   * The scan from position `q` with counter `found`: the position just past the byte that
   * completes the marker, or failure once the stream is at its end after a byte.
   */
  function Scan(data: Bytes, q: nat, found: nat): (r: Result<nat, HeaderReadError>)
    requires q <= |data| && found < |Marker|
    ensures r.Success? ==> q < r.value < |data|
    ensures r.Failure? ==> r.error == HeaderNotFound
    decreases |data| - q
  {
    if q == |data| then Failure(HeaderNotFound)
    else
      var f := Step(found, data[q]);
      if q + 1 == |data| then Failure(HeaderNotFound)
      else if f == |Marker| then Success(q + 1)
      else Scan(data, q + 1, f)
  }

  /** `ReadHeader` on the bytes from `p`: the document loaded from the scanned bytes, and the position after them. */
  function ReadHeaderSpec(data: Bytes, p: nat, load: Bytes -> Option<Document>): (r: Result<(Document, nat), HeaderReadError>)
    requires p <= |data|
    ensures r.Success? ==> Scan(data, p, 0) == Success(r.value.1)
  {
    match Scan(data, p, 0)
    case Failure(e) => Failure(e)
    case Success(e) =>
      match load(data[p..e])
      case None => Failure(MalformedXml)
      case Some(doc) => Success((doc, e))
  }

  // ---------------------------------------------------------------------------
  // Properties of the scan

  /** The counter counts the bytes just read that spell the start of the marker. */
  predicate Matched(data: Bytes, q: nat, found: nat) {
    found <= |Marker| && found <= q <= |data| && data[q - found..q] == Marker[..found]
  }

  lemma StepMatched(data: Bytes, q: nat, found: nat)
    requires Matched(data, q, found) && found < |Marker| && q < |data|
    ensures Matched(data, q + 1, Step(found, data[q]))
  {
    if data[q] == Marker[found] {
      assert data[q - found..q + 1] == data[q - found..q] + [data[q]];
      assert Marker[..found + 1] == Marker[..found] + [Marker[found]];
    }
  }

  /** A successful scan stops right after the marker. */
  lemma {:induction false} ScanSound(data: Bytes, q: nat, found: nat)
    requires Matched(data, q, found) && found < |Marker|
    requires Scan(data, q, found).Success?
    ensures var e := Scan(data, q, found).value; |Marker| <= e && data[e - |Marker|..e] == Marker
    decreases |data| - q
  {
    StepMatched(data, q, found);
    var f := Step(found, data[q]);
    if f < |Marker| {
      ScanSound(data, q + 1, f);
    }
  }

  /** `ReadHeader` from `p`: the bytes handed to the loader end with the marker. */
  lemma HeaderEndsWithMarker(data: Bytes, p: nat)
    requires p <= |data| && Scan(data, p, 0).Success?
    ensures var e := Scan(data, p, 0).value; p + |Marker| <= e < |data| && data[e - |Marker|..e] == Marker
  {
    assert Matched(data, p, 0);
    ScanSound(data, p, 0);
    ScanAdvances(data, p, 0);
  }

  /** The scan needs at least the rest of the marker's bytes. */
  lemma {:induction false} ScanAdvances(data: Bytes, q: nat, found: nat)
    requires q <= |data| && found < |Marker|
    ensures Scan(data, q, found).Success? ==> q + |Marker| - found <= Scan(data, q, found).value
    decreases |data| - q
  {
    if q + 1 < |data| {
      var f := Step(found, data[q]);
      if f < |Marker| {
        ScanAdvances(data, q + 1, f);
      }
    }
  }

  /** Without a byte that could start the marker, a scan that has matched nothing never succeeds. */
  lemma {:induction false} NoStartNoHeader(data: Bytes, q: nat)
    requires q <= |data| && forall k :: q <= k < |data| ==> data[k] != Marker[0]
    ensures Scan(data, q, 0) == Failure(HeaderNotFound)
    decreases |data| - q
  {
    if q < |data| && q + 1 < |data| {
      NoStartNoHeader(data, q + 1);
    }
  }

  /**
   * Fewer bytes than the marker, or exactly the marker, from the start: no header. Even
   * when they spell the marker, the stream is at its end after its last byte.
   */
  lemma ShortStreamNotFound(data: Bytes, p: nat)
    requires p <= |data| <= p + |Marker|
    ensures Scan(data, p, 0) == Failure(HeaderNotFound)
  {
    ScanAdvances(data, p, 0);
  }

  /** The marker as the whole stream is not found. */
  lemma MarkerAtEndNotFound()
    ensures Scan(Marker, 0, 0) == Failure(HeaderNotFound)
  {
    ShortStreamNotFound(Marker, 0);
  }

  /**
   * The reset does not retry the byte that broke the match: after a `<`, the `<` that
   * starts the real marker is lost and the header is not found.
   */
  lemma RepeatedOpenMissesMarker(rest: Bytes)
    requires forall k :: 0 <= k < |rest| ==> rest[k] != Marker[0]
    ensures var data := [Marker[0]] + Marker + rest; Scan(data, 0, 0) == Failure(HeaderNotFound)
  {
    var data := [Marker[0]] + Marker + rest;
    assert Scan(data, 0, 0) == Scan(data, 1, 1);
    assert Scan(data, 1, 1) == Scan(data, 2, 0);
    forall k | 2 <= k < |data|
      ensures data[k] != Marker[0]
    {
      if k < |Marker| + 1 {
        assert data[k] == Marker[k - 1];
      } else {
        assert data[k] == rest[k - |Marker| - 1];
      }
    }
    NoStartNoHeader(data, 2);
  }

  // ---------------------------------------------------------------------------
  // The reader

  class HeaderReader {
    const input: ByteStream
    /** The loaded header, null until a `ReadHeader` succeeds. */
    var headerDocument: Option<Document>
    /** `IsRead`. */
    var isRead: bool

    ghost predicate Valid()
      reads this
    {
      isRead ==> headerDocument.Some?
    }

    constructor (input: ByteStream)
      ensures Valid() && this.input == input && !isRead && headerDocument == None
    {
      this.input := input;
      headerDocument := None;
      isRead := false;
    }

    /** `HeaderDocument`: the loaded document, or an error before the header is read. */
    function HeaderDocument(): (r: Result<Document, HeaderReadError>)
      requires Valid()
      reads this
      ensures r.Success? <==> isRead
      ensures !isRead ==> r == Failure(NotRead)
      ensures r.Success? ==> headerDocument == Some(r.value)
    {
      if !isRead then Failure(NotRead) else Success(headerDocument.value)
    }

    /**
     * Scans for the marker, loads the bytes up to it and keeps the document. On failure
     * nothing but the stream changes. A stream positioned past its end would never stop
     * (`ReadByte` returns -1, read as byte 255, and the position never equals the length).
     */
    method ReadHeader(load: Bytes -> Option<Document>) returns (r: Result<Document, HeaderReadError>)
      requires Valid() && input.pos <= |input.data|
      modifies this, input
      ensures Valid()
      ensures r.Success? <==> ReadHeaderSpec(input.data, old(input.pos), load).Success?
      ensures r.Success? ==> ReadHeaderSpec(input.data, old(input.pos), load).value == (r.value, input.pos)
      ensures r.Failure? ==> ReadHeaderSpec(input.data, old(input.pos), load).error == r.error
      ensures Scan(input.data, old(input.pos), 0).Failure? ==> input.pos == |input.data|
      ensures Scan(input.data, old(input.pos), 0).Success? ==> input.pos == Scan(input.data, old(input.pos), 0).value
      ensures r.Success? ==> isRead && headerDocument == Some(r.value)
      ensures r.Failure? ==> isRead == old(isRead) && headerDocument == old(headerDocument)
    {
      ghost var p := input.pos;
      var found := 0;
      var buffer: Bytes := [];
      while found < |Marker|
        modifies input
        invariant p <= input.pos <= |input.data| && found <= |Marker|
        invariant input.pos > p ==> input.pos < |input.data|
        invariant buffer == input.data[p..input.pos]
        invariant found < |Marker| ==> Scan(input.data, p, 0) == Scan(input.data, input.pos, found)
        invariant found == |Marker| ==> Scan(input.data, p, 0) == Success(input.pos)
        decreases |input.data| - input.pos, |Marker| - found
      {
        ghost var q, f := input.pos, found;
        var b := input.ReadByte();
        var nextByte: Byte := if b < 0 then 255 else b;
        if nextByte == Marker[found] {
          found := found + 1;
        } else {
          found := 0;
        }
        buffer := buffer + [nextByte];
        if input.pos == |input.data| {
          return Failure(HeaderNotFound);
        }
        assert q < |input.data| && nextByte == input.data[q] && found == Step(f, input.data[q]);
      }
      var doc := load(buffer);
      if doc.None? {
        return Failure(MalformedXml);
      }
      headerDocument := Some(doc.value);
      isRead := true;
      return Success(doc.value);
    }
  }
}
