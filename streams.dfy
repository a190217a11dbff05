/**
 * A readable, seekable stream over an in-memory byte sequence: the part of `Stream`
 * and `BinaryReader` the reader uses. The position may pass the end (as after `Seek`);
 * reads there find no bytes.
 */
module Streams {
  import opened Numerics

  class ByteStream {
    const data: Bytes
    var pos: nat

    constructor (contents: Bytes)
      ensures data == contents && pos == 0
    {
      data := contents;
      pos := 0;
    }

    /** `Stream.Length` minus `Stream.Position`, or 0 past the end. */
    function Remaining(): (n: nat)
      reads this
      ensures n == 0 <==> pos >= |data|
    {
      if pos < |data| then |data| - pos else 0
    }

    /** `Stream.ReadByte`: the next byte, or -1 at the end of the stream. */
    method ReadByte() returns (b: int)
      modifies this
      ensures old(pos) < |data| ==> b == data[old(pos)] && pos == old(pos) + 1
      ensures old(pos) >= |data| ==> b == -1 && pos == old(pos)
    {
      if pos < |data| {
        b := data[pos];
        pos := pos + 1;
      } else {
        b := -1;
      }
    }

    /**
     * `Stream.ReadExactly(buffer)`: fills the whole buffer or fails with the stream at its
     * end, having copied what there was.
     */
    method ReadExactly(buffer: array<Byte>) returns (ok: bool)
      modifies this, buffer
      ensures ok <==> old(pos) + buffer.Length <= |data|
      ensures ok ==> pos == old(pos) + buffer.Length && buffer[..] == data[old(pos)..pos]
      ensures !ok ==> pos == (if old(pos) < |data| then |data| else old(pos))
      ensures !ok ==> forall i :: 0 <= i < |data| - old(pos) ==> buffer[i] == data[old(pos) + i]
    {
      var n := if pos + buffer.Length <= |data| then buffer.Length else Remaining();
      var start := pos;
      forall i | 0 <= i < n {
        buffer[i] := data[start + i];
      }
      ok := start + buffer.Length <= |data|;
      if ok {
        pos := start + buffer.Length;
        assert buffer[..] == data[start..pos];
      } else if pos < |data| {
        pos := |data|;
      }
    }

    /** `BinaryReader.ReadInt32` and `ReadDouble`: `n` bytes, or failure at the end. */
    method ReadBytes(n: nat) returns (r: Bytes, ok: bool)
      modifies this
      ensures ok <==> old(pos) + n <= |data|
      ensures ok ==> r == data[old(pos)..old(pos) + n] && pos == old(pos) + n
      ensures !ok ==> pos == (if old(pos) < |data| then |data| else old(pos))
    {
      ok := pos + n <= |data|;
      if ok {
        r := data[pos..pos + n];
        pos := pos + n;
      } else {
        r := [];
        if pos < |data| {
          pos := |data|;
        }
      }
    }

    /** `Seek(offset, SeekOrigin.Current)` with a non-negative offset. */
    method Skip(offset: nat)
      modifies this
      ensures pos == old(pos) + offset
    {
      pos := pos + offset;
    }
  }
}
