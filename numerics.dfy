/** Machine integers of the C# source, stated explicitly over Dafny's unbounded integers. */
module Numerics {

  /** A C# `byte`. */
  type Byte = b: int | 0 <= b < 256

  type Bytes = seq<Byte>

  /** A C# `int`. */
  type Int32 = x: int | -0x8000_0000 <= x < 0x8000_0000

  /** A C# `long`. */
  type Int64 = x: int | -0x8000_0000_0000_0000 <= x < 0x8000_0000_0000_0000

  function Pow2(k: nat): (r: nat)
    ensures r >= 1
  {
    if k == 0 then 1 else 2 * Pow2(k - 1)
  }

  lemma {:induction false} Pow2Add(a: nat, b: nat)
    ensures Pow2(a + b) == Pow2(a) * Pow2(b)
  {
    if a > 0 {
      Pow2Add(a - 1, b);
    }
  }

  lemma {:induction false} Pow2Monotonic(a: nat, b: nat)
    requires a <= b
    ensures Pow2(a) <= Pow2(b)
  {
    if a < b {
      Pow2Monotonic(a, b - 1);
    }
  }

  lemma Pow2Constants()
    ensures Pow2(8) == 256 && Pow2(16) == 0x1_0000
    ensures Pow2(31) == 0x8000_0000 && Pow2(32) == 0x1_0000_0000
    ensures Pow2(64) == 0x1_0000_0000_0000_0000
  {
    assert Pow2(4) == 16;
    Pow2Add(4, 4);
    Pow2Add(8, 8);
    Pow2Add(16, 15);
    Pow2Add(16, 16);
    Pow2Add(32, 32);
  }

  /** C# unchecked `int + int`: the mathematical sum wrapped into 32 bits. */
  function Int32Add(a: Int32, b: Int32): (r: Int32)
    ensures -0x8000_0000 <= a + b < 0x8000_0000 ==> r == a + b
    ensures (r - (a + b)) % 0x1_0000_0000 == 0
  {
    var s := a + b;
    if s >= 0x8000_0000 then s - 0x1_0000_0000
    else if s < -0x8000_0000 then s + 0x1_0000_0000
    else s
  }

  /** Unsigned little-endian value of a byte sequence: the first byte is the least significant. */
  function LittleEndian(bs: Bytes): (r: nat)
    ensures r < Pow2(8 * |bs|)
  {
    if bs == [] then 0
    else
      assert Pow2(8 * |bs|) == 256 * Pow2(8 * (|bs| - 1)) by {
        Pow2Add(8, 8 * (|bs| - 1));
      }
      bs[0] + 256 * LittleEndian(bs[1..])
  }

  /** The `k` low-order bytes of `n`, least significant first. */
  function ToLittleEndian(n: nat, k: nat): (r: Bytes)
    ensures |r| == k
  {
    if k == 0 then [] else [n % 256] + ToLittleEndian(n / 256, k - 1)
  }

  lemma {:induction false} LittleEndianRoundTrip(n: nat, k: nat)
    requires n < Pow2(8 * k)
    ensures LittleEndian(ToLittleEndian(n, k)) == n
  {
    if k > 0 {
      Pow2Add(8, 8 * (k - 1));
      assert n / 256 < Pow2(8 * (k - 1));
      LittleEndianRoundTrip(n / 256, k - 1);
      var r := ToLittleEndian(n, k);
      assert r[1..] == ToLittleEndian(n / 256, k - 1);
    }
  }

  /** Two's complement reading of four little-endian bytes (`BinaryReader.ReadInt32`). */
  function Int32FromBytes(bs: Bytes): (r: Int32)
    requires |bs| == 4
    ensures r >= 0 <==> LittleEndian(bs) < 0x8000_0000
  {
    Pow2Constants();
    var u := LittleEndian(bs);
    if u >= 0x8000_0000 then u - 0x1_0000_0000 else u
  }

  /** The four bytes `BinaryWriter.Write(int)` would produce. */
  function Int32ToBytes(x: Int32): (r: Bytes)
    ensures |r| == 4
  {
    ToLittleEndian(if x >= 0 then x else x + 0x1_0000_0000, 4)
  }

  lemma Int32RoundTrip(x: Int32)
    ensures Int32FromBytes(Int32ToBytes(x)) == x
  {
    Pow2Constants();
    LittleEndianRoundTrip(if x >= 0 then x else x + 0x1_0000_0000, 4);
  }

  /** Reading bytes as a number and writing the number back gives the same bytes. */
  lemma {:induction false} LittleEndianInverse(bs: Bytes)
    ensures ToLittleEndian(LittleEndian(bs), |bs|) == bs
  {
    if bs != [] {
      var n := LittleEndian(bs);
      var rest := LittleEndian(bs[1..]);
      assert n == bs[0] + 256 * rest;
      assert n % 256 == bs[0] && n / 256 == rest;
      LittleEndianInverse(bs[1..]);
      assert bs == [bs[0]] + bs[1..];
    }
  }

  lemma Int32BytesInverse(bs: Bytes)
    requires |bs| == 4
    ensures Int32ToBytes(Int32FromBytes(bs)) == bs
  {
    Pow2Constants();
    LittleEndianInverse(bs);
  }
}
