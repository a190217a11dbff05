/**
 * The C# bit operators the row decoder uses, on non-negative integers, and the
 * LSB-first reading of bits out of a byte record.
 */
module BitOps {
  import opened Numerics

  /** C# `a & b` for non-negative operands. */
  function And(a: nat, b: nat): nat
  {
    if a == 0 || b == 0 then 0
    else 2 * And(a / 2, b / 2) + (if a % 2 == 1 && b % 2 == 1 then 1 else 0)
  }

  /** C# `a | b` for non-negative operands. */
  function Or(a: nat, b: nat): nat
  {
    if a == 0 then b
    else if b == 0 then a
    else 2 * Or(a / 2, b / 2) + (if a % 2 == 1 || b % 2 == 1 then 1 else 0)
  }

  /** Bit `j` of a record, counting from the least significant bit of byte 0. */
  function Bit(rec: Bytes, j: nat): (r: nat)
    requires j < 8 * |rec|
    ensures r < 2
  {
    ByteBit(rec[j / 8], j % 8)
  }

  /** Bit `i` of `x`, the least significant being bit 0: `(x >> i) & 1`. */
  function ByteBit(x: nat, i: nat): (r: nat)
    ensures r < 2
  {
    if i == 0 then x % 2 else ByteBit(x / 2, i - 1)
  }

  /** The `w` bits of `rec` starting at bit `c`, the earliest bit the least significant. */
  function BitsAt(rec: Bytes, c: nat, w: nat): (r: nat)
    requires c + w <= 8 * |rec|
    ensures r < Pow2(w)
    decreases w
  {
    if w == 0 then 0 else Bit(rec, c) + 2 * BitsAt(rec, c + 1, w - 1)
  }

  lemma MulNonNegative(a: int, b: int)
    requires a >= 0 && b >= 0
    ensures a * b >= 0
  {
  }

  /** The linear step of BitsSplit, kept apart from the bit functions. */
  lemma ShiftedSum(whole: int, part: int, bit: int, low: int, y: int, p: int, pp: int, x: int)
    requires whole == bit + 2 * y
    requires part == bit + 2 * low
    requires y == low + p * x
    requires pp == 2 * p
    ensures whole == part + pp * x
  {
  }

  /** Euclidean division is determined by any quotient and remainder that fit. */
  lemma ModDivUnique(y: int, d: int, m: int, z: int)
    requires d > 0 && y == d * m + z && 0 <= z < d
    ensures y % d == z && y / d == m
  {
    var q, r := y / d, y % d;
    assert y == d * q + r;
    if q > m {
      MulNonNegative(d, q - m - 1);
      assert false;
    } else if q < m {
      MulNonNegative(d, m - q - 1);
      assert false;
    }
  }

  /** Peeling off the lowest bit: `y % 2P == y % 2 + 2 * ((y / 2) % P)`. */
  lemma ModSplit(y: nat, p: nat)
    requires p > 0
    ensures y % (2 * p) == y % 2 + 2 * ((y / 2) % p)
  {
    var q, r := y / 2, y % 2;
    var m, s := q / p, q % p;
    assert y == (2 * p) * m + (2 * s + r);
    ModDivUnique(y, 2 * p, m, 2 * s + r);
  }

  lemma DivDiv(x: nat, a: nat, b: nat)
    requires a > 0 && b > 0
    ensures (x / a) / b == x / (a * b)
  {
    var q1, r1 := x / a, x % a;
    var q2, r2 := q1 / b, q1 % b;
    assert x == a * q1 + r1;
    assert q1 == b * q2 + r2;
    assert a * q1 == (a * b) * q2 + a * r2;
    MulNonNegative(a, b - 1 - r2);
    assert a * r2 + r1 < a * b;
    ModDivUnique(x, a * b, q2, a * r2 + r1);
  }

  lemma {:induction false} ByteBitShift(x: nat, i: nat)
    ensures ByteBit(x, i) == (x / Pow2(i)) % 2
  {
    if i > 0 {
      ByteBitShift(x / 2, i - 1);
      DivDiv(x, 2, Pow2(i - 1));
    }
  }

  /** Masking with `2^k - 1` keeps the `k` low-order bits. */
  lemma {:induction false} AndMask(a: nat, k: nat)
    ensures And(a, Pow2(k) - 1) == a % Pow2(k)
  {
    if k > 0 && a > 0 {
      var p := Pow2(k - 1);
      var m := Pow2(k) - 1;
      assert m == 2 * (p - 1) + 1;
      ModDivUnique(m, 2, p - 1, 1);
      assert m / 2 == p - 1 && m % 2 == 1;
      assert And(a, m) == 2 * And(a / 2, m / 2) + (if a % 2 == 1 && m % 2 == 1 then 1 else 0);
      assert And(a, m) == 2 * And(a / 2, p - 1) + a % 2;
      AndMask(a / 2, k - 1);
      assert And(a / 2, p - 1) == (a / 2) % p;
      ModSplit(a, p);
      assert a % (2 * p) == a % 2 + 2 * ((a / 2) % p);
      assert Pow2(k) == 2 * p;
      assert And(a, m) == a % (2 * p);
      var P := Pow2(k);
      assert P == 2 * p;
      assert And(a, P - 1) == a % P;
    } else if k == 0 {
      assert Pow2(k) == 1;
      assert And(a, 0) == 0;
    } else {
      assert And(0, Pow2(k) - 1) == 0;
      assert 0 % Pow2(k) == 0;
    }
  }

  /** OR with a value shifted past the other operand's bits is addition. */
  lemma {:induction false} OrDisjoint(a: nat, b: nat, k: nat)
    requires a < Pow2(k)
    ensures Or(a, b * Pow2(k)) == a + b * Pow2(k)
  {
    if a != 0 && b != 0 {
      assert k > 0;
      var x := b * Pow2(k);
      assert x == 2 * (b * Pow2(k - 1));
      assert x / 2 == b * Pow2(k - 1) && x % 2 == 0;
      assert a / 2 < Pow2(k - 1);
      OrDisjoint(a / 2, b, k - 1);
    }
  }

  /** The lowest of `t` bits above position `i` of `x`, split from the other `t - 1`. */
  lemma ChunkStep(x: nat, i: nat, t: nat)
    requires t > 0
    ensures (x / Pow2(i)) % Pow2(t) == (x / Pow2(i)) % 2 + 2 * ((x / Pow2(i + 1)) % Pow2(t - 1))
  {
    var y := x / Pow2(i);
    assert Pow2(t) == 2 * Pow2(t - 1);
    ModSplit(y, Pow2(t - 1));
    Pow2Add(i, 1);
    assert Pow2(1) == 2;
    DivDiv(x, Pow2(i), 2);
  }

  lemma BitOfByte(rec: Bytes, b: nat, i: nat)
    requires b < |rec| && i < 8
    ensures Bit(rec, 8 * b + i) == (rec[b] / Pow2(i)) % 2
  {
    var j := 8 * b + i;
    assert j / 8 == b && j % 8 == i by { ModDivUnique(j, 8, b, i); }
    ByteBitShift(rec[b], i);
  }

  /** `t` bits taken from byte `b` after shifting it right by `i` are the record's bits at `8b + i`. */
  lemma {:induction false} ByteChunk(rec: Bytes, b: nat, i: nat, t: nat)
    requires b < |rec| && i + t <= 8
    ensures (rec[b] / Pow2(i)) % Pow2(t) == BitsAt(rec, 8 * b + i, t)
    decreases t
  {
    if t > 0 {
      ChunkStep(rec[b], i, t);
      ByteChunk(rec, b, i + 1, t - 1);
      BitOfByte(rec, b, i);
    } else {
      assert Pow2(0) == 1;
    }
  }

  /** Reading `r + t` bits at `c` is reading `r` bits and then `t` more as the higher-order part. */
  predicate SplitHolds(rec: Bytes, c: nat, r: nat, t: nat)
    requires c + r + t <= 8 * |rec|
  {
    BitsAt(rec, c, r + t) == BitsAt(rec, c, r) + Pow2(r) * BitsAt(rec, c + r, t)
  }

  lemma {:induction false} BitsSplit(rec: Bytes, c: nat, r: nat, t: nat)
    requires c + r + t <= 8 * |rec|
    ensures SplitHolds(rec, c, r, t)
    decreases r
  {
    if r > 0 {
      BitsSplit(rec, c + 1, r - 1, t);
      BitsSplitStep(rec, c, r, t);
    } else {
      BitsSplitBase(rec, c, t);
    }
  }

  lemma BitsSplitBase(rec: Bytes, c: nat, t: nat)
    requires c + t <= 8 * |rec|
    ensures SplitHolds(rec, c, 0, t)
  {
    assert Pow2(0) == 1;
  }

  /** One step of BitsSplit: the claim for `c` follows from the claim for `c + 1`. */
  lemma BitsSplitStep(rec: Bytes, c: nat, r: nat, t: nat)
    requires r > 0 && c + r + t <= 8 * |rec|
    requires SplitHolds(rec, c + 1, r - 1, t)
    ensures SplitHolds(rec, c, r, t)
  {
    var bit := Bit(rec, c);
    var low := BitsAt(rec, c + 1, r - 1);
    var y := BitsAt(rec, c + 1, r - 1 + t);
    assert c + 1 + (r - 1) == c + r;
    assert BitsAt(rec, c, r + t) == bit + 2 * y;
    assert BitsAt(rec, c, r) == bit + 2 * low;
    ShiftedSum(BitsAt(rec, c, r + t), BitsAt(rec, c, r), bit, low, y, Pow2(r - 1), Pow2(r), BitsAt(rec, c + r, t));
  }

  /** C# `x >> k` for a non-negative `x`: `k` halvings. */
  function ShiftRight(x: nat, k: nat): (r: nat)
    ensures r <= x
  {
    if k == 0 then x else ShiftRight(x / 2, k - 1)
  }

  /** C# `x << k` for a non-negative `x` whose result still fits the type: `k` doublings. */
  function ShiftLeft(x: nat, k: nat): nat {
    if k == 0 then x else 2 * ShiftLeft(x, k - 1)
  }

  lemma {:induction false} ShiftLeftMul(x: nat, k: nat)
    ensures ShiftLeft(x, k) == x * Pow2(k)
  {
    if k > 0 {
      ShiftLeftMul(x, k - 1);
    }
  }

  /** OR with a value shifted past the other operand's bits is addition. */
  lemma ShiftedOr(a: nat, b: nat, k: nat)
    requires a < Pow2(k)
    ensures Or(a, ShiftLeft(b, k)) == a + ShiftLeft(b, k)
  {
    ShiftLeftMul(b, k);
    OrDisjoint(a, b, k);
  }

  lemma {:induction false} ShiftRightTwice(x: nat, a: nat, b: nat)
    ensures ShiftRight(ShiftRight(x, a), b) == ShiftRight(x, a + b)
    decreases a
  {
    if a > 0 {
      ShiftRightTwice(x / 2, a - 1, b);
    }
  }

  lemma {:induction false} ShiftRightDiv(x: nat, k: nat)
    ensures ShiftRight(x, k) == x / Pow2(k)
    decreases k
  {
    if k > 0 {
      ShiftRightDiv(x / 2, k - 1);
      DivDiv(x, 2, Pow2(k - 1));
    }
  }

  /** Bit `k` of the value read at `c` is record bit `c + k`: earlier bits are lower. */
  lemma {:induction false} BitsAtBit(rec: Bytes, c: nat, w: nat, k: nat)
    requires c + w <= 8 * |rec| && k < w
    ensures (BitsAt(rec, c, w) / Pow2(k)) % 2 == Bit(rec, c + k)
    decreases k
  {
    var rest := BitsAt(rec, c + 1, w - 1);
    assert BitsAt(rec, c, w) == Bit(rec, c) + 2 * rest;
    if k == 0 {
      assert Pow2(0) == 1;
    } else {
      BitsAtBit(rec, c + 1, w - 1, k - 1);
      assert (Bit(rec, c) + 2 * rest) / 2 == rest;
      DivDiv(BitsAt(rec, c, w), 2, Pow2(k - 1));
      assert Pow2(k) == 2 * Pow2(k - 1);
    }
  }
}
