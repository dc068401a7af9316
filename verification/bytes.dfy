/** Bytes, little-endian numbers and the 32-bit integer operators of
    JavaScript (`|`, `<<`, `>>> 0`) on which the word views are built. */
module Bytes {

  /** A byte value, as held by a `Uint8Array` element or by a number the
      character tables produce. */
  type Byte = x: int | 0 <= x < 256

  /** The unused/terminator byte that fills fresh slots and pads streams. */
  const Unused: Byte := 0xFF

  const Uint32Modulus: nat := 0x1_0000_0000

  function Pow2(k: nat): (r: nat)
    ensures r >= 1
  {
    if k == 0 then 1 else 2 * Pow2(k - 1)
  }

  lemma {:induction false} Pow2Add(a: nat, b: nat)
    ensures Pow2(a + b) == Pow2(a) * Pow2(b)
  {
    if a > 0 {
      Pow2Add(a - 1, b);
    }
  }

  lemma Pow2Values()
    ensures Pow2(8) == 0x100 && Pow2(16) == 0x1_0000 && Pow2(24) == 0x100_0000
    ensures Pow2(32) == Uint32Modulus
  {
    assert Pow2(4) == 16;
    assert Pow2(8) == 0x100 by {
      Pow2Add(4, 4);
    }
    assert Pow2(16) == 0x1_0000 by {
      Pow2Add(8, 8);
    }
    assert Pow2(24) == 0x100_0000 by {
      Pow2Add(16, 8);
    }
    assert Pow2(32) == Uint32Modulus by {
      Pow2Add(24, 8);
    }
  }

  /** The unsigned number whose little-endian byte representation is `bs`. */
  function LittleEndian(bs: seq<Byte>): nat
  {
    if |bs| == 0 then 0 else bs[0] + 256 * LittleEndian(bs[1..])
  }

  lemma {:induction false} LittleEndianBound(bs: seq<Byte>)
    ensures LittleEndian(bs) < Pow2(8 * |bs|)
  {
    if |bs| > 0 {
      LittleEndianBound(bs[1..]);
      Pow2Add(8, 8 * (|bs| - 1));
      Pow2Values();
    }
  }

  /** Appending a byte adds it at the next power of 256. */
  lemma {:induction false} LittleEndianSnoc(bs: seq<Byte>, b: Byte)
    ensures LittleEndian(bs + [b]) == LittleEndian(bs) + b * Pow2(8 * |bs|)
  {
    if |bs| == 0 {
      assert (bs + [b])[1..] == [];
    } else {
      assert (bs + [b])[1..] == bs[1..] + [b];
      LittleEndianSnoc(bs[1..], b);
      assert Pow2(8 * |bs|) == 256 * Pow2(8 * (|bs| - 1)) by {
        Pow2Add(8, 8 * (|bs| - 1));
        Pow2Values();
      }
      Regroup(bs[0], LittleEndian(bs[1..]), b, Pow2(8 * (|bs| - 1)));
    }
  }

  /** The bytes of `b` after those of `a` count `256^|a|` times as much. */
  lemma {:induction false} LittleEndianAppend(a: seq<Byte>, b: seq<Byte>)
    ensures LittleEndian(a + b) == LittleEndian(a) + LittleEndian(b) * Pow2(8 * |a|)
  {
    if |a| == 0 {
      assert a + b == b;
    } else {
      assert (a + b)[1..] == a[1..] + b;
      LittleEndianAppend(a[1..], b);
      Pow2Add(8, 8 * (|a| - 1));
      Pow2Values();
      assert Pow2(8 * |a|) == 256 * Pow2(8 * (|a| - 1));
      Regroup(a[0], LittleEndian(a[1..]), LittleEndian(b), Pow2(8 * (|a| - 1)));
    }
  }

  lemma Regroup(c: nat, x: nat, y: nat, p: nat)
    ensures c + 256 * (x + y * p) == (c + 256 * x) + y * (256 * p)
  {
  }

  /** `m` bytes 0xFF read as `256^m - 1`. */
  lemma {:induction false} LittleEndianAllSet(m: nat)
    ensures LittleEndian(seq(m, _ => Unused)) == Pow2(8 * m) - 1
  {
    if m > 0 {
      var ones := seq(m, _ => Unused);
      assert ones[1..] == seq(m - 1, _ => Unused);
      LittleEndianAllSet(m - 1);
      Pow2Add(8, 8 * (m - 1));
      Pow2Values();
    }
  }

  /** Bitwise or of two non-negative integers, bit by bit from the least
      significant end. */
  function BitOr(a: nat, b: nat): nat
    decreases a
  {
    if a == 0 then b
    else if b == 0 then a
    else 2 * BitOr(a / 2, b / 2) + (if a % 2 == 1 || b % 2 == 1 then 1 else 0)
  }

  lemma {:induction false} BitOrCommutes(a: nat, b: nat)
    ensures BitOr(a, b) == BitOr(b, a)
    decreases a + b
  {
    if a != 0 && b != 0 {
      BitOrCommutes(a / 2, b / 2);
    }
  }

  /** Or-ing a value below 2^k with a multiple of 2^k is addition: the two
      occupy disjoint bits. */
  lemma {:induction false} BitOrDisjoint(lo: nat, hi: nat, k: nat)
    requires lo < Pow2(k)
    ensures BitOr(lo, hi * Pow2(k)) == lo + hi * Pow2(k)
    decreases k
  {
    if lo != 0 && hi != 0 {
      assert k > 0;
      var h := hi * Pow2(k - 1);
      assert hi * Pow2(k) == 2 * h;
      assert (2 * h) / 2 == h && (2 * h) % 2 == 0;
      BitOrDisjoint(lo / 2, hi, k - 1);
    }
  }

  /** JavaScript's ToUint32: the 32-bit pattern of an integer, read unsigned.
      Every int32 value in this model is kept as its pattern. */
  function ToUint32(x: int): nat
  {
    x % Uint32Modulus
  }

  /** The pattern of `x << k` (the shift count is taken modulo 32). */
  function ShiftLeft32(x: int, k: int): nat
  {
    ToUint32(ToUint32(x) * Pow2(k % 32))
  }

  /** The pattern of `x | y` on 32-bit operands. */
  function Or32(x: int, y: int): nat
  {
    BitOr(ToUint32(x), ToUint32(y))
  }

  /** `x | y` on operands occupying disjoint bits below 2^32 is their sum,
      whichever side the low part is on. */
  lemma Or32Disjoint(lo: nat, hi: nat, k: nat)
    requires lo < Pow2(k) && lo + hi * Pow2(k) < Uint32Modulus
    ensures Or32(lo, hi * Pow2(k)) == lo + hi * Pow2(k)
    ensures Or32(hi * Pow2(k), lo) == lo + hi * Pow2(k)
  {
    var h := hi * Pow2(k);
    assert 0 <= h < Uint32Modulus;
    ModSmall(lo, Uint32Modulus);
    ModSmall(h, Uint32Modulus);
    BitOrDisjoint(lo, hi, k);
    BitOrCommutes(lo, h);
  }

  lemma ModSmall(x: int, m: int)
    requires 0 <= x < m
    ensures x % m == x
  {
  }

  lemma MulStrict(a: nat, b: nat, c: nat)
    requires a < b && c > 0
    ensures a * c < b * c
  {
  }

  /** A byte shifted left by 0, 8, 16 or 24 bits stays below 2^32: the
      shift is a plain multiplication, and the result is below 2^(k+8). */
  lemma ShiftByteLeft(b: Byte, k: nat)
    requires k == 0 || k == 8 || k == 16 || k == 24
    ensures ShiftLeft32(b, k) == b * Pow2(k)
    ensures b * Pow2(k) < Pow2(k + 8)
  {
    Pow2Values();
    assert Pow2(0) == 1;
    assert ToUint32(b) == b && k % 32 == k;
    assert b * Pow2(k) < Pow2(k + 8) <= Uint32Modulus;
    ModSmall(b * Pow2(k), Uint32Modulus);
  }

}
