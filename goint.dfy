/**
 Go's fixed-width integer types and the few integer operators the encoder
 applies to them, written over Dafny's unbounded integers so that every
 truncation is explicit.
 */
module GoInt {

  type byte = x: int | 0 <= x < 0x100

  type int8 = x: int | -0x80 <= x < 0x80
  type int16 = x: int | -0x8000 <= x < 0x8000
  type int32 = x: int | -0x8000_0000 <= x < 0x8000_0000
  type int64 = x: int | -0x8000_0000_0000_0000 <= x < 0x8000_0000_0000_0000

  type uint8 = x: int | 0 <= x < 0x100
  type uint16 = x: int | 0 <= x < 0x1_0000
  type uint32 = x: int | 0 <= x < 0x1_0000_0000
  type uint64 = x: int | 0 <= x < 0x1_0000_0000_0000_0000

  function Pow2(k: nat): (r: nat)
    ensures r > 0
  {
    if k == 0 then 1 else 2 * Pow2(k - 1)
  }

  /** The conversion `byte(x)`: the low eight bits of x's two's complement. */
  function Lo8(x: int): (r: byte)
    ensures (x - r) % 0x100 == 0
  {
    x % 0x100
  }

  /** The shift `x >> k`. Go shifts signed values arithmetically, which is
      division rounding towards negative infinity, as Dafny's `/` does for a
      positive divisor. */
  function Shr(x: int, k: nat): (r: int)
    ensures r * Pow2(k) <= x < r * Pow2(k) + Pow2(k)
  {
    x / Pow2(k)
  }

  /** The conversion `uint64(x)`: x modulo 2^64. */
  function Uint64(x: int): (r: uint64)
    ensures (x - r) % 0x1_0000_0000_0000_0000 == 0
  {
    x % 0x1_0000_0000_0000_0000
  }

  /** The shift `x << k` on a uint64: the bits pushed past bit 63 are lost. */
  function Shl64(x: uint64, k: nat): (r: uint64)
    ensures (x * Pow2(k) - r) % 0x1_0000_0000_0000_0000 == 0
  {
    Uint64(x * Pow2(k))
  }

  /** Bitwise or of two non-negative integers, bit by bit from the lowest. */
  function Or(a: nat, b: nat): (r: nat)
    ensures a <= r && b <= r && r <= a + b
    decreases a + b
  {
    if a == 0 then b
    else if b == 0 then a
    else 2 * Or(a / 2, b / 2) + (if a % 2 == 1 || b % 2 == 1 then 1 else 0)
  }

  /** Bit i of x, counting from the least significant bit. */
  function Bit(x: nat, i: nat): (r: nat)
    ensures r < 2
  {
    if i == 0 then x % 2 else Bit(x / 2, i - 1)
  }

  lemma {:induction false} ZeroBit(i: nat)
    ensures Bit(0, i) == 0
  {
    if i > 0 {
      ZeroBit(i - 1);
    }
  }

  /** Every bit of Or(a, b) is set exactly when that bit is set in a or in b. */
  lemma {:induction false} OrBits(a: nat, b: nat, i: nat)
    ensures Bit(Or(a, b), i) == (if Bit(a, i) == 1 || Bit(b, i) == 1 then 1 else 0)
  {
    if a == 0 || b == 0 {
      ZeroBit(i);
    } else if i > 0 {
      OrBits(a / 2, b / 2, i - 1);
      assert Or(a, b) / 2 == Or(a / 2, b / 2);
    }
  }

  lemma {:induction false} Pow2Add(a: nat, b: nat)
    ensures Pow2(a + b) == Pow2(a) * Pow2(b)
  {
    if b > 0 {
      Pow2Add(a, b - 1);
      assert Pow2(a + b) == 2 * Pow2(a + b - 1);
    }
  }

  /** The powers of two the encoding uses, as constants. */
  lemma Pow2Values()
    ensures Pow2(5) == 0x20 && Pow2(4) == 0x10 && Pow2(8) == 0x100
    ensures Pow2(16) == 0x1_0000 && Pow2(24) == 0x100_0000
    ensures Pow2(32) == 0x1_0000_0000 && Pow2(34) == 0x4_0000_0000
    ensures Pow2(64) == 0x1_0000_0000_0000_0000
    ensures Pow2(7) == 0x80 && Pow2(15) == 0x8000 && Pow2(31) == 0x8000_0000 && Pow2(30) == 0x4000_0000
    ensures Pow2(63) == 0x8000_0000_0000_0000
  {
    Pow2Add(16, 16);
    Pow2Add(32, 32);
    Pow2Add(32, 2);
  }

  lemma Double(x: int, h: int)
    ensures x * (2 * h) == 2 * (x * h)
  {
  }

  /** One step of Or: the lowest bits, then the rest shifted down. */
  lemma OrStep(x: nat, y: nat, bit: nat)
    requires x != 0 && bit < 2 && 2 * y + bit != 0
    ensures Or(2 * x, 2 * y + bit) == 2 * Or(x, y) + bit
  {
    assert (2 * x) / 2 == x && (2 * x) % 2 == 0;
    assert (2 * y + bit) / 2 == y && (2 * y + bit) % 2 == bit;
  }

  /** a * 2^k and c * 2^k + b, both halved: one step of Or on them. */
  lemma OrShiftedStep(a: nat, c: nat, b: nat, k: nat)
    requires k > 0 && a != 0 && (c != 0 || b != 0)
    ensures Or(a * Pow2(k), c * Pow2(k) + b)
         == 2 * Or(a * Pow2(k - 1), c * Pow2(k - 1) + b / 2) + b % 2
  {
    var h := Pow2(k - 1);
    assert Pow2(k) == 2 * h;
    Double(a, h);
    Double(c, h);
    assert a * h != 0 by {
      assert a * h == (a - 1) * h + h;
    }
    var y := c * h + b / 2;
    if c != 0 {
      assert c * h == (c - 1) * h + h;
    }
    assert 2 * y + b % 2 != 0;
    OrStep(a * h, y, b % 2);
  }

  /** Or-ing two values whose low k bits are 0 and b or-s the bits above k
      and keeps b: (a << k) | (c << k + b) == (a | c) << k + b. */
  lemma {:induction false} OrShifted(a: nat, c: nat, b: nat, k: nat)
    requires b < Pow2(k)
    ensures Or(a * Pow2(k), c * Pow2(k) + b) == Or(a, c) * Pow2(k) + b
  {
    if k == 0 || a == 0 || (c == 0 && b == 0) {
      OrShiftedBase(a, c, b, k);
    } else {
      OrShiftedStep(a, c, b, k);
      OrShifted(a, c, b / 2, k - 1);
      ShiftedHalves(Or(a, c), b, k);
    }
  }

  /** OrShifted when k is 0 or one side is 0. */
  lemma OrShiftedBase(a: nat, c: nat, b: nat, k: nat)
    requires b < Pow2(k) && (k == 0 || a == 0 || (c == 0 && b == 0))
    ensures Or(a * Pow2(k), c * Pow2(k) + b) == Or(a, c) * Pow2(k) + b
  {
    var p := Pow2(k);
    if k == 0 {
      assert p == 1 && b == 0;
      assert a * p == a && c * p + b == c;
    } else if a == 0 {
      assert a * p == 0 && Or(0, c) == c;
    } else {
      assert c * p + b == 0 && Or(a, 0) == a;
    }
  }

  lemma ShiftedHalves(o: int, b: int, k: nat)
    requires k > 0
    ensures 2 * (o * Pow2(k - 1) + b / 2) + b % 2 == o * Pow2(k) + b
  {
    Double(o, Pow2(k - 1));
  }

  /** The or of two values below 2^k is below 2^k. */
  lemma {:induction false} OrBound(a: nat, c: nat, k: nat)
    requires a < Pow2(k) && c < Pow2(k)
    ensures Or(a, c) < Pow2(k)
  {
    if k > 0 && a != 0 && c != 0 {
      OrBound(a / 2, c / 2, k - 1);
    }
  }
}
