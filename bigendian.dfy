/**
 Big-endian byte order: the splitting of an integer into its low k bytes,
 most significant first, as the encoder writes them, and the unsigned value
 a reader assembles from such bytes.
 */
module BigEndian {
  import opened GoInt

  /** The low k bytes of x, most significant first:
      byte(x >> 8(k-1)), ..., byte(x >> 8), byte(x). */
  function BeBytes(x: int, k: nat): (r: seq<byte>)
    ensures |r| == k
  {
    if k == 0 then [] else [Lo8(Shr(x, 8 * (k - 1)))] + BeBytes(x, k - 1)
  }

  /** The unsigned integer that big-endian bytes stand for. */
  function BeValue(bs: seq<byte>): nat
  {
    if |bs| == 0 then 0 else bs[0] * Pow2(8 * (|bs| - 1)) + BeValue(bs[1..])
  }

  lemma MulAtLeast(d: int, t: int)
    requires d > 0 && t >= 1
    ensures d * t >= d
  {
    assert d * t == d * (t - 1) + d;
  }

  lemma DivModUnique(x: int, d: int, q: int, r: int)
    requires d > 0 && 0 <= r < d && x == d * q + r
    ensures x / d == q && x % d == r
  {
    var q', r' := x / d, x % d;
    assert x == d * q' + r';
    if q > q' {
      assert d * q - d * q' == d * (q - q');
      MulAtLeast(d, q - q');
    } else if q < q' {
      assert d * q' - d * q == d * (q' - q);
      MulAtLeast(d, q' - q);
    }
  }

  lemma MulMonotone(m: int, b: int, c: int)
    requires m >= 0 && b <= c
    ensures m * b <= m * c
  {
    assert m * c - m * b == m * (c - b);
  }

  lemma MulDistrib(m: int, a: int, b: int)
    ensures m * (0x100 * a + b) == (0x100 * m) * a + m * b
  {
  }

  /** One more byte on top of x modulo m gives x modulo 256 m. */
  lemma ModStep(x: int, m: int)
    requires m > 0
    ensures (x / m) % 0x100 * m + x % m == x % (0x100 * m)
  {
    var q, r := x / m, x % m;
    var a, b := q / 0x100, q % 0x100;
    assert x == m * q + r;
    MulDistrib(m, a, b);
    MulMonotone(m, b, 0xff);
    assert b * m == m * b;
    DivModUnique(x, 0x100 * m, a, m * b + r);
  }

  /** Decoding the bytes BeBytes writes gives x modulo 2^(8k): x itself when
      0 <= x < 2^(8k), its two's complement when x is negative. */
  lemma {:induction false} BeRoundTrip(x: int, k: nat)
    ensures BeValue(BeBytes(x, k)) == x % Pow2(8 * k)
  {
    if k > 0 {
      var m := Pow2(8 * (k - 1));
      var bs := BeBytes(x, k);
      assert bs[1..] == BeBytes(x, k - 1);
      assert bs[0] == (x / m) % 0x100;
      BeRoundTrip(x, k - 1);
      Pow2Add(8 * (k - 1), 8);
      assert Pow2(8) == 0x100 by { Pow2Values(); }
      ModStep(x, m);
    }
  }

  /** k big-endian bytes stand for a value below 2^(8k). */
  lemma {:induction false} BeValueBound(bs: seq<byte>)
    ensures BeValue(bs) < Pow2(8 * |bs|)
  {
    if |bs| > 0 {
      var m := Pow2(8 * (|bs| - 1));
      assert BeValue(bs) == bs[0] * m + BeValue(bs[1..]);
      BeValueBound(bs[1..]);
      assert Pow2(8) == 0x100;
      Pow2Add(8 * (|bs| - 1), 8);
      MulMonotone(m, bs[0], 0xff);
      assert bs[0] * m == m * bs[0];
    }
  }

  /** The one, two and four bytes BeBytes writes, spelled out. */
  lemma BeBytes1(x: int)
    ensures BeBytes(x, 1) == [Lo8(x)]
  {
    assert BeBytes(x, 1) == [Lo8(Shr(x, 0))];
  }

  lemma BeBytes2(x: int)
    ensures BeBytes(x, 2) == [Lo8(Shr(x, 8)), Lo8(x)]
  {
    BeBytes1(x);
  }

  lemma BeBytes4(x: int)
    ensures BeBytes(x, 4) == [Lo8(Shr(x, 24)), Lo8(Shr(x, 16)), Lo8(Shr(x, 8)), Lo8(x)]
  {
    BeBytes2(x);
    assert BeBytes(x, 3) == [Lo8(Shr(x, 16))] + BeBytes(x, 2);
  }
}
