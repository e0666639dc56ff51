/** Bytes, 32-bit pixel words and the bit-level helpers the codec is built on. */
module Bits {

  /** An unsigned byte; Java's signed `byte` is read back through Signed8. */
  type Byte = x: int | 0 <= x < 256

  /**
   * A Java `int` pixel (ARGB) as its 32 bits, least significant first:
   * w[p] is `(pixel & (1 << p)) != 0`; lane j (B, G, R, A) is w[8*j .. 8*j+8].
   */
  type Word = w: seq<bool> | |w| == 32 witness seq(32, _ => false)

  function Pow2(n: nat): (r: nat)
    ensures r >= 1
  {
    if n == 0 then 1 else 2 * Pow2(n - 1)
  }

  /** Bit k of byte b, as `(b & (1 << k)) != 0` tests it. */
  predicate ByteBit(b: Byte, k: nat)
    requires k < 8
  {
    (b / Pow2(k)) % 2 == 1
  }

  /**
   * The value of the bits bits[0..m], least significant first, the way
   * `buffer |= bufferMask` assembles a byte one bit at a time.
   */
  function Assemble(bits: seq<bool>): (r: nat)
    ensures r < Pow2(|bits|)
  {
    if bits == [] then 0
    else Assemble(bits[..|bits| - 1]) + (if bits[|bits| - 1] then Pow2(|bits| - 1) else 0)
  }

  /** The eight bits of a byte, least significant first. */
  function BitsOf(b: Byte): (r: seq<bool>)
    ensures |r| == 8
    ensures forall k | 0 <= k < 8 :: r[k] == ByteBit(b, k)
  {
    seq(8, k requires 0 <= k < 8 => ByteBit(b, k))
  }

  /** A byte is the value of its eight bits. */
  lemma AssembleBitsOf(b: Byte)
    ensures Assemble(BitsOf(b)) == b
  {
    AssembleLowBits(b, 8);
    assert BitsOf(b)[..8] == BitsOf(b);
    assert Pow2(8) == 256;
  }

  /** The low m bits of a byte assemble to b % 2^m. */
  lemma {:induction false} AssembleLowBits(b: Byte, m: nat)
    requires m <= 8
    ensures Assemble(BitsOf(b)[..m]) == b % Pow2(m)
  {
    if m > 0 {
      AssembleLowBits(b, m - 1);
      var bits := BitsOf(b);
      assert bits[..m][..m - 1] == bits[..m - 1];
      LowBitsStep(b, m - 1);
    }
  }

  /** b % 2^(m+1) adds bit m of b, weighted 2^m, to b % 2^m. */
  lemma LowBitsStep(b: Byte, m: nat)
    requires m < 8
    ensures b % Pow2(m + 1) == b % Pow2(m) + (if ByteBit(b, m) then Pow2(m) else 0)
  {
    var p := Pow2(m);
    var q, r := b / p, b % p;
    var h, e := q / 2, q % 2;
    assert b == h * (2 * p) + (e * p + r) by {
      assert b == q * p + r;
      assert q == 2 * h + e;
      assert q * p == h * (2 * p) + e * p;
    }
    DivModUnique(b, 2 * p, h, e * p + r);
  }

  lemma MulAtLeast(a: int, d: int)
    requires a >= 1 && d > 0
    ensures a * d >= d
  {
    assert a * d == (a - 1) * d + d;
    assert (a - 1) * d >= 0;
  }

  lemma MulNonNegative(a: int, b: int)
    requires a >= 0 && b >= 0
    ensures a * b >= 0
  {
  }

  /** Quotient and remainder are unique. */
  lemma DivModUnique(b: int, d: int, x: int, y: int)
    requires d > 0 && b == x * d + y && 0 <= y < d
    ensures b / d == x && b % d == y
  {
    var q, r := b / d, b % d;
    assert b == q * d + r;
    if q > x {
      assert (q - x) * d == y - r;
      MulAtLeast(q - x, d);
    } else if q < x {
      assert (x - q) * d == r - y;
      MulAtLeast(x - q, d);
    }
  }

  /** Java's `(int) b` for a byte b: sign extension. */
  function Signed8(b: Byte): (r: int)
    ensures -128 <= r < 128
    ensures r % 256 == b
  {
    if b < 128 then b else b - 256
  }

  /** The int a 32-bit pattern u denotes in two's complement. */
  function Signed32(u: int): (r: int)
    requires 0 <= u < 0x1_0000_0000
    ensures -0x8000_0000 <= r < 0x8000_0000
    ensures r % 0x1_0000_0000 == u
  {
    if u < 0x8000_0000 then u else u - 0x1_0000_0000
  }

  /** The Java int a product or sum x wraps to. */
  function Int32(x: int): (r: int)
    ensures -0x8000_0000 <= r < 0x8000_0000
    ensures (r - x) % 0x1_0000_0000 == 0
    ensures -0x8000_0000 <= x < 0x8000_0000 ==> r == x
  {
    Signed32(x % 0x1_0000_0000)
  }

  /** Java's `a / 8` on int: division truncating toward zero. */
  function TruncDiv8(a: int): (q: int)
    ensures a >= 0 ==> 0 <= 8 * q <= a < 8 * q + 8
    ensures a < 0 ==> 8 * q - 8 < a <= 8 * q <= 0
  {
    if a >= 0 then a / 8 else -((-a) / 8)
  }
}
