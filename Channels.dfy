/**
 * Where each bit of the hidden buffer goes. The pixels are read as channels
 * c = 4*i + j (pixel i, lane j = B, G, R, A); channel c is bits 8*(c%4) ..
 * 8*(c%4)+7 of pixel c/4, and its bit-plane q is bit 8*(c%4) + q of that word.
 * Buffer bit t (bit t%8 of byte t/8) goes to one (channel, plane) slot: the
 * first 112 bits (magic number and depth byte) one per channel in plane 0,
 * every later bit d per channel in planes 0 .. d-1.
 */
module Channels {
  import opened Wrappers
  import opened Bits

  /** Channels used by the 14 header bytes written one bit per channel. */
  const HeaderChannels: nat := 112

  /** The first buffer bit that channel c carries. */
  function FirstBit(c: nat, d: nat): (r: nat)
    ensures c <= HeaderChannels ==> r == c
    ensures c >= HeaderChannels ==> r >= HeaderChannels
  {
    if c <= HeaderChannels then c else HeaderChannels + (c - HeaderChannels) * d
  }

  /** The number of buffer bits that `pixelCount` pixels carry at depth d. */
  function TotalBits(pixelCount: nat, d: nat): nat
  {
    FirstBit(4 * pixelCount, d)
  }

  /** The channel that carries buffer bit t. */
  function Channel(t: nat, d: nat): nat
    requires d >= 1
  {
    if t < HeaderChannels then t else HeaderChannels + (t - HeaderChannels) / d
  }

  /** The bit-plane of its channel that carries buffer bit t. */
  function Plane(t: nat, d: nat): nat
    requires d >= 1
  {
    if t < HeaderChannels then 0 else (t - HeaderChannels) % d
  }

  /** The buffer bit that plane q of channel c carries, if any: the inverse of (Channel, Plane). */
  function Carried(c: nat, q: nat, d: nat): (r: Option<nat>)
    ensures r.Some? ==> FirstBit(c, d) <= r.value < FirstBit(c + 1, d)
  {
    if c < HeaderChannels then (if q == 0 then Some(c) else None)
    else if q < d then Some(HeaderChannels + (c - HeaderChannels) * d + q)
    else None
  }

  /** Each buffer bit has exactly the slot (Channel, Plane), and that slot carries it. */
  lemma SlotCarries(t: nat, d: nat)
    requires d >= 1
    ensures Carried(Channel(t, d), Plane(t, d), d) == Some(t)
    ensures Plane(t, d) < 8 || d > 8
  {
    if t >= HeaderChannels {
      var u := t - HeaderChannels;
      var a, q := u / d, u % d;
      assert u == a * d + q;
      assert Carried(Channel(t, d), Plane(t, d), d) == Some(HeaderChannels + a * d + q);
    }
  }

  /** No slot carries two bits: the slot that carries t is (Channel(t), Plane(t)). */
  lemma {:induction false} CarriedSlot(c: nat, q: nat, d: nat, t: nat)
    requires d >= 1 && Carried(c, q, d) == Some(t)
    ensures Channel(t, d) == c && Plane(t, d) == q
  {
    if c >= HeaderChannels {
      var u := t - HeaderChannels;
      assert u == (c - HeaderChannels) * d + q && q < d;
      DivModUnique(u, d, c - HeaderChannels, q);
    }
  }

  /** Plane k of channel c, within the planes it uses, carries FirstBit(c) + k. */
  lemma SlotOf(c: nat, k: nat, d: nat, t: nat)
    requires 1 <= d && k < d && (c < HeaderChannels ==> k == 0) && t == FirstBit(c, d) + k
    ensures Carried(c, k, d) == Some(t)
  {
  }

  /** Channel c carries FirstBit(c+1) - FirstBit(c) bits: 1 in the header, d after. */
  lemma FirstBitNext(c: nat, d: nat)
    ensures FirstBit(c + 1, d) == FirstBit(c, d) + (if c < HeaderChannels then 1 else d)
  {
  }

  /** FirstBit at two spellings of the same channel, so callers need not unfold it. */
  lemma FirstBitSame(c: nat, c': nat, d: nat)
    requires c == c'
    ensures FirstBit(c, d) == FirstBit(c', d)
  {
  }

  lemma {:induction false} FirstBitMonotone(c: nat, c': nat, d: nat)
    requires c <= c'
    ensures FirstBit(c, d) <= FirstBit(c', d)
  {
    if c' > HeaderChannels && c > HeaderChannels {
      assert (c' - HeaderChannels) * d == (c - HeaderChannels) * d + (c' - c) * d;
    }
  }

  /** Bit t lies within the first n channels iff t < FirstBit(n). */
  lemma ChannelBelow(t: nat, d: nat, n: nat)
    requires d >= 1
    ensures Channel(t, d) < n <==> t < FirstBit(n, d)
  {
    SlotCarries(t, d);
    var c := Channel(t, d);
    if c < n {
      FirstBitMonotone(c + 1, n, d);
    } else {
      FirstBitMonotone(n, c, d);
    }
  }

  /**
   * A buffer of n >= 14 bytes has a slot for every bit exactly when the
   * channels cover the 112 header channels and ceil(8 (n - 14) / d) more.
   */
  lemma FitsIff(pixelCount: nat, d: nat, n: nat)
    requires 1 <= d && n >= 14
    ensures 8 * n <= TotalBits(pixelCount, d) <==> 4 * pixelCount >= HeaderChannels + (8 * (n - 14) + d - 1) / d
  {
    if 4 * pixelCount >= HeaderChannels {
      var c, u := 4 * pixelCount - HeaderChannels, 8 * (n - 14);
      var q, r := (u + d - 1) / d, (u + d - 1) % d;
      assert u + d - 1 == q * d + r;
      if u <= c * d {
        if q > c {
          assert q * d == c * d + (q - c) * d;
          MulAtLeast(q - c, d);
        }
      }
      if q <= c {
        assert c * d == q * d + (c - q) * d;
        assert (c - q) * d >= 0;
      }
    }
  }
}
