/**
 * `hideInImage`: writes a HiddenFile's buffer into the low bits of the
 * pixels, bit t of the buffer into the slot (Channel(t), Plane(t)).
 */
module Packer {
  import opened Wrappers
  import opened Bits
  import opened Channels
  import opened Header

  /** Bit t of the buffer: bit t % 8 of byte t / 8. */
  predicate StreamBit(data: seq<Byte>, t: nat)
    requires t < 8 * |data|
  {
    ByteBit(data[t / 8], t % 8)
  }

  /**
   * What bit p of pixel w holds once the first t buffer bits are written:
   * the buffer bit its slot carries if that bit is one of them, else the old bit.
   */
  predicate PackedBit(before: Word, w: nat, p: nat, data: seq<Byte>, d: nat, t: nat)
    requires p < 32 && t <= 8 * |data|
  {
    match Carried(4 * w + p / 8, p % 8, d)
    case Some(s) => if s < t then StreamBit(data, s) else before[p]
    case None => before[p]
  }

  /** Pixel w of `before` with the buffer bits 0 .. t-1 that it carries written. */
  function PackedWord(bw: Word, w: nat, data: seq<Byte>, d: nat, t: nat): (r: Word)
    requires t <= 8 * |data|
  {
    seq(32, p requires 0 <= p < 32 => PackedBit(bw, w, p, data, d, t))
  }

  /** The pixels `before` with buffer bits 0 .. t-1 written into their slots and nothing else changed. */
  function PackedWords(before: seq<Word>, data: seq<Byte>, d: nat, t: nat): (r: seq<Word>)
    requires t <= 8 * |data|
    ensures |r| == |before|
  {
    seq(|before|, w requires 0 <= w < |before| => PackedWord(before[w], w, data, d, t))
  }

  /** `after` is `before` with buffer bits 0 .. t-1 written and nothing else changed. */
  ghost predicate PackedUpTo(before: seq<Word>, after: seq<Word>, data: seq<Byte>, d: nat, t: nat)
    requires t <= 8 * |data|
  {
    after == PackedWords(before, data, d, t)
  }

  /** `after` is `before` with every buffer bit that has a slot in it written, and nothing else changed. */
  ghost predicate Packed(before: seq<Word>, after: seq<Word>, data: seq<Byte>, d: nat)
  {
    PackedUpTo(before, after, data, d, 8 * |data|)
  }

  /** Before the first bit is written, the pixels are unchanged. */
  lemma PackedNothing(before: seq<Word>, data: seq<Byte>, d: nat)
    ensures PackedUpTo(before, before, data, d, 0)
  {
    var none := PackedWords(before, data, d, 0);
    forall w | 0 <= w < |before|
      ensures none[w] == before[w]
    {
    }
  }

  /** Only the slot that carries bit t changes its PackedBit when t is written. */
  lemma PackedBitStep(bw: Word, w: nat, p: nat, data: seq<Byte>, d: nat, t: nat, c: nat, q: nat)
    requires 1 <= d && p < 32 && t < 8 * |data| && Carried(c, q, d) == Some(t)
    ensures PackedBit(bw, w, p, data, d, t + 1) ==
      if 4 * w + p / 8 == c && p % 8 == q then StreamBit(data, t) else PackedBit(bw, w, p, data, d, t)
  {
    var c', q' := 4 * w + p / 8, p % 8;
    match Carried(c', q', d)
    case Some(s) =>
      if s == t {
        CarriedSlot(c', q', d, t);
        CarriedSlot(c, q, d, t);
      }
    case None =>
      if c' == c && q' == q {
        assert false;
      }
  }

  /** Writing bit t into its slot extends PackedUpTo from t to t + 1 bits. */
  lemma PackStep(before: seq<Word>, after: seq<Word>, data: seq<Byte>, d: nat, t: nat, i: nat, j: nat, k: nat, b: bool)
    requires 1 <= d && t < 8 * |data| && PackedUpTo(before, after, data, d, t)
    requires i < |after| && j < 4 && k < 8 && Carried(4 * i + j, k, d) == Some(t) && b == StreamBit(data, t)
    ensures PackedUpTo(before, after[i := after[i][k + 8 * j := b]], data, d, t + 1)
  {
    var after', next := after[i := after[i][k + 8 * j := b]], PackedWords(before, data, d, t + 1);
    forall w | 0 <= w < |after'|
      ensures after'[w] == next[w]
    {
      forall p | 0 <= p < 32
        ensures after'[w][p] == next[w][p]
      {
        PackedBitStep(before[w], w, p, data, d, t, 4 * i + j, k);
        assert 4 * w + p / 8 == 4 * i + j && p % 8 == k <==> w == i && p == 8 * j + k;
      }
    }
  }

  /** Once every channel of the pixels has been visited, the remaining bits have no slot. */
  lemma PackedAll(before: seq<Word>, after: seq<Word>, data: seq<Byte>, d: nat)
    requires 1 <= d && TotalBits(|before|, d) <= 8 * |data|
    requires PackedUpTo(before, after, data, d, TotalBits(|before|, d))
    ensures Packed(before, after, data, d)
  {
    var all := PackedWords(before, data, d, 8 * |data|);
    forall w | 0 <= w < |after|
      ensures after[w] == all[w]
    {
      forall p | 0 <= p < 32
        ensures after[w][p] == all[w][p]
      {
        FirstBitMonotone(4 * w + p / 8 + 1, 4 * |before|, d);
      }
    }
  }

  /**
   * The packer leaves every other bit as it was: the planes at or above the
   * depth (above plane 0 in the 112 header channels) and every channel past
   * the end of the buffer.
   */
  lemma PackedKeeps(before: seq<Word>, after: seq<Word>, data: seq<Byte>, d: nat, w: nat, p: nat)
    requires Packed(before, after, data, d) && w < |before| && p < 32
    requires p % 8 >= (if 4 * w + p / 8 < HeaderChannels then 1 else d) || FirstBit(4 * w + p / 8, d) >= 8 * |data|
    ensures after[w][p] == before[w][p]
  {
  }

  /** `(buffer & bufferMask) != 0` with buffer = data[dataIx] and bufferMask = 2^bit tests buffer bit 8*dataIx + bit. */
  lemma MaskedBit(data: seq<Byte>, dataIx: nat, buffer: int, bit: nat, t: nat)
    requires dataIx < |data| && buffer == data[dataIx] && bit < 8 && t == 8 * dataIx + bit
    ensures t < 8 * |data|
    ensures ((buffer / Pow2(bit)) % 2 == 1) == StreamBit(data, t)
  {
    DivModUnique(t, 8, dataIx, bit);
    assert data[t / 8] == data[dataIx] && t % 8 == bit;
  }

  /**
   * The packer's position: about to write buffer bit t, which is bit `bit`
   * of byte `dataIx`, held in `buffer`.
   */
  ghost predicate Cursor(data: seq<Byte>, dataIx: int, buffer: int, bit: int, t: nat)
  {
    0 <= dataIx < |data| && buffer == data[dataIx] && 0 <= bit < 8 && t == 8 * dataIx + bit
  }

  /**
   * Hides `hf.data` in `pixels`: pixel by pixel, lane B, G, R, A, bit by bit.
   * The first 14 bytes use bit 0 of one channel per bit; from byte 14 on,
   * the low `bitsPerByte` bits of each channel. When the pixels run out the
   * method just returns, with a prefix of the buffer written. The mask
   * `bufferMask` of the Java code, 1 << bit, is kept as its exponent `bit`.
   */
  method HideInImage(hf: HiddenFile, pixels: array<Word>)
    requires |hf.data| >= 1 && 1 <= hf.bitsPerByte <= 8
    modifies pixels
    ensures Packed(old(pixels[..]), pixels[..], hf.data, hf.bitsPerByte)
  {
    var data := hf.data;
    var bitsPerByte := hf.bitsPerByte;
    ghost var before := pixels[..];
    var dataIx := 0;
    var buffer := data[dataIx];
    var bit := 0;          // bufferMask == 1 << bit
    PackedNothing(before, data, bitsPerByte);
    ghost var c: nat := 0;   // the channel 4*i + j visited next

    var i := 0;
    while i < pixels.Length
      invariant 0 <= i <= pixels.Length && c == 4 * i
      invariant Cursor(data, dataIx, buffer, bit, FirstBit(c, bitsPerByte))
      invariant PackedUpTo(before, pixels[..], data, bitsPerByte, FirstBit(c, bitsPerByte))
    {
      var j := 0;
      while j < 4
        invariant 0 <= j <= 4 && c == 4 * i + j
        invariant Cursor(data, dataIx, buffer, bit, FirstBit(c, bitsPerByte))
        invariant PackedUpTo(before, pixels[..], data, bitsPerByte, FirstBit(c, bitsPerByte))
      {
        var finished;
        dataIx, buffer, bit, finished, c := HideInChannel(data, bitsPerByte, pixels, i, j, dataIx, buffer, bit, before, c);
        if finished {
          return;
        }
        j := j + 1;
      }
      i := i + 1;
    }
    FirstBitSame(c, 4 * |before|, bitsPerByte);
    PackedAll(before, pixels[..], data, bitsPerByte);
  }

  /**
   * The innermost loop of `hideInImage`: the planes of channel 4*i + j.
   * `finished` is the loop's `return`, taken once the last buffer byte is written.
   */
  method HideInChannel(data: seq<Byte>, bitsPerByte: int, pixels: array<Word>, i: int, j: int,
                       dataIx0: int, buffer0: int, bit0: int, ghost before: seq<Word>, ghost c0: nat)
    returns (dataIx: int, buffer: int, bit: int, finished: bool, ghost c: nat)
    requires 1 <= bitsPerByte <= 8 && 0 <= i < pixels.Length && 0 <= j < 4 && c0 == 4 * i + j
    requires Cursor(data, dataIx0, buffer0, bit0, FirstBit(c0, bitsPerByte))
    requires PackedUpTo(before, pixels[..], data, bitsPerByte, FirstBit(c0, bitsPerByte))
    modifies pixels
    ensures c == c0 + 1
    ensures finished ==> Packed(before, pixels[..], data, bitsPerByte)
    ensures !finished ==> Cursor(data, dataIx, buffer, bit, FirstBit(c, bitsPerByte))
    ensures !finished ==> PackedUpTo(before, pixels[..], data, bitsPerByte, FirstBit(c, bitsPerByte))
  {
    dataIx, buffer, bit, finished, c := dataIx0, buffer0, bit0, false, c0 + 1;
    ghost var t: nat := 8 * dataIx + bit;   // the buffer bit written next
    FirstBitNext(c0, bitsPerByte);
    FirstBitSame(c0 + 1, c, bitsPerByte);
    var k := 0;
    while k < bitsPerByte
      invariant 0 <= k <= bitsPerByte
      invariant c0 < HeaderChannels ==> k == 0
      invariant Cursor(data, dataIx, buffer, bit, t) && t == FirstBit(c0, bitsPerByte) + k
      invariant PackedUpTo(before, pixels[..], data, bitsPerByte, t)
    {
      var b := (buffer / Pow2(bit)) % 2 == 1;    // (buffer & bufferMask) != 0
      MaskedBit(data, dataIx, buffer, bit, t);
      SlotOf(c0, k, bitsPerByte, t);
      WriteBit(data, bitsPerByte, pixels, i, j, k, b, t, before);
      bit := bit + 1;                             // bufferMask <<= 1
      t := t + 1;
      if bit == 8 {                               // bufferMask == 0x100
        bit := 0;
        dataIx := dataIx + 1;
        if dataIx >= |data| {
          assert t == 8 * |data|;
          finished := true;
          return;
        }
        buffer := data[dataIx];
      }
      if dataIx <= 13 || (dataIx == 14 && bit == 0) {
        // still in the magic number and depth byte: one bit per channel
        assert c0 < HeaderChannels && k == 0 && t == FirstBit(c, bitsPerByte);
        return;
      }
      k := k + 1;
    }
  }

  /** Sets or clears bit k + 8*j of pixel i to b, the buffer bit t its slot carries. */
  method WriteBit(data: seq<Byte>, d: nat, pixels: array<Word>, i: nat, j: nat, k: nat, b: bool,
                  ghost t: nat, ghost before: seq<Word>)
    requires 1 <= d && t < 8 * |data| && PackedUpTo(before, pixels[..], data, d, t)
    requires i < pixels.Length && j < 4 && k < 8 && Carried(4 * i + j, k, d) == Some(t) && b == StreamBit(data, t)
    modifies pixels
    ensures PackedUpTo(before, pixels[..], data, d, t + 1)
  {
    ghost var cur := pixels[..];
    PackStep(before, cur, data, d, t, i, j, k, b);
    pixels[i] := pixels[i][k + 8 * j := b];
    assert pixels[..] == cur[i := cur[i][k + 8 * j := b]];
  }
}
