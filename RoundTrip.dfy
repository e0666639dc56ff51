/**
 * What the extractor reads back from pixels the packer wrote: the buffer a
 * HiddenFile was built from, as far as the pixels had room for it, and from
 * that the file itself exactly when the whole buffer fit.
 */
module RoundTrip {
  import opened Wrappers
  import opened Bits
  import opened Channels
  import opened Header
  import opened Packer
  import opened Unpacker

  /** Reading a slot the packer wrote gives back the buffer bit it wrote there. */
  lemma ReadPacked(before: seq<Word>, after: seq<Word>, data: seq<Byte>, d: nat, t: nat)
    requires 1 <= d <= 8 && Packed(before, after, data, d)
    requires t < TotalBits(|after|, d) && t < 8 * |data|
    ensures ReadBit(after, t, d) == StreamBit(data, t)
  {
    ChannelBelow(t, d, 4 * |after|);
    SlotCarries(t, d);
    var c, q := Channel(t, d), Plane(t, d);
    var w, p := c / 4, 8 * (c % 4) + q;
    DivModUnique(p, 8, c % 4, q);
    assert after[w][p] == PackedBit(before[w], w, p, data, d, 8 * |data|);
  }

  /** Byte m of a packed buffer reads back as itself. */
  lemma ByteAtPacked(before: seq<Word>, after: seq<Word>, data: seq<Byte>, d: nat, m: nat)
    requires 1 <= d <= 8 && Packed(before, after, data, d)
    requires 8 * m + 8 <= TotalBits(|after|, d) && m < |data|
    ensures ByteAt(after, d, m) == data[m]
  {
    var bits := StreamBits(after, d, 8 * m, 8);
    forall k | 0 <= k < 8
      ensures bits[k] == BitsOf(data[m])[k]
    {
      ReadPacked(before, after, data, d, 8 * m + k);
      DivModUnique(8 * m + k, 8, m, k);
    }
    assert bits == BitsOf(data[m]);
    AssembleBitsOf(data[m]);
  }

  /** The first n bytes read back from packed pixels are the first n bytes of the buffer. */
  lemma DecodedPacked(before: seq<Word>, after: seq<Word>, data: seq<Byte>, d: nat, n: nat)
    requires 1 <= d <= 8 && Packed(before, after, data, d)
    requires 8 * n <= TotalBits(|after|, d) && n <= |data|
    ensures Decoded(after, d, n) == data[..n]
  {
    forall m | 0 <= m < n
      ensures Decoded(after, d, n)[m] == data[m]
    {
      ByteAtPacked(before, after, data, d, m);
    }
  }

  /**
   * The header of packed pixels passes both checks and gives the depth back,
   * and the bytes read at that depth are the buffer, as far as it fit.
   */
  lemma HeaderPacked(name: seq<Byte>, content: seq<Byte>, d: Byte, before: seq<Word>, after: seq<Word>)
    requires 1 <= d <= 8 && |name| < 256
    requires Packed(before, after, Buffer(name, content, d), d)
    requires 4 * |after| >= HeaderChannels
    ensures HeaderCheck(after) == Success(d)
    ensures var buf, N := Buffer(name, content, d), TotalBits(|after|, d) / 8;
      N >= 14 && Decoded(after, d, N)[..Min(N, |buf|)] == buf[..Min(N, |buf|)]
  {
    var buf := Buffer(name, content, d);
    BufferLayout(name, content, d);
    DecodedDepth(after, 1, d, 14);
    DecodedPacked(before, after, buf, d, 14);
    assert Decoded(after, 1, 14)[..13] == Decoded(after, 1, 13);
    assert buf[..14][..13] == buf[..13];
    var N := TotalBits(|after|, d) / 8;
    var n := Min(N, |buf|);
    DecodedPrefix(after, d, N, n);
    DecodedPacked(before, after, buf, d, n);
  }

  function Min(a: int, b: int): int
  {
    if a < b then a else b
  }

  /** The fields of a whole buffer: name and length as written, nothing missing. */
  lemma FieldsOfBuffer(name: seq<Byte>, content: seq<Byte>, d: Byte)
    requires |name| < 128 && 8 * |content| < 0x8000_0000
    ensures Fields(Buffer(name, content, d)) == Extracted(ExtractedPrefix + name, content)
  {
    BufferLayout(name, content, d);
    LengthFieldRoundTrip(|content|);
  }

  /** No proper prefix of a buffer holds the whole file. */
  lemma BufferIncomplete(name: seq<Byte>, content: seq<Byte>, d: Byte, n: nat)
    requires |name| < 128 && 8 * |content| < 0x8000_0000
    requires n < |Buffer(name, content, d)|
    ensures !Complete(Buffer(name, content, d)[..n])
  {
    var buf := Buffer(name, content, d);
    var a := buf[..n];
    BufferLayout(name, content, d);
    if n >= 15 {
      assert a[14] == buf[14];
      var fl := |name|;
      if 19 + fl <= n {
        assert a[15 + fl..19 + fl] == buf[15 + fl..19 + fl];
        LengthFieldRoundTrip(|content|);
      }
    }
  }

  /**
   * The round trip: pixels that `hideInImage` wrote a HiddenFile's buffer
   * into extract to that file, under "extracted_" and its name, exactly when
   * the whole buffer fit; when it did not, the extractor runs out of pixels.
   */
  lemma {:induction false} RoundTrip(name: seq<Byte>, content: seq<Byte>, d: Byte, before: seq<Word>, after: seq<Word>)
    requires 1 <= d <= 8 && |name| < 128 && 8 * |content| < 0x8000_0000
    requires Packed(before, after, Buffer(name, content, d), d)
    ensures Extract(after) ==
      if 8 * |Buffer(name, content, d)| <= TotalBits(|after|, d) then Extracted(ExtractedPrefix + name, content)
      else Exhausted
  {
    var buf := Buffer(name, content, d);
    if 4 * |after| >= HeaderChannels {
      HeaderPacked(name, content, d, before, after);
      var N := TotalBits(|after|, d) / 8;
      var B := Decoded(after, d, N);
      if |buf| <= N {
        assert B[..|buf|] == buf;
        FieldsOfBuffer(name, content, d);
        FieldsPrefix(B, |buf|);
      } else {
        assert B == buf[..N];
        BufferIncomplete(name, content, d, N);
      }
    } else {
      // fewer than 112 channels: the header does not even fit
      if 4 * |after| >= 104 {
        DecodedDepth(after, 1, d, 13);
        DecodedPacked(before, after, buf, d, 13);
        BufferLayout(name, content, d);
      }
    }
  }

  /**
   * As written, the extractor reads the filename length as a signed byte:
   * any name of 128 to 251 bytes, which the constructor accepts, reads back
   * as a negative length, and the file is never extracted however large the
   * image.
   */
  lemma SignedNameLengthLost(name: seq<Byte>, content: seq<Byte>, d: Byte, before: seq<Word>, after: seq<Word>)
    requires 1 <= d <= 8 && 128 <= |name| <= 251
    requires Packed(before, after, Buffer(name, content, d), d)
    requires 8 * |Buffer(name, content, d)| <= TotalBits(|after|, d)
    ensures Extract(after) == Exhausted
  {
    var buf := Buffer(name, content, d);
    HeaderPacked(name, content, d, before, after);
    BufferLayout(name, content, d);
    var N := TotalBits(|after|, d) / 8;
    assert Decoded(after, d, N)[14] == buf[..|buf|][14];
  }

  /**
   * As written, no name of 128 to 255 bytes comes back: the signed length
   * is negative, so the name is never copied. For 252 to 255 bytes the
   * length -4 .. -1 still lets a length field be read, from bytes 11 .. 17
   * (magic, depth and name bytes), and a file with an empty name may be
   * announced; otherwise the extractor runs out of pixels.
   */
  lemma LongNameNeverNamed(name: seq<Byte>, content: seq<Byte>, d: Byte, before: seq<Word>, after: seq<Word>)
    requires 1 <= d <= 8 && 128 <= |name| <= 255
    requires Packed(before, after, Buffer(name, content, d), d)
    ensures var r := Extract(after); r == Exhausted || (r.Extracted? && r.fileName == [])
  {
    var buf := Buffer(name, content, d);
    BufferLayout(name, content, d);
    if 4 * |after| >= HeaderChannels {
      HeaderPacked(name, content, d, before, after);
      var N := TotalBits(|after|, d) / 8;
      var B := Decoded(after, d, N);
      if N >= 15 {
        assert B[14] == buf[..Min(N, |buf|)][14];
        assert FilenameLengthAt(B) == |name| - 256;
      }
    } else if 4 * |after| >= 104 {
      DecodedDepth(after, 1, d, 13);
      DecodedPacked(before, after, buf, d, 13);
    }
  }

  /** The filename length read as the unsigned byte the constructor wrote. */
  function FieldsUnsigned(data: seq<Byte>): Extraction
  {
    if |data| < 15 || |data| < 19 + data[14] as int then Exhausted
    else
      var fl: int := data[14];
      var dl := ReadLengthField(data[15 + fl..19 + fl]);
      if dl < 0 || |data| < 19 + fl + dl then Exhausted
      else Extracted(ExtractedPrefix + data[15..15 + fl], data[19 + fl..19 + fl + dl])
  }

  /** The extraction with the filename length read unsigned. */
  function ExtractUnsigned(p: seq<Word>): Extraction
  {
    match HeaderCheck(p)
    case Failure(e) => e
    case Success(d) => FieldsUnsigned(Decoded(p, d, TotalBits(|p|, d) / 8))
  }

  /** With the length read unsigned, every name the constructor accepts comes back. */
  lemma RoundTripUnsigned(name: seq<Byte>, content: seq<Byte>, d: Byte, before: seq<Word>, after: seq<Word>)
    requires 1 <= d <= 8 && |name| < 256 && 8 * |content| < 0x8000_0000
    requires Packed(before, after, Buffer(name, content, d), d)
    requires 8 * |Buffer(name, content, d)| <= TotalBits(|after|, d)
    ensures ExtractUnsigned(after) == Extracted(ExtractedPrefix + name, content)
  {
    var buf := Buffer(name, content, d);
    HeaderPacked(name, content, d, before, after);
    BufferLayout(name, content, d);
    LengthFieldRoundTrip(|content|);
    var N := TotalBits(|after|, d) / 8;
    var B := Decoded(after, d, N);
    assert B[..|buf|] == buf;
    var fl := |name|;
    assert B[14] == buf[14];
    assert B[15 + fl..19 + fl] == buf[15 + fl..19 + fl];
    assert B[15..15 + fl] == buf[15..15 + fl];
    assert B[19 + fl..19 + fl + |content|] == buf[19 + fl..];
  }
}
