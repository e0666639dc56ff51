/**
 * `ExtractFromImage`: reads buffer bits back out of the pixels, slot by slot
 * in the order the packer wrote them, assembles them into bytes, and stops as
 * soon as the bytes read so far settle the outcome: a wrong magic number, a
 * depth outside 1 .. 8, or a complete file.
 */
module Unpacker {
  import opened Wrappers
  import opened Bits
  import opened Channels
  import opened Header

  /** What an extraction ends in: the file to write, one of the two exceptions, or running out of pixels. */
  datatype Extraction =
    | Extracted(fileName: seq<Byte>, content: seq<Byte>)
    | MagicMismatch
    | BitsPerByteInvalid
    | Exhausted

  /** "extracted_" in ASCII: the prefix of every extracted file's name. */
  const ExtractedPrefix: seq<Byte> := [0x65, 0x78, 0x74, 0x72, 0x61, 0x63, 0x74, 0x65, 0x64, 0x5f]

  /** Buffer bit t as read from pixels p at depth d: the bit in its slot (Channel(t), Plane(t)). */
  predicate ReadBit(p: seq<Word>, t: nat, d: nat)
    requires 1 <= d <= 8 && t < TotalBits(|p|, d)
  {
    ChannelBelow(t, d, 4 * |p|);
    SlotCarries(t, d);
    var c := Channel(t, d);
    p[c / 4][8 * (c % 4) + Plane(t, d)]
  }

  /** The n buffer bits read from p starting at bit `start`. */
  function StreamBits(p: seq<Word>, d: nat, start: nat, n: nat): (r: seq<bool>)
    requires 1 <= d <= 8 && start + n <= TotalBits(|p|, d)
    ensures |r| == n
  {
    seq(n, k requires 0 <= k < n => ReadBit(p, start + k, d))
  }

  /** Byte m of the buffer as read from p: its eight bits, least significant first. */
  function ByteAt(p: seq<Word>, d: nat, m: nat): Byte
    requires 1 <= d <= 8 && 8 * m + 8 <= TotalBits(|p|, d)
  {
    var v := Assemble(StreamBits(p, d, 8 * m, 8));
    assert Pow2(8) == 256;
    v
  }

  /** The first n bytes of the buffer as read from p at depth d. */
  function Decoded(p: seq<Word>, d: nat, n: nat): (r: seq<Byte>)
    requires 1 <= d <= 8 && 8 * n <= TotalBits(|p|, d)
    ensures |r| == n
  {
    seq(n, m requires 0 <= m < n => ByteAt(p, d, m))
  }

  /** The filename length as the extractor holds it once `data` is read: byte 14, signed, else 0. */
  function FilenameLengthAt(data: seq<Byte>): int
  {
    if |data| >= 15 then Signed8(data[14]) else 0
  }

  /** The output name once `data` is read: "extracted_" and the name bytes if they are all in, else empty. */
  function FileNameAt(data: seq<Byte>): seq<Byte>
  {
    var fl := FilenameLengthAt(data);
    if 0 <= fl && 15 + fl <= |data| then ExtractedPrefix + data[15..15 + fl] else []
  }

  /** The file length in bytes once `data` is read: the length field if it is all in, else 0. */
  function DataLengthAt(data: seq<Byte>): int
  {
    var fl := FilenameLengthAt(data);
    if -4 <= fl && 19 + fl <= |data| then ReadLengthField(data[15 + fl..19 + fl]) else 0
  }

  /** The bytes read so far hold the whole file the length field announces. */
  predicate Complete(data: seq<Byte>)
  {
    var fl := FilenameLengthAt(data);
    var dl := DataLengthAt(data);
    |data| >= 15 && fl >= -4 && dl >= 0 && 19 + fl + dl <= |data|
  }

  /** The file that a buffer starting with `data` announces, if `data` already holds it. */
  function Fields(data: seq<Byte>): Extraction
  {
    if Complete(data) then
      var fl := FilenameLengthAt(data);
      Extracted(FileNameAt(data), data[19 + fl..19 + fl + DataLengthAt(data)])
    else Exhausted
  }

  /**
   * The header the pixels p start with: the magic number and the depth byte,
   * read one bit per channel. Success carries the depth, Failure how the
   * extraction ends before it gets past the header.
   */
  function HeaderCheck(p: seq<Word>): (r: Result<int, Extraction>)
    ensures r.Success? ==> 1 <= r.value <= 8 && 4 * |p| >= HeaderChannels
  {
    if 4 * |p| < 104 then Failure(Exhausted)
    else if Decoded(p, 1, 13) != Magic then Failure(MagicMismatch)
    else if 4 * |p| < 112 then Failure(Exhausted)
    else
      var d := Signed8(Decoded(p, 1, 14)[13]);
      if !(1 <= d <= 8) then Failure(BitsPerByteInvalid)
      else Success(d)
  }

  /** What extracting from the pixels p ends in: the header, then the rest read at its depth. */
  function Extract(p: seq<Word>): Extraction
  {
    match HeaderCheck(p)
    case Failure(e) => e
    case Success(d) => Fields(Decoded(p, d, TotalBits(|p|, d) / 8))
  }

  /** The outcome the checks after byte |data| settle on, given none settled it before. */
  function Verdict(data: seq<Byte>): Option<Extraction>
  {
    if |data| == 13 && data != Magic then Some(MagicMismatch)
    else if |data| == 14 && !(1 <= Signed8(data[13]) <= 8) then Some(BitsPerByteInvalid)
    else if Complete(data) then Some(Fields(data))
    else None
  }

  /**
   * The extractor's locals. `bit` stands for `bufferMask == 1 << bit`; the
   * Java `byte buffer` holds the low `bit` bits assembled so far.
   */
  datatype Reader = Reader(data: seq<Byte>, buffer: nat, bit: nat, bitsPerByte: int,
                           filenameLength: int, dataLength: int, fileName: seq<Byte>)

  /** The reader has read the first t buffer bits of p at its depth. */
  ghost predicate Stream(p: seq<Word>, st: Reader, t: nat)
  {
    && 1 <= st.bitsPerByte <= 8
    && st.bit < 8
    && t == 8 * |st.data| + st.bit
    && t <= TotalBits(|p|, st.bitsPerByte)
    && st.data == Decoded(p, st.bitsPerByte, |st.data|)
    && st.buffer == Assemble(StreamBits(p, st.bitsPerByte, 8 * |st.data|, st.bit))
  }

  /** The header checks `data` has passed, and the depth they leave in force. */
  ghost predicate Prefixed(data: seq<Byte>, d: int)
  {
    && (|data| < 14 ==> d == 1)
    && (|data| >= 13 ==> data[..13] == Magic)
    && (|data| >= 14 ==> d == Signed8(data[13]))
  }

  /** The name and length fields are what the checks leave after reading `data`, and the file is not yet complete. */
  ghost predicate FieldsSettled(data: seq<Byte>, st: Reader)
  {
    && st.filenameLength == FilenameLengthAt(data)
    && st.fileName == FileNameAt(data)
    && st.dataLength == DataLengthAt(data)
    && !Complete(data)
  }

  /** The reader's fields are what the checks leave after reading `data`, and none has ended it. */
  ghost predicate Settled(data: seq<Byte>, st: Reader)
  {
    Prefixed(data, st.bitsPerByte) && FieldsSettled(data, st)
  }

  ghost predicate Inv(p: seq<Word>, st: Reader, t: nat)
  {
    Stream(p, st, t) && Settled(st.data, st)
  }

  /** Plane k of channel c = 4i+j holds the buffer bit the reader is at. */
  lemma ReadSlot(p: seq<Word>, i: nat, j: nat, c: nat, k: nat, d: nat, t: nat)
    requires 1 <= d <= 8 && i < |p| && j < 4 && c == 4 * i + j && k < d
    requires (c < HeaderChannels ==> k == 0) && t == FirstBit(c, d) + k
    ensures t < TotalBits(|p|, d)
    ensures ReadBit(p, t, d) == p[i][j * 8 + k]
  {
    SlotOf(c, k, d, t);
    CarriedSlot(c, k, d, t);
    FirstBitMonotone(c + 1, 4 * |p|, d);
    DivModUnique(c, 4, i, j);
  }

  /** One more bit read adds it, weighted 2^n, to the assembled value. */
  lemma StreamBitsNext(p: seq<Word>, d: nat, start: nat, n: nat)
    requires 1 <= d <= 8 && start + n + 1 <= TotalBits(|p|, d)
    ensures Assemble(StreamBits(p, d, start, n + 1))
         == Assemble(StreamBits(p, d, start, n)) + (if ReadBit(p, start + n, d) then Pow2(n) else 0)
  {
    assert StreamBits(p, d, start, n + 1)[..n] == StreamBits(p, d, start, n);
  }

  /** Eight bits read complete the next byte. */
  lemma DecodedNext(p: seq<Word>, d: nat, n: nat)
    requires 1 <= d <= 8 && 8 * n + 8 <= TotalBits(|p|, d)
    ensures Decoded(p, d, n + 1) == Decoded(p, d, n) + [ByteAt(p, d, n)]
  {
  }

  /** Reading fewer bytes reads a prefix. */
  lemma DecodedPrefix(p: seq<Word>, d: nat, n: nat, m: nat)
    requires 1 <= d <= 8 && m <= n && 8 * n <= TotalBits(|p|, d)
    ensures Decoded(p, d, n)[..m] == Decoded(p, d, m)
  {
  }

  /** The 14 header bytes sit one bit per channel whatever the depth. */
  lemma DecodedDepth(p: seq<Word>, d: nat, e: nat, n: nat)
    requires 1 <= d <= 8 && 1 <= e <= 8 && n <= 14
    requires 8 * n <= TotalBits(|p|, d) && 8 * n <= TotalBits(|p|, e)
    ensures Decoded(p, d, n) == Decoded(p, e, n)
  {
    forall m | 0 <= m < n
      ensures ByteAt(p, d, m) == ByteAt(p, e, m)
    {
      forall k | 0 <= k < 8
        ensures StreamBits(p, d, 8 * m, 8)[k] == StreamBits(p, e, 8 * m, 8)[k]
      {
        ReadBitHeader(p, 8 * m + k, d);
        ReadBitHeader(p, 8 * m + k, e);
      }
      assert StreamBits(p, d, 8 * m, 8) == StreamBits(p, e, 8 * m, 8);
    }
  }

  /** A header bit is read from plane 0 of channel t, whatever the depth. */
  lemma ReadBitHeader(p: seq<Word>, t: nat, d: nat)
    requires 1 <= d <= 8 && t < HeaderChannels && t < TotalBits(|p|, d)
    ensures t < 4 * |p| && ReadBit(p, t, d) == p[t / 4][8 * (t % 4)]
  {
  }

  /** How each field changes when byte |data| arrives, and when the file becomes complete. */
  lemma FieldsStep(data: seq<Byte>)
    requires |data| >= 1
    ensures var prev := data[..|data| - 1]; var fl := FilenameLengthAt(data);
      && fl == (if |data| == 15 then Signed8(data[14]) else FilenameLengthAt(prev))
      && FileNameAt(data) == (if |data| == 15 + fl then ExtractedPrefix + data[15..15 + fl] else FileNameAt(prev))
      && DataLengthAt(data) == (if |data| == 19 + fl then ReadLengthField(data[15 + fl..19 + fl]) else DataLengthAt(prev))
      && (!Complete(prev) ==> (Complete(data) <==> |data| == 19 + fl + DataLengthAt(data)))
  {
    var n := |data|;
    var prev := data[..n - 1];
    var fl := FilenameLengthAt(data);
    if n > 15 {
      assert prev[14] == data[14];
      if 0 <= fl && 15 + fl < n {
        assert prev[15..15 + fl] == data[15..15 + fl];
      }
      if -4 <= fl && 19 + fl < n {
        assert prev[15 + fl..19 + fl] == data[15 + fl..19 + fl];
      }
    }
  }

  /** Once a prefix of b holds the whole file, b announces the same file. */
  lemma FieldsPrefix(b: seq<Byte>, n: nat)
    requires n <= |b| && Complete(b[..n])
    ensures Complete(b) && Fields(b) == Fields(b[..n])
  {
    var a := b[..n];
    assert a[14] == b[14];
    var fl := FilenameLengthAt(a);
    assert a[15 + fl..19 + fl] == b[15 + fl..19 + fl];
    if 0 <= fl {
      assert a[15..15 + fl] == b[15..15 + fl];
    }
    var dl := DataLengthAt(a);
    assert a[19 + fl..19 + fl + dl] == b[19 + fl..19 + fl + dl];
  }

  /** A check that ends the extraction ends it the way Extract says. */
  lemma ExtractEarly(p: seq<Word>, d: int, data: seq<Byte>, e: Extraction)
    requires 1 <= d <= 8 && |data| >= 1 && 8 * |data| <= TotalBits(|p|, d)
    requires data == Decoded(p, d, |data|)
    requires Prefixed(data[..|data| - 1], d)
    requires Verdict(data) == Some(e)
    ensures Extract(p) == e
  {
    var n := |data|;
    var prev := data[..n - 1];
    if n == 13 && data != Magic {
      DecodedPrefix(p, 1, n, 13);
    } else if n == 14 && !(1 <= Signed8(data[13]) <= 8) {
      assert prev[..13] == data[..13];
      DecodedPrefix(p, 1, n, 13);
    } else {
      assert prev[..13] == data[..13] && prev[13] == data[13];
      ExtractComplete(p, d, data);
    }
  }

  /** Bytes that passed the header checks and complete the fields give those fields. */
  lemma ExtractComplete(p: seq<Word>, d: int, data: seq<Byte>)
    requires 1 <= d <= 8 && 8 * |data| <= TotalBits(|p|, d)
    requires data == Decoded(p, d, |data|)
    requires Complete(data) && data[..13] == Magic && d == Signed8(data[13])
    ensures Extract(p) == Fields(data)
  {
    var n := |data|;
    DecodedDepth(p, d, 1, 14);
    DecodedPrefix(p, d, n, 14);
    DecodedPrefix(p, 1, 14, 13);
    var N := TotalBits(|p|, d) / 8;
    DecodedPrefix(p, d, N, n);
    FieldsPrefix(Decoded(p, d, N), n);
  }

  /** Reading every slot without a check ending it ends in Exhausted, as Extract says. */
  lemma ExtractExhausted(p: seq<Word>, d: int, data: seq<Byte>)
    requires 1 <= d <= 8 && 8 * |data| <= TotalBits(|p|, d) < 8 * |data| + 8
    requires data == Decoded(p, d, |data|)
    requires Prefixed(data, d) && !Complete(data)
    ensures Extract(p) == Exhausted
  {
    if 4 * |p| >= 104 {
      DecodedDepth(p, d, 1, 13);
      DecodedPrefix(p, d, |data|, 13);
      if 4 * |p| >= 112 {
        DecodedDepth(p, d, 1, 14);
        DecodedPrefix(p, d, |data|, 14);
        assert TotalBits(|p|, d) / 8 == |data|;
      }
    }
  }

  /**
   * The checks the Java loop runs when `bufferMask == 1`, that is right after
   * byte |st.data| is added, in the source's order. `brk` is the `break`
   * after the depth is read; r is the outcome, if one is reached.
   */
  method AtByteBoundary(st: Reader) returns (st': Reader, r: Option<Extraction>, brk: bool)
    requires |st.data| >= 1
    requires Settled(st.data[..|st.data| - 1], st)
    ensures r == Verdict(st.data)
    ensures st'.data == st.data && st'.buffer == st.buffer && st'.bit == st.bit
    ensures r.None? ==> Settled(st.data, st')
    ensures r.None? ==> (brk <==> |st.data| == 14)
    ensures r.None? ==> st'.bitsPerByte == if |st.data| == 14 then Signed8(st.data[13]) else st.bitsPerByte
  {
    var data := st.data;
    ghost var prev := data[..|data| - 1];
    if |data| == 13 {
      var ok := MagicMatches(data);
      if !ok {
        return st, Some(MagicMismatch), false;
      }
    }
    if |data| == 14 {
      var bitsPerByte := Signed8(data[13]);
      st' := st.(bitsPerByte := bitsPerByte);
      if bitsPerByte < 1 || bitsPerByte > 8 {
        return st', Some(BitsPerByteInvalid), false;
      }
      assert prev[..13] == data[..13];
      FieldsStep(data);
      return st', None, true;
    }
    brk := false;
    st', r := FieldChecks(st);
    if |data| > 13 {
      assert prev[..13] == data[..13] && prev[13] == data[13];
    }
  }

  /** The loop that compares the 13 bytes read with the magic number. */
  method MagicMatches(data: seq<Byte>) returns (ok: bool)
    requires |data| == 13
    ensures ok <==> data == Magic
  {
    for l := 0 to 13
      invariant data[..l] == Magic[..l]
    {
      if data[l] != Magic[l] {
        return false;
      }
    }
    assert data == data[..13];
    return true;
  }

  /**
   * The checks after the depth: the filename length at 15 bytes, the name
   * once its bytes are in, the length field once its bytes are in, and the
   * file once its bytes are in.
   */
  method FieldChecks(st: Reader) returns (st': Reader, r: Option<Extraction>)
    requires |st.data| >= 1 && |st.data| != 14
    requires FieldsSettled(st.data[..|st.data| - 1], st)
    ensures st' == st.(filenameLength := st'.filenameLength, fileName := st'.fileName, dataLength := st'.dataLength)
    ensures r == if Complete(st.data) then Some(Fields(st.data)) else None
    ensures r.None? ==> FieldsSettled(st.data, st')
  {
    var data := st.data;
    FieldsStep(data);
    st' := st;
    if |data| == 15 {
      st' := st'.(filenameLength := Signed8(data[14]));
    }
    var fl := st'.filenameLength;
    if |data| == 15 + fl {
      st' := st'.(fileName := ExtractedPrefix + data[15..15 + fl]);
    }
    if |data| == 15 + fl + 4 {
      st' := st'.(dataLength := ReadLengthField(data[15 + fl..19 + fl]));
    }
    r := None;
    if |data| == 15 + fl + 4 + st'.dataLength {
      r := Some(Extracted(st'.fileName, data[19 + fl..19 + fl + st'.dataLength]));
    }
  }

  /**
   * One bit read into the buffer: `buffer |= bufferMask` if it is set,
   * `bufferMask <<= 1`, and once eight bits are in, the byte is added to
   * `data` and the buffer starts afresh.
   */
  method TakeBit(st: Reader, b: bool, ghost p: seq<Word>, ghost t: nat) returns (st': Reader)
    requires Stream(p, st, t) && t < TotalBits(|p|, st.bitsPerByte)
    requires b == ReadBit(p, t, st.bitsPerByte)
    ensures Stream(p, st', t + 1)
    ensures st' == st.(data := st'.data, buffer := st'.buffer, bit := st'.bit)
    ensures st'.bit == 0 ==> |st'.data| == |st.data| + 1 && st'.data[..|st.data|] == st.data
    ensures st'.bit != 0 ==> st'.data == st.data
  {
    StreamBitsNext(p, st.bitsPerByte, 8 * |st.data|, st.bit);
    st' := st;
    if b {
      st' := st'.(buffer := st'.buffer + Pow2(st'.bit));
    }
    st' := st'.(bit := st'.bit + 1);
    if st'.bit == 8 {
      ghost var d, n := st.bitsPerByte, |st.data|;
      assert st'.buffer == ByteAt(p, d, n);
      DecodedNext(p, d, n);
      st' := st'.(data := st'.data + [st'.buffer], buffer := 0, bit := 0);
      assert StreamBits(p, d, 8 * (n + 1), 0) == [];
    }
  }

  /**
   * The k loop of one channel: reads bit-planes 0 .. bitsPerByte-1 of lane j
   * of pixel i, running the checks after each completed byte.
   */
  method ReadChannel(pixels: array<Word>, i: nat, j: nat, st0: Reader, ghost t0: nat, ghost c0: nat)
      returns (st: Reader, r: Option<Extraction>, ghost t: nat, ghost c: nat)
    requires i < pixels.Length && j < 4 && c0 == 4 * i + j
    requires Inv(pixels[..], st0, t0) && t0 == FirstBit(c0, st0.bitsPerByte)
    ensures c == c0 + 1
    ensures r.Some? ==> r.value == Extract(pixels[..])
    ensures r.None? ==> Inv(pixels[..], st, t) && 1 <= st.bitsPerByte && t == FirstBit(c, st.bitsPerByte)
  {
    ghost var p := pixels[..];
    st, r, t, c := st0, None, t0, c0 + 1;
    var k := 0;
    while k < st.bitsPerByte
      invariant 0 <= k <= st.bitsPerByte && r.None?
      invariant c0 < HeaderChannels ==> st.bitsPerByte == 1
      invariant Inv(p, st, t) && t == FirstBit(c0, st.bitsPerByte) + k
    {
      var b := pixels[i][j * 8 + k];             // (pixels[i] & (1 << (j*8 + k))) != 0
      ReadSlot(p, i, j, c0, k, st.bitsPerByte, t);
      ghost var prev := st;
      st := TakeBit(st, b, p, t);
      t := t + 1;
      if st.bit == 0 {                           // bufferMask == 1
        var brk;
        ghost var full := st;
        assert full.data[..|full.data| - 1] == prev.data;
        st, r, brk := AtByteBoundary(st);
        if r.Some? {
          ExtractEarly(p, full.bitsPerByte, full.data, r.value);
          return;
        }
        if brk {
          DecodedDepth(p, full.bitsPerByte, st.bitsPerByte, 14);
          return;
        }
      }
      k := k + 1;
    }
    FirstBitNext(c0, st.bitsPerByte);
    FirstBitSame(c0 + 1, c, st.bitsPerByte);
  }

  /** The j loop of one pixel: its four lanes B, G, R, A in turn. */
  method ReadPixel(pixels: array<Word>, i: nat, st0: Reader, ghost t0: nat, ghost c0: nat)
      returns (st: Reader, r: Option<Extraction>, ghost t: nat, ghost c: nat)
    requires i < pixels.Length && c0 == 4 * i
    requires Inv(pixels[..], st0, t0) && t0 == FirstBit(c0, st0.bitsPerByte)
    ensures r.Some? ==> r.value == Extract(pixels[..])
    ensures r.None? ==> c == c0 + 4 && Inv(pixels[..], st, t) && 1 <= st.bitsPerByte && t == FirstBit(c, st.bitsPerByte)
  {
    st, r, t, c := st0, None, t0, c0;
    var j := 0;
    while j < 4
      invariant 0 <= j <= 4 && r.None? && c == c0 + j
      invariant Inv(pixels[..], st, t) && 1 <= st.bitsPerByte && t == FirstBit(c, st.bitsPerByte)
    {
      st, r, t, c := ReadChannel(pixels, i, j, st, t, c);
      if r.Some? {
        return;
      }
      j := j + 1;
    }
  }

  /** Before any bit is read the reader is at bit 0, depth 1, with nothing settled. */
  lemma InvStart(p: seq<Word>)
    ensures Inv(p, Reader([], 0, 0, 1, 0, 0, []), 0)
  {
    assert StreamBits(p, 1, 0, 0) == [];
  }

  /** The whole extractor: pixels in order until a check ends it or the pixels run out. */
  method ExtractFromImage(pixels: array<Word>) returns (r: Extraction)
    ensures r == Extract(pixels[..])
  {
    var st := Reader([], 0, 0, 1, 0, 0, []);
    ghost var t: nat := 0;
    InvStart(pixels[..]);
    ghost var c: nat := 0;
    var i := 0;
    while i < pixels.Length
      invariant 0 <= i <= pixels.Length && c == 4 * i
      invariant Inv(pixels[..], st, t) && 1 <= st.bitsPerByte && t == FirstBit(c, st.bitsPerByte)
    {
      var found;
      st, found, t, c := ReadPixel(pixels, i, st, t, c);
      if found.Some? {
        return found.value;
      }
      i := i + 1;
    }
    FirstBitSame(c, 4 * pixels.Length, st.bitsPerByte);
    ExtractExhausted(pixels[..], st.bitsPerByte, st.data);
    return Exhausted;
  }
}
