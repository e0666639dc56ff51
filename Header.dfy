/**
 * The flat buffer a HiddenFile hides: the 13-byte magic number, the depth
 * (bits per byte), the filename length N, the N filename bytes, the length
 * of the file in BITS as a little-endian 32-bit int, and the file bytes.
 */
module Header {
  import opened Wrappers
  import opened Bits
  import opened Strings

  /** "steganography" in ASCII. */
  const Magic: seq<Byte> := [0x73, 0x74, 0x65, 0x67, 0x61, 0x6e, 0x6f, 0x67, 0x72, 0x61, 0x70, 0x68, 0x79]

  /** '/' in ASCII. */
  const Slash: Byte := 0x2F

  datatype Error = BitsPerByteOutOfRange | FilenameTooLong

  /** What the Java constructor leaves in an object's final fields. */
  datatype HiddenFile = HiddenFile(data: seq<Byte>, bitsPerByte: int)

  /** `path.substring(path.lastIndexOf('/') + 1)`: the last path component. */
  function FileName(path: seq<Byte>): (r: seq<Byte>)
    ensures Slash !in r
    ensures |r| <= |path| && r == path[|path| - |r|..]
    ensures |r| < |path| ==> path[|path| - |r| - 1] == Slash
  {
    path[LastIndexOf(path, Slash) + 1..]
  }

  /** Java's int `data.length * 8`, as its unsigned 32-bit pattern. */
  function BitLength(fileLength: nat): (u: nat)
    ensures u < 0x1_0000_0000
    ensures (u - 8 * fileLength) % 0x1_0000_0000 == 0
    ensures 8 * fileLength < 0x1_0000_0000 ==> u == 8 * fileLength
  {
    (8 * fileLength) % 0x1_0000_0000
  }

  /** The four bytes `(byte)(fileSize >> 8*i)`, i = 0..3, with fileSize = `data.length * 8`. */
  function LengthField(fileLength: nat): (r: seq<Byte>)
    ensures |r| == 4
  {
    var u := BitLength(fileLength);
    seq(4, i requires 0 <= i < 4 => (u / Pow2(8 * i)) % 256)
  }

  /** The unsigned value of four little-endian bytes. */
  function LittleEndian(b: seq<Byte>): (u: nat)
    requires |b| == 4
    ensures u < 0x1_0000_0000
  {
    b[0] as int + 0x100 * (b[1] as int) + 0x1_0000 * (b[2] as int) + 0x100_0000 * (b[3] as int)
  }

  /**
   * How the extractor reads a length field: the four bytes as an int
   * (the last one lands in the sign bit), divided by 8 with Java's `/`.
   */
  function ReadLengthField(b: seq<Byte>): (r: int)
    requires |b| == 4
    ensures -0x1000_0000 <= r < 0x1000_0000
  {
    TruncDiv8(Signed32(LittleEndian(b)))
  }

  /** The extractor reads back the byte count of any file under 2^28 bytes. */
  lemma LengthFieldRoundTrip(fileLength: nat)
    requires 8 * fileLength < 0x8000_0000
    ensures ReadLengthField(LengthField(fileLength)) == fileLength
  {
    LittleEndianDigits(8 * fileLength);
    assert Pow2(8) == 0x100 && Pow2(16) == 0x1_0000 && Pow2(24) == 0x100_0000;
    assert LittleEndian(LengthField(fileLength)) == 8 * fileLength;
  }

  /** A 32-bit value is the sum of its four bytes, weighted. */
  lemma LittleEndianDigits(u: nat)
    requires u < 0x1_0000_0000
    ensures u == u % 0x100 + 0x100 * ((u / 0x100) % 0x100) + 0x1_0000 * ((u / 0x1_0000) % 0x100)
                 + 0x100_0000 * ((u / 0x100_0000) % 0x100)
  {
    var q1, q2, q3 := u / 0x100, u / 0x1_0000, u / 0x100_0000;
    DivModUnique(u, 0x1_0000, q1 / 0x100, u % 0x100 + 0x100 * (q1 % 0x100));
    DivModUnique(u, 0x100_0000, q2 / 0x100, u % 0x1_0000 + 0x1_0000 * (q2 % 0x100));
  }

  /** The buffer that hides `content` under the name `name` at depth bitsPerByte. */
  function Buffer(name: seq<Byte>, content: seq<Byte>, bitsPerByte: Byte): (r: seq<Byte>)
    requires |name| < 256
    ensures |r| == |content| + 19 + |name|
  {
    Magic + [bitsPerByte, |name|] + name + LengthField(|content|) + content
  }

  /** The fields of a buffer and where they lie. */
  lemma BufferLayout(name: seq<Byte>, content: seq<Byte>, bitsPerByte: Byte)
    requires |name| < 256
    ensures var r := Buffer(name, content, bitsPerByte);
      && r[..13] == Magic && r[13] == bitsPerByte && r[14] == |name|
      && r[15..15 + |name|] == name
      && r[15 + |name|..19 + |name|] == LengthField(|content|)
      && r[19 + |name|..] == content
  {
    var r := Buffer(name, content, bitsPerByte);
    var head := Magic + [bitsPerByte, |name|];
    assert r == head + name + LengthField(|content|) + content;
    assert r[..15] == head;
  }

  /** Byte k of a buffer, field by field. */
  lemma BufferAt(name: seq<Byte>, content: seq<Byte>, bitsPerByte: Byte, k: nat)
    requires |name| < 256 && k < |content| + 19 + |name|
    ensures Buffer(name, content, bitsPerByte)[k] ==
      if k < 13 then Magic[k]
      else if k == 13 then bitsPerByte
      else if k == 14 then |name|
      else if k < 15 + |name| then name[k - 15]
      else if k < 19 + |name| then LengthField(|content|)[k - 15 - |name|]
      else content[k - 19 - |name|]
  {
    var head := Magic + [bitsPerByte, |name|];
    assert Buffer(name, content, bitsPerByte) == head + name + LengthField(|content|) + content;
  }

  /**
   * The constructor: takes the name from the path, validates the depth and
   * the name length (in that order) and fills the buffer. `content` is the
   * file `ReadFileBin(path)` would read. The Java code writes the magic
   * number and the depth into the new array before the checks that may
   * throw; a constructor that throws leaves no object, so the checks come
   * first here.
   */
  method New(path: seq<Byte>, content: seq<Byte>, bitsPerByte: int) returns (r: Result<HiddenFile, Error>)
    requires |content| + 19 + |FileName(path)| < 0x8000_0000
    ensures r.Failure? <==> !(1 <= bitsPerByte <= 8) || |FileName(path)| > 255
    ensures r.Failure? ==> r.error == if 1 <= bitsPerByte <= 8 then FilenameTooLong else BitsPerByteOutOfRange
    ensures r.Success? ==> r.value.bitsPerByte == bitsPerByte
    ensures r.Success? ==> r.value.data == Buffer(FileName(path), content, bitsPerByte)
  {
    var filename := FileName(path);
    if bitsPerByte < 1 || bitsPerByte > 8 {
      return Failure(BitsPerByteOutOfRange);
    }
    if |filename| > 255 {
      return Failure(FilenameTooLong);
    }
    var data := FillBuffer(filename, content, bitsPerByte);
    r := Success(HiddenFile(data[..], bitsPerByte));
  }

  /** The constructor's writes into `this.data`: arraycopy, the length loop, arraycopy. */
  method FillBuffer(filename: seq<Byte>, content: seq<Byte>, bitsPerByte: Byte) returns (data: array<Byte>)
    requires |filename| <= 255 && |content| + 19 + |filename| < 0x8000_0000
    ensures fresh(data)
    ensures data[..] == Buffer(filename, content, bitsPerByte)
  {
    var filenameLength := |filename|;
    data := new Byte[|content| + 19 + filenameLength];
    ghost var buffer := Buffer(filename, content, bitsPerByte);

    // magic number - bytes 0 .. 12
    for k := 0 to 13
      invariant data[..k] == buffer[..k]
    {
      BufferAt(filename, content, bitsPerByte, k);
      data[k] := Magic[k];
    }
    // bits per byte - byte 13
    BufferAt(filename, content, bitsPerByte, 13);
    data[13] := bitsPerByte;
    // length of filename - byte 14
    BufferAt(filename, content, bitsPerByte, 14);
    data[14] := filenameLength;
    assert data[..15] == buffer[..15];
    // filename - bytes 15 .. 14 + filenameLength
    for k := 15 to 15 + filenameLength
      invariant data[..k] == buffer[..k]
    {
      BufferAt(filename, content, bitsPerByte, k);
      data[k] := filename[k - 15];
    }

    // length of the file in bits - 4 bytes
    var fileSize := BitLength(|content|);
    for i := 0 to 4
      invariant data[..15 + filenameLength + i] == buffer[..15 + filenameLength + i]
    {
      BufferAt(filename, content, bitsPerByte, 15 + filenameLength + i);
      data[15 + filenameLength + i] := (fileSize / Pow2(8 * i)) % 256;
    }

    // file data
    for k := 19 + filenameLength to data.Length
      invariant data[..k] == buffer[..k]
    {
      BufferAt(filename, content, bitsPerByte, k);
      data[k] := content[k - 19 - filenameLength];
    }
    assert data[..] == data[..data.Length];
  }
}
