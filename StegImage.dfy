/**
 * StegImage: the image a file is hidden in. Its pixels come from the image
 * file (loading and saving are not modelled); what is modelled is the
 * capacity table it reports and the path `Write` saves to.
 */
module StegImages {
  import opened Wrappers
  import opened Bits
  import opened Strings
  import opened Channels

  /** Pixels set aside for the 14 bytes written one bit per channel (112 channels). */
  const HeaderPixels: int := 28

  /**
   * Entry d-1 of GetCapacity, computed in Java int arithmetic: bytes after
   * the header pixels, less 259. The bits wrap, the bytes truncate, and the
   * final subtraction never leaves the int range.
   */
  function Capacity(pixelCount: nat, d: int): (r: int)
    ensures -0x1000_0000 - 259 <= r <= 0x1000_0000 - 260
  {
    TruncDiv8(Int32((pixelCount - HeaderPixels) * 4 * d)) - 259
  }

  class StegImage {
    var pixels: array<Word>
    const path: seq<char>

    /** The image at `path`, whose pixels are `pixels` once loaded. */
    constructor (path: seq<char>, pixels: array<Word>)
      ensures this.path == path && this.pixels == pixels
    {
      this.path := path;
      this.pixels := pixels;
    }

    /** The largest file, in bytes, each depth 1 .. 8 can hide in this image. */
    method GetCapacity() returns (capacities: array<int>)
      ensures fresh(capacities) && capacities.Length == 8
      ensures forall d | 1 <= d <= 8 :: capacities[d - 1] == Capacity(pixels.Length, d)
    {
      capacities := new int[8];
      var numPixels := pixels.Length - HeaderPixels;
      for i := 1 to 9
        invariant forall d | 1 <= d < i :: capacities[d - 1] == Capacity(pixels.Length, d)
      {
        capacities[i - 1] := Int32(numPixels * 4 * i);    // in bits
        capacities[i - 1] := TruncDiv8(capacities[i - 1]); // in bytes
        capacities[i - 1] := capacities[i - 1] - 259;     // not rest of header
      }
    }
  }

  /**
   * Without int overflow, the capacity is the bytes the channels after the
   * header hold at depth d, less 259.
   */
  lemma CapacityMeaning(pixelCount: nat, d: int)
    requires 1 <= d <= 8 && HeaderPixels <= pixelCount && 32 * pixelCount < 0x8000_0000
    ensures Capacity(pixelCount, d) == (TotalBits(pixelCount, d) - HeaderChannels) / 8 - 259
  {
    assert 0 <= (pixelCount - HeaderPixels) * 4 * d <= 32 * pixelCount;
  }

  /** More bits per channel never lower the capacity. */
  lemma CapacityMonotone(pixelCount: nat, d: int, e: int)
    requires 1 <= d <= e <= 8 && HeaderPixels <= pixelCount && 32 * pixelCount < 0x8000_0000
    ensures Capacity(pixelCount, d) <= Capacity(pixelCount, e)
  {
    CapacityMeaning(pixelCount, d);
    CapacityMeaning(pixelCount, e);
    var c := 4 * pixelCount - HeaderChannels;
    var a, b := TotalBits(pixelCount, d) - HeaderChannels, TotalBits(pixelCount, e) - HeaderChannels;
    assert a == c * d && b == c * e;
    assert b == a + c * (e - d);
    MulNonNegative(c, e - d);
    DivMonotone(a, b);
  }

  lemma DivMonotone(a: int, b: int)
    requires 0 <= a <= b
    ensures a / 8 <= b / 8
  {
  }

  /** No clamping: the capacity is negative exactly when (pixels - 28) * d falls short of 518. */
  lemma CapacityNegative(pixelCount: nat, d: int)
    requires 1 <= d <= 8 && 32 * pixelCount < 0x8000_0000
    ensures Capacity(pixelCount, d) < 0 <==> (pixelCount - HeaderPixels) * d < 518
  {
    var x := (pixelCount - HeaderPixels) * 4 * d;
    assert -0x8000_0000 <= x < 0x8000_0000 by {
      assert -(HeaderPixels * 4 * d) <= x <= 32 * pixelCount;
    }
  }

  /**
   * The promise of the doc comment, as far as it holds: a file of at most
   * the capacity, under a name of at most 254 bytes, has a slot for every
   * bit of its buffer.
   */
  lemma CapacityFits(pixelCount: nat, d: int, fileLength: nat, nameLength: nat)
    requires 1 <= d <= 8 && HeaderPixels <= pixelCount && 32 * pixelCount < 0x8000_0000
    requires fileLength <= Capacity(pixelCount, d) && nameLength <= 254
    ensures 8 * (fileLength + 19 + nameLength) <= TotalBits(pixelCount, d)
  {
    CapacityMeaning(pixelCount, d);
  }

  /**
   * For every image with room for the header, a file of exactly the
   * capacity under a 255-byte name does not fit: its buffer needs more bits
   * than the pixels carry.
   */
  lemma CapacityShortForLongestName(pixelCount: nat, d: int)
    requires 1 <= d <= 8 && HeaderPixels <= pixelCount && 32 * pixelCount < 0x8000_0000
    ensures 8 * (Capacity(pixelCount, d) + 19 + 255) > TotalBits(pixelCount, d)
  {
    CapacityMeaning(pixelCount, d);
  }

  /**
   * The reserve of 259 bytes leaves out one of the 260 header bytes after
   * the first 14 (length byte, up to 255 name bytes, four length bytes):
   * whenever the channel bits after the header are a whole number of bytes,
   * a file of exactly the capacity under a 255-byte name is one byte short.
   */
  lemma CapacityOneByteShort(pixelCount: nat, d: int)
    requires 1 <= d <= 8 && HeaderPixels <= pixelCount && 32 * pixelCount < 0x8000_0000
    requires ((pixelCount - HeaderPixels) * d) % 2 == 0
    ensures 8 * (Capacity(pixelCount, d) + 19 + 255) == TotalBits(pixelCount, d) + 8
  {
    CapacityMeaning(pixelCount, d);
    var h := (pixelCount - HeaderPixels) * d / 2;
    assert (pixelCount - HeaderPixels) * d == 2 * h;
    assert TotalBits(pixelCount, d) - HeaderChannels == 8 * h;
  }

  /** The capacity with the whole 260-byte reserve. */
  function CapacityFixed(pixelCount: nat, d: int): int
  {
    TruncDiv8(Int32((pixelCount - HeaderPixels) * 4 * d)) - 260
  }

  /**
   * With the 260-byte reserve the promise holds for every name the
   * constructor accepts, and it is exact for a 255-byte name: one byte more
   * no longer fits.
   */
  lemma CapacityFixedExact(pixelCount: nat, d: int, fileLength: nat, nameLength: nat)
    requires 1 <= d <= 8 && HeaderPixels <= pixelCount && 32 * pixelCount < 0x8000_0000
    requires nameLength <= 255
    ensures fileLength <= CapacityFixed(pixelCount, d) ==> 8 * (fileLength + 19 + nameLength) <= TotalBits(pixelCount, d)
    ensures nameLength == 255 ==>
      (8 * (fileLength + 19 + nameLength) <= TotalBits(pixelCount, d) <==> fileLength <= CapacityFixed(pixelCount, d))
  {
    CapacityMeaning(pixelCount, d);
  }

  /**
   * The path `Write` saves to: "steg_" put before the last path component,
   * and everything from the last '.' replaced by ".png". None where
   * `substring` throws, which is exactly when the path holds no '.'.
   */
  function SteggedPath(path: seq<char>, separator: char): (r: Option<seq<char>>)
    ensures r.Some? <==> '.' in path
    ensures r.Some? ==> |r.value| >= 4 && r.value[|r.value| - 4..] == ".png"
  {
    var cut := LastIndexOf(path, separator) + 1;
    var newPath := path[..cut] + "steg_" + path[cut..];
    assert path == path[..cut] + path[cut..];
    assert '.' !in "steg_";
    var dot := LastIndexOf(newPath, '.');
    if dot < 0 then None else Some(newPath[..dot] + ".png")
  }

  /** The directory part of a path, up to and including its last separator. */
  function Directory(path: seq<char>, separator: char): (r: seq<char>)
    ensures |r| <= |path| && r == path[..|r|] && separator !in path[|r|..]
    ensures r == [] || r[|r| - 1] == separator
    ensures separator !in path ==> r == []
  {
    path[..LastIndexOf(path, separator) + 1]
  }

  /**
   * `Write` keeps the directory, puts "steg_" before the file name and
   * replaces its extension with ".png"; with no separator the whole path is
   * the file name.
   */
  lemma SteggedPathParts(path: seq<char>, separator: char)
    requires '.' in path[|Directory(path, separator)|..]
    ensures var dir := Directory(path, separator); var name := path[|dir|..];
      SteggedPath(path, separator) == Some(dir + "steg_" + name[..LastIndexOf(name, '.')] + ".png")
  {
    var cut := LastIndexOf(path, separator) + 1;
    var dir, name := path[..cut], path[cut..];
    var head := dir + "steg_";
    assert dir + "steg_" + name == head + name;
    LastIndexOfAppend(head, name, '.');
    PrefixOfAppend(head, name, LastIndexOf(name, '.'));
  }

  /** Cutting a + b inside b keeps all of a. */
  lemma PrefixOfAppend<T>(a: seq<T>, b: seq<T>, k: nat)
    requires k <= |b|
    ensures (a + b)[..|a| + k] == a + b[..k]
  {
  }

  /**
   * As written, a '.' in the directory but none in the file name cuts the
   * path inside the directory: "./photo" with separator '/' gives ".png",
   * and the "steg_" name is lost.
   */
  lemma SteggedPathDotInDirectory(path: seq<char>, separator: char)
    requires '.' in Directory(path, separator) && '.' !in path[|Directory(path, separator)|..]
    ensures var dir := Directory(path, separator);
      SteggedPath(path, separator) == Some(dir[..LastIndexOf(dir, '.')] + ".png")
  {
    var dir := Directory(path, separator);
    var name := path[|dir|..];
    assert path == dir + name;
    LastIndexOfAppend(dir, "steg_" + name, '.');
    assert dir + "steg_" + name == dir + ("steg_" + name);
    var li := LastIndexOf(dir, '.');
    assert (dir + ("steg_" + name))[..li] == dir[..li];
  }

  /** The output path with the extension cut only from the file name, and ".png" appended when it has none. */
  function SteggedPathFixed(path: seq<char>, separator: char): seq<char>
  {
    var dir := Directory(path, separator);
    var name := path[|dir|..];
    dir + "steg_" + (if '.' in name then name[..LastIndexOf(name, '.')] else name) + ".png"
  }

  /**
   * The corrected path always stays in the directory, starts the name with
   * "steg_" and ends in ".png", and agrees with `Write` whenever the file
   * name has an extension.
   */
  lemma SteggedPathFixedAgrees(path: seq<char>, separator: char)
    ensures var dir, r := Directory(path, separator), SteggedPathFixed(path, separator);
      && |r| >= |dir| + 9 && r[..|dir| + 5] == dir + "steg_" && r[|r| - 4..] == ".png"
      && ('.' in path[|dir|..] ==> SteggedPath(path, separator) == Some(r))
  {
    if '.' in path[|Directory(path, separator)|..] {
      SteggedPathParts(path, separator);
    }
  }
}
