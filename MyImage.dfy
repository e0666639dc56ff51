/**
 * MyImage: the image `hideInImage` loads to hide a file in and the
 * extractor loads to read one from. Its capacity table counts
 * every channel at each depth, in bits, and `Write` saves it under its path
 * with ".png" appended (loading and saving are not modelled).
 */
module MyImages {
  import opened Bits
  import opened Strings
  import opened Channels

  /**
   * Entry d-1 of GetCapacity: four channels per pixel at d bits each, as a
   * Java int. Wrapping keeps it a multiple of 4.
   */
  function BitCapacity(pixelCount: nat, d: int): (r: int)
    ensures -0x8000_0000 <= r < 0x8000_0000 && r % 4 == 0
  {
    var x := pixelCount * 4 * d;
    assert x == 4 * (pixelCount * d);
    WrapKeepsMultipleOfFour(x, Int32(x));
    Int32(x)
  }

  /** Wrapping modulo 2^32 keeps a multiple of 4 a multiple of 4. */
  lemma WrapKeepsMultipleOfFour(x: int, r: int)
    requires x % 4 == 0 && (r - x) % 0x1_0000_0000 == 0
    ensures r % 4 == 0
  {
    var k := (r - x) / 0x1_0000_0000;
    assert r == x + 4 * (0x4000_0000 * k);
  }

  /**
   * The path `Write` saves to: ".png" appended to the whole path, not put in
   * place of an extension. The old path stays a prefix, and the '.' of
   * ".png" is the last one.
   */
  function PngPath(path: seq<char>): (r: seq<char>)
    ensures LastIndexOf(r, '.') == |path| && |r| == |path| + 4 && r[..|path|] == path
  {
    LastIndexOfAppend(path, ".png", '.');
    assert LastIndexOf(".png", '.') == 0;
    path + ".png"
  }

  class MyImage {
    var pixels: array<Word>
    const path: seq<char>

    /** The image at `path`, whose pixels are `pixels` once loaded. */
    constructor (path: seq<char>, pixels: array<Word>)
      ensures this.path == path && this.pixels == pixels
    {
      this.path := path;
      this.pixels := pixels;
    }

    /** The bits each depth 1 .. 8 can address in this image. */
    method GetCapacity() returns (capacities: array<int>)
      ensures fresh(capacities) && capacities.Length == 8
      ensures forall d | 1 <= d <= 8 :: capacities[d - 1] == BitCapacity(pixels.Length, d)
    {
      capacities := new int[8];
      var numPixels := pixels.Length;
      for i := 1 to 9
        invariant forall d | 1 <= d < i :: capacities[d - 1] == BitCapacity(pixels.Length, d)
      {
        capacities[i - 1] := Int32(numPixels * 4 * i);
      }
    }
  }

  /**
   * Below 2^26 pixels no entry overflows: the entry for depth d is exactly
   * four channels times d bits per pixel, so the entry for depth 8 is 32
   * bits per pixel.
   */
  lemma BitCapacityExact(pixelCount: nat, d: int)
    requires 1 <= d <= 8 && 32 * pixelCount < 0x8000_0000
    ensures BitCapacity(pixelCount, d) == 4 * pixelCount * d
  {
    var c := 4 * pixelCount;
    MulNonNegative(c, d);
    MulNonNegative(c, 8 - d);
    assert c * 8 == c * d + c * (8 - d);
  }

  /** Without int overflow, the entry for depth d is d times the entry for depth 1. */
  lemma BitCapacityScales(pixelCount: nat, d: int)
    requires 1 <= d <= 8 && 32 * pixelCount < 0x8000_0000
    ensures BitCapacity(pixelCount, d) == d * BitCapacity(pixelCount, 1)
  {
    BitCapacityExact(pixelCount, 1);
    BitCapacityExact(pixelCount, d);
  }

  /** Without int overflow, the entries grow with the depth. */
  lemma BitCapacityMonotone(pixelCount: nat, d: int, e: int)
    requires 1 <= d <= e <= 8 && 32 * pixelCount < 0x8000_0000
    ensures BitCapacity(pixelCount, d) <= BitCapacity(pixelCount, e)
  {
    var c := 4 * pixelCount;
    BitCapacityExact(pixelCount, d);
    BitCapacityExact(pixelCount, e);
    assert c * e == c * d + c * (e - d);
    MulNonNegative(c, e - d);
  }

  /**
   * The table counts the 112 header channels at depth d too, though the
   * packer writes one bit into each: it exceeds the bits the packer has
   * slots for by 112 (d - 1).
   */
  lemma BitCapacityOvercounts(pixelCount: nat, d: int)
    requires 1 <= d <= 8 && 4 * pixelCount >= HeaderChannels && 32 * pixelCount < 0x8000_0000
    ensures BitCapacity(pixelCount, d) == TotalBits(pixelCount, d) + HeaderChannels * (d - 1)
  {
    BitCapacityExact(pixelCount, d);
  }
}
