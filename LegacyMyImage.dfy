/**
 * The earlier copy of MyImage: the same capacity table and output path, a
 * getter for the pixels, and an extraction entry point left as a stub.
 */
module LegacyImages {
  import opened Bits
  import opened MyImages

  class MyImage {
    var pixels: array<Word>
    const path: seq<char>

    /** The image at `path`, whose pixels are `pixels` once loaded. */
    constructor (path: seq<char>, pixels: array<Word>)
      ensures this.path == path && this.pixels == pixels
    {
      this.path := path;
      this.pixels := pixels;
    }

    /** The bits each depth 1 .. 8 can address in this image. */
    method GetCapacity() returns (capacities: array<int>)
      ensures fresh(capacities) && capacities.Length == 8
      ensures forall d | 1 <= d <= 8 :: capacities[d - 1] == BitCapacity(pixels.Length, d)
    {
      capacities := new int[8];
      var numPixels := pixels.Length;
      for i := 1 to 9
        invariant forall d | 1 <= d < i :: capacities[d - 1] == BitCapacity(pixels.Length, d)
      {
        capacities[i - 1] := Int32(numPixels * 4 * i);
      }
    }

    /** The pixel array itself, not a copy: writes through it change the image. */
    method GetPixels() returns (r: array<Word>)
      ensures r == pixels
    {
      return pixels;
    }

    /** A stub: it reads nothing and changes nothing. */
    method ExtractFile()
      ensures unchanged(this) && unchanged(pixels)
    {
      var i := 0;
    }
  }
}
