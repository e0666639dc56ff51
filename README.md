# LSB steganography codec, modelled in Dafny

The program hides a file in the least significant bits of an image's pixels.
`HiddenFile` builds a buffer from the file:

- the 13-byte magic number "steganography";
- the depth (bits per colour channel, 1 to 8);
- the file name's length and the name;
- the file's length as a 4-byte little-endian field;
- the file's bytes.

`hideInImage` writes that buffer, least significant bit first, into the
pixels' colour channels (B, G, R, A of each 32-bit pixel). The first 14 bytes
(magic and depth) use one bit per channel. Every later channel carries
`bitsPerByte` bits. `ExtractFromImage` reads the bits back in the same
order and checks the magic number and the depth. It then recovers the name
and the file. `StegImage` reports how large a file each depth can hold and
where the stegged image is saved. The two `MyImage` classes (the current
one and a legacy copy) report a simpler capacity table.

The model is split into these modules:

- `Bits`: bytes, 32-bit pixel words as sequences of 32 booleans, and Java's
  `int` and `byte` arithmetic.
- `Channels`: which pixel bit carries which buffer bit.
- `Header`: the buffer layout and the `HiddenFile` constructor.
- `Packer`: `hideInImage`, as an in-place method on an array of words.
- `Unpacker`: `ExtractFromImage`, as a method over the pixels, proved against
  the function `Extract`.
- `RoundTrip`: what extraction gives back from packed pixels.
- `StegImages`, `MyImages`, `LegacyImages`: the image classes.
- `Strings` and `Wrappers`: small helpers.

The model follows the code as written, in particular:

- The length field holds the file's length in bits (`data.length * 8`), and the
  extractor divides it by 8. It is not a byte count.
- `hideInImage` never reports an image that is too small. It writes the
  prefix of the buffer that fits and stops.
- An extraction that runs out of pixels ends without any error. The model
  calls this outcome `Exhausted`.
- The extractor reads the filename length as a signed byte (see Findings).
- The capacity table reserves a fixed 259 bytes after the 14 header bytes, not
  the actual name length. It is not clamped at zero (see Findings).

## Model

| member | source | states |
|---|---|---|
| Bits.Assemble | src/main/java/cz/cuni/mff/hrbanh/steganography/HiddenFile.java:76-84 | the value that OR-ing each set bit's mask into `buffer` builds from n bits, least significant first, is below 2^n |
| Bits.AssembleBitsOf | src/main/java/cz/cuni/mff/hrbanh/steganography/HiddenFile.java:76-84 | a byte is the value of its eight bits: assembling the bits the packer's mask test reads (line 29), bit 0 first, gives the byte back |
| Bits.Signed8 | src/main/java/cz/cuni/mff/hrbanh/steganography/HiddenFile.java:95 | `(int)` of a Java byte: a value in -128 .. 127 congruent to the unsigned byte mod 256 |
| Bits.Signed32 | src/main/java/cz/cuni/mff/hrbanh/steganography/HiddenFile.java:112-115 | the int a 32-bit pattern denotes: in int range and congruent to the pattern mod 2^32 |
| Bits.Int32 | src/main/java/cz/cuni/mff/hrbanh/steganography/StegImage.java:36 | Java int multiplication wraps: the result is in int range, congruent to the exact product mod 2^32, and equal to it when it fits |
| Bits.TruncDiv8 | src/main/java/cz/cuni/mff/hrbanh/steganography/StegImage.java:37 | Java's `/ 8` truncates toward zero: for a >= 0, 8q <= a < 8q + 8; for a < 0, 8q - 8 < a <= 8q <= 0 |
| Channels.FirstBit | src/main/java/cz/cuni/mff/hrbanh/steganography/HiddenFile.java:26-47 | channel c's first buffer bit: c itself within the 112 header channels, at least 112 after them |
| Channels.Carried | src/main/java/cz/cuni/mff/hrbanh/steganography/HiddenFile.java:26-47 | the buffer bit plane q of channel c holds, if any, lies between FirstBit(c) and FirstBit(c + 1) |
| Channels.SlotCarries | src/main/java/cz/cuni/mff/hrbanh/steganography/HiddenFile.java:26-47 | every buffer bit has a slot (Channel, Plane) that carries it, in a plane below 8 |
| Channels.CarriedSlot | src/main/java/cz/cuni/mff/hrbanh/steganography/HiddenFile.java:26-47 | no slot carries two bits: a slot carrying t is (Channel(t), Plane(t)) |
| Channels.SlotOf | src/main/java/cz/cuni/mff/hrbanh/steganography/HiddenFile.java:28-47 | plane k of channel c, for k within the planes the loop visits (only plane 0 in the header), carries bit FirstBit(c) + k |
| Channels.FirstBitNext | src/main/java/cz/cuni/mff/hrbanh/steganography/HiddenFile.java:28-47 | a channel carries 1 bit in the header (the `break` at line 46) and bitsPerByte bits after it |
| Channels.FirstBitMonotone | src/main/java/cz/cuni/mff/hrbanh/steganography/HiddenFile.java:26-47 | later channels carry later bits |
| Channels.ChannelBelow | src/main/java/cz/cuni/mff/hrbanh/steganography/HiddenFile.java:26-47 | bit t lies in the first n channels exactly when t < FirstBit(n) |
| Channels.FitsIff | src/main/java/cz/cuni/mff/hrbanh/steganography/HiddenFile.java:26-47 | a buffer of n >= 14 bytes has a slot for every bit iff the pixels have 112 + ceil(8 (n - 14) / d) channels, both directions |
| Strings.LastIndexOf | src/main/java/cz/cuni/mff/hrbanh/steganography/StegImage.java:74-76 | `lastIndexOf`: -1 exactly when x is absent, otherwise an index holding x with no x after it |
| Strings.LastIndexOfAppend | src/main/java/cz/cuni/mff/hrbanh/steganography/StegImage.java:74-76 | the last x in a + b is in b when b has one, else the last x in a |
| Header.FileName | src/main/java/cz/cuni/mff/hrbanh/steganography/HiddenFile.java:143 | `path.substring(path.lastIndexOf('/') + 1)`: a suffix of the path with no '/', preceded by '/' when shorter than the path |
| Header.BitLength | src/main/java/cz/cuni/mff/hrbanh/steganography/HiddenFile.java:169 | `data.length * 8` as an unsigned 32-bit pattern: below 2^32, congruent to 8 * length mod 2^32 (the wrap-around), and the exact bit count when it fits |
| Header.LengthField | src/main/java/cz/cuni/mff/hrbanh/steganography/HiddenFile.java:169-176 | the four bytes `(byte)(fileSize >> 8*i)`; what they mean is stated by LengthFieldRoundTrip |
| Header.LittleEndian | src/main/java/cz/cuni/mff/hrbanh/steganography/HiddenFile.java:112-115 | four bytes OR-ed together little-endian form an unsigned value below 2^32 |
| Header.ReadLengthField | src/main/java/cz/cuni/mff/hrbanh/steganography/HiddenFile.java:112-116 | the length field as the extractor reads it: an int divided by 8 toward zero, within -2^28 .. 2^28 |
| Header.LengthFieldRoundTrip | src/main/java/cz/cuni/mff/hrbanh/steganography/HiddenFile.java:112-116 | the extractor reads back the byte count the constructor wrote at lines 169-176, for every file under 2^28 bytes |
| Header.Buffer | src/main/java/cz/cuni/mff/hrbanh/steganography/HiddenFile.java:147 | the buffer has 19 + name length + file length bytes |
| Header.BufferLayout | src/main/java/cz/cuni/mff/hrbanh/steganography/HiddenFile.java:147-179 | the magic number "steganography" of lines 13-14 in bytes 0..12, depth in 13, name length in 14, the name, the length field, then the file |
| Header.BufferAt | src/main/java/cz/cuni/mff/hrbanh/steganography/HiddenFile.java:147-179 | byte k of the buffer, field by field |
| Header.New | src/main/java/cz/cuni/mff/hrbanh/steganography/HiddenFile.java:142-180 | fails iff the depth is outside 1..8 or the name exceeds 255 bytes, the depth error first; on success the object holds the depth and the buffer of the file under its last path component |
| Header.FillBuffer | src/main/java/cz/cuni/mff/hrbanh/steganography/HiddenFile.java:150-179 | the array copies and the length loop leave exactly the buffer in a fresh array |
| Packer.PackedWords | src/main/java/cz/cuni/mff/hrbanh/steganography/HiddenFile.java:26-50 | the pixels with the first t buffer bits in their slots and every other bit kept, one word per pixel |
| Packer.Packed | src/main/java/cz/cuni/mff/hrbanh/steganography/HiddenFile.java:16-52 | the packer's specification: the pixels with every buffer bit that has a slot written into it and every other bit kept (a predicate; its meaning is given by PackedWords, PackedKeeps and PackedAll) |
| Packer.PackedNothing | src/main/java/cz/cuni/mff/hrbanh/steganography/HiddenFile.java:16-25 | before the first bit is written, nothing has changed |
| Packer.PackedBitStep | src/main/java/cz/cuni/mff/hrbanh/steganography/HiddenFile.java:29-35 | writing bit t changes only the one pixel bit whose slot carries t, to that buffer bit |
| Packer.PackStep | src/main/java/cz/cuni/mff/hrbanh/steganography/HiddenFile.java:29-35 | setting or clearing pixel bit k + 8j with buffer bit t extends the written prefix from t to t + 1 bits |
| Packer.PackedAll | src/main/java/cz/cuni/mff/hrbanh/steganography/HiddenFile.java:26-51 | once all channels are visited, every bit that has a slot is written |
| Packer.PackedKeeps | src/main/java/cz/cuni/mff/hrbanh/steganography/HiddenFile.java:28-35 | bits above the depth (above plane 0 in the header channels) and channels past the end of the buffer keep their old values |
| Packer.MaskedBit | src/main/java/cz/cuni/mff/hrbanh/steganography/HiddenFile.java:29 | `(buffer & bufferMask) != 0` with bufferMask = 1 << bit tests buffer bit 8 * data_ix + bit |
| Packer.HideInImage | src/main/java/cz/cuni/mff/hrbanh/steganography/HiddenFile.java:16-52 | the pixels end as the old pixels with every buffer bit that has a slot written into it and nothing else changed, whether or not the buffer fits |
| Packer.HideInChannel | src/main/java/cz/cuni/mff/hrbanh/steganography/HiddenFile.java:28-48 | one channel's planes: either the whole buffer is written (the `return img`), or the cursor and the written prefix advance to the next channel's first bit |
| Packer.WriteBit | src/main/java/cz/cuni/mff/hrbanh/steganography/HiddenFile.java:30-35 | setting or clearing bit k + 8j of pixel i to the buffer bit its slot carries extends the written prefix by one bit |
| Unpacker.HeaderCheck | src/main/java/cz/cuni/mff/hrbanh/steganography/HiddenFile.java:85-100 | a header that passes both checks yields a depth in 1..8 and at least 112 channels |
| Unpacker.Extract | src/main/java/cz/cuni/mff/hrbanh/steganography/HiddenFile.java:60-131 | the reference meaning of the extractor: the header checks, then the fields of every byte the pixels hold at the depth read (a definition; ExtractFromImage is proved equal to it and RoundTrip states what it gives on packed pixels) |
| Unpacker.ReadSlot | src/main/java/cz/cuni/mff/hrbanh/steganography/HiddenFile.java:72-75 | the bit `(pixels[i] & (1 << (j*8 + k))) != 0` is buffer bit FirstBit(4i + j) + k as Extract reads it |
| Unpacker.StreamBitsNext | src/main/java/cz/cuni/mff/hrbanh/steganography/HiddenFile.java:76-79 | one more bit adds itself, weighted 2^n, to the assembled buffer |
| Unpacker.DecodedNext | src/main/java/cz/cuni/mff/hrbanh/steganography/HiddenFile.java:80-84 | eight bits complete the next byte, appended to the bytes read |
| Unpacker.DecodedPrefix | src/main/java/cz/cuni/mff/hrbanh/steganography/HiddenFile.java:82 | reading fewer bytes reads a prefix |
| Unpacker.DecodedDepth | src/main/java/cz/cuni/mff/hrbanh/steganography/HiddenFile.java:94-99 | the first 14 bytes read the same at every depth, so the depth switch after byte 14 does not change them |
| Unpacker.FilenameLengthAt | src/main/java/cz/cuni/mff/hrbanh/steganography/HiddenFile.java:101-103 | the filename length the extractor holds: byte 14 read as a signed byte once 15 bytes are in, else 0 (a definition; FieldsStep states how it evolves) |
| Unpacker.FileNameAt | src/main/java/cz/cuni/mff/hrbanh/steganography/HiddenFile.java:104-110 | the output name: "extracted_" and bytes 15 .. 15 + fl once they are all in; empty when fl is negative, since line 104 never fires then (a definition) |
| Unpacker.DataLengthAt | src/main/java/cz/cuni/mff/hrbanh/steganography/HiddenFile.java:111-117 | the file length: the length field at bytes 15 + fl .. 19 + fl read as ReadLengthField once it is in, else 0; for fl in -4 .. -1 it overlaps the header (a definition) |
| Unpacker.Complete | src/main/java/cz/cuni/mff/hrbanh/steganography/HiddenFile.java:118 | the test at line 118: the bytes read hold the whole file the length field announces (a definition; FieldsStep proves it first holds exactly at 19 + fl + dl bytes) |
| Unpacker.Fields | src/main/java/cz/cuni/mff/hrbanh/steganography/HiddenFile.java:101-126 | the file the bytes read announce once complete, else Exhausted (a definition; FieldsPrefix and ExtractComplete state its meaning) |
| Unpacker.ReadBitHeader | src/main/java/cz/cuni/mff/hrbanh/steganography/HiddenFile.java:74-75 | a header bit is read from plane 0 of its own channel, whatever the depth |
| Unpacker.FieldsStep | src/main/java/cz/cuni/mff/hrbanh/steganography/HiddenFile.java:101-118 | how the filename length, name and length field change as byte n arrives, and that the file becomes complete exactly when n == 19 + fl + dl |
| Unpacker.FieldsPrefix | src/main/java/cz/cuni/mff/hrbanh/steganography/HiddenFile.java:118-126 | once a prefix holds the whole file, any longer read announces the same file |
| Unpacker.ExtractEarly | src/main/java/cz/cuni/mff/hrbanh/steganography/HiddenFile.java:85-126 | when a check ends the loop early (magic, depth or complete file), its outcome is Extract of the pixels |
| Unpacker.ExtractComplete | src/main/java/cz/cuni/mff/hrbanh/steganography/HiddenFile.java:118-126 | bytes that passed both header checks and hold the whole file give that file as Extract's outcome |
| Unpacker.ExtractExhausted | src/main/java/cz/cuni/mff/hrbanh/steganography/HiddenFile.java:130 | reading every slot with no check ending the loop means Extract is Exhausted |
| Unpacker.AtByteBoundary | src/main/java/cz/cuni/mff/hrbanh/steganography/HiddenFile.java:85-126 | the checks after a completed byte return exactly Verdict(data), keep the bit state, set the depth after byte 14 (with the `break`) and keep the fields settled |
| Unpacker.MagicMatches | src/main/java/cz/cuni/mff/hrbanh/steganography/HiddenFile.java:87-91 | the comparison loop succeeds iff the 13 bytes are the magic number |
| Unpacker.FieldChecks | src/main/java/cz/cuni/mff/hrbanh/steganography/HiddenFile.java:101-126 | the checks after the depth end the loop iff the file is complete, with Fields(data); otherwise the fields are what the bytes settle |
| Unpacker.TakeBit | src/main/java/cz/cuni/mff/hrbanh/steganography/HiddenFile.java:76-84 | one bit read: the buffer, mask and byte list are those of the first t + 1 stream bits; a completed byte is appended |
| Unpacker.ReadChannel | src/main/java/cz/cuni/mff/hrbanh/steganography/HiddenFile.java:74-127 | one channel's planes: either the outcome is Extract of the pixels, or the reader has read exactly the bits before the next channel |
| Unpacker.ReadPixel | src/main/java/cz/cuni/mff/hrbanh/steganography/HiddenFile.java:73-128 | one pixel's four lanes: either the outcome is Extract, or the reader has read exactly the bits before the next pixel |
| Unpacker.InvStart | src/main/java/cz/cuni/mff/hrbanh/steganography/HiddenFile.java:63-70 | the initial locals (empty list, mask 1, depth 1) have read nothing |
| Unpacker.ExtractFromImage | src/main/java/cz/cuni/mff/hrbanh/steganography/HiddenFile.java:60-131 | the extractor's outcome is Extract of the pixels: a wrong magic number, a bad depth, the file, or running out |
| RoundTrip.ReadPacked | src/main/java/cz/cuni/mff/hrbanh/steganography/HiddenFile.java:75 | reading a slot the packer wrote gives the buffer bit written there |
| RoundTrip.ByteAtPacked | src/main/java/cz/cuni/mff/hrbanh/steganography/HiddenFile.java:75-84 | a whole byte the packer wrote reads back unchanged |
| RoundTrip.DecodedPacked | src/main/java/cz/cuni/mff/hrbanh/steganography/HiddenFile.java:72-84 | the bytes read back from packed pixels are a prefix of the buffer |
| RoundTrip.HeaderPacked | src/main/java/cz/cuni/mff/hrbanh/steganography/HiddenFile.java:85-100 | packed pixels pass both header checks with the packer's depth, and read back the buffer as far as it fit |
| RoundTrip.FieldsOfBuffer | src/main/java/cz/cuni/mff/hrbanh/steganography/HiddenFile.java:101-126 | the fields of a whole buffer are "extracted_" + name and the file, for names under 128 bytes |
| RoundTrip.BufferIncomplete | src/main/java/cz/cuni/mff/hrbanh/steganography/HiddenFile.java:118 | no proper prefix of a buffer holds the whole file |
| RoundTrip.RoundTrip | src/main/java/cz/cuni/mff/hrbanh/steganography/HiddenFile.java:60-131 | extracting from pixels that `hideInImage` (lines 16-52) wrote gives the hidden file under "extracted_" + name iff its buffer fit; otherwise Exhausted |
| RoundTrip.SignedNameLengthLost | src/main/java/cz/cuni/mff/hrbanh/steganography/HiddenFile.java:102 | as written: a name of 128 to 251 bytes is read back as a negative length, and the file is never extracted however large the image |
| RoundTrip.LongNameNeverNamed | src/main/java/cz/cuni/mff/hrbanh/steganography/HiddenFile.java:101-110 | as written: no name of 128 to 255 bytes comes back; extraction runs out of pixels, or for 252 to 255 bytes may announce a file with an empty name |
| RoundTrip.RoundTripUnsigned | src/main/java/cz/cuni/mff/hrbanh/steganography/HiddenFile.java:101-103 | with the length byte read unsigned, every name the constructor accepts (up to 255 bytes) round-trips |
| StegImages.StegImage.constructor | src/main/java/cz/cuni/mff/hrbanh/steganography/StegImage.java:61-64 | the image keeps its path and pixels |
| StegImages.Capacity | src/main/java/cz/cuni/mff/hrbanh/steganography/StegImage.java:34-38 | entry d - 1 in Java int arithmetic (wrapping product, truncating / 8); the final `-= 259` never leaves the int range |
| StegImages.StegImage.GetCapacity | src/main/java/cz/cuni/mff/hrbanh/steganography/StegImage.java:32-41 | a fresh table of 8 entries, entry d - 1 being Capacity(pixels, d) in Java int arithmetic |
| StegImages.CapacityMeaning | src/main/java/cz/cuni/mff/hrbanh/steganography/StegImage.java:32-41 | without overflow, the capacity is the bytes the channels after the 112 header channels hold at depth d, less 259 |
| StegImages.CapacityMonotone | src/main/java/cz/cuni/mff/hrbanh/steganography/StegImage.java:35-39 | without overflow, a higher depth never lowers the capacity |
| StegImages.CapacityNegative | src/main/java/cz/cuni/mff/hrbanh/steganography/StegImage.java:32-41 | the entry is negative exactly when (pixels - 28) * d < 518; nothing clamps it |
| StegImages.CapacityFits | src/main/java/cz/cuni/mff/hrbanh/steganography/StegImage.java:27-31 | a file no larger than the capacity, under a name of at most 254 bytes, has a slot for every buffer bit |
| StegImages.CapacityOneByteShort | src/main/java/cz/cuni/mff/hrbanh/steganography/StegImage.java:38 | as written: when the post-header bits are a whole number of bytes, a file of exactly the capacity under a 255-byte name is one byte too big |
| StegImages.CapacityShortForLongestName | src/main/java/cz/cuni/mff/hrbanh/steganography/StegImage.java:38 | as written, for every image of at least 28 pixels: a file of exactly the capacity under a 255-byte name needs more bits than the pixels carry |
| StegImages.CapacityFixedExact | src/main/java/cz/cuni/mff/hrbanh/steganography/StegImage.java:38 | with a 260-byte reserve, every accepted name fits, and for a 255-byte name the capacity is exact (one byte more does not fit) |
| StegImages.SteggedPath | src/main/java/cz/cuni/mff/hrbanh/steganography/StegImage.java:73-76 | the output path of `Write`: defined exactly when the path holds a '.', since `substring(0, -1)` throws otherwise, and then ending in ".png" |
| StegImages.Directory | src/main/java/cz/cuni/mff/hrbanh/steganography/StegImage.java:74 | the prefix up to and including the last separator: no separator after it, empty when there is none |
| StegImages.SteggedPathParts | src/main/java/cz/cuni/mff/hrbanh/steganography/StegImage.java:73-76 | when the file name has a '.', the output path is the directory, "steg_", the name up to its last '.', and ".png" |
| StegImages.SteggedPathDotInDirectory | src/main/java/cz/cuni/mff/hrbanh/steganography/StegImage.java:76 | as written: a '.' only in the directory cuts the path inside the directory ("./photo" gives ".png") |
| StegImages.SteggedPathFixedAgrees | src/main/java/cz/cuni/mff/hrbanh/steganography/StegImage.java:73-76 | the corrected path always lies in the directory, starts the name with "steg_", ends in ".png", and agrees with Write when the name has an extension |
| MyImages.MyImage.constructor | src/main/java/cz/cuni/mff/hrbanh/steganography/MyImage.java:30-33 | the image keeps its path and pixels |
| MyImages.BitCapacity | src/main/java/cz/cuni/mff/hrbanh/steganography/MyImage.java:17-19 | entry d - 1, `numPixels * 4 * i` as a Java int: in int range and, wrapped or not, a multiple of 4 |
| MyImages.MyImage.GetCapacity | src/main/java/cz/cuni/mff/hrbanh/steganography/MyImage.java:14-22 | a fresh table of 8 entries, entry d - 1 being `numPixels * 4 * d` as a Java int |
| MyImages.BitCapacityExact | src/main/java/cz/cuni/mff/hrbanh/steganography/MyImage.java:19 | below 2^26 pixels no entry overflows: entry d is 4 * pixels * d |
| MyImages.BitCapacityScales | src/main/java/cz/cuni/mff/hrbanh/steganography/MyImage.java:18-20 | without overflow, entry d is d times entry 1 |
| MyImages.BitCapacityMonotone | src/main/java/cz/cuni/mff/hrbanh/steganography/MyImage.java:18-20 | without overflow, the entries grow with the depth |
| MyImages.BitCapacityOvercounts | src/main/java/cz/cuni/mff/hrbanh/steganography/MyImage.java:19 | the table counts the 112 header channels at depth d too: it exceeds the packer's slots by 112 (d - 1) |
| MyImages.PngPath | src/main/java/cz/cuni/mff/hrbanh/steganography/MyImage.java:37 | ".png" is appended, not substituted: the old path stays a prefix and the '.' of ".png" is the last one (the legacy copy's line 43 is the same) |
| LegacyImages.MyImage.constructor | src/cz/cuni/mff/hrbanh/steganography/MyImage.java:35-38 | the image keeps its path and pixels |
| LegacyImages.MyImage.GetCapacity | src/cz/cuni/mff/hrbanh/steganography/MyImage.java:14-23 | the same table as the current MyImage: entry d - 1 is BitCapacity(pixels, d) |
| LegacyImages.MyImage.GetPixels | src/cz/cuni/mff/hrbanh/steganography/MyImage.java:25-27 | returns the pixel array itself, not a copy |
| LegacyImages.MyImage.ExtractFile | src/cz/cuni/mff/hrbanh/steganography/MyImage.java:48-67 | the stub changes nothing |

## Left out

- Image and file I/O (`Load`, `ImageIO`, `Write`'s save, `ReadFileBin`, `WriteToFile`) is not modelled. Pixels and file contents are parameters, and the extracted file is a result.
- `Main.java` (both copies) and `minesweeper.py` are not part of this model.
- Character encoding is not modelled. Names are sequences of bytes, one byte per character, as `getBytes` and `new String` give for ASCII names.
- `File.separator` is a parameter of the path functions.
- Exceptions are results: `Header.New` returns an `Error`, and the extractor returns `MagicMismatch` or `BitsPerByteInvalid`. `SteggedPath` returns `None` where `substring` throws.
- Header.New: runs both argument checks before it fills the buffer. The source writes the magic number first, but nothing can observe that when it throws.
- Header.New: requires the buffer length to stay below 2^31, because Java would overflow the array size.
- StegImages.CapacityMeaning: assumes no int overflow (32 * pixels < 2^31). Other capacity lemmas assume the same; `Capacity` itself models the wrap-around.
- RoundTrip.RoundTrip: assumes 8 * file length < 2^31, so the bit-count length field does not overflow.
- Packer.HideInImage: requires a buffer of at least one byte and a depth in 1..8. These are the invariant of a constructed `HiddenFile`.
- The nested loops are split into helper methods per channel and per pixel. The `break` and `return` become returns of those methods.
- The extractor's copy loops for the name and the file are modelled as sequence slices.
- `bufferMask` is kept as its bit position, not its value `1 << bit`.
- LegacyImages.MyImage.ExtractFile: its body is commented out in the source, so the model does nothing.

## Findings

| source | as written | input that shows it | evidently intended | confidence | as-written member | corrected member |
|---|---|---|---|---|---|---|
| src/main/java/cz/cuni/mff/hrbanh/steganography/HiddenFile.java:102 | `filenameLength = data.get(14)` reads the name length as a signed byte | any file whose name has 128 to 251 bytes, in an image large enough for its buffer: the length reads as negative, and extraction never completes. For 252 to 255 bytes the length reads as -4 .. -1, the length field is read from bytes 11 .. 17 (magic, depth and name bytes), and extraction either never completes or announces a file with an empty name (RoundTrip.LongNameNeverNamed) | read the byte unsigned (`& 0xFF`), as the constructor writes up to 255 | not executed | RoundTrip.SignedNameLengthLost | RoundTrip.RoundTripUnsigned |
| src/main/java/cz/cuni/mff/hrbanh/steganography/StegImage.java:38 | the capacity subtracts 259 bytes for the header after byte 14 | 287 pixels at depth 2, a 255-byte name: capacity 0, but an empty file needs 2192 bits and the image has 2184. Every image of at least 28 pixels falls short for a 255-byte name (StegImages.CapacityShortForLongestName) | subtract 260 (length byte, 255 name bytes, 4 length bytes) | not executed | StegImages.CapacityOneByteShort | StegImages.CapacityFixedExact |
| src/main/java/cz/cuni/mff/hrbanh/steganography/StegImage.java:76 | the extension is cut at the last '.' of the whole path | "./photo" with separator '/': the output path is ".png" | cut only a '.' in the file name, giving "./steg_photo.png" | not executed | StegImages.SteggedPathDotInDirectory | StegImages.SteggedPathFixedAgrees |
