# MAIF decoder, modelled in Dafny

MAIF is a small raster image container. `MAIFImage::from_reader` reads a
stream once, front to back, and gives each byte a meaning by its 1-based
position: byte 1 is the width, byte 2 the height, bytes 3 to 26 are buffered
and become the 24-character timestamp when byte 26 arrives, and every later
byte becomes one pixel. A pixel byte is rendered as binary text with `{:b}`,
padded with '0' on the left to eight characters, and read back: the first
character gives the sign (`tone_sign`), the other seven are parsed in base 2
and divided by 128 to give the intensity (`alpha_channel`).

Files:

- `binary.dfy` (module `Binary`): the byte type, `{:b}` rendering (`Format`),
  the padding loop (`PadWithZeros`, specified by `Padded8`),
  `u8::from_str_radix(_, 2)` (`ParseU8`), and the lemmas that rendering,
  padding and parsing give back the byte, its top bit and its low seven bits.
- `maif.dfy` (module `Maif`): `Header`, `Pixel` and `Image`; `Decode`, the
  decoded image as a function of the stream, read with arithmetic; and
  `FromReader`, the decoder loop with the source's own locals (`w`, `h`, `dt`,
  `byteN`, `pxs`, `buffer`) and its text round trip, proved to return
  `Decode(bytes)`.
- `properties.dfy` (module `MaifProperties`): what a decoded image holds,
  position by position; how appending bytes after the header extends the
  pixels; an encoder for the same layout with round trips in both
  directions; and two worked streams.

The stream is a `seq<Byte>` that is already in memory. A pixel keeps the
integer numerator of its intensity; `Pixel.Alpha()` is that numerator over
128 as an exact real.

Two consequences of the code worth knowing:

- The numerator has seven bits, so the intensity is at most 127/128
  (`MaifProperties.AlphaBound`).
- The timestamp is always bytes 3 to 26, whatever they hold. The 24-byte
  stream 2, 3, "2024-01-01T00:00:00Z", 0x80, 0x40 never reaches position 26
  and decodes to an empty timestamp and no pixels
  (`MaifProperties.ShortTimestampScenario`). With four or more bytes after
  such a 20-character timestamp, the first four become timestamp characters
  and the pixels start after them (`MaifProperties.ShiftedTimestampScenario`).
  With the 24-character "2024-01-01T00:00:00.000Z" the stream decodes to the
  full header and two pixels (`MaifProperties.Scenario`).

The proof about the source's loop is `Maif.FromReader`'s postcondition
`img == Decode(bytes)`, together with the `Binary` lemmas it uses for the
text round trip. `MaifProperties.Dimensions`, `Timestamp` and `PixelLayout`
unfold `Decode` and state, position by position, what that equation means for
the decoder's output; the lemmas after them (appending, concatenation, the
encoder round trips) are consequences of the same definition.

## Model

| member | source | states |
|---|---|---|
| Maif.FromReader | src/lib.rs:26-71 | the decoder loop over the stream returns exactly `Decode(bytes)`: the `0 =>` arm is unreachable, the `unwrap()` on the parse never fails, `byteN` is one more than the bytes consumed, and the buffer holds the timestamp bytes seen so far and is empty again after position 26 |
| Maif.ReadPixel | src/lib.rs:52-57 | the pixel literal built from the padded text (sign from its first character, numerator from parsing the other seven) is exactly the byte's pixel: sign set iff the byte is at least 128, numerator the byte modulo 128; the `unwrap()` never fails |
| Binary.Format | src/lib.rs:36 | `{:b}` gives at least one binary digit with no leading zero, exactly "0" for zero, and the digits read back as the number |
| Binary.FormatLength | src/lib.rs:36-38 | a value below 2^k renders in at most k digits, so a byte renders in at most eight |
| Binary.PadWithZeros | src/lib.rs:38-40 | the padding loop leaves the text with '0' inserted in front up to exactly eight characters, and leaves a text of eight or more unchanged |
| Binary.PaddedFormat | src/lib.rs:36-40 | a rendered and padded byte is eight binary digits that read back, and parse with `from_str_radix`, as the same byte |
| Binary.ParseU8 | src/lib.rs:55 | `u8::from_str_radix(_, 2)`: a successful parse means the text, after at most one leading '+', is a non-empty run of binary digits whose value is the result; a non-empty run of binary digits, with or without one leading '+', parses to its value when that is at most 255 and fails above 255 |
| Maif.ByteChar | src/lib.rs:46-48 | `byte as char` gives the character whose code point is the byte's value |
| Binary.PaddedFields | src/lib.rs:53-55 | the padded text's first character is '1' exactly when the byte is at least 128, and its last seven characters parse successfully to the byte modulo 128 |
| MaifProperties.Dimensions | src/lib.rs:27-28 | width is the first byte and height the second; each stays 0 when the stream is too short to reach it |
| MaifProperties.Timestamp | src/lib.rs:46-50 | with at least 26 bytes the timestamp has 24 characters, character i being byte 2 + i; with fewer it is empty and the buffered characters are dropped |
| MaifProperties.PixelLayout | src/lib.rs:52-57 | there are max(0, L - 26) pixels for L bytes, and pixel i comes from byte 26 + i, its sign set exactly when that byte is at least 128 and its numerator that byte modulo 128 |
| MaifProperties.AlphaBound | src/lib.rs:55 | every numerator is below 128, so every intensity lies between 0 and 127/128 |
| MaifProperties.MaskReading | src/lib.rs:53-55 | the sign is the bit under mask 0x80 and the numerator the bits under mask 0x7F |
| MaifProperties.AppendPixel | src/lib.rs:52-60 | once the header is read, one more byte appends exactly its own pixel and changes nothing else |
| MaifProperties.HeaderThenPixels | src/lib.rs:42-57 | bytes after position 26 never change the header, and the pixels of a concatenation are the pixels of each part |
| MaifProperties.DecodeEncode | src/lib.rs:42-57 | writing an image in the layout and decoding it gives the same image back |
| MaifProperties.EncodeDecode | src/lib.rs:42-57 | every stream of at least 26 bytes is the writing of what it decodes to, so no two such streams decode alike |
| MaifProperties.Scenario | src/lib.rs:42-57 | width 2, height 3, a 24-character timestamp and bytes 0x80, 0x40 decode to that header and the pixels (sign, 0) and (no sign, 64), the second with intensity 1/2 |
| MaifProperties.ShiftedTimestampScenario | src/lib.rs:46-57 | a 20-character timestamp followed by "ABCD", 0x80, 0x40 decodes to the timestamp extended by "ABCD" and the pixels (sign, 0) and (no sign, 64): bytes 3 to 26 are the timestamp whatever they hold |
| MaifProperties.ShortTimestampScenario | src/lib.rs:46-50 | the same stream with a 20-character timestamp stops short of position 26 and decodes to an empty timestamp and no pixels |

## Left out

- Opening the file, `BufReader`, `reader.bytes()` and the `unwrap()` on a read error (src/lib.rs:2-4, 34-35) are I/O; the model takes the bytes as an already-read sequence, so a read fault, which aborts the decode in the source, is not modelled.
- The `f64` division by 128.0 (src/lib.rs:55) is modelled as the exact rational numerator/128; every such value with a numerator of at most 127 is exact in `f64`, so nothing is lost.
- `byte_n` is a `usize` (pointer width: 2^32 - 1 or 2^64 - 1 at most) and the model uses an unbounded `nat`. A stream longer than that bound is not modelled: there a debug build panics on `byte_n += 1`, and a release build wraps `byte_n` to 0, takes the `0 =>` arm once and then overwrites `w`, `h` and the timestamp from the bytes that follow. That `0 =>` is unreachable holds only below this bound.
- Binary.ParseU8: the different `ParseIntError` kinds are folded into one `None`, since the decoder only unwraps the result and the model proves that it is never an error.
- Rust strings store characters above 0x7F as two UTF-8 bytes; the timestamp is modelled as its sequence of characters, which is what `buffer.iter().collect()` preserves.
- The `Debug` derives and the test module (src/lib.rs:6, 13, 19, 75-88) are left out: the test reads a fixed local file and only prints the result.
