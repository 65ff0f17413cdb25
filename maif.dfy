/** The MAIF image decoder: a single forward pass over the bytes of a stream
    that reads width, height, a 24-character timestamp and then one pixel per
    remaining byte, all by position. */
module Maif {
  import opened Binary

  /** Number of header bytes: width, height and the 24 timestamp bytes. */
  const HeaderLength := 26
  /** 0-based offset of the first timestamp byte. */
  const TimestampStart := 2

  datatype Header = Header(width: Byte, height: Byte, datetime: string)

  /** One pixel. `alphaNumerator` is the integer the source divides by 128
      to get its intensity. */
  datatype Pixel = Pixel(toneSign: bool, alphaNumerator: nat)
  {
    /** The intensity as an exact rational, numerator over 128. */
    function Alpha(): real
    {
      alphaNumerator as real / 128.0
    }
  }

  datatype Image = Image(header: Header, pixels: seq<Pixel>)

  /** `byte as char`: the character whose code point is the byte's value. */
  function ByteChar(b: Byte): (c: char)
    ensures c as int == b
  {
    b as char
  }

  function Chars(s: seq<Byte>): (t: string)
  {
    seq(|s|, i requires 0 <= i < |s| => ByteChar(s[i]))
  }

  /** The pixel one byte encodes, read by arithmetic rather than through
      text: the sign is the most significant bit, the numerator the low
      seven bits. */
  function PixelOf(b: Byte): Pixel
  {
    Pixel(b >= 128, b % 128)
  }

  function Pixels(s: seq<Byte>): seq<Pixel>
  {
    seq(|s|, i requires 0 <= i < |s| => PixelOf(s[i]))
  }

  /** What decoding the stream `s` produces, field by field. A field the
      stream is too short to reach keeps its default (0 or the empty text). */
  function Decode(s: seq<Byte>): Image
  {
    Image(
      Header(
        if |s| >= 1 then s[0] else 0,
        if |s| >= 2 then s[1] else 0,
        if |s| >= HeaderLength then Chars(s[TimestampStart..HeaderLength]) else ""),
      if |s| > HeaderLength then Pixels(s[HeaderLength..]) else [])
  }

  /** `MAIFImage::from_reader`, with the already-read stream as its input.
      The locals are the source's: `w`, `h`, `dt`, the 1-based position
      `byteN`, the pixel list `pxs` and the timestamp buffer `buffer`. */
  method FromReader(bytes: seq<Byte>) returns (img: Image)
    ensures img == Decode(bytes)
  {
    var w: Byte := 0;
    var h: Byte := 0;
    var dt: string := "";
    var byteN: nat := 1;
    var pxs: seq<Pixel> := [];
    var buffer: seq<char> := [];

    for k := 0 to |bytes|
      invariant byteN == k + 1
      invariant w == if k >= 1 then bytes[0] else 0
      invariant h == if k >= 2 then bytes[1] else 0
      invariant dt == if k >= HeaderLength then Chars(bytes[TimestampStart..HeaderLength]) else ""
      invariant buffer == if TimestampStart <= k < HeaderLength then Chars(bytes[TimestampStart..k]) else []
      invariant pxs == if k > HeaderLength then Pixels(bytes[HeaderLength..k]) else []
    {
      var byte := bytes[k];
      var byteStr := Format(byte);
      byteStr := PadWithZeros(byteStr);

      if byteN == 0 {
        assert false;  // the `0 =>` arm: the position starts at 1
      } else if byteN == 1 {
        w := byte;
      } else if byteN == 2 {
        h := byte;
      } else if byteN <= 25 {
        CharsExtend(bytes, TimestampStart, k);
        buffer := buffer + [ByteChar(byte)];
      } else if byteN == 26 {
        CharsExtend(bytes, TimestampStart, k);
        buffer := buffer + [ByteChar(byte)];
        dt := buffer;
        buffer := [];
      } else {
        var px := ReadPixel(byte, byteStr);
        PixelsExtend(bytes, HeaderLength, k);
        pxs := pxs + [px];
      }

      byteN := byteN + 1;
    }
    if |bytes| > HeaderLength {
      assert bytes[HeaderLength..|bytes|] == bytes[HeaderLength..];
    }
    img := Image(Header(w, h, dt), pxs);
  }

  /** The `MAIFPixel` literal of the pixel arm: the sign is whether the
      padded text starts with "1", the numerator the parse of the other seven
      characters. `byte` only names the value the text was rendered from. */
  method ReadPixel(byte: Byte, byteStr: string) returns (px: Pixel)
    requires byteStr == Padded8(Format(byte))
    ensures px == PixelOf(byte)
  {
    PaddedFields(byte);
    // `unwrap()` cannot fail: the seven low characters always parse
    var numerator := ParseU8(byteStr[1..]).value;
    px := Pixel(byteStr[0..1] == "1", numerator);
  }

  lemma CharsExtend(s: seq<Byte>, i: nat, k: nat)
    requires i <= k < |s|
    ensures Chars(s[i..k + 1]) == Chars(s[i..k]) + [ByteChar(s[k])]
  {
  }

  lemma PixelsExtend(s: seq<Byte>, i: nat, k: nat)
    requires i <= k < |s|
    ensures Pixels(s[i..k + 1]) == Pixels(s[i..k]) + [PixelOf(s[k])]
  {
  }
}
