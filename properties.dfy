/** What the MAIF layout promises about a decoded image, stated over
    `Maif.Decode`, which `Maif.FromReader` is proved to compute. */
module MaifProperties {
  import opened Binary
  import opened Maif

  /** The header fields come from fixed positions: width from the first
      byte, height from the second, each left at 0 if the stream ends first. */
  lemma Dimensions(s: seq<Byte>)
    ensures Decode(s).header.width == (if |s| >= 1 then s[0] else 0)
    ensures Decode(s).header.height == (if |s| >= 2 then s[1] else 0)
  {
  }

  /** The timestamp is the 24 bytes at offsets 2..25, as characters in
      stream order, once the stream holds them; otherwise it is empty and
      the characters already buffered are dropped. */
  lemma Timestamp(s: seq<Byte>)
    ensures |s| >= HeaderLength ==>
      |Decode(s).header.datetime| == 24 &&
      forall i :: 0 <= i < 24 ==> Decode(s).header.datetime[i] as int == s[TimestampStart + i]
    ensures |s| < HeaderLength ==> Decode(s).header.datetime == ""
  {
  }

  /** One pixel for every byte after the 26th, none for the header bytes,
      and pixel i comes from byte 26 + i with its sign the top bit and its
      numerator the low seven bits. */
  lemma PixelLayout(s: seq<Byte>)
    ensures |Decode(s).pixels| == if |s| > HeaderLength then |s| - HeaderLength else 0
    ensures forall i :: 0 <= i < |Decode(s).pixels| ==>
      (Decode(s).pixels[i].toneSign <==> s[HeaderLength + i] >= 128) &&
      Decode(s).pixels[i].alphaNumerator == s[HeaderLength + i] % 128
  {
  }

  /** Every intensity is at most 127/128: the numerator has only seven bits. */
  lemma AlphaBound(s: seq<Byte>)
    ensures forall p :: p in Decode(s).pixels ==>
      p.alphaNumerator < 128 && 0.0 <= p.Alpha() <= 127.0 / 128.0
  {
  }

  /** The same pixel read with bit masks: the sign is the bit under mask
      0x80 and the numerator the bits under mask 0x7F. */
  lemma MaskReading(x: bv8)
    ensures PixelOf(x as int) == Pixel(x & 0x80 != 0, (x & 0x7F) as int)
  {
    MaskBits(x);
    if x >= 0x80 {
      assert (x - 0x80) as int == x as int - 128;
    }
    assert (x as int >= 128) == (x & 0x80 != 0);
    assert x as int % 128 == (x & 0x7F) as int;
  }

  lemma MaskBits(x: bv8)
    ensures (x & 0x80 != 0) == (x >= 0x80)
    ensures x & 0x7F == if x >= 0x80 then x - 0x80 else x
  {
  }

  /** Feeding one more byte to a stream that already holds the header
      appends exactly that byte's pixel and changes nothing else. */
  lemma {:induction false} AppendPixel(s: seq<Byte>, b: Byte)
    requires |s| >= HeaderLength
    ensures Decode(s + [b]).header == Decode(s).header
    ensures Decode(s + [b]).pixels == Decode(s).pixels + [PixelOf(b)]
  {
    assert (s + [b])[TimestampStart..HeaderLength] == s[TimestampStart..HeaderLength];
    assert (s + [b])[HeaderLength..] == s[HeaderLength..] + [b];
  }

  /** Bytes after the header never reach it: the header of a stream is the
      header of its first 26 bytes, and the pixels of a concatenation are the
      pixels of each part. */
  lemma {:induction false} HeaderThenPixels(s: seq<Byte>, t: seq<Byte>)
    requires |s| >= HeaderLength
    ensures Decode(s + t).header == Decode(s).header
    ensures Decode(s + t).pixels == Decode(s).pixels + Pixels(t)
  {
    var st := s + t;
    assert st[0] == s[0] && st[1] == s[1];
    assert st[TimestampStart..HeaderLength] == s[TimestampStart..HeaderLength];
    assert st[HeaderLength..] == s[HeaderLength..] + t;
    PixelsConcat(s[HeaderLength..], t);
    assert Decode(s).pixels == Pixels(s[HeaderLength..]);
    assert Decode(st).pixels == Pixels(st[HeaderLength..]);
  }

  lemma PixelsConcat(a: seq<Byte>, b: seq<Byte>)
    ensures Pixels(a + b) == Pixels(a) + Pixels(b)
  {
  }


  /** The stream laid out forward: the bytes an image decodes from. An image
      can be written only when its timestamp has 24 characters below code
      point 256 and every numerator fits in seven bits. */
  predicate Writable(img: Image)
  {
    |img.header.datetime| == 24 &&
    (forall i :: 0 <= i < 24 ==> img.header.datetime[i] as int < 256) &&
    forall i :: 0 <= i < |img.pixels| ==> img.pixels[i].alphaNumerator < 128
  }

  function PixelByte(p: Pixel): Byte
    requires p.alphaNumerator < 128
  {
    (if p.toneSign then 128 else 0) + p.alphaNumerator
  }

  function Encode(img: Image): (s: seq<Byte>)
    requires Writable(img)
    ensures |s| == HeaderLength + |img.pixels|
  {
    [img.header.width, img.header.height]
    + seq(24, i requires 0 <= i < 24 => img.header.datetime[i] as int as Byte)
    + seq(|img.pixels|, i requires 0 <= i < |img.pixels| => PixelByte(img.pixels[i]))
  }

  /** Decoding undoes writing: the layout loses nothing an image holds. */
  lemma DecodeEncode(img: Image)
    requires Writable(img)
    ensures Decode(Encode(img)) == img
  {
    var s := Encode(img);
    var d := Decode(s);
    assert d.header.datetime == img.header.datetime;
    assert d.pixels == img.pixels by {
      if |img.pixels| == 0 {
        assert d.pixels == [];
      } else {
        forall i | 0 <= i < |img.pixels| ensures d.pixels[i] == img.pixels[i] {
          assert s[HeaderLength + i] == PixelByte(img.pixels[i]);
        }
      }
    }
  }

  /** Every stream that holds the full header is the writing of what it
      decodes to: the decoder is injective on such streams. */
  lemma EncodeDecode(s: seq<Byte>)
    requires |s| >= HeaderLength
    ensures Writable(Decode(s)) && Encode(Decode(s)) == s
  {
    var d := Decode(s);
    assert Writable(d);
    var e := Encode(d);
    forall i | 0 <= i < |s| ensures e[i] == s[i] {
      if i >= HeaderLength {
        assert e[i] == PixelByte(d.pixels[i - HeaderLength]);
      }
    }
  }

  /** A stream with a 24-character ISO 8601 timestamp and two pixel bytes,
      0x80 and 0x40: the first pixel has its sign set and numerator 0, the
      second is unsigned with numerator 64, intensity one half. */
  lemma Scenario()
    ensures var ts := "2024-01-01T00:00:00.000Z";
      Decode([2, 3] + seq(24, i requires 0 <= i < 24 => ts[i] as int as Byte) + [0x80, 0x40])
      == Image(Header(2, 3, ts), [Pixel(true, 0), Pixel(false, 64)])
    ensures Pixel(false, 64).Alpha() == 0.5
  {
    var ts := "2024-01-01T00:00:00.000Z";
    var s := [2, 3] + seq(24, i requires 0 <= i < 24 => ts[i] as int as Byte) + [0x80, 0x40];
    assert Decode(s).header.datetime == ts;
    assert Decode(s).pixels == [Pixel(true, 0), Pixel(false, 64)];
  }

  /** The same scenario with the 20-character timestamp
      "2024-01-01T00:00:00Z": the stream is then only 24 bytes long, so the
      decoder never reaches position 26: the two intended pixel bytes are
      buffered as timestamp characters and dropped with the rest, the
      timestamp comes back empty and there are no pixels. */
  lemma ShortTimestampScenario()
    ensures var ts := "2024-01-01T00:00:00Z";
      Decode([2, 3] + seq(20, i requires 0 <= i < 20 => ts[i] as int as Byte) + [0x80, 0x40])
      == Image(Header(2, 3, ""), [])
  {
  }

  /** A 20-character timestamp followed by four or more bytes: the decoder
      still takes bytes 3 to 26 as the timestamp, so the first four bytes
      after it complete the timestamp and the pixels start after them. */
  lemma ShiftedTimestampScenario()
    ensures var ts := "2024-01-01T00:00:00Z";
      Decode([2, 3] + seq(20, i requires 0 <= i < 20 => ts[i] as int as Byte) + [65, 66, 67, 68, 0x80, 0x40])
      == Image(Header(2, 3, ts + "ABCD"), [Pixel(true, 0), Pixel(false, 64)])
  {
    var ts := "2024-01-01T00:00:00Z";
    var s := [2, 3] + seq(20, i requires 0 <= i < 20 => ts[i] as int as Byte) + [65, 66, 67, 68, 0x80, 0x40];
    assert Decode(s).header.datetime == ts + "ABCD";
    assert Decode(s).pixels == [Pixel(true, 0), Pixel(false, 64)];
  }
}
