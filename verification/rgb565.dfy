/** RGB565 packed colours: five bits of red in bits 15-11, six bits of green
    in bits 10-5 and five bits of blue in bits 4-0, and the conversions the
    asset tools make between them and 8-bit-per-channel RGB. */
module Rgb565 {
  import opened Bits

  type Red5 = x: int | 0 <= x < 32
  type Green6 = x: int | 0 <= x < 64
  type Blue5 = Red5

  /** Bits 15-11 (`(c >> 11) & 0x1F`). */
  function RedOf(c: U16): Red5 { c / 0x800 }

  /** Bits 10-5 (`(c >> 5) & 0x3F`). */
  function GreenOf(c: U16): Green6 { (c / 0x20) % 0x40 }

  /** Bits 4-0 (`c & 0x1F`). */
  function BlueOf(c: U16): Blue5 { c % 0x20 }

  /** `(r << 11) | (g << 5) | b`: the fields occupy disjoint bit ranges, so
      the bitwise or is a sum. */
  function Pack(r: Red5, g: Green6, b: Blue5): (c: U16)
    ensures RedOf(c) == r && GreenOf(c) == g && BlueOf(c) == b
  {
    var c := r * 0x800 + g * 0x20 + b;
    DivModUnique(c, 0x20, r * 0x40 + g, b);
    DivModUnique(r * 0x40 + g, 0x40, r, g);
    DivModUnique(c, 0x800, r, g * 0x20 + b);
    c
  }

  /** Shifting right by 11 is shifting by 5 and then by 6. */
  lemma ShiftInSteps(c: U16)
    ensures c / 0x800 == (c / 0x20) / 0x40
  {
  }

  /** The three fields, shifted back into place, add up to the colour. */
  lemma FieldsSum(c: U16)
    ensures RedOf(c) * 0x800 + GreenOf(c) * 0x20 + BlueOf(c) == c
  {
    ShiftInSteps(c);
  }

  /** A colour is determined by its three fields. */
  lemma PackFields(c: U16)
    ensures Pack(RedOf(c), GreenOf(c), BlueOf(c)) == c
  {
    FieldsSum(c);
  }

  /** The transparency sentinel written by the chroma-key sprite tool:
      full red and full blue, i.e. opaque magenta. */
  const ChromaKey: U16 := 0xF81F

  /** The key the chroma-key blitter skips: the sentinel as it comes out of
      a big-endian read of the little-endian sprite file. */
  const SwappedChromaKey: U16 := 0x1FF8

  lemma ChromaKeysSwapped()
    ensures ByteSwap16(ChromaKey) == SwappedChromaKey
    ensures ByteSwap16(SwappedChromaKey) == ChromaKey
  {
    assert Hi(ChromaKey) == 0xF8 && Lo(ChromaKey) == 0x1F;
    assert Hi(SwappedChromaKey) == 0x1F && Lo(SwappedChromaKey) == 0xF8;
  }

  /** `rgb_to_rgb565`: keeps the top five bits of red and blue and the top
      six bits of green. */
  function RgbToRgb565(r: U8, g: U8, b: U8): (c: U16)
    ensures RedOf(c) == r / 8 && GreenOf(c) == g / 4 && BlueOf(c) == b / 8
  {
    Pack(r / 8, g / 4, b / 8)
  }

  /** Two 8-bit colours encode alike exactly when they differ only in the
      bits the encoding drops. */
  lemma RgbToRgb565Quantises(r: U8, g: U8, b: U8, r': U8, g': U8, b': U8)
    ensures RgbToRgb565(r, g, b) == RgbToRgb565(r', g', b')
        <==> r / 8 == r' / 8 && g / 4 == g' / 4 && b / 8 == b' / 8
  {
    var c, c' := RgbToRgb565(r, g, b), RgbToRgb565(r', g', b');
    if r / 8 == r' / 8 && g / 4 == g' / 4 && b / 8 == b' / 8 {
      PackFields(c);
      PackFields(c');
    }
  }

  lemma RgbToRgb565Examples()
    ensures RgbToRgb565(255, 0, 0) == 0xF800
    ensures RgbToRgb565(0, 255, 0) == 0x07E0
    ensures RgbToRgb565(0, 0, 255) == 0x001F
    ensures RgbToRgb565(255, 255, 255) == 0xFFFF
  {
    assert 255 / 8 == 31 && 255 / 4 == 63 && 0 / 8 == 0 && 0 / 4 == 0;
  }

  /** Opaque magenta encodes to the transparency sentinel, and so does every
      colour that agrees with it in the kept bits. */
  lemma OpaqueMagentaIsSentinel(r: U8, g: U8, b: U8)
    ensures RgbToRgb565(r, g, b) == ChromaKey <==> r >= 248 && g < 4 && b >= 248
  {
    RgbToRgb565Quantises(r, g, b, 255, 0, 255);
  }

  datatype Rgb = Rgb(r: U8, g: U8, b: U8)

  /** `rgb565_to_rgb888`: each field shifted back to the top of its byte,
      so the dropped low bits come back as zeros. */
  function Rgb565ToRgb888(c: U16): (x: Rgb)
    ensures x.r % 8 == 0 && x.g % 4 == 0 && x.b % 8 == 0
    ensures x.r <= 248 && x.g <= 252 && x.b <= 248
    ensures x.r / 8 == RedOf(c) && x.g / 4 == GreenOf(c) && x.b / 8 == BlueOf(c)
  {
    Rgb(RedOf(c) * 8, GreenOf(c) * 4, BlueOf(c) * 8)
  }

  /** Expanding to 8 bits and re-encoding is the identity on every 16-bit
      colour. */
  lemma Rgb888RoundTrip(c: U16)
    ensures var x := Rgb565ToRgb888(c); RgbToRgb565(x.r, x.g, x.b) == c
  {
    PackFields(c);
  }

  /** Re-encoding then expanding clears exactly the dropped low bits. */
  lemma Rgb888Truncates(r: U8, g: U8, b: U8)
    ensures Rgb565ToRgb888(RgbToRgb565(r, g, b)) == Rgb(r - r % 8, g - g % 4, b - b % 8)
  {
  }
}
