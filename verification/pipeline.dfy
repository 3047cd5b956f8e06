/** How the tools fit together: a sprite file written by one of the PNG
    converters, read back by the matching header script or by the
    inspector, and the values that reach the blitters. */
module Pipeline {
  import opened Bits
  import opened Rgb565
  import opened Records
  import opened SpriteEncode
  import opened SpriteInspect
  import opened SpriteToCpp
  import opened Sprites

  /** The pixels the alpha converter means to store: each colour packed to
      RGB565, its alpha kept. */
  function StoredPixels(pixels: seq<Rgba>): (stored: seq<SpritePixel>)
    ensures |stored| == |pixels|
    ensures forall i :: 0 <= i < |pixels| ==>
              stored[i] == SpritePixel(RgbToRgb565(pixels[i].r, pixels[i].g, pixels[i].b), pixels[i].a)
  {
    seq(|pixels|, i requires 0 <= i < |pixels| => SpritePixel(RgbToRgb565(pixels[i].r, pixels[i].g, pixels[i].b), pixels[i].a))
  }

  /** The header script reads a file the alpha converter wrote, given the
      same dimensions, back into exactly the pixels stored, with no size
      warning. */
  lemma AlphaRoundTrip(width: nat, height: nat, pixels: seq<Rgba>)
    requires |pixels| == width * height
    ensures var file := AlphaSprite(width, height, pixels);
            !SizeWarning(file, width, height, 3)
            && ParseAlpha(file, width, height) == Some(StoredPixels(pixels))
  {
    var file := AlphaSprite(width, height, pixels);
    var data := Payload(file);
    var n := |pixels|;
    assert |file| == 4 + 3 * n;
    assert |data| == 3 * n;
    var parsed := ParseAlpha(file, width, height);
    assert parsed.Some?;
    forall i | 0 <= i < n
      ensures parsed.value[i] == StoredPixels(pixels)[i]
    {
      AlphaSpriteLayout(width, height, pixels, i);
      assert data[3 * i] == file[4 + 3 * i] && data[3 * i + 1] == file[4 + 3 * i + 1];
      assert data[3 * i + 2] == file[4 + 3 * i + 2];
    }
    assert parsed.value == StoredPixels(pixels);
  }

  /** The chroma-key header script reads a file the converter wrote, given
      the same dimensions, without a size warning, and gets every stored
      word byte-swapped: it unpacks big-endian what was written
      little-endian. */
  lemma ChromaRoundTrip(width: nat, height: nat, pixels: seq<Rgba>)
    requires |pixels| == width * height
    ensures var file := ChromaSprite(width, height, pixels);
            !SizeWarning(file, width, height, 2)
            && |ParseChroma(file)| == |pixels|
            && forall i :: 0 <= i < |pixels| ==> ParseChroma(file)[i] == ByteSwap16(ChromaWord(pixels[i]))
  {
    var file := ChromaSprite(width, height, pixels);
    var data := Payload(file);
    var n := |pixels|;
    assert |data| == 2 * n && |data| / 2 == n && width * height * 2 == 2 * n;
    forall i | 0 <= i < n
      ensures ParseChroma(file)[i] == ByteSwap16(ChromaWord(pixels[i]))
    {
      ChromaWordRead(width, height, pixels, i);
    }
  }

  /** One word of ChromaRoundTrip. */
  lemma ChromaWordRead(width: nat, height: nat, pixels: seq<Rgba>, i: nat)
    requires |pixels| == width * height && i < |pixels|
    ensures var words := ParseChroma(ChromaSprite(width, height, pixels));
            i < |words| && words[i] == ByteSwap16(ChromaWord(pixels[i]))
  {
    var file := ChromaSprite(width, height, pixels);
    ChromaSpriteLayout(width, height, pixels, i);
    ScriptReadsSwapped(file, i);
  }

  /** After that swap a transparent pixel reaches the keyed blitter as
      0x1FF8, the key it skips, and so does opaque magenta; every other
      pixel differs from the key and is drawn. */
  lemma ChromaKeyReachesBlitter(width: nat, height: nat, pixels: seq<Rgba>, i: nat)
    requires |pixels| == width * height && i < |pixels|
    ensures var words := ParseChroma(ChromaSprite(width, height, pixels));
            i < |words|
            && (words[i] == SwappedChromaKey <==>
                  IsTransparent(pixels[i]) || (pixels[i].r >= 248 && pixels[i].g < 4 && pixels[i].b >= 248))
  {
    ChromaRoundTrip(width, height, pixels);
    ChromaWordIsKey(pixels[i]);
    ChromaKeysSwapped();
    ByteSwapInvolution(ChromaWord(pixels[i]));
  }

  /** The inspector and the chroma-key script read the same bytes in
      opposite byte orders. */
  lemma ScriptReadsSwapped(file: seq<U8>, i: nat)
    requires 4 + 2 * i + 2 <= |file|
    ensures i < |ParseChroma(file)| && ParseChroma(file)[i] == ByteSwap16(PixelWords(file, i + 1)[i])
  {
    var data := Payload(file);
    assert data[2 * i] == file[4 + 2 * i] && data[2 * i + 1] == file[4 + 2 * i + 1];
  }

  /** The inspector reads back the header and the words of a file the
      chroma-key converter wrote, as long as the dimensions fit the 16-bit
      header and their product fits an `int`. */
  lemma InspectorReadsConverterOutput(width: nat, height: nat, pixels: seq<Rgba>)
    requires |pixels| == width * height && width < 0x1_0000 && height < 0x1_0000
    requires width * height <= MaxI32
    ensures var file := ChromaSprite(width, height, pixels);
            && |file| >= 4 && HeaderWidth(file) == width && HeaderHeight(file) == height
            && Reads(PixelTotal(width, height)) == |pixels|
            && 4 + 2 * |pixels| <= |file|
            && PixelWords(file, |pixels|) == ChromaWords(pixels)
  {
    var n := |pixels|;
    InspectorReadsHeader(width, height, pixels);
    assert Reads(PixelTotal(width, height)) == n;
    InspectorReadsWords(width, height, pixels);
  }

  /** The header half of InspectorReadsConverterOutput. */
  lemma InspectorReadsHeader(width: nat, height: nat, pixels: seq<Rgba>)
    requires |pixels| == width * height && width < 0x1_0000 && height < 0x1_0000
    ensures var file := ChromaSprite(width, height, pixels);
            |file| >= 4 && HeaderWidth(file) == width && HeaderHeight(file) == height
  {
    HeaderReadsBack(width, height, Concat(WordRecords(ChromaWords(pixels))));
  }

  /** Whatever follows it, a header of dimensions that fit 16 bits reads
      back as those dimensions. */
  lemma HeaderReadsBack(width: nat, height: nat, rest: seq<U8>)
    requires width < 0x1_0000 && height < 0x1_0000
    ensures var file := Header(width, height) + rest;
            |file| >= 4 && HeaderWidth(file) == width && HeaderHeight(file) == height
  {
    var head := Header(width, height);
    assert (head + rest)[..4] == head;
  }

  /** The word half of InspectorReadsConverterOutput. */
  lemma InspectorReadsWords(width: nat, height: nat, pixels: seq<Rgba>)
    requires |pixels| == width * height
    ensures var file := ChromaSprite(width, height, pixels);
            4 + 2 * |pixels| <= |file| && PixelWords(file, |pixels|) == ChromaWords(pixels)
  {
    var file := ChromaSprite(width, height, pixels);
    var words := ChromaWords(pixels);
    forall i | 0 <= i < |words|
      ensures Word(file[4 + 2 * i + 1], file[4 + 2 * i]) == words[i]
    {
      ChromaSpriteLayout(width, height, pixels, i);
    }
    WordsReadBack(file, words);
  }

  /** PixelWords gives back any words laid out little-endian from offset 4. */
  lemma WordsReadBack(file: seq<U8>, words: seq<U16>)
    requires 4 + 2 * |words| <= |file|
    requires forall i :: 0 <= i < |words| ==> Word(file[4 + 2 * i + 1], file[4 + 2 * i]) == words[i]
    ensures PixelWords(file, |words|) == words
  {
  }

  /** A pixel the key stands for that the converter did not count as
      transparent: opaque, with a colour that quantises to magenta. */
  predicate OpaqueMagenta(p: Rgba)
  {
    !IsTransparent(p) && p.r >= 248 && p.g < 4 && p.b >= 248
  }

  /** The inspector's transparent pixels are the converter's transparent
      pixels together with the opaque magenta ones, so it reports the
      converter's count exactly when the image has no opaque magenta. */
  lemma InspectorCountsMagenta(pixels: seq<Rgba>)
    ensures Positions(ChromaWords(pixels), IsKey)
         == Positions(pixels, IsTransparent) + Positions(pixels, OpaqueMagenta)
    ensures |Positions(ChromaWords(pixels), IsKey)| == ChromaCounters(pixels).transparent
        <==> Positions(pixels, OpaqueMagenta) == {}
  {
    var words := ChromaWords(pixels);
    var k, t, m := Positions(words, IsKey), Positions(pixels, IsTransparent), Positions(pixels, OpaqueMagenta);
    forall i | 0 <= i < |pixels|
      ensures i in k <==> i in t || i in m
    {
      PositionsAt(words, IsKey, i);
      PositionsAt(pixels, IsTransparent, i);
      PositionsAt(pixels, OpaqueMagenta, i);
      ChromaWordIsKey(pixels[i]);
    }
    assert k == t + m;
    assert t * m == {};
  }
}
