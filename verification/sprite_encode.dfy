/** The two PNG-to-sprite converters, from an already decoded RGBA image
    (row-major, width × height pixels). `png_to_sprite_alpha` writes a
    4-byte header and one 3-byte record per pixel: the RGB565 colour in
    host (little-endian) order and the alpha byte. `png_to_sprite_verbose`
    writes the header and one 2-byte word per pixel, the colour or the
    chroma key 0xF81F for a pixel with alpha below 10. */
module SpriteEncode {
  import opened Bits
  import opened Rgb565
  import opened Records

  /** A decoded pixel: stb_image's forced four channels. */
  datatype Rgba = Rgba(r: U8, g: U8, b: U8, a: U8)

  /** Both converters treat alpha below 10 as transparent. */
  const AlphaCutoff: nat := 10

  predicate IsTransparent(p: Rgba) { p.a < AlphaCutoff }

  /** The header: width then height, each narrowed to 16 bits and stored
      little-endian. */
  function Header(width: nat, height: nat): (h: seq<U8>)
    ensures |h| == 4
    ensures Word(h[1], h[0]) == width % 0x1_0000 && Word(h[3], h[2]) == height % 0x1_0000
  {
    LittleEndian(width % 0x1_0000) + LittleEndian(height % 0x1_0000)
  }

  // ---------------------------------------------------------------------
  // png_to_sprite_alpha

  /** One record: the packed colour in host order, then the alpha byte as
      loaded, with no threshold applied. */
  function AlphaRecord(p: Rgba): (rec: seq<U8>)
    ensures |rec| == 3 && Word(rec[1], rec[0]) == RgbToRgb565(p.r, p.g, p.b) && rec[2] == p.a
  {
    LittleEndian(RgbToRgb565(p.r, p.g, p.b)) + [p.a]
  }

  function AlphaRecords(pixels: seq<Rgba>): seq<seq<U8>>
  {
    seq(|pixels|, i requires 0 <= i < |pixels| => AlphaRecord(pixels[i]))
  }

  /** The file the alpha converter writes for a decoded image: the header
      and 3 bytes per pixel, for any image including an empty one. */
  function AlphaSprite(width: nat, height: nat, pixels: seq<Rgba>): (f: seq<U8>)
    requires |pixels| == width * height
    ensures |f| == 4 + 3 * |pixels|
  {
    ConcatLength(AlphaRecords(pixels), 3);
    Header(width, height) + Concat(AlphaRecords(pixels))
  }

  /** The record of pixel i sits at offset 4 + 3i and holds its colour
      and alpha. */
  lemma AlphaSpriteLayout(width: nat, height: nat, pixels: seq<Rgba>, i: nat)
    requires |pixels| == width * height && i < |pixels|
    ensures var f := AlphaSprite(width, height, pixels);
            Word(f[4 + 3 * i + 1], f[4 + 3 * i]) == RgbToRgb565(pixels[i].r, pixels[i].g, pixels[i].b)
            && f[4 + 3 * i + 2] == pixels[i].a
  {
    var head, recs := Header(width, height), AlphaRecords(pixels);
    var rec := AlphaRecord(pixels[i]);
    assert recs[i] == rec;
    RecordAt(head, recs, 3, i, 0);
    RecordAt(head, recs, 3, i, 1);
    RecordAt(head, recs, 3, i, 2);
    assert i * 3 == 3 * i;
  }

  /** The converter's `transparent_count`: one more for each pixel with
      alpha below 10, in pixel order. */
  function TransparentCount(pixels: seq<Rgba>): (n: nat)
    ensures n == |Positions(pixels, IsTransparent)|
  {
    CountIsPositions(pixels, IsTransparent);
    Count(pixels, IsTransparent)
  }

  // ---------------------------------------------------------------------
  // png_to_sprite_verbose

  /** The word written for one pixel: the key for a transparent pixel,
      its packed colour otherwise. */
  function ChromaWord(p: Rgba): U16
  {
    if IsTransparent(p) then ChromaKey else RgbToRgb565(p.r, p.g, p.b)
  }

  /** A pixel is written as the key exactly when it is transparent or its
      colour quantises to opaque magenta: the key does not tell the two
      apart. */
  lemma ChromaWordIsKey(p: Rgba)
    ensures ChromaWord(p) == ChromaKey <==> IsTransparent(p) || (p.r >= 248 && p.g < 4 && p.b >= 248)
  {
    OpaqueMagentaIsSentinel(p.r, p.g, p.b);
  }

  function ChromaWords(pixels: seq<Rgba>): (words: seq<U16>)
    ensures |words| == |pixels| && forall i :: 0 <= i < |pixels| ==> words[i] == ChromaWord(pixels[i])
  {
    seq(|pixels|, i requires 0 <= i < |pixels| => ChromaWord(pixels[i]))
  }

  function WordRecords(words: seq<U16>): (recs: seq<seq<U8>>)
    ensures |recs| == |words| && forall i :: 0 <= i < |words| ==> recs[i] == LittleEndian(words[i])
  {
    seq(|words|, i requires 0 <= i < |words| => LittleEndian(words[i]))
  }

  /** The file the chroma-key converter writes for a decoded image: the
      header and 2 bytes per pixel, for any image including an empty one. */
  function ChromaSprite(width: nat, height: nat, pixels: seq<Rgba>): (f: seq<U8>)
    requires |pixels| == width * height
    ensures |f| == 4 + 2 * |pixels|
  {
    ConcatLength(WordRecords(ChromaWords(pixels)), 2);
    Header(width, height) + Concat(WordRecords(ChromaWords(pixels)))
  }

  /** The word of pixel i sits little-endian at offset 4 + 2i. */
  lemma ChromaSpriteLayout(width: nat, height: nat, pixels: seq<Rgba>, i: nat)
    requires |pixels| == width * height && i < |pixels|
    ensures var f := ChromaSprite(width, height, pixels);
            Word(f[4 + 2 * i + 1], f[4 + 2 * i]) == ChromaWord(pixels[i])
  {
    var head, recs := Header(width, height), WordRecords(ChromaWords(pixels));
    assert recs[i] == LittleEndian(ChromaWord(pixels[i]));
    RecordAt(head, recs, 2, i, 0);
    RecordAt(head, recs, 2, i, 1);
    assert i * 2 == 2 * i;
  }

  /** The converter's two counters. */
  datatype Counters = Counters(transparent: nat, opaqueCount: nat)

  /** The counting loop: each pixel adds one to `transparent_count` when
      it is written as the key for its alpha, else one to `opaque_count`.
      Every pixel is counted exactly once. */
  function ChromaCounters(pixels: seq<Rgba>): (c: Counters)
    ensures c.transparent + c.opaqueCount == |pixels|
    ensures c.transparent == Count(pixels, IsTransparent) == |Positions(pixels, IsTransparent)|
  {
    CountIsPositions(pixels, IsTransparent);
    if |pixels| == 0 then Counters(0, 0)
    else
      var c := ChromaCounters(pixels[..|pixels| - 1]);
      if IsTransparent(pixels[|pixels| - 1]) then Counters(c.transparent + 1, c.opaqueCount)
      else Counters(c.transparent, c.opaqueCount + 1)
  }

  // ---------------------------------------------------------------------
  // Command lines

  /** The last position of '.' in s, or -1 when it has none. */
  function LastDot(s: string): (i: int)
    ensures -1 <= i < |s|
    ensures i >= 0 ==> s[i] == '.'
    ensures forall j :: i < j < |s| ==> s[j] != '.'
  {
    if |s| == 0 then -1
    else if s[|s| - 1] == '.' then |s| - 1
    else LastDot(s[..|s| - 1])
  }

  /** The derived output name: the input up to its last '.', or the whole
      input when it has no '.', followed by ".sprite". */
  function DefaultOutputName(input: string): (out: string)
    ensures exists k :: 0 <= k <= |input| && out == input[..k] + ".sprite"
              && (k < |input| ==> input[k] == '.')
              && (forall j :: k < j < |input| ==> input[j] != '.')
              && (k == |input| ==> forall j :: 0 <= j < |input| ==> input[j] != '.')
  {
    var i := LastDot(input);
    if i >= 0 then
      input[..i] + ".sprite"
    else
      assert input[..|input|] == input;
      input + ".sprite"
  }

  /** What a converter is asked to do. */
  datatype Command = Usage | Convert(input: string, output: string, verbose: bool)

  /** `png_to_sprite_alpha`'s `main`: usage without an input; the second
      argument, when present, is the output name. */
  function AlphaCommand(args: seq<string>): (c: Command)
    ensures |args| < 2 <==> c == Usage
    ensures |args| >= 3 ==> c == Convert(args[1], args[2], false)
    ensures |args| == 2 ==> c == Convert(args[1], DefaultOutputName(args[1]), false)
  {
    if |args| < 2 then Usage
    else Convert(args[1], if |args| >= 3 then args[2] else DefaultOutputName(args[1]), false)
  }

  /** Whether "-v" occurs among args[from..]. */
  function HasVerboseFlag(args: seq<string>, from: nat): (v: bool)
    ensures v <==> exists i :: from <= i < |args| && args[i] == "-v"
    decreases |args| - from
  {
    if from >= |args| then false
    else args[from] == "-v" || HasVerboseFlag(args, from + 1)
  }

  /** `png_to_sprite_verbose`'s `main`: verbose when any argument after
      the input is "-v"; the second argument names the output unless it
      is missing or is that flag. */
  function VerboseCommand(args: seq<string>): (c: Command)
    ensures |args| < 2 <==> c == Usage
    ensures |args| >= 2 ==> c.input == args[1]
    ensures |args| >= 2 ==> (c.verbose <==> exists i :: 2 <= i < |args| && args[i] == "-v")
    ensures |args| >= 2 ==>
              c.output == if |args| >= 3 && args[2] != "-v" then args[2] else DefaultOutputName(args[1])
  {
    if |args| < 2 then Usage
    else
      var output := if |args| >= 3 && args[2] != "-v" then args[2] else DefaultOutputName(args[1]);
      Convert(args[1], output, HasVerboseFlag(args, 2))
  }

  /** A flag given where the output name would go is not taken as the
      name: "-v" alone derives the name, and still turns on verbose mode. */
  lemma FlagIsNotAName(input: string)
    ensures VerboseCommand(["conv", input, "-v"]) == Convert(input, DefaultOutputName(input), true)
    ensures VerboseCommand(["conv", input, "out.sprite", "-v"]) == Convert(input, "out.sprite", true)
  {
    assert ["conv", input, "-v"][2] == "-v";
    assert ["conv", input, "out.sprite", "-v"][3] == "-v";
  }
}
