/** The two sprite-to-header scripts. `sprite_to_cpp_alpha.py` reads a
    RGB565 + alpha sprite file and emits a `SpritePixel` array, four pixels
    per line; `sprite_to_cpp.py` reads a chroma-key sprite file and emits a
    `uint16_t` array, eight words per line. Both drop the 4-byte header and
    take the width and height from the command line instead. */
module SpriteToCpp {
  import opened Bits
  import opened Records
  import opened Sprites

  datatype Option<T> = None | Some(value: T)

  /** `data = data[4:]`: the bytes after the header, none for a file
      shorter than that. */
  function Payload(file: seq<U8>): (data: seq<U8>)
    ensures |file| >= 4 ==> file == file[..4] + data
    ensures |file| < 4 ==> data == []
  {
    if |file| >= 4 then file[4..] else []
  }

  /** The warning both scripts print when the payload is not the size the
      dimensions call for; it does not stop the conversion. */
  predicate SizeWarning(file: seq<U8>, width: int, height: int, bytesPerPixel: nat)
  {
    |Payload(file)| != width * height * bytesPerPixel
  }

  /** The pixel records of the alpha script: for each i below
      `width * height`, a little-endian word at 3i and an alpha byte at
      3i + 2. A record that runs past the data stops the script (the
      unpack of a short slice, or the index past the end): that is
      `None`. A product of zero or less reads nothing. */
  function ParseAlpha(file: seq<U8>, width: int, height: int): (r: Option<seq<SpritePixel>>)
    ensures r.None? <==> exists i :: 0 <= i < width * height && 3 * i + 2 >= |Payload(file)|
    ensures r.Some? ==> |r.value| == if width * height > 0 then width * height else 0
    ensures r.Some? ==> forall i :: 0 <= i < |r.value| ==>
              3 * i + 2 < |Payload(file)|
              && var data := Payload(file);
                 r.value[i] == SpritePixel(Word(data[3 * i + 1], data[3 * i]), data[3 * i + 2])
  {
    var data := Payload(file);
    var n := width * height;
    if n <= 0 then Some([])
    else if 3 * n > |data| then
      assert 3 * (n - 1) + 2 >= |data|;
      None
    else
      Some(seq(n, i requires 0 <= i < n => SpritePixel(Word(data[3 * i + 1], data[3 * i]), data[3 * i + 2])))
  }

  /** The words of the chroma-key script: as many whole big-endian words
      as the payload holds, a trailing odd byte dropped. */
  function ParseChroma(file: seq<U8>): (words: seq<U16>)
    ensures |words| * 2 <= |Payload(file)| < |words| * 2 + 2
  {
    var data := Payload(file);
    var n := |data| / 2;
    seq(n, i requires 0 <= i < n => Word(data[2 * i], data[2 * i + 1]))
  }

  /** The emitted header: the two dimension constants as given, the array
      length it declares and the array's lines. */
  datatype CppHeader<T> = CppHeader(name: string, width: int, height: int, declared: int, lines: seq<seq<T>>)

  /** The alpha script's output: it declares `width * height` entries and
      writes the parsed pixels four to a line. */
  function EmitAlpha(name: string, width: int, height: int, pixels: seq<SpritePixel>): (h: CppHeader<SpritePixel>)
    ensures h.declared == width * height
    ensures Concat(h.lines) == pixels
    ensures forall i :: 0 <= i < |h.lines| ==> 0 < |h.lines[i]| <= 4
  {
    ChunksConcat(pixels, 4);
    CppHeader(name, width, height, width * height, Chunks(pixels, 4))
  }

  /** The chroma-key script's output: it declares as many entries as it
      parsed and writes them eight to a line. */
  function EmitChroma(name: string, width: int, height: int, words: seq<U16>): (h: CppHeader<U16>)
    ensures h.declared == |words|
    ensures Concat(h.lines) == words
    ensures forall i :: 0 <= i < |h.lines| ==> 0 < |h.lines[i]| <= 8
  {
    ChunksConcat(words, 8);
    CppHeader(name, width, height, |words|, Chunks(words, 8))
  }

  /** The scripts' command line: exactly five arguments, the input, the
      output, the width, the height and the array name. */
  datatype Command = Usage | Run(input: string, output: string, width: string, height: string, name: string)

  function ParseCommand(args: seq<string>): (c: Command)
    ensures c.Run? <==> |args| == 6
    ensures c.Run? ==> [c.input, c.output, c.width, c.height, c.name] == args[1..]
  {
    if |args| != 6 then Usage else Run(args[1], args[2], args[3], args[4], args[5])
  }
}
