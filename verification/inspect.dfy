/** `inspect_sprite`: reads a chroma-key sprite file (a little-endian
    width and height, then one little-endian RGB565 word per pixel),
    counts the words equal to the key 0xF81F, and reports the counts, their
    percentages of the pixel total and a verdict. */
module SpriteInspect {
  import opened Bits
  import opened Rgb565
  import opened Records

  datatype Verdict = NoTransparent | AllTransparent | LooksValid

  /** What the inspector reports. `ShortFile` stands for a file too short
      for the header or for the pixels the header announces: there the
      tool reads indeterminate values. `NoPixels` stands for a zero pixel
      total, for which the percentages divide by zero. */
  datatype Inspection =
    | ShortFile
    | NoPixels(width: U16, height: U16)
    | Report(width: U16, height: U16, total: I32, transparent: nat, shown: nat,
             transparentPercent: int, shownPercent: int, verdict: Verdict)

  /** `int total_pixels = width * height`: the product of two 16-bit values
      need not fit in an `int`, and then it wraps to a negative total. */
  function PixelTotal(width: U16, height: U16): (t: I32)
    ensures width * height <= MaxI32 ==> t == width * height
    ensures width * height > MaxI32 ==> t == width * height - 0x1_0000_0000 && t < 0
    ensures t == 0 <==> width == 0 || height == 0
  {
    var p := width * height;
    if p > MaxI32 then
      MulMonotone(width, 0xFFFF, height);
      MulMonotone(height, 0xFFFF, 0xFFFF);
      Wrap32Unique(p, p - 0x1_0000_0000, 1);
      Wrap32(p)
    else
      Wrap32(p)
  }

  /** The width and height the header announces, read in host order. */
  function HeaderWidth(file: seq<U8>): U16
    requires |file| >= 4
  {
    Word(file[1], file[0])
  }

  function HeaderHeight(file: seq<U8>): U16
    requires |file| >= 4
  {
    Word(file[3], file[2])
  }

  /** The number of pixel words the loop reads: none for a total that is
      zero or negative. */
  function Reads(total: I32): nat { if total > 0 then total else 0 }

  /** The pixel words from offset 4 on, each read in host order. */
  function PixelWords(file: seq<U8>, n: nat): (words: seq<U16>)
    requires 4 + 2 * n <= |file|
    ensures |words| == n
    ensures forall i :: 0 <= i < n ==> words[i] == Word(file[4 + 2 * i + 1], file[4 + 2 * i])
  {
    seq(n, i requires 0 <= i < n => Word(file[4 + 2 * i + 1], file[4 + 2 * i]))
  }

  predicate IsKey(w: U16) { w == ChromaKey }

  /** `count * 100 / total_pixels`: the product wraps like any `int`, and
      the quotient truncates. */
  function Percent(count: nat, total: I32): int
    requires total != 0
  {
    TruncDiv(Wrap32(count * 100), total)
  }

  /** While the product fits and the total is positive, the percentage is
      rounded down, and it is at most 100 when the count is at most the
      total. */
  lemma PercentRoundsDown(count: nat, total: I32)
    requires count * 100 <= MaxI32 && total > 0
    ensures var p := Percent(count, total); 0 <= p * total <= count * 100 < p * total + total
    ensures count <= total ==> 0 <= Percent(count, total) <= 100
  {
    var q := Percent(count, total);
    TruncDivBounds(count * 100, total);
    if count <= total {
      MulMonotone(count, total, 100);
      if q > 100 {
        MulLess(100, q, total);
      }
      if q < 0 {
        MulLess(q, 0, total);
      }
    }
  }

  /** The verdict: no key words, only key words, or both. */
  function VerdictOf(transparent: nat, total: I32): (v: Verdict)
  {
    if transparent == 0 then NoTransparent
    else if transparent == total then AllTransparent
    else LooksValid
  }

  /** The counting loop: it reads n words from offset 4 and keeps the
      transparent count equal to the number of key words read so far;
      every word read adds to exactly one of the two counts. */
  method CountPixels(file: seq<U8>, n: nat) returns (transparent: nat, shown: nat)
    requires 4 + 2 * n <= |file|
    ensures transparent == |Positions(PixelWords(file, n), IsKey)|
    ensures transparent + shown == n
  {
    ghost var words := PixelWords(file, n);
    transparent, shown := 0, 0;
    var i := 0;
    while i < n
      invariant 0 <= i <= n
      invariant transparent == Count(words[..i], IsKey)
      invariant transparent + shown == i
    {
      var pixel := Word(file[4 + 2 * i + 1], file[4 + 2 * i]);
      assert words[..i + 1][..i] == words[..i];
      if pixel == ChromaKey {
        transparent := transparent + 1;
      } else {
        shown := shown + 1;
      }
      i := i + 1;
    }
    assert words[..n] == words;
    CountIsPositions(words, IsKey);
  }

  /** The inspector: the header, the pixel total, the counts and the
      summary. */
  method Inspect(file: seq<U8>) returns (r: Inspection)
    ensures |file| < 4 ==> r.ShortFile?
    ensures |file| >= 4 ==>
              (r.ShortFile? <==> 4 + 2 * Reads(PixelTotal(HeaderWidth(file), HeaderHeight(file))) > |file|)
    ensures r.NoPixels? <==> |file| >= 4 && PixelTotal(HeaderWidth(file), HeaderHeight(file)) == 0
    ensures r.Report? ==>
              && |file| >= 4
              && r.width == HeaderWidth(file) && r.height == HeaderHeight(file)
              && r.total == PixelTotal(r.width, r.height) && r.total != 0
              && 4 + 2 * Reads(r.total) <= |file|
              && r.transparent + r.shown == Reads(r.total)
              && r.transparent == |Positions(PixelWords(file, Reads(r.total)), IsKey)|
              && r.transparentPercent == Percent(r.transparent, r.total)
              && r.shownPercent == Percent(r.shown, r.total)
    ensures r.Report? ==>
              && (r.verdict == NoTransparent <==> r.transparent == 0)
              && (r.verdict == AllTransparent <==> 0 < r.transparent == r.total)
              && (r.verdict == LooksValid <==> 0 < r.transparent < r.total)
  {
    if |file| < 4 {
      return ShortFile;
    }
    var width, height := HeaderWidth(file), HeaderHeight(file);
    var total := PixelTotal(width, height);
    if 4 + 2 * Reads(total) > |file| {
      return ShortFile;
    }
    var transparent, shown := CountPixels(file, Reads(total));
    if total == 0 {
      return NoPixels(width, height);
    }
    r := Report(width, height, total, transparent, shown,
                Percent(transparent, total), Percent(shown, total), VerdictOf(transparent, total));
  }
}
