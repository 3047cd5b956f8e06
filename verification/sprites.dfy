/** The sprite blits of the framebuffer. A sprite is a row-major table of
    `width` entries per row. `draw_sprite` copies RGB565 words and skips
    the transparent key; `draw_sprite_alpha` blends each pixel into the
    background by its alpha. Both refuse the same row ranges as the
    rectangle fills and check no column. */
module Sprites {
  import opened Bits
  import opened Rgb565
  import opened Framebuffer
  import opened Rectangles

  /** Row i of a sprite table, its `width` entries. */
  function SpriteRow<T>(sprite: seq<T>, i: nat, width: nat): (r: seq<T>)
    requires i * width + width <= |sprite|
    ensures |r| == width
    ensures forall j :: 0 <= j < width ==> r[j] == sprite[i * width + j]
  {
    sprite[i * width .. i * width + width]
  }

  /** The memory a blit of sprite rows [first, last) to screen rows
      [y + first, y + last) touches lies inside the sprite and the buffer. */
  predicate RowsInside(first: nat, last: nat, y: nat, x: nat, width: nat, len: nat)
  {
    first < last ==> last * width <= len && CellOf(x, y + last - 1) + width <= Cells
  }

  // ---------------------------------------------------------------------
  // The blit loop shared by both blits

  /** One sprite row drawn into cells [start, start + |pixels|): each of
      those cells gets `draw` of its old colour and the row's entry. */
  function Span<T>(b: Buffer, start: nat, pixels: seq<T>, draw: (U16, T) -> U16): (r: Buffer)
    requires start + |pixels| <= Cells
    ensures forall k :: 0 <= k < Cells ==>
              r[k] == if start <= k < start + |pixels| then draw(b[k], pixels[k - start]) else b[k]
  {
    seq(Cells, k requires 0 <= k < Cells =>
      if start <= k < start + |pixels| then draw(b[k], pixels[k - start]) else b[k])
  }

  /** Sprite rows [first, last) drawn in order, row i to the cells from
      column x of screen row y + i. */
  function Rows<T>(b: Buffer, sprite: seq<T>, draw: (U16, T) -> U16, first: nat, last: nat, y: nat, x: nat, width: nat): Buffer
    requires RowsInside(first, last, y, x, width, |sprite|)
    decreases last - first
  {
    if first >= last then b
    else
      RowMajorIndex(first, last, width);
      Rows(Span(b, CellOf(x, y + first), SpriteRow(sprite, first, width), draw), sprite, draw, first + 1, last, y, x, width)
  }

  /** What a blit of sprite rows [first, last) leaves in cell k when the
      sprite's columns lie on the screen: `draw` of the old colour and the
      entry for that row and column, or the old colour outside them. */
  function Cell<T>(b: Buffer, sprite: seq<T>, draw: (U16, T) -> U16, first: nat, last: nat, y: nat, x: nat, width: nat, k: nat): U16
    requires k < Cells && x + width <= Width && (first < last ==> last * width <= |sprite|)
  {
    var row := k / Width - y;
    var col := k % Width - x;
    if first <= row < last && 0 <= col < width then
      RowMajorIndex(row, last, width);
      draw(b[k], sprite[row * width + col])
    else b[k]
  }

  /** The row-by-row blit has the closed form Cell. */
  lemma {:induction false} RowsCells<T>(b: Buffer, sprite: seq<T>, draw: (U16, T) -> U16, first: nat, last: nat, y: nat, x: nat, width: nat, k: nat)
    requires RowsInside(first, last, y, x, width, |sprite|) && x + width <= Width && k < Cells
    ensures Rows(b, sprite, draw, first, last, y, x, width)[k] == Cell(b, sprite, draw, first, last, y, x, width, k)
    decreases last - first
  {
    if first < last {
      RowMajorIndex(first, last, width);
      var b' := Span(b, CellOf(x, y + first), SpriteRow(sprite, first, width), draw);
      RowsCells(b', sprite, draw, first + 1, last, y, x, width, k);
      SpanInRow(k, y + first, x, width);
    }
  }

  /** Cell at the cell of screen pixel (j, i): entry (i - y) * width +
      (j - x) drawn over the old colour inside the blitted rows and
      columns, the old colour elsewhere. */
  lemma CellAt<T>(b: Buffer, sprite: seq<T>, draw: (U16, T) -> U16, first: nat, last: nat, y: nat, x: nat, width: nat, i: nat, j: nat)
    requires x + width <= Width && i < Height && j < Width && (first < last ==> last * width <= |sprite|)
    ensures var n := (i - y) * width + (j - x);
            y + first <= i < y + last && x <= j < x + width ==>
              0 <= n < |sprite|
              && Cell(b, sprite, draw, first, last, y, x, width, CellOf(j, i)) == draw(b[CellOf(j, i)], sprite[n])
    ensures !(y + first <= i < y + last && x <= j < x + width) ==>
              Cell(b, sprite, draw, first, last, y, x, width, CellOf(j, i)) == b[CellOf(j, i)]
  {
    var k := CellOf(j, i);
    CellParts(j, i);
    assert k / Width - y == i - y && k % Width - x == j - x;
    if y + first <= i < y + last && x <= j < x + width {
      var row, col := i - y, j - x;
      RowMajorIndex(row, last, width);
      assert 0 <= row * width;
      assert Cell(b, sprite, draw, first, last, y, x, width, k) == draw(b[k], sprite[row * width + col]);
    }
  }

  /** Whatever the columns: if drawing any entry over any colour either
      keeps the colour or gives one satisfying `keep`, then after the blit
      every cell is as it was or satisfies `keep`. */
  lemma {:induction false} RowsKeep<T>(b: Buffer, sprite: seq<T>, draw: (U16, T) -> U16, first: nat, last: nat, y: nat, x: nat, width: nat, keep: U16 -> bool)
    requires RowsInside(first, last, y, x, width, |sprite|)
    requires forall c: U16, i :: 0 <= i < |sprite| ==> draw(c, sprite[i]) == c || keep(draw(c, sprite[i]))
    ensures forall k :: 0 <= k < Cells ==>
              Rows(b, sprite, draw, first, last, y, x, width)[k] == b[k] || keep(Rows(b, sprite, draw, first, last, y, x, width)[k])
    decreases last - first
  {
    if first < last {
      RowMajorIndex(first, last, width);
      var start, row := CellOf(x, y + first), SpriteRow(sprite, first, width);
      var b' := Span(b, start, row, draw);
      forall k | 0 <= k < Cells
        ensures b'[k] == b[k] || keep(b'[k])
      {
        if start <= k < start + width {
          assert row[k - start] == sprite[first * width + (k - start)];
        }
      }
      RowsKeep(b', sprite, draw, first + 1, last, y, x, width, keep);
    }
  }

  /** A blit of entries that each leave every colour as it is changes
      nothing. */
  lemma {:induction false} RowsUnchanged<T>(b: Buffer, sprite: seq<T>, draw: (U16, T) -> U16, first: nat, last: nat, y: nat, x: nat, width: nat)
    requires RowsInside(first, last, y, x, width, |sprite|)
    requires forall c: U16, i :: 0 <= i < |sprite| ==> draw(c, sprite[i]) == c
    ensures Rows(b, sprite, draw, first, last, y, x, width) == b
    decreases last - first
  {
    if first < last {
      RowMajorIndex(first, last, width);
      var start, row := CellOf(x, y + first), SpriteRow(sprite, first, width);
      var b' := Span(b, start, row, draw);
      forall k | 0 <= k < Cells
        ensures b'[k] == b[k]
      {
        if start <= k < start + width {
          assert row[k - start] == sprite[first * width + (k - start)];
        }
      }
      assert b' == b;
      RowsUnchanged(b', sprite, draw, first + 1, last, y, x, width);
    }
  }

  /** Two blits whose entries draw alike, position by position, leave the
      same buffer. */
  lemma {:induction false} RowsAgree<S, T>(b: Buffer, s1: seq<S>, d1: (U16, S) -> U16, s2: seq<T>, d2: (U16, T) -> U16,
                                           first: nat, last: nat, y: nat, x: nat, width: nat)
    requires |s1| == |s2| && RowsInside(first, last, y, x, width, |s1|)
    requires forall c: U16, i :: 0 <= i < |s1| ==> d1(c, s1[i]) == d2(c, s2[i])
    ensures Rows(b, s1, d1, first, last, y, x, width) == Rows(b, s2, d2, first, last, y, x, width)
    decreases last - first
  {
    if first < last {
      RowMajorIndex(first, last, width);
      var start, r1, r2 := CellOf(x, y + first), SpriteRow(s1, first, width), SpriteRow(s2, first, width);
      var b1, b2 := Span(b, start, r1, d1), Span(b, start, r2, d2);
      forall k | 0 <= k < Cells
        ensures b1[k] == b2[k]
      {
        if start <= k < start + width {
          assert r1[k - start] == s1[first * width + (k - start)];
          assert r2[k - start] == s2[first * width + (k - start)];
        }
      }
      assert b1 == b2;
      RowsAgree(b1, s1, d1, s2, d2, first + 1, last, y, x, width);
    }
  }

  // ---------------------------------------------------------------------
  // draw_sprite

  /** One entry of the keyed blit: the key as the buffer stores it
      (0x1FF8) leaves the background, any other entry replaces it. */
  function KeyedPixel(bg: U16, p: U16): U16
  {
    if p == SwappedChromaKey then bg else p
  }

  /** `draw_sprite` as written: when the rows fit, its outer loop runs i
      over [y, height) instead of [0, height), reading sprite row i and
      writing it to screen row y + i. The rows it reads must lie in the
      sprite and the cells it writes in the buffer. Every cell ends up as
      it was or holding a sprite entry that is not the key. */
  function DrawSprite(fb: FrameBuffers, y: U16, height: U16, x: U16, width: U16, sprite: seq<U16>): (r: FrameBuffers)
    requires RowsFit(y, height) ==> RowsInside(y, height, y, x, width, |sprite|)
    ensures FrontOf(r) == FrontOf(fb) && r.front == fb.front
    ensures !RowsFit(y, height) ==> r == fb
    ensures forall k :: 0 <= k < Cells ==>
              BackOf(r)[k] == BackOf(fb)[k] || (BackOf(r)[k] != SwappedChromaKey && BackOf(r)[k] in sprite)
  {
    if y > Height then fb
    else if height > Height - y then fb
    else
      RowsKeep(BackOf(fb), sprite, KeyedPixel, y, height, y, x, width, v => v != SwappedChromaKey && v in sprite);
      WithBack(fb, Rows(BackOf(fb), sprite, KeyedPixel, y, height, y, x, width))
  }

  /** With its columns on the screen, `draw_sprite` as written shows sprite
      row i - y at screen row i only for i in [2y, y + height): pixel
      (j, i) there gets entry (i - y) * width + (j - x) unless that entry is
      the key, and no other pixel changes. */
  lemma DrawSpriteCells(fb: FrameBuffers, y: U16, height: U16, x: U16, width: U16, sprite: seq<U16>, i: nat, j: nat)
    requires RowsFit(y, height) && RowsInside(y, height, y, x, width, |sprite|)
    requires x + width <= Width && i < Height && j < Width
    ensures var n := (i - y) * width + (j - x);
            y + y <= i < y + height && x <= j < x + width ==>
              0 <= n < |sprite|
              && BackOf(DrawSprite(fb, y, height, x, width, sprite))[CellOf(j, i)]
                 == if sprite[n] == SwappedChromaKey then BackOf(fb)[CellOf(j, i)] else sprite[n]
    ensures !(y + y <= i < y + height && x <= j < x + width) ==>
              BackOf(DrawSprite(fb, y, height, x, width, sprite))[CellOf(j, i)] == BackOf(fb)[CellOf(j, i)]
  {
    RowsCells(BackOf(fb), sprite, KeyedPixel, y, height, y, x, width, CellOf(j, i));
    CellAt(BackOf(fb), sprite, KeyedPixel, y, height, y, x, width, i, j);
  }

  /** The evidently intended `draw_sprite`: sprite rows [0, height) to
      screen rows [y, y + height), as the commented-out lines of the loop
      and `draw_sprite_alpha` do it. */
  function DrawSpriteCorrected(fb: FrameBuffers, y: U16, height: U16, x: U16, width: U16, sprite: seq<U16>): (r: FrameBuffers)
    requires RowsFit(y, height) ==> RowsInside(0, height, y, x, width, |sprite|)
    ensures FrontOf(r) == FrontOf(fb) && r.front == fb.front
    ensures !RowsFit(y, height) ==> r == fb
    ensures forall k :: 0 <= k < Cells ==>
              BackOf(r)[k] == BackOf(fb)[k] || (BackOf(r)[k] != SwappedChromaKey && BackOf(r)[k] in sprite)
  {
    if y > Height then fb
    else if height > Height - y then fb
    else
      RowsKeep(BackOf(fb), sprite, KeyedPixel, 0, height, y, x, width, v => v != SwappedChromaKey && v in sprite);
      WithBack(fb, Rows(BackOf(fb), sprite, KeyedPixel, 0, height, y, x, width))
  }

  /** With its columns on the screen, the corrected blit puts the whole
      sprite at (x, y): pixel (j, i) gets entry (i - y) * width + (j - x)
      unless that entry is the key, and no other pixel changes. */
  lemma DrawSpriteCorrectedCells(fb: FrameBuffers, y: U16, height: U16, x: U16, width: U16, sprite: seq<U16>, i: nat, j: nat)
    requires RowsFit(y, height) && RowsInside(0, height, y, x, width, |sprite|)
    requires x + width <= Width && i < Height && j < Width
    ensures var n := (i - y) * width + (j - x);
            y <= i < y + height && x <= j < x + width ==>
              0 <= n < |sprite|
              && BackOf(DrawSpriteCorrected(fb, y, height, x, width, sprite))[CellOf(j, i)]
                 == if sprite[n] == SwappedChromaKey then BackOf(fb)[CellOf(j, i)] else sprite[n]
    ensures !(y <= i < y + height && x <= j < x + width) ==>
              BackOf(DrawSpriteCorrected(fb, y, height, x, width, sprite))[CellOf(j, i)] == BackOf(fb)[CellOf(j, i)]
  {
    RowsCells(BackOf(fb), sprite, KeyedPixel, 0, height, y, x, width, CellOf(j, i));
    CellAt(BackOf(fb), sprite, KeyedPixel, 0, height, y, x, width, i, j);
  }

  /** From the top row the two blits agree. */
  lemma DrawSpriteAtTop(fb: FrameBuffers, height: U16, x: U16, width: U16, sprite: seq<U16>)
    requires RowsFit(0, height) ==> RowsInside(0, height, 0, x, width, |sprite|)
    ensures DrawSprite(fb, 0, height, x, width, sprite) == DrawSpriteCorrected(fb, 0, height, x, width, sprite)
  {
  }

  /** Counterexample: a one-column sprite of two rows drawn at y = 1. The
      intended blit shows its first entry at screen row 1; `draw_sprite`
      leaves that cell alone, having skipped sprite row 0. */
  lemma DrawSpriteSkipsRows(fb: FrameBuffers)
    ensures var k := CellOf(0, 1);
            BackOf(DrawSpriteCorrected(fb, 1, 2, 0, 1, [5, 7]))[k] == 5
            && BackOf(DrawSprite(fb, 1, 2, 0, 1, [5, 7]))[k] == BackOf(fb)[k]
  {
    DrawSpriteCorrectedCells(fb, 1, 2, 0, 1, [5, 7], 1, 0);
    DrawSpriteCells(fb, 1, 2, 0, 1, [5, 7], 1, 0);
  }

  // ---------------------------------------------------------------------
  // draw_sprite_alpha

  /** `SpritePixel`: an RGB565 colour and an 8-bit opacity. */
  datatype SpritePixel = SpritePixel(color: U16, alpha: U8)

  /** A weighted sum of two channels with weights a and 255 - a lies
      between 255 times each. */
  lemma WeightedSum(lo: nat, hi: nat, a: U8)
    requires lo <= hi
    ensures lo * 255 <= lo * a + hi * (255 - a) <= hi * 255
  {
    MulMonotone(lo, hi, 255 - a);
    MulMonotone(lo, hi, a);
    assert lo * a + lo * (255 - a) == lo * 255;
    assert hi * a + hi * (255 - a) == hi * 255;
  }

  /** The quotient by 255 of a value between 255 lo and 255 hi lies
      between lo and hi. */
  lemma ScaledDown(lo: nat, hi: nat, v: nat)
    requires lo * 255 <= v <= hi * 255
    ensures lo <= v / 255 <= hi
  {
  }

  /** One channel of the blend, (s * a + d * (255 - a)) / 255 rounded
      down: a weighted mean, so it never leaves the range between the
      sprite's channel and the background's. */
  function BlendChannel(s: nat, d: nat, a: U8): (c: nat)
    ensures s <= d ==> s <= c <= d
    ensures d <= s ==> d <= c <= s
  {
    var v := s * a + d * (255 - a);
    if s <= d then
      WeightedSum(s, d, 255 - a);
      assert v == s * (255 - (255 - a)) + d * (255 - a);
      ScaledDown(s, d, v);
      v / 255
    else
      WeightedSum(d, s, a);
      ScaledDown(d, s, v);
      v / 255
  }

  /** Full opacity gives the sprite's channel, none the background's, and
      blending a channel with itself changes nothing. */
  lemma BlendChannelEnds(s: nat, d: nat, a: U8)
    ensures BlendChannel(s, d, 255) == s
    ensures BlendChannel(s, d, 0) == d
    ensures BlendChannel(s, s, a) == s
  {
    assert s * a + s * (255 - a) == s * 255;
  }

  /** The blend of a sprite colour over a background colour, channel by
      channel, packed back into RGB565. */
  function Blend(s: U16, d: U16, a: U8): (c: U16)
    ensures RedOf(c) == BlendChannel(RedOf(s), RedOf(d), a)
    ensures GreenOf(c) == BlendChannel(GreenOf(s), GreenOf(d), a)
    ensures BlueOf(c) == BlendChannel(BlueOf(s), BlueOf(d), a)
  {
    Pack(BlendChannel(RedOf(s), RedOf(d), a), BlendChannel(GreenOf(s), GreenOf(d), a), BlendChannel(BlueOf(s), BlueOf(d), a))
  }

  /** Blending a colour over itself gives it back, whatever the alpha. */
  lemma BlendSameColour(c: U16, a: U8)
    ensures Blend(c, c, a) == c
  {
    BlendChannelEnds(RedOf(c), RedOf(c), a);
    BlendChannelEnds(GreenOf(c), GreenOf(c), a);
    BlendChannelEnds(BlueOf(c), BlueOf(c), a);
    PackFields(c);
  }

  /** Each channel of `v` lies between those of `s` and `d`. */
  predicate Between(v: U16, s: U16, d: U16)
  {
    (RedOf(s) <= RedOf(v) <= RedOf(d) || RedOf(d) <= RedOf(v) <= RedOf(s))
    && (GreenOf(s) <= GreenOf(v) <= GreenOf(d) || GreenOf(d) <= GreenOf(v) <= GreenOf(s))
    && (BlueOf(s) <= BlueOf(v) <= BlueOf(d) || BlueOf(d) <= BlueOf(v) <= BlueOf(s))
  }

  /** What one sprite pixel does to the background colour under it: below
      alpha 10 nothing, at 255 it replaces it, in between it blends. */
  function AlphaPixel(bg: U16, p: SpritePixel): (c: U16)
    ensures p.alpha < 10 ==> c == bg
    ensures p.alpha == 255 ==> c == p.color
  {
    if p.alpha < 10 then bg
    else if p.alpha == 255 then p.color
    else Blend(p.color, bg, p.alpha)
  }

  /** Every channel of a drawn pixel lies between the sprite's and the
      background's. */
  lemma AlphaPixelBetween(bg: U16, p: SpritePixel)
    ensures Between(AlphaPixel(bg, p), p.color, bg)
  {
  }

  /** `draw_sprite_alpha`: when the rows fit, sprite row i (for i in
      [0, height)) is blended into screen row y + i. The rows it reads must
      lie in the sprite and the cells it writes in the buffer. */
  function DrawSpriteAlpha(fb: FrameBuffers, y: U16, height: U16, x: U16, width: U16, sprite: seq<SpritePixel>): (r: FrameBuffers)
    requires RowsFit(y, height) ==> RowsInside(0, height, y, x, width, |sprite|)
    ensures FrontOf(r) == FrontOf(fb) && r.front == fb.front
    ensures !RowsFit(y, height) ==> r == fb
  {
    if y > Height then fb
    else if height > Height - y then fb
    else WithBack(fb, Rows(BackOf(fb), sprite, AlphaPixel, 0, height, y, x, width))
  }

  /** With its columns on the screen, `draw_sprite_alpha` blends entry
      (i - y) * width + (j - x) of the sprite into pixel (j, i) and leaves
      every pixel outside the sprite alone. */
  lemma DrawSpriteAlphaCells(fb: FrameBuffers, y: U16, height: U16, x: U16, width: U16, sprite: seq<SpritePixel>, i: nat, j: nat)
    requires RowsFit(y, height) && RowsInside(0, height, y, x, width, |sprite|)
    requires x + width <= Width && i < Height && j < Width
    ensures var n := (i - y) * width + (j - x);
            y <= i < y + height && x <= j < x + width ==>
              0 <= n < |sprite|
              && BackOf(DrawSpriteAlpha(fb, y, height, x, width, sprite))[CellOf(j, i)]
                 == AlphaPixel(BackOf(fb)[CellOf(j, i)], sprite[n])
    ensures !(y <= i < y + height && x <= j < x + width) ==>
              BackOf(DrawSpriteAlpha(fb, y, height, x, width, sprite))[CellOf(j, i)] == BackOf(fb)[CellOf(j, i)]
  {
    RowsCells(BackOf(fb), sprite, AlphaPixel, 0, height, y, x, width, CellOf(j, i));
    CellAt(BackOf(fb), sprite, AlphaPixel, 0, height, y, x, width, i, j);
  }

  /** Drawing a fully transparent sprite changes nothing. */
  lemma TransparentSpriteInvisible(fb: FrameBuffers, y: U16, height: U16, x: U16, width: U16, sprite: seq<SpritePixel>)
    requires RowsFit(y, height) ==> RowsInside(0, height, y, x, width, |sprite|)
    requires forall i :: 0 <= i < |sprite| ==> sprite[i].alpha < 10
    ensures DrawSpriteAlpha(fb, y, height, x, width, sprite) == fb
  {
    if RowsFit(y, height) {
      RowsUnchanged(BackOf(fb), sprite, AlphaPixel, 0, height, y, x, width);
      SameState(fb, DrawSpriteAlpha(fb, y, height, x, width, sprite));
    }
  }

  /** The colour words of an alpha sprite. */
  function Colours(sprite: seq<SpritePixel>): (r: seq<U16>)
    ensures |r| == |sprite| && forall i :: 0 <= i < |sprite| ==> r[i] == sprite[i].color
  {
    seq(|sprite|, i requires 0 <= i < |sprite| => sprite[i].color)
  }

  /** With every pixel fully opaque and no colour equal to the key, the
      alpha blit and the corrected keyed blit of its colours agree. */
  lemma OpaqueSpriteIsKeyed(fb: FrameBuffers, y: U16, height: U16, x: U16, width: U16, sprite: seq<SpritePixel>)
    requires RowsFit(y, height) ==> RowsInside(0, height, y, x, width, |sprite|)
    requires forall i :: 0 <= i < |sprite| ==> sprite[i].alpha == 255 && sprite[i].color != SwappedChromaKey
    ensures DrawSpriteAlpha(fb, y, height, x, width, sprite) == DrawSpriteCorrected(fb, y, height, x, width, Colours(sprite))
  {
    if RowsFit(y, height) {
      RowsAgree(BackOf(fb), sprite, AlphaPixel, Colours(sprite), KeyedPixel, 0, height, y, x, width);
    }
  }
}
