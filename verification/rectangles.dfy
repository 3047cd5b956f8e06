/** The two rectangle fills of the framebuffer: `draw_rectangle`, a loop of
    `draw_line` calls, and `draw_rectangle_memset`, which paints the first
    row and copies it downwards. Both refuse a starting row past the screen
    or a row count that does not fit below it; neither checks columns. */
module Rectangles {
  import opened Bits
  import opened Framebuffer

  /** The row guard of the checked drawing calls: the starting row is at
      most `SCREEN_HEIGHT` and the row count fits in what is left. */
  predicate RowsFit(y: U16, height: U16)
  {
    y <= Height && height <= Height - y
  }

  /** Paints `count` spans of `width` cells, one per row from `row` on,
      each starting at column x. */
  function PaintRows(b: Buffer, row: nat, count: nat, x: nat, width: nat, color: U16): Buffer
    requires count > 0 ==> CellOf(x, row + count - 1) + width <= Cells
    decreases count
  {
    if count == 0 then b
    else PaintRows(PaintSpan(b, CellOf(x, row), width, color), row + 1, count - 1, x, width, color)
  }

  /** Cell k lies in one of the spans PaintRows paints. */
  predicate InRows(k: int, row: nat, count: nat, x: nat, width: nat)
    decreases count
  {
    count > 0 && (CellOf(x, row) <= k < CellOf(x, row) + width || InRows(k, row + 1, count - 1, x, width))
  }

  /** PaintRows gives the colour to the cells of its spans and to nothing
      else. */
  lemma {:induction false} PaintRowsCells(b: Buffer, row: nat, count: nat, x: nat, width: nat, color: U16)
    requires count > 0 ==> CellOf(x, row + count - 1) + width <= Cells
    ensures forall k :: 0 <= k < Cells ==>
              PaintRows(b, row, count, x, width, color)[k] == if InRows(k, row, count, x, width) then color else b[k]
    decreases count
  {
    if count > 0 {
      PaintRowsCells(PaintSpan(b, CellOf(x, row), width, color), row + 1, count - 1, x, width, color);
    }
  }

  /** When the spans fit in their rows they make up the rectangle of rows
      [row, row + count) and columns [x, x + width). */
  lemma {:induction false} RowsAreRectangle(k: nat, row: nat, count: nat, x: nat, width: nat)
    requires x + width <= Width
    ensures InRows(k, row, count, x, width)
        <==> row <= k / Width < row + count && x <= k % Width < x + width
    decreases count
  {
    if count > 0 {
      SpanInRow(k, row, x, width);
      RowsAreRectangle(k, row + 1, count - 1, x, width);
    }
  }

  /** The `draw_line` calls of `draw_rectangle`, one per row from `row`
      on. Together they paint the spans PaintRows paints. */
  function DrawLines(fb: FrameBuffers, row: nat, count: nat, x: U16, width: U16, color: U16): (r: FrameBuffers)
    requires count > 0 ==> CellOf(x, row + count - 1) + width <= Cells
    ensures r == WithBack(fb, PaintRows(BackOf(fb), row, count, x, width, color))
    decreases count
  {
    if count == 0 then
      SameState(fb, WithBack(fb, BackOf(fb)));
      fb
    else
      assert row <= Height by { assert CellOf(x, row) <= CellOf(x, row + count - 1); }
      DrawLines(DrawLine(fb, x, row, width, color), row + 1, count - 1, x, width, color)
  }

  /** `draw_rectangle`: if the rows fit, `draw_line` for each row of
      [y, y + height). The lines must lie inside the buffer. */
  function DrawRectangle(fb: FrameBuffers, y: U16, height: U16, x: U16, width: U16, color: U16): (r: FrameBuffers)
    requires RowsFit(y, height) && height > 0 ==> CellOf(x, y + height - 1) + width <= Cells
    ensures FrontOf(r) == FrontOf(fb) && r.front == fb.front
    ensures !RowsFit(y, height) ==> r == fb
    ensures RowsFit(y, height) ==>
              forall k :: 0 <= k < Cells ==>
                BackOf(r)[k] == if InRows(k, y, height, x, width) then color else BackOf(fb)[k]
  {
    if y > Height then fb
    else if height > Height - y then fb
    else
      PaintRowsCells(BackOf(fb), y, height, x, width, color);
      DrawLines(fb, y, height, x, width, color)
  }

  /** With the columns on the screen, `draw_rectangle` colours exactly the
      cells of rows [y, y + height) and columns [x, x + width) and leaves
      every other back-buffer cell as it was. */
  lemma DrawRectangleCells(fb: FrameBuffers, y: U16, height: U16, x: U16, width: U16, color: U16, k: nat)
    requires RowsFit(y, height) && x + width <= Width && k < Cells
    ensures BackOf(DrawRectangle(fb, y, height, x, width, color))[k]
         == if y <= k / Width < y + height && x <= k % Width < x + width then color else BackOf(fb)[k]
  {
    RowsAreRectangle(k, y, height, x, width);
  }

  /** The number of rows `draw_rectangle_memset` writes: the first row,
      then one copy for each i in [1, y + height). */
  function MemsetRows(y: U16, height: U16): nat
  {
    if y + height >= 1 then y + height else 1
  }

  /** One `memcpy` of `len` cells from `src` to `dest`. */
  function CopySpan(b: Buffer, src: nat, dest: nat, len: nat): (r: Buffer)
    requires src + len <= Cells && dest + len <= Cells
    ensures forall i :: 0 <= i < Cells ==> r[i] == if dest <= i < dest + len then b[src + (i - dest)] else b[i]
  {
    seq(Cells, i requires 0 <= i < Cells => if dest <= i < dest + len then b[src + (i - dest)] else b[i])
  }

  /** The copy loop of `draw_rectangle_memset`: `count` copies of the
      `width` cells at `src`, the first to `dest`, each next one a row
      further down. `memcpy` needs source and destination apart, which the
      first copy, the nearest one, must already be. */
  function CopyRows(b: Buffer, src: nat, dest: nat, count: nat, width: nat): Buffer
    requires count > 0 ==> src + width <= dest && dest + (count - 1) * Width + width <= Cells
    decreases count
  {
    if count == 0 then b
    else CopyRows(CopySpan(b, src, dest, width), src, dest + Width, count - 1, width)
  }

  /** Copying a span that already holds the colour paints the rows below
      it, one span per row. */
  lemma {:induction false} CopiesPaint(b: Buffer, src: nat, row: nat, count: nat, x: nat, width: nat, color: U16)
    requires count > 0 ==> src + width <= CellOf(x, row) && CellOf(x, row + count - 1) + width <= Cells
    requires forall i :: src <= i < src + width && i < Cells ==> b[i] == color
    ensures CopyRows(b, src, CellOf(x, row), count, width) == PaintRows(b, row, count, x, width, color)
    decreases count
  {
    if count > 0 {
      var copied := CopySpan(b, src, CellOf(x, row), width);
      assert copied == PaintSpan(b, CellOf(x, row), width, color);
      assert CellOf(x, row) + Width == CellOf(x, row + 1);
      CopiesPaint(copied, src, row + 1, count - 1, x, width, color);
    }
  }

  /** The fill of `draw_rectangle_memset` from row y: the span of the first
      row painted cell by cell, then `rows - 1` copies of it. */
  function MemsetFill(b: Buffer, y: nat, rows: nat, x: nat, width: nat, color: U16): (r: Buffer)
    requires rows > 0 && CellOf(x, y + rows - 1) + width <= Cells && (rows > 1 ==> width <= Width)
    ensures r == PaintRows(b, y, rows, x, width, color)
  {
    var first := PaintSpan(b, CellOf(x, y), width, color);
    assert CellOf(x, y) <= CellOf(x, y + rows - 1);
    assert CellOf(x, y) + Width == CellOf(x, y + 1);
    CopiesPaint(first, CellOf(x, y), y + 1, rows - 1, x, width, color);
    CopyRows(first, CellOf(x, y), CellOf(x, y + 1), rows - 1, width)
  }

  /** `draw_rectangle_memset` as written: if the rows fit, paints row y,
      then copies it to the next y + height - 1 rows (not height - 1). The
      rows written must lie inside the buffer, and a copy must not overlap
      its source (`memcpy`), so the span is at most one row wide. */
  function DrawRectangleMemset(fb: FrameBuffers, y: U16, height: U16, x: U16, width: U16, color: U16): (r: FrameBuffers)
    requires RowsFit(y, height) ==>
               CellOf(x, y + MemsetRows(y, height) - 1) + width <= Cells
               && (MemsetRows(y, height) > 1 ==> width <= Width)
    ensures FrontOf(r) == FrontOf(fb) && r.front == fb.front
    ensures !RowsFit(y, height) ==> r == fb
    ensures RowsFit(y, height) ==>
              forall k :: 0 <= k < Cells ==>
                BackOf(r)[k] == if InRows(k, y, MemsetRows(y, height), x, width) then color else BackOf(fb)[k]
  {
    if y > Height then fb
    else if height > Height - y then fb
    else
      var rows := MemsetRows(y, height);
      PaintRowsCells(BackOf(fb), y, rows, x, width, color);
      WithBack(fb, MemsetFill(BackOf(fb), y, rows, x, width, color))
  }

  /** With the columns on the screen, the memset variant colours rows
      [y, max(y + 1, 2y + height)): y rows too many whenever y > 0, and one
      row even when height is 0. */
  lemma DrawRectangleMemsetCells(fb: FrameBuffers, y: U16, height: U16, x: U16, width: U16, color: U16, k: nat)
    requires RowsFit(y, height) && x + width <= Width && k < Cells
    requires CellOf(x, y + MemsetRows(y, height) - 1) + width <= Cells
    ensures BackOf(DrawRectangleMemset(fb, y, height, x, width, color))[k]
         == if y <= k / Width < y + MemsetRows(y, height) && x <= k % Width < x + width then color
            else BackOf(fb)[k]
  {
    RowsAreRectangle(k, y, MemsetRows(y, height), x, width);
  }

  /** From the top row, and for a non-empty rectangle, the two fills agree,
      whenever the memset variant stays inside the buffer. */
  lemma MemsetMatchesAtTop(fb: FrameBuffers, height: U16, x: U16, width: U16, color: U16)
    requires 1 <= height <= Height
    requires CellOf(x, height - 1) + width <= Cells && (height > 1 ==> width <= Width)
    ensures DrawRectangleMemset(fb, 0, height, x, width, color) == DrawRectangle(fb, 0, height, x, width, color)
  {
  }

  /** Counterexample: one row at y = 1 with the memset variant also paints
      row 2, which `draw_rectangle` leaves alone. */
  lemma MemsetPaintsExtraRow(fb: FrameBuffers)
    ensures var k := CellOf(0, 2);
            BackOf(DrawRectangleMemset(fb, 1, 1, 0, 1, 0xFFFF))[k] == 0xFFFF
            && BackOf(DrawRectangle(fb, 1, 1, 0, 1, 0xFFFF))[k] == BackOf(fb)[k]
  {
    DrawRectangleMemsetCells(fb, 1, 1, 0, 1, 0xFFFF, CellOf(0, 2));
    DrawRectangleCells(fb, 1, 1, 0, 1, 0xFFFF, CellOf(0, 2));
  }

  /** Counterexample: a rectangle of zero rows still gets its first row
      from the memset variant. */
  lemma MemsetPaintsEmptyRectangle(fb: FrameBuffers)
    ensures var k := CellOf(0, 0);
            BackOf(DrawRectangleMemset(fb, 0, 0, 0, 1, 0xFFFF))[k] == 0xFFFF
            && DrawRectangle(fb, 0, 0, 0, 1, 0xFFFF) == fb
  {
    DrawRectangleMemsetCells(fb, 0, 0, 0, 1, 0xFFFF, 0);
    DrawRectangleCells(fb, 0, 0, 0, 1, 0xFFFF, 0);
    assert BackOf(DrawRectangle(fb, 0, 0, 0, 1, 0xFFFF)) == BackOf(fb);
  }

  /** Counterexample: the row guard admits y = 100 and 60 rows, for which
      the memset variant would write rows up to 259 of a 160-row buffer. */
  lemma MemsetGuardAdmitsOverrun()
    ensures RowsFit(100, 60)
    ensures CellOf(0, 100 + MemsetRows(100, 60) - 1) + 1 > Cells
  {
  }

  /** The evidently intended `draw_rectangle_memset`: the first row only
      when there is one, and height - 1 copies. */
  function DrawRectangleMemsetCorrected(fb: FrameBuffers, y: U16, height: U16, x: U16, width: U16, color: U16): (r: FrameBuffers)
    requires RowsFit(y, height) && height > 0 ==>
               CellOf(x, y + height - 1) + width <= Cells && (height > 1 ==> width <= Width)
    ensures FrontOf(r) == FrontOf(fb) && r.front == fb.front
    ensures !RowsFit(y, height) ==> r == fb
  {
    if y > Height || height > Height - y || height == 0 then fb
    else WithBack(fb, MemsetFill(BackOf(fb), y, height, x, width, color))
  }

  /** The corrected memset fill is `draw_rectangle`, for every input. */
  lemma MemsetCorrectedIsRectangle(fb: FrameBuffers, y: U16, height: U16, x: U16, width: U16, color: U16)
    requires RowsFit(y, height) && height > 0 ==>
               CellOf(x, y + height - 1) + width <= Cells && (height > 1 ==> width <= Width)
    ensures DrawRectangleMemsetCorrected(fb, y, height, x, width, color) == DrawRectangle(fb, y, height, x, width, color)
  {
    if RowsFit(y, height) && height == 0 {
      assert PaintRows(BackOf(fb), y, height, x, width, color) == BackOf(fb);
      assert WithBack(fb, BackOf(fb)) == fb by {
        if fb.front == Buffer0 {
          assert WithBack(fb, BackOf(fb)).buf1 == fb.buf1;
        } else {
          assert WithBack(fb, BackOf(fb)).buf0 == fb.buf0;
        }
      }
    }
  }
}
