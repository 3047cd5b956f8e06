/** The double-buffered framebuffer of the engine: two W x H arrays of
    16-bit RGB565 pixels, one shown (front) and one drawn into (back), and
    the primitives that draw into the back buffer or send the front buffer
    to the panel. The panel driver is abstract: `set_window` and
    `send_data` only append events to a trace. */
module Framebuffer {
  import opened Bits

  /** `DISPLAY_WIDTH` and `DISPLAY_HEIGHT` (`SCREEN_WIDTH`/`SCREEN_HEIGHT`). */
  const Width: nat := 128
  const Height: nat := 160

  /** `DISPLAY_HEIGHT * DISPLAY_WIDTH`. */
  const Cells: nat := 20480

  lemma CellsIsArea()
    ensures Cells == Width * Height
  {
  }

  /** One of the two statically allocated pixel arrays. */
  type Buffer = b: seq<U16> | |b| == Cells witness seq(Cells, _ => 0)

  /** The cell of pixel (x, y) in a buffer: rows are stored one after
      another. */
  function CellOf(x: int, y: int): int { y * Width + x }

  /** The row and column of a cell. */
  lemma RowAndColumn(k: nat)
    ensures k == (k / Width) * Width + k % Width && 0 <= k % Width < Width
  {
  }

  /** The row and column of the cell of an on-screen column. */
  lemma CellParts(x: nat, y: nat)
    requires x < Width
    ensures CellOf(x, y) / Width == y && CellOf(x, y) % Width == x
  {
  }

  /** When a span of cells starting at column x fits in its row, a cell is
      in the span exactly when it lies on that row and between its columns. */
  lemma SpanInRow(k: nat, row: nat, x: nat, width: nat)
    requires x + width <= Width
    ensures CellOf(x, row) <= k < CellOf(x, row) + width
        <==> k / Width == row && x <= k % Width < x + width
  {
    var r, c := k / Width, k % Width;
    RowAndColumn(k);
    if r < row {
      MulLess(r + 1, row + 1, Width);
      assert k < (r + 1) * Width;
    } else if r > row {
      MulLess(row + 1, r + 1, Width);
      assert k >= r * Width;
    }
  }

  /** Which array a pointer designates: `framebuffer_0` or `framebuffer_1`. */
  datatype Slot = Buffer0 | Buffer1

  function Other(s: Slot): Slot
  {
    if s == Buffer0 then Buffer1 else Buffer0
  }

  /** The two arrays and the front pointer. The back pointer is always the
      other array, so the two pointers never designate the same array. */
  datatype FrameBuffers = FrameBuffers(buf0: Buffer, buf1: Buffer, front: Slot)

  function BackSlot(fb: FrameBuffers): (s: Slot)
    ensures s != fb.front
  {
    Other(fb.front)
  }

  function Pixels(fb: FrameBuffers, s: Slot): Buffer
  {
    if s == Buffer0 then fb.buf0 else fb.buf1
  }

  function FrontOf(fb: FrameBuffers): Buffer { Pixels(fb, fb.front) }

  function BackOf(fb: FrameBuffers): Buffer { Pixels(fb, BackSlot(fb)) }

  /** Stores into the array one pointer designates; the other array and the
      pointers stay as they were. */
  function Store(fb: FrameBuffers, s: Slot, b: Buffer): (r: FrameBuffers)
    ensures r.front == fb.front
    ensures Pixels(r, s) == b && Pixels(r, Other(s)) == Pixels(fb, Other(s))
  {
    if s == Buffer0 then fb.(buf0 := b) else fb.(buf1 := b)
  }

  /** Drawing into the back buffer leaves the front buffer alone. */
  function WithBack(fb: FrameBuffers, b: Buffer): (r: FrameBuffers)
    ensures BackOf(r) == b && FrontOf(r) == FrontOf(fb) && r.front == fb.front
  {
    Store(fb, BackSlot(fb), b)
  }

  function WithFront(fb: FrameBuffers, b: Buffer): (r: FrameBuffers)
    ensures FrontOf(r) == b && BackOf(r) == BackOf(fb) && r.front == fb.front
  {
    Store(fb, fb.front, b)
  }

  /** A state is determined by its front pointer and the contents of the
      two arrays it designates. */
  lemma SameState(fb: FrameBuffers, fb': FrameBuffers)
    requires fb.front == fb'.front && FrontOf(fb) == FrontOf(fb') && BackOf(fb) == BackOf(fb')
    ensures fb == fb'
  {
  }

  /** The static arrays start zeroed; `front_buffer` points at
      `framebuffer_0` and `back_buffer` at `framebuffer_1`. */
  const Blank: Buffer := seq(Cells, _ => 0)
  const Initial: FrameBuffers := FrameBuffers(Blank, Blank, Buffer0)

  lemma InitialPointers()
    ensures Initial.front == Buffer0 && BackSlot(Initial) == Buffer1
    ensures forall i :: 0 <= i < Cells ==> FrontOf(Initial)[i] == 0 && BackOf(Initial)[i] == 0
  {
  }

  /** `swap_buffers`: exchanges the roles of the two arrays; no pixel
      changes. */
  function SwapBuffers(fb: FrameBuffers): (r: FrameBuffers)
    ensures r.buf0 == fb.buf0 && r.buf1 == fb.buf1
    ensures FrontOf(r) == BackOf(fb) && BackOf(r) == FrontOf(fb)
    ensures BackSlot(r) == fb.front
  {
    fb.(front := BackSlot(fb))
  }

  /** Swapping twice restores the original roles. */
  lemma SwapBuffersTwice(fb: FrameBuffers)
    ensures SwapBuffers(SwapBuffers(fb)) == fb
  {
  }

  /** `swap_endian`: byte-swaps every word of a buffer. */
  function SwapWords(b: seq<U16>): (r: seq<U16>)
    ensures |r| == |b|
    ensures forall i :: 0 <= i < |b| ==> Hi(r[i]) == Lo(b[i]) && Lo(r[i]) == Hi(b[i])
  {
    seq(|b|, i requires 0 <= i < |b| => ByteSwap16(b[i]))
  }

  /** Swapping the bytes of every word twice gives the buffer back. */
  lemma SwapWordsInvolution(b: seq<U16>)
    ensures SwapWords(SwapWords(b)) == b
  {
    forall i | 0 <= i < |b|
      ensures SwapWords(SwapWords(b))[i] == b[i]
    {
      ByteSwapInvolution(b[i]);
    }
  }

  /** The bytes of a word array as they lie in the memory of a
      little-endian host. */
  function MemoryBytes(b: seq<U16>): (r: seq<U8>)
    ensures |r| == 2 * |b|
  {
    if |b| == 0 then [] else LittleEndian(b[0]) + MemoryBytes(b[1..])
  }

  /** The words of an array, each written high byte first. */
  function BigEndianBytes(b: seq<U16>): (r: seq<U8>)
    ensures |r| == 2 * |b|
  {
    if |b| == 0 then [] else BigEndian(b[0]) + BigEndianBytes(b[1..])
  }

  /** Word i of an array is bytes 2i and 2i + 1 of its big-endian form. */
  lemma {:induction false} BigEndianBytesAt(b: seq<U16>, i: int)
    requires 0 <= i < |b|
    ensures BigEndianBytes(b)[2 * i] == Hi(b[i]) && BigEndianBytes(b)[2 * i + 1] == Lo(b[i])
    decreases |b|
  {
    if i > 0 {
      BigEndianBytesAt(b[1..], i - 1);
    }
  }

  /** The memory image of a byte-swapped array is the array in big-endian
      order. */
  lemma {:induction false} MemoryOfSwapped(b: seq<U16>)
    ensures MemoryBytes(SwapWords(b)) == BigEndianBytes(b)
    decreases |b|
  {
    if |b| > 0 {
      assert SwapWords(b)[1..] == SwapWords(b[1..]);
      MemoryOfSwapped(b[1..]);
      SwappedLittleIsBig(b[0]);
    }
  }

  /** What the panel driver is asked to do. */
  datatype Event =
    | SetWindow(x1: U16, y1: U16, x2: U16, y2: U16)
    | SendData(bytes: seq<U8>)

  /** The result of an operation that talks to the panel: the new state and
      the events it produced, in order. */
  datatype Sent = Sent(fb: FrameBuffers, trace: seq<Event>)

  /** `buffer_size`: `DISPLAY_WIDTH * DISPLAY_HEIGHT` stored in a
      `uint16_t`. */
  const BufferSize: U16 := (Width * Height) % 0x1_0000

  /** `send_to_display`: byte-swaps the front buffer in place, opens the
      full-screen window, sends the buffer's memory, and swaps it back. The
      panel receives every pixel high byte first, and the state comes back
      unchanged. */
  function SendToDisplay(fb: FrameBuffers): (r: Sent)
    ensures r.fb == fb
    ensures r.trace == [SetWindow(0, 0, Width - 1, Height - 1), SendData(BigEndianBytes(FrontOf(fb)))]
    ensures |r.trace[1].bytes| == 2 * Cells
  {
    var swapped := WithFront(fb, SwapWords(FrontOf(fb)));
    var image := MemoryBytes(FrontOf(swapped));
    var trace := [SetWindow(0, 0, Width - 1, Height - 1), SendData(image[..BufferSize * 2])];
    var restored := WithFront(swapped, SwapWords(FrontOf(swapped)));
    SwapWordsInvolution(FrontOf(fb));
    MemoryOfSwapped(FrontOf(fb));
    assert image[..BufferSize * 2] == image;
    Sent(restored, trace)
  }

  /** Pixel (x, y) of the front buffer reaches the panel as bytes
      2(yW + x) and 2(yW + x) + 1, high byte first. */
  lemma SentPixel(fb: FrameBuffers, x: nat, y: nat)
    requires x < Width && y < Height
    ensures var bytes := SendToDisplay(fb).trace[1].bytes;
            var k := CellOf(x, y);
            0 <= k < Cells && Word(bytes[2 * k], bytes[2 * k + 1]) == FrontOf(fb)[k]
  {
    var k := CellOf(x, y);
    BigEndianBytesAt(FrontOf(fb), k);
    WordOfBytes(FrontOf(fb)[k]);
  }

  /** `set_pixel`: writes one back-buffer cell; coordinates off the screen
      are ignored. */
  function SetPixel(fb: FrameBuffers, x: U16, y: U16, color: U16): (r: FrameBuffers)
    ensures FrontOf(r) == FrontOf(fb) && r.front == fb.front
    ensures x >= Width || y >= Height ==> r == fb
    ensures x < Width && y < Height ==>
              0 <= CellOf(x, y) < Cells && BackOf(r)[CellOf(x, y)] == color
    ensures forall i :: 0 <= i < Cells && i != CellOf(x, y) ==> BackOf(r)[i] == BackOf(fb)[i]
  {
    if x >= Width || y >= Height then fb
    else WithBack(fb, BackOf(fb)[CellOf(x, y) := color])
  }

  /** Two on-screen pixels set at different places do not interfere, and
      setting the same place twice keeps the later colour. */
  lemma SetPixelCommutes(fb: FrameBuffers, x: U16, y: U16, c: U16, x': U16, y': U16, c': U16)
    ensures (x, y) != (x', y') ==>
              SetPixel(SetPixel(fb, x, y, c), x', y', c') == SetPixel(SetPixel(fb, x', y', c'), x, y, c)
    ensures SetPixel(SetPixel(fb, x, y, c), x, y, c') == SetPixel(fb, x, y, c')
  {
    if (x, y) != (x', y') && x < Width && y < Height && x' < Width && y' < Height {
      assert CellOf(x, y) != CellOf(x', y');
      assert BackOf(SetPixel(SetPixel(fb, x, y, c), x', y', c'))
          == BackOf(SetPixel(SetPixel(fb, x', y', c'), x, y, c));
    }
    if x < Width && y < Height {
      assert BackOf(SetPixel(SetPixel(fb, x, y, c), x, y, c')) == BackOf(SetPixel(fb, x, y, c'));
    }
  }

  /** A buffer of one colour. */
  function Solid(color: U16): (b: Buffer)
    ensures forall i :: 0 <= i < Cells ==> b[i] == color
  {
    seq(Cells, _ => color)
  }

  /** `fill_with_color`: every back-buffer cell takes the colour. */
  function Fill(fb: FrameBuffers, color: U16): (r: FrameBuffers)
    ensures FrontOf(r) == FrontOf(fb) && r.front == fb.front
    ensures forall i :: 0 <= i < Cells ==> BackOf(r)[i] == color
  {
    WithBack(fb, Solid(color))
  }

  /** A fill erases whatever was drawn into the back buffer before it. */
  lemma FillErases(fb: FrameBuffers, fb': FrameBuffers, color: U16)
    requires FrontOf(fb) == FrontOf(fb') && fb.front == fb'.front
    ensures Fill(fb, color) == Fill(fb', color)
  {
    if fb.front == Buffer0 {
      assert fb.buf0 == fb'.buf0;
    } else {
      assert fb.buf1 == fb'.buf1;
    }
  }

  /** Cells [start, start + len) of a buffer painted with one colour. */
  function PaintSpan(b: Buffer, start: int, len: int, color: U16): (r: Buffer)
    requires 0 <= start && 0 <= len && start + len <= Cells
    ensures forall i :: 0 <= i < Cells ==> r[i] == if start <= i < start + len then color else b[i]
  {
    seq(Cells, i requires 0 <= i < Cells => if start <= i < start + len then color else b[i])
  }

  /** `draw_line`: paints `width` consecutive cells from pixel (x, y) with
      no bounds check; a line longer than the row runs on into the next
      row. The cells must lie inside the buffer, which the caller has to
      ensure. */
  function DrawLine(fb: FrameBuffers, x: U16, y: U16, width: U16, color: U16): (r: FrameBuffers)
    requires CellOf(x, y) + width <= Cells
    ensures FrontOf(r) == FrontOf(fb) && r.front == fb.front
    ensures forall i :: 0 <= i < Cells ==>
              BackOf(r)[i] == if CellOf(x, y) <= i < CellOf(x, y) + width then color else BackOf(fb)[i]
  {
    WithBack(fb, PaintSpan(BackOf(fb), CellOf(x, y), width, color))
  }

  /** Within its row, a line is the same as setting its pixels one by one
      from left to right. */
  lemma DrawLineByPixels(fb: FrameBuffers, x: U16, y: U16, width: U16, color: U16)
    requires x + width < Width && y < Height
    ensures width + 1 < 0x1_0000
    ensures DrawLine(fb, x, y, width + 1, color) == SetPixel(DrawLine(fb, x, y, width, color), x + width, y, color)
  {
    var r := DrawLine(fb, x, y, width + 1, color);
    var r' := SetPixel(DrawLine(fb, x, y, width, color), x + width, y, color);
    assert BackOf(r) == BackOf(r');
    assert r.front == r'.front;
    if fb.front == Buffer0 {
      assert r.buf0 == r'.buf0;
    } else {
      assert r.buf1 == r'.buf1;
    }
  }

  /** A line of length zero draws nothing. */
  lemma DrawLineEmpty(fb: FrameBuffers, x: U16, y: U16, color: U16)
    requires CellOf(x, y) <= Cells
    ensures DrawLine(fb, x, y, 0, color) == fb
  {
    assert BackOf(DrawLine(fb, x, y, 0, color)) == BackOf(fb);
    if fb.front == Buffer0 {
      assert DrawLine(fb, x, y, 0, color).buf1 == fb.buf1;
    } else {
      assert DrawLine(fb, x, y, 0, color).buf0 == fb.buf0;
    }
  }

  /** `init`: clears the back buffer to black and sends the front buffer. */
  function Init(fb: FrameBuffers): (r: Sent)
    ensures forall i :: 0 <= i < Cells ==> BackOf(r.fb)[i] == 0
    ensures FrontOf(r.fb) == FrontOf(fb)
    ensures r.trace == [SetWindow(0, 0, Width - 1, Height - 1), SendData(BigEndianBytes(FrontOf(fb)))]
  {
    SendToDisplay(Fill(fb, 0))
  }

  lemma ZeroBytes(v: U16)
    requires v == 0
    ensures Hi(v) == 0 && Lo(v) == 0
  {
  }

  /** An all-black array, such as the zeroed front buffer `init` sends at
      start-up, goes out as zero bytes only. */
  lemma BlackBytes(b: seq<U16>)
    requires forall i :: 0 <= i < |b| ==> b[i] == 0
    ensures forall i :: 0 <= i < 2 * |b| ==> BigEndianBytes(b)[i] == 0
  {
    forall i | 0 <= i < 2 * |b|
      ensures BigEndianBytes(b)[i] == 0
    {
      var q := i / 2;
      ZeroBytes(b[q]);
      BigEndianBytesAt(b, q);
    }
  }

}
