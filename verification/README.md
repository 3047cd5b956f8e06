# trigg_engine pixel core in Dafny

This is a Dafny model of the pixel engine of trigg_engine, a small engine for a 128 × 160 ST7735 panel, and of the pure logic of its offline sprite tools.

**Engine**

- `Framebuffer` models the double-buffered framebuffer. It holds two arrays of `DISPLAY_WIDTH * DISPLAY_HEIGHT` RGB565 words and a front pointer; the back buffer is always the other array.
- The drawing primitives are:
  - `set_pixel`, `fill_with_color`, the unchecked `draw_line`;
  - the two rectangle fills, in `Rectangles`;
  - the chroma-key and alpha-blended sprite blits, in `Sprites`;
  - integer Bresenham and the diamond outline, in `Lines`.
- `swap_buffers`, `swap_endian` and `send_to_display` complete the engine's operations. `init` is `fill_with_color(0)` followed by `send_to_display`.
- The panel is abstract. `set_window` and `send_data` only append events to a trace.
- `FixedPoint` models `Fixed_q16`, the Q16.16 number. Its raw `int32_t` wraps on overflow. `to_int` is an arithmetic shift, so it rounds down. `/` is a 64-bit C++ division, so it truncates toward zero.
- `Iso` models the isometric projection `world_to_screen` and the ground-level inverse `screen_to_world`.

**Tools**

- The pixel tools are written in C++:
  - `png_to_sprite_alpha` writes a 4-byte header and then 3-byte records, each a colour and an alpha;
  - `png_to_sprite_verbose` writes a 4-byte header and then 2-byte words, with the chroma key 0xF81F for transparent pixels;
  - `inspect_sprite` counts the key words.
- These are modelled as functions over byte sequences, in `SpriteEncode` and `SpriteInspect`. They start from an already decoded RGBA image.
- The two Python header generators are in `SpriteToCpp`.
- `Pipeline` connects the tools:
  - what a converter writes, a script reads back;
  - the big-endian read of the chroma script turns the file's key 0xF81F into 0x1FF8, the value `draw_sprite` skips.

**Conventions**

- Fixed-width integers are subset types of `int`: `U8`, `U16` and `I32`.
- Every `int` and `int32_t` result the sources compute is wrapped explicitly with `Bits.Wrap32`.
- C's truncating division is `Bits.TruncDiv`.
- The host is little-endian.
- Where the source's code and its stated intent differ, the model follows the code. Two such places are listed under Findings.
- Screen dimensions: W = 128, H = 160 (`SCREEN_WIDTH`/`SCREEN_HEIGHT` in drivers/hardware_config.h).

## Model

| member | source | states |
|---|---|---|
| Bits.ByteSwap16 | engine/graphics/framebuffer.cpp:17 | the swapped word's high byte is the original's low byte and its low byte the original's high byte |
| Bits.ByteSwapInvolution | tools/png_to_sprite_alpha.cpp:15-17 | swapping the two bytes twice gives the word back |
| Bits.ByteSwapFixedPoints | engine/graphics/framebuffer.cpp:12-19 | a word is unchanged by the swap exactly when its two bytes are equal |
| Bits.LittleEndian | tools/png_to_sprite_alpha.cpp:45-46 | a word stored by a little-endian host is two bytes, low byte first, that read back as the word |
| Bits.BigEndian | engine/graphics/framebuffer.cpp:37 | the high-byte-first form of a word is two bytes that read back as the word |
| Bits.SwappedLittleIsBig | engine/graphics/framebuffer.cpp:34-37 | the memory image of a byte-swapped word is the original word high byte first |
| Bits.BigReadOfLittle | tools/sprite_to_cpp.py:28 | reading a little-endian pair big-endian yields the byte-swapped word |
| Bits.Wrap32Unique | engine/math/fixed_point.h:25 | the value an `int32_t` stores is the only 32-bit integer that differs from the exact result by a multiple of 2^32 |
| Bits.Wrap32Congruent | engine/math/fixed_point.h:25 | two results store the same `int32_t` exactly when they agree modulo 2^32 |
| Bits.Wrap16 | engine/math/fixed_point.h:15-17 | the 16-bit two's-complement reduction lies in [-2^15, 2^15), agrees with its input modulo 2^16, and is the identity on that range |
| Bits.TruncDivBounds | engine/math/fixed_point.h:40 | C's quotient leaves a remainder with the dividend's sign, smaller in magnitude than the divisor |
| Bits.TruncDivUnique | engine/math/fixed_point.h:40 | that quotient is the only integer with those remainder bounds |
| Bits.TruncDivExact | engine/math/fixed_point.h:40 | an exact quotient is found whatever the rounding |
| Bits.TruncDivScale | engine/math/fixed_point.h:40 | scaling dividend and divisor by the same positive factor leaves the truncating quotient unchanged |
| FixedPoint.SmallConstants | engine/math/fixed_point.h:13-17 | `Fixed_q16(1)` has raw 0x10000 and `Fixed_q16(2)` raw 0x20000 |
| FixedPoint.ToInt | engine/math/fixed_point.h:19-21 | `to_int` is the floor of raw / 2^16: n · 2^16 ≤ raw < (n + 1) · 2^16, with n in the 16-bit range |
| FixedPoint.ToIntFloors | engine/math/fixed_point.h:19-21 | raw -1 gives -1, raw 0xFFFF gives 0 and raw -0x18000 gives -2, i.e. rounding toward negative infinity |
| FixedPoint.WholePartOf | engine/math/fixed_point.h:19-21 | the whole part is the unique n whose unit interval holds the value |
| FixedPoint.FromInt | engine/math/fixed_point.h:13-17 | the raw of `Fixed_q16(n)` is n · 2^16 when that fits an `int32_t`, and always agrees with n · 2^16 modulo 2^32 |
| FixedPoint.Add | engine/math/fixed_point.h:23-27 | the raw of p + q is the sum of the raws when that fits an `int32_t`, and always agrees with it modulo 2^32 |
| FixedPoint.Sub | engine/math/fixed_point.h:28-32 | the raw of p - q is the difference of the raws when that fits an `int32_t`, and always agrees with it modulo 2^32 |
| FixedPoint.Mul | engine/math/fixed_point.h:33-37 | for the n with n · 2^16 ≤ p.raw · q.raw < (n + 1) · 2^16, the product's raw agrees with n modulo 2^32 and equals n when n fits an `int32_t` |
| FixedPoint.Div | engine/math/fixed_point.h:38-42 | the quotient's raw agrees modulo 2^32 with p.raw · 2^16 / q.raw truncated toward zero, and when that fits an `int32_t` it leaves a remainder with the dividend's sign smaller in magnitude than q.raw |
| FixedPoint.ToIntFromInt | engine/math/fixed_point.h:13-21 | for -32768 ≤ n ≤ 32767, the int constructor gives raw n · 65536 and `to_int` gives n back |
| FixedPoint.FromIntWraps | engine/math/fixed_point.h:13-17 | for any `int32_t` n, the shift keeps only the 16-bit wrap of n as the whole part |
| FixedPoint.AddFromInt | engine/math/fixed_point.h:23-27 | Fixed(a) + Fixed(b) == Fixed(a + b) whenever a + b fits an `int32_t` |
| FixedPoint.AddSubCancel | engine/math/fixed_point.h:23-32 | (p + q) - q == p for all raws, wrap-around included |
| FixedPoint.AddSubZero | engine/math/fixed_point.h:23-32 | the default-constructed zero is an identity for + and - |
| FixedPoint.MulFloors | engine/math/fixed_point.h:33-37 | unless the 32-bit store wraps, the product's raw is the floor of p.raw · q.raw / 2^16 |
| FixedPoint.MulOne | engine/math/fixed_point.h:33-37 | `Fixed_q16(1)` is a two-sided identity for * |
| FixedPoint.DivTruncates | engine/math/fixed_point.h:38-42 | unless the store wraps, the quotient's raw is (p.raw · 2^16) / q.raw rounded toward zero |
| FixedPoint.DivOne | engine/math/fixed_point.h:38-42 | p / Fixed(1) == p |
| FixedPoint.DivTwo | engine/math/fixed_point.h:38-42 | dividing by Fixed(2) halves the raw, truncating toward zero, and is exact for an even raw |
| Rgb565.Pack | engine/graphics/framebuffer.cpp:175 | packing in-range fields into bits 15-11, 10-5 and 4-0 (the bitwise or of the shifted fields) reads back as exactly those three fields |
| Rgb565.PackFields | engine/graphics/framebuffer.cpp:158-166 | unpacking the three fields and packing them again gives the colour back |
| Rgb565.RgbToRgb565 | tools/png_to_sprite_alpha.cpp:10-12 | the packed colour has r>>3 in bits 15-11, g>>2 in bits 10-5 and b>>3 in bits 4-0 |
| Rgb565.RgbToRgb565Quantises | tools/png_to_sprite_alpha.cpp:10-12 | two colours encode alike exactly when they differ only in the low 3 bits of red and blue and the low 2 of green |
| Rgb565.RgbToRgb565Examples | tools/png_to_sprite_alpha.cpp:10-12 | pure red, green, blue and white encode to 0xF800, 0x07E0, 0x001F and 0xFFFF |
| Rgb565.OpaqueMagentaIsSentinel | tools/png_to_sprite_verbose.cpp:9-11 | an opaque colour encodes to the transparency sentinel 0xF81F exactly when r ≥ 248, g < 4 and b ≥ 248 |
| Rgb565.ChromaKeysSwapped | engine/graphics/framebuffer.cpp:120 | the blitter's key 0x1FF8 and the file's sentinel 0xF81F are each other's byte swap |
| Rgb565.Rgb565ToRgb888 | tools/inspect_sprite.cpp:11-17 | the expanded channels are the fields shifted up by 3, 2 and 3: low bits zero, r and b ≤ 248, g ≤ 252 |
| Rgb565.Rgb888RoundTrip | tools/inspect_sprite.cpp:11-17 | encoding the expansion of any 16-bit colour gives that colour back |
| Rgb565.Rgb888Truncates | tools/inspect_sprite.cpp:13-15 | expanding an encoded colour clears exactly the low bits the encoding dropped |
| Iso.WorldToScreen | engine/isometric/iso_math.h:25-34 | away from wrap-around, screen x - offset_x is the floor of (x - y) in whole units, and screen y - offset_y the floor of trunc((x + y) / 2) - z |
| Iso.ScreenToWorld | engine/isometric/iso_math.h:42 | ground-level `screen_to_world` always returns z = 0 |
| Iso.BackProjection | engine/isometric/iso_math.h:39-45 | for every screen point, the ground point's raws are the `int32_t` stores of a·2^15 + b·2^16 and b·2^16 - a·2^15, where a and b are the 16-bit whole parts of x - offset_x and y - offset_y |
| Iso.ScreenToWorldGround | engine/isometric/iso_math.h:37-46 | near the camera the back-projection is exactly (a/2 + b, b - a/2, 0) in real terms |
| Iso.GroundRoundTrip | engine/isometric/iso_math.h:25-46 | `world_to_screen(screen_to_world(s))` == s exactly when s - offset is in [-2^15, 2^15) horizontally and [-2^14, 2^14) vertically |
| Iso.RoundTripX | engine/isometric/iso_math.h:27-43 | the horizontal coordinate survives the round trip exactly when x - offset_x fits 16 bits |
| Iso.RoundTripY | engine/isometric/iso_math.h:28-44 | the vertical coordinate survives exactly when y - offset_y fits 15 bits |
| Iso.GroundRoundTripNearCamera | engine/isometric/iso_math.h:25-46 | within 8192 pixels of the camera on both axes the round trip is exact |
| Iso.ProjectWholeGroundPoint | engine/isometric/iso_math.h:25-34 | a whole ground point (i, j) projects to (i - j, floor((i + j) / 2)) plus the offsets |
| Iso.WholeGroundPointReturns | engine/isometric/iso_math.h:25-46 | a small whole ground point (i, j) comes back on the ground, at most half a unit lower in x and y, and it comes back unchanged exactly when i + j is even |
| Iso.RaiseOneUnit | engine/isometric/iso_math.h:27-32 | raising z by one unit lowers screen y by exactly 1 and leaves screen x unchanged, unless sy wraps |
| Iso.CameraTranslates | engine/isometric/iso_math.h:31-32 | moving the camera offsets by (dx, dy) moves the projected point by exactly (dx, dy) in `int` arithmetic |
| Framebuffer.CellsIsArea | engine/graphics/framebuffer.h:13-14 | each buffer has exactly `DISPLAY_HEIGHT * DISPLAY_WIDTH` = 128 · 160 cells |
| Framebuffer.BackSlot | engine/graphics/framebuffer.h:16-17 | the back pointer never designates the same array as the front pointer |
| Framebuffer.InitialPointers | engine/graphics/framebuffer.h:13-17 | front starts as `framebuffer_0` and back as `framebuffer_1`, both zeroed |
| Framebuffer.SwapBuffers | engine/graphics/framebuffer.cpp:26-31 | the old back buffer becomes the front and vice versa, and no pixel of either array changes |
| Framebuffer.SwapBuffersTwice | engine/graphics/framebuffer.cpp:26-31 | two swaps restore the original state |
| Framebuffer.SwapWords | engine/graphics/framebuffer.cpp:12-19 | every word of the buffer has its bytes exchanged, and the length is kept |
| Framebuffer.SwapWordsInvolution | engine/graphics/framebuffer.cpp:12-19 | swapping a buffer twice gives it back |
| Framebuffer.MemoryOfSwapped | engine/graphics/framebuffer.cpp:34-37 | the little-endian memory of the swapped buffer is the buffer high byte first |
| Framebuffer.SendToDisplay | engine/graphics/framebuffer.cpp:32-39 | the state comes back unchanged, and the trace is the window (0, 0, W-1, H-1) and then all W·H·2 bytes of the front buffer, high byte first |
| Framebuffer.SentPixel | engine/graphics/framebuffer.cpp:32-39 | front pixel (x, y) reaches the panel as bytes 2(yW + x) and 2(yW + x) + 1, high byte first |
| Framebuffer.SetPixel | engine/graphics/framebuffer.cpp:41-45 | off-screen coordinates change nothing; otherwise only back cell yW + x changes, to the colour; the front is untouched |
| Framebuffer.SetPixelCommutes | engine/graphics/framebuffer.cpp:41-45 | writes to different pixels commute, and a second write to the same pixel wins |
| Framebuffer.Fill | engine/graphics/framebuffer.cpp:46-51 | every back cell takes the colour and the front buffer is untouched |
| Framebuffer.FillErases | engine/graphics/framebuffer.cpp:46-51 | the result of a fill does not depend on what the back buffer held |
| Framebuffer.DrawLine | engine/graphics/framebuffer.cpp:53-58 | exactly cells [yW + x, yW + x + width) take the colour, running on into the next row when long; the front is untouched |
| Framebuffer.DrawLineByPixels | engine/graphics/framebuffer.cpp:53-58 | within a row, a line one longer is the shorter line followed by `set_pixel` of its next pixel |
| Framebuffer.DrawLineEmpty | engine/graphics/framebuffer.cpp:53-58 | a line of length 0 changes nothing |
| Framebuffer.Init | engine/graphics/framebuffer.cpp:21-25 | the back buffer becomes black, the front is kept and sent whole |
| Framebuffer.BlackBytes | engine/graphics/framebuffer.cpp:21-25 | a black buffer is sent as zero bytes only |
| Rectangles.DrawLines | engine/graphics/framebuffer.cpp:71-74 | the loop of `draw_line` calls paints one span per row and leaves the front alone |
| Rectangles.RowsAreRectangle | engine/graphics/framebuffer.cpp:71-74 | when the spans fit in their rows, a cell is painted exactly when it is in rows [y, y + h) and columns [x, x + w) |
| Rectangles.DrawRectangle | engine/graphics/framebuffer.cpp:59-75 | the guard y > H or height > H - y leaves everything unchanged; otherwise exactly the spans' cells take the colour |
| Rectangles.DrawRectangleCells | engine/graphics/framebuffer.cpp:59-75 | with x + width ≤ W, exactly rows [y, y + height) × columns [x, x + width) take the colour |
| Rectangles.CopySpan | engine/graphics/framebuffer.cpp:95 | one `memcpy`: the destination span takes the source span's cells in order, and every other cell is kept |
| Rectangles.CopiesPaint | engine/graphics/framebuffer.cpp:93-98 | copying a span that holds the colour to successive rows paints exactly one span per row, as painting each row would |
| Rectangles.MemsetFill | engine/graphics/framebuffer.cpp:87-98 | painting the first row's span and then copying it down to rows - 1 rows paints the same cells as painting every row directly |
| Rectangles.DrawRectangleMemset | engine/graphics/framebuffer.cpp:76-99 | same guard; otherwise the first row and y + height - 1 copies of it are painted, and nothing else |
| Rectangles.DrawRectangleMemsetCells | engine/graphics/framebuffer.cpp:87-98 | it paints rows [y, y + max(1, y + height)) × [x, x + width), which exceeds the rectangle whenever y > 0 or height = 0 |
| Rectangles.MemsetMatchesAtTop | engine/graphics/framebuffer.cpp:76-99 | with y = 0 and height ≥ 1, whenever the memset variant stays inside the buffer, it yields the same state as `draw_rectangle` |
| Rectangles.MemsetPaintsExtraRow | engine/graphics/framebuffer.cpp:94-98 | y = 1, height = 1 paints row 2, which `draw_rectangle` leaves alone |
| Rectangles.MemsetPaintsEmptyRectangle | engine/graphics/framebuffer.cpp:87-90 | height = 0 still paints the first row, while `draw_rectangle` is a no-op |
| Rectangles.MemsetGuardAdmitsOverrun | engine/graphics/framebuffer.cpp:78-95 | the guard accepts y = 100, height = 60, for which the copies run past the 160-row buffer |
| Rectangles.DrawRectangleMemsetCorrected | engine/graphics/framebuffer.cpp:76-99 | the intended fill: same guard, front untouched |
| Rectangles.MemsetCorrectedIsRectangle | engine/graphics/framebuffer.cpp:59-99 | the corrected memset fill equals `draw_rectangle` for every input |
| Sprites.DrawSprite | engine/graphics/framebuffer.cpp:101-124 | same guard; front untouched; every back cell either keeps its value or holds a sprite entry other than the key 0x1FF8 |
| Sprites.DrawSpriteCells | engine/graphics/framebuffer.cpp:112-122 | for a sprite whose columns fit the screen, pixel (j, i) with i in [2y, y + height) and j in [x, x + width) shows entry (i - y)·width + (j - x) unless that entry is the key 0x1FF8, and every other pixel keeps its value |
| Sprites.DrawSpriteCorrected | engine/graphics/framebuffer.cpp:116-117 | the intended blit has the same guard and the same keyed-entry property |
| Sprites.DrawSpriteCorrectedCells | engine/graphics/framebuffer.cpp:116-117 | the intended blit puts entry (i - y)·width + (j - x) at pixel (j, i) of the whole sprite rectangle unless it is the key, all other pixels kept |
| Sprites.DrawSpriteAtTop | engine/graphics/framebuffer.cpp:112-121 | at y = 0 the blit as written and the intended blit agree |
| Sprites.DrawSpriteSkipsRows | engine/graphics/framebuffer.cpp:112-121 | a 1 × 2 sprite [5, 7] at y = 1: the intended blit shows 5 at row 1, the one as written leaves that pixel alone |
| Sprites.BlendChannel | engine/graphics/framebuffer.cpp:168-172 | ⌊(s·a + d·(255 - a)) / 255⌋ lies between s and d, so 5- and 6-bit channels stay in range |
| Sprites.BlendChannelEnds | engine/graphics/framebuffer.cpp:168-172 | alpha 255 gives the sprite channel, alpha 0 the background's, and equal channels are kept |
| Sprites.Blend | engine/graphics/framebuffer.cpp:157-175 | each field of the repacked colour is the blend of the corresponding fields, with no spill between fields |
| Sprites.BlendSameColour | engine/graphics/framebuffer.cpp:157-175 | blending a colour over itself gives it back at any alpha |
| Sprites.AlphaPixel | engine/graphics/framebuffer.cpp:141-175 | alpha < 10 keeps the background and alpha 255 writes the colour verbatim |
| Sprites.AlphaPixelBetween | engine/graphics/framebuffer.cpp:141-175 | every channel of the result lies between the sprite's and the background's |
| Sprites.DrawSpriteAlpha | engine/graphics/framebuffer.cpp:125-178 | same guard and front untouched |
| Sprites.DrawSpriteAlphaCells | engine/graphics/framebuffer.cpp:136-146 | pixel (j, i) in the sprite rectangle gets entry (i - y)·width + (j - x) drawn over it, and every other pixel is kept |
| Sprites.TransparentSpriteInvisible | engine/graphics/framebuffer.cpp:144 | a sprite whose alphas are all below 10 changes nothing |
| Sprites.OpaqueSpriteIsKeyed | engine/graphics/framebuffer.cpp:149-152 | a fully opaque sprite with no key colour draws exactly like the intended keyed blit of its colours |
| Lines.Steps | engine/graphics/framebuffer.cpp:190-201 | the error-term loop yields one slow-axis offset per fast step: from 0, rising by at most 1, each the nearest whole number to the ideal line with a half rounded toward p0, ending within 1 of the slow length |
| Lines.TraceShallow | engine/graphics/framebuffer.cpp:190-201 | when x changes at least as much as y, x stepping plus those offsets and the end point is the rasterised line |
| Lines.TraceSteep | engine/graphics/framebuffer.cpp:202-215 | the same with the axes exchanged when y changes more than x |
| Lines.LinePoints | engine/graphics/framebuffer.cpp:184-216 | the visited points run from p0 to p1, one per fast-axis coordinate, each touching the last, inside the end points' box and on screen, with each slow-axis offset the nearest whole number to the ideal line, a half rounded toward p0 |
| Lines.LineIsUnique | engine/graphics/framebuffer.cpp:190-215 | two point lists that both satisfy the rasterised-line predicate between the same end points are equal, so that predicate fixes every pixel of the line |
| Lines.LineDependsOnDirection | engine/graphics/framebuffer.cpp:194-199 | the line from (0,0) to (2,1) is (0,0), (1,0), (2,1), and the line back from (2,1) to (0,0) is (2,1), (1,1), (0,0) |
| Lines.PaintPoints | engine/graphics/framebuffer.cpp:195 | exactly the cells of the visited points take the colour |
| Lines.DrawLineBresenham | engine/graphics/framebuffer.cpp:180-217 | off-screen end points make it a no-op; otherwise it writes the colour at exactly the cells of the one rasterised line between the end points (halves rounded toward p0), both end points included, and leaves the front untouched |
| Lines.NegativeOffScreen | engine/graphics/framebuffer.h:31 | a negative coordinate no smaller than -65408 arrives as a `uint16_t` of at least 128 and fails the column guard (likewise for rows) |
| Lines.Corners | engine/graphics/framebuffer.cpp:219-225 | the diamond has four corners, computed in `int` arithmetic |
| Lines.DrawDiamondOutline | engine/graphics/framebuffer.cpp:219-225 | the back buffer gets the four lines left→bottom, left→top, right→bottom and right→top, each empty when an end point is off screen after the `uint16_t` conversion |
| Lines.LeftCornerOffScreen | engine/graphics/framebuffer.cpp:221-222 | a left corner slightly left of the screen edge wraps past the guard, so both left edges vanish |
| Records.ConcatAt | tools/png_to_sprite_alpha.cpp:50-67 | records written one after another put element j of record i at i · size + j |
| Records.ChunksConcat | tools/sprite_to_cpp_alpha.py:54-57 | the emitted lines hold all the values in order, none lost or repeated |
| Records.Chunks | tools/sprite_to_cpp.py:46-49 | every line has at most k values and all but the last exactly k |
| Records.CountIsPositions | tools/png_to_sprite_alpha.cpp:60-62 | a counting loop's total is the number of positions whose value satisfies the test |
| SpriteEncode.Header | tools/png_to_sprite_alpha.cpp:42-46 | the header is 4 bytes: width, then height, each narrowed to 16 bits and stored little-endian |
| SpriteEncode.AlphaRecord | tools/png_to_sprite_alpha.cpp:58-66 | a record is 3 bytes: the packed colour little-endian, then the alpha byte unthresholded |
| SpriteEncode.AlphaSprite | tools/png_to_sprite_alpha.cpp:42-68 | the file is 4 + 3·w·h bytes for every image, an empty one included |
| SpriteEncode.AlphaSpriteLayout | tools/png_to_sprite_alpha.cpp:42-68 | pixel i's colour sits little-endian at 4 + 3i and its alpha at 4 + 3i + 2 |
| SpriteEncode.TransparentCount | tools/png_to_sprite_alpha.cpp:49-62 | `transparent_count` is the number of pixels with alpha < 10 |
| SpriteEncode.ChromaWordIsKey | tools/png_to_sprite_verbose.cpp:98-105 | a pixel is written as 0xF81F exactly when it is transparent or quantises to opaque magenta |
| SpriteEncode.ChromaWords | tools/png_to_sprite_verbose.cpp:90-109 | one word per pixel, in row-major order |
| SpriteEncode.ChromaSprite | tools/png_to_sprite_verbose.cpp:53-107 | the file is 4 + 2·w·h bytes for every image, an empty one included |
| SpriteEncode.ChromaSpriteLayout | tools/png_to_sprite_verbose.cpp:53-107 | pixel i's word sits little-endian at 4 + 2i |
| SpriteEncode.ChromaCounters | tools/png_to_sprite_verbose.cpp:86-109 | `transparent_count` is the number of alpha < 10 pixels, and `transparent_count + opaque_count` = w·h |
| SpriteEncode.LastDot | tools/png_to_sprite_alpha.cpp:98 | `find_last_of('.')` is a '.' position with no '.' after it, or -1 when there is none |
| SpriteEncode.DefaultOutputName | tools/png_to_sprite_alpha.cpp:96-103 | the derived name is the input up to its last '.', or the whole input if it has none, followed by ".sprite" |
| SpriteEncode.AlphaCommand | tools/png_to_sprite_alpha.cpp:78-104 | fewer than two arguments means usage; argv[2] names the output if present, otherwise the name is derived |
| SpriteEncode.HasVerboseFlag | tools/png_to_sprite_verbose.cpp:146-151 | true exactly when some argument from the given position on is "-v" |
| SpriteEncode.VerboseCommand | tools/png_to_sprite_verbose.cpp:131-163 | verbose iff "-v" occurs from argv[2] on; argv[2] names the output only if present and not "-v" |
| SpriteEncode.FlagIsNotAName | tools/png_to_sprite_verbose.cpp:154-163 | "-v" in place of the output name derives the name and still turns on verbose mode |
| SpriteInspect.PixelTotal | tools/inspect_sprite.cpp:44 | `width * height` as an `int`: the exact product when it fits, otherwise that product minus 2^32, which is negative; zero iff a dimension is zero |
| SpriteInspect.PixelWords | tools/inspect_sprite.cpp:54-58 | pixel words are read in host order from byte offset 4 |
| SpriteInspect.PercentRoundsDown | tools/inspect_sprite.cpp:88-92 | without overflow the percentage is rounded down, and it is at most 100 for a count within the total |
| SpriteInspect.CountPixels | tools/inspect_sprite.cpp:56-84 | the transparent count is the number of words equal to 0xF81F, and the two counts add up to the words read |
| SpriteInspect.Inspect | tools/inspect_sprite.cpp:31-102 | the counts, the percentages, and a verdict of "no transparent" iff the count is 0, "all transparent" iff it is the total, "valid" otherwise; a short file and a zero total are reported separately |
| SpriteToCpp.Payload | tools/sprite_to_cpp_alpha.py:17 | the data is the file minus its first 4 bytes |
| SpriteToCpp.ParseAlpha | tools/sprite_to_cpp_alpha.py:26-34 | exactly width·height records (none if that product is not positive), pixel i = (little-endian word at 3i, byte 3i + 2); it fails iff a record runs past the data |
| SpriteToCpp.ParseChroma | tools/sprite_to_cpp.py:26-28 | ⌊payload / 2⌋ words, so a trailing odd byte is dropped |
| SpriteToCpp.EmitAlpha | tools/sprite_to_cpp_alpha.py:50-57 | the array declares width·height entries and lists the pixels in order, at most four per line |
| SpriteToCpp.EmitChroma | tools/sprite_to_cpp.py:42-49 | the array declares as many entries as were parsed and lists them in order, at most eight per line |
| SpriteToCpp.ParseCommand | tools/sprite_to_cpp.py:59-71 | the script runs iff it gets exactly five arguments, taken in order as input, output, width, height and name |
| Pipeline.AlphaRoundTrip | tools/sprite_to_cpp_alpha.py:26-34 | the alpha script reads what the alpha converter wrote back into exactly the stored (colour, alpha) pairs, with no size warning |
| Pipeline.ChromaRoundTrip | tools/sprite_to_cpp.py:20-28 | the chroma script reads a converter's file without a warning and gets every written word byte-swapped |
| Pipeline.ChromaWordRead | tools/sprite_to_cpp.py:28 | word i read by the script is the byte swap of pixel i's written word |
| Pipeline.ChromaKeyReachesBlitter | engine/graphics/framebuffer.cpp:120 | a value reaches `draw_sprite` as its key 0x1FF8 exactly when the pixel was transparent or opaque magenta |
| Pipeline.ScriptReadsSwapped | tools/sprite_to_cpp.py:28 | the script and the inspector read each word in opposite byte orders |
| Pipeline.InspectorReadsConverterOutput | tools/inspect_sprite.cpp:31-58 | for dimensions that fit the header and an `int`, the inspector reads back the width, the height and every word the converter wrote |
| Pipeline.InspectorReadsHeader | tools/inspect_sprite.cpp:32-34 | the header the converter wrote reads back as the dimensions |
| Pipeline.InspectorReadsWords | tools/inspect_sprite.cpp:54-58 | the words the converter wrote are read back in order |
| Pipeline.InspectorCountsMagenta | tools/inspect_sprite.cpp:60 | the inspector's transparent pixels are the converter's plus the opaque magenta ones, so its count agrees exactly when there is no opaque magenta |

## Left out

- I/O is left out: stb_image decoding, `std::ifstream`/`std::ofstream`, Python file reads and writes, and `int()` parsing of the dimensions. The tools are modelled from a decoded RGBA pixel list and from byte sequences.
- Printed output is left out: `printf`/`std::cout`, the verbose converter's first-10-pixel listing, the inspector's sample listings, hex and decimal formatting of the emitted arrays, and the include-guard text. Only element order and line grouping of the emitted arrays are modelled.
- The verbose converter's conversion summary is left out. It divides by `width * height` only to print percentages, so it is output only.
- The converters' load and open failures are left out. They are I/O outcomes.
- `color_test_nobuffer` (engine/graphics/framebuffer.cpp:227-293) is left out. It is a byte stream paced by sleeps, with no state in the model.
- `draw_tile_32x32` (engine/graphics/framebuffer.h:30) and the z-level `screen_to_world` overload (engine/isometric/iso_math.h:49-50) are declared but never defined, so they are not modelled.
- The panel driver is not part of this model: drivers/st7735_driver.cpp, display.cpp, helpers.cpp and buttons.cpp. `set_window` and `send_data` are trace events.
- Hardware bring-up, main.cpp and main_glfw.cpp are not part of this model.
- Aliasing of the header's `static` arrays across translation units is not modelled. The model owns one buffer pair.
- Lines.DrawLineBresenham: no symmetry under exchanging the end points is stated, because the algorithm does not have it. Lines.LineDependsOnDirection shows that (0,0)→(2,1) and (2,1)→(0,0) differ at the middle pixel.
- Framebuffer.DrawLine, Rectangles.DrawLines and Rectangles.DrawRectangle: require the cells they write to lie inside the buffer, since the source writes past the end otherwise (undefined behaviour).
- Rectangles.DrawRectangleMemset: requires the rows it writes to lie inside the buffer. When it copies at least once, it also requires width ≤ W, because overlapping `memcpy` is undefined.
- Rectangles.DrawRectangleCells: requires x + width ≤ W, because the source never checks columns. Rectangles.DrawRectangle covers spans that run on into the next row.
- Rectangles.DrawRectangleMemsetCells: requires x + width ≤ W, because the source never checks columns. Rectangles.DrawRectangleMemset states the painted spans for any width that stays inside the buffer.
- Sprites.DrawSprite, Sprites.DrawSpriteCorrected and Sprites.DrawSpriteAlpha: when the guard passes, they require the sprite rows they read to exist and the cells they write to lie inside the buffer. The source reads and writes past the ends otherwise, which is undefined behaviour, as for Framebuffer.DrawLine.
- Sprites.DrawSpriteCells: requires x + width ≤ W, because the source never checks columns. Sprites.DrawSprite states for any width that each cell keeps its value or takes a non-key sprite entry.
- Sprites.DrawSpriteCorrectedCells: requires x + width ≤ W, for the same reason. For wider sprites Sprites.DrawSpriteCorrected states only that each cell keeps its value or takes a non-key sprite entry.
- Sprites.DrawSpriteAlphaCells: requires x + width ≤ W, for the same reason. For wider sprites Sprites.DrawSpriteAlpha states only the guard and the untouched front.
- Iso.WorldToScreen: its whole-part facts are stated only for camera offsets far from the 32-bit limits and without wrap in x ± y. Iso.CameraTranslates covers wrap-around of the offsets.
- Iso.RaiseOneUnit: stated only when raising z and computing sy do not wrap.
- SpriteInspect.PercentRoundsDown: stated only while count · 100 fits an `int`. SpriteInspect.Inspect itself computes the wrapping product.
- SpriteInspect.Inspect: a file shorter than the header or the announced pixels is `ShortFile`, because the tool then reads indeterminate bytes. A zero pixel total is `NoPixels`, because the tool's percentage divides by zero.
- Pipeline.InspectorReadsConverterOutput: stated only for widths and heights below 2^16 whose product fits an `int`. Beyond that, the header or the pixel total wraps.
- FixedPoint.MulFloors and FixedPoint.DivTruncates: stated only when the 32-bit store of the result does not wrap. The functions themselves model the wrap.
- The `int32_t` wrap of signed overflow (`<< 16`, `+`, `-`, the camera offsets) is modelled as two's-complement wrap-around. C++ leaves signed overflow undefined; wrap-around is what the targets do.

## Findings

| source | as written | input that shows it | evidently intended | confidence | as-written member | corrected member |
|---|---|---|---|---|---|---|
| engine/graphics/framebuffer.cpp:94-98 | the copy loop runs for i in [1, y + height), i.e. y + height - 1 copies, and the first row is painted even when height is 0 | y = 1, height = 1 also paints row 2; y = 0, height = 0 paints row 0; y = 100, height = 60 passes the guard and would write up to row 259 (Rectangles.MemsetPaintsExtraRow, Rectangles.MemsetPaintsEmptyRectangle, Rectangles.MemsetGuardAdmitsOverrun) | height - 1 copies, and nothing for height 0, making it equal to `draw_rectangle` | high (not executed) | Rectangles.DrawRectangleMemset | Rectangles.DrawRectangleMemsetCorrected |
| engine/graphics/framebuffer.cpp:112-121 | i runs over [y, height), reading sprite row i and writing screen row y + i | a one-column sprite [5, 7] drawn at y = 1 leaves screen row 1 untouched instead of showing 5 there (Sprites.DrawSpriteSkipsRows) | i over [0, height), as the commented-out lines 116-117 and `draw_sprite_alpha` do it | high (not executed) | Sprites.DrawSprite | Sprites.DrawSpriteCorrected |
