# AsteroidGame rendering and input core in Dafny

This project models the integer core of AsteroidGame, a small game for an
STM32F746G Discovery board. That core is:

- **The double-buffered software renderer of `Render.c`.** It holds two RGB565
  frame buffers. One is handed to the display controller for scan-out, and the
  drawing primitives write into the other. The primitives are:
  - the buffer swap;
  - the exact (`/255`) and packed (`>>5`) alpha blends;
  - the 16.16 fixed-point Xiaolin Wu line and its thick variant;
  - the aliased filled circle;
  - the solid fills (clear, rectangle, horizontal and vertical line, outline);
  - the transparent bitmap glyphs and strings.
- **`fastIntSqrt` of `math_functions.c`.** These are six Newton passes from the
  guess `x >> 2`. The circle uses it.
- **The singly linked list of `list.c`.** It has a cursor iterator made of the
  current and previous node, and supports push, step, remove-at-cursor and
  delete.
- **The input decoding of `poll.c`.** This covers the rotary encoder's
  16-entry quadrature table, the button's change flag and the 7-segment digit
  table.

## How the model is built

### Modules

- **`Render`** — the class `Renderer`. Its fields are:
  - the two buffers, as `array<bv16>`;
  - the drawing target `frame`;
  - the scan-out buffer and the `active` enum;
  - the colours, the stride and the font.

  Every primitive is a method. It updates `frame` in place with the loops of
  the C code. Its postcondition ties the new buffer to a specification of what
  the primitive writes.
- **`Paint`** — a drawing as a list of pixel writes:
  - `Apply` performs such a list;
  - `Painted` states the order-free result of a solid fill. Exactly a given
    set of indices becomes the foreground colour, and every other pixel keeps
    its value.
- **`Raster`** — the write lists of `drawLine` and `drawThickLine`, in the
  order the C loops perform them. The stepping loops are proved against them
  one frame at a time.
- **`Stepper`** — the 16.16 stepping arithmetic.
- **`Colour`** — RGB565 channels and the two blends, on `bv16`/`bv32`.
- **`Fill`, `Circle`, `Glyph`** — the index sets of the solid fills, the
  circle and the glyphs, with the lemmas about where they lie.
- **`IntSqrt`** — `fastIntSqrt` and its bounds.
- **`LinkedList`** — heap nodes, with a ghost spine (the sequence of nodes
  from the head) and `Contents()`.
- **`Poll`** — the encoder and button classes, the tables, and the 7-segment
  pins as an array.
- **`Arith`** — a few arithmetic facts shared by the others.

### GLCD dimensions and the font

- `GLCD_WIDTH` and `GLCD_HEIGHT` are the renderer's `width` and `height`
  constants. They are given to the constructor, because GLCD_Config.h is not
  part of this model.
- The portrait build (`GLCD_LANDSCAPE == 0`) is modelled, with
  `stride == GLCD_HEIGHT`.
- `active_font` is a constant `Option<Font>`, and `None` stands for a NULL
  pointer. A font is its width, height, offset and an abstract bitmap, because
  Fonts.h is not part of this model.

### Where the model follows the code

The model follows the code where it behaves unexpectedly:

- **`drawLine`:**
  - It writes its second end pixel with `GLCD_WIDTH` where every other write
    uses the stride (`Raster.LineEnds`).
  - It first rotates its arguments into the buffer's axes, x' = y and
    y' = GLCD_WIDTH - x (`Raster.LineSegment`). "Horizontal" and "leftwards"
    below mean those rotated buffer axes.
  - In buffer axes its horizontal (`dY == 0`) fast path draws only leftwards:
    its `dX - 1` pixels, starting at `x0` (`Raster.LeftRun`).
  - A buffer-horizontal line drawn rightwards, or of length zero, does not
    stop. `while((dX += xDir))` moves its int32 counter away from zero until it
    overflows, which is undefined behaviour. It writes outside the buffer long
    before that.
  - In the caller's own coordinates, the ones `DrawLine` sees, those are the
    calls `drawLine(x, y0, x, y1)` with `y1 >= y0`: a screen-vertical line
    drawn downwards, or a single point.
  - A screen-horizontal line takes the `dX == 0` run and always stops. So
    does a screen-vertical line drawn upwards.
  - `DrawLine` therefore requires `x0 == x1 ==> y1 < y0`
    (`Raster.LineTerminates`).
- **`fillRectangle`** steps `dot` before each write. Each row therefore starts
  one index past its base (`Fill.RectFirstRow`).
- **`GLCD_DrawRectangle`** misses the corner (x + w, y + h)
  (`Fill.OutlineCorners`).
- **`fastIntSqrt`:**
  - It divides by zero for 2 and 3 (`IntSqrt.InDomain`).
  - For a circle of radius 2, this happens on rows 1 and -1
    (`Circle.RadiusTwo`).
  - Its result is not always the floor of the square root
    (`IntSqrt.NotAFloor`).
  - Its error is not bounded by a small percentage. Six passes from the guess
    `x >> 2` are too few for larger inputs: 40000 = 200² gives 233
    (`IntSqrt.FarAbove`). So no relative error bound such as 1% for radii up
    to 200 holds. A circle of radius 200 has a middle row 466 columns wide
    rather than 400 (`Circle.WideMiddleRow`).
- **`removeItem` with `prev` NULL** makes the successor of `cur` the new head,
  whatever the cursor's position. From position k it therefore drops the first
  k + 1 items and leaves the cursor on the removed node (`RemoveHead`). It
  removes exactly one item only for a fresh iterator. The model states this
  general behaviour and does not require the cursor to be at the head.

### The circle and `buffsize`

`drawFilledCircle`'s guard `dot > buffsize` is inclusive, so index `buffsize`
would pass it. That index is never produced:

- every row that is drawn has `0 < rad_y < GLCD_HEIGHT`;
- `buffsize` is a multiple of the stride `GLCD_HEIGHT`, while the row's
  indices are not.

So the circle writes strictly inside the buffer for every origin and radius
whose index arithmetic fits int32 (`Circle.NeverBuffsize`,
`Circle.CircleInBuffer`). The model computes on unbounded integers, so its
method asks no bound on the origin of its caller. An origin far enough
outside the screen that these int32 values overflow is outside what the model
describes (see "Left out").

## Model

| member | source | states |
|---|---|---|
| Render.OtherInvolution | Render.c:223-233 | the toggle of `active` changes the buffer and undoes itself twice over |
| Render.Renderer.constructor | Render.c:198-212 | after initialisation buffer 1 is scanned out, drawing goes to `frame_buf_2`, `active == buffer1`, the colours are white on black, and the stride is GLCD_HEIGHT; the two buffers are distinct and of GLCD_WIDTH * GLCD_HEIGHT pixels |
| Render.Renderer.SwitchBuffer | Render.c:223-235 | scan-out gets the buffer just drawn and drawing goes to the other one; `active` toggles; the drawing buffer is never the scan-out buffer; colours unchanged |
| Render.Renderer.SwitchTwice | Render.c:223-235 | two switches restore `active`, the drawing buffer and the scan-out buffer |
| Render.Renderer.SetBuffer | Render.c:237-249 | `b` is scanned out and the other buffer drawn into, whatever the state before; the new state depends on `b` alone, so a repeated call changes nothing |
| Render.Renderer.SetForegroundColor | Render.c:261-263 | the foreground colour becomes `color` and nothing else changes |
| Render.Renderer.SetBackgroundColor | Render.c:258-260 | the background colour becomes `color` and nothing else changes |
| Render.Renderer.ClearScreen | Render.c:251-256 | every one of the GLCD_WIDTH * GLCD_HEIGHT drawing-buffer pixels becomes the background colour |
| Render.Renderer.BlendPixel | Render.c:271-291 | only index `x + stride*y` changes, to the exact blend `Colour.Blend` of the foreground over the old pixel |
| Render.Renderer.BlendPixelFast | Render.c:299-330 | only index `x + stride*y` changes: the foreground for alpha 255, the packed blend `Colour.BlendFast` otherwise |
| Render.Renderer.DrawLine | Render.c:337-416 | the buffer afterwards is the old one with the writes of `Raster.LineOps` performed in order: the rotation, the reordering, both end pixels, then the horizontal run, the vertical run or the anti-aliased stepping |
| Render.Renderer.LineBody | Render.c:356-414 | after the end pixels, the branch on dY == 0, dX == 0 and dY > dX performs `Raster.LineRest` |
| Render.Renderer.LeftLine | Render.c:362-368 | the `dY == 0` loop performs `dX - 1` solid writes leftwards from x0 |
| Render.Renderer.DownLine | Render.c:369-375 | the `dX == 0` loop performs `dY` solid writes downwards from y0 |
| Render.Renderer.SteepLine | Render.c:379-397 | the steep branch performs the `dY - 1` steps of the steep line |
| Render.Renderer.ShallowLine | Render.c:398-414 | the shallow branch performs the `dX - 1` steps of the shallow line |
| Render.Renderer.SteepSteps | Render.c:382-396 | the `while(--dY)` loop leaves the buffer at frame `dY - 1` of the steep drawing, with `subPixel`, `x0` and `y0` equal to the stepping functions after every pass |
| Render.Renderer.SteepMove | Render.c:384-392 | one pass adds the gradient, carries a whole pixel into x, steps y, and takes the opacity from the upper byte of `subPixel` |
| Render.Renderer.SteepPixels | Render.c:394-395 | the two fast blends at (x, y) and (x - xDir, y) take frame k to frame k + 1 |
| Render.Renderer.ShallowSteps | Render.c:401-413 | the `while(--dX)` loop leaves the buffer at frame `dX - 1` of the shallow drawing |
| Render.Renderer.ShallowMove | Render.c:403-409 | one pass adds the gradient, carries a whole pixel into y, steps x by xDir, and takes the opacity |
| Render.Renderer.ShallowPixels | Render.c:411-412 | the two exact blends at (x, y) and (x, y + 1) take frame k to frame k + 1 |
| Render.Renderer.HorizontalRun | Render.c:363-366 | the loop with `dX += xDir` counting towards 0 writes x0, x0 - 1, ... for `dX - 1` passes |
| Render.Renderer.VerticalRun | Render.c:370-373 | the loop `while(dY--)` writes y0, y0 + 1, ... for `dY` passes |
| Render.Renderer.DrawThickLine | Render.c:425-505 | the buffer afterwards is the old one with the writes of `Raster.ThickLineOps` performed in order; nothing is written for a single point |
| Render.Renderer.ThickSteepLine | Render.c:459-482 | the steep branch performs the `dY - 1` thick steep steps |
| Render.Renderer.ThickShallowLine | Render.c:483-504 | the shallow branch performs the `dX - 1` thick shallow steps |
| Render.Renderer.ThickSteepSteps | Render.c:463-481 | the thick steep loop leaves the buffer at its last frame |
| Render.Renderer.ThickSteepPixels | Render.c:472-480 | the blends at x and at `x + xDir*thickness`, then the run, take frame k to frame k + 1 |
| Render.Renderer.SteepThickness | Render.c:476-480 | the inner `while(i)` loop sets the pixels `x + xDir*(t-1)` down to `x` of row y to the foreground |
| Render.Renderer.ThickShallowSteps | Render.c:487-503 | the thick shallow loop leaves the buffer at its last frame |
| Render.Renderer.ThickShallowPixels | Render.c:496-502 | the blends at y and at `y - thickness`, then the run, take frame k to frame k + 1 |
| Render.Renderer.BlendEdges | Render.c:496-497 | the two exact blends of a thick shallow pass, in order |
| Render.Renderer.ShallowThickness | Render.c:498-502 | the inner loop sets rows `y - (t-1)` down to `y` of column x to the foreground |
| Render.Renderer.Plot | Render.c:542 | a solid write changes exactly one index to the foreground |
| Render.Renderer.PaintDot | Render.c:562 | one more solid write extends a fill in progress by its index |
| Render.Renderer.DrawHLine | Render.c:583-602 | returns 0, and exactly the `length` indices from `(GLCD_WIDTH-x)*GLCD_HEIGHT+y`, stepping back GLCD_HEIGHT, become the foreground; every other pixel is unchanged |
| Render.Renderer.DrawVLine | Render.c:605-624 | returns 0, and exactly the `length` consecutive indices from the same start become the foreground |
| Render.Renderer.DrawRectangle | Render.c:627-635 | returns 0, and exactly the two horizontal and two vertical lines of the outline become the foreground |
| Render.Renderer.FillRectangle | Render.c:552-566 | after the portrait swap, exactly the indices `base + stride*i + j + 1` of the `h` rows become the foreground, and nothing else changes |
| Render.Renderer.FillRow | Render.c:560-563 | the inner loop, stepping `dot` before each write, paints the `n` indices after `start` and leaves `dot` at `start + n` |
| Render.Renderer.DrawFilledCircle | Render.c:513-547 | exactly the indices of `Circle.FilledCircle` become the foreground, and no index outside the buffer is written, for any origin whose index arithmetic fits int32 |
| Render.Renderer.CirclePass | Render.c:523-544 | one pass of the outer loop paints row offset y's span when `0 < rad_y < GLCD_HEIGHT`, taking its half-width from `fastIntSqrt(r² - y²)`, and nothing otherwise |
| Render.Renderer.CircleSpan | Render.c:533-543 | one row's inner loop, with its jump over the columns left of the screen and its unsigned `dot > buffsize` guard, paints exactly `Circle.SpanDots` |
| Render.Renderer.DrawChar | Render.c:641-676 | with a NULL font, -1 and no writes; otherwise 0, the set pixels of the glyph become the foreground and every other pixel is as it was |
| Render.Renderer.GlyphRowPass | Render.c:658-666 | one glyph row adds its set pixels; the byte address reaches the row's last byte, moving on after every eighth column but the last |
| Render.Renderer.PaintIf | Render.c:659 | the conditional write paints the foreground when the bit is set and writes the pixel back otherwise |
| Render.Renderer.DrawString | Render.c:679-684 | returns 0; the characters before the NUL are drawn, each one font width further right, painting exactly `Glyph.StringDots` |
| Colour.UnpackPack | Render.c:276-288 | unpacking a packed colour gives back its 5/6/5-bit channels |
| Colour.PackUnpack | Render.c:276-282 | every colour's channels fit their fields, and packing them gives the colour back |
| Colour.LerpRange | Render.c:284-286 | `(f*a + g*(255-a))/255` lies between the two channels, is `f` at 255 and `g` at 0 |
| Colour.LerpBound | Render.c:284-286 | the blended channel stays within 6 bits, and within 5 bits for 5-bit inputs |
| Colour.ExactChannelValue | Render.c:284-286 | the uint16 channel holds exactly the value of the C formula |
| Colour.ExactChannelOpaque | Render.c:284-286 | the exact channel at alpha 255 is the foreground channel |
| Colour.ExactChannelClear | Render.c:284-286 | the exact channel at alpha 0 is the background channel |
| Colour.BlendChannels | Render.c:284-288 | each channel of `blendPixel`'s result is the per-channel formula, so packing loses nothing |
| Colour.BlendOpaque | Render.c:271-290 | alpha 255 gives exactly the foreground |
| Colour.BlendTransparent | Render.c:271-290 | alpha 0 gives exactly the old pixel |
| Colour.FastWeights | Render.c:311-314 | `a' = (a+4)>>3` is in [0, 32], `a' + b' = 32`, `a'` is 0 exactly for a ≤ 3 and 32 exactly for a ≥ 252 |
| Colour.SpreadFields | Render.c:316-318 | the mask `0x7E0F81F` puts green at bit 21, red at bit 11 and blue at bit 0 |
| Colour.PackedSum | Render.c:323 | the uint32 weighted sum holds the three channel sums side by side, each below its field's limit: no carry between channels and no overflow |
| Colour.BlendFastChannels | Render.c:316-328 | for alpha ≠ 255 every output channel equals `(a'*fg_c + b'*bg_c) >> 5` |
| Colour.FastChannelBound | Render.c:323-325 | the fast channel stays within its 5 or 6 bits |
| Colour.BlendFastOpaque | Render.c:307-328 | alpha ≥ 252 gives the foreground |
| Colour.BlendFastTransparent | Render.c:311-328 | alpha ≤ 3 gives the old pixel |
| Paint.ApplyConcat | Render.c:352-414 | performing two lists of writes in turn is performing their concatenation |
| Paint.ApplySnoc | Render.c:289 | one more write inside the buffer is one more step; a write outside it changes nothing |
| Paint.ApplyElsewhere | Render.c:271-330 | a pixel that no write touches keeps its value |
| Paint.ApplyPuts | Render.c:583-602 | solid writes in one colour set exactly their indices, in whatever order |
| Paint.PaintedThen | Render.c:627-635 | two fills in the same colour, one after the other, paint the union of their indices |
| Paint.PaintedMore | Render.c:562 | a fill extended by one solid write paints its old indices and the new one |
| Paint.PaintedPuts | Render.c:583-602 | a list of solid writes in one colour paints exactly its set of indices |
| Paint.Perform | Render.c:289 | one pixel write: the buffer gets the written value at that index only |
| Stepper.GradientValue | Render.c:382 | the gradient is `(minor << 16) / major` |
| Stepper.QuotientValue | Render.c:382 | the model's own repeated-subtraction definition of the division in the gradient equals `/` |
| Stepper.GradientBound | Render.c:382 | the gradient is at most 65536, and 65536 exactly on the diagonal |
| Stepper.ClosedForm | Render.c:383-390 | after k steps `subPixel` is `(k*g) mod 2^16` and the minor axis has moved `(k*g) div 2^16` pixels |
| Stepper.FracBound | Render.c:384-389 | `subPixel` stays below 65536 after every carry |
| Stepper.AlphaValue | Render.c:392 | the opacity is the upper byte of `subPixel` |
| Stepper.MinorStep | Render.c:386-389 | the minor axis moves 0 or 1 pixel per step |
| Stepper.AlphaPair | Render.c:394-395 | the two blended opacities `a` and `a^255` add up to 255 |
| Stepper.Reach | Render.c:382-396 | after `major` steps of the stepping arithmetic the minor axis has moved `minor` pixels, or one fewer through rounding; this is where the arithmetic would land, not a pass the loops run (they run `major - 1` passes and write the far end pixel separately) |
| Raster.LineTerminates | Render.c:342-366 | drawLine returns exactly when its line is not screen-vertical, or is screen-vertical and drawn upwards (`x0 == x1 ==> y1 < y0`) |
| Stepper.Rounded | Render.c:382 | `major * gradient >> 16` is `minor` or `minor - 1`: the truncated gradient loses at most one pixel |
| Raster.TopDown | Render.c:347-351 | the reordered segment has `y0 <= y1` and is the input or its reversal |
| Raster.StepAdvance | Render.c:383-408 | each step moves exactly one pixel along the major axis and 0 or 1 along the minor axis, towards x1 in x |
| Raster.RestLeft | Render.c:362-368 | with `dY == 0` the rest of `drawLine` is `dX - 1` pixels leftwards |
| Raster.RestDown | Render.c:369-375 | with `dX == 0` the rest of `drawLine` is `dY` pixels downwards |
| Raster.RestSteep | Render.c:379-397 | the steep branch is `dY - 1` steps with gradient `(dX<<16)/dY` |
| Raster.RestShallow | Render.c:398-414 | the shallow branch is `dX - 1` steps with gradient `(dY<<16)/dX` |
| Raster.LineParts | Render.c:352-354 | drawLine's writes are its two end pixels followed by the rest of the line |
| Raster.ThickPoint | Render.c:448 | `drawThickLine` from a point to itself writes nothing |
| Raster.RestThickSteep | Render.c:459-482 | the thick steep branch is `dY - 1` steps |
| Raster.RestThickShallow | Render.c:483-504 | the thick shallow branch is `dX - 1` steps |
| Raster.SteepRunDots | Render.c:476-480 | the steep thickness run writes offsets 0 to t-1 in the direction xDir on one side of the line, all at full opacity |
| Raster.ShallowRunDots | Render.c:498-502 | the shallow thickness run writes rows y down to y - (t-1), all at full opacity |
| Raster.DrawnSteps | Render.c:383-396 | drawing step by step is performing the whole list of steps' writes |
| Raster.StepsDrawn | Render.c:383-396 | a step list of length n, performed, is the drawing after n steps |
| Raster.SteepFillRun | Render.c:476-480 | the opaque run sets its pixels to the foreground exactly as its fast blends do |
| Raster.ShallowFillRun | Render.c:498-502 | the same for the shallow run |
| Raster.SteepNext | Render.c:394-395 | one steep pass lands in the buffer and takes frame k to k + 1 |
| Raster.ShallowNext | Render.c:411-412 | one shallow pass lands in the buffer and takes frame k to k + 1 |
| Raster.ThickSteepNext | Render.c:472-480 | one thick steep pass lands in the buffer and takes frame k to k + 1 |
| Raster.ThickShallowNext | Render.c:496-502 | one thick shallow pass lands in the buffer and takes frame k to k + 1 |
| Fill.ScreenDotInjective | Render.c:589 | the portrait index `(GLCD_WIDTH-x)*GLCD_HEIGHT+y` is one-to-one for rows on the screen |
| Fill.HLineScreen | Render.c:583-602 | the horizontal line writes the screen pixels (x, y) to (x + length - 1, y) |
| Fill.VLineScreen | Render.c:605-624 | the vertical line writes the screen pixels (x, y) to (x, y + length - 1) |
| Fill.HLineBounds | Render.c:592-599 | every index of the horizontal line lies between its last and its first |
| Fill.VLineInterval | Render.c:614-621 | the vertical line is the interval of `length` indices from its start |
| Fill.HLineCount | Render.c:592-599 | the horizontal line writes `length` distinct pixels |
| Fill.VLineCount | Render.c:614-621 | the vertical line writes `length` distinct pixels |
| Fill.OutlineCorners | Render.c:627-635 | the outline contains three of its corners but not (x + width, y + height) |
| Fill.RectBounds | Render.c:557-565 | every index of the rectangle lies between base + 1 and base + stride*(rows-1) + width |
| Fill.RectFirstRow | Render.c:557-562 | the rectangle never writes its base index, and its first row is base + 1 to base + width |
| Fill.RectCount | Render.c:559-565 | a rectangle whose rows fit within the stride writes width * height distinct pixels |
| Fill.RowFits | Render.c:559-563 | in a rectangle inside the buffer, every row's indices lie inside it |
| Circle.RowArgDomain | Render.c:527-528 | for a visited row, `r² - y²` is non-negative, and `fastIntSqrt` is defined on it exactly unless r = 2 and y = ±1 |
| Circle.DefinedUnlessTwo | Render.c:523-528 | every radius but 2 has all its rows defined |
| Circle.RadiusTwo | Render.c:523-528 | radius 2 is defined exactly when rows 1 and -1 are clipped |
| Circle.JumpUp | Render.c:535-537 | the jump `dot += -(dot/stride)*stride`, with C's truncating division, lands on column -1 |
| Circle.NeverBuffsize | Render.c:539-541 | no index of a drawn row equals `buffsize` |
| Circle.SpanInBuffer | Render.c:533-543 | every index a row writes is inside the buffer and congruent to `rad_y` modulo the stride |
| Circle.ColumnLess | Render.c:533 | the loop test on `dot` is the column test |
| Circle.SpanCount | Render.c:533-543 | a row whose columns are all on screen writes `hi - lo` distinct pixels |
| Circle.CircleInBuffer | Render.c:513-547 | every index of the circle is in `[0, GLCD_WIDTH*GLCD_HEIGHT)` and on a row strictly between 0 and GLCD_HEIGHT |
| Circle.WideMiddleRow | Render.c:527-530 | radius 200 gives its middle row half-width 233, so that row is wider than the circle's diameter |
| Circle.RowWidth | Render.c:527-543 | an unclipped row on screen writes `2*fastIntSqrt(r² - y²)` pixels, and that half-width reaches the true square root |
| Glyph.ByteBound | Render.c:648-665 | every byte the glyph reads is inside the bitmap |
| Glyph.GlyphDotRight | Render.c:663 | one column right is GLCD_HEIGHT indices down |
| Glyph.GlyphDotNextRow | Render.c:670 | `dot += GLCD_HEIGHT*j + 1` brings `dot` to column 0 of the next row |
| Glyph.GlyphBox | Render.c:657-671 | every index of the glyph's box is inside the buffer when its corners are |
| Glyph.ByteNextRow | Render.c:665-672 | each glyph row uses exactly `(width+7)/8` bytes, and the glyph starts at `(ch-offset)*wb*height` |
| Glyph.GlyphInBox | Render.c:641-676 | a glyph paints only inside its box, which is in the buffer |
| Glyph.GlyphPixel | Render.c:659 | pixel (i, j) is painted exactly when bit `j & 7` of its row's byte `j / 8` is set |
| Glyph.BlankGlyph | Render.c:659 | a glyph of zero bytes paints nothing |
| Glyph.Text | Render.c:681 | the characters drawn are those before the first NUL |
| Glyph.UnionMember | Render.c:681 | a pixel is painted by a string exactly when one of its glyphs paints it |
| Glyph.UnionAppend | Render.c:681 | the pixels of two runs of glyphs are the union of each run's pixels |
| Glyph.Placed | Render.c:681 | the string has one placed glyph per character |
| Glyph.PlacedAt | Render.c:681 | character k is drawn `k * width` to the right of x |
| Glyph.StringAppend | Render.c:681 | drawing a + b places the glyphs of b `|a|` widths further right |
| Glyph.StringUnion | Render.c:681 | drawing a + b paints what a paints and what the shifted b paints |
| Glyph.StringPrefix | Render.c:681 | one more character of a fitting string fits, adds its glyph, and moves x by one width |
| Glyph.StringInBuffer | Render.c:679-684 | every pixel of a string that fits lies inside the buffer |
| IntSqrt.Pass | math_functions.c:24-25 | a Newton pass `(a + x/a)/2` from a positive guess stays positive |
| IntSqrt.PassLowerBound | math_functions.c:24-25 | a Newton pass never lands below the floor of the square root: `x < (r+1)²` |
| IntSqrt.QuotientBound | math_functions.c:24 | once the guess is above the floor, `x/a <= a + 2`, so `a + b` does not wrap |
| IntSqrt.FirstQuotient | math_functions.c:22-24 | the first quotient from the guess `x >> 2` is at most 7 |
| IntSqrt.ApproxLowerBound | math_functions.c:19-28 | for x ≥ 4 the result is at least the floor of the square root |
| IntSqrt.FastIntSqrt | math_functions.c:19-28 | returns x for x < 2; otherwise six passes from `x >> 2`, with the divisor ≥ 1 throughout and no uint32 wrap; result ≥ floor(√x) |
| IntSqrt.NotAFloor | math_functions.c:15-17 | the result is approximate: 3599 gives 60, whose square exceeds 3599 |
| IntSqrt.FarAbove | math_functions.c:19-28 | six passes from `x >> 2` leave 40000 = 200² at 233, over 16% above the root: the error is not bounded by a small percentage |
| LinkedList.List.constructor | list.c:18-33 | an empty list has a NULL head and no contents |
| LinkedList.Node.constructor | list.c:22-24 | a new node holds `d` and has a NULL `next` |
| LinkedList.List.GetIterator | list.c:83-88 | `cur` is the head and `prev` NULL |
| LinkedList.List.GetNext | list.c:69-78 | on the tail or an empty list: NULL and no move; otherwise `prev := cur`, `cur := cur.next`, and the new node's data is returned |
| LinkedList.Values | list.c:18-33 | the contents are the nodes' data, in order |
| LinkedList.VisitsFrom | list.c:69-78 | from position k a `while(getNext)` loop visits k + 1, ..., n - 1 in turn, as `LinkedList.List.Traverse` proves of the loop itself |
| LinkedList.FreshLoop | list.c:69-78 | from a fresh iterator the loop visits every position but the head's, each once |
| LinkedList.List.Traverse | list.c:66-88 | a loop `getIterator` then `while (getNext)` returns positions `Visits(0, n)` in order, that is 1 to n - 1, each once, never the head; the data returned are the contents after the head |
| LinkedList.List.PushItem | list.c:18-33 | the contents become the old ones followed by `d`, in a new node at the tail |
| LinkedList.List.RunToTail | list.c:26-27 | the empty `while(getNext(&iter))` loop leaves the iterator at the tail |
| LinkedList.List.LinkAfter | list.c:28 | linking the new node after the tail appends it |
| LinkedList.List.RemoveAfter | list.c:39-45 | with `prev` set, exactly item k is removed and the rest keep their order; the iterator stands on item k - 1 with `prev` NULL |
| LinkedList.List.RemoveHead | list.c:46-50 | with `prev` NULL, items 0 to k leave the list, and the iterator is left on the removed node |
| LinkedList.List.RemoveItem | list.c:38-51 | the two cases above, chosen by `prev` |
| LinkedList.List.DeleteList | list.c:56-63 | the nodes handed to `free` are the head and then each node `getNext` reaches: every node of the list once, in order; afterwards the list is empty with a NULL head |
| Poll.IndexInRange | poll.c:130 | for 0/1 levels the index is in [0, 16) |
| Poll.IndexInjective | poll.c:130 | different level quadruples give different indices |
| Poll.Motion | poll.c:18 | every table entry is -1, 0 or 1 |
| Poll.Decoded | poll.c:14-17 | the quadrature rule: +1 exactly for one step clockwise along 00→10→11→01→00, -1 exactly for one step back, 0 for no change or a two-step jump |
| Poll.MotionIsQuadrature | poll.c:14-18 | each table entry is the quadrature rule applied to the phases of its index |
| Poll.PhaseBijective | poll.c:15-16 | the four level pairs have four distinct phases |
| Poll.MotionAntisymmetric | poll.c:18 | the move back from q to p counts minus the move from p to q |
| Poll.ClockwiseCycle | poll.c:15 | a full clockwise cycle of four transitions counts 4 |
| Poll.Encoder.constructor | poll.c:47-94 | the encoder starts with counter 0 and the levels read from its pins |
| Poll.Encoder.ReadEncoder | poll.c:127-135 | the counter moves by exactly the returned table value, which is in {-1, 0, 1}, and the levels read become the previous levels |
| Poll.MoveAndBack | poll.c:127-135 | a reading followed by one back at the earlier levels leaves the counter unchanged |
| Poll.Button.ReadButton | poll.c:140-145 | `changed` is 1 exactly when the reading differs from the stored state, which becomes the reading; the reading is returned |
| Poll.Button.constructor | poll.c:51-52 | a button starts as `{0, pin}`: state 0 and `changed` 0 |
| Poll.ReadTwice | poll.c:140-145 | two equal readings in a row leave `changed` at 0 |
| Poll.Segments | poll.c:152-162 | each digit's row has seven segments |
| Poll.SegmentsByColumn | poll.c:152-162 | segment i is lit for a digit exactly when that digit is in the segment's set of digits |
| Poll.EightAndZero | poll.c:152-162 | 8 lights all seven segments and 0 all but g |
| Poll.DigitsDistinct | poll.c:152-162 | no two digits show the same segments |
| Poll.Display.constructor | poll.c:150-168 | the display has its own seven pins, one per segment |
| Poll.Display.DisplayNumber | poll.c:164-167 | pin i is written with `states[number][i]` for all seven pins |

## Left out

- IntSqrt.FastIntSqrt: only the lower bound `x < (r+1)²` is proved. There is
  no upper bound on the error, and `IntSqrt.FarAbove` shows the error can
  exceed 16%. Monotonicity in x is not proved either.
- **Hardware bring-up.** This is the SDRAM, GPIO, clock and LTDC
  configuration of `GLCD_Initialize_Doublebuffer`, plus `initializePins`,
  `resetPins` and the touch sensor. It is all register access through the HAL.
  Only the buffer and stride part of the initialisation is modelled.
- **Scan-out.** `HAL_LTDC_SetAddress` becomes the `scanOut` field. The vertical
  synchronisation busy-wait is not modelled, since it is a hardware wait.
- **The memset of the buffers at initialisation.** Dafny's arrays start with
  arbitrary contents rather than zero, so no initial pixel values are promised.
- **GLCD_Config.h and Fonts.h** are not part of this model. The screen size is
  a pair of constructor parameters, and the font is an abstract byte sequence
  with width, height and offset.
- **Floating-point code.** `normalizeToCircle` and `isInRadius` of
  `math_functions.c`, and all of `game.c`, are left out because they use
  floating point.
- **Mainloop.c.** It is the superloop, frame pacing, touch polling and the
  encoder interrupt. It is left out because it is timing and concurrency on
  hardware.
- **`malloc` and `free`.** Allocation is Dafny's `new`, and allocation failure
  is not modelled. `free` is not modelled either, because Dafny has no
  deallocation.
- LinkedList.List.DeleteList: does not model that the source frees a node and
  then reads its `next` through `getNext`. That is a use after free, and the
  model keeps the nodes alive. It promises which nodes are handed to `free`, in
  which order, and the resulting empty list.
- LinkedList.List.RemoveHead and LinkedList.List.RemoveAfter: the removed node
  is unlinked but not freed.
- **The iterator** is a value that the methods return anew. In the source,
  `getNext` and `removeItem` update it through a pointer.
- Render.Renderer.DrawString: with a NULL font the source dereferences the
  font to read its width. The model therefore requires that the string be
  empty in that case.
- Render.Renderer.DrawLine, Render.Renderer.DrawThickLine and the other
  primitives: coordinates are unbounded integers.
  - The methods require every write of their list to be inside the buffer,
    because the C code writes out of bounds otherwise.
  - `DrawLine` and `DrawThickLine` require coordinates below 2^15. This keeps
    every int32 difference and the shift `dX << 16` from overflowing.
  - Paint.Apply itself skips a write outside the buffer, so that it is defined
    on every list.
- Render.Renderer.DrawFilledCircle: the origin is an unbounded integer. For
  an origin far outside the screen, about 2^31 / GLCD_HEIGHT away, the int32
  values `GLCD_WIDTH - origin_x`, `y + origin_y` and `stride * column + rad_y`
  overflow in the source. That is undefined behaviour, and the pixels written
  are then not `Circle.FilledCircle`; the model does not describe that case.
- Render.Renderer.DrawFilledCircle: it requires `radius * radius` to fit an
  int32, and every drawn row to avoid the division by zero of `fastIntSqrt`.
  That division happens only for radius 2 (`Circle.RadiusTwo`).
- Poll.Encoder.ReadEncoder: the counter is an unbounded integer, so the int32
  overflow after 2^31 steps in one direction is not modelled.
- Poll.Display.DisplayNumber: the GPIO writes are cells of a `bool` array, with
  `true` for `GPIO_PIN_SET`. A `number` outside 0 to 9, which the C table
  access does not check, is excluded by the precondition.
- The landscape build (`GLCD_LANDSCAPE != 0`) is not modelled. Only the
  portrait branches of the primitives are.
- `stride` is a constant of the renderer. In the source it is a global that
  only the initialisation sets.
