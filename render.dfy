/**
 * The double-buffered software renderer of Render.c, as one object: the two
 * RGB565 frame buffers, the drawing target `frame_buf`, the buffer handed to
 * scan-out, the current colours and the row stride of the portrait layout.
 */
module Render {
  import opened Colour
  import opened Paint
  import opened Stepper
  import opened Raster
  import opened Fill
  import opened Circle
  import opened IntSqrt
  import opened Glyph

  /** `enum framebuffer` of Render.h. */
  datatype FrameBuffer = Buffer1 | Buffer2

  function Other(b: FrameBuffer): FrameBuffer
  {
    if b == Buffer1 then Buffer2 else Buffer1
  }

  lemma OtherInvolution(b: FrameBuffer)
    ensures Other(b) != b && Other(Other(b)) == b
  {}

  class Renderer {
    /** GLCD_WIDTH and GLCD_HEIGHT. */
    const width: nat
    const height: nat
    /** frame_buf_1 and frame_buf_2, GLCD_WIDTH * GLCD_HEIGHT pixels each. */
    const buffer1: array<bv16>
    const buffer2: array<bv16>
    /** frame_buf: where the primitives draw. */
    var frame: array<bv16>
    /** active: the buffer being scanned out. */
    var active: FrameBuffer
    /** The start address last given to the display controller. */
    var scanOut: array<bv16>
    var foreground: bv16
    var background: bv16
    /** The row stride, fixed at initialisation: GLCD_HEIGHT in the portrait layout. */
    const stride: int
    /** active_font: the font the text primitives draw with, None for a NULL pointer. */
    const font: Option<Font>

    /** The array standing for a buffer of the enum. */
    function BufferOf(b: FrameBuffer): array<bv16>
      reads this
    {
      if b == Buffer1 then buffer1 else buffer2
    }

    /**
     * The renderer after initialisation: two distinct buffers of
     * GLCD_WIDTH * GLCD_HEIGHT pixels, scan-out showing the `active` one and
     * drawing going to the other; rows are GLCD_HEIGHT pixels apart.
     */
    ghost predicate Valid()
      reads this
    {
      && 1 <= width && 1 <= height && width * height < 0x8000_0000
      && buffer1.Length == width * height && buffer2.Length == width * height
      && buffer1 != buffer2
      && scanOut == BufferOf(active)
      && frame == BufferOf(Other(active))
      && stride == height
    }

    /**
     * The static initialisers (white on black, scan-out buffer 1) followed by
     * the buffer part of GLCD_Initialize_Doublebuffer.
     */
    constructor (w: nat, h: nat, f: Option<Font>)
      requires 1 <= w && 1 <= h && w * h < 0x8000_0000
      ensures Valid()
      ensures width == w && height == h && font == f
      ensures active == Buffer1 && scanOut == buffer1 && frame == buffer2
      ensures foreground == White && background == Black
      ensures fresh(buffer1) && fresh(buffer2)
    {
      width, height := w, h;
      var b1 := new bv16[w * h];
      var b2 := new bv16[w * h];
      buffer1, buffer2 := b1, b2;
      foreground, background := White, Black;
      scanOut := b1;
      frame := b2;
      active := Buffer1;
      stride := h;
      font := f;
    }

    /** switchBuffer: scan out the buffer just drawn and draw into the other one. */
    method SwitchBuffer()
      requires Valid()
      modifies this
      ensures Valid()
      ensures active == Other(old(active))
      ensures scanOut == old(frame) && frame == old(scanOut)
      ensures frame != scanOut
      ensures foreground == old(foreground) && background == old(background)
    {
      if active == Buffer1 {
        scanOut := buffer2;
        frame := buffer1;
        active := Buffer2;
      } else {
        scanOut := buffer1;
        frame := buffer2;
        active := Buffer1;
      }
    }

    /** setBuffer: scan out `b` and draw into the other buffer, whatever the state was. */
    method SetBuffer(b: FrameBuffer)
      requires Valid()
      modifies this
      ensures Valid()
      ensures active == b && scanOut == BufferOf(b) && frame == BufferOf(Other(b))
      ensures foreground == old(foreground) && background == old(background)
    {
      if b == Buffer1 {
        scanOut := buffer1;
        frame := buffer2;
        active := Buffer1;
      } else {
        scanOut := buffer2;
        frame := buffer1;
        active := Buffer2;
      }
    }

    /** Two switches in a row give back the buffers and the `active` flag they started from. */
    method SwitchTwice()
      requires Valid()
      modifies this
      ensures Valid()
      ensures active == old(active) && frame == old(frame) && scanOut == old(scanOut)
    {
      SwitchBuffer();
      SwitchBuffer();
      OtherInvolution(old(active));
    }

    method SetForegroundColor(c: bv16)
      modifies this`foreground
      ensures foreground == c
    {
      foreground := c;
    }

    method SetBackgroundColor(c: bv16)
      modifies this`background
      ensures background == c
    {
      background := c;
    }

    /** clearScreen: every pixel of the drawing buffer becomes the background colour. */
    method ClearScreen()
      requires frame.Length == width * height
      modifies frame
      ensures forall i :: 0 <= i < frame.Length ==> frame[i] == background
    {
      var i := 0;
      while i < width * height
        invariant 0 <= i <= width * height
        invariant forall j :: 0 <= j < i ==> frame[j] == background
      {
        frame[i] := background;
        i := i + 1;
      }
    }

    /** blendPixel: the exact blend of the foreground onto pixel `x + stride*y`; nothing else changes. */
    method BlendPixel(x: int, y: int, alpha: bv8)
      requires 0 <= x + stride * y < frame.Length
      modifies frame
      ensures frame[..] == Step(old(frame[..]), Mix(x + stride * y, foreground, alpha))
    {
      Perform(frame, Mix(x + stride * y, foreground, alpha));
    }

    /** blendPixelFast: the packed blend of the foreground onto pixel `x + stride*y`; nothing else changes. */
    method BlendPixelFast(x: int, y: int, alpha: bv8)
      requires 0 <= x + stride * y < frame.Length
      modifies frame
      ensures frame[..] == Step(old(frame[..]), MixFast(x + stride * y, foreground, alpha))
    {
      var dot := x + stride * y;
      if alpha == 255 {
        frame[dot] := foreground;
        return;
      }
      Perform(frame, MixFast(dot, foreground, alpha));
    }
  
    /**
     * drawLine: the two end pixels, then the horizontal run, the vertical run
     * or the anti-aliased Xiaolin Wu stepping, exactly as LineOps lists them.
     * Coordinates small enough that no uint32 or int32 step wraps, and every
     * write inside the buffer, are what the C code silently relies on.
     */
    method DrawLine(x0: nat, y0: nat, x1: nat, y1: nat)
      requires x0 <= width && x1 <= width && width < 0x8000 && y0 < 0x8000 && y1 < 0x8000
      requires LineTerminates(x0, y0, x1, y1, width)
      requires Within(LineOps(x0, y0, x1, y1, width, stride, foreground), frame.Length)
      modifies frame
      ensures frame[..] == Apply(old(frame[..]), LineOps(x0, y0, x1, y1, width, stride, foreground))
    {
      var s := LineSegment(x0, y0, x1, y1, width);
      LineParts(x0, y0, x1, y1, width, stride, foreground, old(frame[..]), s);
      Perform(frame, Put(s.x0 + s.y0 * stride, foreground));
      Perform(frame, Put(s.x1 + s.y1 * width, foreground));
      LineBody(s.x0, s.y0, s.x1, s.y1);
    }

    /** drawLine after its end pixels: the horizontal run, the vertical run or the anti-aliased stepping. */
    method LineBody(x0: int, y0: int, x1: int, y1: int)
      requires y0 <= y1 && (y0 == y1 ==> x1 < x0)
      requires Within(LineRest(Segment(x0, y0, x1, y1), stride, foreground), frame.Length)
      modifies frame
      ensures frame[..] == Apply(old(frame[..]), LineRest(Segment(x0, y0, x1, y1), stride, foreground))
    {
      if y0 == y1 {
        LeftLine(x0, y0, x1, y1);
      } else if x0 == x1 {
        DownLine(x0, y0, x1, y1);
      } else if Abs(x1 - x0) < y1 - y0 {
        SteepLine(x0, y0, x1, y1);
      } else {
        ShallowLine(x0, y0, x1, y1);
      }
    }

    /** The `dY == 0` branch. */
    method LeftLine(x0: int, y0: int, x1: int, y1: int)
      requires y0 == y1 && x1 < x0
      requires Within(LineRest(Segment(x0, y0, x1, y1), stride, foreground), frame.Length)
      modifies frame
      ensures frame[..] == Apply(old(frame[..]), LineRest(Segment(x0, y0, x1, y1), stride, foreground))
    {
      var dX := x0 - x1;
      RestLeft(Segment(x0, y0, x1, y1), stride, foreground, dX);
      HorizontalRun(x0, y0, dX, -1);
    }

    /** The `dX == 0` branch. */
    method DownLine(x0: int, y0: int, x1: int, y1: int)
      requires y0 < y1 && x0 == x1
      requires Within(LineRest(Segment(x0, y0, x1, y1), stride, foreground), frame.Length)
      modifies frame
      ensures frame[..] == Apply(old(frame[..]), LineRest(Segment(x0, y0, x1, y1), stride, foreground))
    {
      var dY := y1 - y0;
      RestDown(Segment(x0, y0, x1, y1), stride, foreground, dY);
      VerticalRun(x0, y0, dY);
    }

    /** The `dY > dX` branch. */
    method SteepLine(x0: int, y0: int, x1: int, y1: int)
      requires 0 < Abs(x1 - x0) < y1 - y0
      requires Within(LineRest(Segment(x0, y0, x1, y1), stride, foreground), frame.Length)
      modifies frame
      ensures frame[..] == Apply(old(frame[..]), LineRest(Segment(x0, y0, x1, y1), stride, foreground))
    {
      var dX, dY, xDir := x1 - x0, y1 - y0, 1;
      if dX < 0 {
        dX, xDir := -dX, -1;
      }
      ghost var l := Line(Steep, x0, y0, xDir, Gradient(dX, dY), stride, foreground, 0);
      RestSteep(Segment(x0, y0, x1, y1), stride, foreground, dX, dY, xDir);
      StepsDrawn(old(frame[..]), LineRest(Segment(x0, y0, x1, y1), stride, foreground), l, dY - 1);
      SteepSteps(x0, y0, dX, dY, xDir, l);
    }

    /** The remaining branch: lines at most 45 degrees steep. */
    method ShallowLine(x0: int, y0: int, x1: int, y1: int)
      requires 0 < y1 - y0 <= Abs(x1 - x0)
      requires Within(LineRest(Segment(x0, y0, x1, y1), stride, foreground), frame.Length)
      modifies frame
      ensures frame[..] == Apply(old(frame[..]), LineRest(Segment(x0, y0, x1, y1), stride, foreground))
    {
      var dX, dY, xDir := x1 - x0, y1 - y0, 1;
      if dX < 0 {
        dX, xDir := -dX, -1;
      }
      ghost var l := Line(Shallow, x0, y0, xDir, Gradient(dY, dX), stride, foreground, 0);
      RestShallow(Segment(x0, y0, x1, y1), stride, foreground, dX, dY, xDir);
      StepsDrawn(old(frame[..]), LineRest(Segment(x0, y0, x1, y1), stride, foreground), l, dX - 1);
      ShallowSteps(x0, y0, dX, dY, xDir, l);
    }

    /** drawLine's stepping along y for lines steeper than 45 degrees, blended with blendPixelFast. */
    method SteepSteps(x0: int, y0: int, dX: nat, dY: nat, xDir: int, ghost l: Line)
      requires dX < dY && (xDir == 1 || xDir == -1)
      requires l == Line(Steep, x0, y0, xDir, Gradient(dX, dY), stride, foreground, 0)
      requires Within(Steps(l, dY - 1), frame.Length)
      modifies frame
      ensures frame[..] == Drawn(old(frame[..]), l, dY - 1)
    {
      ghost var base := frame[..];
      ghost var frames := AllFrames(base, l, dY - 1);
      var gradient := (dX * 65536) / dY;
      GradientBound(dX, dY);
      GradientValue(dX, dY);
      ghost var k := 0;
      var x, y, subPixel: nat, count := x0, y0, 0, dY;
      count := count - 1;
      FramesStart(base, l, dY - 1, frames);
      while count != 0
        invariant 0 <= k <= dY - 1 && count == dY - 1 - k
        invariant subPixel == Frac(k, gradient) && x == PointX(l, k) && y == PointY(l, k)
        invariant frame[..] == frames[k]
      {
        var next := SteepMove(l, k, x, y, subPixel, xDir, gradient);
        var alpha;
        x, y, subPixel, alpha := next.0, next.1, next.2, next.3;
        SteepPixels(base, l, dY - 1, k, x, y, xDir, alpha, frames);
        count := count - 1;
        k := k + 1;
      }
      FramesLast(base, l, dY - 1, frames, frame[..]);
    }

    /** One pass of the steep loop up to its blends: step y, carry into x, take the opacity from `subPixel`. */
    static function SteepMove(ghost l: Line, ghost k: nat, x: int, y: int, subPixel: nat, xDir: int, gradient: nat): (r: (int, int, nat, bv8))
      requires IsSteep(l) && l.xDir == xDir && l.g == gradient && (xDir == 1 || xDir == -1) && gradient <= One
      requires subPixel == Frac(k, gradient) && x == PointX(l, k) && y == PointY(l, k)
      ensures r.2 == Frac(k + 1, gradient) && r.0 == PointX(l, k + 1) && r.1 == PointY(l, k + 1)
      ensures r.3 == Alpha(k + 1, gradient)
    {
      var sum := subPixel + gradient;
      if sum >= 65536 then (x + xDir, y + 1, sum - 65536, ToByte((sum - 65536) / 256 % 256))
      else (x, y + 1, sum, ToByte(sum / 256 % 256))
    }

    /** The two blendPixelFast calls of one pass of the steep loop: the pixel reached and its neighbour behind in x. */
    method SteepPixels(ghost base: seq<bv16>, ghost l: Line, ghost n: nat, ghost k: nat, x: int, y: int, xDir: int, alpha: bv8,
                       ghost frames: seq<seq<bv16>>)
      requires l.kind == Steep && l.xDir == xDir && l.stride == stride && l.fg == foreground
      requires k < n && |base| == frame.Length && Frames(base, l, n, frames)
      requires x == PointX(l, k + 1) && y == PointY(l, k + 1) && alpha == Alpha(k + 1, l.g)
      requires frame[..] == frames[k]
      modifies frame
      ensures frame[..] == frames[k + 1]
    {
      SteepNext(base, l, n, k, x, y, alpha, xDir, stride, foreground, frames);
      BlendPixelFast(x, y, alpha);
      BlendPixelFast(x - xDir, y, alpha ^ 255);
    }

    /** drawLine's stepping along x for the other lines, blended with blendPixel. */
    method ShallowSteps(x0: int, y0: int, dX: nat, dY: nat, xDir: int, ghost l: Line)
      requires 1 <= dX && dY <= dX && (xDir == 1 || xDir == -1)
      requires l == Line(Shallow, x0, y0, xDir, Gradient(dY, dX), stride, foreground, 0)
      requires Within(Steps(l, dX - 1), frame.Length)
      modifies frame
      ensures frame[..] == Drawn(old(frame[..]), l, dX - 1)
    {
      ghost var base := frame[..];
      ghost var frames := AllFrames(base, l, dX - 1);
      var gradient := (dY * 65536) / dX;
      GradientBound(dY, dX);
      GradientValue(dY, dX);
            ghost var k := 0;
      var x, y, subPixel: nat, count := x0, y0, 0, dX;
      count := count - 1;
      FramesStart(base, l, dX - 1, frames);
      while count != 0
        invariant 0 <= k <= dX - 1 && count == dX - 1 - k
        invariant subPixel == Frac(k, gradient) && x == PointX(l, k) && y == PointY(l, k)
        invariant frame[..] == frames[k]
      {
        var next := ShallowMove(l, k, x, y, subPixel, xDir, gradient);
        var alpha;
        x, y, subPixel, alpha := next.0, next.1, next.2, next.3;
        ShallowPixels(base, l, dX - 1, k, x, y, alpha, frames);
        count := count - 1;
        k := k + 1;
      }
      FramesLast(base, l, dX - 1, frames, frame[..]);
    }

    /** One pass of the shallow loop up to its blends: step x, carry into y, take the opacity from `subPixel`. */
    static function ShallowMove(ghost l: Line, ghost k: nat, x: int, y: int, subPixel: nat, xDir: int, gradient: nat): (r: (int, int, nat, bv8))
      requires !IsSteep(l) && l.xDir == xDir && l.g == gradient && (xDir == 1 || xDir == -1) && gradient <= One
      requires subPixel == Frac(k, gradient) && x == PointX(l, k) && y == PointY(l, k)
      ensures r.2 == Frac(k + 1, gradient) && r.0 == PointX(l, k + 1) && r.1 == PointY(l, k + 1)
      ensures r.3 == Alpha(k + 1, gradient)
    {
      var sum := subPixel + gradient;
      if sum >= 65536 then (x + xDir, y + 1, sum - 65536, ToByte((sum - 65536) / 256 % 256))
      else (x + xDir, y, sum, ToByte(sum / 256 % 256))
    }

    /** The two blendPixel calls of one pass of the shallow loop: the pixel reached and the one below it. */
    method ShallowPixels(ghost base: seq<bv16>, ghost l: Line, ghost n: nat, ghost k: nat, x: int, y: int, alpha: bv8,
                         ghost frames: seq<seq<bv16>>)
      requires l.kind == Shallow && l.stride == stride && l.fg == foreground
      requires k < n && |base| == frame.Length && Frames(base, l, n, frames)
      requires x == PointX(l, k + 1) && y == PointY(l, k + 1) && alpha == Alpha(k + 1, l.g)
      requires frame[..] == frames[k]
      modifies frame
      ensures frame[..] == frames[k + 1]
    {
      ShallowNext(base, l, n, k, x, y, alpha, stride, foreground, frames);
      BlendPixel(x, y, alpha);
      BlendPixel(x, y + 1, alpha ^ 255);
    }

    /** drawLine's loop for horizontal lines, which counts dX towards 0 by xDir and so stops only when xDir is -1. */
    method HorizontalRun(x0: int, y0: int, dX: int, xDir: int)
      requires xDir == -1 && dX >= 1
      requires Within(LeftRun(x0, y0, stride, foreground, dX - 1), frame.Length)
      modifies frame
      ensures frame[..] == Apply(old(frame[..]), LeftRun(x0, y0, stride, foreground, dX - 1))
    {
      var buf, s, fg := frame, stride, foreground;
      ghost var base := buf[..];
      ghost var n := dX - 1;
      ghost var k := 0;
      var x, count := x0, dX;
      count := count + xDir;
      while count != 0
        invariant 0 <= k <= n && count == n - k && x == x0 - k
        invariant buf[..] == Apply(base, LeftRun(x0, y0, s, fg, k))
        decreases count
      {
        LeftNext(base, x0, y0, s, fg, n, k, x);
        Perform(buf, Put(x + s * y0, fg));
        x := x + xDir;
        count := count + xDir;
        k := k + 1;
      }
    }

    /** drawLine's loop for vertical lines: dY pixels, counted down. */
    method VerticalRun(x0: int, y0: int, dY: nat)
      requires Within(DownRun(x0, y0, stride, foreground, dY), frame.Length)
      modifies frame
      ensures frame[..] == Apply(old(frame[..]), DownRun(x0, y0, stride, foreground, dY))
    {
      var buf, s, fg := frame, stride, foreground;
      ghost var base := buf[..];
      ghost var k := 0;
      var y, count := y0, dY;
      while count != 0
        invariant 0 <= k <= dY && count == dY - k && y == y0 + k
        invariant buf[..] == Apply(base, DownRun(x0, y0, s, fg, k))
      {
        DownNext(base, x0, y0, s, fg, dY, k, y);
        Perform(buf, Put(x0 + s * y, fg));
        count := count - 1;
        y := y + 1;
        k := k + 1;
      }
    }

    /**
     * drawThickLine: the rotation x' = GLCD_HEIGHT - y, y' = GLCD_WIDTH - x and
     * the reordering, nothing for a single point, otherwise the steep or the
     * shallow stepping with a run of `thickness` opaque pixels on one side of
     * every step, exactly as ThickLineOps lists them.
     */
    method DrawThickLine(x0: nat, y0: nat, x1: nat, y1: nat, thickness: nat)
      requires x0 <= width && x1 <= width && y0 <= height && y1 <= height
      requires width < 0x8000 && height < 0x8000 && thickness < 0x8000
      requires Within(ThickLineOps(x0, y0, x1, y1, thickness, width, height, stride, foreground), frame.Length)
      modifies frame
      ensures frame[..] == Apply(old(frame[..]), ThickLineOps(x0, y0, x1, y1, thickness, width, height, stride, foreground))
    {
      var s := ThickSegment(x0, y0, x1, y1, width, height);
      var dX, dY := s.x1 - s.x0, s.y1 - s.y0;
      if dX == 0 && dY == 0 {
        return;
      }
      var xDir := 1;
      if dX < 0 {
        xDir, dX := -1, -dX;
      }
      if dY > dX {
        ThickSteepLine(s.x0, s.y0, s.x1, s.y1, dX, dY, xDir, thickness);
      } else {
        ThickShallowLine(s.x0, s.y0, s.x1, s.y1, dX, dY, xDir, thickness);
      }
    }

    /** The `dY > dX` branch of drawThickLine. */
    method ThickSteepLine(x0: int, y0: int, x1: int, y1: int, dX: nat, dY: nat, xDir: int, t: nat)
      requires dX == Abs(x1 - x0) && dY == y1 - y0 && xDir == Dir(x1 - x0) && dX < dY
      requires Within(ThickRest(Segment(x0, y0, x1, y1), t, stride, foreground), frame.Length)
      modifies frame
      ensures frame[..] == Apply(old(frame[..]), ThickRest(Segment(x0, y0, x1, y1), t, stride, foreground))
    {
      ghost var l := Line(ThickSteep, x0, y0, xDir, Gradient(dX, dY), stride, foreground, t);
      RestThickSteep(Segment(x0, y0, x1, y1), t, stride, foreground, dX, dY, xDir);
      StepsDrawn(old(frame[..]), ThickRest(Segment(x0, y0, x1, y1), t, stride, foreground), l, dY - 1);
      ThickSteepSteps(x0, y0, dX, dY, xDir, t, l);
    }

    /** The other branch of drawThickLine. */
    method ThickShallowLine(x0: int, y0: int, x1: int, y1: int, dX: nat, dY: nat, xDir: int, t: nat)
      requires dX == Abs(x1 - x0) && dY == y1 - y0 && xDir == Dir(x1 - x0) && 0 < dX && dY <= dX
      requires Within(ThickRest(Segment(x0, y0, x1, y1), t, stride, foreground), frame.Length)
      modifies frame
      ensures frame[..] == Apply(old(frame[..]), ThickRest(Segment(x0, y0, x1, y1), t, stride, foreground))
    {
      ghost var l := Line(ThickShallow, x0, y0, xDir, Gradient(dY, dX), stride, foreground, t);
      RestThickShallow(Segment(x0, y0, x1, y1), t, stride, foreground, dX, dY, xDir);
      StepsDrawn(old(frame[..]), ThickRest(Segment(x0, y0, x1, y1), t, stride, foreground), l, dX - 1);
      ThickShallowSteps(x0, y0, dX, dY, xDir, t, l);
    }

    /**
     * drawThickLine's stepping along y, as drawLine's, each step followed by a
     * run in x; after step k the buffer is the drawing's frame k.
     */
    method ThickSteepSteps(x0: int, y0: int, dX: nat, dY: nat, xDir: int, t: nat, ghost l: Line)
      requires dX < dY && (xDir == 1 || xDir == -1)
      requires l == Line(ThickSteep, x0, y0, xDir, Gradient(dX, dY), stride, foreground, t)
      requires Within(Steps(l, dY - 1), frame.Length)
      modifies frame
      ensures frame[..] == Drawn(old(frame[..]), l, dY - 1)
    {
      ghost var base := frame[..];
      ghost var frames := AllFrames(base, l, dY - 1);
      var gradient := (dX * 65536) / dY;
      GradientBound(dX, dY);
      GradientValue(dX, dY);
      ghost var k := 0;
      var x, y, subPixel: nat, count := x0, y0, 0, dY;
      count := count - 1;
      FramesStart(base, l, dY - 1, frames);
      while count != 0
        invariant 0 <= k <= dY - 1 && count == dY - 1 - k
        invariant subPixel == Frac(k, gradient) && x == PointX(l, k) && y == PointY(l, k)
        invariant frame[..] == frames[k]
      {
        var next := SteepMove(l, k, x, y, subPixel, xDir, gradient);
        var alpha;
        x, y, subPixel, alpha := next.0, next.1, next.2, next.3;
        ThickSteepPixels(base, l, dY - 1, k, x, y, xDir, t, alpha, frames);
        count := count - 1;
        k := k + 1;
      }
      FramesLast(base, l, dY - 1, frames, frame[..]);
    }

    /** The blends of one pass of the thick steep loop: the pixel reached, the far edge `thickness` away, and the run between. */
    method ThickSteepPixels(ghost base: seq<bv16>, ghost l: Line, ghost n: nat, ghost k: nat, x: int, y: int, xDir: int, t: nat,
                            alpha: bv8, ghost frames: seq<seq<bv16>>)
      requires l.kind == ThickSteep && l.xDir == xDir && l.stride == stride && l.fg == foreground && l.thickness == t
      requires xDir == 1 || xDir == -1
      requires k < n && |base| == frame.Length && Frames(base, l, n, frames)
      requires x == PointX(l, k + 1) && y == PointY(l, k + 1) && alpha == Alpha(k + 1, l.g)
      requires frame[..] == frames[k]
      modifies frame
      ensures frame[..] == frames[k + 1]
    {
      var reach := xDir * t;
      TowardTimes(x, xDir, t);
      ThickSteepNext(base, l, n, k, x, y, alpha, x + reach, xDir, stride, foreground, t, frames);
      BlendPixelFast(x, y, alpha);
      BlendPixelFast(x + reach, y, alpha ^ 255);
      SteepThickness(x, y, xDir, t);
    }

    /** The run in x of a thick steep pass: opaque fast blends from x + xDir * (t - 1) back to x. */
    method SteepThickness(x: int, y: int, xDir: int, t: nat)
      requires xDir == 1 || xDir == -1
      requires Within(SteepRun(x, y, xDir, stride, foreground, t), frame.Length)
      modifies frame
      ensures frame[..] == SteepFill(old(frame[..]), x, y, xDir, stride, foreground, t)
    {
      ghost var goal := SteepFill(frame[..], x, y, xDir, stride, foreground, t);
      ghost var m: nat := t;
      var i := xDir * t;
      TowardTimes(x, xDir, t);
      while i != 0
        invariant x + i == Toward(x, xDir, m) && (i == 0 <==> m == 0)
        invariant Within(SteepRun(x, y, xDir, stride, foreground, m), frame.Length)
        invariant SteepFill(frame[..], x, y, xDir, stride, foreground, m) == goal
        decreases m
      {
        ghost var before := m;
        i, m := i - xDir, m - 1;
        SteepRunFirst(frame[..], x, y, xDir, stride, foreground, before, m, x + i);
        BlendPixelFast(x + i, y, 255);
      }
    }

    /**
     * drawThickLine's stepping along x, as drawLine's, each step followed by a
     * run in y; after step k the buffer is the drawing's frame k.
     */
    method ThickShallowSteps(x0: int, y0: int, dX: nat, dY: nat, xDir: int, t: nat, ghost l: Line)
      requires 1 <= dX && dY <= dX && (xDir == 1 || xDir == -1)
      requires l == Line(ThickShallow, x0, y0, xDir, Gradient(dY, dX), stride, foreground, t)
      requires Within(Steps(l, dX - 1), frame.Length)
      modifies frame
      ensures frame[..] == Drawn(old(frame[..]), l, dX - 1)
    {
      ghost var base := frame[..];
      ghost var frames := AllFrames(base, l, dX - 1);
      var gradient := (dY * 65536) / dX;
      GradientBound(dY, dX);
      GradientValue(dY, dX);
      ghost var k := 0;
      var x, y, subPixel: nat, count := x0, y0, 0, dX;
      count := count - 1;
      FramesStart(base, l, dX - 1, frames);
      while count != 0
        invariant 0 <= k <= dX - 1 && count == dX - 1 - k
        invariant subPixel == Frac(k, gradient) && x == PointX(l, k) && y == PointY(l, k)
        invariant frame[..] == frames[k]
      {
        var next := ShallowMove(l, k, x, y, subPixel, xDir, gradient);
        var alpha;
        x, y, subPixel, alpha := next.0, next.1, next.2, next.3;
        ThickShallowPixels(base, l, dX - 1, k, x, y, t, alpha, frames);
        count := count - 1;
        k := k + 1;
      }
      FramesLast(base, l, dX - 1, frames, frame[..]);
    }

    /** The blends of one pass of the thick shallow loop: the pixel reached, the far edge `thickness` above, and the run between. */
    method ThickShallowPixels(ghost base: seq<bv16>, ghost l: Line, ghost n: nat, ghost k: nat, x: int, y: int, t: nat, alpha: bv8,
                              ghost frames: seq<seq<bv16>>)
      requires l.kind == ThickShallow && l.stride == stride && l.fg == foreground && l.thickness == t
      requires k < n && |base| == frame.Length && Frames(base, l, n, frames)
      requires x == PointX(l, k + 1) && y == PointY(l, k + 1) && alpha == Alpha(k + 1, l.g)
      requires frame[..] == frames[k]
      modifies frame
      ensures frame[..] == frames[k + 1]
    {
      ThickShallowNext(base, l, n, k, x, y, alpha, y - t, stride, foreground, t, frames);
      BlendEdges(x, y, y - t, alpha);
      ShallowThickness(x, y, t);
    }

    /** The two exact blends on either side of a thick shallow pass, in rows y and py. */
    method BlendEdges(x: int, y: int, py: int, alpha: bv8)
      requires 0 <= x + stride * y < frame.Length && 0 <= x + stride * py < frame.Length
      modifies frame
      ensures frame[..] == Step(Step(old(frame[..]), Mix(x + stride * y, foreground, alpha)), Mix(x + stride * py, foreground, alpha ^ 255))
    {
      BlendPixel(x, y, alpha);
      BlendPixel(x, py, alpha ^ 255);
    }

    /** The run in y of a thick shallow pass: opaque fast blends from row y - (t - 1) down to y. */
    method ShallowThickness(x: int, y: int, t: nat)
      requires Within(ShallowRun(x, y, stride, foreground, t), frame.Length)
      modifies frame
      ensures frame[..] == ShallowFill(old(frame[..]), x, y, stride, foreground, t)
    {
      ghost var goal := ShallowFill(frame[..], x, y, stride, foreground, t);
      var i: nat := t;
      while i != 0
        invariant Within(ShallowRun(x, y, stride, foreground, i), frame.Length)
        invariant ShallowFill(frame[..], x, y, stride, foreground, i) == goal
      {
        ghost var before := i;
        i := i - 1;
        ShallowRunFirst(frame[..], x, y, stride, foreground, before, i, y - i);
        BlendPixelFast(x, y - i, 255);
      }
    }

    /** A solid write of the foreground colour at index `dot` of the drawing target. */
    method Plot(dot: int)
      requires 0 <= dot < frame.Length
      modifies frame
      ensures frame[..] == old(frame[..])[dot := foreground]
    {
      ghost var before := frame[..];
      frame[dot] := foreground;
      assert frame[..] == before[dot := foreground];
    }

    /** One solid write of the foreground, added to those of a fill in progress. */
    method PaintDot(ghost base: seq<bv16>, ghost dots: set<int>, dot: int)
      requires 0 <= dot < frame.Length && Painted(base, frame[..], dots, foreground)
      modifies frame
      ensures Painted(base, frame[..], dots + {dot}, foreground)
    {
      ghost var before := frame[..];
      Plot(dot);
      PaintedMore(base, before, dots, foreground, dot);
    }

    /**
     * GLCD_DrawHLine: the screen pixels (x, y) to (x + length - 1, y) in the
     * foreground colour, stepping GLCD_HEIGHT back per pixel; returns 0.
     */
    method DrawHLine(x: nat, y: nat, length: nat) returns (r: int)
      requires HLineFits(ScreenDot(width, height, x, y), height, length, frame.Length)
      modifies frame
      ensures r == 0
      ensures Painted(old(frame[..]), frame[..], HLineDots(ScreenDot(width, height, x, y), height, length), foreground)
    {
      ghost var base, start := frame[..], ScreenDot(width, height, x, y);
      ghost var k := 0;
      var dot := (width - x) * height + y;
      var n: nat := length;
      PaintedNothing(base, foreground);
      while n != 0
        invariant 0 <= k && k + n == length && dot == HDot(start, height, k)
        invariant Painted(base, frame[..], HLineDots(start, height, k), foreground)
        decreases n
      {
        HLineNext(start, height, k);
        assert dot in HLineDots(start, height, length);
        HLineBounds(start, height, length, dot);
        PaintDot(base, HLineDots(start, height, k), dot);
        HDotNext(start, height, k);
        dot := dot - height;
        n := n - 1;
        k := k + 1;
      }
      return 0;
    }

    /** GLCD_DrawVLine: the screen pixels (x, y) to (x, y + length - 1), consecutive indices; returns 0. */
    method DrawVLine(x: nat, y: nat, length: nat) returns (r: int)
      requires VLineFits(ScreenDot(width, height, x, y), length, frame.Length)
      modifies frame
      ensures r == 0
      ensures Painted(old(frame[..]), frame[..], VLineDots(ScreenDot(width, height, x, y), length), foreground)
    {
      ghost var base, start := frame[..], ScreenDot(width, height, x, y);
      ghost var k := 0;
      var dot := (width - x) * height + y;
      var n: nat := length;
      PaintedNothing(base, foreground);
      while n != 0
        invariant 0 <= k && k + n == length && dot == start + k
        decreases n
        invariant Painted(base, frame[..], VLineDots(start, k), foreground)
      {
        VLineNext(start, k);
        PaintDot(base, VLineDots(start, k), dot);
        dot := dot + 1;
        n := n - 1;
        k := k + 1;
      }
      return 0;
    }

    /** GLCD_DrawRectangle: two horizontal and two vertical lines; returns 0. */
    method DrawRectangle(x: nat, y: nat, w: nat, h: nat) returns (r: int)
      requires HLineFits(ScreenDot(width, height, x, y), height, w, frame.Length)
      requires HLineFits(ScreenDot(width, height, x, y + h), height, w, frame.Length)
      requires VLineFits(ScreenDot(width, height, x, y), h, frame.Length)
      requires VLineFits(ScreenDot(width, height, x + w, y), h, frame.Length)
      modifies frame
      ensures r == 0
      ensures Painted(old(frame[..]), frame[..], OutlineDots(width, height, x, y, w, h), foreground)
    {
      ghost var b0 := frame[..];
      var status := DrawHLine(x, y, w);
      ghost var b1 := frame[..];
      status := DrawHLine(x, y + h, w);
      ghost var b2 := frame[..];
      PaintedThen(b0, b1, b2, HLineDots(ScreenDot(width, height, x, y), height, w),
                  HLineDots(ScreenDot(width, height, x, y + h), height, w), foreground);
      status := DrawVLine(x, y, h);
      ghost var b3 := frame[..];
      PaintedThen(b0, b2, b3, HLineDots(ScreenDot(width, height, x, y), height, w) + HLineDots(ScreenDot(width, height, x, y + h), height, w),
                  VLineDots(ScreenDot(width, height, x, y), h), foreground);
      status := DrawVLine(x + w, y, h);
      PaintedThen(b0, b3, frame[..], HLineDots(ScreenDot(width, height, x, y), height, w) + HLineDots(ScreenDot(width, height, x, y + h), height, w)
                  + VLineDots(ScreenDot(width, height, x, y), h), VLineDots(ScreenDot(width, height, x + w, y), h), foreground);
      return 0;
    }

    /**
     * fillRectangle: after the portrait swap (x' = GLCD_WIDTH - y, y' = x, the
     * width and height exchanged) `h` indices in each of `w` columns of the
     * buffer, from one past x' + y' * stride; nothing else changes.
     */
    method FillRectangle(x: nat, y: nat, w: nat, h: nat)
      requires Valid()
      requires RectFits(RectBase(width, stride, x, y), stride, h, w, frame.Length)
      modifies frame
      ensures Painted(old(frame[..]), frame[..], RectDots(RectBase(width, stride, x, y), stride, h, w), foreground)
    {
      ghost var before, base := frame[..], RectBase(width, stride, x, y);
      var x', y', rw, rh := width - y, x, h, w;
      var dot := x' + y' * stride;
      var i := 0;
      PaintedNothing(before, foreground);
      while i < rh
        invariant 0 <= i <= rh && dot == RowStart(base, stride, i)
        invariant Painted(before, frame[..], RectDots(base, stride, rw, i), foreground)
      {
        RowFits(base, stride, rw, rh, i, frame.Length);
        dot := FillRow(before, RectDots(base, stride, rw, i), dot, rw);
        RowStartNext(base, stride, rw, i);
        dot := dot + stride - rw;
        RectNext(base, stride, rw, i);
        i := i + 1;
      }
    }

    /** The inner loop of fillRectangle: the `n` indices after `start`, stepping `dot` before each write. */
    method FillRow(ghost base: seq<bv16>, ghost done: set<int>, start: int, n: nat) returns (dot: int)
      requires n == 0 || (0 <= start + 1 && start + n < frame.Length)
      requires Painted(base, frame[..], done, foreground)
      modifies frame
      ensures dot == start + n
      ensures Painted(base, frame[..], done + RowDots(start, n), foreground)
    {
      dot := start;
      var j := 0;
      while j < n
        invariant 0 <= j <= n && dot == start + j
        invariant Painted(base, frame[..], done + RowDots(start, j), foreground)
      {
        dot := dot + 1;
        PaintDot(base, done + RowDots(start, j), dot);
        RowNext(start, j);
        j := j + 1;
      }
    }

    /**
     * drawFilledCircle: paints FilledCircle, the rows of the circle that its
     * own guards keep, so no index outside the buffer is written for any origin
     * whose int32 index arithmetic (`GLCD_WIDTH - origin_x`, `y + origin_y`,
     * `stride * column + rad_y`) does not overflow; the model's unbounded
     * integers ask no bound on the origin of the caller.  radius * radius must
     * not overflow int32.
     */
    method DrawFilledCircle(originX: int, originY: int, radius: int)
      requires Valid()
      requires radius * radius < 0x8000_0000
      requires CircleDefined(height - originY, radius, height)
      modifies frame
      ensures Painted(old(frame[..]), frame[..], FilledCircle(width, height, stride, originX, originY, radius), foreground)
    {
      ghost var base := frame[..];
      var radiusSquared := radius * radius;
      var buffsize := width * height;
      var oy := height - originY;
      var ox := width - originX;
      ghost var n: nat := 0;
      PaintedNothing(base, foreground);
      var y := -radius;
      while y < radius
        invariant y == -radius + n && n <= Rows(radius)
        invariant Painted(base, frame[..], CircleDots(ox, oy, radius, height, stride, buffsize, n), foreground)
        decreases radius - y
      {
        CirclePass(base, ox, oy, radius, radiusSquared, y, n);
        y := y + 1;
        n := n + 1;
      }
    }

    /** One pass of the outer loop of drawFilledCircle: row offset y adds its span, or nothing when off the screen. */
    method CirclePass(ghost base: seq<bv16>, ox: int, oy: int, radius: int, radiusSquared: int, y: int, ghost n: nat)
      requires Valid() && CircleDefined(oy, radius, height) && n < Rows(radius) && y == -radius + n
      requires radiusSquared == radius * radius && radiusSquared < 0x8000_0000
      requires Painted(base, frame[..], CircleDots(ox, oy, radius, height, stride, width * height, n), foreground)
      modifies frame
      ensures Painted(base, frame[..], CircleDots(ox, oy, radius, height, stride, width * height, n + 1), foreground)
    {
      var buffsize := width * height;
      ghost var done := CircleDots(ox, oy, radius, height, stride, buffsize, n);
      CircleNext(ox, oy, radius, height, stride, buffsize, n, y);
      var radY := y + oy;
      if !(radY >= height || radY <= 0) {
        var ySquared := y * y;
        assert RowArg(radius, y) == radiusSquared - ySquared;
        var half := FastIntSqrt(radiusSquared - ySquared);
        CircleRowSpan(ox, oy, radius, y, height, stride, buffsize, half);
        CircleSpan(base, done, ox - half, ox + half, radY);
      } else {
        CircleRowClipped(ox, oy, radius, y, height, stride, buffsize);
        assert done + {} == done;
      }
    }

    /**
     * The inner loop of drawFilledCircle for one row: columns lo up to hi,
     * `stride` indices apart, with its jump over columns left of the screen
     * and its `dot > buffsize` guard, where int32 `dot` is compared unsigned.
     */
    method CircleSpan(ghost base: seq<bv16>, ghost done: set<int>, lo: int, hi: int, radY: int)
      requires Valid() && 0 < radY < height && lo <= hi
      requires Painted(base, frame[..], done, foreground)
      modifies frame
      ensures Painted(base, frame[..], done + SpanDots(stride, radY, width * height, lo, hi), foreground)
    {
      var buffsize := width * height;
      ghost var c := lo;
      var dot := stride * lo + radY;
      while dot < stride * hi + radY
        invariant lo <= c && (c <= hi || c <= 0) && dot == ColumnDot(stride, c, radY)
        invariant Painted(base, frame[..], done + SpanDots(stride, radY, buffsize, lo, c), foreground)
        decreases stride * hi + radY - dot
      {
        ColumnLess(stride, c, hi, radY);
        if dot < 0 {
          LeftOfScreen(stride, c, radY);
          JumpUp(stride, c, radY);
          SpanLeft(stride, radY, buffsize, lo, c);
          dot := dot + -CDiv(dot, stride) * stride;
          c := -1;
          SpanLeft(stride, radY, buffsize, lo, c);
        }
        SpanNext(stride, radY, buffsize, lo, c);
        if !(dot < 0 || dot > buffsize) {
          NeverBuffsize(width, stride, c, radY);
          PaintDot(base, done + SpanDots(stride, radY, buffsize, lo, c), dot);
        }
        ColumnNext(stride, c, radY);
        dot := dot + stride;
        c := c + 1;
      }
      ColumnLess(stride, c, hi, radY);
      if c > hi {
        SpanLeft(stride, radY, buffsize, lo, c);
        SpanLeft(stride, radY, buffsize, lo, hi);
      }
    }

    /**
     * GLCD_DrawChar: with no font, -1 and nothing drawn; otherwise 0, the set
     * pixels of ch's glyph painted and every other pixel of its box written
     * back unchanged.  Every index of the box must be inside the buffer.
     */
    method DrawChar(x: int, y: int, ch: int) returns (r: int)
      requires Valid()
      requires font.Some? ==> HasGlyph(font.value, ch) && GlyphFits(width, height, x, y, font.value, frame.Length)
      modifies frame
      ensures font.None? ==> r == -1 && frame[..] == old(frame[..])
      ensures font.Some? ==> r == 0 && Painted(old(frame[..]), frame[..], GlyphDots(font.value, ch, width, height, x, y), foreground)
    {
      if font.None? {
        return -1;
      }
      var f := font.value;
      ghost var base := frame[..];
      var wb := (f.width + 7) / 8;
      var p := (ch - f.offset) * wb * f.height;
      var dot := (width - x) * height + y;
      PaintedNothing(base, foreground);
      var i := 0;
      while i < f.height
        invariant 0 <= i <= f.height && dot == GlyphDot(width, height, x, y, i, 0)
        invariant f.width >= 1 ==> p == ByteAt(f, ch, i, 0)
        invariant Painted(base, frame[..], GlyphRows(f, ch, width, height, x, y, i), foreground)
      {
        var j;
        dot, p, j := GlyphRowPass(base, GlyphRows(f, ch, width, height, x, y, i), f, ch, x, y, i, dot, p);
        GlyphDotNextRow(width, height, x, y, i, j);
        dot := dot + height * j + 1;
        if f.width >= 1 {
          ByteNextRow(f, ch, i);
        }
        p := p + 1;
        RowsNext(f, ch, width, height, x, y, i);
        i := i + 1;
      }
      return 0;
    }

    /**
     * One row of GLCD_DrawChar: columns 0 up to width, each GLCD_HEIGHT
     * indices below the last, the byte address moving to the next byte after
     * every eighth column but the row's last.
     */
    method GlyphRowPass(ghost base: seq<bv16>, ghost done: set<int>, f: Font, ch: int, x: int, y: int, i: nat, dot: int, p: int)
      returns (dot': int, p': int, j: nat)
      requires Valid() && HasGlyph(f, ch) && i < f.height && GlyphFits(width, height, x, y, f, frame.Length)
      requires dot == GlyphDot(width, height, x, y, i, 0) && (f.width >= 1 ==> p == ByteAt(f, ch, i, 0))
      requires Painted(base, frame[..], done, foreground)
      modifies frame
      ensures j == f.width && dot' == GlyphDot(width, height, x, y, i, j)
      ensures f.width >= 1 ==> p' == ByteAt(f, ch, i, f.width - 1)
      ensures Painted(base, frame[..], done + GlyphRow(f, ch, width, height, x, y, i, f.width), foreground)
    {
      dot', p', j := dot, p, 0;
      while j < f.width
        invariant j <= f.width && dot' == GlyphDot(width, height, x, y, i, j)
        invariant j < f.width ==> p' == ByteAt(f, ch, i, j)
        invariant j == f.width && f.width >= 1 ==> p' == ByteAt(f, ch, i, f.width - 1)
        invariant Painted(base, frame[..], done + GlyphRow(f, ch, width, height, x, y, i, j), foreground)
      {
        GlyphBox(width, height, x, y, f, frame.Length, i, j);
        ByteBound(f, ch, i, j);
        var lit := (f.bitmap[p'] >> (j % 8)) & 1 == 1;
        PaintIf(base, done + GlyphRow(f, ch, width, height, x, y, i, j), dot', lit);
        RowNextBit(f, ch, width, height, x, y, i, j);
        GlyphDotRight(width, height, x, y, i, j);
        dot' := dot' - height;
        if j % 8 == 7 && j != f.width - 1 {
          p' := p' + 1;
        }
        j := j + 1;
      }
    }

    /** Writes the foreground at `dot` when `lit`, and the pixel's own value back otherwise. */
    method PaintIf(ghost base: seq<bv16>, ghost dots: set<int>, dot: int, lit: bool)
      requires 0 <= dot < frame.Length && Painted(base, frame[..], dots, foreground)
      modifies frame
      ensures Painted(base, frame[..], dots + (if lit then {dot} else {}), foreground)
    {
      ghost var before := frame[..];
      frame[dot] := if lit then foreground else frame[dot];
      if lit {
        PaintedMore(base, before, dots, foreground, dot);
      } else {
        assert frame[..] == before;
      }
    }

    /**
     * GLCD_DrawString: each character before the NUL drawn with GLCD_DrawChar,
     * the next one a font width further right; always 0.  With no font the
     * string must be empty, since the source reads the NULL font's width.
     */
    method DrawString(x: int, y: int, str: seq<bv8>) returns (r: int)
      requires Valid()
      requires font.None? ==> Text(str) == []
      requires font.Some? ==> StringFits(font.value, Text(str), width, height, x, y, frame.Length)
      modifies frame
      ensures r == 0
      ensures font.None? ==> frame[..] == old(frame[..])
      ensures font.Some? ==> Painted(old(frame[..]), frame[..], StringDots(font.value, Text(str), width, height, x, y), foreground)
    {
      ghost var base := frame[..];
      ghost var t := Text(str);
      PaintedNothing(base, foreground);
      var k := 0;
      var cx := x;
      while k < |str| && str[k] != 0
        invariant k <= |t| && (font.Some? ==> cx == x + k * font.value.width)
        invariant font.None? ==> frame[..] == base
        invariant font.Some? ==> Painted(base, frame[..], StringDots(font.value, t[..k], width, height, x, y), foreground)
      {
        assert t[k] == str[k];
        var f := font.value;
        StringPrefix(f, t, k, str[k], cx, width, height, x, y, frame.Length);
        ghost var before := frame[..];
        var status := DrawChar(cx, y, str[k] as int);
        PaintedThen(base, before, frame[..], StringDots(f, t[..k], width, height, x, y), GlyphDots(f, str[k] as int, width, height, cx, y), foreground);
        cx := cx + f.width;
        k := k + 1;
      }
      assert t[..k] == t;
      return 0;
    }
  }
}
