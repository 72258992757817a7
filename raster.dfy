/**
 * What each drawing primitive of Render.c writes, as a list of pixel writes in
 * the order the C loops perform them.  Coordinates are the primitives' uint32
 * arguments after the portrait rotation (GLCD_LANDSCAPE == 0), kept as
 * integers; a frame-buffer index is `x + stride * y`.
 */
module Raster {
  import opened Colour
  import opened Paint
  import opened Stepper
  import opened IntSqrt

  // ---------------------------------------------------------------- lines

  /** Which loop of drawLine / drawThickLine is stepping: steep lines step y, shallow lines step x. */
  datatype Kind = Steep | Shallow | ThickSteep | ThickShallow

  /** The loop state that stays fixed while a line is stepped. */
  datatype Line = Line(kind: Kind, x0: int, y0: int, xDir: int, g: nat, stride: int, fg: bv16, thickness: nat)

  predicate IsSteep(l: Line) { l.kind == Steep || l.kind == ThickSteep }

  /** The pixel the loop reaches at step k (k >= 1): one along the major axis per step, carries along the minor one. */
  function PointX(l: Line, k: nat): int
  {
    if IsSteep(l) then Toward(l.x0, l.xDir, Carries(k, l.g)) else Toward(l.x0, l.xDir, k)
  }

  function PointY(l: Line, k: nat): int
  {
    if IsSteep(l) then l.y0 + k else l.y0 + Carries(k, l.g)
  }

  /** drawThickLine's run in x of n opaque pixels, written from offset n-1 back to offset 0 in the direction xDir. */
  function SteepRun(x: int, y: int, xDir: int, stride: int, fg: bv16, n: nat): seq<Op>
  {
    if n == 0 then [] else [MixFast(Toward(x, xDir, n - 1) + stride * y, fg, 255)] + SteepRun(x, y, xDir, stride, fg, n - 1)
  }

  /** drawThickLine's run in y of n opaque pixels, from n-1 rows above down to row y. */
  function ShallowRun(x: int, y: int, stride: int, fg: bv16, n: nat): seq<Op>
  {
    if n == 0 then [] else [MixFast(x + stride * (y - (n - 1)), fg, 255)] + ShallowRun(x, y, stride, fg, n - 1)
  }

  /** Pixel i of drawThickLine's run in x: i pixels from x in the direction xDir, on row y. */
  function SteepRunDot(x: int, y: int, xDir: int, stride: int, i: nat): int
  {
    Toward(x, xDir, i) + stride * y
  }

  /** Pixel i of drawThickLine's run in y: i rows above y, in column x. */
  function ShallowRunDot(x: int, y: int, stride: int, i: nat): int
  {
    x + stride * (y - i)
  }

  /**
   * The run in x is one-sided: its pixels are offsets 0 to n - 1 from x in the
   * direction xDir, all written opaque.
   */
  lemma {:induction false} SteepRunDots(x: int, y: int, xDir: int, stride: int, fg: bv16, n: nat)
    ensures Dots(SteepRun(x, y, xDir, stride, fg, n)) == set i: nat | i < n :: SteepRunDot(x, y, xDir, stride, i)
    ensures forall k :: 0 <= k < |SteepRun(x, y, xDir, stride, fg, n)| ==> SteepRun(x, y, xDir, stride, fg, n)[k].MixFast? && SteepRun(x, y, xDir, stride, fg, n)[k].alpha == 255
    decreases n
  {
    if n != 0 {
      var op, rest := MixFast(SteepRunDot(x, y, xDir, stride, n - 1), fg, 255), SteepRun(x, y, xDir, stride, fg, n - 1);
      SteepRunDots(x, y, xDir, stride, fg, n - 1);
      DotsCons(op, rest);
      assert SteepRun(x, y, xDir, stride, fg, n) == [op] + rest;
      var all := set i: nat | i < n :: SteepRunDot(x, y, xDir, stride, i);
      forall d | d in all
        ensures d in {op.dot} + Dots(rest)
      {
        var i: nat :| i < n && d == SteepRunDot(x, y, xDir, stride, i);
      }
    }
  }

  /** The run in y is one-sided: its pixels are rows y down to y - (n - 1) of column x, all written opaque. */
  lemma {:induction false} ShallowRunDots(x: int, y: int, stride: int, fg: bv16, n: nat)
    ensures Dots(ShallowRun(x, y, stride, fg, n)) == set i: nat | i < n :: ShallowRunDot(x, y, stride, i)
    ensures forall k :: 0 <= k < |ShallowRun(x, y, stride, fg, n)| ==> ShallowRun(x, y, stride, fg, n)[k].MixFast? && ShallowRun(x, y, stride, fg, n)[k].alpha == 255
    decreases n
  {
    if n != 0 {
      var op, rest := MixFast(ShallowRunDot(x, y, stride, n - 1), fg, 255), ShallowRun(x, y, stride, fg, n - 1);
      ShallowRunDots(x, y, stride, fg, n - 1);
      DotsCons(op, rest);
      assert ShallowRun(x, y, stride, fg, n) == [op] + rest;
      var all := set i: nat | i < n :: ShallowRunDot(x, y, stride, i);
      forall d | d in all
        ensures d in {op.dot} + Dots(rest)
      {
        var i: nat :| i < n && d == ShallowRunDot(x, y, stride, i);
      }
    }
  }

  /** Each step moves one pixel along the major axis and none or one, towards x1, along the minor axis. */
  lemma StepAdvance(l: Line, k: nat)
    ensures IsSteep(l) ==> PointY(l, k + 1) == PointY(l, k) + 1
    ensures IsSteep(l) ==> PointX(l, k + 1) == PointX(l, k) || PointX(l, k + 1) == Toward(PointX(l, k), l.xDir, 1)
    ensures !IsSteep(l) ==> PointX(l, k + 1) == Toward(PointX(l, k), l.xDir, 1)
    ensures !IsSteep(l) ==> PointY(l, k + 1) == PointY(l, k) || PointY(l, k + 1) == PointY(l, k) + 1
  {
    MinorStep(k, l.g);
  }

  /** The writes of step k of the loop body. */
  function StepOps(l: Line, k: nat): seq<Op>
  {
    var x, y, a, s := PointX(l, k), PointY(l, k), Alpha(k, l.g), l.stride;
    match l.kind
    case Steep => [MixFast(x + s * y, l.fg, a), MixFast(x - l.xDir + s * y, l.fg, a ^ 255)]
    case Shallow => [Mix(x + s * y, l.fg, a), Mix(x + s * (y + 1), l.fg, a ^ 255)]
    case ThickSteep =>
      [MixFast(x + s * y, l.fg, a), MixFast(Toward(x, l.xDir, l.thickness) + s * y, l.fg, a ^ 255)]
      + SteepRun(x, y, l.xDir, s, l.fg, l.thickness)
    case ThickShallow =>
      [Mix(x + s * y, l.fg, a), Mix(x + s * (y - l.thickness), l.fg, a ^ 255)]
      + ShallowRun(x, y, s, l.fg, l.thickness)
  }

  /** The writes of the first n steps. */
  function Steps(l: Line, n: nat): seq<Op>
  {
    if n == 0 then [] else Steps(l, n - 1) + StepOps(l, n)
  }

  /** The dY == 0 loop of drawLine, leftwards: it writes x0, x0-1, ... for n iterations. */
  function LeftRun(x: int, y: int, stride: int, fg: bv16, n: nat): seq<Op>
  {
    if n == 0 then [] else LeftRun(x, y, stride, fg, n - 1) + [Put(x - (n - 1) + stride * y, fg)]
  }

  /** The dX == 0 loop of drawLine: it writes y0, y0+1, ... for n iterations. */
  function DownRun(x: int, y: int, stride: int, fg: bv16, n: nat): seq<Op>
  {
    if n == 0 then [] else DownRun(x, y, stride, fg, n - 1) + [Put(x + stride * (y + n - 1), fg)]
  }

  /** Screen coordinates rotated to the portrait buffer, then ordered so that y0 <= y1. */
  datatype Segment = Segment(x0: int, y0: int, x1: int, y1: int)

  function TopDown(s: Segment): (r: Segment)
    ensures r.y0 <= r.y1
    ensures r == s || r == Segment(s.x1, s.y1, s.x0, s.y0)
  {
    if s.y1 < s.y0 then Segment(s.x1, s.y1, s.x0, s.y0) else s
  }

  function Abs(n: int): nat { if n < 0 then -n else n }
  function Dir(n: int): int { if n >= 0 then 1 else -1 }

  /**
   * drawLine's rotation: x' = y, y' = GLCD_WIDTH - x.  In these rotated buffer
   * axes, the horizontal (dY == 0) fast path terminates only for lines drawn
   * leftwards; any other line with dY == 0 does not stop before its int32
   * counter overflows, writing outside the buffer long before that.  In the
   * caller's own coordinates those are the lines with x0 == x1 and y1 >= y0
   * (see `LineTerminates`).
   */
  function LineSegment(x0: nat, y0: nat, x1: nat, y1: nat, w: int): Segment
  {
    TopDown(Segment(y0, w - x0, y1, w - x1))
  }

  /**
   * drawLine returns. In the caller's coordinates: a line that is not
   * screen-vertical always returns (a screen-horizontal one takes the
   * dX == 0 run), and a screen-vertical one returns only when drawn upwards.
   */
  predicate LineTerminates(x0: nat, y0: nat, x1: nat, y1: nat, w: int): (r: bool)
    ensures r <==> (x0 == x1 ==> y1 < y0)
  {
    var s := LineSegment(x0, y0, x1, y1, w);
    s.y0 == s.y1 ==> s.x1 < s.x0
  }

  /** drawLine's two end pixels; the far one is indexed with GLCD_WIDTH where every other write uses the stride. */
  function LineEnds(s: Segment, w: int, stride: int, fg: bv16): seq<Op>
  {
    [Put(s.x0 + s.y0 * stride, fg), Put(s.x1 + s.y1 * w, fg)]
  }

  /** What drawLine writes after its end pixels, for a segment with y0 <= y1. */
  function LineRest(s: Segment, stride: int, fg: bv16): seq<Op>
    requires s.y0 <= s.y1 && (s.y0 == s.y1 ==> s.x1 < s.x0)
  {
    var dX, dY := Abs(s.x1 - s.x0), s.y1 - s.y0;
    var xDir := Dir(s.x1 - s.x0);
    if dY == 0 then LeftRun(s.x0, s.y0, stride, fg, dX - 1)
    else if dX == 0 then DownRun(s.x0, s.y0, stride, fg, dY)
    else if dY > dX then Steps(Line(Steep, s.x0, s.y0, xDir, Gradient(dX, dY), stride, fg, 0), dY - 1)
    else Steps(Line(Shallow, s.x0, s.y0, xDir, Gradient(dY, dX), stride, fg, 0), dX - 1)
  }

  /** Everything drawLine writes, with `w` = GLCD_WIDTH. */
  function LineOps(x0: nat, y0: nat, x1: nat, y1: nat, w: int, stride: int, fg: bv16): seq<Op>
    requires LineTerminates(x0, y0, x1, y1, w)
  {
    var s := LineSegment(x0, y0, x1, y1, w);
    LineEnds(s, w, stride, fg) + LineRest(s, stride, fg)
  }

  /** The horizontal fast path of drawLine: dX - 1 pixels leftwards from x0. */
  lemma RestLeft(s: Segment, stride: int, fg: bv16, dX: nat)
    requires s.y0 == s.y1 && s.x1 < s.x0 && dX == s.x0 - s.x1
    ensures LineRest(s, stride, fg) == LeftRun(s.x0, s.y0, stride, fg, dX - 1)
  {}

  /** The vertical fast path of drawLine: dY pixels downwards from y0. */
  lemma RestDown(s: Segment, stride: int, fg: bv16, dY: nat)
    requires s.y0 < s.y1 && s.x0 == s.x1 && dY == s.y1 - s.y0
    ensures LineRest(s, stride, fg) == DownRun(s.x0, s.y0, stride, fg, dY)
  {}

  /** The steep stepping of drawLine: dY - 1 steps along y. */
  lemma RestSteep(s: Segment, stride: int, fg: bv16, dX: nat, dY: nat, xDir: int)
    requires dX == Abs(s.x1 - s.x0) && dY == s.y1 - s.y0 && xDir == Dir(s.x1 - s.x0) && 0 < dX < dY
    ensures LineRest(s, stride, fg) == Steps(Line(Steep, s.x0, s.y0, xDir, Gradient(dX, dY), stride, fg, 0), dY - 1)
  {}

  /** The shallow stepping of drawLine: dX - 1 steps along x. */
  lemma RestShallow(s: Segment, stride: int, fg: bv16, dX: nat, dY: nat, xDir: int)
    requires dX == Abs(s.x1 - s.x0) && dY == s.y1 - s.y0 && xDir == Dir(s.x1 - s.x0) && 0 < dY <= dX
    ensures LineRest(s, stride, fg) == Steps(Line(Shallow, s.x0, s.y0, xDir, Gradient(dY, dX), stride, fg, 0), dX - 1)
  {}

  /**
   * drawLine's writes split as the code performs them: both end pixels, then
   * the rest of the line on the buffer they leave.
   */
  lemma LineParts(x0: nat, y0: nat, x1: nat, y1: nat, w: int, stride: int, fg: bv16, base: seq<bv16>, s: Segment)
    requires LineTerminates(x0, y0, x1, y1, w) && s == LineSegment(x0, y0, x1, y1, w)
    requires Within(LineOps(x0, y0, x1, y1, w, stride, fg), |base|)
    ensures 0 <= s.x0 + s.y0 * stride < |base| && 0 <= s.x1 + s.y1 * w < |base|
    ensures Within(LineRest(s, stride, fg), |base|)
    ensures Apply(base, LineOps(x0, y0, x1, y1, w, stride, fg))
      == Apply(Step(Step(base, Put(s.x0 + s.y0 * stride, fg)), Put(s.x1 + s.y1 * w, fg)), LineRest(s, stride, fg))
  {
    var ends, rest := LineEnds(s, w, stride, fg), LineRest(s, stride, fg);
    WithinConcat(ends, rest, |base|);
    assert ends[0].dot == s.x0 + s.y0 * stride && ends[1].dot == s.x1 + s.y1 * w;
    ApplyConcat(base, ends, rest);
    ApplyTwo(base, ends[0], ends[1]);
  }

  /** drawThickLine's rotation: x' = GLCD_HEIGHT - y, y' = GLCD_WIDTH - x. */
  function ThickSegment(x0: nat, y0: nat, x1: nat, y1: nat, w: int, h: int): Segment
  {
    TopDown(Segment(h - y0, w - x0, h - y1, w - x1))
  }

  /** What drawThickLine writes for a segment with y0 <= y1: nothing for a single point. */
  function ThickRest(s: Segment, t: nat, stride: int, fg: bv16): seq<Op>
    requires s.y0 <= s.y1
  {
    var dX, dY := Abs(s.x1 - s.x0), s.y1 - s.y0;
    var xDir := Dir(s.x1 - s.x0);
    if dX == 0 && dY == 0 then []
    else if dY > dX then Steps(Line(ThickSteep, s.x0, s.y0, xDir, Gradient(dX, dY), stride, fg, t), dY - 1)
    else Steps(Line(ThickShallow, s.x0, s.y0, xDir, Gradient(dY, dX), stride, fg, t), dX - 1)
  }

  /** Everything drawThickLine writes. */
  function ThickLineOps(x0: nat, y0: nat, x1: nat, y1: nat, t: nat, w: int, h: int, stride: int, fg: bv16): seq<Op>
  {
    ThickRest(ThickSegment(x0, y0, x1, y1, w, h), t, stride, fg)
  }

  /** drawThickLine from a point to itself writes nothing. */
  lemma ThickPoint(x: nat, y: nat, t: nat, w: int, h: int, stride: int, fg: bv16)
    ensures ThickLineOps(x, y, x, y, t, w, h, stride, fg) == []
  {}

  /** The steep stepping of drawThickLine: dY - 1 steps along y. */
  lemma RestThickSteep(s: Segment, t: nat, stride: int, fg: bv16, dX: nat, dY: nat, xDir: int)
    requires dX == Abs(s.x1 - s.x0) && dY == s.y1 - s.y0 && xDir == Dir(s.x1 - s.x0) && dX < dY
    ensures ThickRest(s, t, stride, fg) == Steps(Line(ThickSteep, s.x0, s.y0, xDir, Gradient(dX, dY), stride, fg, t), dY - 1)
  {}

  /** The shallow stepping of drawThickLine: dX - 1 steps along x. */
  lemma RestThickShallow(s: Segment, t: nat, stride: int, fg: bv16, dX: nat, dY: nat, xDir: int)
    requires dX == Abs(s.x1 - s.x0) && dY == s.y1 - s.y0 && xDir == Dir(s.x1 - s.x0) && 0 < dX && dY <= dX
    ensures ThickRest(s, t, stride, fg) == Steps(Line(ThickShallow, s.x0, s.y0, xDir, Gradient(dY, dX), stride, fg, t), dX - 1)
  {}

  /** The first k steps are a prefix of the first n. */
  lemma {:induction false} StepsPrefix(l: Line, k: nat, n: nat)
    requires k <= n
    ensures Steps(l, k) <= Steps(l, n)
    decreases n
  {
    if k < n {
      StepsPrefix(l, k, n - 1);
    }
  }

  lemma {:induction false} LeftRunPrefix(x: int, y: int, stride: int, fg: bv16, k: nat, n: nat)
    requires k <= n
    ensures LeftRun(x, y, stride, fg, k) <= LeftRun(x, y, stride, fg, n)
    decreases n
  {
    if k < n {
      LeftRunPrefix(x, y, stride, fg, k, n - 1);
    }
  }

  lemma {:induction false} DownRunPrefix(x: int, y: int, stride: int, fg: bv16, k: nat, n: nat)
    requires k <= n
    ensures DownRun(x, y, stride, fg, k) <= DownRun(x, y, stride, fg, n)
    decreases n
  {
    if k < n {
      DownRunPrefix(x, y, stride, fg, k, n - 1);
    }
  }

  lemma LeftRunNext(x: int, y: int, stride: int, fg: bv16, k: nat)
    ensures LeftRun(x, y, stride, fg, k + 1) == LeftRun(x, y, stride, fg, k) + [Put(x - k + stride * y, fg)]
  {}

  lemma DownRunNext(x: int, y: int, stride: int, fg: bv16, k: nat)
    ensures DownRun(x, y, stride, fg, k + 1) == DownRun(x, y, stride, fg, k) + [Put(x + stride * (y + k), fg)]
  {}

  lemma StepsNext(l: Line, k: nat)
    ensures Steps(l, k + 1) == Steps(l, k) + StepOps(l, k + 1)
  {}

  /** One pass of the horizontal loop at x = x0 - k: the write lands in the buffer and extends the k done. */
  lemma LeftNext(base: seq<bv16>, x: int, y: int, stride: int, fg: bv16, n: nat, k: nat, px: int)
    requires Within(LeftRun(x, y, stride, fg, n), |base|) && k < n && px == x - k
    ensures 0 <= px + stride * y < |base|
    ensures Apply(base, LeftRun(x, y, stride, fg, k + 1)) == Step(Apply(base, LeftRun(x, y, stride, fg, k)), Put(px + stride * y, fg))
  {
    LeftRunNext(x, y, stride, fg, k);
    LeftRunPrefix(x, y, stride, fg, k + 1, n);
    ApplyNext(base, LeftRun(x, y, stride, fg, k), Put(px + stride * y, fg), LeftRun(x, y, stride, fg, n));
  }

  /** One pass of the vertical loop at y = y0 + k. */
  lemma DownNext(base: seq<bv16>, x: int, y: int, stride: int, fg: bv16, n: nat, k: nat, py: int)
    requires Within(DownRun(x, y, stride, fg, n), |base|) && k < n && py == y + k
    ensures 0 <= x + stride * py < |base|
    ensures Apply(base, DownRun(x, y, stride, fg, k + 1)) == Step(Apply(base, DownRun(x, y, stride, fg, k)), Put(x + stride * py, fg))
  {
    DownRunNext(x, y, stride, fg, k);
    DownRunPrefix(x, y, stride, fg, k + 1, n);
    ApplyNext(base, DownRun(x, y, stride, fg, k), Put(x + stride * py, fg), DownRun(x, y, stride, fg, n));
  }

  /** The buffer after the first k steps of a line, one step at a time: what the stepping loops keep. */
  function Drawn(base: seq<bv16>, l: Line, k: nat): (r: seq<bv16>)
    ensures |r| == |base|
  {
    if k == 0 then base else Apply(Drawn(base, l, k - 1), StepOps(l, k))
  }

  /** Drawing step by step is performing the whole list of the steps' writes. */
  lemma {:induction false} DrawnSteps(base: seq<bv16>, l: Line, k: nat)
    ensures Drawn(base, l, k) == Apply(base, Steps(l, k))
  {
    if k > 0 {
      DrawnSteps(base, l, k - 1);
      ChainSteps(base, Drawn(base, l, k - 1), Steps(l, k - 1), StepOps(l, k), Steps(l, k), Drawn(base, l, k));
    }
  }

  /** One step more on both sides of a drawing already equal to its list of writes. */
  lemma ChainSteps(base: seq<bv16>, prev: seq<bv16>, done: seq<Op>, step: seq<Op>, whole: seq<Op>, next: seq<bv16>)
    requires prev == Apply(base, done) && whole == done + step && next == Apply(prev, step)
    ensures next == Apply(base, whole)
  {
    ApplyConcat(base, done, step);
  }

  /** A list of writes that is the first n steps of a line draws what the stepping loop draws. */
  lemma StepsDrawn(base: seq<bv16>, ops: seq<Op>, l: Line, n: nat)
    requires ops == Steps(l, n)
    ensures Apply(base, ops) == Drawn(base, l, n)
  {
    DrawnSteps(base, l, n);
  }

  /** Two writes in order. */
  lemma ApplyTwo(buf: seq<bv16>, a: Op, b: Op)
    requires 0 <= a.dot < |buf| && 0 <= b.dot < |buf|
    ensures Apply(buf, [a, b]) == Step(Step(buf, a), b)
  {
    assert [a, b] == [a] + [b] && [a] == [] + [a];
    ApplySnoc(buf, [a], b);
    ApplySnoc(buf, [], a);
  }

  /** `x + xDir * n` for a direction of one pixel. */
  lemma TowardTimes(x: int, xDir: int, n: nat)
    requires xDir == 1 || xDir == -1
    ensures x + xDir * n == Toward(x, xDir, n)
  {}

  /**
   * The buffer after a thickness run in x: pixels x + xDir * (n - 1), ...,
   * x + xDir, x of row y set to `fg`, any outside the buffer skipped.
   */
  function SteepFill(buf: seq<bv16>, x: int, y: int, xDir: int, stride: int, fg: bv16, n: nat): (r: seq<bv16>)
    ensures |r| == |buf|
    decreases n
  {
    if n == 0 then buf
    else
      var d := Toward(x, xDir, n - 1) + stride * y;
      SteepFill(if 0 <= d < |buf| then buf[d := fg] else buf, x, y, xDir, stride, fg, n - 1)
  }

  /** The buffer after a thickness run in y: pixels of column x at rows y - (n - 1), ..., y - 1, y set to `fg`. */
  function ShallowFill(buf: seq<bv16>, x: int, y: int, stride: int, fg: bv16, n: nat): (r: seq<bv16>)
    ensures |r| == |buf|
    decreases n
  {
    if n == 0 then buf
    else
      var d := x + stride * (y - (n - 1));
      ShallowFill(if 0 <= d < |buf| then buf[d := fg] else buf, x, y, stride, fg, n - 1)
  }

  /** Performing the first write of a list, giving `next`, then the rest. */
  lemma ApplyFirst(buf: seq<bv16>, ops: seq<Op>, op: Op, rest: seq<Op>, next: seq<bv16>)
    requires ops == [op] + rest && next == if 0 <= op.dot < |buf| then Step(buf, op) else buf
    ensures Apply(buf, ops) == Apply(next, rest)
  {
    assert [op] == [] + [op];
    ApplyConcat(buf, [op], rest);
    ApplySnoc(buf, [], op);
  }

  /** The buffer `next` after the first write of a run in x, from which both descriptions of the run go on. */
  lemma SteepFillFirst(buf: seq<bv16>, x: int, y: int, xDir: int, stride: int, fg: bv16, n: nat) returns (next: seq<bv16>)
    requires n != 0
    ensures SteepFill(buf, x, y, xDir, stride, fg, n) == SteepFill(next, x, y, xDir, stride, fg, n - 1)
    ensures Apply(buf, SteepRun(x, y, xDir, stride, fg, n)) == Apply(next, SteepRun(x, y, xDir, stride, fg, n - 1))
  {
    var op := MixFast(Toward(x, xDir, n - 1) + stride * y, fg, 255);
    if 0 <= op.dot < |buf| {
      next := Step(buf, op);
      BlendFastOpaque(fg, buf[op.dot], 255);
      assert next == buf[op.dot := fg];
    } else {
      next := buf;
    }
    ApplyFirst(buf, SteepRun(x, y, xDir, stride, fg, n), op, SteepRun(x, y, xDir, stride, fg, n - 1), next);
  }

  /** The buffer `next` after the first write of a run in y. */
  lemma ShallowFillFirst(buf: seq<bv16>, x: int, y: int, stride: int, fg: bv16, n: nat) returns (next: seq<bv16>)
    requires n != 0
    ensures ShallowFill(buf, x, y, stride, fg, n) == ShallowFill(next, x, y, stride, fg, n - 1)
    ensures Apply(buf, ShallowRun(x, y, stride, fg, n)) == Apply(next, ShallowRun(x, y, stride, fg, n - 1))
  {
    var d := x + stride * (y - (n - 1));
    var op := MixFast(d, fg, 255);
    assert ShallowRun(x, y, stride, fg, n) == [op] + ShallowRun(x, y, stride, fg, n - 1);
    if 0 <= d < |buf| {
      next := Step(buf, op);
      BlendFastOpaque(fg, buf[d], 255);
      assert next == buf[d := fg];
    } else {
      next := buf;
    }
    assert ShallowFill(buf, x, y, stride, fg, n) == ShallowFill(next, x, y, stride, fg, n - 1);
    ApplyFirst(buf, ShallowRun(x, y, stride, fg, n), op, ShallowRun(x, y, stride, fg, n - 1), next);
  }

  /** SteepFill performs the writes of SteepRun. */
  lemma {:induction false} SteepFillRun(buf: seq<bv16>, x: int, y: int, xDir: int, stride: int, fg: bv16, n: nat)
    ensures SteepFill(buf, x, y, xDir, stride, fg, n) == Apply(buf, SteepRun(x, y, xDir, stride, fg, n))
    decreases n
  {
    if n != 0 {
      var next := SteepFillFirst(buf, x, y, xDir, stride, fg, n);
      SteepFillRun(next, x, y, xDir, stride, fg, n - 1);
    }
  }

  /** ShallowFill performs the writes of ShallowRun. */
  lemma {:induction false} ShallowFillRun(buf: seq<bv16>, x: int, y: int, stride: int, fg: bv16, n: nat)
    ensures ShallowFill(buf, x, y, stride, fg, n) == Apply(buf, ShallowRun(x, y, stride, fg, n))
    decreases n
  {
    if n != 0 {
      var next := ShallowFillFirst(buf, x, y, stride, fg, n);
      ShallowFillRun(next, x, y, stride, fg, n - 1);
    }
  }

  /**
   * The first write of a thickness run in x, at px = x + xDir * (m - 1): it
   * lands in the buffer, and the rest of the run is performed after it.
   */
  lemma SteepRunFirst(buf: seq<bv16>, x: int, y: int, xDir: int, stride: int, fg: bv16, m: nat, m': nat, px: int)
    requires m == m' + 1 && Within(SteepRun(x, y, xDir, stride, fg, m), |buf|) && px == Toward(x, xDir, m')
    ensures 0 <= px + stride * y < |buf|
    ensures Within(SteepRun(x, y, xDir, stride, fg, m'), |buf|)
    ensures SteepFill(buf, x, y, xDir, stride, fg, m)
      == SteepFill(Step(buf, MixFast(px + stride * y, fg, 255)), x, y, xDir, stride, fg, m')
  {
    var op, rest := MixFast(px + stride * y, fg, 255), SteepRun(x, y, xDir, stride, fg, m');
    assert SteepRun(x, y, xDir, stride, fg, m) == [op] + rest;
    WithinConcat([op], rest, |buf|);
    assert [op][0] == op;
  }

  /** The first write of a thickness run in y, at py = y - m'. */
  lemma ShallowRunFirst(buf: seq<bv16>, x: int, y: int, stride: int, fg: bv16, m: nat, m': nat, py: int)
    requires m == m' + 1 && Within(ShallowRun(x, y, stride, fg, m), |buf|) && py == y - m'
    ensures 0 <= x + stride * py < |buf|
    ensures Within(ShallowRun(x, y, stride, fg, m'), |buf|)
    ensures ShallowFill(buf, x, y, stride, fg, m)
      == ShallowFill(Step(buf, MixFast(x + stride * py, fg, 255)), x, y, stride, fg, m')
  {
    var op, rest := MixFast(x + stride * py, fg, 255), ShallowRun(x, y, stride, fg, m');
    assert ShallowRun(x, y, stride, fg, m) == [op] + rest;
    WithinConcat([op], rest, |buf|);
    assert [op][0] == op;
  }

  /**
   * The frames of a drawing: `frames[j]` is the buffer after j steps of the
   * line `l` drawn over `base`, for every j up to n, and the writes of each
   * of those steps land inside the buffer.
   */
  predicate Frames(base: seq<bv16>, l: Line, n: nat, frames: seq<seq<bv16>>)
  {
    && |frames| == n + 1
    && (forall j {:trigger Drawn(base, l, j)} :: 0 <= j <= n ==> frames[j] == Drawn(base, l, j))
    && (forall j {:trigger StepOps(l, j)} :: 0 < j <= n ==> Within(StepOps(l, j), |base|))
  }

  /** The first frame is the buffer the drawing starts from. */
  lemma FramesStart(base: seq<bv16>, l: Line, n: nat, frames: seq<seq<bv16>>)
    requires Frames(base, l, n, frames)
    ensures frames[0] == base
  {
    assert Drawn(base, l, 0) == base;
  }

  /** A buffer equal to the last frame is the whole drawing. */
  lemma FramesLast(base: seq<bv16>, l: Line, n: nat, frames: seq<seq<bv16>>, buf: seq<bv16>)
    requires Frames(base, l, n, frames) && buf == frames[n]
    ensures buf == Drawn(base, l, n)
  {}

  /** The frames of the first n steps of a drawing whose writes all land inside the buffer. */
  lemma AllFrames(base: seq<bv16>, l: Line, n: nat) returns (frames: seq<seq<bv16>>)
    requires Within(Steps(l, n), |base|)
    ensures Frames(base, l, n, frames)
  {
    frames := seq(n + 1, j requires 0 <= j <= n => Drawn(base, l, j));
    forall j | 0 < j <= n
      ensures Within(StepOps(l, j), |base|)
    {
      StepsPrefix(l, j, n);
      WithinPrefix(Steps(l, j), Steps(l, n), |base|);
      assert Steps(l, j) == Steps(l, j - 1) + StepOps(l, j);
      WithinConcat(Steps(l, j - 1), StepOps(l, j), |base|);
    }
  }

  /**
   * A step whose writes are two blends followed by a run: both blends land in
   * the buffer, so does the run, and together they take frame k to frame k + 1.
   */
  lemma PassParts(base: seq<bv16>, l: Line, n: nat, k: nat, frames: seq<seq<bv16>>, near: Op, far: Op, run: seq<Op>)
    requires Frames(base, l, n, frames) && k < n
    requires StepOps(l, k + 1) == [near, far] + run
    ensures |frames[k]| == |base| && 0 <= near.dot < |base| && 0 <= far.dot < |base| && Within(run, |base|)
    ensures frames[k + 1] == Apply(Step(Step(frames[k], near), far), run)
  {
    assert Within(StepOps(l, k + 1), |base|);
    WithinConcat([near, far], run, |base|);
    assert [near, far][0] == near && [near, far][1] == far;
    assert frames[k] == Drawn(base, l, k) && frames[k + 1] == Drawn(base, l, k + 1);
    ApplyConcat(frames[k], [near, far], run);
    ApplyTwo(frames[k], near, far);
  }

  /**
   * One pass of drawLine's steep loop body, at the pixel (x, y) of step k + 1:
   * both its writes land in the buffer, and performing them takes frame k to
   * frame k + 1.  The line's fields are passed again as `xDir`, `s` and `fg`.
   */
  lemma SteepNext(base: seq<bv16>, l: Line, n: nat, k: nat, x: int, y: int, a: bv8, xDir: int, s: int, fg: bv16, frames: seq<seq<bv16>>)
    requires Frames(base, l, n, frames) && k < n
    requires l.kind == Steep && l.xDir == xDir && l.stride == s && l.fg == fg
    requires x == PointX(l, k + 1) && y == PointY(l, k + 1) && a == Alpha(k + 1, l.g)
    ensures |frames[k]| == |base| && 0 <= x + s * y < |base| && 0 <= x - xDir + s * y < |base|
    ensures frames[k + 1] == Step(Step(frames[k], MixFast(x + s * y, fg, a)), MixFast(x - xDir + s * y, fg, a ^ 255))
  {
    var near, far := MixFast(x + s * y, fg, a), MixFast(x - xDir + s * y, fg, a ^ 255);
    assert StepOps(l, k + 1) == [near, far] + [];
    PassParts(base, l, n, k, frames, near, far, []);
  }

  /** One pass of drawLine's shallow loop body, at the pixel (x, y) of step k + 1. */
  lemma ShallowNext(base: seq<bv16>, l: Line, n: nat, k: nat, x: int, y: int, a: bv8, s: int, fg: bv16, frames: seq<seq<bv16>>)
    requires Frames(base, l, n, frames) && k < n
    requires l.kind == Shallow && l.stride == s && l.fg == fg
    requires x == PointX(l, k + 1) && y == PointY(l, k + 1) && a == Alpha(k + 1, l.g)
    ensures |frames[k]| == |base| && 0 <= x + s * y < |base| && 0 <= x + s * (y + 1) < |base|
    ensures frames[k + 1] == Step(Step(frames[k], Mix(x + s * y, fg, a)), Mix(x + s * (y + 1), fg, a ^ 255))
  {
    var near, far := Mix(x + s * y, fg, a), Mix(x + s * (y + 1), fg, a ^ 255);
    assert StepOps(l, k + 1) == [near, far] + [];
    PassParts(base, l, n, k, frames, near, far, []);
  }

  /**
   * One pass of drawThickLine's steep loop body at the pixel (x, y) of step
   * k + 1, with px = x + xDir * thickness: the two blends land in the buffer,
   * so does the run, and together they take frame k to frame k + 1.
   * The line's fields are passed again as `xDir`, `s`, `fg` and `t`.
   */
  lemma ThickSteepNext(base: seq<bv16>, l: Line, n: nat, k: nat, x: int, y: int, a: bv8, px: int,
                       xDir: int, s: int, fg: bv16, t: nat, frames: seq<seq<bv16>>)
    requires Frames(base, l, n, frames) && k < n
    requires l.kind == ThickSteep && l.xDir == xDir && l.stride == s && l.fg == fg && l.thickness == t
    requires x == PointX(l, k + 1) && y == PointY(l, k + 1) && a == Alpha(k + 1, l.g)
    requires px == Toward(x, xDir, t)
    ensures |frames[k]| == |base| && 0 <= x + s * y < |base| && 0 <= px + s * y < |base|
    ensures Within(SteepRun(x, y, xDir, s, fg, t), |base|)
    ensures frames[k + 1]
      == SteepFill(Step(Step(frames[k], MixFast(x + s * y, fg, a)), MixFast(px + s * y, fg, a ^ 255)), x, y, xDir, s, fg, t)
  {
    var near, far := MixFast(x + s * y, fg, a), MixFast(px + s * y, fg, a ^ 255);
    var run := SteepRun(x, y, xDir, s, fg, t);
    assert StepOps(l, k + 1) == [near, far] + run;
    PassParts(base, l, n, k, frames, near, far, run);
    SteepFillRun(Step(Step(frames[k], near), far), x, y, xDir, s, fg, t);
  }

  /** One pass of drawThickLine's shallow loop body at the pixel (x, y) of step k + 1, with py = y - thickness. */
  lemma ThickShallowNext(base: seq<bv16>, l: Line, n: nat, k: nat, x: int, y: int, a: bv8, py: int,
                         s: int, fg: bv16, t: nat, frames: seq<seq<bv16>>)
    requires Frames(base, l, n, frames) && k < n
    requires l.kind == ThickShallow && l.stride == s && l.fg == fg && l.thickness == t
    requires x == PointX(l, k + 1) && y == PointY(l, k + 1) && a == Alpha(k + 1, l.g)
    requires py == y - t
    ensures |frames[k]| == |base| && 0 <= x + s * y < |base| && 0 <= x + s * py < |base|
    ensures Within(ShallowRun(x, y, s, fg, t), |base|)
    ensures frames[k + 1]
      == ShallowFill(Step(Step(frames[k], Mix(x + s * y, fg, a)), Mix(x + s * py, fg, a ^ 255)), x, y, s, fg, t)
  {
    var near, far := Mix(x + s * y, fg, a), Mix(x + s * py, fg, a ^ 255);
    assert StepOps(l, k + 1) == [near, far] + ShallowRun(x, y, s, fg, t);
    ShallowPass(base, l, n, k, frames, near, far, x, y, s, fg, t);
  }

  /**
   * A step made of two blends and a vertical thickness run: performing it takes
   * frame k to the run filled in after the two blends.  The blends are any two
   * writes here, so that the proof does not unfold the exact blend.
   */
  lemma ShallowPass(base: seq<bv16>, l: Line, n: nat, k: nat, frames: seq<seq<bv16>>, near: Op, far: Op,
                    x: int, y: int, s: int, fg: bv16, t: nat)
    requires Frames(base, l, n, frames) && k < n
    requires StepOps(l, k + 1) == [near, far] + ShallowRun(x, y, s, fg, t)
    ensures |frames[k]| == |base| && 0 <= near.dot < |base| && 0 <= far.dot < |base|
    ensures Within(ShallowRun(x, y, s, fg, t), |base|)
    ensures frames[k + 1] == ShallowFill(Step(Step(frames[k], near), far), x, y, s, fg, t)
  {
    PassParts(base, l, n, k, frames, near, far, ShallowRun(x, y, s, fg, t));
    ShallowFillRun(Step(Step(frames[k], near), far), x, y, s, fg, t);
  }
}
