/**
 * drawFilledCircle of Render.c: for each row offset y in [-radius, radius)
 * that is not clipped, a span of 2 * fastIntSqrt(radius^2 - y^2) columns
 * centred on the origin, each column `stride` indices from the next, keeping
 * only the indices its own guards let through.  The lemmas show those guards
 * keep every write inside the buffer.
 */
module Circle {
  import opened Arith
  import opened IntSqrt
  import opened Fill

  /** Row offset y lands on buffer row y + oy (oy = GLCD_HEIGHT - origin_y); rows on or past either edge are skipped. */
  predicate RowClipped(oy: int, y: int, h: int)
  {
    y + oy >= h || y + oy <= 0
  }

  /** The argument of fastIntSqrt for row offset y: radius^2 - y^2. */
  function RowArg(r: int, y: int): int
  {
    r * r - y * y
  }

  /** Every row that is drawn has a square-root argument fastIntSqrt is defined on. */
  predicate CircleDefined(oy: int, r: int, h: int)
  {
    forall y :: -r <= y < r && !RowClipped(oy, y, h) ==> RowArg(r, y) >= 0 && InDomain(RowArg(r, y))
  }

  /** The index of column c of a row: `stride * c + rad_y`. */
  function ColumnDot(stride: int, c: int, radY: int): int
  {
    stride * c + radY
  }

  /**
   * The indices the inner loop writes for columns lo up to hi: those its guards
   * let through, from 0 up to buffsize inclusive.
   */
  function SpanDots(stride: int, radY: int, size: int, lo: int, hi: int): set<int>
  {
    set c | lo <= c < hi && 0 <= ColumnDot(stride, c, radY) <= size :: ColumnDot(stride, c, radY)
  }

  /** The half-width of the span at row offset y. */
  function HalfWidth(r: int, y: int): nat
    requires RowArg(r, y) >= 0 && InDomain(RowArg(r, y))
  {
    Approx(RowArg(r, y))
  }

  /** What row offset y adds: nothing when clipped, otherwise the span of 2 * HalfWidth columns around ox. */
  function CircleRow(ox: int, oy: int, r: int, y: int, h: int, stride: int, size: int): set<int>
    requires CircleDefined(oy, r, h) && -r <= y < r
  {
    if RowClipped(oy, y, h) then {}
    else SpanDots(stride, y + oy, size, ox - HalfWidth(r, y), ox + HalfWidth(r, y))
  }

  /** The indices of the first n rows, y = -r up to -r + n - 1. */
  function CircleDots(ox: int, oy: int, r: int, h: int, stride: int, size: int, n: nat): set<int>
    requires CircleDefined(oy, r, h) && n <= Rows(r)
  {
    if n == 0 then {}
    else CircleDots(ox, oy, r, h, stride, size, n - 1) + CircleRow(ox, oy, r, -r + n - 1, h, stride, size)
  }

  /** One more pass of the outer loop adds row -r + n. */
  lemma CircleNext(ox: int, oy: int, r: int, h: int, stride: int, size: int, n: nat, y: int)
    requires CircleDefined(oy, r, h) && n < Rows(r) && y == -r + n
    ensures -r <= y < r
    ensures CircleDots(ox, oy, r, h, stride, size, n + 1) == CircleDots(ox, oy, r, h, stride, size, n) + CircleRow(ox, oy, r, y, h, stride, size)
  {}

  /** A row on the screen adds the span of its half-width around ox. */
  lemma CircleRowSpan(ox: int, oy: int, r: int, y: int, h: int, stride: int, size: int, half: int)
    requires CircleDefined(oy, r, h) && -r <= y < r && !RowClipped(oy, y, h)
    requires RowArg(r, y) >= 0 && InDomain(RowArg(r, y)) && half == HalfWidth(r, y)
    ensures CircleRow(ox, oy, r, y, h, stride, size) == SpanDots(stride, y + oy, size, ox - half, ox + half)
  {}

  /** A row off the screen adds nothing. */
  lemma CircleRowClipped(ox: int, oy: int, r: int, y: int, h: int, stride: int, size: int)
    requires CircleDefined(oy, r, h) && -r <= y < r && RowClipped(oy, y, h)
    ensures CircleRow(ox, oy, r, y, h, stride, size) == {}
  {}

  /** The rows the outer loop visits: 2 * radius of them, none for a negative radius. */
  function Rows(r: int): nat
  {
    if r >= 0 then 2 * r else 0
  }

  /**
   * The circle drawFilledCircle paints from the origin (origin_x, origin_y):
   * the rotation makes ox = GLCD_WIDTH - origin_x and oy = GLCD_HEIGHT - origin_y.
   */
  function FilledCircle(w: int, h: int, stride: int, originX: int, originY: int, r: int): set<int>
    requires CircleDefined(h - originY, r, h)
  {
    CircleDots(w - originX, h - originY, r, h, stride, w * h, Rows(r))
  }

  // ---------------------------------------------------------------- the square root's domain

  /**
   * The only drawn row fastIntSqrt cannot take is radius 2 at offset -1 or 1,
   * where radius^2 - y^2 is 3 and its first guess 3 >> 2 is 0.
   */
  lemma RowArgDomain(r: int, y: int)
    requires -r <= y < r
    ensures RowArg(r, y) >= 0
    ensures InDomain(RowArg(r, y)) <==> !(r == 2 && (y == 1 || y == -1))
  {
    var a, b := r - y, r + y;
    assert RowArg(r, y) == a * b;
    assert a >= 1 && b >= 0;
    if b >= 1 && a * b < 4 {
      assert a * b >= a && a * b >= b;
      assert a <= 3 && b <= 3;
    }
  }

  /** Every radius but 2 has every row defined. */
  lemma DefinedUnlessTwo(oy: int, r: int, h: int)
    requires r != 2
    ensures CircleDefined(oy, r, h)
  {
    forall y | -r <= y < r && !RowClipped(oy, y, h)
      ensures RowArg(r, y) >= 0 && InDomain(RowArg(r, y))
    {
      RowArgDomain(r, y);
    }
  }

  /** Radius 2 fails exactly when row offset 1 or -1 is drawn. */
  lemma RadiusTwo(oy: int, h: int)
    ensures CircleDefined(oy, 2, h) <==> RowClipped(oy, 1, h) && RowClipped(oy, -1, h)
  {
    RowArgDomain(2, 1);
    RowArgDomain(2, -1);
    if RowClipped(oy, 1, h) && RowClipped(oy, -1, h) {
      forall y | -2 <= y < 2 && !RowClipped(oy, y, h)
        ensures RowArg(2, y) >= 0 && InDomain(RowArg(2, y))
      {
        RowArgDomain(2, y);
      }
    }
  }

  // ---------------------------------------------------------------- one row

  /** Columns left of 0 land below index 0 on a row strictly inside the stride. */
  lemma LeftOfScreen(stride: int, c: int, radY: int)
    requires 0 < radY < stride && c <= -1
    ensures ColumnDot(stride, c, radY) < 0
  {
    assert stride * c <= -stride;
  }

  /** A span that ends at or left of column 0 writes nothing. */
  lemma SpanLeft(stride: int, radY: int, size: int, lo: int, hi: int)
    requires 0 < radY < stride && hi <= 0
    ensures SpanDots(stride, radY, size, lo, hi) == {}
  {
    forall c | lo <= c < hi
      ensures ColumnDot(stride, c, radY) < 0
    {
      LeftOfScreen(stride, c, radY);
    }
  }

  /** One more column of the span. */
  lemma SpanNext(stride: int, radY: int, size: int, lo: int, c: int)
    requires lo <= c
    ensures SpanDots(stride, radY, size, lo, c + 1)
      == SpanDots(stride, radY, size, lo, c) + (if 0 <= ColumnDot(stride, c, radY) <= size then {ColumnDot(stride, c, radY)} else {})
  {
    var next := c + 1;
    forall d | d in SpanDots(stride, radY, size, lo, next)
      ensures d in SpanDots(stride, radY, size, lo, c) || d == ColumnDot(stride, c, radY)
    {
      var k :| lo <= k < next && 0 <= ColumnDot(stride, k, radY) <= size && d == ColumnDot(stride, k, radY);
    }
  }

  /**
   * drawFilledCircle's jump for a negative `dot`: adding -(dot / stride) * stride,
   * with C's division truncating towards zero, lands on column -1.
   */
  lemma JumpUp(stride: int, c: int, radY: int)
    requires 0 < radY < stride && c <= -1
    ensures ColumnDot(stride, c, radY) - CDiv(ColumnDot(stride, c, radY), stride) * stride == ColumnDot(stride, -1, radY)
  {
    var dot := ColumnDot(stride, c, radY);
    LeftOfScreen(stride, c, radY);
    assert -dot == stride * (-c - 1) + (stride - radY);
    DivUnique(-dot, stride, -c - 1, stride - radY);
  }

  /** C's `a / b` for a positive b: truncation towards zero. */
  function CDiv(a: int, b: int): int
    requires b > 0
  {
    if a < 0 then -((-a) / b) else a / b
  }

  /**
   * The inclusive guard `dot > buffsize` never lets index buffsize through: a
   * row strictly inside 0 < rad_y < stride is never a multiple of the stride,
   * and buffsize = GLCD_WIDTH * GLCD_HEIGHT is one.
   */
  lemma NeverBuffsize(w: int, stride: int, c: int, radY: int)
    requires 0 < radY < stride
    ensures ColumnDot(stride, c, radY) != w * stride
  {
    if ColumnDot(stride, c, radY) == w * stride {
      assert (w - c) * stride == radY;
      SmallMultiple(w - c, stride, radY);
    }
  }

  lemma ModUnique(n: int, d: int, q: int, r: int)
    requires d >= 1 && n == q * d + r && 0 <= r < d
    ensures n % d == r
  {
    DivUnique(n, d, q, r);
  }

  /** Every index of a row's span lies inside the buffer and on that row: its remainder by the stride is rad_y. */
  lemma SpanInBuffer(w: int, stride: int, radY: int, lo: int, hi: int, d: int)
    requires 0 < radY < stride && d in SpanDots(stride, radY, w * stride, lo, hi)
    ensures 0 <= d < w * stride && d % stride == radY
  {
    var c :| lo <= c < hi && 0 <= ColumnDot(stride, c, radY) <= w * stride && d == ColumnDot(stride, c, radY);
    NeverBuffsize(w, stride, c, radY);
    ModUnique(d, stride, c, radY);
  }

  /** Columns left to right give increasing indices. */
  lemma ColumnOrder(stride: int, k: int, c: int, radY: int)
    requires 1 <= stride && k < c
    ensures ColumnDot(stride, k, radY) + stride <= ColumnDot(stride, c, radY)
  {
    MulMono(stride, k + 1, c);
  }

  lemma ColumnNext(stride: int, c: int, radY: int)
    ensures ColumnDot(stride, c + 1, radY) == ColumnDot(stride, c, radY) + stride
  {}

  /** The loop test `dot < stride * hi + rad_y` is the column test c < hi. */
  lemma ColumnLess(stride: int, c: int, hi: int, radY: int)
    requires 1 <= stride
    ensures ColumnDot(stride, c, radY) < ColumnDot(stride, hi, radY) <==> c < hi
  {
    if c < hi {
      ColumnOrder(stride, c, hi, radY);
    } else if hi < c {
      ColumnOrder(stride, hi, c, radY);
    }
  }

  /** A span whose columns are all on screen writes hi - lo distinct pixels. */
  lemma {:induction false} SpanCount(w: int, stride: int, radY: int, lo: int, hi: int)
    requires 0 < radY < stride && 0 <= lo <= hi <= w
    ensures |SpanDots(stride, radY, w * stride, lo, hi)| == hi - lo
    decreases hi - lo
  {
    if hi == lo {
      assert SpanDots(stride, radY, w * stride, lo, hi) == {};
    } else {
      var c := hi - 1;
      var before := SpanDots(stride, radY, w * stride, lo, c);
      SpanNext(stride, radY, w * stride, lo, c);
      SpanCount(w, stride, radY, lo, c);
      var last := ColumnDot(stride, c, radY);
      ColumnOrder(stride, c, w, radY);
      MulMono(stride, 0, c);
      assert stride * w == w * stride;
      assert 0 <= last <= w * stride;
      forall d | d in before
        ensures d < last
      {
        var k :| lo <= k < c && 0 <= ColumnDot(stride, k, radY) <= w * stride && d == ColumnDot(stride, k, radY);
        ColumnOrder(stride, k, c, radY);
      }
      assert SpanDots(stride, radY, w * stride, lo, hi) == before + {last};
      assert last !in before;
    }
  }

  // ---------------------------------------------------------------- the whole circle

  /**
   * All of the circle is inside the buffer of GLCD_WIDTH * GLCD_HEIGHT pixels
   * with stride GLCD_HEIGHT, for every origin and radius on unbounded
   * integers: its own guards are enough.  In the source this holds for origins
   * whose int32 index arithmetic does not overflow.  Every index is on a buffer
   * row strictly between 0 and GLCD_HEIGHT.
   */
  lemma {:induction false} CircleInBuffer(ox: int, oy: int, r: int, h: int, w: int, n: nat, d: int)
    requires 1 <= h && CircleDefined(oy, r, h) && n <= Rows(r)
    requires d in CircleDots(ox, oy, r, h, h, w * h, n)
    ensures 0 <= d < w * h && 0 < d % h < h
  {
    var y := -r + n - 1;
    if d in CircleDots(ox, oy, r, h, h, w * h, n - 1) {
      CircleInBuffer(ox, oy, r, h, w, n - 1, d);
    } else {
      assert !RowClipped(oy, y, h);
      SpanInBuffer(w, h, y + oy, ox - HalfWidth(r, y), ox + HalfWidth(r, y), d);
    }
  }

  /**
   * An unclipped row whose span is all on screen writes 2 * fastIntSqrt(r^2 - y^2)
   * pixels, and that half-width reaches the true square root.
   */
  lemma RowWidth(ox: int, oy: int, r: int, y: int, h: int, w: int)
    requires 1 <= h && CircleDefined(oy, r, h) && -r <= y < r && !RowClipped(oy, y, h)
    requires 0 <= ox - HalfWidth(r, y) && ox + HalfWidth(r, y) <= w
    ensures |CircleRow(ox, oy, r, y, h, h, w * h)| == 2 * HalfWidth(r, y)
    ensures RowArg(r, y) >= 4 ==> RowArg(r, y) < (HalfWidth(r, y) + 1) * (HalfWidth(r, y) + 1)
  {
    SpanCount(w, h, y + oy, ox - HalfWidth(r, y), ox + HalfWidth(r, y));
    if RowArg(r, y) >= 4 {
      ApproxLowerBound(RowArg(r, y));
    }
  }

  /** Radius 200: the middle row's half-width is 233, so the row is 466 columns wide rather than 400. */
  lemma WideMiddleRow()
    ensures RowArg(200, 0) == 40000 && HalfWidth(200, 0) == 233 && 2 * HalfWidth(200, 0) > 2 * 200
  {
    FarAbove();
  }
}
