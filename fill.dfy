/**
 * The indices the solid primitives of Render.c write: GLCD_DrawHLine,
 * GLCD_DrawVLine, GLCD_DrawRectangle and fillRectangle.  Each is stated in
 * the order-free form the renderer's methods promise (`Painted`), with lemmas
 * that say where those indices lie on the screen.
 */
module Fill {
  import opened Arith

  /**
   * The portrait layout (GLCD_LANDSCAPE == 0) of the GLCD_* primitives: screen
   * pixel (x, y) is index (GLCD_WIDTH - x) * GLCD_HEIGHT + y.
   */
  function ScreenDot(w: int, h: int, x: int, y: int): int
  {
    (w - x) * h + y
  }

  /** Within one screen row band, the layout is one-to-one. */
  lemma ScreenDotInjective(w: int, h: int, x: int, y: int, x': int, y': int)
    requires 0 <= y < h && 0 <= y' < h
    requires ScreenDot(w, h, x, y) == ScreenDot(w, h, x', y')
    ensures x == x' && y == y'
  {
    var k := x' - x;
    assert (w - x) * h == (w - x') * h + k * h;
    SmallMultiple(k, h, y' - y);
  }

  // ---------------------------------------------------------------- lines

  /** The n indices GLCD_DrawHLine's count-down loop writes from `start`, each GLCD_HEIGHT below the one before. */
  function HLineDots(start: int, h: int, n: nat): set<int>
  {
    set k | 0 <= k < n :: HDot(start, h, k)
  }

  /** The index GLCD_DrawHLine writes on its k-th pass. */
  function HDot(start: int, h: int, k: int): int
  {
    start - h * k
  }

  /** GLCD_DrawVLine's loop: n consecutive indices from `start`. */
  function VLineDots(start: int, n: nat): set<int>
  {
    set k | 0 <= k < n :: VDot(start, k)
  }

  /** The index GLCD_DrawVLine writes on its k-th pass. */
  function VDot(start: int, k: int): int
  {
    start + k
  }

  /** The first and last index of the horizontal line are inside a buffer of `size` pixels. */
  predicate HLineFits(start: int, h: int, n: nat, size: int)
  {
    n == 0 || (0 <= start - h * (n - 1) && start < size)
  }

  /** The first and last index of the vertical line are inside a buffer of `size` pixels. */
  predicate VLineFits(start: int, n: nat, size: int)
  {
    n == 0 || (0 <= start && start + n <= size)
  }

  /** GLCD_DrawHLine's `dot -= GLCD_HEIGHT`. */
  lemma HDotNext(start: int, h: int, k: int)
    ensures HDot(start, h, k + 1) == HDot(start, h, k) - h
  {}

  lemma HLineNext(start: int, h: int, k: nat)
    ensures HLineDots(start, h, k + 1) == HLineDots(start, h, k) + {start - h * k}
  {
    assert HDot(start, h, k) in HLineDots(start, h, k + 1);
  }

  lemma VLineNext(start: int, k: nat)
    ensures VLineDots(start, k + 1) == VLineDots(start, k) + {start + k}
  {
    assert VDot(start, k) in VLineDots(start, k + 1);
  }

  /** GLCD_DrawHLine from the pixel (x, y) writes the screen pixels (x, y), (x + 1, y), ..., (x + n - 1, y). */
  lemma HLineScreen(w: int, h: int, x: int, y: int, n: nat)
    ensures HLineDots(ScreenDot(w, h, x, y), h, n) == set c | x <= c < x + n :: ScreenDot(w, h, c, y)
  {
    var start := ScreenDot(w, h, x, y);
    forall k | 0 <= k < n
      ensures HDot(start, h, k) == ScreenDot(w, h, x + k, y)
    {
      assert (w - x) * h - h * k == (w - (x + k)) * h;
    }
    forall c | x <= c < x + n
      ensures ScreenDot(w, h, c, y) in HLineDots(start, h, n)
    {
      assert ScreenDot(w, h, c, y) == HDot(start, h, c - x);
    }
  }

  /** GLCD_DrawVLine from the pixel (x, y) writes the screen pixels (x, y), (x, y + 1), ..., (x, y + n - 1). */
  lemma VLineScreen(w: int, h: int, x: int, y: int, n: nat)
    ensures VLineDots(ScreenDot(w, h, x, y), n) == set r | y <= r < y + n :: ScreenDot(w, h, x, r)
  {
    var start := ScreenDot(w, h, x, y);
    forall k | 0 <= k < n
      ensures VDot(start, k) == ScreenDot(w, h, x, y + k)
    {}
    forall r | y <= r < y + n
      ensures ScreenDot(w, h, x, r) in VLineDots(start, n)
    {
      assert ScreenDot(w, h, x, r) == VDot(start, r - y);
    }
  }

  /** The horizontal line lies between its last index and its first: all inside the buffer when those two are. */
  lemma HLineBounds(start: int, h: nat, n: nat, d: int)
    requires d in HLineDots(start, h, n)
    ensures start - h * (n - 1) <= d <= start
  {
    var k :| 0 <= k < n && d == HDot(start, h, k);
    assert h * k <= h * (n - 1);
  }

  /** The vertical line is the interval of n indices from its start. */
  lemma VLineInterval(start: int, n: nat)
    ensures forall d :: d in VLineDots(start, n) <==> start <= d < start + n
  {
    forall d | start <= d < start + n
      ensures d in VLineDots(start, n)
    {
      assert d == VDot(start, d - start);
    }
  }

  /** With a positive GLCD_HEIGHT the horizontal line's n indices are distinct: it writes n pixels. */
  lemma {:induction false} HLineCount(start: int, h: nat, n: nat)
    requires h >= 1
    ensures |HLineDots(start, h, n)| == n
  {
    if n == 0 {
      assert HLineDots(start, h, 0) == {};
    } else {
      var before, last := HLineDots(start, h, n - 1), start - h * (n - 1);
      HLineNext(start, h, n - 1);
      HLineCount(start, h, n - 1);
      assert h * (n - 1) == h * (n - 2) + h;
      forall d | d in before
        ensures d != last
      {
        HLineBounds(start, h, n - 1, d);
      }
      assert |before + {last}| == |before| + 1;
    }
  }

  /** The vertical line writes n pixels. */
  lemma {:induction false} VLineCount(start: int, n: nat)
    ensures |VLineDots(start, n)| == n
  {
    if n == 0 {
      assert VLineDots(start, 0) == {};
    } else {
      VLineNext(start, n - 1);
      VLineCount(start, n - 1);
      assert start + (n - 1) !in VLineDots(start, n - 1);
    }
  }

  // ---------------------------------------------------------------- outline

  /**
   * GLCD_DrawRectangle: horizontal lines of `rw` pixels at rows y and y + rh,
   * vertical lines of `rh` pixels at columns x and x + rw.
   */
  function OutlineDots(w: int, h: int, x: int, y: int, rw: nat, rh: nat): set<int>
  {
    HLineDots(ScreenDot(w, h, x, y), h, rw) + HLineDots(ScreenDot(w, h, x, y + rh), h, rw)
    + VLineDots(ScreenDot(w, h, x, y), rh) + VLineDots(ScreenDot(w, h, x + rw, y), rh)
  }

  /**
   * The outline has three of its corners but not the fourth: the lines stop one
   * short of (x + rw, y + rh), which no line reaches.
   */
  lemma OutlineCorners(w: int, h: int, x: int, y: int, rw: nat, rh: nat)
    requires 1 <= rw && 1 <= rh && 0 <= y && y + rh < h
    ensures ScreenDot(w, h, x, y) in OutlineDots(w, h, x, y, rw, rh)
    ensures ScreenDot(w, h, x + rw, y) in OutlineDots(w, h, x, y, rw, rh)
    ensures ScreenDot(w, h, x, y + rh) in OutlineDots(w, h, x, y, rw, rh)
    ensures ScreenDot(w, h, x + rw, y + rh) !in OutlineDots(w, h, x, y, rw, rh)
  {
    HLineScreen(w, h, x, y, rw);
    HLineScreen(w, h, x, y + rh, rw);
    VLineScreen(w, h, x, y, rh);
    VLineScreen(w, h, x + rw, y, rh);
    var far := ScreenDot(w, h, x + rw, y + rh);
    if far in HLineDots(ScreenDot(w, h, x, y), h, rw) {
      var c :| x <= c < x + rw && far == ScreenDot(w, h, c, y);
      ScreenDotInjective(w, h, x + rw, y + rh, c, y);
    }
    if far in HLineDots(ScreenDot(w, h, x, y + rh), h, rw) {
      var c :| x <= c < x + rw && far == ScreenDot(w, h, c, y + rh);
      ScreenDotInjective(w, h, x + rw, y + rh, c, y + rh);
    }
    if far in VLineDots(ScreenDot(w, h, x, y), rh) {
      var r :| y <= r < y + rh && far == ScreenDot(w, h, x, r);
      ScreenDotInjective(w, h, x + rw, y + rh, x, r);
    }
  }

  // ---------------------------------------------------------------- filled rectangle

  /**
   * fillRectangle's rows: row i (i < rh) is the rw indices after
   * base + stride * i, since the loop steps `dot` before each write.
   */
  function RectDots(base: int, stride: int, rw: nat, rh: nat): set<int>
  {
    set i, j | 0 <= i < rh && 0 <= j < rw :: RectDot(base, stride, i, j)
  }

  /** fillRectangle's start: its portrait swap makes x' = GLCD_WIDTH - y and y' = x, and it starts at x' + y' * stride. */
  function RectBase(w: int, stride: int, x: int, y: int): int
  {
    (w - y) + x * stride
  }

  /** The first and last index of fillRectangle are inside a buffer of `size` pixels. */
  predicate RectFits(base: int, stride: int, rw: nat, rh: nat, size: int)
  {
    rw == 0 || rh == 0 || (0 <= base + 1 && base + stride * (rh - 1) + rw < size)
  }

  /** The index fillRectangle writes at column j of row i. */
  function RectDot(base: int, stride: int, i: int, j: int): int
  {
    base + stride * i + j + 1
  }

  /** The index fillRectangle's `dot` holds at the start of row i. */
  function RowStart(base: int, stride: int, i: int): int
  {
    base + stride * i
  }

  /** After a row of rw writes, fillRectangle's skip to the next row leaves `dot` where that row starts. */
  lemma RowStartNext(base: int, stride: int, rw: int, i: int)
    ensures RowStart(base, stride, i) + rw + stride - rw == RowStart(base, stride, i + 1)
  {}

  /** The first j indices written in the row that starts after `start`. */
  function RowDots(start: int, j: nat): set<int>
  {
    set k | 0 <= k < j :: RectDot(start, 0, 0, k)
  }

  lemma RowNext(start: int, j: nat)
    ensures RowDots(start, j + 1) == RowDots(start, j) + {start + j + 1}
  {
    assert RectDot(start, 0, 0, j) in RowDots(start, j + 1);
  }

  lemma RectNext(base: int, stride: int, rw: nat, i: nat)
    ensures RectDots(base, stride, rw, i + 1) == RectDots(base, stride, rw, i) + RowDots(RowStart(base, stride, i), rw)
  {
    var start, rows := RowStart(base, stride, i), i + 1;
    forall d | d in RowDots(start, rw)
      ensures d in RectDots(base, stride, rw, rows)
    {
      var k :| 0 <= k < rw && d == RectDot(start, 0, 0, k);
      assert d == RectDot(base, stride, i, k);
    }
    forall d | d in RectDots(base, stride, rw, rows)
      ensures d in RectDots(base, stride, rw, i) + RowDots(start, rw)
    {
      var i', j :| 0 <= i' < rows && 0 <= j < rw && d == RectDot(base, stride, i', j);
      if i' == i {
        assert d == RectDot(start, 0, 0, j);
      }
    }
  }

  /**
   * Every index of fillRectangle lies between base + 1 and
   * base + stride * (rh - 1) + rw: all inside the buffer when those two are.
   */
  lemma RectBounds(base: int, stride: nat, rw: nat, rh: nat, d: int)
    requires d in RectDots(base, stride, rw, rh)
    ensures base + 1 <= d <= base + stride * (rh - 1) + rw
  {
    var i, j :| 0 <= i < rh && 0 <= j < rw && d == RectDot(base, stride, i, j);
    MulMono(stride, 0, i);
    MulMono(stride, i, rh - 1);
  }

  /** Row i of a rectangle that fits lies inside the buffer. */
  lemma RowFits(base: int, stride: nat, rw: nat, rh: nat, i: nat, size: int)
    requires RectFits(base, stride, rw, rh, size) && i < rh
    ensures rw == 0 || (0 <= RowStart(base, stride, i) + 1 && RowStart(base, stride, i) + rw < size)
  {
    if rw != 0 {
      RectBounds(base, stride, rw, rh, RectDot(base, stride, i, 0));
      RectBounds(base, stride, rw, rh, RectDot(base, stride, i, rw - 1));
    }
  }

  /**
   * The off-by-one of fillRectangle: as `dot` is stepped before each write, the
   * rectangle starts one past `base`, which it never writes, and its first row
   * ends at base + rw.
   */
  lemma RectFirstRow(base: int, stride: nat, rw: nat, rh: nat)
    requires 1 <= rw && 1 <= rh
    ensures base !in RectDots(base, stride, rw, rh)
    ensures base + 1 in RectDots(base, stride, rw, rh) && base + rw in RectDots(base, stride, rw, rh)
  {
    assert RectDot(base, stride, 0, 0) == base + 1;
    assert RectDot(base, stride, 0, rw - 1) == base + rw;
    if base in RectDots(base, stride, rw, rh) {
      RectBounds(base, stride, rw, rh, base);
    }
  }

  /** A rectangle whose rows are no longer than the stride writes rw * rh distinct pixels. */
  lemma {:induction false} RectCount(base: int, stride: nat, rw: nat, rh: nat)
    requires rw <= stride
    ensures |RectDots(base, stride, rw, rh)| == rw * rh
  {
    if rh == 0 {
      assert RectDots(base, stride, rw, 0) == {};
    } else {
      var start := base + stride * (rh - 1);
      var before, row := RectDots(base, stride, rw, rh - 1), RowDots(start, rw);
      RectNext(base, stride, rw, rh - 1);
      RectCount(base, stride, rw, rh - 1);
      RowCount(start, rw);
      assert stride * (rh - 1) == stride * (rh - 2) + stride;
      forall d | d in row
        ensures start + 1 <= d
      {
        RowBounds(start, rw, d);
      }
      forall e | e in before
        ensures e < start + 1
      {
        RectBounds(base, stride, rw, rh - 1, e);
      }
      assert before * row == {};
      assert |before + row| == |before| + |row|;
      assert rw * rh == rw * (rh - 1) + rw;
    }
  }

  lemma RowBounds(start: int, n: nat, d: int)
    requires d in RowDots(start, n)
    ensures start + 1 <= d <= start + n
  {}

  lemma {:induction false} RowCount(start: int, n: nat)
    ensures |RowDots(start, n)| == n
  {
    if n == 0 {
      assert RowDots(start, 0) == {};
    } else {
      RowNext(start, n - 1);
      RowCount(start, n - 1);
      assert start + n !in RowDots(start, n - 1);
    }
  }
}
