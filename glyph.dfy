/**
 * The bitmap font GLCD_DrawChar and GLCD_DrawString paint from.  A glyph is
 * `height` rows of `wb = (width + 7) / 8` bytes; bit j % 8 of byte j / 8 of a
 * row is the pixel at column j, least significant bit first.  On screen,
 * column j of the glyph is screen column x + j and row i is screen row y + i.
 */
module Glyph {
  import opened Arith
  import opened Fill
  import opened IntSqrt

  /** The fields of GLCD_FONT that the drawing code uses. */
  datatype Font = Font(width: nat, height: nat, offset: int, bitmap: seq<bv8>)

  datatype Option<T> = None | Some(value: T)

  /** Bytes per glyph row. */
  function RowBytes(f: Font): nat
  {
    (f.width + 7) / 8
  }

  /** Where the glyph of character ch starts in the bitmap. */
  function GlyphStart(f: Font, ch: int): int
  {
    (ch - f.offset) * RowBytes(f) * f.height
  }

  /** The glyph of ch lies wholly inside the bitmap. */
  predicate HasGlyph(f: Font, ch: int)
  {
    f.offset <= ch && GlyphStart(f, ch) + RowBytes(f) * f.height <= |f.bitmap|
  }

  /** The byte of row i that holds column j. */
  function ByteAt(f: Font, ch: int, i: nat, j: nat): int
  {
    GlyphStart(f, ch) + i * RowBytes(f) + j / 8
  }

  /** Whether the glyph of ch has pixel (i, j) set. */
  predicate Bit(f: Font, ch: int, i: nat, j: nat)
    requires HasGlyph(f, ch) && i < f.height && j < f.width
  {
    ByteBound(f, ch, i, j);
    (f.bitmap[ByteAt(f, ch, i, j)] >> (j % 8)) & 1 == 1
  }

  lemma ByteBound(f: Font, ch: int, i: nat, j: nat)
    requires HasGlyph(f, ch) && i < f.height && j < f.width
    ensures 0 <= ByteAt(f, ch, i, j) < |f.bitmap|
  {
    var wb := RowBytes(f);
    var g: nat := ch - f.offset;
    MulMono(g, 0, wb);
    MulMono(g * wb, 0, f.height);
    MulMono(wb, 0, i);
    assert 0 <= j / 8 < wb;
    MulMono(wb, i + 1, f.height);
    Distribute(i, 1, wb);
  }

  /** The buffer index of glyph pixel (i, j) when drawn at (x, y). */
  function GlyphDot(w: int, h: int, x: int, y: int, i: int, j: int): int
  {
    ScreenDot(w, h, x + j, y + i)
  }

  /** The pixels of the first n columns of row i that the glyph sets. */
  function GlyphRow(f: Font, ch: int, w: int, h: int, x: int, y: int, i: nat, n: nat): set<int>
    requires HasGlyph(f, ch) && i < f.height && n <= f.width
  {
    set j: nat | j < n && Bit(f, ch, i, j) :: GlyphDot(w, h, x, y, i, j)
  }

  /** The pixels of the first m rows that the glyph sets. */
  function GlyphRows(f: Font, ch: int, w: int, h: int, x: int, y: int, m: nat): set<int>
    requires HasGlyph(f, ch) && m <= f.height
  {
    set i: nat, j: nat | i < m && j < f.width && Bit(f, ch, i, j) :: GlyphDot(w, h, x, y, i, j)
  }

  /** What GLCD_DrawChar paints for ch at (x, y). */
  function GlyphDots(f: Font, ch: int, w: int, h: int, x: int, y: int): set<int>
    requires HasGlyph(f, ch)
  {
    GlyphRows(f, ch, w, h, x, y, f.height)
  }

  /**
   * Every index of the glyph's box is in a buffer of `size` pixels: the
   * source writes each of them back, set or not.
   */
  predicate GlyphFits(w: int, h: int, x: int, y: int, f: Font, size: int)
  {
    f.width == 0 || f.height == 0 ||
    (0 <= GlyphDot(w, h, x, y, 0, f.width - 1) && GlyphDot(w, h, x, y, f.height - 1, 0) < size)
  }

  // ---------------------------------------------------------------- stepping through the box

  /** One column right is GLCD_HEIGHT indices down. */
  lemma GlyphDotRight(w: int, h: int, x: int, y: int, i: int, j: int)
    ensures GlyphDot(w, h, x, y, i, j + 1) == GlyphDot(w, h, x, y, i, j) - h
  {
    assert (w - (x + j)) * h == (w - (x + j + 1)) * h + h;
  }

  /** Back to column 0 of the next row: `h * width + 1` on from just past the row's end. */
  lemma GlyphDotNextRow(w: int, h: int, x: int, y: int, i: int, n: int)
    ensures GlyphDot(w, h, x, y, i + 1, 0) == GlyphDot(w, h, x, y, i, n) + h * n + 1
  {
    assert (w - x) * h == (w - (x + n)) * h + h * n;
  }

  /** The box corners bound every index in it. */
  lemma GlyphBox(w: int, h: int, x: int, y: int, f: Font, size: int, i: nat, j: nat)
    requires 1 <= h && GlyphFits(w, h, x, y, f, size) && i < f.height && j < f.width
    ensures 0 <= GlyphDot(w, h, x, y, i, j) < size
  {
    var far := f.width - 1 - j;
    var low := f.height - 1 - i;
    assert GlyphDot(w, h, x, y, i, j) == GlyphDot(w, h, x, y, 0, f.width - 1) + i + h * far by {
      assert (w - (x + j)) * h == (w - (x + f.width - 1)) * h + h * far;
    }
    assert GlyphDot(w, h, x, y, i, j) == GlyphDot(w, h, x, y, f.height - 1, 0) - low - h * j by {
      assert (w - (x + j)) * h == (w - x) * h - h * j;
    }
    assert h * far >= 0 && h * j >= 0;
  }

  lemma RowNextBit(f: Font, ch: int, w: int, h: int, x: int, y: int, i: nat, n: nat)
    requires HasGlyph(f, ch) && i < f.height && n < f.width
    ensures GlyphRow(f, ch, w, h, x, y, i, n + 1)
      == GlyphRow(f, ch, w, h, x, y, i, n) + (if Bit(f, ch, i, n) then {GlyphDot(w, h, x, y, i, n)} else {})
  {
    var next := n + 1;
    forall d | d in GlyphRow(f, ch, w, h, x, y, i, next)
      ensures d in GlyphRow(f, ch, w, h, x, y, i, n) || d == GlyphDot(w, h, x, y, i, n)
    {
      var j: nat :| j < next && Bit(f, ch, i, j) && d == GlyphDot(w, h, x, y, i, j);
    }
  }

  lemma RowsNext(f: Font, ch: int, w: int, h: int, x: int, y: int, m: nat)
    requires HasGlyph(f, ch) && m < f.height
    ensures GlyphRows(f, ch, w, h, x, y, m + 1) == GlyphRows(f, ch, w, h, x, y, m) + GlyphRow(f, ch, w, h, x, y, m, f.width)
  {
    var next := m + 1;
    forall d | d in GlyphRows(f, ch, w, h, x, y, next)
      ensures d in GlyphRows(f, ch, w, h, x, y, m) || d in GlyphRow(f, ch, w, h, x, y, m, f.width)
    {
      var i: nat, j: nat :| i < next && j < f.width && Bit(f, ch, i, j) && d == GlyphDot(w, h, x, y, i, j);
    }
  }

  // ---------------------------------------------------------------- what a glyph paints

  /** A glyph paints only inside its box. */
  lemma GlyphInBox(f: Font, ch: int, w: int, h: int, x: int, y: int, size: int, d: int)
    requires 1 <= h && HasGlyph(f, ch) && GlyphFits(w, h, x, y, f, size)
    requires d in GlyphDots(f, ch, w, h, x, y)
    ensures 0 <= d < size
    ensures exists i: nat, j: nat :: i < f.height && j < f.width && d == GlyphDot(w, h, x, y, i, j)
  {
    var i: nat, j: nat :| i < f.height && j < f.width && Bit(f, ch, i, j) && d == GlyphDot(w, h, x, y, i, j);
    GlyphBox(w, h, x, y, f, size, i, j);
  }

  /** A glyph made of zero bytes paints nothing. */
  lemma BlankGlyph(f: Font, ch: int, w: int, h: int, x: int, y: int)
    requires HasGlyph(f, ch)
    requires forall k :: 0 <= k < |f.bitmap| ==> f.bitmap[k] == 0
    ensures GlyphDots(f, ch, w, h, x, y) == {}
  {
    forall i: nat, j: nat | i < f.height && j < f.width
      ensures !Bit(f, ch, i, j)
    {
      ByteBound(f, ch, i, j);
    }
  }

  /**
   * Pixel (i, j) of a glyph placed wholly on one screen column range is
   * painted exactly when its bit is set: no other glyph pixel lands on it.
   */
  lemma GlyphPixel(f: Font, ch: int, w: int, h: int, x: int, y: int, i: nat, j: nat)
    requires HasGlyph(f, ch) && 0 <= y && y + f.height <= h
    requires i < f.height && j < f.width
    ensures GlyphDot(w, h, x, y, i, j) in GlyphDots(f, ch, w, h, x, y) <==> Bit(f, ch, i, j)
  {
    if GlyphDot(w, h, x, y, i, j) in GlyphDots(f, ch, w, h, x, y) {
      var i': nat, j': nat :| i' < f.height && j' < f.width && Bit(f, ch, i', j') && GlyphDot(w, h, x, y, i, j) == GlyphDot(w, h, x, y, i', j');
      ScreenDotInjective(w, h, x + j, y + i, x + j', y + i');
    }
  }

  /** Where the byte address stands for row i + 1: one past the last byte row i reads, whose column is width - 1. */
  lemma ByteNextRow(f: Font, ch: int, i: nat)
    requires f.width >= 1
    ensures ByteAt(f, ch, i, f.width - 1) + 1 == ByteAt(f, ch, i + 1, 0)
  {
    assert (f.width - 1) / 8 + 1 == RowBytes(f);
    assert i * RowBytes(f) + RowBytes(f) == (i + 1) * RowBytes(f);
  }

  // ---------------------------------------------------------------- strings

  /** The characters GLCD_DrawString draws: those before the first NUL. */
  function Text(s: seq<bv8>): (t: seq<bv8>)
    ensures |t| <= |s| && t == s[..|t|] && 0 !in t
    ensures |t| < |s| ==> s[|t|] == 0
  {
    if |s| == 0 || s[0] == 0 then [] else [s[0]] + Text(s[1..])
  }

  /** Every character of t has a glyph that fits in the buffer at its place, each width further along. */
  predicate StringFits(f: Font, t: seq<bv8>, w: int, h: int, x: int, y: int, size: int)
  {
    forall k :: 0 <= k < |t| ==> HasGlyph(f, t[k] as int) && GlyphFits(w, h, x + k * f.width, y, f, size)
  }

  /** The union of a sequence of pixel sets. */
  function Union(g: seq<set<int>>): set<int>
  {
    if |g| == 0 then {} else Union(g[..|g| - 1]) + g[|g| - 1]
  }

  /** A pixel is in the union exactly when it is in one of the sets. */
  lemma {:induction false} UnionMember(g: seq<set<int>>, d: int)
    ensures d in Union(g) <==> exists k :: 0 <= k < |g| && d in g[k]
  {
    if |g| > 0 {
      var n := |g| - 1;
      UnionMember(g[..n], d);
      if d in Union(g[..n]) {
        var k :| 0 <= k < n && d in g[..n][k];
        assert d in g[k];
      }
      if exists k :: 0 <= k < |g| && d in g[k] {
        var k :| 0 <= k < |g| && d in g[k];
        if k < n {
          assert d in g[..n][k];
        }
      }
    }
  }

  /** The union of g + g' is the union of g and the union of g'. */
  lemma {:induction false} UnionAppend(g: seq<set<int>>, g': seq<set<int>>)
    ensures Union(g + g') == Union(g) + Union(g')
    decreases |g'|
  {
    if |g'| == 0 {
      assert g + g' == g;
    } else {
      var n := |g'| - 1;
      UnionAppend(g, g'[..n]);
      assert (g + g')[..|g + g'| - 1] == g + g'[..n];
    }
  }

  /** The glyphs of t placed along the row: character k at x + k * width. */
  function Placed(f: Font, t: seq<bv8>, w: int, h: int, x: int, y: int): (g: seq<set<int>>)
    requires forall k :: 0 <= k < |t| ==> HasGlyph(f, t[k] as int)
    ensures |g| == |t|
  {
    if |t| == 0 then []
    else Placed(f, t[..|t| - 1], w, h, x, y) + [GlyphDots(f, t[|t| - 1] as int, w, h, x + (|t| - 1) * f.width, y)]
  }

  /** Placed entry k is the glyph of t[k] drawn k widths along. */
  lemma {:induction false} PlacedAt(f: Font, t: seq<bv8>, w: int, h: int, x: int, y: int, k: nat)
    requires forall k :: 0 <= k < |t| ==> HasGlyph(f, t[k] as int)
    requires k < |t|
    ensures Placed(f, t, w, h, x, y)[k] == GlyphDots(f, t[k] as int, w, h, x + k * f.width, y)
    decreases |t|
  {
    var n := |t| - 1;
    if k < n {
      PlacedAt(f, t[..n], w, h, x, y, k);
    }
  }

  /** The pixels GLCD_DrawString paints for t: every glyph at its place. */
  function StringDots(f: Font, t: seq<bv8>, w: int, h: int, x: int, y: int): set<int>
    requires forall k :: 0 <= k < |t| ==> HasGlyph(f, t[k] as int)
  {
    Union(Placed(f, t, w, h, x, y))
  }

  /**
   * Drawing a + b places the glyphs of a, then those of b starting |a|
   * characters further right; with UnionAppend, a + b paints what a and the
   * shifted b paint.
   */
  lemma StringAppend(f: Font, a: seq<bv8>, b: seq<bv8>, w: int, h: int, x: int, y: int)
    requires forall k :: 0 <= k < |a| ==> HasGlyph(f, a[k] as int)
    requires forall k :: 0 <= k < |b| ==> HasGlyph(f, b[k] as int)
    ensures forall k :: 0 <= k < |a + b| ==> HasGlyph(f, (a + b)[k] as int)
    ensures Placed(f, a + b, w, h, x, y) == Placed(f, a, w, h, x, y) + Placed(f, b, w, h, x + |a| * f.width, y)
  {
    assert forall k :: 0 <= k < |a + b| ==> (a + b)[k] == if k < |a| then a[k] else b[k - |a|];
    var x' := x + |a| * f.width;
    var pab, pa, pb := Placed(f, a + b, w, h, x, y), Placed(f, a, w, h, x, y), Placed(f, b, w, h, x', y);
    forall k | 0 <= k < |a + b|
      ensures pab[k] == (pa + pb)[k]
    {
      PlacedAt(f, a + b, w, h, x, y, k);
      if k < |a| {
        PlacedAt(f, a, w, h, x, y, k);
      } else {
        PlacedAt(f, b, w, h, x', y, k - |a|);
        Distribute(|a|, k - |a|, f.width);
      }
    }
    assert pab == pa + pb;
  }

  /** Drawing a + b paints what drawing a paints and what drawing b |a| characters further right paints. */
  lemma StringUnion(f: Font, a: seq<bv8>, b: seq<bv8>, w: int, h: int, x: int, y: int)
    requires forall k :: 0 <= k < |a| ==> HasGlyph(f, a[k] as int)
    requires forall k :: 0 <= k < |b| ==> HasGlyph(f, b[k] as int)
    ensures forall k :: 0 <= k < |a + b| ==> HasGlyph(f, (a + b)[k] as int)
    ensures StringDots(f, a + b, w, h, x, y) == StringDots(f, a, w, h, x, y) + StringDots(f, b, w, h, x + |a| * f.width, y)
  {
    StringAppend(f, a, b, w, h, x, y);
    UnionSplit(Placed(f, a, w, h, x, y), Placed(f, b, w, h, x + |a| * f.width, y),
      StringDots(f, a + b, w, h, x, y), StringDots(f, a, w, h, x, y), StringDots(f, b, w, h, x + |a| * f.width, y));
  }

  /** UnionAppend for sets known by other names. */
  lemma UnionSplit(g: seq<set<int>>, g': seq<set<int>>, all: set<int>, left: set<int>, right: set<int>)
    requires all == Union(g + g') && left == Union(g) && right == Union(g')
    ensures all == left + right
  {
    UnionAppend(g, g');
  }

  /**
   * One more character c = t[k] of a fitting string, drawn at `at`: its glyph
   * fits, the prefix grows by that glyph, and the next character goes one
   * width further along.
   */
  lemma StringPrefix(f: Font, t: seq<bv8>, k: nat, c: bv8, at: int, w: int, h: int, x: int, y: int, size: int)
    requires StringFits(f, t, w, h, x, y, size) && k < |t| && c == t[k] && at == x + k * f.width
    ensures HasGlyph(f, c as int) && GlyphFits(w, h, at, y, f, size)
    ensures StringDots(f, t[..k + 1], w, h, x, y) == StringDots(f, t[..k], w, h, x, y) + GlyphDots(f, c as int, w, h, at, y)
    ensures at + f.width == x + (k + 1) * f.width
  {
    assert t[..k + 1][..k] == t[..k];
    var g := Placed(f, t[..k + 1], w, h, x, y);
    assert g[..k] == Placed(f, t[..k], w, h, x, y);
    Distribute(k, 1, f.width);
  }

  /** Every pixel of a string that fits is in the buffer. */
  lemma StringInBuffer(f: Font, t: seq<bv8>, w: int, h: int, x: int, y: int, size: int, d: int)
    requires 1 <= h && StringFits(f, t, w, h, x, y, size)
    requires d in StringDots(f, t, w, h, x, y)
    ensures 0 <= d < size
  {
    var g := Placed(f, t, w, h, x, y);
    UnionMember(g, d);
    var k :| 0 <= k < |g| && d in g[k];
    PlacedAt(f, t, w, h, x, y, k);
    GlyphInBox(f, t[k] as int, w, h, x + k * f.width, y, size, d);
  }
}
