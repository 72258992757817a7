/**
 * The effect of a drawing primitive on the frame buffer, described as the list
 * of pixel writes it performs in order.  Every primitive of the renderer is
 * specified by such a list: its method leaves the buffer equal to `Apply` of the
 * list to the buffer it started from.  The renderer's methods require every
 * write of their list to land inside the buffer (`Within`); `Apply` itself
 * skips a write outside it, so that it is defined on every list.
 */
module Paint {
  import opened Colour

  /** One write to the frame buffer at index `dot`. */
  datatype Op =
    | Put(dot: int, colour: bv16)                 // frame_buf[dot] = colour
    | Mix(dot: int, colour: bv16, alpha: bv8)     // blendPixel of colour onto frame_buf[dot]
    | MixFast(dot: int, colour: bv16, alpha: bv8) // blendPixelFast of colour onto frame_buf[dot]

  /** Every write of `ops` lands inside a buffer of `n` pixels. */
  predicate Within(ops: seq<Op>, n: int)
  {
    forall i :: 0 <= i < |ops| ==> 0 <= ops[i].dot < n
  }

  /** The indices `ops` writes. */
  function Dots(ops: seq<Op>): set<int>
  {
    set i | 0 <= i < |ops| :: ops[i].dot
  }

  /** The value one write stores, given the pixel it overwrites. */
  function Written(op: Op, old_pixel: bv16): bv16
  {
    match op
    case Put(_, c) => c
    case Mix(_, c, a) => Blend(c, old_pixel, a)
    case MixFast(_, c, a) => BlendFast(c, old_pixel, a)
  }

  /** The buffer after one write inside it. */
  function Step(buf: seq<bv16>, op: Op): (r: seq<bv16>)
    requires 0 <= op.dot < |buf|
    ensures |r| == |buf|
  {
    buf[op.dot := Written(op, buf[op.dot])]
  }

  /** The buffer after performing the writes of `ops` in order, skipping any outside it. */
  function Apply(buf: seq<bv16>, ops: seq<Op>): (r: seq<bv16>)
    ensures |r| == |buf|
    decreases |ops|
  {
    if ops == [] then buf
    else
      var before, op := Apply(buf, ops[..|ops| - 1]), ops[|ops| - 1];
      if 0 <= op.dot < |buf| then Step(before, op) else before
  }

  lemma WithinConcat(a: seq<Op>, b: seq<Op>, n: int)
    ensures Within(a + b, n) <==> Within(a, n) && Within(b, n)
  {
    if Within(a, n) && Within(b, n) {
      forall i | 0 <= i < |a + b|
        ensures 0 <= (a + b)[i].dot < n
      {
        if i >= |a| {
          assert (a + b)[i] == b[i - |a|];
        }
      }
    }
    if Within(a + b, n) {
      forall i | 0 <= i < |a|
        ensures 0 <= a[i].dot < n
      {
        assert (a + b)[i] == a[i];
      }
      forall i | 0 <= i < |b|
        ensures 0 <= b[i].dot < n
      {
        assert (a + b)[|a| + i] == b[i];
      }
    }
  }

  /** One more write at the end. */
  lemma ApplySnoc(buf: seq<bv16>, ops: seq<Op>, op: Op)
    ensures 0 <= op.dot < |buf| ==> Apply(buf, ops + [op]) == Step(Apply(buf, ops), op)
    ensures !(0 <= op.dot < |buf|) ==> Apply(buf, ops + [op]) == Apply(buf, ops)
  {
    assert (ops + [op])[|ops|] == op;
    assert (ops + [op])[..|ops|] == ops;
  }

  /** Performing two lists of writes one after the other is performing their concatenation. */
  lemma {:induction false} ApplyConcat(buf: seq<bv16>, a: seq<Op>, b: seq<Op>)
    ensures Apply(buf, a + b) == Apply(Apply(buf, a), b)
    decreases |b|
  {
    if b == [] {
      assert a + b == a;
    } else {
      var b' := b[..|b| - 1];
      var last := b[|b| - 1];
      assert b == b' + [last];
      assert a + b == (a + b') + [last];
      ApplySnoc(buf, a + b', last);
      ApplyConcat(buf, a, b');
      ApplySnoc(Apply(buf, a), b', last);
    }
  }

  /** The indices of a list with one more write in front. */
  lemma DotsCons(op: Op, rest: seq<Op>)
    ensures Dots([op] + rest) == {op.dot} + Dots(rest)
  {
    var s := [op] + rest;
    assert s[0] == op;
    forall d | d in Dots(s)
      ensures d in {op.dot} + Dots(rest)
    {
      var i :| 0 <= i < |s| && s[i].dot == d;
      if i > 0 {
        assert s[i] == rest[i - 1];
      }
    }
    forall d | d in Dots(rest)
      ensures d in Dots(s)
    {
      var i :| 0 <= i < |rest| && rest[i].dot == d;
      assert s[i + 1] == rest[i];
    }
  }

  /** A pixel that no write touches keeps its value. */
  lemma {:induction false} ApplyElsewhere(buf: seq<bv16>, ops: seq<Op>, i: int)
    requires 0 <= i < |buf| && i !in Dots(ops)
    ensures Apply(buf, ops)[i] == buf[i]
    decreases |ops|
  {
    if ops != [] {
      var ops' := ops[..|ops| - 1];
      assert Dots(ops') <= Dots(ops) by {
        forall d | d in Dots(ops') ensures d in Dots(ops) {
          var k :| 0 <= k < |ops'| && ops'[k].dot == d;
          assert ops[k] == ops'[k];
        }
      }
      assert ops[|ops| - 1].dot in Dots(ops);
      ApplyElsewhere(buf, ops', i);
    }
  }

  /** All writes store the same colour, unconditionally. */
  predicate AllPut(ops: seq<Op>, c: bv16)
  {
    forall i :: 0 <= i < |ops| ==> ops[i].Put? && ops[i].colour == c
  }

  /**
   * A list of solid writes in colour `c` leaves exactly its indices set to `c`
   * and every other pixel as it was, whatever the order of the writes.
   */
  lemma {:induction false} ApplyPuts(buf: seq<bv16>, ops: seq<Op>, c: bv16, i: int)
    requires AllPut(ops, c)
    requires 0 <= i < |buf|
    ensures Apply(buf, ops)[i] == if i in Dots(ops) then c else buf[i]
    decreases |ops|
  {
    if ops != [] {
      var ops' := ops[..|ops| - 1];
      var last := ops[|ops| - 1];
      assert Dots(ops) == Dots(ops') + {last.dot} by {
        forall d | d in Dots(ops) ensures d in Dots(ops') + {last.dot} {
          var k :| 0 <= k < |ops| && ops[k].dot == d;
          if k < |ops| - 1 {
            assert ops'[k] == ops[k];
          }
        }
        forall d | d in Dots(ops') ensures d in Dots(ops) {
          var k :| 0 <= k < |ops'| && ops'[k].dot == d;
          assert ops[k] == ops'[k];
        }
      }
      ApplyPuts(buf, ops', c, i);
    }
  }

  /** The writes of a prefix land wherever the whole list's writes land. */
  lemma WithinPrefix(a: seq<Op>, b: seq<Op>, n: int)
    requires a <= b && Within(b, n)
    ensures Within(a, n)
  {
    forall i | 0 <= i < |a| ensures 0 <= a[i].dot < n {
      assert a[i] == b[i];
    }
  }

  /**
   * The next two writes of a list being performed in order: they land in the
   * buffer, and performing them extends the writes done so far by two.
   */
  lemma ApplyPair(buf: seq<bv16>, done: seq<Op>, a: Op, b: Op, all: seq<Op>)
    requires done + [a] + [b] <= all && Within(all, |buf|)
    ensures 0 <= a.dot < |buf| && 0 <= b.dot < |buf|
    ensures Apply(buf, done + [a] + [b]) == Step(Step(Apply(buf, done), a), b)
  {
    assert all[|done|] == a && all[|done| + 1] == b;
    ApplySnoc(buf, done + [a], b);
    ApplySnoc(buf, done, a);
  }

  /** The next write of a list being performed in order. */
  lemma ApplyNext(buf: seq<bv16>, done: seq<Op>, op: Op, all: seq<Op>)
    requires done + [op] <= all && Within(all, |buf|)
    ensures 0 <= op.dot < |buf|
    ensures Apply(buf, done + [op]) == Step(Apply(buf, done), op)
  {
    assert all[|done|] == op;
    ApplySnoc(buf, done, op);
  }

  /**
   * `after` is `before` with exactly the indices of `dots` set to `c`: what a
   * solid fill leaves, whatever the order of its writes.
   */
  predicate Painted(before: seq<bv16>, after: seq<bv16>, dots: set<int>, c: bv16)
  {
    |after| == |before| && forall i :: 0 <= i < |before| ==> after[i] == if i in dots then c else before[i]
  }

  lemma PaintedNothing(buf: seq<bv16>, c: bv16)
    ensures Painted(buf, buf, {}, c)
  {}

  /** One more solid write. */
  lemma PaintedMore(before: seq<bv16>, buf: seq<bv16>, dots: set<int>, c: bv16, d: int)
    requires Painted(before, buf, dots, c) && 0 <= d < |buf|
    ensures Painted(before, buf[d := c], dots + {d}, c)
  {}

  /** Two fills in the same colour, one after the other. */
  lemma PaintedThen(a: seq<bv16>, b: seq<bv16>, e: seq<bv16>, s: set<int>, t: set<int>, c: bv16)
    requires Painted(a, b, s, c) && Painted(b, e, t, c)
    ensures Painted(a, e, s + t, c)
  {}

  /** A list of solid writes in one colour paints the set of its indices. */
  lemma PaintedPuts(buf: seq<bv16>, ops: seq<Op>, c: bv16)
    requires AllPut(ops, c)
    ensures Painted(buf, Apply(buf, ops), Dots(ops), c)
  {
    forall i | 0 <= i < |buf|
      ensures Apply(buf, ops)[i] == if i in Dots(ops) then c else buf[i]
    {
      ApplyPuts(buf, ops, c, i);
    }
  }

  /** Performs one write on a frame buffer. */
  method Perform(frame: array<bv16>, op: Op)
    requires 0 <= op.dot < frame.Length
    modifies frame
    ensures frame[..] == Step(old(frame[..]), op)
  {
    ghost var before := frame[..];
    var pixel := Written(op, frame[op.dot]);
    frame[op.dot] := pixel;
    assert frame[..] == before[op.dot := pixel];
  }
}
