/**
 * poll.c: decoding the inputs.  The rotary encoder reads its two quadrature
 * lines and looks the move up in a 16-entry table indexed by the previous and
 * current levels; a button remembers its last reading and flags a change; the
 * 7-segment display shows a digit through a lookup table.  The GPIO reads are
 * parameters (levels 0 or 1) and the GPIO writes are the cells of an array.
 */
module Poll {
  /** rotaryEncoderMotionTable: +1 clockwise, -1 anticlockwise, 0 for no or an impossible move. */
  const MotionTable: seq<int> := [0, -1, 1, 0, 1, 0, 0, -1, -1, 0, 0, 1, 0, 1, -1, 0]

  /** What HAL_GPIO_ReadPin returns: GPIO_PIN_RESET or GPIO_PIN_SET. */
  predicate Level(b: int)
  {
    b == 0 || b == 1
  }

  /**
   * The table index: previous clk, previous dt, clk, dt as the bits 3 to 0,
   * the four shifts added up, written here one bit at a time.
   */
  function MotionIndex(prevClk: int, prevDt: int, clk: int, dt: int): int
  {
    ((prevClk * 2 + prevDt) * 2 + clk) * 2 + dt
  }

  /** The index is in range. */
  lemma IndexInRange(prevClk: int, prevDt: int, clk: int, dt: int)
    requires Level(prevClk) && Level(prevDt) && Level(clk) && Level(dt)
    ensures 0 <= MotionIndex(prevClk, prevDt, clk, dt) < |MotionTable|
  {}

  /** Distinct moves have distinct indices: the index determines the four levels it was made from. */
  lemma IndexInjective(a: int, b: int, c: int, d: int, a': int, b': int, c': int, d': int)
    requires Level(a) && Level(b) && Level(c) && Level(d)
    requires Level(a') && Level(b') && Level(c') && Level(d')
    requires MotionIndex(a, b, c, d) == MotionIndex(a', b', c', d')
    ensures a == a' && b == b' && c == c' && d == d'
  {}

  /** The rotation readEncoder reports for the move from (prevClk, prevDt) to (clk, dt). */
  function Motion(prevClk: int, prevDt: int, clk: int, dt: int): (m: int)
    requires Level(prevClk) && Level(prevDt) && Level(clk) && Level(dt)
    ensures -1 <= m <= 1
  {
    IndexInRange(prevClk, prevDt, clk, dt);
    MotionTable[MotionIndex(prevClk, prevDt, clk, dt)]
  }

  /**
   * Where a level pair stands in the clockwise Gray-code cycle
   * 00 -> 10 -> 11 -> 01 -> 00 of (clk, dt).
   */
  function Phase(clk: int, dt: int): int
  {
    if clk == 0 && dt == 0 then 0
    else if clk == 1 && dt == 0 then 1
    else if clk == 1 && dt == 1 then 2
    else 3
  }

  /** The phase one clockwise step after p. */
  function Next(p: int): int
  {
    if p == 3 then 0 else p + 1
  }

  /**
   * The quadrature decoder written from the phases: +1 for one step
   * clockwise, -1 for one step back, 0 for staying put or a two-step jump,
   * whose direction cannot be told.
   */
  function Decoded(p: int, q: int): (m: int)
    requires 0 <= p < 4 && 0 <= q < 4
    ensures m == 1 <==> q == Next(p)
    ensures m == -1 <==> p == Next(q)
    ensures m == 0 <==> q == p || q == Next(Next(p))
  {
    if q == Next(p) then 1 else if p == Next(q) then -1 else 0
  }

  /** The table is that decoder: each entry is the move between the phases of its index. */
  lemma MotionIsQuadrature(prevClk: int, prevDt: int, clk: int, dt: int)
    requires Level(prevClk) && Level(prevDt) && Level(clk) && Level(dt)
    ensures Motion(prevClk, prevDt, clk, dt) == Decoded(Phase(prevClk, prevDt), Phase(clk, dt))
  {}

  /** Phase is a bijection from the four level pairs onto 0 to 3. */
  lemma PhaseBijective(clk: int, dt: int, clk': int, dt': int)
    requires Level(clk) && Level(dt) && Level(clk') && Level(dt')
    ensures 0 <= Phase(clk, dt) < 4
    ensures Phase(clk, dt) == Phase(clk', dt') <==> clk == clk' && dt == dt'
  {}

  /** Undoing a move undoes its count: the table is antisymmetric. */
  lemma MotionAntisymmetric(prevClk: int, prevDt: int, clk: int, dt: int)
    requires Level(prevClk) && Level(prevDt) && Level(clk) && Level(dt)
    ensures Motion(clk, dt, prevClk, prevDt) == -Motion(prevClk, prevDt, clk, dt)
  {
    MotionIsQuadrature(prevClk, prevDt, clk, dt);
    MotionIsQuadrature(clk, dt, prevClk, prevDt);
    PhaseBijective(clk, dt, prevClk, prevDt);
  }

  /** One full clockwise detent cycle counts four. */
  lemma ClockwiseCycle()
    ensures Motion(0, 0, 1, 0) + Motion(1, 0, 1, 1) + Motion(1, 1, 0, 1) + Motion(0, 1, 0, 0) == 4
  {}

  /** rotaryEncoderStruct: the position and the levels last read; the pins themselves are left out. */
  class Encoder {
    var counter: int
    var clkPrevious: int
    var dtPrevious: int

    ghost predicate Valid()
      reads this
    {
      Level(clkPrevious) && Level(dtPrevious)
    }

    /** initializePins' initial state: counter 0, previous levels read from the pins. */
    constructor (clk: int, dt: int)
      requires Level(clk) && Level(dt)
      ensures Valid() && counter == 0 && clkPrevious == clk && dtPrevious == dt
    {
      counter := 0;
      clkPrevious, dtPrevious := clk, dt;
    }

    /**
     * readEncoder with the two pin levels it reads: the counter moves by the
     * table value, which is returned, and the levels become the previous ones.
     */
    method ReadEncoder(clk: int, dt: int) returns (r: int)
      requires Valid() && Level(clk) && Level(dt)
      modifies this
      ensures Valid()
      ensures r == Motion(old(clkPrevious), old(dtPrevious), clk, dt) && -1 <= r <= 1
      ensures counter == old(counter) + r
      ensures clkPrevious == clk && dtPrevious == dt
    {
      var index := clkPrevious * 8 + dtPrevious * 4 + clk * 2 + dt;
      IndexInRange(clkPrevious, dtPrevious, clk, dt);
      counter := counter + MotionTable[index];
      clkPrevious := clk;
      dtPrevious := dt;
      return MotionTable[index];
    }
  }

  /** Two encoder readings, the second back at the levels before the first: the counter is as it was. */
  method MoveAndBack(e: Encoder, clk: int, dt: int)
    requires e.Valid() && Level(clk) && Level(dt)
    modifies e
    ensures e.Valid() && e.counter == old(e.counter)
    ensures e.clkPrevious == old(e.clkPrevious) && e.dtPrevious == old(e.dtPrevious)
  {
    var clk0, dt0 := e.clkPrevious, e.dtPrevious;
    var forward := e.ReadEncoder(clk, dt);
    var back := e.ReadEncoder(clk0, dt0);
    MotionAntisymmetric(clk0, dt0, clk, dt);
  }

  /** buttonStruct: the last reading and the changed flag; the pin is left out. */
  class Button {
    var state: int
    var changed: int

    /** The initialiser's state 0, changed 0. */
    constructor ()
      ensures state == 0 && changed == 0
    {
      state, changed := 0, 0;
    }

    /**
     * readButton with the level it reads: changed is 1 exactly when the level
     * differs from the stored state, which becomes the level; returns it.
     * A second equal reading therefore leaves changed 0.
     */
    method ReadButton(reading: int) returns (r: int)
      modifies this
      ensures r == reading && state == reading
      ensures changed == 0 || changed == 1
      ensures changed == 1 <==> old(state) != reading
    {
      changed := if state != reading then 1 else 0;
      state := reading;
      return reading;
    }
  }

  /** Two equal readings in a row: the second reports no change. */
  method ReadTwice(b: Button, reading: int) returns (r: int)
    modifies b
    ensures r == reading && b.state == reading && b.changed == 0
  {
    r := b.ReadButton(reading);
    r := b.ReadButton(reading);
  }

  // ---------------------------------------------------------------- the 7-segment display

  /** The rows of the states table, segments a to g, true for GPIO_PIN_SET. */
  const DigitTable: seq<seq<bool>> := [
    [true, true, true, true, true, true, false],      // 0
    [false, true, true, false, false, false, false],  // 1
    [true, true, false, true, true, false, true],     // 2
    [true, true, true, true, false, false, true],     // 3
    [false, true, true, false, false, true, true],    // 4
    [true, false, true, true, false, true, true],     // 5
    [true, false, true, true, true, true, true],      // 6
    [true, true, true, false, false, false, false],   // 7
    [true, true, true, true, true, true, true],       // 8
    [true, true, true, false, false, true, true]      // 9
  ]

  const SegmentCount: nat := 7

  /** The segments sevenSegmentDisplayNumber lights for number; the table has no range check. */
  function Segments(number: int): (s: seq<bool>)
    requires 0 <= number <= 9
    ensures |s| == SegmentCount
  {
    DigitTable[number]
  }

  /**
   * The digits that light each segment, a column of the table read as a set:
   * a is off for 1 and 4, b for 5 and 6, c only for 2, and so on.
   */
  function LitBy(segment: nat): set<int>
    requires segment < SegmentCount
  {
    [{0, 2, 3, 5, 6, 7, 8, 9},
     {0, 1, 2, 3, 4, 7, 8, 9},
     {0, 1, 3, 4, 5, 6, 7, 8, 9},
     {0, 2, 3, 5, 6, 8},
     {0, 2, 6, 8},
     {0, 4, 5, 6, 8, 9},
     {2, 3, 4, 5, 6, 8, 9}][segment]
  }

  /** Rows and columns agree: segment i is lit for number exactly when number lights it. */
  lemma SegmentsByColumn(number: int, segment: nat)
    requires 0 <= number <= 9 && segment < SegmentCount
    ensures Segments(number)[segment] <==> number in LitBy(segment)
  {}

  /** 8 lights every segment and 0 every segment but g. */
  lemma EightAndZero()
    ensures forall i :: 0 <= i < SegmentCount ==> Segments(8)[i]
    ensures forall i :: 0 <= i < SegmentCount ==> (Segments(0)[i] <==> i != 6)
  {}

  /** No two digits look the same. */
  lemma DigitsDistinct(m: int, n: int)
    requires 0 <= m <= 9 && 0 <= n <= 9 && Segments(m) == Segments(n)
    ensures m == n
  {
    forall k | 0 <= k < SegmentCount
      ensures m in LitBy(k) <==> n in LitBy(k)
    {
      SegmentsByColumn(m, k);
      SegmentsByColumn(n, k);
    }
  }

  /** The seven output pins a to g, as the levels last written to them. */
  class Display {
    const segments: array<bool>

    constructor ()
      ensures segments.Length == SegmentCount && fresh(segments)
    {
      segments := new bool[SegmentCount];
    }

    /** sevenSegmentDisplayNumber: each of the seven pins written from the table row of number. */
    method DisplayNumber(number: int)
      requires 0 <= number <= 9 && segments.Length == SegmentCount
      modifies segments
      ensures segments[..] == Segments(number)
    {
      var i := 0;
      while i < SegmentCount
        invariant 0 <= i <= SegmentCount
        invariant segments[..i] == Segments(number)[..i]
      {
        segments[i] := DigitTable[number][i];
        i := i + 1;
      }
    }
  }
}
