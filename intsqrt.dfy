/**
 * fastIntSqrt of math_functions.c: an approximate integer square root made of
 * six Newton passes `a := (a + x/a) / 2` from the guess `x >> 2`, on uint32.
 */
module IntSqrt {
  import opened Arith

  const Word: nat := 0x1_0000_0000   // 2^32, the range of uint32
  const PassCount: nat := 6

  /** The inputs on which the first division is defined: the guess `x >> 2` is 0 for x = 2 and x = 3. */
  predicate InDomain(x: nat) { x < 2 || x >= 4 }

  /** One Newton pass with divisor `a`. */
  function Pass(x: nat, a: nat): (r: nat)
    requires a >= 1
    ensures x >= 1 ==> r >= 1
  {
    (a + x / a) / 2
  }

  /** The guess after `n` passes from `a0`. */
  function Iterate(x: nat, a0: nat, n: nat): (r: nat)
    requires x >= 1 && a0 >= 1
    ensures r >= 1
  {
    if n == 0 then a0 else Pass(x, Iterate(x, a0, n - 1))
  }

  /** The result fastIntSqrt returns. */
  function Approx(x: nat): nat
    requires InDomain(x)
  {
    if x < 2 then x else Iterate(x, x / 4, PassCount)
  }

  /** Floor division: x lies below the next multiple of a. */
  lemma DivBelow(x: nat, a: nat)
    requires a >= 1
    ensures x < a * (x / a + 1)
  {
    assert x == a * (x / a) + x % a;
  }

  /** 2Ra - a^2 never exceeds R^2. */
  lemma Square(a: int, R: int)
    ensures a * (2 * R - a) <= R * R
  {
    assert R * R - a * (2 * R - a) == (R - a) * (R - a);
  }

  /**
   * A Newton pass from any positive guess never lands below the floor of the
   * square root: x < (r + 1)^2 (the integer form of the AM-GM inequality).
   */
  lemma PassLowerBound(x: nat, a: nat)
    requires x >= 1 && a >= 1
    ensures x < (Pass(x, a) + 1) * (Pass(x, a) + 1)
  {
    var q := x / a;
    var R := Pass(x, a) + 1;
    DivBelow(x, a);
    assert q + 1 <= 2 * R - a;
    MulMono(a, q + 1, 2 * R - a);
    Square(a, R);
  }

  /** Once a guess is above the floor of the square root, the quotient is at most two more. */
  lemma QuotientBound(x: nat, a: nat)
    requires a >= 1 && x < (a + 1) * (a + 1)
    ensures x / a <= a + 2
  {
    assert x == a * (x / a) + x % a;
    assert a * (x / a) <= a * (a + 2);
    MulCancel(a, x / a, a + 2);
  }

  /** The quotient of the first pass, from the guess x / 4. */
  lemma FirstQuotient(x: nat)
    requires x >= 4
    ensures x / (x / 4) <= 7
  {
    var a := x / 4;
    assert x == a * (x / a) + x % a;
    assert a * (x / a) <= a * 7;
    MulCancel(a, x / a, 7);
  }

  /** The last pass leaves a bound at or above the true square root. */
  lemma ApproxLowerBound(x: nat)
    requires x >= 4
    ensures x < (Approx(x) + 1) * (Approx(x) + 1)
  {
    PassLowerBound(x, Iterate(x, x / 4, PassCount - 1));
  }

  /** fastIntSqrt, with its uint32 locals as naturals that provably stay below 2^32. */
  method FastIntSqrt(x: nat) returns (r: nat)
    requires x < Word && InDomain(x)
    ensures r == Approx(x)
    ensures x < 2 ==> r == x
    ensures x >= 4 ==> x < (r + 1) * (r + 1)
    ensures r < Word
  {
    if x < 2 {
      return x;
    }
    var a := x / 4;
    var i := 0;
    while i < PassCount
      invariant 0 <= i <= PassCount
      invariant a >= 1 && a == Iterate(x, x / 4, i)
      invariant i == 0 ==> a == x / 4
      invariant i >= 1 ==> x < (a + 1) * (a + 1)
      invariant a <= x / 4 + 4 + i
    {
      var b := x / a;
      if i == 0 {
        FirstQuotient(x);
      } else {
        QuotientBound(x, a);
      }
      assert a + b < Word;  // the uint32 sum does not wrap around
      PassLowerBound(x, a);
      a := (a + b) / 2;
      i := i + 1;
    }
    return a;
  }

  /** The result is only an approximation: for 3599 (floor square root 59) it is 60, and 60 * 60 > 3599. */
  lemma NotAFloor()
    ensures Approx(3599) == 60 && 60 * 60 > 3599
  {
    assert Iterate(3599, 899, 1) == 451;
    assert Iterate(3599, 899, 2) == 229;
    assert Iterate(3599, 899, 3) == 122;
    assert Iterate(3599, 899, 4) == 75;
    assert Iterate(3599, 899, 5) == 61;
    assert Iterate(3599, 899, 6) == 60;
  }

  /**
   * Six passes are not enough for larger inputs: from the guess 10000 the
   * root of 40000 = 200^2 comes out as 233, more than 16% too large.
   */
  lemma FarAbove()
    ensures Approx(40000) == 233 && 200 * 200 == 40000 && 233 * 100 > 200 * 116
  {
    assert Iterate(40000, 10000, 1) == 5002;
    assert Iterate(40000, 10000, 2) == 2504;
    assert Iterate(40000, 10000, 3) == 1259;
    assert Iterate(40000, 10000, 4) == 645;
    assert Iterate(40000, 10000, 5) == 353;
    assert Iterate(40000, 10000, 6) == 233;
  }
}
