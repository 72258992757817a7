/**
 * The 16.16 fixed-point stepping shared by drawLine and drawThickLine.  The
 * loop adds `gradient` to `subPixel` once per step of the major axis and, when
 * `subPixel` reaches 2^16, moves the minor axis by one and subtracts 2^16.
 * Frac and Carries follow that loop step by step; ClosedForm proves that after
 * k steps `subPixel` is (k * gradient) mod 2^16 and the minor axis has moved
 * (k * gradient) div 2^16 times, and the other lemmas are what the stepping
 * loop relies on and promises.
 */
module Stepper {
  import opened Arith

  const One: nat := 65536   // 2 << 15, one whole pixel in 16.16

  /** `(minor << 16) / major` on non-negative int32 values: the slope in 16.16. */
  function Gradient(minor: nat, major: nat): nat
    requires major >= 1
  {
    Quotient(minor * One, major)
  }

  /** The model's own definition of division, as repeated subtraction; `QuotientValue` shows it is `/`. */
  function Quotient(n: nat, d: nat): nat
    requires d >= 1
    decreases n
  {
    if n < d then 0 else 1 + Quotient(n - d, d)
  }

  lemma {:induction false} QuotientValue(n: nat, d: nat)
    requires d >= 1
    ensures Quotient(n, d) == n / d
    decreases n
  {
    if n < d {
      DivUnique(n, d, 0, n);
    } else {
      QuotientValue(n - d, d);
      DivUnique(n, d, (n - d) / d + 1, (n - d) % d);
    }
  }

  lemma GradientValue(minor: nat, major: nat)
    requires major >= 1
    ensures Gradient(minor, major) == (minor * One) / major
  {
    QuotientValue(minor * One, major);
  }

  /** `subPixel` after k steps: add the gradient, drop a whole pixel when one is reached. */
  function Frac(k: nat, g: nat): nat
  {
    if k == 0 then 0
    else if Frac(k - 1, g) + g >= One then Frac(k - 1, g) + g - One
    else Frac(k - 1, g) + g
  }

  /** The number of whole pixels the minor axis has moved after k steps. */
  function Carries(k: nat, g: nat): nat
  {
    if k == 0 then 0
    else if Frac(k - 1, g) + g >= One then Carries(k - 1, g) + 1
    else Carries(k - 1, g)
  }

  /** `origin` moved n pixels in direction `dir` (+1 or -1): `origin + dir * n`. */
  function Toward(origin: int, dir: int, n: nat): int
  {
    if dir < 0 then origin - n else origin + n
  }

  /**
   * With a gradient of at most one pixel, the stepped fraction and carry count
   * are the remainder and quotient of k * gradient by 2^16: the loop computes
   * the exact fixed-point product without multiplying.
   */
  lemma {:induction false} ClosedForm(k: nat, g: nat)
    requires g <= One
    ensures Frac(k, g) == (k * g) % One && Carries(k, g) == (k * g) / One
  {
    if k != 0 {
      ClosedForm(k - 1, g);
      var q, s := Carries(k - 1, g), Frac(k - 1, g);
      assert (k - 1) * g == q * One + s;
      assert k * g == q * One + s + g;
      if s + g >= One {
        DivUnique(k * g, One, q + 1, s + g - One);
      } else {
        DivUnique(k * g, One, q, s + g);
      }
    }
  }

  /** `subPixel` stays a fraction of a pixel. */
  lemma {:induction false} FracBound(k: nat, g: nat)
    requires g <= One
    ensures Frac(k, g) < One
  {
    if k != 0 {
      FracBound(k - 1, g);
    }
  }

  /** `(uint8_t)((subPixel >> 8) & 0xFF)`: the opacity of the pixel the line is moving towards. */
  function Alpha(k: nat, g: nat): bv8
  {
    ToByte(Frac(k, g) / 256 % 256)
  }

  /**
   * The model's own definition of the cast of a value below 256 to a byte,
   * by counting; `ToByteValue` shows it is the cast.
   */
  function ToByte(n: nat): bv8
    requires n < 256
  {
    if n == 0 then 0 else ToByte(n - 1) + 1
  }

  lemma {:induction false} ToByteValue(n: nat)
    requires n < 256
    ensures ToByte(n) as int == n
  {
    if n != 0 {
      ToByteValue(n - 1);
    }
  }

  /** The opacity is the upper byte of the 16-bit fraction. */
  lemma AlphaValue(k: nat, g: nat)
    requires g <= One
    ensures Alpha(k, g) as int == Frac(k, g) / 256
  {
    var f := Frac(k, g);
    FracBound(k, g);
    assert f / 256 < 256;
    assert f / 256 % 256 == f / 256;
    ToByteValue(f / 256);
  }

  /** The gradient is a fraction of a pixel. It is a whole pixel only along the diagonal. */
  lemma GradientBound(minor: nat, major: nat)
    requires 1 <= major && minor <= major
    ensures Gradient(minor, major) <= One
    ensures Gradient(minor, major) == One <==> minor == major
  {
    GradientValue(minor, major);
    if minor < major {
      var g := Gradient(minor, major);
      assert minor * One < major * One;
      assert minor * One == g * major + (minor * One) % major;
      if One <= g {
        MulMono(major, One, g);
      }
    } else {
      DivUnique(minor * One, major, One, 0);
    }
  }

  /** The minor axis moves by 0 or 1 pixel per step. */
  lemma MinorStep(k: nat, g: nat)
    ensures Carries(k + 1, g) - Carries(k, g) in {0, 1}
  {}

  /** The two opacities drawn on either side of the line, `alpha` and `alpha ^ 255`, add up to 255. */
  lemma AlphaPair(k: nat, g: nat)
    ensures Alpha(k, g) as int + (Alpha(k, g) ^ 255) as int == 255
  {
    var a := Alpha(k, g);
    assert a ^ 255 == 255 - a;
  }

  /**
   * After `major` steps the minor axis has moved `minor` pixels, or one fewer
   * when the gradient was rounded down: the stepped line does not drift from
   * its far endpoint by more than a pixel.  This says where the stepping
   * arithmetic would land, not a pass the loops run: drawLine and
   * drawThickLine run only `major - 1` passes and write the far end pixel
   * separately.
   */
  lemma Reach(minor: nat, major: nat)
    requires 1 <= major < One && minor <= major
    ensures minor - 1 <= Carries(major, Gradient(minor, major)) <= minor
  {
    GradientBound(minor, major);
    ClosedForm(major, Gradient(minor, major));
    Rounded(minor, major);
  }

  /** The fixed-point product `major * gradient` lies within one pixel below `minor`. */
  lemma Rounded(minor: nat, major: nat)
    requires 1 <= major < One && minor <= major
    ensures minor - 1 <= (major * Gradient(minor, major)) / One <= minor
  {
    GradientValue(minor, major);
    var g := Gradient(minor, major);
    var n := minor * One;
    assert n == g * major + n % major;
    assert major * g <= n;
    assert major * g > n - major;
    assert n - major > (minor - 1) * One;
    DivLower(major * g, (minor - 1) * One);
    DivUpper(major * g, minor);
  }

  lemma DivLower(m: nat, lo: int)
    requires lo < m
    ensures (lo / One) <= m / One
  {}

  lemma DivUpper(m: nat, minor: nat)
    requires m <= minor * One
    ensures m / One <= minor
  {}
}
