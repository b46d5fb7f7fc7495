/** The six target curves of the "uplifting shape" reorder: `equation_y`,
    nested in `rearrange_to_shape`. Python floats are modelled as exact reals;
    the coefficients 27/2 and 11/2 are exact in both. */
module Curves {

  /** `equation_y(x, equation_number, t)`: a polynomial in `u = x / t`.
      Selectors 1..5 pick a curve; every other selector falls through to the
      negative cubic. Python raises ZeroDivisionError for `t == 0`. */
  function EquationY(x: real, equationNumber: int, t: real): real
    requires t != 0.0
  {
    var u := x / t;
    if equationNumber == 1 then u
    else if equationNumber == 2 then -u + 1.0
    else if equationNumber == 3 then 4.0 * u * u - 4.0 * u + 1.0
    else if equationNumber == 4 then -4.0 * u * u + 4.0 * u
    else if equationNumber == 5 then 9.0 * u * u * u - (27.0 / 2.0) * u * u + (11.0 / 2.0) * u
    else -9.0 * u * u * u + (27.0 / 2.0) * u * u - (11.0 / 2.0) * u + 1.0
  }

  /** A selector outside 1..5 (including 0, negatives and 7 up) is treated as 6. */
  lemma OtherSelectorsAreNegativeCubic(x: real, equationNumber: int, t: real)
    requires t != 0.0 && !(1 <= equationNumber <= 5)
    ensures EquationY(x, equationNumber, t) == EquationY(x, 6, t)
  {
  }

  /** Each negative curve is its positive partner turned upside down: 1 - f. */
  lemma NegativeCurvesMirrorPositive(x: real, t: real)
    requires t != 0.0
    ensures EquationY(x, 2, t) == 1.0 - EquationY(x, 1, t)
    ensures EquationY(x, 4, t) == 1.0 - EquationY(x, 3, t)
    ensures EquationY(x, 6, t) == 1.0 - EquationY(x, 5, t)
  {
  }

  /** The positive parabola is the square (2u - 1)^2: it is positive except at
      u = 1/2, where it touches 0; the negative parabola peaks there at 1. */
  lemma ParabolaIsSquare(x: real, t: real)
    requires t != 0.0
    ensures EquationY(x, 3, t) == (2.0 * (x / t) - 1.0) * (2.0 * (x / t) - 1.0)
    ensures x / t == 0.5 ==> EquationY(x, 3, t) == 0.0 && EquationY(x, 4, t) == 1.0
    ensures x / t != 0.5 ==> EquationY(x, 3, t) > 0.0 && EquationY(x, 4, t) < 1.0
  {
    var u := x / t;
    var w := 2.0 * u - 1.0;
    NegativeCurvesMirrorPositive(x, t);
    if u != 0.5 {
      Square(w);
      calc {
        EquationY(x, 3, t);
      ==
        w * w;
      >
        0.0;
      }
    }
  }

  /** Reading the curves from the right end: the linear curves swap, the
      parabolas are symmetric about u = 1/2 and the cubics are point-symmetric
      about (1/2, 1/2). */
  lemma CurvesUnderReflection(x: real, t: real)
    requires t != 0.0
    ensures EquationY(t - x, 1, t) == EquationY(x, 2, t)
    ensures EquationY(t - x, 3, t) == EquationY(x, 3, t)
    ensures EquationY(t - x, 4, t) == EquationY(x, 4, t)
    ensures EquationY(t - x, 5, t) == 1.0 - EquationY(x, 5, t)
    ensures EquationY(t - x, 6, t) == 1.0 - EquationY(x, 6, t)
  {
    ReflectedQuotient(x, t);
  }

  lemma ReflectedQuotient(x: real, t: real)
    requires t != 0.0
    ensures (t - x) / t == 1.0 - x / t
  {
    var u, w := x / t, (t - x) / t;
    assert u * t == x && w * t == t - x;
    assert (w - (1.0 - u)) * t == 0.0;
    if w != 1.0 - u {
      NonZeroProduct(w - (1.0 - u), t);
    }
  }

  /** Values at the middle and at the right end of the curves. */
  lemma BoundaryValues(t: real)
    requires t != 0.0
    ensures EquationY(t / 2.0, 3, t) == 0.0 && EquationY(t / 2.0, 4, t) == 1.0
    ensures EquationY(t / 2.0, 5, t) == 0.5 && EquationY(t / 2.0, 6, t) == 0.5
    ensures EquationY(t, 1, t) == 1.0 && EquationY(t, 2, t) == 0.0
    ensures EquationY(t, 5, t) == 1.0 && EquationY(t, 6, t) == 0.0
  {
    assert (t / 2.0) / t == 0.5;
    assert t / t == 1.0;
  }

  /** The positive line rises and the negative line falls strictly in x. */
  lemma LinearCurvesAreStrictlyMonotone(x: real, y: real, t: real)
    requires t > 0.0 && x < y
    ensures EquationY(x, 1, t) < EquationY(y, 1, t)
    ensures EquationY(x, 2, t) > EquationY(y, 2, t)
  {
    assert (x / t) * t == x && (y / t) * t == y;
  }

  /** For `0 <= x <= t` every curve stays within [0, 1]. */
  lemma CurvesStayInUnitInterval(x: real, equationNumber: int, t: real)
    requires t > 0.0 && 0.0 <= x <= t
    ensures 0.0 <= EquationY(x, equationNumber, t) <= 1.0
  {
    assert 0.0 <= x / t <= 1.0 by {
      assert (x / t) * t == x;
    }
    NegativeCurvesMirrorPositive(x, t);
    if equationNumber == 3 || equationNumber == 4 {
      ParabolaBetweenZeroAndOne(x, t);
    } else if !(equationNumber == 1 || equationNumber == 2) {
      CubicBetweenZeroAndOne(x, t);
      if equationNumber != 5 {
        OtherSelectorsAreNegativeCubic(x, equationNumber, t);
      }
    }
  }

  /** 0 <= (2u - 1)^2 <= 1 on [0, 1], since 1 - (2u - 1)^2 = (2 - 2u) * 2u. */
  lemma ParabolaBetweenZeroAndOne(x: real, t: real)
    requires t != 0.0 && 0.0 <= x / t <= 1.0
    ensures 0.0 <= EquationY(x, 3, t) <= 1.0
  {
    var u := x / t;
    Square(2.0 * u - 1.0);
    ProductOfNonNegatives(2.0 - 2.0 * u, 2.0 * u);
    calc {
      EquationY(x, 3, t);
    ==
      (2.0 * u - 1.0) * (2.0 * u - 1.0);
    >=
      0.0;
    }
    calc {
      EquationY(x, 3, t);
    ==
      1.0 - (2.0 - 2.0 * u) * (2.0 * u);
    <=
      1.0;
    }
  }

  /** The positive cubic is u * q(u) and one minus it is (1 - u) * q(1 - u),
      where q(u) = 9 (u - 3/4)^2 + 7/16 is positive everywhere. */
  lemma CubicBetweenZeroAndOne(x: real, t: real)
    requires t != 0.0 && 0.0 <= x / t <= 1.0
    ensures 0.0 <= EquationY(x, 5, t) <= 1.0
  {
    var u := x / t;
    var q, q' := 9.0 * (u - 0.75) * (u - 0.75) + 7.0 / 16.0, 9.0 * (0.25 - u) * (0.25 - u) + 7.0 / 16.0;
    Square(u - 0.75);
    Square(0.25 - u);
    ProductOfNonNegatives(u, q);
    ProductOfNonNegatives(1.0 - u, q');
    calc {
      EquationY(x, 5, t);
    ==
      u * q;
    >=
      0.0;
    }
    calc {
      EquationY(x, 5, t);
    ==
      1.0 - (1.0 - u) * q';
    <=
      1.0;
    }
  }

  lemma ProductOfNonNegatives(a: real, b: real)
    requires a >= 0.0 && b >= 0.0
    ensures a * b >= 0.0
  {
  }

  lemma Square(a: real)
    ensures a * a >= 0.0
    ensures a != 0.0 ==> a * a > 0.0
  {
    if a < 0.0 {
      assert a * a == (-a) * (-a);
    }
  }

  lemma NonZeroProduct(a: real, b: real)
    requires a != 0.0 && b != 0.0
    ensures a * b != 0.0
  {
    if a > 0.0 && b > 0.0 { assert a * b > 0.0; }
    else if a < 0.0 && b > 0.0 { assert (-a) * b > 0.0; }
    else if a > 0.0 && b < 0.0 { assert a * (-b) > 0.0; }
    else { assert (-a) * (-b) > 0.0; }
  }
}
