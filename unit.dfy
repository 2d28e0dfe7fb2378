/**
  The `Unit` quantity of the units library (unit.hpp): a payload together with
  a seven-exponent dimension and a rational scale `Num/Denom`.

  In C++ the dimension and the scale are template parameters and the result
  types of `*` and `/` are computed at compile time; here they are ordinary
  data carried next to the payload. The payload is the `int64_t`
  instantiation, as an unbounded `int`. `std::ratio`'s reduction to lowest
  terms is modelled by dividing numerator and denominator by `Gcd`.
*/
module Units {
  import opened GcdLcm

  /** Exponents of the seven base quantities. */
  datatype Dim = Dim(time: int, distance: int, luminance: int, temperature: int,
                     radians: int, amperes: int, mass: int)

  const Dimensionless := Dim(0, 0, 0, 0, 0, 0, 0)

  /** The rational factor `num/den` relating a payload to the base unit. */
  datatype Scale = Scale(num: nat, den: nat)
  {
    /** `std::ratio` is ill-formed with a zero denominator. */
    predicate Valid()
    {
      den > 0
    }

    predicate LowestTerms()
    {
      den > 0 && Gcd(num, den) == 1
    }

    /** The two fractions denote the same rational number (for nonzero denominators). */
    predicate SameRatio(other: Scale)
    {
      num * other.den == other.num * den
    }
  }

  /** A quantity: `value` many `scale` units of dimension `dim`. */
  datatype Unit = Unit(value: int, dim: Dim, scale: Scale)
  {
    predicate Valid()
    {
      scale.Valid()
    }

    /** `GetValue()`: the stored payload. */
    function GetValue(): int
    {
      value
    }

    /**
      `GetScale()`: an object of type `std::ratio<Num, Denom>`, whose `num` and
      `den` are `Num/Denom` in lowest terms.
    */
    function GetScale(): (r: Scale)
      requires Valid()
      ensures r.LowestTerms() && r.SameRatio(scale)
      ensures scale.LowestTerms() ==> r == scale
    {
      ReduceIdempotent(scale);
      Reduce(scale.num, scale.den)
    }
  }

  /** The unscaled dimensionless quantity 1. */
  const One := Unit(1, Dimensionless, Scale(1, 1))

  // ---------------------------------------------------------------------------
  // std::ratio reduction
  // ---------------------------------------------------------------------------

  /**
    `std::ratio<n, d>::num` and `::den` for unsigned `n` and positive `d`:
    both divided by their gcd. The result is the same rational number, in
    lowest terms, and a zero numerator gives `0/1`.
  */
  function Reduce(n: nat, d: nat): (r: Scale)
    requires d > 0
    ensures r.LowestTerms()
    ensures r.SameRatio(Scale(n, d))
    ensures n == 0 ==> r == Scale(0, 1)
  {
    DivideByGcd(n, d);
    DivideByGcdZero(d);
    var g := Gcd(n, d);
    Scale(n / g, d / g)
  }

  /** `n / gcd(n, d)` and `d / gcd(n, d)` form a fraction equal to `n/d` whose gcd is 1. */
  lemma DivideByGcd(n: nat, d: nat)
    requires d > 0
    ensures var g := Gcd(n, d);
      && g > 0 && n / g >= 0 && d / g > 0
      && Gcd(n / g, d / g) == 1
      && (n / g) * d == n * (d / g)
  {
    var g, a, b := GcdFactors(n, d);
    DivExact(n, g, a);
    DivExact(d, g, b);
  }

  /** `n == g * a` and `d == g * b` for `g == gcd(n, d)` and coprime `a` and `b`. */
  lemma GcdFactors(n: nat, d: nat) returns (g: nat, a: nat, b: nat)
    requires d > 0
    ensures g == Gcd(n, d) && g > 0 && b > 0 && n == g * a && d == g * b
    ensures Gcd(a, b) == 1 && a * d == n * b
  {
    GcdPositive(n, d);
    g := Gcd(n, d);
    GcdDivides(n, d);
    QuotientNonneg(n, g);
    QuotientNonneg(d, g);
    a, b := n / g, d / g;
    DividesMulBack(g, n);
    DividesMulBack(g, d);
    MulMonotone(g, b);
    assert Abs(n) == n && Abs(d) == d;
    CoprimeAfterDivision(n, d, g, a, b);
    assert a * (g * b) == (g * a) * b;
  }

  /** A zero numerator is divided by `gcd(0, d) == d`, leaving `0/1`. */
  lemma DivideByGcdZero(d: nat)
    requires d > 0
    ensures Gcd(0, d) == d && 0 / d == 0 && d / d == 1
  {
    assert Gcd(0, d) == Gcd(d, 0);
    DivExact(d, d, 1);
  }

  /** Two fractions in lowest terms that denote the same rational number are equal. */
  lemma LowestTermsUnique(r: Scale, s: Scale)
    requires r.LowestTerms() && s.LowestTerms() && r.SameRatio(s)
    ensures r == s
  {
    assert Times(r.den, s.num) == r.num * s.den;
    Euclid(r.num, r.den, s.den);
    assert Times(s.den, r.num) == s.num * r.den;
    Euclid(s.num, s.den, r.den);
    DividesLe(r.den, s.den);
    DividesLe(s.den, r.den);
    MulCancel(r.num, s.num, r.den);
  }

  /** `SameRatio` is transitive through a fraction with a nonzero denominator. */
  lemma SameRatioTrans(r: Scale, t: Scale, s: Scale)
    requires t.den > 0 && r.SameRatio(t) && t.SameRatio(s)
    ensures r.SameRatio(s)
  {
    MulCancel(r.num * s.den, s.num * r.den, t.den);
  }

  /** Reduction is canonical: it yields THE lowest-terms fraction equal to `n/d`. */
  lemma ReduceUnique(n: nat, d: nat, s: Scale)
    requires d > 0 && s.LowestTerms() && s.SameRatio(Scale(n, d))
    ensures Reduce(n, d) == s
  {
    var r := Reduce(n, d);
    SameRatioTrans(r, Scale(n, d), s);
    LowestTermsUnique(r, s);
  }

  /** Reducing a fraction already in lowest terms changes nothing. */
  lemma ReduceIdempotent(s: Scale)
    requires s.Valid()
    ensures s.LowestTerms() ==> Reduce(s.num, s.den) == s
  {
    if s.LowestTerms() {
      ReduceUnique(s.num, s.den, s);
    }
  }

  /**
    The scale of a product, `std::ratio<Num * Num2, Denom * Denom2>`: the
    product of the two ratios, in lowest terms.
  */
  function ScaleProduct(x: Scale, y: Scale): (r: Scale)
    requires x.Valid() && y.Valid()
    ensures r.LowestTerms()
    ensures r.SameRatio(Scale(x.num * y.num, x.den * y.den))
  {
    MulMonotone(x.den, y.den);
    Reduce(x.num * y.num, x.den * y.den)
  }

  /**
    The scale of a quotient, `std::ratio<Num * Denom2, Denom * Num2>`: the
    first ratio divided by the second, in lowest terms. The second ratio's
    numerator must be nonzero, or the denominator `Denom * Num2` is zero.
  */
  function ScaleQuotient(x: Scale, y: Scale): (r: Scale)
    requires x.Valid() && y.Valid() && y.num != 0
    ensures r.LowestTerms()
    ensures r.SameRatio(Scale(x.num * y.den, x.den * y.num))
  {
    MulMonotone(x.den, y.num);
    Reduce(x.num * y.den, x.den * y.num)
  }

  /** Products of ratios are associative once reduced. */
  lemma ScaleProductAssociative(x: Scale, y: Scale, z: Scale)
    requires x.Valid() && y.Valid() && z.Valid()
    ensures ScaleProduct(ScaleProduct(x, y), z) == ScaleProduct(x, ScaleProduct(y, z))
  {
    var xy, yz := ScaleProduct(x, y), ScaleProduct(y, z);
    var left, right := ScaleProduct(xy, z), ScaleProduct(x, yz);
    var whole := Scale(x.num * y.num * z.num, x.den * y.den * z.den);
    var viaLeft := Scale(xy.num * z.num, xy.den * z.den);
    var viaRight := Scale(x.num * yz.num, x.den * yz.den);
    ScaleTimesRight(xy, Scale(x.num * y.num, x.den * y.den), z);
    assert viaLeft.SameRatio(whole);
    MulMonotone(xy.den, z.den);
    SameRatioTrans(left, viaLeft, whole);
    ScaleTimesLeft(x, yz, Scale(y.num * z.num, y.den * z.den));
    Regroup3(x.num, y.num, z.num);
    Regroup3(x.den, y.den, z.den);
    assert viaRight.SameRatio(whole);
    MulMonotone(x.den, yz.den);
    SameRatioTrans(right, viaRight, whole);
    SameRatioSymmetric(right, whole);
    SameRatioTrans(left, whole, right);
    LowestTermsUnique(left, right);
  }

  /** Dividing a product of ratios by its second factor gives back the first factor, reduced. */
  lemma ScaleQuotientOfProduct(x: Scale, y: Scale)
    requires x.Valid() && y.Valid() && y.num != 0
    ensures ScaleQuotient(ScaleProduct(x, y), y) == Reduce(x.num, x.den)
  {
    var p := ScaleProduct(x, y);
    var q := ScaleQuotient(p, y);
    var s := Reduce(x.num, x.den);
    var m := Scale(p.num * y.den, p.den * y.num);
    CrossCancel(p.num, p.den, x.num, x.den, y.num, y.den);
    assert m.SameRatio(x);
    MulMonotone(p.den, y.num);
    SameRatioTrans(q, m, x);
    SameRatioSymmetric(s, x);
    SameRatioTrans(q, x, s);
    LowestTermsUnique(q, s);
  }

  // ---------------------------------------------------------------------------
  // Arithmetic helpers for the scale proofs
  // ---------------------------------------------------------------------------

  /** If `pn/pd == (xn * yn)/(xd * yd)` then `(pn * yd)/(pd * yn) == xn/xd`. */
  lemma CrossCancel(pn: int, pd: int, xn: int, xd: int, yn: int, yd: int)
    requires pn * (xd * yd) == (xn * yn) * pd
    ensures (pn * yd) * xd == xn * (pd * yn)
  {
  }

  /** Multiplication is associative. */
  lemma Regroup3(p: int, q: int, r: int)
    ensures p * (q * r) == p * q * r
  {
  }

  /** `SameRatio` is symmetric. */
  lemma SameRatioSymmetric(r: Scale, s: Scale)
    requires r.SameRatio(s)
    ensures s.SameRatio(r)
  {
  }

  /** Multiplying equal ratios by the same ratio on the right gives equal ratios. */
  lemma ScaleTimesRight(r: Scale, p: Scale, c: Scale)
    requires r.SameRatio(p)
    ensures Scale(r.num * c.num, r.den * c.den).SameRatio(Scale(p.num * c.num, p.den * c.den))
  {
  }

  /** Multiplying equal ratios by the same ratio on the left gives equal ratios. */
  lemma ScaleTimesLeft(c: Scale, r: Scale, p: Scale)
    requires r.SameRatio(p)
    ensures Scale(c.num * r.num, c.den * r.den).SameRatio(Scale(c.num * p.num, c.den * p.den))
  {
  }

  // ---------------------------------------------------------------------------
  // Payload arithmetic
  // ---------------------------------------------------------------------------

  /**
    `int64_t` division: the quotient truncated toward zero, so that the
    remainder `x - q * y` is smaller than `y` in absolute value and is zero or
    has the sign of `x`.
  */
  function TruncDiv(x: int, y: int): (q: int)
    requires y != 0
    ensures Abs(x - q * y) < Abs(y)
    ensures x - q * y == 0 || (x - q * y < 0 <==> x < 0)
  {
    var ax, ay := Abs(x), Abs(y);
    var aq := ax / ay;
    assert ax == aq * ay + ax % ay;
    if (x < 0) == (y < 0) then
      assert aq * y == (if y < 0 then -(aq * ay) else aq * ay);
      aq
    else
      assert (-aq) * y == (if y < 0 then aq * ay else -(aq * ay));
      -aq
  }

  /** Truncating division undoes multiplication. */
  lemma TruncDivExact(x: int, y: int)
    requires y != 0
    ensures TruncDiv(x * y, y) == x
  {
    var q := TruncDiv(x * y, y);
    assert (x - q) * y == x * y - q * y;
    MulAbs(x - q, y);
    MulMonotone(Abs(y), Abs(x - q));
  }

  // ---------------------------------------------------------------------------
  // operator* and operator/
  // ---------------------------------------------------------------------------

  /**
    `operator*`: every exponent is the sum of the operands' exponents, the
    scale is the product of the scales in lowest terms, and the payload is
    the product of the payloads.
  */
  function Mul(a: Unit, b: Unit): (r: Unit)
    requires a.Valid() && b.Valid()
    ensures r.Valid() && r.scale.LowestTerms()
    ensures r.scale.SameRatio(Scale(a.scale.num * b.scale.num, a.scale.den * b.scale.den))
    ensures r.dim.time == a.dim.time + b.dim.time
    ensures r.dim.distance == a.dim.distance + b.dim.distance
    ensures r.dim.luminance == a.dim.luminance + b.dim.luminance
    ensures r.dim.temperature == a.dim.temperature + b.dim.temperature
    ensures r.dim.radians == a.dim.radians + b.dim.radians
    ensures r.dim.amperes == a.dim.amperes + b.dim.amperes
    ensures r.dim.mass == a.dim.mass + b.dim.mass
    ensures r.value == a.value * b.value
  {
    var x, y := a.dim, b.dim;
    Unit(a.value * b.value,
         Dim(y.time + x.time, y.distance + x.distance, y.luminance + x.luminance,
             y.temperature + x.temperature, y.radians + x.radians,
             y.amperes + x.amperes, y.mass + x.mass),
         ScaleProduct(a.scale, b.scale))
  }

  /**
    `operator/`: Time and Distance exponents are subtracted but the other five
    are ADDED, exactly as the source computes them; the scale is the quotient
    of the scales in lowest terms (the divisor's numerator must be nonzero for
    `std::ratio` to be well-formed); the payload is the truncated quotient
    (the divisor's payload must be nonzero, integer division by zero being
    undefined).
  */
  function Div(a: Unit, b: Unit): (r: Unit)
    requires a.Valid() && b.Valid()
    requires b.scale.num != 0
    requires b.value != 0
    ensures r.Valid() && r.scale.LowestTerms()
    ensures r.scale.SameRatio(Scale(a.scale.num * b.scale.den, a.scale.den * b.scale.num))
    ensures r.dim.time == a.dim.time - b.dim.time
    ensures r.dim.distance == a.dim.distance - b.dim.distance
    ensures r.dim.luminance == a.dim.luminance + b.dim.luminance
    ensures r.dim.temperature == a.dim.temperature + b.dim.temperature
    ensures r.dim.radians == a.dim.radians + b.dim.radians
    ensures r.dim.amperes == a.dim.amperes + b.dim.amperes
    ensures r.dim.mass == a.dim.mass + b.dim.mass
    ensures r.value == TruncDiv(a.value, b.value)
  {
    var x, y := a.dim, b.dim;
    Unit(TruncDiv(a.value, b.value),
         Dim(x.time - y.time, x.distance - y.distance, x.luminance + y.luminance,
             x.temperature + y.temperature, x.radians + y.radians,
             x.amperes + y.amperes, x.mass + y.mass),
         ScaleQuotient(a.scale, b.scale))
  }

  // ---------------------------------------------------------------------------
  // Properties
  // ---------------------------------------------------------------------------

  /** Multiplication is commutative. */
  lemma MulCommutative(a: Unit, b: Unit)
    requires a.Valid() && b.Valid()
    ensures Mul(a, b) == Mul(b, a)
  {
    assert a.scale.num * b.scale.num == b.scale.num * a.scale.num;
    assert a.scale.den * b.scale.den == b.scale.den * a.scale.den;
  }

  /** Multiplication is associative, scale reduction included. */
  lemma MulAssociative(a: Unit, b: Unit, c: Unit)
    requires a.Valid() && b.Valid() && c.Valid()
    ensures Mul(Mul(a, b), c) == Mul(a, Mul(b, c))
  {
    ScaleProductAssociative(a.scale, b.scale, c.scale);
    Regroup3(a.value, b.value, c.value);
  }

  /**
    Multiplying by the unscaled dimensionless 1 keeps the dimension and the
    payload and reduces the scale; a scale already in lowest terms is kept.
  */
  lemma MulIdentity(u: Unit)
    requires u.Valid()
    ensures Mul(u, One) == Unit(u.value, u.dim, u.GetScale())
    ensures u.scale.LowestTerms() ==> Mul(u, One) == u
  {
    assert u.scale.num * 1 == u.scale.num && u.scale.den * 1 == u.scale.den;
  }

  /**
    A nonzero quantity divided by itself: payload 1, scale 1/1, Time and
    Distance exponents 0, but the other five exponents DOUBLED by the
    division rule as written.
  */
  lemma DivSelf(u: Unit)
    requires u.Valid() && u.scale.num != 0 && u.value != 0
    ensures Div(u, u) == Unit(1, Dim(0, 0, 2 * u.dim.luminance, 2 * u.dim.temperature,
                                     2 * u.dim.radians, 2 * u.dim.amperes, 2 * u.dim.mass),
                              Scale(1, 1))
  {
    var n, d := u.scale.num, u.scale.den;
    assert Gcd(1, 1) == Gcd(1, 0) == 1;
    assert Scale(1, 1).SameRatio(Scale(n * d, d * n));
    ReduceUnique(n * d, d * n, Scale(1, 1));
    assert u.value == 1 * u.value;
    TruncDivExact(1, u.value);
  }

  /**
    Dividing a product by one of its factors gives back the other factor's
    payload and reduced scale, but its dimension only when the divisor has
    no Luminance, Temperature, Radians, Amperes or Mass exponent: the division
    rule adds those instead of subtracting them.
  */
  lemma DivAfterMul(a: Unit, b: Unit)
    requires a.Valid() && b.Valid() && b.scale.num != 0 && b.value != 0
    ensures Div(Mul(a, b), b).value == a.value
    ensures Div(Mul(a, b), b).scale == a.GetScale()
    ensures Div(Mul(a, b), b).dim == a.dim <==>
              b.dim.luminance == 0 && b.dim.temperature == 0 && b.dim.radians == 0 &&
              b.dim.amperes == 0 && b.dim.mass == 0
  {
    TruncDivExact(a.value, b.value);
    ScaleQuotientOfProduct(a.scale, b.scale);
  }

  /** unit.cpp's product case, integer payloads: scale 5/7 value 2 times scale 2/3 value 3 is scale 10/21 value 6. */
  lemma ExampleProduct()
    ensures Mul(Unit(2, Dimensionless, Scale(5, 7)), Unit(3, Dimensionless, Scale(2, 3)))
            == Unit(6, Dimensionless, Scale(10, 21))
  {
    ProductScaleExample();
  }

  /** 5/7 times 2/3 is 10/21, already in lowest terms. */
  lemma ProductScaleExample()
    ensures ScaleProduct(Scale(5, 7), Scale(2, 3)) == Scale(10, 21)
  {
    assert Gcd(10, 21) == 1 by {
      assert Gcd(1, 0) == 1;
      assert Gcd(10, 1) == 1;
      assert Gcd(21, 10) == 1;
    }
    ReducedLiteral(10, 21);
    assert 5 * 2 == 10 && 7 * 3 == 21;
  }

  /** unit.cpp's quotient case, integer payloads: scale 15/14, and value 2/3 truncated to 0. */
  lemma ExampleQuotient()
    ensures Div(Unit(2, Dimensionless, Scale(5, 7)), Unit(3, Dimensionless, Scale(2, 3)))
            == Unit(0, Dimensionless, Scale(15, 14))
  {
    QuotientScaleExample();
    assert TruncDiv(2, 3) == 0;
  }

  /** 5/7 divided by 2/3 is 15/14, already in lowest terms. */
  lemma QuotientScaleExample()
    ensures ScaleQuotient(Scale(5, 7), Scale(2, 3)) == Scale(15, 14)
  {
    assert Gcd(15, 14) == 1 by {
      assert Gcd(1, 0) == 1;
      assert Gcd(14, 1) == 1;
    }
    ReducedLiteral(15, 14);
    assert 5 * 3 == 15 && 7 * 2 == 14;
  }

  /** `n/d` is its own reduction when `d` is positive and `gcd(n, d) == 1`. */
  lemma ReducedLiteral(n: nat, d: nat)
    requires d > 0 && Gcd(n, d) == 1
    ensures Reduce(n, d) == Scale(n, d)
  {
    ReduceUnique(n, d, Scale(n, d));
  }
}
