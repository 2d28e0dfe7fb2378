/**
  Integer helpers of the units library: absolute value, Euclid's greatest
  common divisor and the least common multiple built on it (gcd.hpp).

  The C++ functions are templates over any integral type; here they work on
  unbounded `int`, so `abs` of the most negative value and `m * n` overflow in
  `lcm` do not arise.
*/
module GcdLcm {

  /** `abs(i)`: `-i` when `i` is negative, `i` otherwise. */
  function Abs(i: int): (r: int)
    ensures r >= 0
    ensures r == i || r == -i
  {
    if i < 0 then -i else i
  }

  /** `k * q`, named so that divisibility has a trigger. */
  function Times(k: int, q: int): int
  {
    k * q
  }

  /** `k` divides `x`: some integer `q` has `k * q == x` (so only 0 is divided by 0). */
  ghost predicate Divides(k: int, x: int)
  {
    exists q :: Times(k, q) == x
  }

  /**
    `gcd(m, n)`: Euclid's recursion; stops when the second argument is zero and
    returns `abs(m)`. The recursion terminates because the new second argument
    `abs(m) % abs(n)` is smaller than `abs(n)`.
  */
  function Gcd(m: int, n: int): (r: int)
    ensures r >= 0
    decreases Abs(n)
  {
    if n == 0 then Abs(m) else Gcd(n, Abs(m) % Abs(n))
  }

  /** `lcm(m, n)`: zero when `m * n` is zero, otherwise `abs(m) / gcd(m, n) * abs(n)`. */
  function Lcm(m: int, n: int): (r: int)
    ensures r >= 0
  {
    if m * n == 0 then 0
    else
      GcdPositive(m, n);
      var g := Gcd(m, n);
      QuotientNonneg(Abs(m), g);
      (Abs(m) / g) * Abs(n)
  }

  // ---------------------------------------------------------------------------
  // Arithmetic facts about divisibility and division
  // ---------------------------------------------------------------------------

  /** Integer division of a non-negative `x` by a positive `k`. */
  lemma QuotientNonneg(x: int, k: int)
    requires x >= 0 && k > 0
    ensures x / k >= 0
  {
  }

  /** A nonzero multiple of a positive `k` is at least `k` in absolute value. */
  lemma MulMonotone(k: int, d: int)
    requires k > 0
    ensures d >= 1 ==> k * d >= k
    ensures d <= -1 ==> k * d <= -k
  {
  }

  /** Division with a known exact quotient. */
  lemma DivExact(x: int, k: int, q: int)
    requires k > 0 && x == k * q
    ensures x / k == q && x % k == 0
  {
    var d := x / k - q;
    assert k * d == -(x % k);
    MulMonotone(k, d);
  }

  /** Division by `k` undone by multiplying by `k` when `k` divides `x`. */
  lemma DividesMulBack(k: int, x: int)
    requires k > 0 && Divides(k, x)
    ensures k * (x / k) == x
  {
    var q :| Times(k, q) == x;
    DivExact(x, k, q);
  }

  /** `k` divides its multiples. */
  lemma DividesProduct(k: int, q: int)
    ensures Divides(k, k * q) && Divides(k, q * k)
  {
    assert Times(k, q) == k * q == q * k;
  }

  /** Divisibility only depends on the absolute values. */
  lemma DividesAbs(k: int, x: int)
    ensures Divides(k, x) <==> Divides(k, Abs(x))
    ensures Divides(k, x) <==> Divides(Abs(k), x)
  {
    if Divides(k, x) {
      var q :| Times(k, q) == x;
      assert Times(k, -q) == -x;
      assert Times(-k, -q) == x;
      assert Times(Abs(k), if Abs(k) == k then q else -q) == x;
      assert Times(k, if Abs(x) == x then q else -q) == Abs(x);
    }
    if Divides(k, Abs(x)) {
      var q :| Times(k, q) == Abs(x);
      assert Times(k, if Abs(x) == x then q else -q) == x;
    }
    if Divides(Abs(k), x) {
      var q :| Times(Abs(k), q) == x;
      assert Times(k, if Abs(k) == k then q else -q) == x;
    }
  }

  /** A common divisor of `x` and `y` divides `x - c * y`. */
  lemma DividesLinear(k: int, x: int, y: int, c: int)
    requires Divides(k, x) && Divides(k, y)
    ensures Divides(k, x - c * y)
  {
    var p :| Times(k, p) == x;
    var q :| Times(k, q) == y;
    calc {
      x - c * y;
      k * p - c * (k * q);
      { assert c * (k * q) == k * (c * q); }
      k * p - k * (c * q);
      k * (p - c * q);
    }
    assert Times(k, p - c * q) == x - c * y;
  }

  /** A positive multiple of a positive divisor is at least that divisor. */
  lemma DividesLe(k: int, x: int)
    requires k > 0 && x > 0 && Divides(k, x)
    ensures k <= x
  {
    var q :| Times(k, q) == x;
    assert k * q == k + k * (q - 1);
  }

  /** Multiplication by a positive factor can be cancelled. */
  lemma MulCancel(x: int, y: int, k: int)
    requires k > 0 && x * k == y * k
    ensures x == y
  {
    assert (x - y) * k == 0;
  }

  /** Scaling dividend and divisor by a positive `k` scales the remainder by `k`. */
  lemma ModScale(k: int, x: int, y: int)
    requires k > 0 && y > 0 && x >= 0
    ensures (k * x) % (k * y) == k * (x % y)
  {
    var q, r := x / y, x % y;
    assert x == y * q + r;
    assert k * x == (k * y) * q + k * r;
    assert 0 <= k * r < k * y;
    var d := (k * x) / (k * y) - q;
    assert (k * y) * d == k * r - (k * x) % (k * y);
    MulMonotone(k * y, d);
  }

  /** Regrouping a product of three factors. */
  lemma Regroup(g: int, a: int, p: int)
    ensures (g * a) * p == (a * p) * g
  {
  }

  /** Regrouping a product of four factors. */
  lemma Regroup4(g: int, a: int, b: int, t: int)
    ensures (g * a) * (b * t) == (a * (g * b)) * t
  {
  }

  // ---------------------------------------------------------------------------
  // gcd
  // ---------------------------------------------------------------------------

  /** `gcd(m, 0) == abs(m)`. */
  lemma GcdZeroRight(m: int)
    ensures Gcd(m, 0) == Abs(m)
  {
  }

  /** The recursion's measure strictly decreases: `abs(m) % abs(n) < abs(n)` for nonzero `n`. */
  lemma GcdStepDecreases(m: int, n: int)
    requires n != 0
    ensures 0 <= Abs(Abs(m) % Abs(n)) < Abs(n)
  {
  }

  /** `gcd(m, n)` divides both `m` and `n`. */
  lemma GcdDivides(m: int, n: int)
    ensures Divides(Gcd(m, n), m) && Divides(Gcd(m, n), n)
  {
    var p, q := GcdCofactors(m, n);
    assert Times(Gcd(m, n), p) == m;
    assert Times(Gcd(m, n), q) == n;
  }

  /** The cofactors `p` and `q` with `gcd(m, n) * p == m` and `gcd(m, n) * q == n`. */
  lemma {:induction false} GcdCofactors(m: int, n: int) returns (p: int, q: int)
    ensures Gcd(m, n) * p == m && Gcd(m, n) * q == n
    decreases Abs(n)
  {
    if n == 0 {
      p, q := if m < 0 then -1 else 1, 0;
    } else {
      var k, r := Abs(m) / Abs(n), Abs(m) % Abs(n);
      var p', q' := GcdCofactors(n, r);
      p := EuclidStep(m, n, Gcd(n, r), k, r, p', q');
      q := p';
    }
  }

  /**
    One step of Euclid's recursion read backwards: if `g` divides `n` and
    `r == abs(m) - k * abs(n)`, then `g` divides `m`, with the cofactor returned.
  */
  lemma EuclidStep(m: int, n: int, g: int, k: int, r: int, pn: int, pr: int) returns (p: int)
    requires Abs(m) == k * Abs(n) + r && g * pn == n && g * pr == r
    ensures g * p == m
  {
    var sm := if m < 0 then -1 else 1;
    var sn := if n < 0 then -1 else 1;
    assert Abs(n) == g * (sn * pn);
    assert k * (g * (sn * pn)) == g * (k * (sn * pn));
    assert Abs(m) == g * (k * (sn * pn) + pr);
    p := sm * (k * (sn * pn) + pr);
    assert g * p == sm * (g * (k * (sn * pn) + pr));
  }

  /** Every common divisor of `m` and `n` divides `gcd(m, n)`. */
  lemma {:induction false} GcdGreatest(m: int, n: int, k: int)
    requires Divides(k, m) && Divides(k, n)
    ensures Divides(k, Gcd(m, n))
    decreases Abs(n)
  {
    if n == 0 {
      DividesAbs(k, m);
    } else {
      var r := Abs(m) % Abs(n);
      DividesAbs(k, m);
      DividesAbs(k, n);
      DividesLinear(k, Abs(m), Abs(n), Abs(m) / Abs(n));
      assert Abs(m) - (Abs(m) / Abs(n)) * Abs(n) == r;
      GcdGreatest(n, r, k);
    }
  }

  /** The gcd is positive as soon as either argument is nonzero. */
  lemma GcdPositive(m: int, n: int)
    requires m != 0 || n != 0
    ensures Gcd(m, n) > 0
  {
    GcdDivides(m, n);
    var g := Gcd(m, n);
    if g == 0 {
      var p :| Times(g, p) == m;
      var q :| Times(g, q) == n;
      assert false;
    }
  }

  /** Homogeneity: `gcd(k * m, k * n) == k * gcd(m, n)` for `k >= 0`. */
  lemma {:induction false} GcdScale(k: int, m: int, n: int)
    requires k >= 0
    ensures Gcd(k * m, k * n) == k * Gcd(m, n)
    decreases Abs(n)
  {
    if k == 0 {
      assert k * m == 0 && k * n == 0;
    } else if n == 0 {
      assert k * n == 0;
      assert Abs(k * m) == k * Abs(m);
    } else {
      assert k * n != 0;
      assert Abs(k * m) == k * Abs(m) && Abs(k * n) == k * Abs(n);
      ModScale(k, Abs(m), Abs(n));
      assert Gcd(k * m, k * n) == Gcd(k * n, k * (Abs(m) % Abs(n)));
      GcdScale(k, n, Abs(m) % Abs(n));
    }
  }

  /**
    Euclid's lemma: if `b` divides `a * c` and `a` and `b` have no common factor,
    then `b` divides `c`.
  */
  lemma Euclid(a: int, b: int, c: int)
    requires Gcd(a, b) == 1 && Divides(b, a * c)
    ensures Divides(b, c)
  {
    DividesAbs(b, a * c);
    MulAbs(a, c);
    DividesAbs(b, Abs(a) * Abs(c));
    GcdAbs(a, b);
    EuclidNonneg(Abs(a), Abs(b), Abs(c));
    DividesAbs(b, Abs(c));
    DividesAbs(b, c);
  }

  /** Euclid's lemma for non-negative `c`, from `gcd(c * a, c * b) == c * gcd(a, b) == c`. */
  lemma EuclidNonneg(a: int, b: int, c: int)
    requires Gcd(a, b) == 1 && c >= 0 && Divides(b, a * c)
    ensures Divides(b, c)
  {
    GcdScale(c, a, b);
    assert Gcd(c * a, c * b) == c;
    DividesProduct(b, c);
    assert c * a == a * c;
    GcdGreatest(c * a, c * b, b);
  }

  // ---------------------------------------------------------------------------
  // lcm
  // ---------------------------------------------------------------------------

  /** Nonzero integers have a nonzero product, whose absolute value is the product of theirs. */
  lemma MulAbs(m: int, n: int)
    ensures Abs(m * n) == Abs(m) * Abs(n)
    ensures m != 0 && n != 0 ==> m * n != 0
  {
    if m != 0 && n != 0 {
      MulMonotone(Abs(m), Abs(n));
    }
  }

  /** `lcm(m, n)` is zero exactly when one of its arguments is zero. */
  lemma LcmZero(m: int, n: int)
    ensures Lcm(m, n) == 0 <==> m == 0 || n == 0
  {
    if m != 0 && n != 0 {
      var g, a, b := LcmShape(m, n);
      MulMonotone(a, Abs(n));
    }
  }

  /**
    For nonzero `m` and `n`: with `g == gcd(m, n)`, `abs(m) == g * a` and
    `abs(n) == g * b` for coprime positive `a` and `b`, and `lcm(m, n) == a * abs(n)`.
  */
  lemma LcmShape(m: int, n: int) returns (g: int, a: int, b: int)
    requires m != 0 && n != 0
    ensures g == Gcd(m, n) && g > 0
    ensures a > 0 && b > 0 && Abs(m) == g * a && Abs(n) == g * b
    ensures Gcd(a, b) == 1
    ensures Lcm(m, n) == a * Abs(n)
  {
    GcdPositive(m, n);
    g := Gcd(m, n);
    GcdDivides(m, n);
    DividesAbs(g, m);
    DividesAbs(g, n);
    a := Abs(m) / g;
    b := Abs(n) / g;
    DividesMulBack(g, Abs(m));
    DividesMulBack(g, Abs(n));
    MulMonotone(g, a);
    MulMonotone(g, b);
    CoprimeAfterDivision(m, n, g, a, b);
    LcmValue(m, n, g, a);
  }

  /** Dividing both arguments by their gcd leaves arguments whose gcd is 1. */
  lemma CoprimeAfterDivision(m: int, n: int, g: int, a: int, b: int)
    requires g == Gcd(m, n) && g > 0 && Abs(m) == g * a && Abs(n) == g * b
    ensures Gcd(a, b) == 1
  {
    var c := Gcd(a, b);
    GcdScale(g, a, b);
    GcdAbs(m, n);
    assert g * c == g;
    MulCancel(c, 1, g);
  }

  /** `lcm(m, n)` unfolded once the quotient `abs(m) / gcd(m, n)` is known. */
  lemma LcmValue(m: int, n: int, g: int, a: int)
    requires m != 0 && n != 0
    requires g == Gcd(m, n) && g > 0 && Abs(m) == g * a
    ensures Lcm(m, n) == a * Abs(n)
  {
    MulAbs(m, n);
    DivExact(Abs(m), g, a);
  }

  /**
    For nonzero `m` and `n`, `lcm(m, n)` is a positive common multiple of both,
    and `gcd(m, n) * lcm(m, n) == abs(m * n)`.
  */
  lemma LcmCommonMultiple(m: int, n: int)
    requires m != 0 && n != 0
    ensures Lcm(m, n) > 0
    ensures Divides(m, Lcm(m, n)) && Divides(n, Lcm(m, n))
    ensures Gcd(m, n) * Lcm(m, n) == Abs(m * n)
  {
    var g, a, b := LcmShape(m, n);
    CommonMultiple(m, n, g, a, b, Lcm(m, n));
  }

  /** `a * abs(n)` is a positive common multiple of `m == ±g * a` and `n == ±g * b`. */
  lemma CommonMultiple(m: int, n: int, g: int, a: int, b: int, l: int)
    requires g > 0 && a > 0 && b > 0 && Abs(m) == g * a && Abs(n) == g * b
    requires l == a * Abs(n)
    ensures l > 0 && Divides(m, l) && Divides(n, l) && g * l == Abs(m * n)
  {
    MulMonotone(a, Abs(n));
    assert Times(Abs(n), a) == l;
    DividesAbs(n, l);
    assert l == (g * a) * b by {
      Regroup4(g, a, b, 1);
    }
    assert Times(Abs(m), b) == l;
    DividesAbs(m, l);
    assert g * l == Abs(m) * Abs(n) by {
      assert g * (a * Abs(n)) == (g * a) * Abs(n);
    }
    MulAbs(m, n);
  }

  /** Every common multiple of nonzero `m` and `n` is a multiple of `lcm(m, n)`. */
  lemma LcmLeast(m: int, n: int, x: int)
    requires m != 0 && n != 0
    requires Divides(m, x) && Divides(n, x)
    ensures Divides(Lcm(m, n), x)
  {
    var g, a, b := LcmShape(m, n);
    LeastCommonMultiple(m, n, x, g, a, b, Lcm(m, n));
  }

  /** A common multiple of `m == ±g * a` and `n == ±g * b`, with `a` and `b` coprime, is a multiple of `a * abs(n)`. */
  lemma LeastCommonMultiple(m: int, n: int, x: int, g: int, a: int, b: int, l: int)
    requires g > 0 && a > 0 && b > 0 && Abs(m) == g * a && Abs(n) == g * b
    requires Gcd(a, b) == 1 && l == a * Abs(n)
    requires Divides(m, x) && Divides(n, x)
    ensures Divides(l, x)
  {
    var p := Cofactor(m, x);
    var s := Cofactor(n, x);
    // b divides a * p, since g * b * s == g * a * p
    Regroup(g, b, s);
    Regroup(g, a, p);
    MulCancel(b * s, a * p, g);
    assert Times(b, s) == a * p;
    Euclid(a, b, p);
    var t :| Times(b, t) == p;
    // abs(x) == g * a * b * t == l * t
    Regroup4(g, a, b, t);
    assert Times(l, t) == Abs(x);
    DividesAbs(l, x);
  }

  /** The non-negative `p` with `abs(x) == abs(k) * p`, for a nonzero divisor `k` of `x`. */
  lemma Cofactor(k: int, x: int) returns (p: int)
    requires k != 0 && Divides(k, x)
    ensures p >= 0 && Abs(x) == Abs(k) * p
  {
    DividesAbs(k, x);
    DividesAbs(Abs(k), x);
    DividesAbs(Abs(k), Abs(x));
    p :| Times(Abs(k), p) == Abs(x);
    MulMonotone(Abs(k), p);
  }

  /** The gcd only depends on the absolute values of its arguments. */
  lemma GcdAbs(m: int, n: int)
    ensures Gcd(Abs(m), Abs(n)) == Gcd(m, n)
  {
    if n != 0 {
      assert Abs(Abs(m)) == Abs(m) && Abs(Abs(n)) == Abs(n);
      GcdDivides(m, n);
      GcdDivides(Abs(m), Abs(n));
      var g, h := Gcd(m, n), Gcd(Abs(m), Abs(n));
      DividesAbs(g, m);
      DividesAbs(g, n);
      GcdGreatest(Abs(m), Abs(n), g);
      DividesAbs(h, m);
      DividesAbs(h, n);
      GcdGreatest(m, n, h);
      GcdPositive(m, n);
      GcdPositive(Abs(m), Abs(n));
      DividesLe(g, h);
      DividesLe(h, g);
    }
  }
}
