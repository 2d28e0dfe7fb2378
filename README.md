# cppunits: the `Unit` quantity and its gcd helpers, in Dafny

cppunits is a header-only C++ library for compile-time dimensional
analysis. A `Unit<ValueType, Time, Distance, Luminance, Temperature, Radians,
Amperes, Mass, Num, Denom>` holds one payload. Its type carries the seven
exponents of the physical dimension and a rational scale `Num/Denom`.
`operator*` and `operator/` compute the result's dimension and scale at
compile time and combine the payloads at run time. `std::ratio` keeps the
scales in lowest terms. `abs`, `gcd` and `lcm` are the library's integer
helpers.

This project models those two headers:

- `gcd.dfy`, module `GcdLcm` (gcd.hpp): `Abs`, Euclid's `Gcd` and `Lcm` on
  unbounded integers. It proves that `Gcd` is a greatest common divisor
  (it divides both arguments, and every common divisor divides it). It
  proves that `Lcm` is the least common multiple and that
  `gcd * lcm == |m * n|`. It also proves the lemmas the reduction needs:
  homogeneity `gcd(k*m, k*n) == k * gcd(m, n)` and Euclid's lemma.
- `unit.dfy`, module `Units` (unit.hpp): the type-level data becomes runtime
  data. `Dim` holds the seven exponents, `Scale(num, den)` the ratio, and
  `Unit(value, dim, scale)` the quantity. `Reduce` models `std::ratio`'s
  lowest-terms reduction by dividing both parts by `Gcd`. It is proved to give
  the same rational number, in lowest terms, and to be the only such fraction.
  `Mul` and `Div` model `operator*` and `operator/`. The payload is the
  `int64_t` instantiation, as an unbounded `int`. Integer division truncates
  toward zero (`TruncDiv`), as C++ does.

Division keeps the header's exponent rule as written. Time and Distance are
subtracted, but Luminance, Temperature, Radians, Amperes and Mass are
**added** (unit.hpp:30). `DivSelf` and `DivAfterMul` state what follows from
that rule. `x / x` doubles those five exponents. `(a * b) / b` has `a`'s
dimension exactly when `b` has none of those five exponents.

unit.cpp also calls `operator+`, `operator-`, `operator==`, `GetNum` and
`GetDen`. The unit.hpp modelled here defines none of them, so the model
follows the header. `std::ratio<0, D>` is well-formed, so `Scale.num` is a
`nat` and 0 is allowed.

Construction and `GetValue` (unit.hpp:12-16) are the `Unit` datatype
constructor and its `value` field: they store and return the payload by
definition. The scale part of that interface is `Units.Unit.GetScale`.

## Model

| member | source | states |
|---|---|---|
| `GcdLcm.Abs` | gcd.hpp:12-14 | the result is non-negative and equals `i` or `-i` |
| `GcdLcm.Gcd` | gcd.hpp:16-18 | the result is non-negative; the recursion terminates because `abs(n)` strictly decreases |
| `GcdLcm.GcdZeroRight` | gcd.hpp:18 | `gcd(m, 0) == abs(m)` |
| `GcdLcm.GcdStepDecreases` | gcd.hpp:18 | for nonzero `n`, the next second argument `abs(m) % abs(n)` lies in `[0, abs(n))` |
| `GcdLcm.GcdCofactors` | gcd.hpp:16-18 | gives integers `p`, `q` with `gcd(m, n) * p == m` and `gcd(m, n) * q == n` (by induction on the recursion) |
| `GcdLcm.GcdDivides` | gcd.hpp:16-18 | `gcd(m, n)` divides both `m` and `n` |
| `GcdLcm.GcdGreatest` | gcd.hpp:16-18 | every common divisor of `m` and `n` divides `gcd(m, n)` |
| `GcdLcm.GcdPositive` | gcd.hpp:18 | `gcd(m, n) > 0` when `m` or `n` is nonzero |
| `GcdLcm.GcdScale` | gcd.hpp:18 | `gcd(k*m, k*n) == k * gcd(m, n)` for `k >= 0` |
| `GcdLcm.GcdAbs` | gcd.hpp:18 | `gcd` depends only on the absolute values of its arguments |
| `GcdLcm.EuclidNonneg` | gcd.hpp:18 | for `c >= 0`: if `gcd(a, b) == 1` and `b` divides `a * c`, then `b` divides `c` |
| `GcdLcm.Euclid` | gcd.hpp:18 | if `gcd(a, b) == 1` and `b` divides `a * c`, then `b` divides `c`, for every integer `c` |
| `GcdLcm.CoprimeAfterDivision` | gcd.hpp:18 | dividing `m` and `n` by their gcd leaves two numbers whose gcd is 1 |
| `GcdLcm.Lcm` | gcd.hpp:20-22 | the result is non-negative |
| `GcdLcm.LcmZero` | gcd.hpp:22 | `lcm(m, n) == 0` exactly when `m == 0` or `n == 0` |
| `GcdLcm.LcmShape` | gcd.hpp:18-22 | for nonzero `m`, `n`: `abs(m) == g*a` and `abs(n) == g*b` with `g == gcd(m, n)`, coprime `a`, `b > 0`, and `lcm(m, n) == a * abs(n)` |
| `GcdLcm.LcmCommonMultiple` | gcd.hpp:18-22 | for nonzero `m`, `n`: `lcm` is positive, a multiple of both, and `gcd(m, n) * lcm(m, n) == abs(m * n)` |
| `GcdLcm.LcmLeast` | gcd.hpp:18-22 | for nonzero `m`, `n`: every common multiple of `m` and `n` is a multiple of `lcm(m, n)` |
| `Units.Reduce` | unit.hpp:22 | `std::ratio<n, d>`'s `num/den`: the same rational number as `n/d`, in lowest terms; `0/d` gives `0/1` |
| `Units.DivideByGcd` | unit.hpp:22 | `n / gcd(n, d)` over `d / gcd(n, d)` has gcd 1, a positive denominator and the ratio of `n/d` |
| `Units.DivideByGcdZero` | unit.hpp:22 | a zero numerator is divided by `gcd(0, d) == d`, which leaves `0/1` |
| `Units.LowestTermsUnique` | unit.hpp:22 | two lowest-terms fractions with the same ratio are equal |
| `Units.ReduceUnique` | unit.hpp:22 | `Reduce(n, d)` is the unique lowest-terms fraction equal to `n/d` |
| `Units.ReduceIdempotent` | unit.hpp:14 | reducing a fraction already in lowest terms returns it unchanged |
| `Units.Unit.GetScale` | unit.hpp:14 | reports `Num/Denom` as the same ratio in lowest terms, which is exactly `Num/Denom` when that is already reduced |
| `Units.ScaleProduct` | unit.hpp:22 | the result scale of `*` is in lowest terms and equals `(Num*Num2)/(Denom*Denom2)` |
| `Units.ScaleQuotient` | unit.hpp:31 | the result scale of `/` is in lowest terms and equals `(Num*Denom2)/(Denom*Num2)`; it needs `Num2 != 0` |
| `Units.ScaleProductAssociative` | unit.hpp:22 | reduced products of scales are associative |
| `Units.ScaleQuotientOfProduct` | unit.hpp:22-31 | dividing the scale of `x * y` by `y`'s scale gives `x`'s scale reduced |
| `Units.TruncDiv` | unit.hpp:33 | `int64_t` `/`: the remainder `x - q*y` is smaller than `y` in absolute value, and it is zero or has the sign of `x` |
| `Units.TruncDivExact` | unit.hpp:33 | `(x * y) / y == x` for nonzero `y` |
| `Units.Mul` | unit.hpp:18-25 | each exponent is the sum of the operands' exponents; the scale is the lowest-terms product of the scales; the payload is the product of the payloads |
| `Units.Div` | unit.hpp:27-34 | Time and Distance are subtracted and the other five exponents added; the scale is the lowest-terms quotient of the scales; the payload is the truncated quotient |
| `Units.MulCommutative` | unit.hpp:21-24 | `a * b == b * a` |
| `Units.MulAssociative` | unit.hpp:21-24 | `(a * b) * c == a * (b * c)`, including the reduced scale |
| `Units.MulIdentity` | unit.hpp:21-24 | multiplying by the unscaled dimensionless 1 keeps the dimension and the payload and reduces the scale; a unit already in lowest terms comes back unchanged |
| `Units.DivSelf` | unit.hpp:30-33 | a nonzero `u / u` has payload 1 and scale 1/1; Time and Distance become 0, the other five exponents double |
| `Units.DivAfterMul` | unit.hpp:21-33 | `(a * b) / b` gives `a`'s payload and reduced scale; it gives `a`'s dimension iff `b` has no Luminance, Temperature, Radians, Amperes or Mass exponent |
| `Units.ProductScaleExample` | unit.cpp:14-15 | 5/7 times 2/3 gives scale 10/21 |
| `Units.ExampleProduct` | unit.cpp:14-16 | scale 5/7, value 2 times scale 2/3, value 3 gives scale 10/21, value 6 |
| `Units.QuotientScaleExample` | unit.cpp:18-19 | 5/7 divided by 2/3 gives scale 15/14 |
| `Units.ExampleQuotient` | unit.cpp:18-20 | the same quotient with integer payloads: scale 15/14, value `2 / 3 == 0` |

## Left out

- unit.cpp is a test driver. It serves here only as a source of expected values. It calls `GetNum`, `GetDen`, `operator+`, `operator-`, `operator==` and the `i::Meter`/`Second`/`Kilogram`/`Gram` catalog. None of these is in the unit.hpp modelled here. So cross-scale addition (unit.cpp:30-36) and scale-aware equality (unit.cpp:43-44) are not modelled. The unit catalog is not part of this model.
- Floating-point payloads (`double`, unit.cpp:11-12) are not modelled. The payload is an integer. So the quotient example gives the truncated 0 rather than `2.0 / 3.0`.
- The `static_assert` on `ValueType` (unit.hpp:9-10) is a compile-time type restriction. It has no run-time behaviour.
- Fixed-width overflow is not modelled. This covers `int32_t` exponents (unit.hpp:21, 30), `size_t` scale products (unit.hpp:22, 31), `int64_t` payload products (unit.hpp:24) and the payload quotient `INT64_MIN / -1` (unit.hpp:33). It also covers `abs` of the most negative value (gcd.hpp:14) and `m * n` in `lcm` (gcd.hpp:22). All of these are unbounded `int`/`nat`.
- `std::ratio` itself is outside the source. Only its reduction to lowest terms is modelled, for the non-negative numerators and positive denominators that `size_t` parameters give.
- A zero divisor payload is excluded by a precondition of `Div`. The source does not guard it; for `int64_t` it is undefined behaviour. A divisor scale with a zero numerator is excluded the same way, because `std::ratio` with a zero denominator does not compile.
- `GetValue` has no contract of its own: it is the `value` field of the datatype.
