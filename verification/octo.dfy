/**
 `SimpleOcto`: an eight-coefficient vector with the product the spiral
 wheel's source calls octonion multiplication. The coefficients are modelled
 as exact reals.
 */
module Octo {

  /** Eight coefficients, the only shape a `SimpleOcto` ever has. */
  type Coeffs = c: seq<real> | |c| == 8 witness [0.0, 0.0, 0.0, 0.0, 0.0, 0.0, 0.0, 0.0]

  datatype SimpleOcto = SimpleOcto(coeffs: Coeffs)

  const Zeros: Coeffs := [0.0, 0.0, 0.0, 0.0, 0.0, 0.0, 0.0, 0.0]

  /**
   The constructor: `(coeffs or [])[:8] + [0.0] * 8`, cut to eight. A missing
   list (`None`) is the empty list here.
   */
  function Make(coeffs: seq<real>): (o: SimpleOcto)
    ensures forall i :: 0 <= i < 8 ==> o.coeffs[i] == (if i < |coeffs| then coeffs[i] else 0.0)
  {
    var head := if |coeffs| <= 8 then coeffs else coeffs[..8];
    SimpleOcto((head + Zeros)[..8])
  }

  /** `sum(a[i+1] * b[i+1] for i in range(n))`, accumulated left to right. */
  function SumProducts(a: Coeffs, b: Coeffs, n: nat): real
    requires n <= 7
  {
    if n == 0 then 0.0 else SumProducts(a, b, n - 1) + a[n] * b[n]
  }

  /** The sum of products over the vector part does not depend on operand order. */
  lemma {:induction false} SumProductsSymmetric(a: Coeffs, b: Coeffs, n: nat)
    requires n <= 7
    ensures SumProducts(a, b, n) == SumProducts(b, a, n)
  {
    if n > 0 {
      SumProductsSymmetric(a, b, n - 1);
    }
  }

  /** `sum(c * c for c in coeffs)` over the first `n` coefficients: the squared norm. */
  function SumSquares(c: Coeffs, n: nat): (s: real)
    requires n <= 8
    ensures s >= 0.0
  {
    if n == 0 then 0.0 else SumSquares(c, n - 1) + c[n - 1] * c[n - 1]
  }

  /** With coefficients in `[0, b]`, the first `n` squares add up to at most `n·b²`. */
  lemma {:induction false} SumSquaresBound(c: Coeffs, n: nat, b: real)
    requires n <= 8 && b >= 0.0
    requires forall k :: 0 <= k < 8 ==> 0.0 <= c[k] <= b
    ensures SumSquares(c, n) <= n as real * b * b
  {
    if n > 0 {
      SumSquaresBound(c, n - 1, b);
      var x := c[n - 1];
      assert x * x <= b * b by {
        assert x * x <= x * b;
        assert x * b <= b * b;
      }
    }
  }

  /** Zero coefficients past position `n` add nothing to the squared norm. */
  lemma {:induction false} SumSquaresZeros(c: Coeffs, n: nat)
    requires n <= 8
    requires forall k :: n <= k < 8 ==> c[k] == 0.0
    ensures SumSquares(c, 8) == SumSquares(c, n)
  {
    ZerosFrom(c, n, 8);
  }

  lemma {:induction false} ZerosFrom(c: Coeffs, n: nat, m: nat)
    requires n <= m <= 8
    requires forall k :: n <= k < 8 ==> c[k] == 0.0
    ensures SumSquares(c, m) == SumSquares(c, n)
    decreases m
  {
    if m > n {
      ZerosFrom(c, n, m - 1);
    }
  }

  /** The squared `norm()`; the square root itself is left to the wheel's gate. */
  function NormSquared(o: SimpleOcto): (s: real)
    ensures s >= 0.0
  {
    SumSquares(o.coeffs, 8)
  }

  /** `multiply`: scalar part `a0*b0 - Σ ai*bi`, vector part `a0*bi + b0*ai`. */
  function Multiply(a: SimpleOcto, b: SimpleOcto): (p: SimpleOcto)
  {
    var x, y := a.coeffs, b.coeffs;
    var prod := [x[0] * y[0] - SumProducts(x, y, 7)]
      + seq(7, i requires 0 <= i < 7 => x[0] * y[i + 1] + y[0] * x[i + 1]);
    Make(prod)
  }

  /** `a.multiply(b) == b.multiply(a)`. */
  lemma MultiplySymmetric(a: SimpleOcto, b: SimpleOcto)
    ensures Multiply(a, b) == Multiply(b, a)
  {
    SumProductsSymmetric(a.coeffs, b.coeffs, 7);
    var p, q := Multiply(a, b), Multiply(b, a);
    assert p.coeffs == q.coeffs;
  }

  const One: SimpleOcto := SimpleOcto([1.0, 0.0, 0.0, 0.0, 0.0, 0.0, 0.0, 0.0])

  lemma {:induction false} SumProductsZero(a: Coeffs, n: nat)
    requires n <= 7
    ensures SumProducts(One.coeffs, a, n) == 0.0
  {
    if n > 0 {
      SumProductsZero(a, n - 1);
    }
  }

  /** The unit `[1, 0, ..., 0]` is neutral for the product. */
  lemma MultiplyOne(a: SimpleOcto)
    ensures Multiply(One, a) == a
  {
    SumProductsZero(a.coeffs, 7);
    var p := Multiply(One, a);
    assert p.coeffs == a.coeffs;
  }

  /**
   `power(d)`: the square for `d == 2` — scalar part `a0² - Σ ai²`, vector
   part `2·a0·ai` — and the value itself for any other `d`.
   */
  function Power(o: SimpleOcto, d: int): (r: SimpleOcto)
    ensures d == 2 ==> r.coeffs[0] == o.coeffs[0] * o.coeffs[0] - SumProducts(o.coeffs, o.coeffs, 7)
    ensures d == 2 ==> forall i :: 1 <= i < 8 ==> r.coeffs[i] == 2.0 * o.coeffs[0] * o.coeffs[i]
    ensures d != 2 ==> r == o
  {
    if d == 2 then Multiply(o, o) else o
  }
}
