/**
 * Complex numbers, the `double complex` of the C sources, modelled exactly as
 * pairs of reals. Rounding of IEEE doubles is not modelled.
 */
module Cplx {

  datatype Complex = Complex(re: real, im: real)

  const Zero := Complex(0.0, 0.0)
  const One := Complex(1.0, 0.0)
  const I := Complex(0.0, 1.0)

  function FromReal(x: real): Complex { Complex(x, 0.0) }

  function Add(a: Complex, b: Complex): Complex { Complex(a.re + b.re, a.im + b.im) }

  function Sub(a: Complex, b: Complex): Complex { Complex(a.re - b.re, a.im - b.im) }

  function Neg(a: Complex): Complex { Complex(-a.re, -a.im) }

  function Mul(a: Complex, b: Complex): Complex {
    Complex(a.re * b.re - a.im * b.im, a.re * b.im + a.im * b.re)
  }

  function Sq(x: real): real { x * x }

  function NormSq(a: Complex): real { Sq(a.re) + Sq(a.im) }

  lemma SqSign(x: real)
    ensures Sq(x) >= 0.0
    ensures x != 0.0 ==> Sq(x) > 0.0
  {
    if x > 0.0 {
      calc { Sq(x); == x * x; > 0.0; }
    } else if x < 0.0 {
      calc { Sq(x); == (-x) * (-x); > 0.0; }
    }
  }

  lemma NormSqPositive(a: Complex)
    ensures NormSq(a) >= 0.0
    ensures a != Zero ==> NormSq(a) > 0.0
  {
    SqSign(a.re);
    SqSign(a.im);
  }

  /** Multiplicative inverse; the C division by zero yields inf/NaN, which is not modelled. */
  function Inv(a: Complex): (r: Complex)
    requires a != Zero
  {
    NormSqPositive(a);
    Complex(a.re / NormSq(a), -a.im / NormSq(a))
  }

  /** Complex division `a / b` of C99 for a non-zero divisor. */
  function Div(a: Complex, b: Complex): Complex
    requires b != Zero
  {
    Mul(a, Inv(b))
  }

  lemma DivMulLeft(x: real, n: real, y: real)
    requires n != 0.0
    ensures (x / n) * y == (x * y) / n
  {
  }

  lemma DivSelf(n: real)
    requires n != 0.0
    ensures n / n == 1.0
  {
  }

  lemma AddQuot(p: real, q: real, n: real)
    requires n != 0.0
    ensures p / n + q / n == (p + q) / n
  {
  }

  lemma InvMulRe(a: Complex)
    requires a != Zero
    ensures Mul(Inv(a), a).re == 1.0
  {
    NormSqPositive(a);
    var n := NormSq(a);
    calc {
      Mul(Inv(a), a).re;
    ==
      (a.re / n) * a.re - (-a.im / n) * a.im;
    == { DivMulLeft(a.re, n, a.re); DivMulLeft(-a.im, n, a.im); }
      (a.re * a.re) / n - (-a.im * a.im) / n;
    == { AddQuot(a.re * a.re, a.im * a.im, n); }
      n / n;
    == { DivSelf(n); }
      1.0;
    }
  }

  lemma InvMulIm(a: Complex)
    requires a != Zero
    ensures Mul(Inv(a), a).im == 0.0
  {
    NormSqPositive(a);
    var n := NormSq(a);
    calc {
      Mul(Inv(a), a).im;
    ==
      (a.re / n) * a.im + (-a.im / n) * a.re;
    == { DivMulLeft(a.re, n, a.im); DivMulLeft(-a.im, n, a.re); }
      (a.re * a.im) / n + (-a.im * a.re) / n;
    == { AddQuot(a.re * a.im, -a.im * a.re, n); }
      0.0;
    }
  }

  lemma InvMul(a: Complex)
    requires a != Zero
    ensures Mul(Inv(a), a) == One && Mul(a, Inv(a)) == One
  {
    InvMulRe(a);
    InvMulIm(a);
    MulComm(a, Inv(a));
  }

  lemma MulComm(a: Complex, b: Complex)
    ensures Mul(a, b) == Mul(b, a)
  {
  }

  lemma MulAssocRe(a: Complex, b: Complex, c: Complex)
    ensures Mul(Mul(a, b), c).re == Mul(a, Mul(b, c)).re
  {
    assert Mul(Mul(a, b), c).re == a.re * b.re * c.re - a.im * b.im * c.re - a.re * b.im * c.im - a.im * b.re * c.im;
    assert Mul(a, Mul(b, c)).re == a.re * b.re * c.re - a.re * b.im * c.im - a.im * b.re * c.im - a.im * b.im * c.re;
  }

  lemma MulAssocIm(a: Complex, b: Complex, c: Complex)
    ensures Mul(Mul(a, b), c).im == Mul(a, Mul(b, c)).im
  {
    assert Mul(Mul(a, b), c).im == a.re * b.re * c.im - a.im * b.im * c.im + a.re * b.im * c.re + a.im * b.re * c.re;
    assert Mul(a, Mul(b, c)).im == a.re * b.re * c.im + a.re * b.im * c.re + a.im * b.re * c.re - a.im * b.im * c.im;
  }

  lemma MulAssoc(a: Complex, b: Complex, c: Complex)
    ensures Mul(Mul(a, b), c) == Mul(a, Mul(b, c))
  {
    MulAssocRe(a, b, c);
    MulAssocIm(a, b, c);
  }

  lemma MulAddDistr(a: Complex, b: Complex, c: Complex)
    ensures Mul(a, Add(b, c)) == Add(Mul(a, b), Mul(a, c))
    ensures Mul(Add(b, c), a) == Add(Mul(b, a), Mul(c, a))
  {
  }

  lemma MulSubDistr(a: Complex, b: Complex, c: Complex)
    ensures Mul(a, Sub(b, c)) == Sub(Mul(a, b), Mul(a, c))
    ensures Mul(Sub(b, c), a) == Sub(Mul(b, a), Mul(c, a))
  {
  }

  lemma MulZero(a: Complex)
    ensures Mul(a, Zero) == Zero && Mul(Zero, a) == Zero
  {
  }

  lemma MulOne(a: Complex)
    ensures Mul(a, One) == a && Mul(One, a) == a
  {
  }
}
