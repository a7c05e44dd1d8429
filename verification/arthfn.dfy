/**
 * Integer helpers on doubles (src/arthfn.c): Euclid's gcd over the arguments
 * truncated to `unsigned long`, and the lcm derived from it.
 */
module ArthFn {
  import opened Wrappers

  const ULongBound: int := 0x1_0000_0000_0000_0000

  /** The doubles that `(unsigned long)x` converts without undefined behaviour. */
  predicate Convertible(x: real) { -1.0 < x < ULongBound as real }

  /** `(unsigned long)x`: truncation toward zero. */
  function Trunc(x: real): (n: nat)
    requires Convertible(x)
  {
    if x < 0.0 then 0 else x.Floor
  }

  /** Truncation keeps the whole part of a non-negative double and maps (-1, 0) to 0. */
  lemma TruncBounds(x: real)
    requires Convertible(x)
    ensures Trunc(x) < ULongBound
    ensures x >= 0.0 ==> Trunc(x) as real <= x < Trunc(x) as real + 1.0
    ensures x < 0.0 ==> Trunc(x) == 0
  {
  }

  lemma TruncWhole(a: nat)
    requires a < ULongBound
    ensures Trunc(a as real) == a
  {
  }

  /** `d` divides `n`. */
  ghost predicate Divides(d: nat, n: nat) {
    exists k: int :: n == d * k
  }

  /** The greatest common divisor by Euclid's recurrence; `GcdOf(n, 0) == n`. */
  function GcdOf(n: nat, m: nat): nat
    decreases m
  {
    if m == 0 then n else GcdOf(m, n % m)
  }

  lemma DividesMod(d: nat, n: nat, m: nat)
    requires m > 0 && Divides(d, m) && Divides(d, n)
    ensures Divides(d, n % m)
  {
    var a :| m == d * a;
    var b :| n == d * b;
    var q := n / m;
    assert n % m == n - q * m;
    assert n % m == d * (b - q * a);
  }

  lemma DividesFromMod(d: nat, n: nat, m: nat)
    requires m > 0 && Divides(d, m) && Divides(d, n % m)
    ensures Divides(d, n)
  {
    var a :| m == d * a;
    var b :| n % m == d * b;
    var q := n / m;
    assert n == q * m + n % m;
    assert n == d * (q * a + b);
  }

  lemma DividesSelf(n: nat)
    ensures Divides(n, n) && Divides(n, 0)
  {
    assert n == n * 1 && 0 == n * 0;
  }

  /** `GcdOf` divides both arguments. */
  lemma {:induction false} GcdDividesBoth(n: nat, m: nat)
    ensures Divides(GcdOf(n, m), n) && Divides(GcdOf(n, m), m)
    decreases m
  {
    if m == 0 {
      DividesSelf(n);
    } else {
      GcdDividesBoth(m, n % m);
      DividesFromMod(GcdOf(n, m), n, m);
    }
  }

  /** Every common divisor of the arguments divides `GcdOf`: it is the greatest. */
  lemma {:induction false} GcdGreatest(n: nat, m: nat, d: nat)
    requires Divides(d, n) && Divides(d, m)
    ensures Divides(d, GcdOf(n, m))
    decreases m
  {
    if m > 0 {
      DividesMod(d, n, m);
      GcdGreatest(m, n % m, d);
    }
  }

  /** The gcd is zero exactly when both arguments are. */
  lemma {:induction false} GcdZero(n: nat, m: nat)
    ensures GcdOf(n, m) == 0 <==> n == 0 && m == 0
    decreases m
  {
    if m > 0 {
      GcdZero(m, n % m);
    }
  }

  /** `gcd`: Euclid's loop over the truncated arguments. */
  method Gcd(n0: real, m0: real) returns (g: real)
    requires Convertible(n0) && Convertible(m0)
    ensures g == GcdOf(Trunc(n0), Trunc(m0)) as real
    ensures Divides(g.Floor, Trunc(n0)) && Divides(g.Floor, Trunc(m0))
    ensures forall d: nat :: Divides(d, Trunc(n0)) && Divides(d, Trunc(m0)) ==> Divides(d, g.Floor)
  {
    var n: nat := Trunc(n0);
    var m: nat := Trunc(m0);
    while m != 0
      invariant GcdOf(n, m) == GcdOf(Trunc(n0), Trunc(m0))
      decreases m
    {
      var temp := n;
      n := m;
      m := temp % m;
    }
    g := n as real;
    GcdDividesBoth(Trunc(n0), Trunc(m0));
    forall d: nat | Divides(d, Trunc(n0)) && Divides(d, Trunc(m0))
      ensures Divides(d, g.Floor)
    {
      GcdGreatest(Trunc(n0), Trunc(m0), d);
    }
  }

  /** `gcd(x, 0)` is `x` truncated: the loop is not entered. */
  lemma GcdWithZero(x: real)
    requires Convertible(x)
    ensures GcdOf(Trunc(x), Trunc(0.0)) == Trunc(x)
  {
  }

  /** `n / g * m` in double arithmetic, taken here over the reals. */
  function Scaled(n: real, g: nat, m: real): real
    requires g > 0
  {
    n / g as real * m
  }

  /** `lcm`: `n / gcd(n, m) * m`; None where the gcd is zero and the double division has no real value. */
  function Lcm(n: real, m: real): (r: Option<real>)
    requires Convertible(n) && Convertible(m)
    ensures r.None? <==> Trunc(n) == 0 && Trunc(m) == 0
  {
    GcdZero(Trunc(n), Trunc(m));
    var g := GcdOf(Trunc(n), Trunc(m));
    if g == 0 then None else Some(Scaled(n, g, m))
  }

  lemma NonNegFactor(a: nat, g: nat, k: int)
    requires g > 0 && a == g * k
    ensures k >= 0
  {
  }

  /** When `g` divides `a` exactly, `a / g * b` is the whole number `k * b`. */
  lemma ScaledWhole(a: nat, b: nat, g: nat, k: nat)
    requires g > 0 && a == g * k
    ensures Scaled(a as real, g, b as real) == (k * b) as real
  {
    var q := a as real / g as real;
    assert (a as real) == (g as real) * (k as real);
    assert q == k as real;
  }

  lemma CommonMultiple(a: nat, b: nat, g: nat, k: nat, j: nat)
    requires a == g * k && b == g * j
    ensures Divides(a, k * b) && Divides(b, k * b)
    ensures (k * b) * g == a * b
  {
    assert k * b == b * k;
    assert k * b == a * j by {
      assert k * (g * j) == (g * k) * j;
    }
    assert (k * b) * g == (g * k) * b;
  }

  lemma LcmOfWhole(a: nat, b: nat)
    requires a < ULongBound && b < ULongBound && (a > 0 || b > 0)
    ensures GcdOf(a, b) > 0 && Lcm(a as real, b as real) == Some(Scaled(a as real, GcdOf(a, b), b as real))
  {
    TruncWhole(a);
    TruncWhole(b);
    GcdZero(a, b);
  }

  /**
   * On whole numbers, not both zero, `lcm` is a whole number `l`, a common
   * multiple of both arguments, and `l * gcd` is the product of the arguments.
   */
  lemma LcmCommonMultiple(a: nat, b: nat) returns (l: nat)
    requires a < ULongBound && b < ULongBound && (a > 0 || b > 0)
    ensures Lcm(a as real, b as real) == Some(l as real)
    ensures Divides(a, l) && Divides(b, l)
    ensures l * GcdOf(a, b) == a * b
  {
    LcmOfWhole(a, b);
    var g := GcdOf(a, b);
    GcdDividesBoth(a, b);
    var k :| a == g * k;
    var j :| b == g * j;
    NonNegFactor(a, g, k);
    NonNegFactor(b, g, j);
    ScaledWhole(a, b, g, k);
    CommonMultiple(a, b, g, k, j);
    l := k * b;
  }

  /** The values the source's test tables list. */
  lemma TestTable()
    ensures GcdOf(12, 18) == 6 && GcdOf(30, 25) == 5 && GcdOf(110, 90) == 10
    ensures Lcm(12.0, 18.0) == Some(36.0)
    ensures Lcm(30.0, 25.0) == Some(150.0)
    ensures Lcm(110.0, 90.0) == Some(990.0)
  {
    assert Trunc(12.0) == 12 && Trunc(18.0) == 18 && Trunc(30.0) == 30;
    assert Trunc(25.0) == 25 && Trunc(110.0) == 110 && Trunc(90.0) == 90;
  }
}
