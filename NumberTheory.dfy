/**
 * Greatest common divisors and the lowest-terms form of a rational number,
 * as Python's `math.gcd` and `fractions.Fraction(numerator, denominator)`
 * compute them.
 */
module NumberTheory {

  function Abs(x: int): nat
  {
    if x < 0 then -x else x
  }

  /** Euclid's algorithm; `math.gcd` on non-negative arguments. */
  function Gcd(a: nat, b: nat): nat
    decreases b
  {
    if b == 0 then a else Gcd(b, a % b)
  }

  /** `c` is a positive divisor of `a`. */
  predicate Divides(c: nat, a: nat)
  {
    c > 0 && a % c == 0
  }

  /** `n/d` is the lowest-terms form of the rational `w/h`: positive
      denominator, no common factor, and the same ratio. */
  predicate IsLowestTerms(n: int, d: int, w: int, h: int)
  {
    d > 0 && Gcd(Abs(n), d) == 1 && n * h == d * w
  }

  /** The normalisation `Fraction(w, h)` performs for `h != 0`: divide both
      parts by their gcd and carry the sign on the numerator. */
  function Reduce(w: int, h: int): (r: (int, int))
    requires h != 0
    ensures IsLowestTerms(r.0, r.1, w, h)
  {
    GcdPositive(Abs(w), Abs(h));
    var g := Gcd(Abs(w), Abs(h));
    var n := Abs(w) / g;
    var d := Abs(h) / g;
    ReducedCoprime(Abs(w), Abs(h));
    var r := (if (w < 0) != (h < 0) then -n else n, d);
    assert r.0 * h == r.1 * w by {
      SameRatioSigned(w, h, n, d);
    }
    r
  }

  // ---------------------------------------------------------------------
  // Division with remainder

  lemma MulAtLeast(c: nat, k: int)
    requires k >= 1
    ensures c * k >= c
  {
    var j := k - 1;
    assert c * k == c * j + c;
  }

  lemma DivModUnique(a: int, c: int, q: int, r: int)
    requires c > 0 && a == c * q + r && 0 <= r < c
    ensures a / c == q && a % c == r
  {
    var q', r' := a / c, a % c;
    assert c * (q - q') == r' - r;
    if q' < q {
      MulAtLeast(c, q - q');
    } else if q < q' {
      MulAtLeast(c, q' - q);
    }
  }

  lemma MulDivides(c: nat, k: nat)
    requires c > 0
    ensures (c * k) % c == 0 && (c * k) / c == k
  {
    DivModUnique(c * k, c, k, 0);
  }

  lemma DividesMul(c: nat, a: nat)
    requires Divides(c, a)
    ensures a == c * (a / c)
  {
  }

  lemma DividesFactor(c: nat, k: nat)
    requires c > 0
    ensures Divides(c, k * c)
  {
    MulDivides(c, k);
    assert k * c == c * k;
  }

  lemma DividesLe(c: nat, a: nat)
    requires Divides(c, a) && a > 0
    ensures c <= a
  {
    DividesMul(c, a);
    MulAtLeast(c, a / c);
  }

  lemma DividesSum(c: nat, a: nat, b: nat)
    requires Divides(c, a) && Divides(c, b)
    ensures Divides(c, a + b)
  {
    var i, j := a / c, b / c;
    DividesMul(c, a);
    DividesMul(c, b);
    assert a + b == c * (i + j);
    MulDivides(c, i + j);
  }

  lemma DividesMultiple(c: nat, a: nat, k: nat)
    requires Divides(c, a)
    ensures Divides(c, a * k)
  {
    DividesMul(c, a);
    assert a * k == c * ((a / c) * k);
    MulDivides(c, (a / c) * k);
  }

  lemma DividesDifference(c: nat, a: nat, b: nat)
    requires Divides(c, a) && Divides(c, b) && b <= a
    ensures Divides(c, a - b)
  {
    var i, j := a / c, b / c;
    DividesMul(c, a);
    DividesMul(c, b);
    assert a - b == c * (i - j);
    if i < j {
      MulAtLeast(c, j - i);
    }
    MulDivides(c, i - j);
  }

  lemma MulCancel(k: int, a: int, b: int)
    requires k != 0 && k * a == k * b
    ensures a == b
  {
    assert k * (a - b) == 0;
  }

  // ---------------------------------------------------------------------
  // Properties of Gcd

  lemma {:induction false} GcdPositive(a: nat, b: nat)
    ensures Gcd(a, b) == 0 <==> a == 0 && b == 0
    decreases b
  {
    if b != 0 {
      GcdPositive(b, a % b);
    }
  }

  /** The gcd divides both arguments. */
  lemma {:induction false} GcdDivides(a: nat, b: nat)
    requires a > 0 || b > 0
    ensures Divides(Gcd(a, b), a) && Divides(Gcd(a, b), b)
    decreases b
  {
    if b != 0 {
      GcdDivides(b, a % b);
      var g := Gcd(a, b);
      DividesMultiple(g, b, a / b);
      assert a == b * (a / b) + a % b;
      DividesSum(g, b * (a / b), a % b);
    }
  }

  /** Every common divisor divides the gcd: the gcd is the greatest one. */
  lemma {:induction false} CommonDivisorDividesGcd(c: nat, a: nat, b: nat)
    requires Divides(c, a) && Divides(c, b)
    ensures Divides(c, Gcd(a, b))
    decreases b
  {
    if b != 0 {
      DividesMultiple(c, b, a / b);
      assert a % b == a - b * (a / b);
      DividesDifference(c, a, b * (a / b));
      CommonDivisorDividesGcd(c, b, a % b);
    }
  }

  lemma GcdSymmetric(a: nat, b: nat)
    ensures Gcd(a, b) == Gcd(b, a)
  {
    if a != b && a != 0 && b != 0 {
      if a < b {
        DivModUnique(a, b, 0, a);
        assert Gcd(a, b) == Gcd(b, a % b);
      } else {
        DivModUnique(b, a, 0, b);
        assert Gcd(b, a) == Gcd(a, b % a);
      }
    }
  }

  /** Scaling both arguments scales the gcd. */
  lemma {:induction false} GcdScale(k: nat, a: nat, b: nat)
    requires k > 0
    ensures Gcd(k * a, k * b) == k * Gcd(a, b)
    decreases b
  {
    if b != 0 {
      assert k * b != 0 by { MulAtLeast(k, b); }
      var q, r := a / b, a % b;
      assert k * a == (k * b) * q + k * r;
      assert 0 <= k * r < k * b by {
        if k * r >= k * b {
          MulAtLeast(k, r - b + 1);
        }
      }
      DivModUnique(k * a, k * b, q, k * r);
      GcdScale(k, b, r);
    }
  }

  lemma CoprimeScaled(a: nat, b: nat, c: nat)
    requires Gcd(a, b) == 1 && c > 0
    ensures Gcd(c * a, c * b) == c
  {
    GcdScale(c, a, b);
  }

  /** Euclid's lemma: if `a` is coprime to `b` and divides `b * c`, it divides `c`. */
  lemma Euclid(a: nat, b: nat, c: nat)
    requires Gcd(a, b) == 1 && Divides(a, b * c)
    ensures Divides(a, c)
  {
    if c == 0 {
      MulDivides(a, 0);
    } else {
      var x, y := c * a, c * b;
      CoprimeScaled(a, b, c);
      DividesFactor(a, c);
      assert y == b * c;
      CommonDivisorDividesGcd(a, x, y);
    }
  }

  /** Dividing both numbers by their gcd leaves coprime numbers of the same ratio. */
  lemma ReducedCoprime(a: nat, b: nat)
    requires b > 0
    ensures Gcd(a, b) > 0
    ensures a == Gcd(a, b) * (a / Gcd(a, b)) && b == Gcd(a, b) * (b / Gcd(a, b))
    ensures Gcd(a / Gcd(a, b), b / Gcd(a, b)) == 1
  {
    var g := Gcd(a, b);
    GcdPositive(a, b);
    GcdDivides(a, b);
    DividesMul(g, a);
    DividesMul(g, b);
    var a', b' := a / g, b / g;
    GcdScale(g, a', b');
    assert g * Gcd(a', b') == g * 1;
    MulCancel(g, Gcd(a', b'), 1);
  }

  /** Carrying the sign on the numerator keeps the ratio `w/h`. */
  lemma SameRatioSigned(w: int, h: int, n: int, d: int)
    requires h != 0 && Gcd(Abs(w), Abs(h)) > 0 && n >= 0 && d >= 0
    requires Abs(w) == Gcd(Abs(w), Abs(h)) * n && Abs(h) == Gcd(Abs(w), Abs(h)) * d
    ensures (if (w < 0) != (h < 0) then -n else n) * h == d * w
  {
    var g := Gcd(Abs(w), Abs(h));
    assert n * Abs(h) == d * Abs(w) by {
      assert n * (g * d) == d * (g * n);
    }
  }

  /** Two lowest-terms forms of the same ratio, with natural numerators, coincide. */
  lemma LowestTermsUniqueNat(a1: nat, b1: nat, a2: nat, b2: nat)
    requires b1 > 0 && b2 > 0
    requires Gcd(a1, b1) == 1 && Gcd(a2, b2) == 1
    requires a1 * b2 == a2 * b1
    ensures a1 == a2 && b1 == b2
  {
    GcdSymmetric(a1, b1);
    GcdSymmetric(a2, b2);
    MulDivides(b1, a2);
    assert a2 * b1 == b1 * a2;
    Euclid(b1, a1, b2);
    MulDivides(b2, a1);
    assert a1 * b2 == b2 * a1;
    Euclid(b2, a2, b1);
    DividesLe(b1, b2);
    DividesLe(b2, b1);
    MulCancel(b1, a1, a2);
  }

  lemma CrossMultiply(n1: int, d1: int, n2: int, d2: int, w: int, h: int)
    requires h != 0 && n1 * h == d1 * w && n2 * h == d2 * w
    ensures n1 * d2 == n2 * d1
  {
    assert h * (n1 * d2) == h * (n2 * d1) by {
      calc {
        h * (n1 * d2);
        (n1 * h) * d2;
        (d1 * w) * d2;
        (d2 * w) * d1;
        (n2 * h) * d1;
        h * (n2 * d1);
      }
    }
    MulCancel(h, n1 * d2, n2 * d1);
  }

  lemma CrossMultiplyAbs(n1: int, d1: int, n2: int, d2: int)
    requires d1 > 0 && d2 > 0 && n1 * d2 == n2 * d1
    ensures Abs(n1) * d2 == Abs(n2) * d1
  {
    if n1 < 0 && n2 < 0 {
      assert (-n1) * d2 == (-n2) * d1;
    }
  }

  /** The lowest-terms form of a ratio is unique. */
  lemma LowestTermsUnique(n1: int, d1: int, n2: int, d2: int, w: int, h: int)
    requires h != 0
    requires IsLowestTerms(n1, d1, w, h) && IsLowestTerms(n2, d2, w, h)
    ensures n1 == n2 && d1 == d2
  {
    CrossMultiply(n1, d1, n2, d2, w, h);
    CrossMultiplyAbs(n1, d1, n2, d2);
    LowestTermsUniqueNat(Abs(n1), d1, Abs(n2), d2);
  }

  /** A lowest-terms form of `w1/h1` is one of every ratio equal to it. */
  lemma SameRatioLowestTerms(n: int, d: int, w1: int, h1: int, w2: int, h2: int)
    requires h1 != 0 && IsLowestTerms(n, d, w1, h1) && w1 * h2 == w2 * h1
    ensures IsLowestTerms(n, d, w2, h2)
  {
    assert h1 * (n * h2) == h1 * (d * w2) by {
      calc {
        h1 * (n * h2);
        (n * h1) * h2;
        d * (w1 * h2);
        d * (w2 * h1);
        h1 * (d * w2);
      }
    }
    MulCancel(h1, n * h2, d * w2);
  }

  /** Two ratios with a common lowest-terms form are equal. */
  lemma CommonLowestTermsSameRatio(n: int, d: int, w1: int, h1: int, w2: int, h2: int)
    requires IsLowestTerms(n, d, w1, h1) && IsLowestTerms(n, d, w2, h2)
    ensures w1 * h2 == w2 * h1
  {
    assert d * (w1 * h2) == d * (w2 * h1) by {
      calc {
        d * (w1 * h2);
        (d * w1) * h2;
        (n * h1) * h2;
        (n * h2) * h1;
        (d * w2) * h1;
        d * (w2 * h1);
      }
    }
    MulCancel(d, w1 * h2, w2 * h1);
  }

  /** For non-negative sides, the reduced fraction is both sides divided by
      their gcd. */
  lemma ReduceNat(w: nat, h: nat)
    requires h > 0
    ensures Gcd(w, h) > 0 && Reduce(w, h).0 >= 0
    ensures Reduce(w, h) == (w / Gcd(w, h), h / Gcd(w, h))
  {
    GcdPositive(w, h);
    var g := Gcd(w, h);
    assert Abs(w) == w && Abs(h) == h;
    assert Reduce(w, h) == (Abs(w) / g, Abs(h) / g);
    assert w / g >= 0 by {
      DivNonNegative(w, g);
    }
  }

  lemma DivNonNegative(a: nat, b: nat)
    requires b > 0
    ensures a / b >= 0
  {
  }
}
