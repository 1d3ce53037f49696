/** Divisibility and greatest common divisors of integers. */
module NumberTheory {
  function Abs(x: int): (r: nat) { if x < 0 then -x else x }

  ghost predicate Divides(d: int, a: int) { exists k :: a == k * d }

  /** The usual non-negative greatest common divisor. */
  function Gcd(a: int, b: int): (g: nat)
    decreases Abs(b)
  {
    if b == 0 then Abs(a) else Gcd(b, a % b)
  }

  predicate Coprime(a: int, b: int) { Gcd(a, b) == 1 }

  lemma DividesIf(d: int, a: int, k: int)
    requires a == k * d
    ensures Divides(d, a)
  {
  }

  lemma Factor(d: int, a: int) returns (k: int)
    requires Divides(d, a)
    ensures a == k * d
  {
    k :| a == k * d;
  }

  lemma DividesCombination(d: int, a: int, b: int, x: int, y: int)
    requires Divides(d, a) && Divides(d, b)
    ensures Divides(d, a * x + b * y)
  {
    var i := Factor(d, a);
    var j := Factor(d, b);
    calc {
      a * x + b * y;
      (i * d) * x + (j * d) * y;
      (i * x + j * y) * d;
    }
    DividesIf(d, a * x + b * y, i * x + j * y);
  }

  lemma DividesBothWays(a: nat, b: nat)
    requires Divides(a, b) && Divides(b, a)
    ensures a == b
  {
    var i := Factor(a, b);
    var j := Factor(b, a);
    if a != 0 && b != 0 {
      assert i > 0 by { if i <= 0 { MulSign(i, a); } }
      assert j > 0 by { if j <= 0 { MulSign(j, b); } }
      MulGrows(i, a);
      MulGrows(j, b);
    }
  }

  lemma MulSign(i: int, a: int)
    requires i <= 0 && a >= 0
    ensures i * a <= 0
  {
  }

  lemma MulGrows(i: int, a: int)
    requires i >= 1 && a >= 0
    ensures i * a >= a
  {
  }

  lemma DivExact(k: int, b: int)
    requires b != 0
    ensures (k * b) / b == k
  {
    var q, r := (k * b) / b, (k * b) % b;
    assert (k - q) * b == r;
    if k - q >= 1 || k - q <= -1 {
      MulAtLeast(k - q, b);
    }
  }

  lemma MulAtLeast(i: int, b: int)
    requires i >= 1 || i <= -1
    ensures Abs(i * b) >= Abs(b)
  {
    if i >= 1 { MulGrows(i, Abs(b)); } else { MulGrows(-i, Abs(b)); }
    if b >= 0 { assert i * b == -((-i) * b); } else { assert i * b == -(i * -b) == (-i) * (-b); }
  }

  lemma AbsProduct(a: int, b: int)
    ensures Abs(a * b) == Abs(a) * Abs(b)
  {
  }

  lemma Regroup(a: int, b: int, c: int)
    ensures a * (b * c) == (a * b) * c && a * b == b * a
  {
  }

  lemma {:induction false} GcdDivides(a: int, b: int)
    ensures Divides(Gcd(a, b), a) && Divides(Gcd(a, b), b)
    decreases Abs(b)
  {
    if b == 0 {
      DividesIf(Abs(a), a, if a < 0 then -1 else 1);
      DividesIf(Abs(a), 0, 0);
    } else {
      var g := Gcd(a, b);
      GcdDivides(b, a % b);
      DividesCombination(g, b, a % b, a / b, 1);
      assert b * (a / b) + (a % b) * 1 == a;
    }
  }

  lemma {:induction false} Bezout(a: int, b: int) returns (x: int, y: int)
    ensures a * x + b * y == Gcd(a, b)
    decreases Abs(b)
  {
    if b == 0 {
      x, y := if a < 0 then -1 else 1, 0;
    } else {
      var s, t := Bezout(b, a % b);
      x, y := t, s - (a / b) * t;
      BezoutStep(a, b, a / b, a % b, s, t);
    }
  }

  lemma BezoutStep(a: int, b: int, q: int, m: int, s: int, t: int)
    requires a == b * q + m
    ensures a * t + b * (s - q * t) == b * s + m * t
  {
    assert a * t == (b * q) * t + m * t;
    assert b * (s - q * t) == b * s - b * (q * t);
    assert b * (q * t) == (b * q) * t;
  }

  lemma CommonDividesGcd(d: int, a: int, b: int)
    requires Divides(d, a) && Divides(d, b)
    ensures Divides(d, Gcd(a, b))
  {
    var x, y := Bezout(a, b);
    DividesCombination(d, a, b, x, y);
  }

  /** Pairs with the same common divisors have the same greatest one. */
  lemma SameGcd(a: int, b: int, c: int, e: int)
    requires forall d :: Divides(d, a) && Divides(d, b) <==> Divides(d, c) && Divides(d, e)
    ensures Gcd(a, b) == Gcd(c, e)
  {
    GcdDivides(a, b);
    GcdDivides(c, e);
    CommonDividesGcd(Gcd(a, b), c, e);
    CommonDividesGcd(Gcd(c, e), a, b);
    DividesBothWays(Gcd(a, b), Gcd(c, e));
  }

  lemma GcdSymmetric(a: int, b: int)
    ensures Gcd(a, b) == Gcd(b, a)
  {
    SameGcd(a, b, b, a);
  }

  /** Adding a multiple of one argument to the other. */
  lemma GcdShift(a: int, b: int, k: int)
    ensures Gcd(a + k * b, b) == Gcd(a, b)
  {
    forall d ensures Divides(d, a + k * b) && Divides(d, b) <==> Divides(d, a) && Divides(d, b) {
      if Divides(d, b) && Divides(d, a) { DividesCombination(d, a, b, 1, k); }
      if Divides(d, b) && Divides(d, a + k * b) {
        DividesCombination(d, a + k * b, b, 1, -k);
        assert (a + k * b) * 1 + b * -k == a;
      }
    }
    SameGcd(a + k * b, b, a, b);
  }

  lemma DividesNegated(d: int, a: int)
    ensures Divides(d, -a) <==> Divides(d, a)
    ensures Divides(d, Abs(a)) <==> Divides(d, a)
  {
    if Divides(d, a) { var k := Factor(d, a); assert -a == (-k) * d; DividesIf(d, -a, -k); }
    if Divides(d, -a) { var k := Factor(d, -a); assert a == (-k) * d; DividesIf(d, a, -k); }
  }

  lemma GcdNegated(a: int, b: int)
    ensures Gcd(-a, b) == Gcd(a, b) == Gcd(a, -b)
    ensures Gcd(Abs(a), Abs(b)) == Gcd(a, b)
  {
    forall d ensures Divides(d, a) <==> Divides(d, -a) { DividesNegated(d, a); }
    forall d ensures Divides(d, b) <==> Divides(d, -b) { DividesNegated(d, b); }
    forall d ensures Divides(d, a) <==> Divides(d, Abs(a)) { DividesNegated(d, a); }
    forall d ensures Divides(d, b) <==> Divides(d, Abs(b)) { DividesNegated(d, b); }
    SameGcd(-a, b, a, b);
    SameGcd(a, -b, a, b);
    SameGcd(Abs(a), Abs(b), a, b);
  }

  lemma GcdPositive(a: int, b: int)
    requires a != 0 || b != 0
    ensures Gcd(a, b) > 0
  {
    GcdDivides(a, b);
    if Gcd(a, b) == 0 { var i := Factor(0, a);
    var j := Factor(0, b); }
  }

  // ----- Coprimality -----

  lemma CoprimeIf(a: int, b: int, x: int, y: int)
    requires a * x + b * y == 1
    ensures Coprime(a, b)
  {
    GcdDivides(a, b);
    DividesCombination(Gcd(a, b), a, b, x, y);
    DividesIf(1, Gcd(a, b), Gcd(a, b));
    DividesBothWays(Gcd(a, b), 1);
  }

  lemma CoprimeProduct(a: int, b: int, c: int)
    requires Coprime(a, b) && Coprime(a, c)
    ensures Coprime(a, b * c)
  {
    var x, y := Bezout(a, b);
    var s, t := Bezout(a, c);
    var r := b * y;
    Spread(a * x, r, a * s, c * t);
    PullOut(r, a, s);
    Exchange(b, y, c, t);
    Join(a, x, r * s);
    CoprimeIf(a, b * c, x + r * s, y * t);
  }

  lemma Spread(p: int, r: int, u: int, v: int)
    requires p + r == 1 && u + v == 1
    ensures p + r * u + r * v == 1
  {
    assert r * (u + v) == r * u + r * v;
  }

  lemma PullOut(r: int, a: int, s: int)
    ensures r * (a * s) == a * (r * s)
  {
  }

  lemma Join(a: int, x: int, y: int)
    ensures a * x + a * y == a * (x + y)
  {
  }

  lemma Exchange(a: int, b: int, c: int, d: int)
    ensures (a * b) * (c * d) == (a * c) * (b * d)
  {
    assert (a * b) * (c * d) == a * (b * (c * d));
    assert b * (c * d) == c * (b * d);
    assert a * (c * (b * d)) == (a * c) * (b * d);
  }

  /** A factor of a number coprime to b is coprime to b. */
  lemma CoprimeFactor(k: int, d: int, b: int)
    requires Coprime(k * d, b)
    ensures Coprime(d, b)
  {
    var x, y := Bezout(k * d, b);
    assert (k * d) * x == d * (k * x);
    CoprimeIf(d, b, k * x, y);
  }

  /** What is coprime to a and divides a * c divides c. */
  lemma Gauss(d: int, a: int, c: int)
    requires Coprime(d, a) && Divides(d, a * c)
    ensures Divides(d, c)
  {
    hide Gcd, Divides;
    var x, y := Bezout(d, a);
    DividesIf(d, d, 1);
    DividesCombination(d, d, a * c, x * c, y);
    TimesOne(d, x, a, y, c);
  }

  lemma TimesOne(d: int, x: int, a: int, y: int, c: int)
    requires d * x + a * y == 1
    ensures d * (x * c) + (a * c) * y == c
  {
    Regroup(d, x, c);
    assert (a * c) * y == (a * y) * c;
    assert (d * x) * c + (a * y) * c == (d * x + a * y) * c;
  }

  /** Dividing both arguments by their greatest common divisor leaves them coprime. */
  lemma GcdReduces(a: int, b: int) returns (g: int, i: int, j: int)
    requires a != 0 || b != 0
    ensures g == Gcd(a, b) > 0 && a == i * g && b == j * g && Coprime(i, j)
  {
    g := Gcd(a, b);
    GcdPositive(a, b);
    GcdDivides(a, b);
    i := Factor(g, a);
    j := Factor(g, b);
    var x, y := Bezout(a, b);
    assert (i * x + j * y) * g == g by {
      assert (i * x + j * y) * g == (i * g) * x + (j * g) * y;
    }
    MulCancel(i * x + j * y, 1, g);
    CoprimeIf(i, j, x, y);
  }

  lemma MulCancel(a: int, b: int, g: int)
    requires g != 0 && a * g == b * g
    ensures a == b
  {
  }

  /** A fraction has one representation in lowest terms with a positive denominator. */
  lemma LowestTermsUnique(a: int, b: int, c: int, d: int)
    requires b > 0 && d > 0 && Coprime(a, b) && Coprime(c, d) && a * d == c * b
    ensures a == c && b == d
  {
    DividesIf(b, c * b, c);
    DividesIf(d, a * d, a);
    GcdSymmetric(a, b);
    GcdSymmetric(c, d);
    Gauss(b, a, d);
    Gauss(d, c, b);
    DividesBothWays(b, d);
    MulCancel(a, c, b);
  }
}
