/** Fractions in lowest terms, and why the shortcuts of `rational` need no final normalisation. */
module Ratios {
  import opened NumberTheory

  datatype Ratio = Ratio(num: int, den: int)

  /** `test_invariant`. */
  predicate Normal(r: Ratio) { r.den > 0 && Coprime(r.num, r.den) }

  /** No common factor but 1, and the sign above. */
  lemma NormalExactly(r: Ratio)
    ensures Normal(r) <==> r.den > 0 && forall k :: k > 1 ==> !(r.num % k == 0 && r.den % k == 0)
  {
    hide Gcd;
    var g := Gcd(r.num, r.den);
    if r.den > 0 {
      GcdDivides(r.num, r.den);
      GcdPositive(r.num, r.den);
      var i := Factor(g, r.num);
      var j := Factor(g, r.den);
      MultipleMod(i, g);
      MultipleMod(j, g);
      if g == 1 {
        forall k | k > 1 ensures !(r.num % k == 0 && r.den % k == 0) {
          if r.num % k == 0 && r.den % k == 0 { CommonFactorShows(r.num, r.den, k); }
        }
      }
    }
  }

  lemma MultipleMod(i: int, g: int)
    requires g > 0
    ensures (i * g) % g == 0
  {
    DivExact(i, g);
  }

  lemma CommonFactorShows(a: int, b: int, k: int)
    requires k > 1 && a % k == 0 && b % k == 0
    ensures Gcd(a, b) != 1
  {
    DividesIf(k, a, a / k);
    DividesIf(k, b, b / k);
    CommonDividesGcd(k, a, b);
    if Gcd(a, b) == 1 {
      var i := Factor(k, 1);
      if i <= 0 { MulSign(i, k); } else { MulGrows(i, k); }
    }
  }

  /** The exact value of a fraction. */
  ghost function Quotient(n: int, d: int): real
    requires d != 0
  {
    n as real / d as real
  }

  ghost function Value(r: Ratio): real
    requires r.den != 0
  {
    Quotient(r.num, r.den)
  }

  /** Full normalisation of a fraction. */
  function Reduced(n: int, d: int): (r: Ratio)
    requires d != 0
  {
    GcdPositive(n, d);
    var g := Gcd(n, d);
    if d > 0 then Ratio(n / g, d / g) else Ratio(-n / g, -d / g)
  }

  lemma ReducedIs(n: int, d: int)
    requires d != 0
    ensures var r := Reduced(n, d); Normal(r) && r.num * d == n * r.den
  {
    hide Gcd;
    GcdNegated(n, d);
    GcdNegated(-n, d);
    var x, y := if d > 0 then n else -n, if d > 0 then d else -d;
    var g, i, j := GcdReduces(x, y);
    DivExact(i, g);
    DivExact(j, g);
    FactorPositive(j, g);
    CrossFactors(i, j, g);
  }

  lemma FactorPositive(j: int, g: int)
    requires g > 0 && j * g > 0
    ensures j > 0
  {
    if j <= 0 { MulSign(j, g); }
  }

  lemma CrossFactors(i: int, j: int, g: int)
    ensures i * (j * g) == (i * g) * j && i * -(j * g) == -(i * g) * j
  {
    Regroup(i, j, g);
    Regroup(i, g, j);
  }

  /** Lowest terms are unique: any normal fraction with the value of n/d is its full normalisation. */
  lemma ReducedUnique(n: int, d: int, r: Ratio)
    requires d != 0 && Normal(r) && r.num * d == n * r.den
    ensures r == Reduced(n, d)
  {
    var t := Reduced(n, d);
    ReducedIs(n, d);
    Transfer(r.num, r.den, t.num, t.den, n, d);
    LowestTermsUnique(r.num, r.den, t.num, t.den);
  }

  lemma Transfer(a: int, b: int, c: int, e: int, n: int, d: int)
    requires d != 0 && a * d == n * b && c * d == n * e
    ensures a * e == c * b
  {
    assert (a * e) * d == (a * d) * e == (n * b) * e == (n * e) * b == (c * d) * b == (c * b) * d;
    MulCancel(a * e, c * b, d);
  }

  // ----- Values -----

  lemma MulReal(a: int, b: int)
    ensures (a * b) as real == a as real * b as real
  {
  }

  lemma RealCancel(x: real, y: real, z: real)
    requires z != 0.0 && x * z == y * z
    ensures x == y
  {
  }

  lemma Defines(n: int, d: int)
    requires d != 0
    ensures Quotient(n, d) * d as real == n as real
  {
  }

  /** Equal values are equal cross products. */
  lemma SameQuotient(a: int, b: int, c: int, d: int)
    requires b != 0 && d != 0
    ensures Quotient(a, b) == Quotient(c, d) <==> a * d == c * b
  {
    CrossDifference(a, b, c, d);
    var z := b as real * d as real;
    if a * d == c * b {
      RealCancel(Quotient(a, b) - Quotient(c, d), 0.0, z);
    }
  }

  lemma CrossDifference(a: int, b: int, c: int, d: int)
    requires b != 0 && d != 0
    ensures (Quotient(a, b) - Quotient(c, d)) * (b as real * d as real) == (a * d - c * b) as real
    ensures (Quotient(a, b) + Quotient(c, d)) * (b as real * d as real) == (a * d + c * b) as real
    ensures b as real * d as real != 0.0
  {
    var x, y := Quotient(a, b), Quotient(c, d);
    Defines(a, b);
    Defines(c, d);
    MulReal(a, d);
    MulReal(c, b);
    assert x * (b as real * d as real) == (x * b as real) * d as real;
    assert y * (b as real * d as real) == (y * d as real) * b as real;
  }

  /** Over positive denominators the order of values is the order of cross products. */
  lemma SameOrder(a: int, b: int, c: int, d: int)
    requires b > 0 && d > 0
    ensures Quotient(a, b) < Quotient(c, d) <==> a * d < c * b
  {
    var z := b as real * d as real;
    CrossDifference(a, b, c, d);
    assert z > 0.0;
    var x := Quotient(a, b) - Quotient(c, d);
    if x < 0.0 { assert x * z < 0.0; } else { assert x * z >= 0.0; }
  }

  /** Textbook arithmetic on fractions computes the arithmetic of values. */
  lemma Textbook(a: int, b: int, c: int, d: int)
    requires b != 0 && d != 0
    ensures b * d != 0
    ensures Quotient(a * d + c * b, b * d) == Quotient(a, b) + Quotient(c, d)
    ensures Quotient(a * d - c * b, b * d) == Quotient(a, b) - Quotient(c, d)
    ensures Quotient(a * c, b * d) == Quotient(a, b) * Quotient(c, d)
    ensures c != 0 ==> b * c != 0 && Quotient(a * d, b * c) == Quotient(a, b) / Quotient(c, d)
  {
    var x, y := Quotient(a, b), Quotient(c, d);
    var z := b as real * d as real;
    MulReal(b, d);
    CrossDifference(a, b, c, d);
    ValueIs(a * d + c * b, b * d, x + y);
    ValueIs(a * d - c * b, b * d, x - y);
    Defines(a, b);
    Defines(c, d);
    MulReal(a, c);
    assert (x * y) * z == (x * b as real) * (y * d as real) by { Rearrange(x, b as real, y, d as real); }
    ValueIs(a * c, b * d, x * y);
    if c != 0 {
      MulReal(b, c);
      MulReal(a, d);
      assert (x / y) * y == x;
      var w := x / y;
      assert w * (b as real * (y * d as real)) == (w * y) * (b as real * d as real) by {
        Rearrange4(w, b as real, y, d as real);
      }
      assert x * (b as real * d as real) == (x * b as real) * d as real;
      ValueIs(a * d, b * c, w);
    }
  }

  lemma Rearrange(x: real, b: real, y: real, d: real)
    ensures (x * y) * (b * d) == (x * b) * (y * d)
  {
    assert (x * y) * (b * d) == x * (y * (b * d));
    assert y * (b * d) == b * (y * d);
    assert x * (b * (y * d)) == (x * b) * (y * d);
  }

  lemma Rearrange4(w: real, b: real, y: real, d: real)
    ensures w * (b * (y * d)) == (w * y) * (b * d)
  {
    assert b * (y * d) == y * (b * d);
  }

  lemma ValueIs(n: int, d: int, v: real)
    requires d != 0 && v * d as real == n as real
    ensures Quotient(n, d) == v
  {
    Defines(n, d);
    RealCancel(Quotient(n, d), v, d as real);
  }

  lemma ReducedValue(n: int, d: int)
    requires d != 0
    ensures Reduced(n, d).den > 0 && Value(Reduced(n, d)) == Quotient(n, d)
  {
    ReducedIs(n, d);
    SameQuotient(Reduced(n, d).num, Reduced(n, d).den, n, d);
  }

  /** Two normal fractions of one value are the same pair. */
  lemma EqualValues(r: Ratio, s: Ratio)
    requires Normal(r) && Normal(s)
    ensures Value(r) == Value(s) <==> r == s
  {
    SameQuotient(r.num, r.den, s.num, s.den);
    if Value(r) == Value(s) { LowestTermsUnique(r.num, r.den, s.num, s.den); }
  }

  // ----- Addition -----

  /** The argument in the comment on `operator+=`: only a divisor of g can be left in the sum. */
  lemma SumIsReduced(a: int, b: int, c: int, d: int)
    requires b > 0 && d > 0 && Coprime(a, b) && Coprime(c, d)
    ensures var g := Gcd(b, d);
            && g > 0
            && var n := a * (d / g) + c * (b / g);
            && var h := Gcd(n, g);
            && h > 0 && n == (n / h) * h && d == (d / h) * h && b == (b / g) * g && d == (d / g) * g
            && Reduced(a * d + c * b, b * d) == Ratio(n / h, (b / g) * (d / h))
  {
    var g, b1, d1 := GcdReduces(b, d);
    DivExact(b1, g);
    DivExact(d1, g);
    var n := a * d1 + c * b1;
    SumCoprime(a, b, c, d, g, b1, d1);
    var h, n', g' := GcdReduces(n, g);
    DivExact(n', h);
    Regroup(d1, g', h);
    DivExact(d1 * g', h);
    var e := b1 * (d1 * g');
    assert Coprime(n', e) by {
      CoprimeOfMultiple(n', h, b1 * d1);
      CoprimeProduct(n', b1 * d1, g');
      Regroup(b1, d1, g');
    }
    Signs(b1, d1, g', g, h, b, d);
    SumCross(a, b, c, d, g, b1, d1, h, n', g');
    ReducedUnique(a * d + c * b, b * d, Ratio(n', e));
  }

  lemma Signs(b1: int, d1: int, g': int, g: int, h: int, b: int, d: int)
    requires g > 0 && h > 0 && g == g' * h && b > 0 && d > 0 && b == b1 * g && d == d1 * g
    ensures b1 > 0 && d1 > 0 && g' > 0 && b1 * (d1 * g') > 0 && b * d > 0
  {
    FactorPositive(b1, g);
    FactorPositive(d1, g);
    FactorPositive(g', h);
    assert d1 * g' > 0;
  }

  lemma CoprimeOfMultiple(n: int, h: int, m: int)
    requires Coprime(n * h, m)
    ensures Coprime(n, m)
  {
    assert n * h == h * n;
    CoprimeFactor(h, n, m);
  }

  lemma SumCoprime(a: int, b: int, c: int, d: int, g: int, b1: int, d1: int)
    requires Coprime(a, b) && Coprime(c, d) && b == b1 * g && d == d1 * g && Coprime(b1, d1)
    ensures Coprime(a * d1 + c * b1, b1 * d1)
  {
    HalfCoprime(a, b, c, g, b1, d1);
    GcdSymmetric(b1, d1);
    HalfCoprime(c, d, a, g, d1, b1);
    CoprimeProduct(a * d1 + c * b1, b1, d1);
  }

  lemma HalfCoprime(a: int, b: int, c: int, g: int, b1: int, d1: int)
    requires Coprime(a, b) && b == b1 * g && Coprime(b1, d1)
    ensures Coprime(a * d1 + c * b1, b1)
  {
    GcdSymmetric(a, b);
    assert b == g * b1;
    CoprimeFactor(g, b1, a);
    CoprimeProduct(b1, a, d1);
    GcdSymmetric(b1, a * d1);
    GcdShift(a * d1, b1, c);
  }

  lemma SumCross(a: int, b: int, c: int, d: int, g: int, b1: int, d1: int, h: int, n': int, g': int)
    requires b == b1 * g && d == d1 * g && g == g' * h && a * d1 + c * b1 == n' * h
    ensures n' * (b * d) == (a * d + c * b) * (b1 * (d1 * g'))
  {
    var n := a * d1 + c * b1;
    assert a * d + c * b == n * g by {
      Regroup(a, d1, g);
      Regroup(c, b1, g);
      assert (a * d1) * g + (c * b1) * g == n * g;
    }
    var x, y := b1 * g, d1 * g';
    assert (n' * h) * g * (b1 * y) == n' * ((b1 * g) * (h * y)) by { Shuffle(n', h, g, b1, y); }
    assert h * y == d by { Regroup(d1, g', h); assert h * y == y * h; }
  }

  lemma Shuffle(n: int, h: int, g: int, b: int, y: int)
    ensures (n * h) * g * (b * y) == n * ((b * g) * (h * y))
  {
    assert (n * h) * g * (b * y) == n * (h * g * (b * y));
    assert h * g * (b * y) == (h * g * b) * y == (b * g * h) * y == (b * g) * (h * y);
  }

  // ----- Multiplication -----

  /** Removing the common factors crosswise leaves nothing to reduce. */
  lemma ProductIsReduced(a: int, b: int, c: int, d: int)
    requires b > 0 && d > 0 && Coprime(a, b) && Coprime(c, d)
    ensures var g1, g2 := Gcd(a, d), Gcd(c, b);
            && g1 > 0 && g2 > 0
            && a == (a / g1) * g1 && d == (d / g1) * g1 && c == (c / g2) * g2 && b == (b / g2) * g2
            && Reduced(a * c, b * d) == Ratio((a / g1) * (c / g2), (b / g2) * (d / g1))
  {
    hide Gcd, Reduced;
    var g1, a1, d1 := GcdReduces(a, d);
    var g2, c1, b1 := GcdReduces(c, b);
    DivExact(a1, g1);
    DivExact(d1, g1);
    DivExact(c1, g2);
    DivExact(b1, g2);
    FactorPositive(d1, g1);
    FactorPositive(b1, g2);
    assert Coprime(a1, b1) by { PartsCoprime(a, b, a1, g1, b1, g2); }
    assert Coprime(c1, d1) by { PartsCoprime(c, d, c1, g2, d1, g1); }
    ProductCoprime(a1, b1, c1, d1);
    ProductCross(a1, b1, c1, d1, g1, g2);
    assert b1 * d1 > 0 && b * d > 0;
    ReducedUnique(a * c, b * d, Ratio(a1 * c1, b1 * d1));
  }

  lemma PartsCoprime(a: int, b: int, a1: int, g1: int, b1: int, g2: int)
    requires Coprime(a, b) && a == a1 * g1 && b == b1 * g2
    ensures Coprime(a1, b1)
  {
    CoprimeOfMultiple(a1, g1, b);
    GcdSymmetric(a1, b);
    CoprimeOfMultiple(b1, g2, a1);
    GcdSymmetric(a1, b1);
  }

  lemma ProductCoprime(a: int, b: int, c: int, d: int)
    requires Coprime(a, b) && Coprime(a, d) && Coprime(c, b) && Coprime(c, d)
    ensures Coprime(a * c, b * d)
  {
    CoprimeProduct(a, b, d);
    CoprimeProduct(c, b, d);
    GcdSymmetric(a, b * d);
    GcdSymmetric(c, b * d);
    CoprimeProduct(b * d, a, c);
    GcdSymmetric(a * c, b * d);
  }

  lemma ProductCross(a: int, b: int, c: int, d: int, g: int, h: int)
    ensures (a * c) * ((b * h) * (d * g)) == ((a * g) * (c * h)) * (b * d)
  {
    Exchange(b, h, d, g);
    Exchange(a, g, c, h);
    Regroup(a * c, b * d, h * g);
    Regroup(a * c, g * h, b * d);
    assert (b * d) * (h * g) == (g * h) * (b * d);
  }

  // ----- The operations as full normalisation would do them -----

  lemma NonZeroProduct(a: int, b: int)
    ensures a != 0 && b != 0 ==> a * b != 0
    ensures a > 0 && b > 0 ==> a * b > 0
  {
  }

  function Sum(a: Ratio, b: Ratio): Ratio
    requires a.den != 0 && b.den != 0
  {
    NonZeroProduct(a.den, b.den);
    Reduced(a.num * b.den + b.num * a.den, a.den * b.den)
  }

  function Difference(a: Ratio, b: Ratio): Ratio
    requires a.den != 0 && b.den != 0
  {
    NonZeroProduct(a.den, b.den);
    Reduced(a.num * b.den - b.num * a.den, a.den * b.den)
  }

  function Product(a: Ratio, b: Ratio): Ratio
    requires a.den != 0 && b.den != 0
  {
    NonZeroProduct(a.den, b.den);
    Reduced(a.num * b.num, a.den * b.den)
  }

  function Over(a: Ratio, b: Ratio): Ratio
    requires a.den != 0 && b.num != 0
  {
    NonZeroProduct(a.den, b.num);
    Reduced(a.num * b.den, a.den * b.num)
  }

  function Whole(i: int): Ratio { Ratio(i, 1) }

  lemma WholeIsNormal(i: int)
    ensures Normal(Whole(i)) && Value(Whole(i)) == i as real
  {
    assert i % 1 == 0;
  }

  /** Normalisation knows only the value. */
  lemma ReducedNegated(n: int, d: int)
    requires d != 0
    ensures Reduced(-n, -d) == Reduced(n, d)
  {
    hide Gcd, Reduced;
    ReducedIs(-n, -d);
    var r := Reduced(-n, -d);
    MinusProduct(r.num, d);
    NegatedProduct(n, r.den);
    ReducedUnique(n, d, r);
  }

  lemma ReducedParts(n: int, d: int) returns (g: int, i: int, j: int)
    requires d != 0
    ensures g == Gcd(n, d) > 0 && n == i * g && d == j * g && Coprime(i, j) && j != 0 && (d > 0 <==> j > 0)
    ensures Reduced(n, d) == if d > 0 then Ratio(i, j) else Ratio(-i, -j)
  {
    hide Gcd;
    g, i, j := GcdReduces(n, d);
    DivExact(i, g);
    DivExact(j, g);
    DivExact(-i, g);
    DivExact(-j, g);
    NegatedProduct(i, g);
    NegatedProduct(j, g);
    if d > 0 { FactorPositive(j, g); } else { FactorPositive(-j, g); }
  }

  lemma NegatedProduct(i: int, g: int)
    ensures -i * g == -(i * g)
  {
  }

  /** Division: crosswise with the other fraction turned over, and one change of sign. */
  lemma OverIsReduced(a: int, b: int, c: int, d: int)
    requires b > 0 && d > 0 && c != 0 && Coprime(a, b) && Coprime(c, d)
    ensures b * c != 0
    ensures var g1, g2 := Gcd(a, c), Gcd(d, b);
            && g1 > 0 && g2 > 0
            && a == (a / g1) * g1 && c == (c / g1) * g1 && d == (d / g2) * g2 && b == (b / g2) * g2
            && var n, m := (a / g1) * (d / g2), (b / g2) * (c / g1);
            && (m > 0 <==> c > 0) && m != 0
            && Reduced(a * d, b * c) == if c > 0 then Ratio(n, m) else Ratio(-n, -m)
  {
    hide Gcd, Reduced;
    NonZeroProduct(b, c);
    GcdSymmetric(c, d);
    if c > 0 {
      ProductIsReduced(a, b, d, c);
      CrosswisePositive(a, b, c, d);
    } else {
      OverNegative(a, b, c, d);
    }
  }

  lemma OverNegative(a: int, b: int, c: int, d: int)
    requires b > 0 && d > 0 && c < 0 && Coprime(a, b) && Coprime(d, c)
    ensures b * c != 0
    ensures var g1, g2 := Gcd(a, c), Gcd(d, b);
            && g1 > 0 && g2 > 0
            && a == (a / g1) * g1 && c == (c / g1) * g1 && d == (d / g2) * g2 && b == (b / g2) * g2
            && var n, m := (a / g1) * (d / g2), (b / g2) * (c / g1);
            && m < 0 && Reduced(a * d, b * c) == Ratio(-n, -m)
  {
    hide Gcd, Reduced;
    GcdNegated(d, c);
    GcdNegated(-d, c);
    GcdNegated(a, c);
    GcdNegated(d, b);
    ProductIsReduced(a, b, -d, -c);
    CrosswisePositive(a, b, -c, d);
    var g1, g2 := Gcd(a, c), Gcd(d, b);
    NegatedDivision(c, g1);
    NegatedDivision(d, g2);
    MinusProduct(a / g1, d / g2);
    MinusProduct(b / g2, c / g1);
    MinusProduct(a, d);
    MinusProduct(b, c);
    NonZeroProduct(b, c);
    ReducedNegated(a * d, b * c);
  }

  lemma CrosswisePositive(a: int, b: int, c: int, d: int)
    requires b > 0 && c > 0
    ensures Gcd(d, b) > 0 && Gcd(a, c) > 0 && (b / Gcd(d, b)) * (c / Gcd(a, c)) > 0
  {
    hide Gcd;
    var g2, d1, b1 := GcdReduces(d, b);
    var g1, a1, c1 := GcdReduces(a, c);
    DivExact(b1, g2);
    DivExact(c1, g1);
    FactorPositive(b1, g2);
    FactorPositive(c1, g1);
    NonZeroProduct(b1, c1);
  }

  lemma NegatedDivision(x: int, g: int)
    requires g > 0 && -x == (-x / g) * g
    ensures x / g == -(-x / g) && x == (x / g) * g
  {
    NegatedProduct(-x / g, g);
    DivExact(-(-x / g), g);
  }

  lemma MinusProduct(a: int, b: int)
    ensures a * -b == -(a * b)
  {
  }

  /** The operations compute the exact arithmetic of values, in lowest terms. */
  lemma OperationsAreExact(a: Ratio, b: Ratio)
    requires Normal(a) && Normal(b)
    ensures Normal(Sum(a, b)) && Value(Sum(a, b)) == Value(a) + Value(b)
    ensures Normal(Difference(a, b)) && Value(Difference(a, b)) == Value(a) - Value(b)
    ensures Normal(Product(a, b)) && Value(Product(a, b)) == Value(a) * Value(b)
    ensures b.num != 0 ==> Normal(Over(a, b)) && Value(Over(a, b)) == Value(a) / Value(b)
  {
    hide Reduced, Gcd, Value, Quotient;
    Textbook(a.num, a.den, b.num, b.den);
    ExactFraction(a.num * b.den + b.num * a.den, a.den * b.den);
    ExactFraction(a.num * b.den - b.num * a.den, a.den * b.den);
    ExactFraction(a.num * b.num, a.den * b.den);
    ValueOf(a);
    ValueOf(b);
    if b.num != 0 { ExactFraction(a.num * b.den, a.den * b.num); }
  }

  lemma ValueOf(r: Ratio)
    requires r.den != 0
    ensures Value(r) == Quotient(r.num, r.den)
    ensures Value(r) == 0.0 <==> r.num == 0
  {
    SameQuotient(r.num, r.den, 0, 1);
    ValueIs(0, 1, 0.0);
  }

  lemma ExactFraction(n: int, d: int)
    requires d != 0
    ensures Normal(Reduced(n, d)) && Value(Reduced(n, d)) == Quotient(n, d)
  {
    ReducedIs(n, d);
    ReducedValue(n, d);
  }

  // ----- Histories -----

  /** The mutating operations on a `rational`; the operand may be the object itself or an integer. */
  datatype Operation =
    | Plus(r: Ratio) | Minus(r: Ratio) | Times(r: Ratio) | DividedBy(r: Ratio)
    | PlusSelf | MinusSelf | TimesSelf | DividedBySelf
    | PlusWhole(i: int) | MinusWhole(i: int) | TimesWhole(i: int) | DividedByWhole(i: int)
    | Increment | Decrement
  {
    /** The operand as a fraction. */
    function Operand(self: Ratio): Ratio {
      match this
      case Plus(r) => r
      case Minus(r) => r
      case Times(r) => r
      case DividedBy(r) => r
      case PlusWhole(i) => Whole(i)
      case MinusWhole(i) => Whole(i)
      case TimesWhole(i) => Whole(i)
      case DividedByWhole(i) => Whole(i)
      case Increment => Whole(1)
      case Decrement => Whole(1)
      case _ => self
    }

    predicate OnWhole() { PlusWhole? || MinusWhole? || TimesWhole? || DividedByWhole? }

    predicate OnSelf() { PlusSelf? || MinusSelf? || TimesSelf? || DividedBySelf? }

    /** A fraction given as an operand is a `rational` itself. */
    predicate IsNormal() { (Plus? || Minus? || Times? || DividedBy?) ==> Normal(r) }

    predicate Adds() { Plus? || PlusSelf? || PlusWhole? || Increment? }
    predicate Subtracts() { Minus? || MinusSelf? || MinusWhole? || Decrement? }
    predicate Multiplies() { Times? || TimesSelf? || TimesWhole? }
  }

  /** What each operation leaves in the object. A division by zero throws and leaves it as it was. */
  function Applied(op: Operation, r: Ratio): Ratio
    requires r.den != 0 && op.Operand(r).den != 0
  {
    var s := op.Operand(r);
    if op.Adds() then Sum(r, s)
    else if op.Subtracts() then Difference(r, s)
    else if op.Multiplies() then Product(r, s)
    else if s.num == 0 then r
    else Over(r, s)
  }

  /** The same operation on exact values. */
  ghost function Meaning(op: Operation, v: real): real
    requires op.IsNormal()
  {
    match op
    case Plus(s) => v + Value(s)
    case Minus(s) => v - Value(s)
    case Times(s) => v * Value(s)
    case DividedBy(s) => if Value(s) == 0.0 then v else v / Value(s)
    case PlusSelf => v + v
    case MinusSelf => 0.0
    case TimesSelf => v * v
    case DividedBySelf => if v == 0.0 then 0.0 else 1.0
    case PlusWhole(i) => v + i as real
    case MinusWhole(i) => v - i as real
    case TimesWhole(i) => v * i as real
    case DividedByWhole(i) => if i == 0 then v else v / i as real
    case Increment => v + 1.0
    case Decrement => v - 1.0
  }

  lemma AppliedIsExact(op: Operation, r: Ratio)
    requires Normal(r) && op.IsNormal()
    ensures op.Operand(r).den != 0
    ensures Normal(Applied(op, r)) && Value(Applied(op, r)) == Meaning(op, Value(r))
  {
    hide *;
    OperandIsNormal(op, r);
    if op.OnSelf() {
      AppliedOnSelf(op, r);
    } else if op.Plus? || op.Minus? || op.Times? || op.DividedBy? {
      AppliedOnOther(op, r);
    } else {
      AppliedOnWhole(op, r);
    }
  }

  lemma AppliedOnOther(op: Operation, r: Ratio)
    requires Normal(r) && op.IsNormal() && (op.Plus? || op.Minus? || op.Times? || op.DividedBy?)
    ensures op.Operand(r).den != 0
    ensures Normal(Applied(op, r)) && Value(Applied(op, r)) == Meaning(op, Value(r))
  {
    hide Applied, Value, Gcd;
    EachOperation(r, op.r);
    ValueOf(op.r);
  }

  lemma AppliedOnSelf(op: Operation, r: Ratio)
    requires Normal(r) && op.OnSelf()
    ensures op.Operand(r).den != 0 && op.IsNormal()
    ensures Normal(Applied(op, r)) && Value(Applied(op, r)) == Meaning(op, Value(r))
  {
    hide Applied, Value, Gcd;
    EachOnSelf(r);
    WholeIsNormal(0);
    WholeIsNormal(1);
    ValueOf(r);
  }

  lemma AppliedOnWhole(op: Operation, r: Ratio)
    requires Normal(r) && !op.OnSelf() && !op.Plus? && !op.Minus? && !op.Times? && !op.DividedBy?
    ensures op.Operand(r).den != 0 && op.IsNormal()
    ensures Normal(Applied(op, r)) && Value(Applied(op, r)) == Meaning(op, Value(r))
  {
    hide Applied, Value, Gcd;
    EachOnWhole(r, if op.OnWhole() then op.i else 1);
  }

  /** Every operation with another object, written out. */
  lemma EachOperation(r: Ratio, s: Ratio)
    requires Normal(r) && Normal(s)
    ensures var t := Applied(Plus(s), r); Normal(t) && Value(t) == Value(r) + Value(s)
    ensures var t := Applied(Minus(s), r); Normal(t) && Value(t) == Value(r) - Value(s)
    ensures var t := Applied(Times(s), r); Normal(t) && Value(t) == Value(r) * Value(s)
    ensures var t := Applied(DividedBy(s), r);
            if s.num == 0 then t == r else Value(s) != 0.0 && Normal(t) && Value(t) == Value(r) / Value(s)
  {
    hide Sum, Difference, Product, Over, Value, Gcd;
    OperationsAreExact(r, s);
    ValueOf(s);
  }

  /** With the object itself. */
  lemma EachOnSelf(r: Ratio)
    requires Normal(r)
    ensures var t := Applied(PlusSelf, r); Normal(t) && Value(t) == Value(r) + Value(r)
    ensures Applied(MinusSelf, r) == Ratio(0, 1)
    ensures var t := Applied(TimesSelf, r); Normal(t) && Value(t) == Value(r) * Value(r)
    ensures Applied(DividedBySelf, r) == if r.num == 0 then r else Ratio(1, 1)
  {
    hide Sum, Difference, Product, Over, Value, Gcd;
    OperationsAreExact(r, r);
    WholeIsNormal(0);
    WholeIsNormal(1);
    ValueOf(r);
    EqualValues(Difference(r, r), Whole(0));
    if r.num != 0 {
      OverSelf(Value(r));
      EqualValues(Over(r, r), Whole(1));
    }
  }

  lemma OverSelf(v: real)
    requires v != 0.0
    ensures v / v == 1.0
  {
  }

  /** With an integer. */
  lemma EachOnWhole(r: Ratio, i: int)
    requires Normal(r)
    ensures var t := Applied(PlusWhole(i), r); Normal(t) && Value(t) == Value(r) + i as real
    ensures var t := Applied(MinusWhole(i), r); Normal(t) && Value(t) == Value(r) - i as real
    ensures var t := Applied(TimesWhole(i), r); Normal(t) && Value(t) == Value(r) * i as real
    ensures var t := Applied(DividedByWhole(i), r);
            if i == 0 then t == r else Normal(t) && Value(t) == Value(r) / i as real
    ensures var t := Applied(Increment, r); Normal(t) && Value(t) == Value(r) + 1.0
    ensures var t := Applied(Decrement, r); Normal(t) && Value(t) == Value(r) - 1.0
  {
    hide Sum, Difference, Product, Over, Value, Gcd, Normal;
    WholeIsNormal(1);
    WholeIsNormal(i);
    OperationsAreExact(r, Whole(i));
    OperationsAreExact(r, Whole(1));
    NormalDen(r);
  }

  lemma NormalDen(r: Ratio)
    requires Normal(r)
    ensures r.den > 0
  {
  }

  /** The same on exact values. */
  lemma EachMeaning(v: real, s: Ratio, i: int)
    requires Normal(s)
    ensures Meaning(Plus(s), v) == v + Value(s) && Meaning(Minus(s), v) == v - Value(s)
    ensures Meaning(Times(s), v) == v * Value(s)
    ensures Meaning(DividedBy(s), v) == if Value(s) == 0.0 then v else v / Value(s)
    ensures Meaning(PlusSelf, v) == v + v && Meaning(MinusSelf, v) == 0.0 && Meaning(TimesSelf, v) == v * v
    ensures Meaning(DividedBySelf, v) == if v == 0.0 then 0.0 else 1.0
    ensures Meaning(PlusWhole(i), v) == v + i as real && Meaning(MinusWhole(i), v) == v - i as real
    ensures Meaning(TimesWhole(i), v) == v * i as real
    ensures Meaning(DividedByWhole(i), v) == if i == 0 then v else v / i as real
    ensures Meaning(Increment, v) == v + 1.0 && Meaning(Decrement, v) == v - 1.0
  {
    hide Value, Normal;
  }

  lemma OperandIsNormal(op: Operation, r: Ratio)
    requires Normal(r) && op.IsNormal()
    ensures Normal(op.Operand(r))
  {
    WholeIsNormal(1);
    if op.OnWhole() { WholeIsNormal(op.i); }
  }

  /** A whole history of operations, the last one applied last. */
  ghost function History(ops: seq<Operation>, r: Ratio): (s: Ratio)
    requires Normal(r) && forall op <- ops :: op.IsNormal()
    ensures Normal(s)
  {
    if ops == [] then r
    else
      var k := |ops| - 1;
      assert ops[k] in ops;
      var s := History(ops[..k], r);
      AppliedIsExact(ops[k], s);
      Applied(ops[k], s)
  }

  ghost function MeaningOfAll(ops: seq<Operation>, v: real): real
    requires forall op <- ops :: op.IsNormal()
  {
    if ops == [] then v
    else
      var k := |ops| - 1;
      assert ops[k] in ops;
      Meaning(ops[k], MeaningOfAll(ops[..k], v))
  }

  /** A history goes one operation at a time. */
  lemma HistoryOneMore(ops: seq<Operation>, op: Operation, r: Ratio, v: real)
    requires Normal(r) && op.IsNormal() && forall o <- ops :: o.IsNormal()
    ensures forall o <- ops + [op] :: o.IsNormal()
    ensures History([], r) == r && MeaningOfAll([], v) == v
    ensures var s := History(ops, r); op.Operand(s).den != 0 && History(ops + [op], r) == Applied(op, s)
    ensures MeaningOfAll(ops + [op], v) == Meaning(op, MeaningOfAll(ops, v))
  {
    hide Applied, Meaning, Gcd;
    assert (ops + [op])[..|ops|] == ops;
    AppliedIsExact(op, History(ops, r));
  }

  /** Over every history the object stays in lowest terms and holds the exact value, so its members are the
      normalisation of that value and nothing else. */
  lemma {:induction false} HistoryIsExact(ops: seq<Operation>, r: Ratio)
    requires Normal(r) && forall op <- ops :: op.IsNormal()
    ensures Normal(History(ops, r)) && Value(History(ops, r)) == MeaningOfAll(ops, Value(r))
    ensures forall s :: Normal(s) && Value(s) == MeaningOfAll(ops, Value(r)) ==> s == History(ops, r)
    decreases |ops|
  {
    hide Applied, Meaning, Value, Gcd;
    if ops != [] {
      var k := |ops| - 1;
      assert ops[k] in ops;
      HistoryIsExact(ops[..k], r);
      AppliedIsExact(ops[k], History(ops[..k], r));
    }
    forall s | Normal(s) && Value(s) == MeaningOfAll(ops, Value(r)) ensures s == History(ops, r) {
      EqualValues(s, History(ops, r));
    }
  }

  // ----- Order -----

  predicate Less(a: Ratio, b: Ratio) { a.num * b.den < b.num * a.den }

  /** On normal fractions `==` on the members is equality of values, `<` is their order, and it is total. */
  lemma OrderIsTotal(a: Ratio, b: Ratio, c: Ratio)
    requires Normal(a) && Normal(b) && Normal(c)
    ensures Less(a, b) <==> Value(a) < Value(b)
    ensures a == b <==> Value(a) == Value(b)
    ensures !Less(a, a) && (Less(a, b) || a == b || Less(b, a)) && !(Less(a, b) && Less(b, a))
    ensures Less(a, b) && Less(b, c) ==> Less(a, c)
  {
    hide Gcd, Quotient;
    SameOrder(a.num, a.den, b.num, b.den);
    SameOrder(b.num, b.den, c.num, c.den);
    SameOrder(a.num, a.den, c.num, c.den);
    SameOrder(b.num, b.den, a.num, a.den);
    EqualValues(a, b);
  }

  // ----- Divisors and multiples -----

  /** b is an integer multiple of a. */
  ghost predicate Measures(a: Ratio, b: Ratio) {
    exists k :: b.num * a.den == k * (a.num * b.den)
  }

  /** In lowest terms: the numerators divide one way, the denominators the other. */
  lemma MeasuresParts(a: Ratio, b: Ratio)
    requires Normal(a) && Normal(b)
    ensures Measures(a, b) <==> Divides(a.num, b.num) && Divides(b.den, a.den)
  {
    var p, q, m, n := a.num, a.den, b.num, b.den;
    if Measures(a, b) {
      var k :| m * q == k * (p * n);
      assert m * q == (k * n) * p by { Regroup(k, p, n); Regroup(k, n, p); assert p * n == n * p; }
      DividesIf(p, m * q, k * n);
      assert m * q == q * m;
      Gauss(p, q, m);
      assert m * q == (k * p) * n by { Regroup(k, p, n); }
      DividesIf(n, m * q, k * p);
      GcdSymmetric(m, n);
      Gauss(n, m, q);
    }
    if Divides(p, m) && Divides(n, q) {
      var i := Factor(p, m);
      var j := Factor(n, q);
      assert (i * p) * (j * n) == (i * j) * (p * n) by { Exchange(i, p, j, n); }
    }
  }

  /** In values: one is an integer times the other. */
  lemma MeasuresValues(a: Ratio, b: Ratio)
    requires a.den > 0 && b.den > 0
    ensures Measures(a, b) <==> exists k: int :: Value(b) == Quotient(k, 1) * Value(a)
  {
    hide Value, Quotient;
    forall k: int
      ensures b.num * a.den == k * (a.num * b.den) <==> Value(b) == Quotient(k, 1) * Value(a)
    {
      MultipleValue(a, b, k);
    }
    if Measures(a, b) {
      var k :| b.num * a.den == k * (a.num * b.den);
      assert Value(b) == Quotient(k, 1) * Value(a);
    }
  }

  lemma MultipleValue(a: Ratio, b: Ratio, k: int)
    requires a.den > 0 && b.den > 0
    ensures b.num * a.den == k * (a.num * b.den) <==> Value(b) == Quotient(k, 1) * Value(a)
  {
    hide Value, Quotient;
    ValueOf(a);
    ValueOf(b);
    Textbook(k, 1, a.num, a.den);
    assert 1 * a.den == a.den;
    SameQuotient(b.num, b.den, k * a.num, a.den);
    Regroup(k, a.num, b.den);
  }

  lemma DivisorCoprime(a: int, b: int, g: int)
    requires Coprime(a, b) && Divides(g, a)
    ensures Coprime(g, b)
  {
    var k := Factor(g, a);
    CoprimeFactor(k, g, b);
  }
}
