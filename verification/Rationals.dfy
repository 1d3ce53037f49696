/** The class `rational` over a signed built-in type. Every operation on the machine type is written so that its
    exact result must fit: where a method has no precondition about results, nothing in it can overflow. */
module Rationals {
  import opened NumberTheory
  import opened CommonFactor
  import opened Ratios

  // ----- Machine arithmetic, undefined outside the range -----

  function Add(l: Limits, x: int, y: int): int
    requires l.Fits(x + y)
  {
    x + y
  }

  function Sub(l: Limits, x: int, y: int): int
    requires l.Fits(x - y)
  {
    x - y
  }

  function Mul(l: Limits, x: int, y: int): int
    requires l.Fits(x * y)
  {
    x * y
  }

  function Div(l: Limits, x: int, y: int): int
    requires y != 0 && l.Fits(CDiv(x, y))
  {
    CDiv(x, y)
  }

  function Mod(l: Limits, x: int, y: int): int
    requires y != 0 && l.Fits(CDiv(x, y))
  {
    CMod(x, y)
  }

  // ----- One value's expansion as a continued fraction -----

  /** Numerator, denominator, quotient and remainder of the current cycle. */
  datatype Cycle = Cycle(n: int, d: int, q: int, r: int) {
    predicate Valid(l: Limits) {
      && n == q * d + r && 0 <= r < d
      && l.Fits(n) && l.Fits(d) && l.Fits(q)
    }
  }

  lemma FloorFits(l: Limits, n: int, d: int, q: int, r: int)
    requires l.max > 0 && l.Fits(n) && d >= 1 && n == q * d + r && 0 <= r < d
    ensures l.Fits(q)
  {
    if q < l.Min() {
      MulGrows(d, l.Min() - q - 1);
      MulAtMost(l.Min(), d);
      Spread3(d, l.Min(), q);
    }
    if q > l.max {
      MulGrows(d, q);
      Regroup(d, q, 1);
    }
  }

  lemma Spread3(d: int, m: int, q: int)
    ensures d * (m - q - 1) == m * d - q * d - d
  {
  }

  lemma MulAtMost(m: int, d: int)
    requires m <= 0 && d >= 1
    ensures m * d <= m
  {
    MulGrows(d, -m);
    assert d * -m == -(m * d);
  }

  lemma TruncatedParts(l: Limits, n: int, d: int)
    requires l.max > 0 && l.Fits(n) && l.Fits(d) && d > 0
    ensures var q, r := CDiv(n, d), CMod(n, d);
            n == q * d + r && -d < r < d && l.Fits(q) && (n >= 0 ==> r >= 0)
  {
    CModRange(n, d);
    QuotientRange(l, n, d);
  }

  lemma QuotientRange(l: Limits, n: int, d: int)
    requires l.max > 0 && l.Fits(n) && d > 0
    ensures l.Fits(CDiv(n, d))
  {
    QuotientShrinks(Abs(n), d);
  }

  /** The first cycle: C++ division, then the remainder is made non-negative. */
  method FirstCycle(l: Limits, n: int, d: int) returns (c: Cycle)
    requires l.max > 0 && l.Fits(n) && l.Fits(d) && d > 0
    ensures c.Valid(l) && c.n == n && c.d == d
  {
    TruncatedParts(l, n, d);
    var q, r := Div(l, n, d), Mod(l, n, d);
    while r < 0
      invariant n == q * d + r && -d < r < d && l.Fits(q)
      decreases -r
    {
      assert n == (q - 1) * d + (r + d);
      FloorFits(l, n, d, q - 1, r + d);
      r := Add(l, r, d);
      q := Sub(l, q, 1);
    }
    c := Cycle(n, d, q, r);
  }

  /** Later cycles: the fractional part turned over. */
  method NextCycle(l: Limits, c: Cycle) returns (c': Cycle)
    requires l.max > 0 && c.Valid(l) && c.r != 0
    ensures c'.Valid(l) && c'.n == c.d && c'.d == c.r
  {
    var n, d := c.d, c.r;
    TruncatedParts(l, n, d);
    c' := Cycle(n, d, Div(l, n, d), Mod(l, n, d));
  }

  /** Different whole parts decide the order. */
  lemma WholePartsDecide(l: Limits, s: Cycle, t: Cycle)
    requires s.Valid(l) && t.Valid(l) && s.q < t.q
    ensures s.n * t.d < t.n * s.d
  {
    var e := s.d * t.d;
    Distribute(s.q, s.d, s.r, t.d);
    Distribute(t.q, t.d, t.r, s.d);
    Regroup(t.d, s.d, 1);
    Below(s.r, s.d, t.d);
    NonNegative(t.r, s.d);
    NonNegative(s.d, t.d);
    QuotientGap(s.q, t.q, e);
  }

  lemma NonNegative(x: int, y: int)
    requires x >= 0 && y >= 0
    ensures x * y >= 0
  {
  }

  lemma QuotientGap(p: int, q: int, e: int)
    requires p < q && e >= 0
    ensures q * e >= p * e + e
  {
    MulGrows(q - p, e);
    assert (q - p) * e == q * e - p * e;
  }

  /** Equal whole parts leave the order to the fractional parts. */
  lemma WholePartsCancel(l: Limits, s: Cycle, t: Cycle)
    requires s.Valid(l) && t.Valid(l) && s.q == t.q
    ensures s.n * t.d < t.n * s.d <==> s.r * t.d < t.r * s.d
    ensures s.n * t.d > t.n * s.d <==> s.r * t.d > t.r * s.d
  {
    Distribute(s.q, s.d, s.r, t.d);
    Distribute(t.q, t.d, t.r, s.d);
    assert t.d * s.d == s.d * t.d;
  }

  lemma Distribute(q: int, d: int, r: int, e: int)
    ensures (q * d + r) * e == q * (d * e) + r * e
  {
    Regroup(q, d, e);
  }

  lemma Below(r: int, d: int, e: int)
    requires r < d && e > 0
    ensures r * e < d * e
  {
  }

  lemma ZeroAgainst(d: int, r: int)
    requires d > 0 && r >= 0
    ensures 0 * d == 0 && (r != 0 ==> r * d > 0)
  {
  }

  // ----- The check on conversions -----

  /** The class's own `inner_gcd`; it can come out negative. */
  function InnerGcd(a: int, b: int): int
    decreases Abs(b)
  {
    if b == 0 then a else CModRange(a, b); InnerGcd(b, CMod(a, b))
  }

  predicate IsNormalized(n: int, d: int) {
    d > 0 && (n != 0 || d == 1) && Abs(InnerGcd(n, d)) == 1
  }

  lemma {:induction false} InnerGcdIs(a: int, b: int)
    ensures Abs(InnerGcd(a, b)) == Gcd(a, b)
    decreases Abs(b)
  {
    if b != 0 {
      CModRange(a, b);
      InnerGcdIs(b, CMod(a, b));
      GcdSymmetric(b, CMod(a, b));
    }
  }

  /** `is_normalized` accepts exactly the pairs that satisfy the class invariant. */
  lemma IsNormalizedExactly(n: int, d: int)
    ensures IsNormalized(n, d) <==> Normal(Ratio(n, d))
  {
    InnerGcdIs(n, d);
    if n == 0 && d > 0 {
      GcdSymmetric(0, d);
      assert Gcd(d, 0) == d;
    }
  }

  // ----- Facts about the range -----

  /** A factor of a number in range is in range. */
  lemma FactorFits(l: Limits, i: int, g: int)
    requires g > 0 && l.Fits(i * g) && l.max > 0
    ensures l.Fits(i)
  {
    if i >= 0 {
      MulGrows(g, i);
      assert g * i == i * g;
    } else {
      MulAtMost(i, g);
    }
  }

  /** The exact divisions of the algorithms, as C++ performs them. */
  lemma DivisionIs(l: Limits, x: int, g: int)
    requires g > 0 && x == (x / g) * g && l.Fits(x) && l.max > 0
    ensures CDiv(x, g) == x / g && l.Fits(x / g)
  {
    CDivExact(x / g, g);
    FactorFits(l, x / g, g);
  }

  /** Only the least value itself divides to the least value. */
  lemma UnreducedLeast(l: Limits, d: int, g: int, j: int)
    requires l.max > 0 && g > 0 && d == j * g && l.Fits(d) && j < -l.max
    ensures g == 1
  {
    AtLeastTwice(j, g);
  }

  lemma AtLeastTwice(j: int, g: int)
    requires j < 0
    ensures g >= 2 ==> j * g <= 2 * j
  {
  }

  lemma SignedDivisionIs(l: Limits, x: int, g: int, i: int)
    requires g > 0 && x == i * g && l.Fits(x) && l.max > 0
    ensures CDiv(x, g) == i && l.Fits(i)
  {
    CDivExact(i, g);
    FactorFits(l, i, g);
  }

  /** A positive argument keeps `gcd` defined. */
  lemma GcdWithPositive(l: Limits, a: int, b: int)
    requires l.max > 0 && l.Fits(a) && l.Fits(b) && b > 0
    ensures GcdDefined(l, a, b) && GcdDefined(l, b, a)
  {
  }

  // ----- When an operation does not overflow -----

  /** Addition and subtraction form both products and their sum before the last common factor is removed. */
  predicate SumFits(l: Limits, a: Ratio, b: Ratio) {
    && a.den > 0 && b.den > 0
    && var g := Gcd(a.den, b.den);
    && g > 0
    && l.Fits(a.num * (b.den / g)) && l.Fits(b.num * (a.den / g))
    && l.Fits(a.num * (b.den / g) + b.num * (a.den / g)) && l.Fits(Sum(a, b).den)
  }

  predicate DifferenceFits(l: Limits, a: Ratio, b: Ratio) {
    && a.den > 0 && b.den > 0
    && var g := Gcd(a.den, b.den);
    && g > 0
    && l.Fits(a.num * (b.den / g)) && l.Fits(b.num * (a.den / g))
    && l.Fits(a.num * (b.den / g) - b.num * (a.den / g)) && l.Fits(Difference(a, b).den)
  }

  /** Multiplication needs no more than its exact result. */
  predicate ProductFits(l: Limits, a: Ratio, b: Ratio) {
    a.den != 0 && b.den != 0 && l.Fits(Product(a, b).num) && l.Fits(Product(a, b).den)
  }

  /** Division forms the numerator before the sign is put right, so its negation must be representable too when the
      divisor is negative; and the two numerators must have a defined greatest common divisor. */
  predicate OverFits(l: Limits, a: Ratio, b: Ratio) {
    && a.den != 0 && b.num != 0 && GcdDefined(l, a.num, b.num)
    && l.Fits(Over(a, b).num) && l.Fits(Over(a, b).den) && (b.num < 0 ==> l.Fits(-Over(a, b).num))
  }

  /** The same for every operation of a history. */
  predicate OperationFits(l: Limits, op: Operation, r: Ratio)
    requires r.den != 0
  {
    var s := op.Operand(r);
    && l.Fits(s.num) && l.Fits(s.den)
    && match op
       case PlusWhole(i) => l.Fits(i * r.den) && l.Fits(r.num + i * r.den)
       case MinusWhole(i) => l.Fits(i * r.den) && l.Fits(r.num - i * r.den)
       case TimesWhole(i) => l.Fits(Product(r, Whole(i)).num)
       case DividedByWhole(i) => r.num != 0 && i != 0 ==>
         GcdDefined(l, r.num, i) && l.Fits(Over(r, Whole(i)).num) && l.Fits(Over(r, Whole(i)).den)
       case Increment => l.Fits(r.num + r.den)
       case Decrement => l.Fits(r.num - r.den)
       case _ =>
         if op.Adds() then SumFits(l, r, s)
         else if op.Subtracts() then DifferenceFits(l, r, s)
         else if op.Multiplies() then ProductFits(l, r, s)
         else r.num != 0 && s.num != 0 ==> OverFits(l, r, s)
  }

  // ----- The class -----

  class Rational {
    const l: Limits
    var num: int
    var den: int

    /** The class invariant, and its range. */
    ghost predicate Valid()
      reads this
    {
      Normal(R()) && l.max > 0 && l.Fits(num) && l.Fits(den)
    }

    function R(): Ratio
      reads this
    {
      Ratio(num, den)
    }

    constructor FromInteger(l: Limits, n: int)
      requires l.max > 0 && l.Fits(n)
      ensures Valid() && this.l == l && R() == Whole(n)
    {
      this.l, num, den := l, n, 1;
      new;
      WholeIsNormal(n);
    }

    /** The members before `normalize` has run. */
    constructor Raw(l: Limits, n: int, d: int)
      ensures this.l == l && num == n && den == d
    {
      this.l, num, den := l, n, d;
    }

    /** `normalize`. It throws for a zero denominator and for one that cannot be made positive, and is undefined
        when the greatest common divisor is or the numerator cannot change its sign. */
    method Normalize() returns (ok: bool)
      requires l.max > 0 && l.Fits(num) && l.Fits(den)
      requires num != 0 && den != 0 ==> GcdDefined(l, num, den)
      requires den != 0 && l.Fits(Reduced(num, den).den) ==> l.Fits(Reduced(num, den).num)
      modifies this
      ensures ok <==> old(den) != 0 && l.Fits(Reduced(old(num), old(den)).den)
      ensures ok ==> Valid() && R() == Reduced(old(num), old(den))
      ensures !ok ==> unchanged(this)
    {
      hide Gcd, Reduced;
      if den == 0 { return false; }
      ghost var g, i, j := ReducedParts(num, den);
      ReducedIs(num, den);
      if num == 0 {
        WholeIsNormal(0);
        ReducedUnique(0, den, Whole(0));
        den := 1;
        return true;
      }
      var gcd := IntegerGcd(l, num, den);
      SignedDivisionIs(l, num, g, i);
      SignedDivisionIs(l, den, g, j);
      num := Div(l, num, gcd.value);
      den := Div(l, den, gcd.value);
      if den < -l.max {
        UnreducedLeast(l, old(den), g, j);
        return false;
      }
      if den < 0 {
        num := Sub(l, 0, num);
        den := Sub(l, 0, den);
      }
      ok := true;
    }

    method AddAssign(r: Rational)
      requires Valid() && r.Valid() && r.l == l
      requires var g := Gcd(den, r.den);
               && g > 0 && l.Fits(num * (r.den / g)) && l.Fits(r.num * (den / g))
               && l.Fits(num * (r.den / g) + r.num * (den / g)) && l.Fits(Sum(R(), r.R()).den)
      modifies this
      ensures Valid() && R() == Sum(old(R()), old(r.R()))
    {
      hide Gcd, Reduced;
      var rNum, rDen := r.num, r.den;
      SumIsReduced(num, den, rNum, rDen);
      NonZeroProduct(den, rDen);
      ReducedIs(num * rDen + rNum * den, den * rDen);
      GcdWithPositive(l, den, rDen);
      var g := IntegerGcd(l, den, rDen);
      DivisionIs(l, den, g.value);
      DivisionIs(l, rDen, g.value);
      den := Div(l, den, g.value);
      num := Add(l, Mul(l, num, Div(l, rDen, g.value)), Mul(l, rNum, den));
      GcdWithPositive(l, num, g.value);
      g := IntegerGcd(l, num, g.value);
      DivisionIs(l, num, g.value);
      DivisionIs(l, rDen, g.value);
      num := Div(l, num, g.value);
      den := Mul(l, den, Div(l, rDen, g.value));
    }

    method SubtractAssign(r: Rational)
      requires Valid() && r.Valid() && r.l == l
      requires var g := Gcd(den, r.den);
               && g > 0 && l.Fits(num * (r.den / g)) && l.Fits(r.num * (den / g))
               && l.Fits(num * (r.den / g) - r.num * (den / g)) && l.Fits(Difference(R(), r.R()).den)
      modifies this
      ensures Valid() && R() == Difference(old(R()), old(r.R()))
    {
      hide Gcd, Reduced;
      var rNum, rDen := r.num, r.den;
      GcdNegated(rNum, rDen);
      SumIsReduced(num, den, -rNum, rDen);
      NegatedProduct(rNum, den);
      NegatedProduct(rNum, den / Gcd(den, rDen));
      NonZeroProduct(den, rDen);
      ReducedIs(num * rDen - rNum * den, den * rDen);
      GcdWithPositive(l, den, rDen);
      var g := IntegerGcd(l, den, rDen);
      DivisionIs(l, den, g.value);
      DivisionIs(l, rDen, g.value);
      den := Div(l, den, g.value);
      num := Sub(l, Mul(l, num, Div(l, rDen, g.value)), Mul(l, rNum, den));
      GcdWithPositive(l, num, g.value);
      g := IntegerGcd(l, num, g.value);
      DivisionIs(l, num, g.value);
      DivisionIs(l, rDen, g.value);
      num := Div(l, num, g.value);
      den := Mul(l, den, Div(l, rDen, g.value));
    }

    /** Nothing overflows when the exact product is representable. */
    method MultiplyAssign(r: Rational)
      requires Valid() && r.Valid() && r.l == l
      requires l.Fits(Product(R(), r.R()).num) && l.Fits(Product(R(), r.R()).den)
      modifies this
      ensures Valid() && R() == Product(old(R()), old(r.R()))
    {
      hide Gcd, Reduced;
      var rNum, rDen := r.num, r.den;
      ProductIsReduced(num, den, rNum, rDen);
      NonZeroProduct(den, rDen);
      ReducedIs(num * rNum, den * rDen);
      GcdWithPositive(l, num, rDen);
      GcdWithPositive(l, rNum, den);
      var gcd1 := IntegerGcd(l, num, rDen);
      var gcd2 := IntegerGcd(l, rNum, den);
      DivisionIs(l, num, gcd1.value);
      DivisionIs(l, rNum, gcd2.value);
      DivisionIs(l, den, gcd2.value);
      DivisionIs(l, rDen, gcd1.value);
      num := Mul(l, Div(l, num, gcd1.value), Div(l, rNum, gcd2.value));
      den := Mul(l, Div(l, den, gcd2.value), Div(l, rDen, gcd1.value));
    }

    /** Throws when the divisor is zero. */
    method DivideAssign(r: Rational) returns (ok: bool)
      requires Valid() && r.Valid() && r.l == l
      requires num != 0 && r.num != 0 ==>
        && GcdDefined(l, num, r.num)
        && l.Fits(Over(R(), r.R()).num) && l.Fits(Over(R(), r.R()).den)
        && (r.num < 0 ==> l.Fits(-Over(R(), r.R()).num))
      modifies this
      ensures ok <==> old(r.num) != 0
      ensures Valid() && R() == if ok then Over(old(R()), old(r.R())) else old(R())
    {
      hide Gcd, Reduced;
      var rNum, rDen := r.num, r.den;
      if rNum == 0 { return false; }
      NonZeroProduct(den, rNum);
      ReducedIs(num * rDen, den * rNum);
      if num == 0 {
        ReducedUnique(0 * rDen, den * rNum, R());
        return true;
      }
      OverIsReduced(num, den, rNum, rDen);
      GcdWithPositive(l, rDen, den);
      var gcd1 := IntegerGcd(l, num, rNum);
      var gcd2 := IntegerGcd(l, rDen, den);
      DivisionIs(l, num, gcd1.value);
      DivisionIs(l, rNum, gcd1.value);
      DivisionIs(l, den, gcd2.value);
      DivisionIs(l, rDen, gcd2.value);
      num := Mul(l, Div(l, num, gcd1.value), Div(l, rDen, gcd2.value));
      den := Mul(l, Div(l, den, gcd2.value), Div(l, rNum, gcd1.value));
      if den < 0 {
        num := Sub(l, 0, num);
        den := Sub(l, 0, den);
      }
      ok := true;
    }

    // ----- Integer operands: no gcd where none is needed -----

    method AddInteger(i: int)
      requires Valid() && l.Fits(i * den) && l.Fits(num + i * den)
      modifies this
      ensures Valid() && R() == Sum(old(R()), Whole(i))
    {
      hide Gcd, Sum;
      ShiftedSum(num, den, i);
      num := Add(l, num, Mul(l, i, den));
    }

    method SubtractInteger(i: int)
      requires Valid() && l.Fits(i * den) && l.Fits(num - i * den)
      modifies this
      ensures Valid() && R() == Difference(old(R()), Whole(i))
    {
      hide Gcd, Difference;
      ShiftedDifference(num, den, i);
      num := Sub(l, num, Mul(l, i, den));
    }

    method MultiplyInteger(i: int)
      requires Valid() && l.Fits(i) && l.Fits(Product(R(), Whole(i)).num)
      modifies this
      ensures Valid() && R() == Product(old(R()), Whole(i))
    {
      hide Gcd, Reduced;
      WholeIsNormal(i);
      ProductIsReduced(num, den, i, 1);
      ReducedIs(num * i, den * 1);
      GcdOne(num);
      GcdWithPositive(l, i, den);
      var gcd := IntegerGcd(l, i, den);
      DivisionIs(l, i, gcd.value);
      DivisionIs(l, den, gcd.value);
      DividedByOne(num);
      num := Mul(l, num, Div(l, i, gcd.value));
      den := Div(l, den, gcd.value);
    }

    method DivideInteger(i: int) returns (ok: bool)
      requires Valid() && l.Fits(i)
      requires num != 0 && i != 0 ==>
        GcdDefined(l, num, i) && l.Fits(Over(R(), Whole(i)).num) && l.Fits(Over(R(), Whole(i)).den)
      modifies this
      ensures ok <==> i != 0
      ensures Valid() && R() == if ok then Over(old(R()), Whole(i)) else old(R())
    {
      hide Gcd, Reduced;
      if i == 0 { return false; }
      NonZeroProduct(den, i);
      ReducedIs(num * 1, den * i);
      if num == 0 {
        ReducedUnique(0 * 1, den * i, R());
        return true;
      }
      WholeIsNormal(i);
      OverIsReduced(num, den, i, 1);
      GcdSymmetric(1, den);
      GcdOne(den);
      DividedByOne(den);
      var gcd := IntegerGcd(l, num, i);
      DivisionIs(l, num, gcd.value);
      DivisionIs(l, i, gcd.value);
      num := Div(l, num, gcd.value);
      den := Mul(l, den, Div(l, i, gcd.value));
      if den < 0 {
        num := Sub(l, 0, num);
        den := Sub(l, 0, den);
      }
      ok := true;
    }

    method Increment()
      requires Valid() && l.Fits(num + den)
      modifies this
      ensures Valid() && R() == Sum(old(R()), Whole(1))
    {
      hide Gcd, Sum;
      ShiftedSum(num, den, 1);
      num := Add(l, num, den);
    }

    method Decrement()
      requires Valid() && l.Fits(num - den)
      modifies this
      ensures Valid() && R() == Difference(old(R()), Whole(1))
    {
      hide Gcd, Difference;
      ShiftedDifference(num, den, 1);
      num := Sub(l, num, den);
    }

    // ----- Comparison -----

    /** `operator<`: the two continued fractions are expanded side by side until they differ. No intermediate result
        can overflow, whatever the operands. */
    method LessThan(r: Rational) returns (less: bool)
      requires Valid() && r.Valid() && r.l == l
      ensures less <==> Less(R(), r.R())
    {
      var ts := FirstCycle(l, num, den);
      var rs := FirstCycle(l, r.num, r.den);
      var reverse := false;
      while true
        invariant ts.Valid(l) && rs.Valid(l)
        invariant Less(R(), r.R()) <==> if reverse then ts.n * rs.d > rs.n * ts.d else ts.n * rs.d < rs.n * ts.d
        decreases ts.d
      {
        if ts.q != rs.q {
          if ts.q < rs.q { WholePartsDecide(l, ts, rs); } else { WholePartsDecide(l, rs, ts); }
          return if reverse then ts.q > rs.q else ts.q < rs.q;
        }
        WholePartsCancel(l, ts, rs);
        reverse := !reverse;
        if ts.r == 0 || rs.r == 0 {
          break;
        }
        TurnOver(ts, rs);
        ts := NextCycle(l, ts);
        rs := NextCycle(l, rs);
      }
      ZeroAgainst(ts.d, rs.r);
      ZeroAgainst(rs.d, ts.r);
      if ts.r == rs.r {
        return false;
      } else {
        return (ts.r != 0) != reverse;
      }
    }

    /** `operator<` against an integer: the floor decides. */
    method LessThanInteger(i: int) returns (less: bool)
      requires Valid() && l.Fits(i)
      ensures less <==> Less(R(), Whole(i))
    {
      var c := FirstCycle(l, num, den);
      FloorDecides(c.n, c.d, c.q, c.r, i);
      less := c.q < i;
    }

    method EqualTo(r: Rational) returns (equal: bool)
      requires Valid() && r.Valid()
      ensures equal <==> Value(R()) == Value(r.R())
    {
      EqualValues(R(), r.R());
      equal := num == r.num && den == r.den;
    }

    method EqualToInteger(i: int) returns (equal: bool)
      requires Valid()
      ensures equal <==> Value(R()) == i as real
    {
      WholeIsNormal(i);
      EqualValues(R(), Whole(i));
      equal := den == 1 && num == i;
    }
  }

  /** Any operation of a history, on an object; the operand may be the object itself. */
  method Perform(x: Rational, op: Operation)
    requires x.Valid() && op.IsNormal() && OperationFits(x.l, op, x.R())
    modifies x
    ensures x.Valid() && op.Operand(old(x.R())).den != 0 && x.R() == Applied(op, old(x.R()))
    ensures op.Plus? ==> Value(x.R()) == Value(old(x.R())) + Value(op.r)
    ensures op.Minus? ==> Value(x.R()) == Value(old(x.R())) - Value(op.r)
    ensures op.Times? ==> Value(x.R()) == Value(old(x.R())) * Value(op.r)
    ensures op.DividedBy? && op.r.num != 0 ==>
      Value(op.r) != 0.0 && Value(x.R()) == Value(old(x.R())) / Value(op.r)
    ensures op.DividedBy? && op.r.num == 0 ==> x.R() == old(x.R())
    ensures op.PlusSelf? ==> Value(x.R()) == Value(old(x.R())) + Value(old(x.R()))
    ensures op.MinusSelf? ==> x.R() == Ratio(0, 1)
    ensures op.TimesSelf? ==> Value(x.R()) == Value(old(x.R())) * Value(old(x.R()))
    ensures op.DividedBySelf? ==> x.R() == if old(x.num) == 0 then old(x.R()) else Ratio(1, 1)
    ensures op.PlusWhole? ==> Value(x.R()) == Value(old(x.R())) + op.i as real
    ensures op.MinusWhole? ==> Value(x.R()) == Value(old(x.R())) - op.i as real
    ensures op.TimesWhole? ==> Value(x.R()) == Value(old(x.R())) * op.i as real
    ensures op.DividedByWhole? && op.i != 0 ==> Value(x.R()) == Value(old(x.R())) / op.i as real
    ensures op.DividedByWhole? && op.i == 0 ==> x.R() == old(x.R())
    ensures op.Increment? ==> Value(x.R()) == Value(old(x.R())) + 1.0
    ensures op.Decrement? ==> Value(x.R()) == Value(old(x.R())) - 1.0
  {
    hide Gcd, Applied, Value, OperationFits, Operation.Operand;
    ghost var r := x.R();
    PerformOne(x, op);
    if op.Plus? || op.Minus? || op.Times? || op.DividedBy? { EachOperation(r, op.r); }
    EachOnSelf(r);
    EachOnWhole(r, if op.OnWhole() then op.i else 1);
  }

  method PerformOne(x: Rational, op: Operation)
    requires x.Valid() && op.IsNormal() && OperationFits(x.l, op, x.R())
    modifies x
    ensures x.Valid() && op.Operand(old(x.R())).den != 0 && x.R() == Applied(op, old(x.R()))
  {
    hide Gcd, Reduced, Sum, Difference, Product, Over;
    var s := op.Operand(x.R());
    OperandIsNormal(op, x.R());
    if op.Increment? {
      x.Increment();
    } else if op.Decrement? {
      x.Decrement();
    } else if op.OnWhole() {
      PerformWhole(x, op);
    } else {
      var y := x;
      if !op.OnSelf() {
        y := new Rational.Raw(x.l, s.num, s.den);
      }
      if op.Adds() {
        x.AddAssign(y);
      } else if op.Subtracts() {
        x.SubtractAssign(y);
      } else if op.Multiplies() {
        x.MultiplyAssign(y);
      } else {
        var ok := x.DivideAssign(y);
      }
    }
  }

  method PerformWhole(x: Rational, op: Operation)
    requires x.Valid() && op.OnWhole() && OperationFits(x.l, op, x.R())
    modifies x
    ensures x.Valid() && x.R() == Applied(op, old(x.R()))
  {
    hide Gcd, Reduced, Sum, Difference, Product, Over;
    if op.PlusWhole? {
      x.AddInteger(op.i);
    } else if op.MinusWhole? {
      x.SubtractInteger(op.i);
    } else if op.TimesWhole? {
      x.MultiplyInteger(op.i);
    } else {
      var ok := x.DivideInteger(op.i);
    }
  }

  /** Nothing overflows, in any operation and for any signs, if all the numbers are at most b and 2 b^2 fits. */
  lemma SmallFits(l: Limits, op: Operation, r: Ratio, b: int)
    requires Normal(r) && b >= 1 && 2 * (b * b) <= l.max && Abs(r.num) <= b && r.den <= b
    requires op.Plus? || op.Minus? || op.Times? || op.DividedBy? ==>
      Normal(op.r) && Abs(op.r.num) <= b && op.r.den <= b
    requires op.PlusWhole? || op.MinusWhole? || op.TimesWhole? || op.DividedByWhole? ==> Abs(op.i) <= b
    ensures op.IsNormal() && OperationFits(l, op, r)
  {
    hide Sum, Difference, Product, Over, SumFits, DifferenceFits, Gcd;
    var s := op.Operand(r);
    OperandIsNormal(op, r);
    SmallPair(l, r, s, b);
  }

  lemma SmallPair(l: Limits, r: Ratio, s: Ratio, b: int)
    requires Normal(r) && Normal(s) && b >= 1 && 2 * (b * b) <= l.max
    requires Abs(r.num) <= b && r.den <= b && Abs(s.num) <= b && s.den <= b
    ensures b < l.max && l.Fits(s.num) && l.Fits(s.den) && l.Fits(s.num * r.den)
    ensures l.Fits(r.num + s.num * r.den) && l.Fits(r.num - s.num * r.den)
    ensures l.Fits(r.num + r.den) && l.Fits(r.num - r.den)
    ensures SumFits(l, r, s) && DifferenceFits(l, r, s) && ProductFits(l, r, s)
    ensures s.num != 0 ==> OverFits(l, r, s)
  {
    hide Sum, Difference, Product, Over, Gcd;
    Bound(b, b, b);
    Bound(s.num, r.den, b);
    Bound(r.num, s.den, b);
    Bound(r.den, s.den, b);
    Bound(r.num, s.num, b);
    Bound(r.den, s.num, b);
    SmallCross(r, s, b);
    SmallResults(r, s);
  }

  lemma Bound(x: int, y: int, b: int)
    requires Abs(x) <= b && Abs(y) <= b
    ensures -(b * b) <= x * y <= b * b && b * b >= b
  {
    AbsProduct(x, y);
    GrowsBoth(Abs(x), Abs(y), b);
  }

  lemma GrowsBoth(x: nat, y: nat, b: int)
    requires x <= b && y <= b
    ensures x * y <= b * b && b * b >= b
  {
    assert x * y <= b * y <= b * b;
  }

  /** The cross terms of a sum. */
  lemma SmallCross(r: Ratio, s: Ratio, b: int)
    requires Normal(r) && Normal(s)
    requires Abs(r.num) <= b && r.den <= b && Abs(s.num) <= b && s.den <= b
    ensures var g := Gcd(r.den, s.den);
            && g > 0
            && -(b * b) <= r.num * (s.den / g) <= b * b && -(b * b) <= s.num * (r.den / g) <= b * b
  {
    hide Gcd;
    var g := Gcd(r.den, s.den);
    GcdPositive(r.den, s.den);
    QuotientShrinks(r.den, g);
    QuotientShrinks(s.den, g);
    Bound(r.num, s.den / g, b);
    Bound(s.num, r.den / g, b);
  }

  /** Reducing makes nothing larger. */
  lemma ReducedShrinks(n: int, d: int)
    requires d != 0
    ensures Abs(Reduced(n, d).num) <= Abs(n) && 0 < Reduced(n, d).den <= Abs(d)
  {
    hide Gcd, Reduced;
    ReducedIs(n, d);
    var g, i, j := ReducedParts(n, d);
    AbsProduct(i, g);
    AbsProduct(j, g);
    MulGrows(g, Abs(i));
    MulGrows(g, Abs(j));
    Regroup(g, Abs(i), 1);
    Regroup(g, Abs(j), 1);
  }

  lemma SmallResults(r: Ratio, s: Ratio)
    requires r.den > 0 && s.den > 0
    ensures 0 < Sum(r, s).den <= Abs(r.den * s.den) && 0 < Difference(r, s).den <= Abs(r.den * s.den)
    ensures Abs(Product(r, s).num) <= Abs(r.num * s.num) && 0 < Product(r, s).den <= Abs(r.den * s.den)
    ensures s.num != 0 ==>
      Abs(Over(r, s).num) <= Abs(r.num * s.den) && 0 < Over(r, s).den <= Abs(r.den * s.num)
  {
    hide Reduced;
    NonZeroProduct(r.den, s.den);
    NonZeroProduct(r.den, s.num);
    ReducedShrinks(r.num * s.den + s.num * r.den, r.den * s.den);
    ReducedShrinks(r.num * s.den - s.num * r.den, r.den * s.den);
    ReducedShrinks(r.num * s.num, r.den * s.den);
    if s.num != 0 { ReducedShrinks(r.num * s.den, r.den * s.num); }
  }

  /** A whole history on one object. Each operation must fit when its turn comes. */
  method PerformAll(x: Rational, ops: seq<Operation>)
    requires x.Valid() && forall op <- ops :: op.IsNormal()
    requires forall i :: 0 <= i < |ops| ==>
      assert forall op <- ops[..i] :: op in ops;
      OperationFits(x.l, ops[i], History(ops[..i], x.R()))
    modifies x
    ensures x.Valid() && x.R() == History(ops, old(x.R()))
    ensures Value(x.R()) == MeaningOfAll(ops, Value(old(x.R())))
  {
    hide Gcd, OperationFits, Applied, Operation.IsNormal;
    ghost var r := x.R();
    var i := 0;
    while i < |ops|
      invariant 0 <= i <= |ops| && x.Valid() && x.R() == History(ops[..i], r)
    {
      assert ops[i] in ops && ops[..i + 1][..i] == ops[..i];
      Perform(x, ops[i]);
      i := i + 1;
    }
    assert ops[..i] == ops;
    HistoryIsExact(ops, r);
  }

  lemma DividedByOne(n: int)
    ensures n / 1 == n
  {
  }

  lemma TurnOver(ts: Cycle, rs: Cycle)
    ensures ts.r * rs.d < rs.r * ts.d <==> ts.d * rs.r > rs.d * ts.r
    ensures ts.r * rs.d > rs.r * ts.d <==> ts.d * rs.r < rs.d * ts.r
  {
  }

  lemma FloorDecides(n: int, d: int, q: int, r: int, i: int)
    requires n == q * d + r && 0 <= r < d
    ensures q < i <==> n * 1 < i * d
  {
    if q < i {
      MulGrows(d, i - q - 1);
      assert d * (i - q - 1) == i * d - q * d - d;
    } else {
      MulGrows(d, q - i);
      assert d * (q - i) == q * d - i * d;
    }
  }

  /** Adding a whole number moves the numerator by a multiple of the denominator and keeps lowest terms. */
  lemma ShiftedSum(n: int, d: int, i: int)
    requires d > 0 && Coprime(n, d)
    ensures Coprime(n + i * d, d) && Sum(Ratio(n, d), Whole(i)) == Ratio(n + i * d, d)
  {
    GcdShift(n, d, i);
    ReducedUnique(n * 1 + i * d, d * 1, Ratio(n + i * d, d));
  }

  lemma ShiftedDifference(n: int, d: int, i: int)
    requires d > 0 && Coprime(n, d)
    ensures Coprime(n - i * d, d) && Difference(Ratio(n, d), Whole(i)) == Ratio(n - i * d, d)
  {
    GcdShift(n, d, -i);
    NegatedProduct(i, d);
    ReducedUnique(n * 1 - i * d, d * 1, Ratio(n - i * d, d));
  }

  // ----- Greatest common divisor and least common multiple of two rationals -----

  /** `gcd_evaluator<rational>`: the pair is in lowest terms before `normalize` sees it. */
  method GcdOf(a: Rational, b: Rational) returns (r: Rational, ok: bool)
    requires a.Valid() && b.Valid() && a.l == b.l
    requires GcdDefined(a.l, a.num, b.num) && a.l.Fits(Lcm(a.den, b.den))
    ensures ok && fresh(r) && r.Valid() && r.l == a.l
    ensures r.R() == GcdRatio(a.R(), b.R())
  {
    var n := IntegerGcd(a.l, a.num, b.num);
    var d := IntegerLcm(a.l, a.den, b.den);
    GcdRatioIsNormal(a.R(), b.R());
    r := new Rational.Raw(a.l, n.value, d);
    NormalIsReduced(r.R());
    GcdWithPositive(a.l, r.num, r.den);
    ok := r.Normalize();
  }

  /** `lcm_evaluator<rational>`. */
  method LcmOf(a: Rational, b: Rational) returns (r: Rational, ok: bool)
    requires a.Valid() && b.Valid() && a.l == b.l
    requires a.num != a.l.Min() && b.num != a.l.Min() && a.l.Fits(Lcm(a.num, b.num))
    ensures ok && fresh(r) && r.Valid() && r.l == a.l
    ensures r.R() == LcmRatio(a.R(), b.R())
  {
    var n := IntegerLcm(a.l, a.num, b.num);
    GcdWithPositive(a.l, a.den, b.den);
    var d := IntegerGcd(a.l, a.den, b.den);
    GcdRatioIsNormal(a.R(), b.R());
    r := new Rational.Raw(a.l, n, d.value);
    NormalIsReduced(r.R());
    GcdWithPositive(a.l, r.num, r.den);
    ok := r.Normalize();
  }

  lemma NormalIsReduced(r: Ratio)
    requires Normal(r)
    ensures Reduced(r.num, r.den) == r
  {
    ReducedUnique(r.num, r.den, r);
  }

  function GcdRatio(a: Ratio, b: Ratio): Ratio { Ratio(Gcd(a.num, b.num), Lcm(a.den, b.den)) }

  function LcmRatio(a: Ratio, b: Ratio): Ratio { Ratio(Lcm(a.num, b.num), Gcd(a.den, b.den)) }

  lemma PositiveLcm(a: int, b: int)
    requires a > 0 && b > 0
    ensures Lcm(a, b) > 0
  {
    LcmIsLeast(a, b, 0);
    NonZeroProduct(a, b);
    GcdPositive(a, b);
    if Lcm(a, b) <= 0 { MulSign(Lcm(a, b), Gcd(a, b)); }
  }

  lemma GcdRatioIsNormal(a: Ratio, b: Ratio)
    requires Normal(a) && Normal(b)
    ensures Normal(GcdRatio(a, b)) && Normal(LcmRatio(a, b))
    ensures GcdRatio(a, b).num >= 0 && LcmRatio(a, b).num >= 0
  {
    LcmSign(a.num, b.num);
    var g, m := Gcd(a.num, b.num), Lcm(a.den, b.den);
    GcdDivides(a.num, b.num);
    PositiveLcm(a.den, b.den);
    DivisorCoprime(a.num, a.den, g);
    DivisorCoprime(b.num, b.den, g);
    CoprimeToLcm(g, a.den, b.den);
    var h, n := Gcd(a.den, b.den), Lcm(a.num, b.num);
    GcdPositive(a.den, b.den);
    GcdDivides(a.den, b.den);
    GcdSymmetric(a.num, a.den);
    GcdSymmetric(b.num, b.den);
    DivisorCoprime(a.den, a.num, h);
    DivisorCoprime(b.den, b.num, h);
    CoprimeToLcm(h, a.num, b.num);
    GcdSymmetric(h, n);
  }

  lemma CoprimeToLcm(g: int, b: int, d: int)
    requires Coprime(g, b) && Coprime(g, d)
    ensures Coprime(g, Lcm(b, d))
  {
    CoprimeProduct(g, b, d);
    GcdNegated(g, b * d);
    GcdNegated(g, Abs(b * d));
    LcmIsLeast(b, d, 0);
    GcdSymmetric(g, Abs(b * d));
    assert Lcm(b, d) * Gcd(b, d) == Abs(b * d);
    assert Coprime(Abs(b * d), g) by { GcdNegated(b * d, g); GcdSymmetric(g, b * d); AbsCoprime(b * d, g); }
    DividesIf(Lcm(b, d), Abs(b * d), Gcd(b, d)) by { assert Gcd(b, d) * Lcm(b, d) == Lcm(b, d) * Gcd(b, d); }
    DivisorCoprime(Abs(b * d), g, Lcm(b, d));
    GcdSymmetric(Lcm(b, d), g);
  }

  lemma AbsCoprime(a: int, b: int)
    requires Coprime(a, b)
    ensures Coprime(Abs(a), b)
  {
    GcdNegated(a, b);
  }

  /** The gcd evaluator yields the greatest fraction of which both arguments are integer multiples, the lcm
      evaluator the least common integer multiple; and their product is the product of the arguments. */
  lemma GcdRatioIsGreatest(a: Ratio, b: Ratio, s: Ratio)
    requires Normal(a) && Normal(b) && Normal(s)
    ensures Measures(GcdRatio(a, b), a) && Measures(GcdRatio(a, b), b)
    ensures Measures(s, a) && Measures(s, b) ==> Measures(s, GcdRatio(a, b))
    ensures Measures(a, LcmRatio(a, b)) && Measures(b, LcmRatio(a, b))
    ensures Measures(a, s) && Measures(b, s) ==> Measures(LcmRatio(a, b), s)
  {
    hide Gcd, Lcm, Measures;
    var g, m := GcdRatio(a, b), LcmRatio(a, b);
    GcdRatioIsNormal(a, b);
    GcdDivides(a.num, b.num);
    GcdDivides(a.den, b.den);
    LcmIsLeast(a.den, b.den, s.den);
    LcmIsLeast(a.num, b.num, s.num);
    MeasuresParts(g, a);
    MeasuresParts(g, b);
    MeasuresParts(s, a);
    MeasuresParts(s, b);
    MeasuresParts(s, g);
    MeasuresParts(a, m);
    MeasuresParts(b, m);
    MeasuresParts(a, s);
    MeasuresParts(b, s);
    MeasuresParts(m, s);
    if Measures(s, a) && Measures(s, b) { CommonDividesGcd(s.num, a.num, b.num); }
    if Measures(a, s) && Measures(b, s) { CommonDividesGcd(s.den, a.den, b.den); }
  }

  lemma GcdTimesLcm(a: Ratio, b: Ratio)
    requires Normal(a) && Normal(b)
    ensures GcdRatio(a, b).den > 0 && LcmRatio(a, b).den > 0
    ensures var g, m, p := GcdRatio(a, b), LcmRatio(a, b), Product(a, b);
            Product(g, m) == Ratio(Abs(p.num), p.den)
  {
    hide *;
    GcdRatioIsNormal(a, b);
    NormalParts(a, b);
    ProductIs(a, b);
    ProductIs(GcdRatio(a, b), LcmRatio(a, b));
    RatioProducts(a, b);
    NonZeroProduct(a.den, b.den);
    NormalAbs(a.num * b.num, a.den * b.den);
  }

  lemma NormalParts(a: Ratio, b: Ratio)
    requires Normal(a) && Normal(b) && Normal(GcdRatio(a, b)) && Normal(LcmRatio(a, b))
    ensures a.den > 0 && b.den > 0 && GcdRatio(a, b).den > 0 && LcmRatio(a, b).den > 0
  {
  }

  lemma ProductIs(a: Ratio, b: Ratio)
    requires a.den > 0 && b.den > 0
    ensures a.den * b.den != 0 && Product(a, b) == Reduced(a.num * b.num, a.den * b.den)
  {
    NonZeroProduct(a.den, b.den);
  }

  lemma RatioProducts(a: Ratio, b: Ratio)
    requires a.den > 0 && b.den > 0
    ensures GcdRatio(a, b).num * LcmRatio(a, b).num == Abs(a.num * b.num)
    ensures GcdRatio(a, b).den * LcmRatio(a, b).den == a.den * b.den
  {
    hide Gcd, Lcm;
    LcmIsLeast(a.num, b.num, 0);
    LcmIsLeast(a.den, b.den, 0);
    NonZeroProduct(a.den, b.den);
    Regroup(Gcd(a.num, b.num), Lcm(a.num, b.num), 1);
  }

  lemma NormalAbs(n: int, d: int)
    requires d > 0
    ensures Reduced(Abs(n), d) == Ratio(Abs(Reduced(n, d).num), Reduced(n, d).den)
  {
    hide Gcd, Reduced;
    var p := Reduced(n, d);
    ReducedIs(n, d);
    AbsCoprime(p.num, p.den);
    AbsProduct(p.num, d);
    AbsProduct(n, p.den);
    ReducedUnique(Abs(n), d, Ratio(Abs(p.num), p.den));
  }

}
