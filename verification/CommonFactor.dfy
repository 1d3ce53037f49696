/** `boost::integer::gcd` and `lcm` on a signed built-in type: the mixed binary algorithm, and the guards around the
    one value that has no absolute value. */
module CommonFactor {
  import opened NumberTheory
  import opened Powers

  datatype Option<T> = None | Some(value: T)

  // ----- Machine integers -----

  /** Division and remainder of C++ truncate toward zero. */
  function CDiv(a: int, b: int): int
    requires b != 0
  {
    if (a >= 0) == (b > 0) then Abs(a) / Abs(b) else -(Abs(a) / Abs(b))
  }

  function CMod(a: int, b: int): int
    requires b != 0
  {
    a - CDiv(a, b) * b
  }

  lemma CModRange(a: int, b: int)
    requires b != 0
    ensures a == CDiv(a, b) * b + CMod(a, b)
    ensures Abs(CMod(a, b)) < Abs(b) && Abs(CDiv(a, b)) <= Abs(a)
    ensures (a >= 0 ==> CMod(a, b) >= 0) && (a <= 0 ==> CMod(a, b) <= 0)
    ensures Gcd(CMod(a, b), b) == Gcd(a, b)
  {
    hide Gcd;
    CModIs(a, b);
    CModGcd(a, b);
    QuotientShrinks(Abs(a), Abs(b));
  }

  lemma CModGcd(a: int, b: int)
    requires b != 0
    ensures Gcd(CMod(a, b), b) == Gcd(a, b)
  {
    GcdMod(a, b, CDiv(a, b));
  }

  lemma CModIs(a: int, b: int)
    requires b != 0
    ensures var q, m := Abs(a) / Abs(b), Abs(a) % Abs(b);
            && 0 <= m < Abs(b) && Abs(a) == q * Abs(b) + m
            && CMod(a, b) == if a >= 0 then m else -m
  {
    var y := Abs(b);
    var q, m := Abs(a) / y, Abs(a) % y;
    SignedProduct(a, b, q);
  }

  lemma GcdMod(a: int, b: int, k: int)
    ensures Gcd(a - k * b, b) == Gcd(a, b)
  {
    GcdShift(a, b, -k);
    assert a + (-k) * b == a - k * b;
  }

  lemma SignedProduct(a: int, b: int, q: int)
    ensures (if (a >= 0) == (b > 0) then q else -q) * b == if a >= 0 then q * Abs(b) else -(q * Abs(b))
  {
  }

  lemma QuotientShrinks(n: nat, y: int)
    requires y > 0
    ensures 0 <= n / y <= n && (y > 1 && n > 0 ==> n / y < n)
  {
    var q := n / y;
    assert q * y <= n;
    MulGrows(y, q);
    assert y * q == q * y;
    if y > 1 {
      MulGrows(y - 1, q);
      assert (y - 1) * q == y * q - q;
    }
  }

  /** The exact division that the algorithms rely on. */
  lemma CDivExact(k: int, b: int)
    requires b != 0
    ensures CDiv(k * b, b) == k && CMod(k * b, b) == 0
  {
    AbsProduct(k, b);
    DivExact(Abs(k), Abs(b));
    if k > 0 && b > 0 { assert k * b > 0; }
    if k > 0 && b < 0 { assert k * b < 0; }
    if k < 0 && b > 0 { assert k * b < 0; }
    if k < 0 && b < 0 { assert k * b > 0; }
  }

  /** The range of `int` or a wider two's complement type. Operations are undefined when the exact result is outside. */
  datatype Limits = Limits(max: int) {
    function Min(): int { -max - 1 }
    predicate Fits(x: int) { Min() <= x <= max }
  }

  lemma Range(l: Limits, x: int)
    ensures l.Fits(x) <==> -l.max - 1 <= x <= l.max
  {
  }

  // ----- The mixed binary algorithm -----

  /** `gcd_traits::make_odd`. */
  method MakeOdd(val: nat) returns (odd: nat, r: nat)
    requires val > 0
    ensures odd % 2 == 1 && val == odd * Pow2(r)
  {
    odd, r := val, 0;
    while odd % 2 == 0
      invariant odd > 0 && val == odd * Pow2(r)
      decreases odd
    {
      assert odd * Pow2(r) == (odd / 2) * (2 * Pow2(r)) by { HalfTwice(odd, Pow2(r)); }
      odd, r := odd / 2, r + 1;
    }
  }

  lemma HalfTwice(n: int, p: int)
    requires n % 2 == 0
    ensures n * p == (n / 2) * (2 * p)
  {
    assert n == 2 * (n / 2);
    assert (2 * (n / 2)) * p == (n / 2) * (2 * p);
  }

  /** An odd number divides 2x only if it divides x. */
  lemma OddDivides(d: int, x: int, y: int)
    requires y % 2 == 1 && Divides(d, y) && Divides(d, 2 * x)
    ensures Divides(d, x)
  {
    var k := Factor(d, y);
    var j := Factor(d, 2 * x);
    var e := (y - 1) / 2;
    // y is odd and a multiple of d, so x = y x - e (2x) is one too
    assert y == 2 * e + 1;
    assert y * x - e * (2 * x) == x;
    DividesCombination(d, y, 2 * x, x, -e);
    assert y * x + (2 * x) * -e == x;
  }

  lemma {:induction false} GcdOddPart(x: int, y: int, i: nat)
    requires y % 2 == 1
    ensures Gcd(x * Pow2(i), y) == Gcd(x, y)
  {
    if i > 0 {
      var z := x * Pow2(i - 1);
      assert x * Pow2(i) == 2 * z;
      GcdOddPart(x, y, i - 1);
      forall d ensures Divides(d, 2 * z) && Divides(d, y) <==> Divides(d, z) && Divides(d, y) {
        if Divides(d, y) && Divides(d, 2 * z) { OddDivides(d, z, y); }
        if Divides(d, y) && Divides(d, z) { DividesCombination(d, z, y, 2, 0); assert z * 2 + y * 0 == 2 * z; }
      }
      SameGcd(2 * z, y, z, y);
    }
  }

  lemma GcdDoubled(x: int, y: int)
    ensures Gcd(2 * x, 2 * y) == 2 * Gcd(x, y)
  {
    hide *;
    var g, h := Gcd(x, y), Gcd(2 * x, 2 * y);
    GcdDivides(x, y);
    Doubles(g, x);
    Doubles(g, y);
    CommonDividesGcd(2 * g, 2 * x, 2 * y);
    GcdDivides(2 * x, 2 * y);
    var s, t := Bezout(x, y);
    DividesCombination(h, 2 * x, 2 * y, s, t);
    Twice(x, s);
    Twice(y, t);
    DividesBothWays(2 * g, h);
  }

  lemma Twice(x: int, p: int)
    ensures x * (2 * p) == 2 * (x * p) == (2 * x) * p
  {
  }

  lemma Doubles(g: int, x: int)
    requires Divides(g, x)
    ensures Divides(2 * g, 2 * x)
  {
    var i := Factor(g, x);
    Twice(i, g);
    DividesIf(2 * g, 2 * x, i);
  }

  function Least(i: nat, j: nat): nat { if i < j then i else j }

  /** The common power of two comes out in front. */
  lemma {:induction false} GcdOfOddParts(x: int, y: int, i: nat, j: nat)
    requires x % 2 == 1 && y % 2 == 1
    ensures Gcd(x * Pow2(i), y * Pow2(j)) == Gcd(x, y) * Pow2(Least(i, j))
    decreases i + j
  {
    if i == 0 {
      GcdSymmetric(x, y * Pow2(j));
      GcdOddPart(y, x, j);
      GcdSymmetric(x, y);
      assert x * Pow2(0) == x && Pow2(Least(0, j)) == 1;
    } else if j == 0 {
      GcdOddPart(x, y, i);
      assert y * Pow2(0) == y && Pow2(Least(i, 0)) == 1;
    } else {
      var p, q := Pow2(i - 1), Pow2(j - 1);
      Twice(x, p);
      Twice(y, q);
      GcdDoubled(x * p, y * q);
      GcdOfOddParts(x, y, i - 1, j - 1);
      Twice(Gcd(x, y), Pow2(Least(i - 1, j - 1)));
    }
  }

  /** One round of the loop before the powers of two are removed. */
  lemma RoundKeepsGcd(u: nat, v: nat)
    requires v > 0
    ensures Gcd(u % v, v - u % v) == Gcd(u, v) && 0 <= u % v < v && (u % v == 0 ==> v == Gcd(u, v))
  {
    var m := u % v;
    assert Gcd(u, v) == Gcd(v, m);
    GcdShift(v, m, -1);
    GcdSymmetric(v - m, m);
    assert v + (-1) * m == v - m;
  }

  /** Of two numbers with an odd sum one is odd. */
  lemma OneIsOdd(a: nat, b: nat, u: nat, v: nat, i: nat, j: nat)
    requires a == u * Pow2(i) && b == v * Pow2(j) && (a + b) % 2 == 1
    ensures Least(i, j) == 0
  {
    if i > 0 && j > 0 {
      Twice(u, Pow2(i - 1));
      Twice(v, Pow2(j - 1));
    }
  }

  /** So removing the powers of two changes nothing. */
  lemma OddPartsKeepGcd(u: nat, v: nat, i: nat, j: nat)
    requires u % 2 == 1 && v % 2 == 1 && Least(i, j) == 0
    ensures Gcd(u * Pow2(i), v * Pow2(j)) == Gcd(u, v)
  {
    GcdOfOddParts(u, v, i, j);
    assert Pow2(0) == 1;
  }

  /** `mixed_binary_gcd`. */
  method MixedBinaryGcd(u0: nat, v0: nat) returns (g: nat)
    ensures g == Gcd(u0, v0)
  {
    var u, v := u0, v0;
    GcdSymmetric(u, v);
    if u < v {
      u, v := v, u;
    }
    if u == 0 { return v; }
    if v == 0 { return u; }
    var i: nat, j: nat;
    u, i := MakeOdd(u);
    v, j := MakeOdd(v);
    var shifts := Least(i, j);
    GcdOfOddParts(u, v, i, j);
    ghost var odd := Gcd(u, v);
    while 1 < v
      invariant u % 2 == 1 && v % 2 == 1 && u > 0 && v > 0
      invariant Gcd(u, v) == odd && odd * Pow2(shifts) == Gcd(u0, v0)
      decreases v
    {
      RoundKeepsGcd(u, v);
      u := u % v;
      v := v - u;
      if u == 0 { return v * Pow2(shifts); }
      if v == 0 { assert false; }  // the remainder was below the divisor
      ghost var a, b := u, v;
      u, i := MakeOdd(u);
      v, j := MakeOdd(v);
      OneIsOdd(a, b, u, v, i, j);
      OddPartsKeepGcd(u, v, i, j);
      OddPartShrinks(a, u, i);
      OddPartShrinks(b, v, j);
      GcdSymmetric(u, v);
      if u < v {
        u, v := v, u;
      }
    }
    GcdOne(u);
    g := (if v == 1 then v else u) * Pow2(shifts);
  }

  lemma OddPartShrinks(a: nat, u: nat, i: nat)
    requires a == u * Pow2(i)
    ensures u <= a
  {
    MulGrows(Pow2(i), u);
    assert u * Pow2(i) == Pow2(i) * u;
  }

  lemma GcdOne(u: int)
    ensures Gcd(u, 1) == 1
  {
    assert u % 1 == 0;
  }

  // ----- The guarded entry points -----

  /** The arguments for which every step of `gcd` is defined. The least value of the type has no absolute value and
      is replaced by a remainder, which must not divide by zero nor be the quotient's one overflow. */
  predicate GcdDefined(l: Limits, a: int, b: int) {
    && (a == l.Min() ==> b != 0 && b != -1 && b != l.Min())
    && (b == l.Min() ==> a != 0 && a != -1 && a != l.Min())
  }

  /** `x % y` on the machine: undefined for a zero divisor and when the quotient overflows. */
  function CheckedMod(l: Limits, x: int, y: int): Option<int> {
    if y == 0 || !l.Fits(CDiv(x, y)) then None else Some(CMod(x, y))
  }

  lemma LeastQuotient(l: Limits, y: int)
    requires y != 0 && l.Fits(y) && l.max > 0
    ensures l.Fits(CDiv(l.Min(), y)) <==> y != -1
  {
    QuotientShrinks(l.max + 1, Abs(y));
    assert Abs(y) == 1 ==> (l.max + 1) / Abs(y) == l.max + 1;
  }

  /** `integer::gcd`; no value where the behaviour is undefined. */
  method IntegerGcd(l: Limits, a: int, b: int) returns (r: Option<int>)
    requires l.max > 0 && l.Fits(a) && l.Fits(b)
    ensures r.Some? <==> GcdDefined(l, a, b)
    ensures a != -l.max - 1 && b != -l.max - 1 ==> r.Some?
    ensures a == -l.max - 1 ==> (r.None? <==> b == 0 || b == -1 || b == -l.max - 1)
    ensures b == -l.max - 1 ==> (r.None? <==> a == 0 || a == -1 || a == -l.max - 1)
    ensures r.Some? ==> r.value == Gcd(a, b) && l.Fits(r.value)
    decreases (if a == l.Min() then 1 else 0) + (if b == l.Min() then 1 else 0)
  {
    if a == l.Min() {
      if b != 0 { LeastQuotient(l, b); }
      match CheckedMod(l, a, b) {
        case None => return None;
        case Some(m) =>
          CModRange(a, b);
          if b == l.Min() { CDivExact(1, b); }
          r := IntegerGcd(l, m, b);
      }
    } else if b == l.Min() {
      if a != 0 { LeastQuotient(l, a); }
      match CheckedMod(l, b, a) {
        case None => return None;
        case Some(m) =>
          CModRange(b, a);
          GcdSymmetric(m, a);
          GcdSymmetric(a, b);
          r := IntegerGcd(l, a, m);
      }
    } else {
      var g := MixedBinaryGcd(Abs(a), Abs(b));
      GcdNegated(a, b);
      GcdBounded(l, a, b);
      r := Some(g);
    }
  }

  lemma GcdBounded(l: Limits, a: int, b: int)
    requires l.Fits(a) && l.Fits(b) && a != l.Min() && b != l.Min()
    ensures l.Fits(Gcd(a, b))
  {
    if a != 0 || b != 0 {
      GcdAtMost(a, b);
    }
  }

  lemma GcdAtMost(a: int, b: int)
    ensures a != 0 ==> Gcd(a, b) <= Abs(a)
    ensures b != 0 ==> Gcd(a, b) <= Abs(b)
  {
    var g := Gcd(a, b);
    GcdDivides(a, b);
    var i := Factor(g, a);
    var j := Factor(g, b);
    if a != 0 { assert i != 0; MulAtLeast(i, g); }
    if b != 0 { assert j != 0; MulAtLeast(j, g); }
  }

  // ----- The least common multiple -----

  /** `lcm_imp` on absolute values. */
  function Lcm(a: int, b: int): int {
    if a == 0 && b == 0 then 0 else GcdPositive(a, b); (Abs(a) / Gcd(a, b)) * Abs(b)
  }

  /** `integer::lcm`: the division comes before the multiplication. */
  method IntegerLcm(l: Limits, a: int, b: int) returns (m: int)
    requires l.max > 0 && l.Fits(a) && l.Fits(b) && a != l.Min() && b != l.Min() && l.Fits(Lcm(a, b))
    ensures m == Lcm(a, b)
  {
    var temp := MixedBinaryGcd(Abs(a), Abs(b));
    GcdNegated(a, b);
    if temp != 0 {
      LcmFactor(a, b);
      m := CDiv(Abs(a), temp) * Abs(b);
    } else {
      GcdZero(a, b);
      m := 0;
    }
  }

  lemma LcmFactor(a: int, b: int)
    requires Gcd(a, b) != 0
    ensures Lcm(a, b) == CDiv(Abs(a), Gcd(a, b)) * Abs(b)
  {
  }

  lemma GcdZero(a: int, b: int)
    requires Gcd(a, b) == 0
    ensures a == 0 && b == 0
  {
    if a != 0 || b != 0 { GcdPositive(a, b); }
  }

  /** The product of the greatest common divisor and the least common multiple; and the multiple is one, and
      divides every other. */
  lemma LcmIsLeast(a: int, b: int, m: int)
    ensures Lcm(a, b) * Gcd(a, b) == Abs(a * b) && Lcm(a, b) >= 0
    ensures Divides(a, Lcm(a, b)) && Divides(b, Lcm(a, b))
    ensures Divides(a, m) && Divides(b, m) ==> Divides(Lcm(a, b), m)
  {
    LcmSign(a, b);
    if a == 0 && b == 0 {
      DividesIf(0, 0, 0);
    } else {
      LcmParts(a, b, m);
    }
  }

  lemma LcmSign(a: int, b: int)
    ensures Lcm(a, b) >= 0
  {
    hide Gcd;
    if a != 0 || b != 0 { GcdPositive(a, b); QuotientSign(Abs(a), Gcd(a, b), Abs(b)); }
  }

  lemma QuotientSign(x: nat, g: nat, y: nat)
    ensures g > 0 ==> x / g >= 0 && (x / g) * y >= 0
  {
  }

  lemma LcmParts(a: int, b: int, m: int)
    requires a != 0 || b != 0
    ensures Lcm(a, b) * Gcd(a, b) == Abs(a * b)
    ensures Divides(a, Lcm(a, b)) && Divides(b, Lcm(a, b))
    ensures Divides(a, m) && Divides(b, m) ==> Divides(Lcm(a, b), m)
  {
    GcdNegated(a, b);
    var g, i, j := GcdReduces(Abs(a), Abs(b));
    DivExact(i, g);
    var n, x, y := Lcm(a, b), Abs(a), Abs(b);
    assert n == i * y;
    LcmAlgebra(x, y, g, i, j);
    AbsProduct(a, b);
    DividesIf(x, n, j);
    DividesIf(y, n, i);
    DividesAbs(a, n);
    DividesAbs(b, n);
    if Divides(a, m) && Divides(b, m) {
      DividesAbs(a, m);
      DividesAbs(b, m);
      LcmDivides(x, y, g, i, j, m);
    }
  }

  lemma LcmAlgebra(x: int, y: int, g: int, i: int, j: int)
    requires x == i * g && y == j * g
    ensures i * y == j * x && (i * y) * g == x * y
  {
    assert i * (j * g) == j * (i * g);
    assert (i * y) * g == (i * g) * y;
  }

  lemma LcmDivides(x: int, y: int, g: int, i: int, j: int, m: int)
    requires g > 0 && x == i * g && y == j * g && Coprime(i, j) && Divides(x, m) && Divides(y, m)
    ensures Divides(i * y, m)
  {
    var s := Factor(x, m);
    var t := Factor(y, m);
    Regroup(s, i, g);
    Regroup(t, j, g);
    MulCancel(s * i, t * j, g);
    DividesIf(j, i * s, t);
    GcdSymmetric(i, j);
    Gauss(j, i, s);
    var k := Factor(j, s);
    Regroup(k, j, x);
    LcmAlgebra(x, y, g, i, j);
    DividesIf(i * y, m, k);
  }

  lemma DividesAbs(d: int, a: int)
    ensures Divides(d, a) <==> Divides(Abs(d), a)
  {
    if Divides(d, a) { var k := Factor(d, a); if d < 0 { assert a == (-k) * -d; DividesIf(-d, a, -k); } }
    if Divides(Abs(d), a) { var k := Factor(Abs(d), a); if d < 0 { assert a == (-k) * d; DividesIf(d, a, -k); } }
  }
}
