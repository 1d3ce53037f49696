/** Modulo-2 polynomial division on registers of exactly the divisor's order.

    A register r and a truncated divisor p have the same length n: the divisor is x^n + p. Messages are
    sequences of coefficients, the one that is read first in front. */
module Division {
  import opened Words

  /** One altered division step: the incoming bit meets the leading bit of the register. */
  function Step(r: Word, p: Word, b: bool): (s: Word)
    requires |r| == |p| > 0
    ensures |s| == |p|
  {
    if r[0] != b then Xor(Shl(r, 1), p) else Shl(r, 1)
  }

  function Run(r: Word, p: Word, m: Word): (s: Word)
    requires |r| == |p| > 0
    ensures |s| == |p|
    decreases |m|
  {
    if m == [] then r else Run(Step(r, p, m[0]), p, m[1..])
  }

  /** One step of plain division: the incoming bit is the new constant term. */
  function AugStep(r: Word, p: Word, b: bool): (s: Word)
    requires |r| == |p| > 0
    ensures |s| == |p|
  {
    var t := r[1..] + [b];
    if r[0] then Xor(t, p) else t
  }

  function AugRun(r: Word, p: Word, m: Word): (s: Word)
    requires |r| == |p| > 0
    ensures |s| == |p|
    decreases |m|
  {
    if m == [] then r else AugRun(AugStep(r, p, m[0]), p, m[1..])
  }

  // ----- Composition and linearity -----

  lemma {:induction false} RunAppend(r: Word, p: Word, a: Word, b: Word)
    requires |r| == |p| > 0
    ensures Run(r, p, a + b) == Run(Run(r, p, a), p, b)
    decreases |a|
  {
    if a == [] {
      assert a + b == b;
    } else {
      assert (a + b)[1..] == a[1..] + b;
      RunAppend(Step(r, p, a[0]), p, a[1..], b);
    }
  }

  lemma {:induction false} AugRunAppend(r: Word, p: Word, a: Word, b: Word)
    requires |r| == |p| > 0
    ensures AugRun(r, p, a + b) == AugRun(AugRun(r, p, a), p, b)
    decreases |a|
  {
    if a == [] {
      assert a + b == b;
    } else {
      assert (a + b)[1..] == a[1..] + b;
      AugRunAppend(AugStep(r, p, a[0]), p, a[1..], b);
    }
  }

  lemma StepLinear(r: Word, s: Word, p: Word, b: bool, c: bool)
    requires |r| == |s| == |p| > 0
    ensures Step(Xor(r, s), p, b != c) == Xor(Step(r, p, b), Step(s, p, c))
  {
    var x, y := Step(Xor(r, s), p, b != c), Xor(Step(r, p, b), Step(s, p, c));
    forall i | 0 <= i < |p| ensures x[i] == y[i] {
      if i < |p| - 1 { assert Shl(Xor(r, s), 1)[i] == (Shl(r, 1)[i] != Shl(s, 1)[i]); }
    }
  }

  /** The register after a message is linear in the register before and in the message. */
  lemma {:induction false} RunLinear(r: Word, s: Word, p: Word, a: Word, b: Word)
    requires |r| == |s| == |p| > 0 && |a| == |b|
    ensures Run(Xor(r, s), p, Xor(a, b)) == Xor(Run(r, p, a), Run(s, p, b))
    decreases |a|
  {
    if a != [] {
      StepLinear(r, s, p, a[0], b[0]);
      assert Xor(a, b)[1..] == Xor(a[1..], b[1..]);
      RunLinear(Step(r, p, a[0]), Step(s, p, b[0]), p, a[1..], b[1..]);
    }
  }

  lemma AugStepLinear(r: Word, s: Word, p: Word, b: bool, c: bool)
    requires |r| == |s| == |p| > 0
    ensures AugStep(Xor(r, s), p, b != c) == Xor(AugStep(r, p, b), AugStep(s, p, c))
  {
    assert Xor(r, s)[1..] + [b != c] == Xor(r[1..] + [b], s[1..] + [c]);
  }

  lemma {:induction false} AugRunLinear(r: Word, s: Word, p: Word, a: Word, b: Word)
    requires |r| == |s| == |p| > 0 && |a| == |b|
    ensures AugRun(Xor(r, s), p, Xor(a, b)) == Xor(AugRun(r, p, a), AugRun(s, p, b))
    decreases |a|
  {
    if a != [] {
      AugStepLinear(r, s, p, a[0], b[0]);
      assert Xor(a, b)[1..] == Xor(a[1..], b[1..]);
      AugRunLinear(AugStep(r, p, a[0]), AugStep(s, p, b[0]), p, a[1..], b[1..]);
    }
  }

  // ----- The identity behind every lookup table -----

  /** Input equal to the leading bits of the register cancels them: nothing is left but the shift. */
  lemma {:induction false} RunCancels(r: Word, p: Word, k: nat)
    requires |r| == |p| > 0 && k <= |p|
    ensures Run(r, p, r[..k]) == Shl(r, k)
    decreases k
  {
    if k > 0 {
      var s := Step(r, p, r[0]);
      assert s == Shl(r, 1) && r[..k][1..] == s[..k - 1];
      RunCancels(s, p, k - 1);
      assert Shl(s, k - 1) == Shl(r, k);
    } else {
      assert Shl(r, 0) == r;
    }
  }

  /** Processing up to |p| input bits is a shift and one combined mask, which depends only on the leading bits
      and the input. */
  lemma RunByTable(r: Word, p: Word, m: Word)
    requires |r| == |p| > 0 && |m| <= |p|
    ensures Run(r, p, m) == Xor(Shl(r, |m|), Run(Zeros(|p|), p, Xor(r[..|m|], m)))
  {
    var t := r[..|m|];
    RunCancels(r, p, |m|);
    RunLinear(r, Zeros(|p|), p, t, Xor(t, m));
    XorZeros(r);
    XorCancel(t, m);
  }

  /** The table is linear in its index. */
  lemma TableLinear(p: Word, a: Word, b: Word)
    requires |p| > 0 && |a| == |b|
    ensures Run(Zeros(|p|), p, Xor(a, b)) == Xor(Run(Zeros(|p|), p, a), Run(Zeros(|p|), p, b))
  {
    RunLinear(Zeros(|p|), Zeros(|p|), p, a, b);
    XorZeros(Zeros(|p|));
  }

  // ----- Augmented against unaugmented division -----

  /** The register advanced by k zero bits. */
  function Advance(r: Word, p: Word, k: nat): (s: Word)
    requires |r| == |p| > 0
    ensures |s| == |p|
  {
    Run(r, p, Zeros(k))
  }

  lemma {:induction false} AdvanceIsAugmented(r: Word, p: Word, k: nat)
    requires |r| == |p| > 0
    ensures Advance(r, p, k) == AugRun(r, p, Zeros(k))
    decreases k
  {
    if k > 0 {
      assert Zeros(k)[1..] == Zeros(k - 1) && Shl(r, 1) == r[1..] + [false];
      AdvanceIsAugmented(Step(r, p, false), p, k - 1);
    }
  }

  lemma AdvanceByTable(r: Word, p: Word, k: nat)
    requires |r| == |p| > 0 && k <= |p|
    ensures Advance(r, p, k) == Xor(Shl(r, k), Run(Zeros(|p|), p, r[..k]))
  {
    RunByTable(r, p, Zeros(k));
    XorZeros(r[..k]);
  }

  lemma {:induction false} ZeroStays(p: Word, k: nat)
    requires |p| > 0
    ensures Advance(Zeros(|p|), p, k) == Zeros(|p|)
  {
    if k > 0 {
      assert Shl(Zeros(|p|), 1) == Zeros(|p|) && Zeros(k)[1..] == Zeros(k - 1);
      ZeroStays(p, k - 1);
    }
  }

  /** Up to |p| bits shifted into an empty register stay as they are. */
  lemma {:induction false} AugRunLoads(r: Word, p: Word, m: Word)
    requires |r| == |p| > 0 && |m| <= |p| && forall i :: 0 <= i < |m| ==> !r[i]
    ensures AugRun(r, p, m) == r[|m|..] + m
    decreases |m|
  {
    if m != [] {
      AugRunLoads(AugStep(r, p, m[0]), p, m[1..]);
    }
  }

  lemma RunOne(r: Word, p: Word, b: bool)
    requires |r| == |p| > 0
    ensures Run(r, p, [b]) == Step(r, p, b)
  {
    assert [b][1..] == [];
  }

  lemma StepSplit(r: Word, p: Word, b: bool)
    requires |r| == |p| > 0
    ensures Step(r, p, b) == Xor(Step(r, p, false), if b then p else Zeros(|p|))
    ensures AugStep(r, p, b) == Xor(Step(r, p, false), Zeros(|p| - 1) + [b])
  {
    XorZeros(r);
    StepLinear(r, Zeros(|p|), p, false, b);
    assert Shl(Zeros(|p|), 1) == Zeros(|p|);
    XorZeros(p);
    assert Shl(r, 1) == r[1..] + [false];
    assert Xor(r[1..] + [false], Zeros(|p| - 1) + [b]) == r[1..] + [b];
  }

  /** A lone constant term, pushed out of the register, comes back as the divisor. */
  lemma AdvanceOne(p: Word, b: bool)
    requires |p| > 0
    ensures Advance(Zeros(|p| - 1) + [b], p, |p|) == if b then p else Zeros(|p|)
  {
    var n, z := |p|, Zeros(|p|);
    var e := Zeros(n - 1) + [b];
    AdvanceByTable(e, p, n);
    assert e[..n] == e && Shl(e, n) == z;
    XorZeros(Run(z, p, e));
    RunAppend(z, p, Zeros(n - 1), [b]);
    ZeroStays(p, n - 1);
    RunOne(z, p, b);
    ZeroStays(p, 1);
    RunOne(z, p, false);
    assert Zeros(1) == [false];
    StepSplit(z, p, b);
    XorZeros(if b then p else z);
  }

  /** Advancing by the order of the divisor turns a plain division step into an altered one. */
  lemma AdvanceIntertwines(r: Word, p: Word, b: bool)
    requires |r| == |p| > 0
    ensures Advance(AugStep(r, p, b), p, |p|) == Step(Advance(r, p, |p|), p, b)
  {
    var n, e, z := |p|, Zeros(|p| - 1) + [b], Step(r, p, false);
    StepSplit(r, p, b);
    RunLinear(z, e, p, Zeros(n), Zeros(n));
    XorZeros(Zeros(n));
    AdvanceOne(p, b);
    AdvanceOnceMore(r, p, n);
    StepSplit(Advance(r, p, n), p, b);
  }

  lemma AdvanceOnceMore(r: Word, p: Word, k: nat)
    requires |r| == |p| > 0
    ensures Advance(Step(r, p, false), p, k) == Step(Advance(r, p, k), p, false)
  {
    RunAppend(r, p, [false], Zeros(k));
    RunAppend(r, p, Zeros(k), [false]);
    RunOne(r, p, false);
    RunOne(Advance(r, p, k), p, false);
    assert [false] + Zeros(k) == Zeros(k) + [false];
  }

  lemma {:induction false} AdvanceOverRun(r: Word, p: Word, m: Word)
    requires |r| == |p| > 0
    ensures Advance(AugRun(r, p, m), p, |p|) == Run(Advance(r, p, |p|), p, m)
    decreases |m|
  {
    if m != [] {
      AdvanceIntertwines(r, p, m[0]);
      AdvanceOverRun(AugStep(r, p, m[0]), p, m[1..]);
    }
  }

  /** Plain division of a message followed by a field c of n bits. With c zero this is the altered division of the
      message alone, from a register advanced by n zero bits; any other field is added to that. */
  lemma AugmentedAgrees(r: Word, p: Word, m: Word, c: Word)
    requires |r| == |p| == |c| > 0
    ensures AugRun(r, p, m + c) == Xor(Run(Advance(r, p, |p|), p, m), c)
    ensures AugRun(r, p, m + Zeros(|p|)) == Run(Advance(r, p, |p|), p, m)
  {
    AugmentedField(r, p, m, c);
    AugmentedField(r, p, m, Zeros(|p|));
    XorZeros(Run(Advance(r, p, |p|), p, m));
  }

  lemma AugmentedField(r: Word, p: Word, m: Word, c: Word)
    requires |r| == |p| == |c| > 0
    ensures AugRun(r, p, m + c) == Xor(Run(Advance(r, p, |p|), p, m), c)
  {
    var a := AugRun(r, p, m);
    AugRunAppend(r, p, m, c);
    AugRunField(a, p, c);
    AdvanceOverRun(r, p, m);
    assert Zeros(|p|)[|p|..] + c == c && a[|p|..] + c == c;
    RunByTable(a, p, Zeros(|p|));
  }

  /** Plain division splits into the effect of the register and that of the input. */
  lemma AugRunField(r: Word, p: Word, c: Word)
    requires |r| == |p| > 0 && |c| <= |p|
    ensures AugRun(r, p, c) == Xor(Advance(r, p, |c|), Zeros(|p| - |c|) + c)
  {
    var z := Zeros(|p|);
    AugRunLinear(r, z, p, Zeros(|c|), c);
    XorZeros(r);
    XorZeros(c);
    AdvanceIsAugmented(r, p, |c|);
    AugRunLoads(z, p, c);
    assert z[|c|..] == Zeros(|p| - |c|);
  }

  /** Plain division of k input bits is a shift, the input, and the same combined mask. */
  lemma AugRunByTable(r: Word, p: Word, m: Word)
    requires |r| == |p| > 0 && |m| <= |p|
    ensures AugRun(r, p, m) == Xor(r[|m|..] + m, Run(Zeros(|p|), p, r[..|m|]))
  {
    AugRunField(r, p, m);
    RunByTable(r, p, Zeros(|m|));
    XorZeros(r[..|m|]);
    ShiftIn(r, m, Run(Zeros(|p|), p, r[..|m|]));
  }

  lemma ShiftIn(r: Word, m: Word, t: Word)
    requires |m| <= |r| == |t|
    ensures Xor(Xor(Shl(r, |m|), t), Zeros(|r| - |m|) + m) == Xor(r[|m|..] + m, t)
  {
  }

  /** The todo on `make_partial_xor_products_table`: both forms of augmented division give the same table entry. */
  lemma TableAsAugmented(p: Word, d: Word)
    requires 0 < |d| <= |p|
    ensures Run(Zeros(|p|), p, d) == AugRun(Zeros(|p|), p, d + Zeros(|p|))
    ensures Run(Zeros(|p|), p, d) == AugRun(d + Zeros(|p| - |d|), p, Zeros(|d|))
  {
    AugmentedAgrees(Zeros(|p|), p, d, Zeros(|p|));
    ZeroStays(p, |p|);
    TableFromTop(p, d);
  }

  lemma TableFromTop(p: Word, d: Word)
    requires 0 < |d| <= |p|
    ensures Run(Zeros(|p|), p, d) == AugRun(d + Zeros(|p| - |d|), p, Zeros(|d|))
  {
    hide *;
    TopPlaced(d, |p|);
    AdvanceIsAugmented(d + Zeros(|p| - |d|), p, |d|);
    AdvanceByTable(d + Zeros(|p| - |d|), p, |d|);
    XorZeros(Run(Zeros(|p|), p, d));
  }

  lemma TopPlaced(d: Word, n: nat)
    requires |d| <= n
    ensures var r := d + Zeros(n - |d|); r[..|d|] == d && Shl(r, |d|) == Zeros(n)
  {
    var r := d + Zeros(n - |d|);
    assert r[|d|..] == Zeros(n - |d|);
  }

  // ----- Converting initial remainders -----

  /** The register one zero bit earlier. */
  function StepBack(s: Word, p: Word): (r: Word)
    requires |s| == |p| > 0
    ensures |r| == |p|
  {
    var n := |p|;
    [s[n - 1]] + (if s[n - 1] then Xor(s, p) else s)[..n - 1]
  }

  lemma StepBackUndoes(s: Word, p: Word)
    requires |s| == |p| > 0 && p[|p| - 1]
    ensures Step(StepBack(s, p), p, false) == s
  {
    var n, r := |p|, StepBack(s, p);
    var t := if s[n - 1] then Xor(s, p) else s;
    assert Shl(r, 1) == t[..n - 1] + [false] == t;
    XorCancel(p, s);
    assert Xor(t, p) == s || !s[n - 1] by { assert forall i :: 0 <= i < n ==> Xor(Xor(s, p), p)[i] == s[i]; }
  }

  /** The register k zero bits earlier. */
  function Retreat(s: Word, p: Word, k: nat): (r: Word)
    requires |s| == |p| > 0
    ensures |r| == |p|
  {
    if k == 0 then s else StepBack(Retreat(s, p, k - 1), p)
  }

  lemma {:induction false} RetreatUndoes(s: Word, p: Word, k: nat)
    requires |s| == |p| > 0 && p[|p| - 1]
    ensures Advance(Retreat(s, p, k), p, k) == s
    decreases k
  {
    if k > 0 {
      var t := Retreat(s, p, k - 1);
      StepBackUndoes(t, p);
      assert Zeros(k)[1..] == Zeros(k - 1);
      RetreatUndoes(s, p, k - 1);
    }
  }

  /** A divisor without a constant term always shifts a zero in. */
  lemma {:induction false} LastStaysClear(r: Word, p: Word, k: nat)
    requires |r| == |p| > 0 && !p[|p| - 1] && k > 0
    ensures !Advance(r, p, k)[|p| - 1]
    decreases k
  {
    var s := Step(r, p, false);
    assert Zeros(k)[1..] == Zeros(k - 1);
    assert Advance(r, p, k) == Advance(s, p, k - 1);
    assert !s[|p| - 1];
    if k > 1 { LastStaysClear(s, p, k - 1); }
  }

  /** r is the initial remainder with which plain division, given n zero bits after each message, does what altered
      division does from `init`. */
  ghost predicate Converts(p: Word, init: Word, r: Word)
    requires |p| == |init| == |r| > 0
  {
    forall m: Word :: AugRun(r, p, m + Zeros(|p|)) == Run(init, p, m)
  }

  lemma ConvertsIf(p: Word, init: Word, r: Word)
    requires |r| == |p| == |init| > 0
    ensures Converts(p, init, r) <==> Advance(r, p, |p|) == init
  {
    hide Advance, Run, AugRun;
    if Advance(r, p, |p|) == init {
      forall m: Word ensures AugRun(r, p, m + Zeros(|p|)) == Run(init, p, m) { AugmentedAgrees(r, p, m, init); }
    }
    if Converts(p, init, r) {
      assert AugRun(r, p, [] + Zeros(|p|)) == Run(init, p, []);
      AugmentedAgrees(r, p, [], init);
      RunNothing(init, p);
      RunNothing(Advance(r, p, |p|), p);
    }
  }

  lemma RunNothing(r: Word, p: Word)
    requires |r| == |p| > 0
    ensures Run(r, p, []) == r
  {
  }

  /** Every initial remainder can be converted to the augmented form exactly when the divisor is odd. */
  lemma InitialRemainderConverts(p: Word)
    requires |p| > 0
    ensures (forall init: Word :: |init| == |p| ==> exists r: Word :: |r| == |p| && Converts(p, init, r))
      <==> p[|p| - 1]
  {
    hide *;
    var n := |p|;
    if p[n - 1] {
      forall init: Word | |init| == n ensures exists r: Word :: |r| == |p| && Converts(p, init, r) {
        RetreatUndoes(init, p, n);
        ConvertsIf(p, init, Retreat(init, p, n));
      }
    } else {
      forall r: Word | |r| == n ensures !Converts(p, OneHot(n, 0), r) { NeverConverts(p, r); }
      assert |OneHot(n, 0)| == n;
    }
  }

  lemma NeverConverts(p: Word, r: Word)
    requires |r| == |p| > 0 && !p[|p| - 1]
    ensures !Converts(p, OneHot(|p|, 0), r)
  {
    hide Advance, Converts;
    ConvertsIf(p, OneHot(|p|, 0), r);
    LastStaysClear(r, p, |p|);
  }

  // ----- The remainder of true polynomial division -----

  /** The product over GF(2), with no truncation: |q| + |d| - 1 coefficients. */
  function Product(q: Word, d: Word): (w: Word)
    requires |d| > 0
    ensures |w| == |q| + |d| - 1
    decreases |q|
  {
    if q == [] then Zeros(|d| - 1)
    else
      var k := |q| - 1;
      var w := Product(q[..k], d) + [false];
      if q[k] then Xor(w, Zeros(k) + d) else w
  }

  /** r is what is left of the dividend a after subtracting q times the divisor x^n + p. */
  predicate Divides(a: Word, p: Word, q: Word, r: Word)
    requires |p| > 0
  {
    && |r| == |p| && |a| == |q| + |p|
    && a == Xor(Product(q, [true] + p), Zeros(|q|) + r)
  }

  ghost predicate IsRemainder(a: Word, p: Word, r: Word)
    requires |p| > 0
  {
    exists q :: Divides(a, p, q, r)
  }

  lemma {:induction false} ProductXor(a: Word, b: Word, d: Word)
    requires |a| == |b| && |d| > 0
    ensures Product(Xor(a, b), d) == Xor(Product(a, d), Product(b, d))
    decreases |a|
  {
    if a != [] {
      var k := |a| - 1;
      assert Xor(a, b)[..k] == Xor(a[..k], b[..k]);
      ProductXor(a[..k], b[..k], d);
    }
  }

  /** Only the zero quotient gives a product of degree below that of the divisor. */
  lemma {:induction false} ProductDegree(q: Word, d: Word)
    requires |d| > 0 && d[0]
    requires forall i :: 0 <= i < |q| ==> !Product(q, d)[i]
    ensures q == Zeros(|q|)
    decreases |q|
  {
    if q != [] {
      var k := |q| - 1;
      var w := Product(q[..k], d) + [false];
      forall i | 0 <= i < k ensures !Product(q[..k], d)[i] {
        assert Product(q, d)[i] == w[i];
      }
      ProductDegree(q[..k], d);
      ProductZero(k, d);
      assert Product(q, d)[k] == (w[k] != q[k]);
      assert q == q[..k] + [q[k]];
    }
  }

  lemma {:induction false} ProductZero(k: nat, d: Word)
    requires |d| > 0
    ensures Product(Zeros(k), d) == Zeros(k + |d| - 1)
  {
    if k > 0 {
      assert Zeros(k)[..k - 1] == Zeros(k - 1);
      ProductZero(k - 1, d);
    }
  }

  /** Multiplying by a power of x shifts; with `ProductXor` that makes it the product of polynomials. */
  lemma {:induction false} ProductOfPower(n: nat, k: nat, d: Word)
    requires |d| > 0 && k < n
    ensures Product(OneHot(n, k), d) == Zeros(n - 1 - k) + d + Zeros(k)
    decreases k
  {
    var q := OneHot(n, k);
    if k == 0 {
      assert q[..n - 1] == Zeros(n - 1);
      ProductZero(n - 1, d);
      var w := Product(q[..n - 1], d) + [false];
      assert w == Zeros(|w|);
      XorZeros(Zeros(n - 1) + d);
      assert Zeros(n - 1) + d + Zeros(0) == Zeros(n - 1) + d;
    } else {
      assert q[..n - 1] == OneHot(n - 1, k - 1);
      ProductOfPower(n - 1, k - 1, d);
      assert Zeros(k - 1) + [false] == Zeros(k);
    }
  }

  /** A dividend has one quotient and one remainder. */
  lemma DivisionUnique(a: Word, p: Word, q: Word, r: Word, q': Word, r': Word)
    requires |p| > 0 && Divides(a, p, q, r) && Divides(a, p, q', r')
    ensures q == q' && r == r'
  {
    var d := [true] + p;
    var x := Xor(q, q');
    ProductXor(q, q', d);
    forall i | 0 <= i < |q| ensures !Product(x, d)[i] {
      assert a[i] == Product(q, d)[i] == Product(q', d)[i];
    }
    ProductDegree(x, d);
    forall i | 0 <= i < |q| ensures q[i] == q'[i] {
      assert x[i] == Zeros(|q|)[i];
    }
    assert q == q';
    forall i | 0 <= i < |p| ensures r[i] == r'[i] {
      assert a[|q| + i] == (Product(q, d)[|q| + i] != r[i]);
      assert a[|q| + i] == (Product(q, d)[|q| + i] != r'[i]);
    }
  }

  /** The dividend of an unaugmented run: M(x) x^n + Init(x) x^|M|. */
  function Dividend(init: Word, m: Word): (a: Word)
    ensures |a| == |m| + |init|
    ensures forall i :: 0 <= i < |a| ==> a[i] == ((i < |m| && m[i]) != (i < |init| && init[i]))
  {
    Xor(m + Zeros(|init|), init + Zeros(|m|))
  }

  /** The quotient bits of a run, which the loop computes and discards. */
  function Quotient(r: Word, p: Word, m: Word): (q: Word)
    requires |r| == |p| > 0
    ensures |q| == |m|
  {
    if m == [] then []
    else
      var k := |m| - 1;
      Quotient(r, p, m[..k]) + [Run(r, p, m[..k])[0] != m[k]]
  }

  lemma DividendOneMore(init: Word, m: Word, b: bool)
    ensures Dividend(init, m + [b]) == Xor(Dividend(init, m) + [false], Zeros(|m|) + ([b] + Zeros(|init|)))
  {
  }

  lemma LeadingTerm(c: bool, x: Word, p: Word)
    requires |x| == |p|
    ensures [c] + x == Xor(if c then [true] + p else Zeros(|p| + 1), [false] + if c then Xor(x, p) else x)
  {
    var d, y := if c then [true] + p else Zeros(|p| + 1), [false] + if c then Xor(x, p) else x;
    forall i | 0 <= i <= |p| ensures ([c] + x)[i] == Xor(d, y)[i] {
      if i > 0 { assert ([c] + x)[i] == x[i - 1]; }
    }
  }

  /** One step of long division on the leading window of the dividend. */
  lemma StepDivides(r: Word, p: Word, b: bool)
    requires |r| == |p| > 0
    ensures Xor(r + [false], [b] + Zeros(|p|))
         == Xor(if r[0] != b then [true] + p else Zeros(|p| + 1), [false] + Step(r, p, b))
  {
    var x := Shl(r, 1);
    FrontBit(r, b);
    LeadingTerm(r[0] != b, x, p);
  }

  lemma FrontBit(r: Word, b: bool)
    requires |r| > 0
    ensures Xor(r + [false], [b] + Zeros(|r|)) == [r[0] != b] + Shl(r, 1)
  {
    var u, v, w := r + [false], [b] + Zeros(|r|), [r[0] != b] + Shl(r, 1);
    forall i | 0 <= i < |w| ensures Xor(u, v)[i] == w[i] {
      if i > 0 { assert w[i] == Shl(r, 1)[i - 1] == u[i] && !v[i]; }
    }
  }

  /** Adding below k leading zeros, in any order. */
  lemma XorTail(k: nat, w: Word, x: Word, y: Word, u: Word, v: Word)
    requires |w| == k + |x| && |x| == |y| == |u| == |v| && Xor(x, y) == Xor(u, v)
    ensures Xor(Xor(w, Zeros(k) + x), Zeros(k) + y) == Xor(Xor(w, Zeros(k) + u), Zeros(k) + v)
  {
    forall i | 0 <= i < |x| ensures (x[i] != y[i]) == (u[i] != v[i]) {
      assert Xor(x, y)[i] == Xor(u, v)[i];
    }
  }

  /** Bringing one more message bit into a division: quotient and remainder grow as in long division. */
  lemma DivideOneMore(init: Word, p: Word, m: Word, b: bool, q: Word, r: Word)
    requires |init| == |p| > 0
    requires Divides(Dividend(init, m), p, q, r)
    ensures Divides(Dividend(init, m + [b]), p, q + [r[0] != b], Step(r, p, b))
  {
    var n, d, k, c, s := |p|, [true] + p, |m|, r[0] != b, Step(r, p, b);
    var w := Product(q, d) + [false];
    var cd := if c then d else Zeros(n + 1);
    assert (q + [c])[..k] == q;
    assert Product(q + [c], d) == Xor(w, Zeros(k) + cd) by { NoTail(k, w); }
    DividendOneMore(init, m, b);
    assert Dividend(init, m) + [false] == Xor(w, Zeros(k) + (r + [false]));
    StepDivides(r, p, b);
    XorTail(k, w, r + [false], [b] + Zeros(n), cd, [false] + s);
    assert Zeros(k) + ([false] + s) == Zeros(k + 1) + s;
    assert Dividend(init, m + [b]) == Xor(Product(q + [c], d), Zeros(k + 1) + s);
  }

  lemma NoTail(k: nat, w: Word)
    requires k <= |w|
    ensures Xor(w, Zeros(k) + Zeros(|w| - k)) == w
  {
  }

  lemma {:induction false} RunDivides(init: Word, p: Word, m: Word)
    requires |init| == |p| > 0
    ensures Divides(Dividend(init, m), p, Quotient(init, p, m), Run(init, p, m))
    decreases |m|
  {
    if m == [] {
      DivideNothing(init, p);
    } else {
      var m', b := m[..|m| - 1], m[|m| - 1];
      assert m == m' + [b];
      RunDivides(init, p, m');
      DivideOneMore(init, p, m', b, Quotient(init, p, m'), Run(init, p, m'));
      RunAppend(init, p, m', [b]);
      RunOne(Run(init, p, m'), p, b);
    }
  }

  lemma DivideNothing(init: Word, p: Word)
    requires |init| == |p| > 0
    ensures Divides(Dividend(init, []), p, [], init)
  {
    var a, w, z := Dividend(init, []), Product([], [true] + p), Zeros(0) + init;
    assert z == init;
    assert forall i :: 0 <= i < |init| ==> a[i] == (w[i] != z[i]);
    assert a == Xor(w, z);
  }

  /** What a remainder is: the dividend is a multiple of the divisor plus the remainder. */
  lemma IsRemainderExactly(a: Word, p: Word, r: Word)
    requires |p| == |r| > 0
    ensures IsRemainder(a, p, r) <==>
      exists q: Word :: |a| == |q| + |p| && a == Xor(Product(q, [true] + p), Zeros(|q|) + r)
  {
    if IsRemainder(a, p, r) {
      var q :| Divides(a, p, q, r);
      assert |a| == |q| + |p| && a == Xor(Product(q, [true] + p), Zeros(|q|) + r);
    }
    if exists q: Word :: |a| == |q| + |p| && a == Xor(Product(q, [true] + p), Zeros(|q|) + r) {
      var q: Word :| |a| == |q| + |p| && a == Xor(Product(q, [true] + p), Zeros(|q|) + r);
      assert Divides(a, p, q, r);
    }
  }

  /** The unaugmented loop computes the remainder of M(x) x^n + Init(x) x^|M|, and nothing else is a remainder. */
  lemma RunIsRemainder(init: Word, p: Word, m: Word, r: Word)
    requires |init| == |p| > 0 && |r| == |p|
    ensures IsRemainder(Dividend(init, m), p, r) <==> r == Run(init, p, m)
  {
    RunDivides(init, p, m);
    OnlyRemainder(Dividend(init, m), p, Quotient(init, p, m), Run(init, p, m), r);
  }

  lemma OnlyRemainder(a: Word, p: Word, q: Word, s: Word, r: Word)
    requires |p| > 0 && Divides(a, p, q, s)
    ensures IsRemainder(a, p, r) <==> r == s
  {
    if IsRemainder(a, p, r) {
      var q' :| Divides(a, p, q', r);
      DivisionUnique(a, p, q, s, q', r);
    }
  }

  // ----- The remainder of plain division -----

  /** The quotient bits of an augmented run. */
  function AugQuotient(r: Word, p: Word, m: Word): (q: Word)
    requires |r| == |p| > 0
    ensures |q| == |m|
  {
    if m == [] then []
    else
      var k := |m| - 1;
      AugQuotient(r, p, m[..k]) + [AugRun(r, p, m[..k])[0]]
  }

  lemma AugStepDivides(s: Word, p: Word, b: bool)
    requires |s| == |p| > 0
    ensures s + [b] == Xor(if s[0] then [true] + p else Zeros(|p| + 1), [false] + AugStep(s, p, b))
  {
    var x := s[1..] + [b];
    assert s + [b] == [s[0]] + x;
    LeadingTerm(s[0], x, p);
  }

  lemma XorInside(k: nat, w: Word, x: Word, c: Word, y: Word)
    requires |w| == k + |x| && |x| == |c| == |y| && x == Xor(c, y)
    ensures Xor(w, Zeros(k) + x) == Xor(Xor(w, Zeros(k) + c), Zeros(k) + y)
  {
  }

  lemma AugDivideOneMore(a: Word, p: Word, q: Word, s: Word, b: bool)
    requires |s| == |p| > 0 && Divides(a, p, q, s)
    ensures Divides(a + [b], p, q + [s[0]], AugStep(s, p, b))
  {
    var n, d, k, s' := |p|, [true] + p, |q|, AugStep(s, p, b);
    var w, c := Product(q, d) + [false], if s[0] then d else Zeros(n + 1);
    assert (q + [s[0]])[..k] == q;
    assert Product(q + [s[0]], d) == Xor(w, Zeros(k) + c) by { NoTail(k, w); }
    assert a + [b] == Xor(w, Zeros(k) + (s + [b]));
    AugStepDivides(s, p, b);
    XorInside(k, w, s + [b], c, [false] + s');
    assert Zeros(k) + ([false] + s') == Zeros(k + 1) + s';
  }

  lemma AugRunOne(s: Word, p: Word, b: bool)
    requires |s| == |p| > 0
    ensures AugRun(s, p, [b]) == AugStep(s, p, b)
  {
  }

  lemma {:induction false} AugRunDivides(v: Word, p: Word, m: Word)
    requires |v| == |p| > 0
    ensures Divides(v + m, p, AugQuotient(v, p, m), AugRun(v, p, m))
    decreases |m|
  {
    if m == [] {
      DivideNothing(v, p);
      assert v + [] == v == Dividend(v, []);
    } else {
      var m', b := m[..|m| - 1], m[|m| - 1];
      assert m == m' + [b];
      AugRunDivides(v, p, m');
      AugDivideOneMore(v + m', p, AugQuotient(v, p, m'), AugRun(v, p, m'), b);
      AugRunAppend(v, p, m', [b]);
      AugRunOne(AugRun(v, p, m'), p, b);
      assert v + m == (v + m') + [b];
    }
  }

  /** The augmented loop computes the remainder of the start value and the message read as one polynomial. */
  lemma AugRunIsRemainder(v: Word, p: Word, m: Word, r: Word)
    requires |v| == |p| > 0 && |r| == |p|
    ensures IsRemainder(v + m, p, r) <==> r == AugRun(v, p, m)
  {
    AugRunDivides(v, p, m);
    OnlyRemainder(v + m, p, AugQuotient(v, p, m), AugRun(v, p, m), r);
  }

  // ----- Error detection -----

  lemma StepInjective(r: Word, s: Word, p: Word, b: bool)
    requires |r| == |s| == |p| > 0 && p[|p| - 1]
    requires Step(r, p, b) == Step(s, p, b)
    ensures r == s
  {
    var n := |p|;
    var x, y := Step(r, p, b), Step(s, p, b);
    assert x[n - 1] == (r[0] != b) && y[n - 1] == (s[0] != b);
    forall i | 1 <= i < n ensures r[i] == s[i] {
      assert Shl(r, 1)[i - 1] == r[i] && Shl(s, 1)[i - 1] == s[i];
      assert x[i - 1] == (r[i] != ((r[0] != b) && p[i - 1]));
      assert y[i - 1] == (s[i] != ((s[0] != b) && p[i - 1]));
    }
  }

  lemma {:induction false} RunInjective(r: Word, s: Word, p: Word, m: Word)
    requires |r| == |s| == |p| > 0 && p[|p| - 1]
    requires Run(r, p, m) == Run(s, p, m)
    ensures r == s
    decreases |m|
  {
    if m != [] {
      RunInjective(Step(r, p, m[0]), Step(s, p, m[0]), p, m[1..]);
      StepInjective(r, s, p, m[0]);
    }
  }

  /** Only input equal to the register's own contents can clear the register within n bits. */
  lemma {:induction false} RunToZero(r: Word, p: Word, m: Word)
    requires |r| == |p| > 0 && p[|p| - 1] && |m| <= |p|
    requires Run(r, p, m) == Zeros(|p|)
    ensures r == m + Zeros(|p| - |m|)
    decreases |m|
  {
    if m != [] {
      var s := Step(r, p, m[0]);
      RunToZero(s, p, m[1..]);
      assert !s[|p| - 1] && s[|p| - 1] == (r[0] != m[0]);
      forall i | 1 <= i < |p| ensures r[i] == (m + Zeros(|p| - |m|))[i] {
        assert s[i - 1] == Shl(r, 1)[i - 1] == r[i];
      }
    }
  }

  lemma RunThrough(r: Word, p: Word, a: Word, u: Word, z: Word)
    requires |r| == |p| > 0
    ensures Run(r, p, a + u + z) == Run(Run(Run(r, p, a), p, u), p, z)
  {
    RunAppend(r, p, a + u, z);
    RunAppend(r, p, a, u);
  }

  /** A burst of up to n bits leaves its mark at once. */
  lemma BurstMarks(r: Word, p: Word, u: Word, v: Word)
    requires |r| == |p| > 0 && p[|p| - 1]
    requires |u| == |v| <= |p| && Run(r, p, u) == Run(r, p, v)
    ensures u == v
  {
    var z, d := Zeros(|p|), Xor(u, v);
    RunLinear(r, r, p, u, v);
    XorZeros(r);
    XorZeros(Run(r, p, u));
    RunToZero(z, p, d);
    forall j | 0 <= j < |u| ensures u[j] == v[j] {
      assert d[j] == (d + Zeros(|p| - |u|))[j] == z[j];
    }
  }

  /** Two messages of one length that differ within n consecutive bits, u in one and v in the other. */
  lemma OddDetects(r: Word, p: Word, x: Word, u: Word, v: Word, y: Word)
    requires |r| == |p| > 0 && p[|p| - 1]
    requires |u| == |v| <= |p| && u != v
    ensures Run(r, p, x + u + y) != Run(r, p, x + v + y)
  {
    var s := Run(r, p, x);
    RunThrough(r, p, x, u, y);
    RunThrough(r, p, x, v, y);
    if Run(r, p, x + u + y) == Run(r, p, x + v + y) {
      RunInjective(Run(s, p, u), Run(s, p, v), p, y);
      BurstMarks(s, p, u, v);
    }
  }

  /** The divisor's constant term decides: with it every burst of up to n bits is seen, in every message and from
      every register; without it the message that spells out P(x)/x goes unnoticed. */
  lemma BurstDetection(p: Word)
    requires |p| > 0
    ensures p[|p| - 1] ==> forall r: Word, x: Word, u: Word, v: Word, y: Word ::
      |r| == |p| && |u| == |v| <= |p| && u != v ==> Run(r, p, x + u + y) != Run(r, p, x + v + y)
    ensures !p[|p| - 1] ==> exists u: Word, v: Word ::
      |u| == |v| <= |p| && u != v && Run(Zeros(|p|), p, u) == Run(Zeros(|p|), p, v)
  {
    hide *;
    if p[|p| - 1] {
      forall r: Word, x: Word, u: Word, v: Word, y: Word | |r| == |p| && |u| == |v| <= |p| && u != v
        ensures Run(r, p, x + u + y) != Run(r, p, x + v + y)
      {
        OddDetects(r, p, x, u, v, y);
      }
    } else {
      var z, e := Zeros(|p|), [true] + p[..|p| - 1];
      BurstMissed(p);
      assert e[0] != z[0] && |e| == |z|;
    }
  }

  lemma BurstMissed(p: Word)
    requires |p| > 0 && !p[|p| - 1]
    ensures var z := Zeros(|p|); Run(z, p, [true] + p[..|p| - 1]) == Run(z, p, z)
  {
    hide Shl;
    var n, z, e := |p|, Zeros(|p|), [true] + p[..|p| - 1];
    FirstBitDivides(p);
    assert e[1..] == p[..n - 1];
    assert Run(z, p, e) == Run(p, p, p[..n - 1]);
    RunCancels(p, p, n - 1);
    OnlyTopBits(p);
    ZeroStays(p, n);
  }

  lemma FirstBitDivides(p: Word)
    requires |p| > 0
    ensures Step(Zeros(|p|), p, true) == p
  {
    assert Shl(Zeros(|p|), 1) == Zeros(|p|);
    XorZeros(p);
  }

  lemma OnlyTopBits(p: Word)
    requires |p| > 0 && !p[|p| - 1]
    ensures Shl(p, |p| - 1) == Zeros(|p|)
  {
  }
}
