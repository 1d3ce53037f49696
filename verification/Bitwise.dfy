/** The bit-at-a-time routines: reflection and modulo-2 division on W-bit registers of which only the `order`
    low-order bits are significant. The bits above are never cleared. */
module Bitwise {
  import opened Powers
  import opened Words
  import opened Division

  // ----- One step on the whole register -----

  function RegStep(order: nat, r: Word, p: Word, b: bool): (s: Word)
    requires 0 < order <= |r| == |p|
    ensures |s| == |r|
  {
    var x := if b then Xor(r, OneHot(|r|, order - 1)) else r;
    if x[|r| - order] then Xor(Shl(x, 1), p) else Shl(x, 1)
  }

  function RegRun(order: nat, r: Word, p: Word, m: Word): (s: Word)
    requires 0 < order <= |r| == |p|
    ensures |s| == |r|
    decreases |m|
  {
    if m == [] then r else RegRun(order, RegStep(order, r, p, m[0]), p, m[1..])
  }

  function AugRegStep(order: nat, r: Word, p: Word, b: bool): (s: Word)
    requires 0 < order <= |r| == |p|
    ensures |s| == |r|
  {
    var s := r[1..] + [b];
    if r[|r| - order] then Xor(s, p) else s
  }

  function AugRegRun(order: nat, r: Word, p: Word, m: Word): (s: Word)
    requires 0 < order <= |r| == |p|
    ensures |s| == |r|
    decreases |m|
  {
    if m == [] then r else AugRegRun(order, AugRegStep(order, r, p, m[0]), p, m[1..])
  }

  lemma LowXor(n: nat, a: Word, b: Word)
    requires n <= |a| == |b|
    ensures Low(n, Xor(a, b)) == Xor(Low(n, a), Low(n, b))
    ensures High(n, Xor(a, b)) == Xor(High(n, a), High(n, b))
  {
  }

  lemma LowRegStep(order: nat, r: Word, p: Word, b: bool)
    requires 0 < order <= |r| == |p|
    ensures Low(order, RegStep(order, r, p, b)) == Step(Low(order, r), Low(order, p), b)
  {
    var x := if b then Xor(r, OneHot(|r|, order - 1)) else r;
    assert Low(order, Shl(x, 1)) == Shl(Low(order, r), 1);
    LowXor(order, Shl(x, 1), p);
  }

  /** The stray bits above the significant ones never reach them: shifts go left. */
  lemma {:induction false} LowRegRun(order: nat, r: Word, p: Word, m: Word)
    requires 0 < order <= |r| == |p|
    ensures Low(order, RegRun(order, r, p, m)) == Run(Low(order, r), Low(order, p), m)
    decreases |m|
  {
    if m != [] {
      LowRegStep(order, r, p, m[0]);
      LowRegRun(order, RegStep(order, r, p, m[0]), p, m[1..]);
    }
  }

  lemma LowAugRegStep(order: nat, r: Word, p: Word, b: bool)
    requires 0 < order <= |r| == |p|
    ensures Low(order, AugRegStep(order, r, p, b)) == AugStep(Low(order, r), Low(order, p), b)
  {
    assert Low(order, r[1..] + [b]) == Low(order, r)[1..] + [b];
    LowXor(order, r[1..] + [b], p);
  }

  lemma {:induction false} LowAugRegRun(order: nat, r: Word, p: Word, m: Word)
    requires 0 < order <= |r| == |p|
    ensures Low(order, AugRegRun(order, r, p, m)) == AugRun(Low(order, r), Low(order, p), m)
    decreases |m|
  {
    if m != [] {
      LowAugRegStep(order, r, p, m[0]);
      LowAugRegRun(order, AugRegStep(order, r, p, m[0]), p, m[1..]);
    }
  }

  lemma {:induction false} RegRunAppend(order: nat, r: Word, p: Word, a: Word, b: Word)
    requires 0 < order <= |r| == |p|
    ensures RegRun(order, r, p, a + b) == RegRun(order, RegRun(order, r, p, a), p, b)
    decreases |a|
  {
    if a == [] {
      assert a + b == b;
    } else {
      assert (a + b)[1..] == a[1..] + b;
      RegRunAppend(order, RegStep(order, r, p, a[0]), p, a[1..], b);
    }
  }

  // ----- Reflection -----

  /** `(w & mask) != 0` for a mask with one bit set. */
  lemma TestBit(w: Word, k: nat)
    requires k < |w|
    ensures And(w, OneHot(|w|, k)) != Zeros(|w|) <==> w[|w| - 1 - k]
  {
    var t := And(w, OneHot(|w|, k));
    assert t[|w| - 1 - k] == w[|w| - 1 - k];
    if !w[|w| - 1 - k] { assert t == Zeros(|w|); }
  }

  /** The masked pair of bits equals one of the two masks exactly when the two bits differ. */
  lemma TestPair(x: Word, j: nat, k: nat)
    requires k < j < |x|
    ensures var h, l := OneHot(|x|, j), OneHot(|x|, k);
            var t := And(x, Or(h, l));
            t == h || t == l <==> x[|x| - 1 - j] != x[|x| - 1 - k]
  {
    var h, l := OneHot(|x|, j), OneHot(|x|, k);
    var t := And(x, Or(h, l));
    var a, b := |x| - 1 - j, |x| - 1 - k;
    assert t[a] == x[a] && t[b] == x[b] && h[a] && !h[b] && l[b] && !l[a];
    if x[a] && !x[b] { assert t == h; }
    if x[b] && !x[a] { assert t == l; }
  }

  lemma ShiftMasks(width: nat, k: nat)
    requires k < width
    ensures k > 0 ==> Shr(OneHot(width, k), 1) == OneHot(width, k - 1)
    ensures k + 1 < width ==> Shl(OneHot(width, k), 1) == OneHot(width, k + 1)
  {
  }

  lemma ShiftTo(width: nat, k: nat)
    requires k < width
    ensures Shl(OneHot(width, 0), k) == OneHot(width, k)
  {
  }

  /** x with the k outermost pairs of its n low-order bits swapped. */
  function Swapped(n: nat, x: Word, k: nat): (r: Word)
    requires 2 * k <= n <= |x|
    ensures |r| == |x|
    ensures forall i :: 0 <= i < |x| ==>
      r[i] == if |x| - n <= i < |x| - n + k || |x| - k <= i then x[2 * |x| - n - 1 - i] else x[i]
  {
    seq(|x|, i requires 0 <= i < |x| =>
      if |x| - n <= i < |x| - n + k || |x| - k <= i then x[2 * |x| - n - 1 - i] else x[i])
  }

  /** Flipping both bits of a pair that differs exchanges them. */
  lemma FlipExchanges(x: Word, j: nat, k: nat)
    requires k < j < |x|
    ensures var a, b := |x| - 1 - j, |x| - 1 - k;
            (if x[a] != x[b] then Xor(x, Or(OneHot(|x|, j), OneHot(|x|, k))) else x) == x[a := x[b]][b := x[a]]
  {
    var a, b := |x| - 1 - j, |x| - 1 - k;
    var m, y := Or(OneHot(|x|, j), OneHot(|x|, k)), x[a := x[b]][b := x[a]];
    var z := Xor(x, m);
    if x[a] != x[b] {
      forall i | 0 <= i < |x| ensures z[i] == y[i] {
        assert m[i] == (i == a || i == b);
      }
      assert z == y;
    }
  }

  lemma ExchangePair(n: nat, x: Word, k: nat)
    requires 2 * k + 1 < n <= |x|
    ensures var r, a, b := Swapped(n, x, k), |x| - n + k, |x| - 1 - k;
            Swapped(n, x, k + 1) == r[a := r[b]][b := r[a]]
  {
  }

  /** One round of the loop: the pair is swapped and the masks move inwards. */
  lemma SwapRound(n: nat, x: Word, k: nat, r: Word, h: Word, l: Word, m: Word, t: Word)
    requires 2 * k + 1 < n <= |x| && r == Swapped(n, x, k)
    requires h == OneHot(|x|, n - 1 - k) && l == OneHot(|x|, k) && m == Or(h, l) && t == And(r, m)
    ensures t == h || t == l ==> Xor(r, m) == Swapped(n, x, k + 1)
    ensures t != h && t != l ==> r == Swapped(n, x, k + 1)
    ensures Shr(h, 1) == OneHot(|x|, n - 1 - (k + 1)) && Shl(l, 1) == OneHot(|x|, k + 1)
  {
    hide *;
    TestPair(r, n - 1 - k, k);
    FlipExchanges(r, n - 1 - k, k);
    ExchangePair(n, x, k);
    ShiftMasks(|x|, k);
    ShiftMasks(|x|, n - 1 - k);
  }

  lemma SwappedEnds(n: nat, x: Word, k: nat)
    requires 2 * k <= n <= |x|
    ensures Swapped(n, x, 0) == x
    ensures 2 * k >= n - 1 ==> Swapped(n, x, k) == Reflect(n, x)
  {
    if 2 * k >= n - 1 {
      forall i | 0 <= i < |x| ensures Swapped(n, x, k)[i] == Reflect(n, x)[i] {
        assert Reflect(n, x)[i] == if i < |x| - n then x[i] else x[2 * |x| - n - 1 - i];
      }
    }
  }

  /** `reflect_unsigned`: swap the bits at the two masks whenever they differ, moving inwards. */
  method ReflectUnsigned(x: Word, wordLength: nat) returns (r: Word)
    requires 0 < wordLength <= |x|
    ensures r == Reflect(wordLength, x)
  {
    hide *;
    r := x;
    var l := OneHot(|x|, 0);
    var h := Shl(l, wordLength - 1);
    ghost var k := 0;
    ShiftTo(|x|, wordLength - 1);
    SwappedEnds(wordLength, x, 0);
    while ToNat(h) > ToNat(l)
      invariant 0 <= 2 * k <= wordLength && k < wordLength && r == Swapped(wordLength, x, k)
      invariant l == OneHot(|x|, k) && h == OneHot(|x|, wordLength - 1 - k)
      decreases wordLength - k
    {
      OneHotOrder(|x|, wordLength - 1 - k, k);
      var m := Or(h, l);
      var t := And(r, m);
      SwapRound(wordLength, x, k, r, h, l, m, t);
      if t == h || t == l {
        r := Xor(r, m);
      }
      h, l := Shr(h, 1), Shl(l, 1);
      k := k + 1;
    }
    OneHotOrder(|x|, wordLength - 1 - k, k);
    SwappedEnds(wordLength, x, k);
  }

  method ReflectOptionally(x: Word, reflect: bool, wordLength: nat) returns (r: Word)
    requires 0 < wordLength <= |x|
    ensures r == if reflect then Reflect(wordLength, x) else x
  {
    if reflect { r := ReflectUnsigned(x, wordLength); } else { r := x; }
  }

  lemma ReflectWhole(w: Word)
    ensures Reflect(|w|, w) == Reverse(w)
  {
  }

  lemma ByteOf(i: nat, w: Byte)
    requires i < 256 && ToNat(w) == i
    ensures forall x: Byte :: ToNat(x) == i <==> x == w
    ensures Reflect(8, w) == Reverse(w)
  {
    forall x: Byte | ToNat(x) == i ensures x == w { ToNatInjective(x, w); }
    ReflectWhole(w);
  }

  lemma ByteRange()
    ensures Pow2(8) == 256 && forall x: Byte :: ToNat(x) < 256
  {
    assert Pow2(4) == 16;
  }

  /** `make_byte_reflection_table`: the counter is an unsigned char, so the loop ends when it wraps to zero. */
  method MakeByteReflectionTable() returns (table: array<Byte>)
    ensures fresh(table) && table.Length == 256
    ensures forall x: Byte :: ToNat(x) < 256 && table[ToNat(x)] == Reverse(x)
  {
    hide *;
    ByteRange();
    table := new Byte[256](_ => Zeros(8));
    var i: nat := 0;
    while true
      invariant 0 <= i < 256
      invariant forall x: Byte :: ToNat(x) < i ==> table[ToNat(x)] == Reverse(x)
      decreases 256 - i
    {
      var w := FromNat(i, 8);
      var v := ReflectUnsigned(w, 8);
      ByteOf(i, w);
      table[i] := v;
      i := (i + 1) % 256;
      if i == 0 { break; }
    }
  }

  method ReflectByte(x: Byte) returns (r: Byte)
    ensures r == Reverse(x)
  {
    hide *;
    var table := MakeByteReflectionTable();
    r := table[ToNat(x)];
  }

  /** What `reflect_sub_byte` computes: the n low-order bits reversed. The bits above them come out zero, although
      the documentation of its callers says they are kept. */
  function SubByteReflected(n: nat, x: Byte): (r: Byte)
    requires 0 < n <= 8
  {
    Zeros(8 - n) + Reverse(Low(n, x))
  }

  method ReflectSubByte(x: Byte, wordLength: nat) returns (r: Byte)
    requires 0 < wordLength <= 8
    ensures r == SubByteReflected(wordLength, x)
  {
    var t := ReflectByte(x);
    r := Shr(t, 8 - wordLength);
  }

  /** The callers' documentation is right about a byte exactly when there is nothing above the n bits to keep. */
  lemma SubByteKeepsExactly(n: nat, x: Byte)
    requires 0 < n <= 8
    ensures SubByteReflected(n, x) == Reflect(n, x) <==> Clean(n, x)
  {
    assert High(n, SubByteReflected(n, x)) == Zeros(8 - n);
    assert High(n, Reflect(n, x)) == High(n, x);
  }

  /** Reflecting the four low-order bits of 0x80 gives 0, not 0x80. */
  lemma SubByteLosesTopBit()
    ensures var x: Byte := OneHot(8, 7); SubByteReflected(4, x) == Zeros(8) && Reflect(4, x) == x
  {
    var x: Byte := OneHot(8, 7);
    assert Reverse(Low(4, x)) == Low(4, x) == Zeros(4);
    assert SubByteReflected(4, x) == Zeros(8);
    assert Reflect(4, x) == x;
  }

  // ----- Division, several bits at a time -----

  /** The bits of a word in the order in which they are read. */
  function InputBits(w: Word, wordLength: nat, reflect: bool): (m: Word)
    requires wordLength <= |w|
    ensures |m| == wordLength
  {
    if reflect then Reverse(Low(wordLength, w)) else Low(wordLength, w)
  }

  /** Reading a word from its lowest bit up while shifting it right. */
  lemma ReadLowest(w: Word, i: nat)
    requires 0 < i <= |w|
    ensures Reverse(Low(i, w)) == [w[|w| - 1]] + Reverse(Low(i - 1, Shr(w, 1)))
  {
  }

  /** Reflecting first and then reading upwards is reading downwards. */
  lemma ReadReflected(w: Word, wordLength: nat, reflect: bool)
    requires wordLength <= |w|
    ensures Reverse(Low(wordLength, if !reflect then Reflect(wordLength, w) else w))
         == InputBits(w, wordLength, reflect)
  {
  }

  /** Dropping the bit just read. */
  lemma NextBit(w: Word, i: nat) returns (b: bool, rest: Word)
    requires 0 < i <= |w|
    ensures And(w, OneHot(|w|, 0)) != Zeros(|w|) <==> b
    ensures Reverse(Low(i, w)) == [b] + rest && ([b] + rest)[1..] == rest
    ensures rest == Reverse(Low(i - 1, Shr(w, 1))) && b == w[|w| - 1]
  {
    ReadLowest(w, i);
    TestBit(w, 0);
    b, rest := w[|w| - 1], Reverse(Low(i - 1, Shr(w, 1)));
  }

  lemma RegRunFirst(order: nat, r: Word, p: Word, b: bool, m: Word)
    requires 0 < order <= |r| == |p|
    ensures RegRun(order, r, p, []) == AugRegRun(order, r, p, []) == r
    ensures RegRun(order, r, p, [b] + m) == RegRun(order, RegStep(order, r, p, b), p, m)
    ensures AugRegRun(order, r, p, [b] + m) == AugRegRun(order, AugRegStep(order, r, p, b), p, m)
  {
    assert ([b] + m)[1..] == m;
  }

  /** The masked form of one division step. */
  lemma StepByMasks(order: nat, r: Word, p: Word, b: bool)
    requires 0 < order <= |r| == |p|
    ensures var mask, z := OneHot(|r|, order - 1), Zeros(|r|);
            var x := Xor(r, if b then mask else z);
            RegStep(order, r, p, b) == Xor(Shl(x, 1), if And(x, mask) != z then p else z)
  {
    var mask, z := OneHot(|r|, order - 1), Zeros(|r|);
    var x := Xor(r, if b then mask else z);
    XorZeros(r);
    XorZeros(Shl(x, 1));
    TestBit(x, order - 1);
  }

  lemma AugStepByMasks(order: nat, r: Word, p: Word, b: bool)
    requires 0 < order <= |r| == |p|
    ensures var mask, z := OneHot(|r|, order - 1), Zeros(|r|);
            AugRegStep(order, r, p, b) == Xor(r[1..] + [b], if And(r, mask) != z then p else z)
  {
    XorZeros(r[1..] + [b]);
    TestBit(r, order - 1);
  }

  /** `crc_modulo_word_update`; the remainder is an in-out parameter. */
  method CrcModuloWordUpdate(order: nat, remainder: Word, newDividendBits: Word, truncatedDivisor: Word,
      wordLength: nat, reflect: bool)
    returns (r: Word)
    requires 0 < order <= |remainder| == |truncatedDivisor| && 0 < wordLength <= |newDividendBits|
    ensures r == RegRun(order, remainder, truncatedDivisor, InputBits(newDividendBits, wordLength, reflect))
  {
    hide *;
    r := remainder;
    var highBitMask := Shl(OneHot(|r|, 0), order - 1);
    ShiftTo(|r|, order - 1);
    var bits := ReflectOptionally(newDividendBits, !reflect, wordLength);
    ReadReflected(newDividendBits, wordLength, reflect);
    var i := wordLength;
    ghost var todo := Reverse(Low(i, bits));
    ghost var target := RegRun(order, remainder, truncatedDivisor, todo);
    while i != 0
      invariant 0 <= i <= wordLength <= |bits| && |r| == |remainder|
      invariant todo == Reverse(Low(i, bits)) && RegRun(order, r, truncatedDivisor, todo) == target
    {
      ghost var b, rest := NextBit(bits, i);
      RegRunFirst(order, r, truncatedDivisor, b, rest);
      StepByMasks(order, r, truncatedDivisor, b);
      r := Xor(r, if And(bits, OneHot(|bits|, 0)) != Zeros(|bits|) then highBitMask else Zeros(|r|));
      var quotient := And(r, highBitMask) != Zeros(|r|);
      r := Shl(r, 1);
      r := Xor(r, if quotient then truncatedDivisor else Zeros(|r|));
      i, bits, todo := i - 1, Shr(bits, 1), rest;
    }
    assert todo == [];
    RegRunFirst(order, r, truncatedDivisor, false, []);
  }

  method CrcModuloUpdate(order: nat, remainder: Word, bit: bool, truncatedDivisor: Word) returns (r: Word)
    requires 0 < order <= |remainder| == |truncatedDivisor|
    ensures r == RegStep(order, remainder, truncatedDivisor, bit)
  {
    r := CrcModuloWordUpdate(order, remainder, Resize([bit], 32), truncatedDivisor, 1, false);
    assert InputBits(Resize([bit], 32), 1, false) == [bit] && [bit][1..] == [];
  }

  lemma LoadBit(r: Word, w: Word)
    requires |r| > 0 && |w| > 0
    ensures Or(Shl(r, 1), Resize(And(w, OneHot(|w|, 0)), |r|)) == r[1..] + [w[|w| - 1]]
  {
    var x := And(w, OneHot(|w|, 0));
    assert forall i :: 0 <= i < |w| - 1 ==> !x[i];
    var y := Resize(x, |r|);
    assert y[|r| - 1] == w[|w| - 1] && forall i :: 0 <= i < |r| - 1 ==> !y[i];
  }

  /** `augmented_crc_modulo_word_update`. */
  method AugmentedCrcModuloWordUpdate(order: nat, remainder: Word, newDividendBits: Word, truncatedDivisor: Word,
      wordLength: nat, reflect: bool)
    returns (r: Word)
    requires 0 < order <= |remainder| == |truncatedDivisor| && 0 < wordLength <= |newDividendBits|
    ensures r == AugRegRun(order, remainder, truncatedDivisor, InputBits(newDividendBits, wordLength, reflect))
  {
    hide *;
    r := remainder;
    var highBitMask := Shl(OneHot(|r|, 0), order - 1);
    ShiftTo(|r|, order - 1);
    var bits := ReflectOptionally(newDividendBits, !reflect, wordLength);
    ReadReflected(newDividendBits, wordLength, reflect);
    var i := wordLength;
    ghost var todo := Reverse(Low(i, bits));
    ghost var target := AugRegRun(order, remainder, truncatedDivisor, todo);
    while i != 0
      invariant 0 <= i <= wordLength <= |bits| && |r| == |remainder|
      invariant todo == Reverse(Low(i, bits)) && AugRegRun(order, r, truncatedDivisor, todo) == target
    {
      ghost var b, rest := NextBit(bits, i);
      RegRunFirst(order, r, truncatedDivisor, b, rest);
      AugStepByMasks(order, r, truncatedDivisor, b);
      var quotient := And(r, highBitMask) != Zeros(|r|);
      var newBit := And(bits, OneHot(|bits|, 0));
      LoadBit(r, bits);
      r := Shl(r, 1);
      r := Or(r, Resize(newBit, |r|));
      r := Xor(r, if quotient then truncatedDivisor else Zeros(|r|));
      i, bits, todo := i - 1, Shr(bits, 1), rest;
    }
    assert todo == [];
    RegRunFirst(order, r, truncatedDivisor, false, []);
  }
}
