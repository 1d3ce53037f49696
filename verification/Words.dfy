/** Machine words as sequences of bits, most significant bit first, so that a word reads like a binary numeral.
    The same sequences serve as polynomials over GF(2), highest power first. */
module Words {
  import opened Powers

  type Word = seq<bool>

  /** An `unsigned char`. */
  type Byte = w: Word | |w| == 8 witness [false, false, false, false, false, false, false, false]

  function Zeros(n: nat): (w: Word)
    ensures |w| == n && forall i :: 0 <= i < n ==> !w[i]
  {
    seq(n, _ => false)
  }

  function Xor(a: Word, b: Word): (w: Word)
    requires |a| == |b|
    ensures |w| == |a| && forall i :: 0 <= i < |a| ==> w[i] == (a[i] != b[i])
  {
    seq(|a|, i requires 0 <= i < |a| => a[i] != b[i])
  }

  function And(a: Word, b: Word): (w: Word)
    requires |a| == |b|
    ensures |w| == |a| && forall i :: 0 <= i < |a| ==> w[i] == (a[i] && b[i])
  {
    seq(|a|, i requires 0 <= i < |a| => a[i] && b[i])
  }

  function Or(a: Word, b: Word): (w: Word)
    requires |a| == |b|
    ensures |w| == |a| && forall i :: 0 <= i < |a| ==> w[i] == (a[i] || b[i])
  {
    seq(|a|, i requires 0 <= i < |a| => a[i] || b[i])
  }

  /** `w <<= k`: bits leave at the front. */
  function Shl(w: Word, k: nat): (r: Word)
    requires k <= |w|
    ensures |r| == |w|
  {
    w[k..] + Zeros(k)
  }

  /** `w >>= k`: bits leave at the back. */
  function Shr(w: Word, k: nat): (r: Word)
    requires k <= |w|
    ensures |r| == |w|
  {
    Zeros(k) + w[..|w| - k]
  }

  /** The n low-order bits. */
  function Low(n: nat, w: Word): (r: Word)
    requires n <= |w|
    ensures |r| == n
  {
    w[|w| - n..]
  }

  /** The bits above the n low-order ones. */
  function High(n: nat, w: Word): (r: Word)
    requires n <= |w|
    ensures |r| == |w| - n
  {
    w[..|w| - n]
  }

  /** The bits above the n low-order ones are clear. */
  predicate Clean(n: nat, w: Word)
    requires n <= |w|
  {
    High(n, w) == Zeros(|w| - n)
  }

  /** The word of the given width whose only set bit is the one at 2^k. */
  function OneHot(width: nat, k: nat): (w: Word)
    requires k < width
    ensures |w| == width && forall i :: 0 <= i < width ==> w[i] == (i == width - 1 - k)
  {
    seq(width, i => i == width - 1 - k)
  }

  /** A word reread in another width: truncated, or extended with zeros. */
  function Resize(w: Word, width: nat): (r: Word)
    ensures |r| == width
  {
    if width <= |w| then Low(width, w) else Zeros(width - |w|) + w
  }

  function Reverse(w: Word): (r: Word)
    ensures |r| == |w| && forall i :: 0 <= i < |w| ==> r[i] == w[|w| - 1 - i]
  {
    seq(|w|, i requires 0 <= i < |w| => w[|w| - 1 - i])
  }

  /** Reverse the n low-order bits and keep the others. */
  function Reflect(n: nat, w: Word): (r: Word)
    requires n <= |w|
    ensures |r| == |w|
  {
    High(n, w) + Reverse(Low(n, w))
  }

  function Bit(b: bool): nat { if b then 1 else 0 }

  function ToNat(w: Word): (v: nat)
    ensures v < Pow2(|w|)
  {
    if w == [] then 0 else 2 * ToNat(w[..|w| - 1]) + Bit(w[|w| - 1])
  }

  function FromNat(v: nat, width: nat): (w: Word)
    requires v < Pow2(width)
    ensures |w| == width && ToNat(w) == v
  {
    if width == 0 then []
    else
      var w := FromNat(v / 2, width - 1);
      assert (w + [v % 2 == 1])[..width - 1] == w;
      w + [v % 2 == 1]
  }

  lemma {:induction false} ToNatInjective(a: Word, b: Word)
    requires |a| == |b| && ToNat(a) == ToNat(b)
    ensures a == b
  {
    if a != [] {
      ToNatInjective(a[..|a| - 1], b[..|b| - 1]);
      assert a == a[..|a| - 1] + [a[|a| - 1]] && b == b[..|b| - 1] + [b[|b| - 1]];
    }
  }

  lemma {:induction false} ToNatPadded(k: nat, w: Word)
    ensures ToNat(Zeros(k) + w) == ToNat(w)
  {
    if w != [] {
      assert (Zeros(k) + w)[..k + |w| - 1] == Zeros(k) + w[..|w| - 1];
      ToNatPadded(k, w[..|w| - 1]);
    } else if k > 0 {
      assert Zeros(k) + w == Zeros(k) && Zeros(k)[..k - 1] == Zeros(k - 1) + w;
      ToNatPadded(k - 1, w);
    }
  }

  /** Masks with one bit set compare like the places of that bit. */
  lemma {:induction false} OneHotOrder(width: nat, j: nat, k: nat)
    requires j < width && k < width
    ensures ToNat(OneHot(width, j)) > ToNat(OneHot(width, k)) <==> j > k
  {
    var a, b := OneHot(width, j), OneHot(width, k);
    var z := a[..width - 1];
    if j == 0 || k == 0 {
      OneHotPositive(width, j);
      OneHotPositive(width, k);
    } else {
      assert a[..width - 1] == OneHot(width - 1, j - 1) && b[..width - 1] == OneHot(width - 1, k - 1);
      OneHotOrder(width - 1, j - 1, k - 1);
    }
  }

  lemma {:induction false} OneHotPositive(width: nat, k: nat)
    requires k < width
    ensures if k == 0 then ToNat(OneHot(width, k)) == 1 else ToNat(OneHot(width, k)) > 1
  {
    var a := OneHot(width, k);
    if k == 0 {
      assert a[..width - 1] == Zeros(width - 1) + [];
      ToNatPadded(width - 1, []);
    } else {
      assert a[..width - 1] == OneHot(width - 1, k - 1);
      OneHotPositive(width - 1, k - 1);
    }
  }

  lemma XorZeros(a: Word)
    ensures Xor(a, Zeros(|a|)) == a && Xor(Zeros(|a|), a) == a && Xor(a, a) == Zeros(|a|)
  {
  }

  lemma XorCancel(a: Word, b: Word)
    requires |a| == |b|
    ensures Xor(a, Xor(a, b)) == b && Xor(Xor(a, b), b) == a
  {
  }

  lemma ReverseAppend(a: Word, b: Word)
    ensures Reverse(a + b) == Reverse(b) + Reverse(a)
  {
  }

  lemma ReverseXor(a: Word, b: Word)
    requires |a| == |b|
    ensures Reverse(Xor(a, b)) == Xor(Reverse(a), Reverse(b))
  {
  }

  lemma ReverseReverse(a: Word)
    ensures Reverse(Reverse(a)) == a
  {
  }

  /** Reversing twice, and keeping the bits above twice, changes nothing. */
  lemma ReflectInvolution(n: nat, w: Word)
    requires n <= |w|
    ensures Reflect(n, Reflect(n, w)) == w
    ensures Low(n, Reflect(n, w)) == Reverse(Low(n, w)) && High(n, Reflect(n, w)) == High(n, w)
  {
    assert Low(n, Reflect(n, w)) == Reverse(Low(n, w));
    assert High(n, Reflect(n, w)) == High(n, w);
    ReverseReverse(Low(n, w));
    assert w == High(n, w) + Low(n, w);
  }
}
