/** When the reflected byte-wise loops are right: exactly when there is no stray bit above the divisor's order that
    they could shift down. */
module StrayBits {
  import opened Words
  import opened Division
  import opened Bitwise
  import opened Tables

  /** From register r on, the reflected loop mirrors bit-level division of every byte sequence. */
  ghost predicate Agrees(augmented: bool, order: nat, p: Word, r: Word)
    requires 8 <= order <= |p| == |r|
  {
    forall bytes: seq<Byte> ::
      Mirror(order, ByteSteps(Form(augmented, true), order, p, r, bytes))
      == Divide(augmented, Mirror(order, r), Low(order, p), MessageBits(bytes, true))
  }

  lemma AgreesOn(augmented: bool, order: nat, p: Word, r: Word, bytes: seq<Byte>)
    requires 8 <= order <= |p| == |r| && Agrees(augmented, order, p, r)
    ensures Mirror(order, ByteSteps(Form(augmented, true), order, p, r, bytes))
         == Divide(augmented, Mirror(order, r), Low(order, p), MessageBits(bytes, true))
  {
  }

  lemma AgreesIf(augmented: bool, order: nat, p: Word, r: Word)
    requires 8 <= order <= |p| == |r|
    requires forall bytes: seq<Byte> ::
      Mirror(order, ByteSteps(Form(augmented, true), order, p, r, bytes))
      == Divide(augmented, Mirror(order, r), Low(order, p), MessageBits(bytes, true))
    ensures Agrees(augmented, order, p, r)
  {
  }

  lemma OneByte(form: Form, order: nat, p: Word, r: Word, byte: Byte, rest: seq<Byte>)
    requires 8 <= order <= |p| == |r|
    ensures ByteSteps(form, order, p, r, [byte] + rest)
         == ByteSteps(form, order, p, ByteStep(form, order, p, r, byte), rest)
    ensures ByteSteps(form, order, p, r, []) == r && MessageBits([], true) == []
    ensures MessageBits([byte] + rest, true) == Reverse(byte) + MessageBits(rest, true)
  {
    hide ByteStep, Reverse;
    assert ([byte] + rest)[1..] == rest && Low(8, byte) == byte;
  }

  lemma AgreesNext(augmented: bool, order: nat, p: Word, r: Word, byte: Byte)
    requires 8 <= order <= |p| == |r| && Agrees(augmented, order, p, r)
    ensures var s := ByteStep(Form(augmented, true), order, p, r, byte);
            && Mirror(order, s) == Divide(augmented, Mirror(order, r), Low(order, p), Reverse(byte))
            && Agrees(augmented, order, p, s)
  {
    hide *;
    var f := Form(augmented, true);
    var s, m, q := ByteStep(f, order, p, r, byte), Mirror(order, r), Low(order, p);
    AgreesOn(augmented, order, p, r, [byte] + []);
    OneByte(f, order, p, r, byte, []);
    OneByte(f, order, p, s, byte, []);
    assert Reverse(byte) + [] == Reverse(byte);
    forall rest: seq<Byte>
      ensures Mirror(order, ByteSteps(f, order, p, s, rest))
           == Divide(augmented, Mirror(order, s), q, MessageBits(rest, true))
    {
      AgreesOn(augmented, order, p, r, [byte] + rest);
      OneByte(f, order, p, r, byte, rest);
      DivideAppend(augmented, m, q, Reverse(byte), MessageBits(rest, true));
    }
    AgreesIf(augmented, order, p, s);
  }

  lemma {:induction false} AgreesAfter(augmented: bool, order: nat, p: Word, r: Word, bytes: seq<Byte>)
    requires 8 <= order <= |p| == |r| && Agrees(augmented, order, p, r)
    ensures Agrees(augmented, order, p, ByteSteps(Form(augmented, true), order, p, r, bytes))
    decreases |bytes|
  {
    hide *;
    ByteStepsNext(Form(augmented, true), order, p, r, bytes, 0);
    if bytes != [] {
      AgreesNext(augmented, order, p, r, bytes[0]);
      AgreesAfter(augmented, order, p, ByteStep(Form(augmented, true), order, p, r, bytes[0]), bytes[1..]);
    }
  }

  // ----- Stray bits in the register -----

  /** The byte that leaves as little as possible but the shift. */
  function Drain(augmented: bool, r: Word): (byte: Byte)
    requires |r| >= 8
  {
    if augmented then Zeros(8) else Low(8, r)
  }

  /** The index of the mask that is then applied. */
  function DrainIndex(augmented: bool, r: Word): (x: Byte)
    requires |r| >= 8
  {
    if augmented then Low(8, r) else Zeros(8)
  }

  lemma Drained(augmented: bool, order: nat, p: Word, r: Word)
    requires 8 <= order <= |p| == |r|
    ensures ByteStep(Form(augmented, true), order, p, r, Drain(augmented, r))
         == Xor(Shr(r, 8), Entry(order, p, true, DrainIndex(augmented, r)))
  {
    hide Entry, Low, Shr, Shl, Xor, Or, Resize;
    if augmented {
      NothingIncoming(order, r);
    } else {
      XorZeros(Low(8, r));
    }
  }

  lemma NothingIncoming(order: nat, r: Word)
    requires 8 <= order <= |r|
    ensures Or(Shr(r, 8), Shl(Resize(Zeros(8), |r|), order - 8)) == Shr(r, 8)
  {
    hide *;
    ZerosShifted(|r|, order - 8);
    OrZeros(Shr(r, 8));
  }

  lemma ZerosShifted(width: nat, k: nat)
    requires 8 <= width && k <= width
    ensures Shl(Resize(Zeros(8), width), k) == Zeros(width)
  {
    assert Resize(Zeros(8), width) == Zeros(width);
  }

  lemma OrZeros(s: Word)
    ensures Or(s, Zeros(|s|)) == s
  {
  }

  lemma ZeroEntry(order: nat, p: Word)
    requires 0 < order <= |p|
    ensures Entry(order, p, true, Zeros(8)) == Zeros(|p|)
  {
    assert Reverse(Zeros(8)) == Zeros(8);
    RegZeroStays(order, p, 8);
    assert Reflect(order, Zeros(|p|)) == Zeros(|p|);
  }

  lemma {:induction false} RegZeroStays(order: nat, p: Word, k: nat)
    requires 0 < order <= |p|
    ensures RegRun(order, Zeros(|p|), p, Zeros(k)) == Zeros(|p|)
    decreases k
  {
    if k > 0 {
      assert Zeros(k)[1..] == Zeros(k - 1) && Shl(Zeros(|p|), 1) == Zeros(|p|);
      RegZeroStays(order, p, k - 1);
    }
  }

  lemma LastByteMirrored(order: nat, r: Word)
    requires 8 <= order <= |r|
    ensures Reverse(Low(8, r)) == Mirror(order, r)[..8]
  {
  }

  /** What a right shift by a byte brings into the significant part. */
  lemma ShiftedIn(order: nat, r: Word)
    requires 8 <= order <= |r|
    ensures Mirror(order, Shr(r, 8)) == Shl(Mirror(order, r), 8) ==>
      forall i :: 0 <= i < |r| - order && i >= |r| - order - 8 ==> !r[i]
  {
    var m, s := Mirror(order, r), Shr(r, 8);
    if Mirror(order, s) == Shl(m, 8) {
      forall i | 0 <= i < |r| - order && i >= |r| - order - 8 ensures !r[i] {
        var k := order - 1 - (i + 8 - (|r| - order));
        assert s[i + 8] == r[i];
        assert Mirror(order, s)[k] == Low(order, s)[order - 1 - k] == s[i + 8];
        assert !Shl(m, 8)[k];
      }
    }
  }

  lemma ShrBits(r: Word)
    requires |r| >= 8
    ensures forall i :: 0 <= i < |r| ==> Shr(r, 8)[i] == (i >= 8 && r[i - 8])
    ensures forall i :: 0 <= i < |r| - 8 ==> r[i] == Shr(r, 8)[i + 8]
  {
  }

  /** The dividend 1 leaves the divisor itself, with its omitted leading coefficient, in the register. */
  lemma UnitEntry(order: nat, p: Word)
    requires 8 <= order < |p|
    ensures var u: Byte := OneHot(8, 0); RegRun(order, Zeros(|p|), p, u) == Xor(OneHot(|p|, order), p)
  {
    var u: Byte, z := OneHot(8, 0), Zeros(|p|);
    assert u == Zeros(7) + ([true] + []);
    RegRunAppend(order, z, p, Zeros(7), [true] + []);
    RegZeroStays(order, p, 7);
    RegRunFirst(order, z, p, true, []);
    StepOfZero(order, p);
  }

  lemma StepOfZero(order: nat, p: Word)
    requires 8 <= order < |p|
    ensures RegStep(order, Zeros(|p|), p, true) == Xor(OneHot(|p|, order), p)
  {
    XorZeros(OneHot(|p|, order - 1));
    ShiftMasks(|p|, order - 1);
  }

  lemma LeadingOne(order: nat, p: Word)
    requires 8 <= order < |p|
    requires High(order, Xor(OneHot(|p|, order), p)) == Zeros(|p| - order)
    ensures SpelledOut(order, p)
  {
    var w, x := |p|, Xor(OneHot(|p|, order), p);
    forall i | 0 <= i < w - order ensures High(order, p)[i] == (Zeros(w - order - 1) + [true])[i] {
      assert !High(order, x)[i] && High(order, x)[i] == x[i] == (p[i] != (i == w - order - 1));
    }
  }

  /** What the drained register's mirror image is, by the loop and by division. */
  lemma DrainMirrored(augmented: bool, order: nat, p: Word, r: Word)
    requires 8 <= order <= |p| == |r|
    ensures var m, q, t := Mirror(order, r), Low(order, p), Reverse(DrainIndex(augmented, r));
            && Mirror(order, Xor(Shr(r, 8), Entry(order, p, true, DrainIndex(augmented, r))))
               == Xor(Mirror(order, Shr(r, 8)), Run(Zeros(order), q, t))
            && Divide(augmented, m, q, Reverse(Drain(augmented, r))) == Xor(Shl(m, 8), Run(Zeros(order), q, t))
  {
    hide Mirror, Entry, Low, Run, AugRun;
    var m, q, x := Mirror(order, r), Low(order, p), DrainIndex(augmented, r);
    MirrorXor(order, Shr(r, 8), Entry(order, p, true, x));
    MirrorEntry(order, p, x);
    LastByteMirrored(order, r);
    assert Reverse(Zeros(8)) == Zeros(8);
    if augmented {
      AugRunByTable(m, q, Zeros(8));
    } else {
      RunCancels(m, q, 8);
      ZeroStays(q, 8);
      XorZeros(Shl(m, 8));
    }
  }

  /** The stray bits that a shift by a byte moves into the significant part would be seen. */
  lemma LowestStraysClear(augmented: bool, order: nat, p: Word, r: Word)
    requires 8 <= order <= |p| == |r| && Agrees(augmented, order, p, r)
    ensures forall i :: 0 <= i < |r| - order && i >= |r| - order - 8 ==> !r[i]
  {
    hide *;
    var m, mask := Mirror(order, r), Run(Zeros(order), Low(order, p), Reverse(DrainIndex(augmented, r)));
    AgreesNext(augmented, order, p, r, Drain(augmented, r));
    Drained(augmented, order, p, r);
    DrainMirrored(augmented, order, p, r);
    XorCancel(Mirror(order, Shr(r, 8)), mask);
    XorCancel(Shl(m, 8), mask);
    ShiftedIn(order, r);
  }

  /** The drained register has the same stray bits, one byte lower. */
  lemma DrainShifts(order: nat, r: Word, e: Word, k: nat)
    requires 8 <= order <= |r| == |e| && Clean(order, e)
    requires forall i :: 0 <= i < |r| - order - k ==> !r[i]
    ensures var s := Xor(Shr(r, 8), e);
            && (forall i :: 0 <= i < |r| - order - (k - 8) && i < |r| - order ==> !s[i])
            && (Clean(order, s) ==> forall i :: 0 <= i < |r| - order - 8 ==> !r[i])
  {
    hide Shr;
    var s := Xor(Shr(r, 8), e);
    ShrBits(r);
    CleanBits(order, e);
    CleanBits(order, s);
    if Clean(order, s) {
      forall i | 0 <= i < |r| - order - 8 ensures !r[i] { assert !s[i + 8] && !e[i + 8]; }
    }
  }

  /** No stray bit is in an agreeing register, if the masks applied while it is drained have none. */
  lemma {:induction false} AgreesClean(augmented: bool, order: nat, p: Word, r: Word, k: nat)
    requires 8 <= order <= |p| == |r| && Agrees(augmented, order, p, r)
    requires augmented ==> Mirror(order, r) == Zeros(order) || SpelledOut(order, p)
    requires forall i :: 0 <= i < |r| - order - k ==> !r[i]
    ensures Clean(order, r)
    decreases k
  {
    hide *;
    LowestStraysClear(augmented, order, p, r);
    CleanBits(order, r);
    if k > 8 {
      var e := Entry(order, p, true, DrainIndex(augmented, r));
      var s := Xor(Shr(r, 8), e);
      AgreesNext(augmented, order, p, r, Drain(augmented, r));
      Drained(augmented, order, p, r);
      DrainMaskClean(augmented, order, p, r);
      DrainShifts(order, r, e, k);
      if Mirror(order, r) == Zeros(order) { DrainKeepsZero(augmented, order, p, r); }
      AgreesClean(augmented, order, p, s, k - 8);
    }
  }

  lemma DrainMaskClean(augmented: bool, order: nat, p: Word, r: Word)
    requires 8 <= order <= |p| == |r|
    requires augmented ==> Mirror(order, r) == Zeros(order) || SpelledOut(order, p)
    ensures Clean(order, Entry(order, p, true, DrainIndex(augmented, r)))
  {
    hide Entry, Mirror, RegRun, Low, Clean, SpelledOut, High;
    ZeroEntry(order, p);
    ZeroIsClean(order, |p|);
    if augmented {
      if SpelledOut(order, p) {
        EntryClean(order, p, Low(8, r));
      } else {
        LastByteMirrored(order, r);
        ReverseReverse(Low(8, r));
        assert Reverse(Low(8, r)) == Zeros(8);
        assert Low(8, r) == Zeros(8);
      }
    }
  }

  lemma EntryClean(order: nat, p: Word, x: Word)
    requires 0 < order <= |p| && SpelledOut(order, p)
    ensures Clean(order, Entry(order, p, true, x))
  {
    hide Entry, Mirror, RegRun, SpelledOut, Low;
    ZeroIsClean(order, |p|);
    RunStaysClean(order, Zeros(|p|), p, Reverse(x));
    MirrorEntry(order, p, x);
  }

  lemma DrainKeepsZero(augmented: bool, order: nat, p: Word, r: Word)
    requires 8 <= order <= |p| == |r| && Agrees(augmented, order, p, r) && Mirror(order, r) == Zeros(order)
    ensures Mirror(order, ByteStep(Form(augmented, true), order, p, r, Drain(augmented, r))) == Zeros(order)
  {
    hide Mirror, Run, AugRun, Low, ByteStep, Agrees, Reverse;
    var q := Low(order, p);
    AgreesNext(augmented, order, p, r, Drain(augmented, r));
    LastByteMirrored(order, r);
    assert Mirror(order, r)[..8] == Zeros(8);
    assert Reverse(Zeros(8)) == Zeros(8);
    ZeroStays(q, 8);
    AdvanceIsAugmented(Zeros(order), q, 8);
  }

  // ----- Stray bits in the table -----

  /** The unaugmented loop can be fed the byte whose mask is that of the dividend 1. */
  lemma AgreesSpelledOut(order: nat, p: Word, r: Word)
    requires 8 <= order < |p| == |r| && Agrees(false, order, p, r) && Clean(order, r)
    ensures SpelledOut(order, p)
  {
    hide *;
    var u: Byte, lead: Byte := OneHot(8, 0), Low(8, r);
    var x: Byte := Reverse(u);
    ReverseReverse(u);
    var byte: Byte := Xor(lead, x);
    XorCancel(lead, x);
    AgreesNext(false, order, p, r, byte);
    var t, index := ReflectedStep(false, order, p, r, byte);
    AgreesClean(false, order, p, Xor(t, Entry(order, p, true, x)), |p| - order);
    ShiftedClean(order, r, byte);
    UnitMaskDecides(order, p, t);
  }

  lemma UnitMaskDecides(order: nat, p: Word, t: Word)
    requires 8 <= order < |p| == |t| && Clean(order, t)
    requires Clean(order, Xor(t, Entry(order, p, true, Reverse(OneHot(8, 0)))))
    ensures SpelledOut(order, p)
  {
    hide *;
    var u: Byte := OneHot(8, 0);
    ReverseReverse(u);
    CleanXor(order, t, Entry(order, p, true, Reverse(u)));
    MirrorEntry(order, p, Reverse(u));
    UnitEntry(order, p);
    LeadingOne(order, p);
  }

  /** Every sequence of whole bytes spells out some message. */
  lemma {:induction false} Spell(m: Word) returns (bytes: seq<Byte>)
    requires |m| % 8 == 0
    ensures MessageBits(bytes, true) == m && 8 * |bytes| == |m|
    decreases |m|
  {
    bytes := [];
    if m != [] {
      var rest := Spell(m[8..]);
      var first: Byte := Reverse(m[..8]);
      ReverseReverse(m[..8]);
      bytes := [first] + rest;
      MessageNext(bytes, true);
      assert bytes[1..] == rest && m == m[..8] + m[8..];
    }
  }

  /** Zero bits that fill a message of `order` bits up to whole bytes. */
  function Filler(order: nat): (w: Word)
    ensures (|w| + order) % 8 == 0 && |w| < 8 && w == Zeros(|w|)
  {
    Zeros((8 - order % 8) % 8)
  }

  /** Plain division can be led to the empty register from anywhere, so agreement anywhere is agreement there. */
  lemma AgreesEmpty(order: nat, p: Word, r: Word)
    requires 8 <= order <= |p| == |r| && Agrees(true, order, p, r)
    ensures Agrees(true, order, p, Zeros(|p|))
  {
    hide *;
    var q, z := Low(order, p), Filler(order);
    var a := AugRun(Mirror(order, r), q, z);
    var c := Advance(a, q, order);
    var bytes := Spell(z + c);
    var s := ByteSteps(Form(true, true), order, p, r, bytes);
    AgreesOn(true, order, p, r, bytes);
    AgreesAfter(true, order, p, r, bytes);
    EmptiedBy(Mirror(order, r), q, z, c);
    AgreesClean(true, order, p, s, |p| - order);
    EmptyRegister(order, s);
  }

  lemma EmptiedBy(m: Word, q: Word, z: Word, c: Word)
    requires |m| == |q| > 0 && c == Advance(AugRun(m, q, z), q, |q|)
    ensures Divide(true, m, q, z + c) == Zeros(|q|)
  {
    hide Run, AugRun, Advance;
    AugRunAppend(m, q, z, c);
    AugRunField(AugRun(m, q, z), q, c);
    assert Zeros(0) + c == c;
    XorZeros(c);
  }

  lemma EmptyRegister(order: nat, s: Word)
    requires order <= |s| && Clean(order, s) && Mirror(order, s) == Zeros(order)
    ensures s == Zeros(|s|)
  {
    ReverseReverse(Low(order, s));
    assert s == High(order, s) + Low(order, s);
  }

  /** As long as only zeros come to the front, the loop only shifts bits in. */
  lemma {:induction false} ZerosLead(order: nat, p: Word, r: Word, bytes: seq<Byte>)
    requires 8 <= order <= |p| == |r| && Clean(order, r)
    requires forall i :: 0 <= i < 8 * |bytes| ==> !(Mirror(order, r) + MessageBits(bytes, true))[i]
    ensures var s := ByteSteps(Form(true, true), order, p, r, bytes);
            Clean(order, s) && Mirror(order, s) == (Mirror(order, r) + MessageBits(bytes, true))[8 * |bytes|..]
    decreases |bytes|
  {
    hide *;
    ByteStepsNext(Form(true, true), order, p, r, bytes, 0);
    MessageNext(bytes, true);
    if bytes != [] {
      var m, b, rest := Mirror(order, r), Reverse(bytes[0]), MessageBits(bytes[1..], true);
      var s := ByteStep(Form(true, true), order, p, r, bytes[0]);
      ByteMoves(m, b, rest, |bytes| - 1);
      ZeroLeads(order, p, r, bytes[0]);
      ZerosLead(order, p, s, bytes[1..]);
    } else {
      assert Mirror(order, r) + [] == Mirror(order, r);
    }
  }

  /** The first byte of what is read moves up to what has been. */
  lemma ByteMoves(m: Word, b: Word, rest: Word, k: nat)
    requires |m| >= 8 && |b| == 8 && |rest| == 8 * k
    ensures var v, w := m + (b + rest), m[8..] + b + rest;
            && (forall i :: 0 <= i < 8 ==> v[i] == m[i])
            && (forall i :: 0 <= i < |w| ==> w[i] == v[i + 8])
            && v[8 * (k + 1)..] == w[8 * k..]
  {
  }

  lemma ZeroLeads(order: nat, p: Word, r: Word, byte: Byte)
    requires 8 <= order <= |p| == |r| && Clean(order, r)
    requires forall i :: 0 <= i < 8 ==> !Mirror(order, r)[i]
    ensures var s := ByteStep(Form(true, true), order, p, r, byte);
            Clean(order, s) && Mirror(order, s) == Mirror(order, r)[8..] + Reverse(byte)
  {
    hide *;
    var s, x := ReflectedStep(true, order, p, r, byte);
    LastByteMirrored(order, r);
    assert Mirror(order, r)[..8] == Zeros(8);
    ReverseReverse(Low(8, r));
    assert Reverse(Zeros(8)) == Zeros(8);
    ZeroEntry(order, p);
    XorZeros(s);
    ReflectedParts(order, r, byte);
    ShiftedClean(order, r, byte);
  }

  /** The augmented loop is fed the divisor itself. When its leading 1 has come to the front, one more byte leaves
      nothing of the significant part, and of the rest what the table brought in. */
  lemma EmptySpelledOut(order: nat, p: Word)
    requires 8 <= order < |p| && Agrees(true, order, p, Zeros(|p|))
    ensures SpelledOut(order, p)
  {
    hide *;
    var q, z, u := Low(order, p), Filler(order), OneHot(8, 0);
    var ready := u + q[..order - 8];
    var last := q[order - 8..];
    var bytes := Spell(z + ready);
    var byte: Byte := Reverse(last);
    ReverseReverse(last);
    EmptyMirror(order, |p|);
    ZeroIsClean(order, |p|);
    var t := ByteSteps(Form(true, true), order, p, Zeros(|p|), bytes);
    assert 8 * |bytes| == |z| + order;
    Loaded(order, p, z, ready, bytes);
    AgreesAfter(true, order, p, Zeros(|p|), bytes);
    AgreesNext(true, order, p, t, byte);
    DivisorVanishes(order, p);
    var s, x := ReflectedStep(true, order, p, t, byte);
    LastByteMirrored(order, t);
    assert ready[..8] == u;
    ReverseReverse(Low(8, t));
    AgreesClean(true, order, p, Xor(s, Entry(order, p, true, x)), |p| - order);
    ShiftedClean(order, t, byte);
    UnitMaskDecides(order, p, s);
  }

  lemma EmptyMirror(order: nat, width: nat)
    requires order <= width
    ensures Mirror(order, Zeros(width)) == Zeros(order)
  {
    assert Low(order, Zeros(width)) == Zeros(order);
  }

  lemma Loaded(order: nat, p: Word, z: Word, ready: Word, bytes: seq<Byte>)
    requires 8 <= order <= |p| && |ready| == order && z == Zeros(|z|)
    requires MessageBits(bytes, true) == z + ready && 8 * |bytes| == |z| + order
    ensures var t := ByteSteps(Form(true, true), order, p, Zeros(|p|), bytes);
            Clean(order, t) && Mirror(order, t) == ready
  {
    hide *;
    EmptyMirror(order, |p|);
    ZeroIsClean(order, |p|);
    var w := Zeros(order) + (z + ready);
    assert w[|z| + order..] == ready;
    assert forall i :: 0 <= i < |z| + order ==> !w[i];
    ZerosLead(order, p, Zeros(|p|), bytes);
  }

  /** Dividing the divisor by itself leaves nothing. */
  lemma DivisorVanishes(order: nat, p: Word)
    requires 8 <= order < |p|
    ensures var q := Low(order, p);
            Divide(true, OneHot(8, 0) + q[..order - 8], q, q[order - 8..]) == Zeros(order)
  {
    hide Run, AugRun, RegRun, Low;
    var q, u := Low(order, p), OneHot(8, 0);
    var ready := u + q[..order - 8];
    AugRunByTable(ready, q, q[order - 8..]);
    assert ready[..8] == u && ready[8..] + q[order - 8..] == q;
    UnitEntry(order, p);
    LowRegRun(order, Zeros(|p|), p, u);
    LowUnit(order, p);
    XorZeros(q);
  }

  lemma LowUnit(order: nat, p: Word)
    requires 8 <= order < |p|
    ensures Low(order, Xor(OneHot(|p|, order), p)) == Low(order, p) && Low(order, Zeros(|p|)) == Zeros(order)
  {
  }

  // ----- The condition -----

  /** Either reflected byte-table loop is right for every message exactly when no stray bit is there to be shifted
      down: none in the register, and none that the table brings in. */
  lemma ReflectedExactly(augmented: bool, order: nat, p: Word, r: Word)
    requires 8 <= order <= |p| == |r|
    ensures Agrees(augmented, order, p, r) <==> Clean(order, r) && SpelledOut(order, p)
  {
    hide Low, Mirror, ByteSteps, Divide, Clean, High;
    if Agrees(augmented, order, p, r) {
      if augmented && order < |p| {
        AgreesEmpty(order, p, r);
        EmptySpelledOut(order, p);
      }
      AgreesClean(augmented, order, p, r, |r| - order);
      if !augmented && order < |p| { AgreesSpelledOut(order, p, r); }
    }
    if Clean(order, r) && SpelledOut(order, p) {
      forall bytes: seq<Byte>
        ensures Mirror(order, ByteSteps(Form(augmented, true), order, p, r, bytes))
             == Divide(augmented, Mirror(order, r), Low(order, p), MessageBits(bytes, true))
      {
        ReflectedIsDivision(augmented, order, p, r, bytes);
      }
      AgreesIf(augmented, order, p, r);
    }
  }
}
