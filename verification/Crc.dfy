/** The two CRC computers and the augmented CRC function. */
module Crc {
  import opened Words
  import opened Bitwise
  import opened Tables

  /** The parameters of a CRC: those of a `crc_basic` object, or the template arguments of a `crc_optimal` one.
      All words have the width of the register type. */
  datatype Parameters = Parameters(
    bits: nat, poly: Word, init: Word, finalXor: Word, reflectIn: bool, reflectRem: bool)
  {
    function Width(): nat { |poly| }

    predicate Valid() {
      0 < bits <= Width() && 8 <= Width() == |init| == |finalXor|
    }

    /** The reflected table is free of stray bits. Always so when the register has the divisor's width. */
    predicate Sound()
      requires Valid()
    {
      reflectIn && bits >= 8 ==> SpelledOut(bits, poly)
    }

    /** A remainder that a reflecting table-driven computer can be given. Every value is when the register has the
        divisor's width. */
    predicate Accepts(v: Word)
      requires Valid() && |v| == Width()
    {
      reflectIn && bits > 8 ==> Clean(bits, v)
    }
  }

  // ----- Output -----

  function LowBitsMask(width: nat, n: nat): (w: Word)
    requires n <= width
    ensures |w| == width
  {
    Zeros(width - n) + seq(n, _ => true)
  }

  function Padded(width: nat, low: Word): (w: Word)
    requires |low| <= width
    ensures |w| == width
  {
    Zeros(width - |low|) + low
  }

  lemma MaskedIsPadded(n: nat, w: Word)
    requires n <= |w|
    ensures And(w, LowBitsMask(|w|, n)) == Padded(|w|, Low(n, w))
  {
  }

  lemma PaddedParts(width: nat, low: Word)
    requires |low| <= width
    ensures Low(|low|, Padded(width, low)) == low && Clean(|low|, Padded(width, low))
  {
  }

  /** The checksum that belongs to a remainder: reflected if asked for, then complemented by the mask. */
  function Finish(c: Parameters, low: Word): (w: Word)
    requires c.Valid() && |low| == c.bits
    ensures |w| == c.Width()
  {
    Padded(c.Width(), Xor(if c.reflectRem then Reverse(low) else low, Low(c.bits, c.finalXor)))
  }

  lemma FinishInjective(c: Parameters, a: Word, b: Word)
    requires c.Valid() && |a| == |b| == c.bits && Finish(c, a) == Finish(c, b)
    ensures a == b
  {
    hide Low, Padded, Xor, Reverse;
    var f := Low(c.bits, c.finalXor);
    var x, y := if c.reflectRem then Reverse(a) else a, if c.reflectRem then Reverse(b) else b;
    PaddedParts(c.Width(), Xor(x, f));
    PaddedParts(c.Width(), Xor(y, f));
    XorCancel(x, f);
    XorCancel(y, f);
    ReverseReverse(a);
    ReverseReverse(b);
  }

  // ----- The bit-wise computer -----

  /** `crc_basic`. */
  class CrcBasic {
    const bits: nat
    var rem: Word
    var poly: Word
    var init: Word
    var finalXor: Word
    var reflectIn: bool
    var reflectRem: bool

    function Parms(): Parameters
      reads this
    {
      Parameters(bits, poly, init, finalXor, reflectIn, reflectRem)
    }

    ghost predicate Valid()
      reads this
      ensures Valid() ==> 0 < bits <= |rem| == |poly|
    {
      Parms().Valid() && |rem| == |poly|
    }

    constructor (c: Parameters)
      requires c.Valid()
      ensures Valid() && Parms() == c && rem == c.init
    {
      bits, rem, poly, init, finalXor := c.bits, c.init, c.poly, c.init, c.finalXor;
      reflectIn, reflectRem := c.reflectIn, c.reflectRem;
    }

    method GetInterimRemainder() returns (r: Word)
      requires Valid()
      ensures r == Padded(|rem|, Low(bits, rem))
    {
      MaskedIsPadded(bits, rem);
      r := And(rem, LowBitsMask(|rem|, bits));
    }

    method Reset(newRem: Word)
      requires Valid() && |newRem| == |poly|
      modifies this`rem
      ensures rem == newRem
    {
      rem := newRem;
    }

    method ResetToInitial()
      requires Valid()
      modifies this`rem
      ensures rem == init
    {
      Reset(init);
    }

    method ProcessBit(bit: bool)
      requires Valid()
      modifies this`rem
      ensures Valid() && rem == RegStep(bits, old(rem), poly, bit)
    {
      rem := CrcModuloUpdate(bits, rem, bit, poly);
    }

    method ProcessBits(bitsIn: Byte, bitLength: nat)
      requires Valid() && 0 < bitLength <= 8
      modifies this`rem
      ensures Valid() && rem == RegRun(bits, old(rem), poly, Low(bitLength, bitsIn))
    {
      hide *;
      var b: Byte := Shl(bitsIn, 8 - bitLength);
      var highBitMask: Byte := OneHot(8, 7);
      ghost var todo := Low(bitLength, bitsIn);
      TopAligned(bitsIn, bitLength);
      var i := bitLength;
      while i > 0
        invariant 0 <= i <= 8 && Valid() && |todo| == i && todo == b[..i]
        invariant RegRun(bits, rem, poly, todo) == RegRun(bits, old(rem), poly, Low(bitLength, bitsIn))
      {
        TestBit(b, 7);
        ShiftedFirst(b, i);
        RegRunFirst(bits, rem, poly, b[0], todo[1..]);
        ProcessBit(And(b, highBitMask) != Zeros(8));
        todo, i, b := todo[1..], i - 1, Shl(b, 1);
      }
      RegRunFirst(bits, rem, poly, false, []);
      assert todo == [];
    }

    method ProcessByte(byte: Byte)
      requires Valid()
      modifies this`rem
      ensures Valid() && rem == RegRun(bits, old(rem), poly, MessageBits([byte], reflectIn))
    {
      hide *;
      var b := byte;
      if reflectIn { b := ReflectByte(byte); }
      MessageNext([byte], reflectIn);
      MessageNext([], reflectIn);
      WholeByte(b);
      ProcessBits(b, 8);
    }

    /** The two pointers delimit the bytes of the block. */
    method ProcessBlock(bytes: seq<Byte>)
      requires Valid()
      modifies this`rem
      ensures Valid() && rem == RegRun(bits, old(rem), poly, MessageBits(bytes, reflectIn))
    {
      hide *;
      var p := 0;
      RegRunFirst(bits, rem, poly, false, []);
      MessageSplit(bytes, 0, reflectIn);
      while p < |bytes|
        invariant 0 <= p <= |bytes| && Valid()
        invariant rem == RegRun(bits, old(rem), poly, MessageBits(bytes[..p], reflectIn))
      {
        MessageSplit(bytes, p, reflectIn);
        RegRunAppend(bits, old(rem), poly, MessageBits(bytes[..p], reflectIn), MessageBits([bytes[p]], reflectIn));
        ProcessByte(bytes[p]);
        p := p + 1;
      }
      assert bytes[..p] == bytes;
    }

    method ProcessBytes(bytes: seq<Byte>)
      requires Valid()
      modifies this`rem
      ensures Valid() && rem == RegRun(bits, old(rem), poly, MessageBits(bytes, reflectIn))
    {
      ProcessBlock(bytes);
    }

    method Checksum() returns (w: Word)
      requires Valid()
      ensures w == Finish(Parms(), Low(bits, rem))
    {
      var r := ReflectOptionally(rem, reflectRem, bits);
      BasicOutput(Parms(), rem);
      w := And(Xor(r, finalXor), LowBitsMask(|rem|, bits));
    }
  }

  lemma BasicOutput(c: Parameters, r: Word)
    requires c.Valid() && |r| == c.Width()
    ensures And(Xor(if c.reflectRem then Reflect(c.bits, r) else r, c.finalXor), LowBitsMask(|r|, c.bits))
         == Finish(c, Low(c.bits, r))
  {
    var x := if c.reflectRem then Reflect(c.bits, r) else r;
    MaskedIsPadded(c.bits, Xor(x, c.finalXor));
    LowXor(c.bits, x, c.finalXor);
    ReflectInvolution(c.bits, r);
  }

  lemma TopAligned(b: Byte, k: nat)
    requires 0 < k <= 8
    ensures Shl(b, 8 - k)[..k] == Low(k, b)
  {
  }

  lemma ShiftedFirst(b: Byte, i: nat)
    requires 0 < i <= 8
    ensures OneHot(8, 7) == OneHot(|b|, 7) && b[..i] == [b[0]] + b[..i][1..] && b[..i][1..] == Shl(b, 1)[..i - 1]
  {
  }

  lemma WholeByte(b: Byte)
    ensures Low(8, b) == b && b + [] == b
  {
  }

  lemma {:induction false} MessageAppend(a: seq<Byte>, b: seq<Byte>, reflect: bool)
    ensures MessageBits(a + b, reflect) == MessageBits(a, reflect) + MessageBits(b, reflect)
    decreases |a|
  {
    if a == [] {
      assert a + b == b;
    } else {
      assert (a + b)[1..] == a[1..] + b;
      MessageAppend(a[1..], b, reflect);
    }
  }

  lemma MessageSplit(bytes: seq<Byte>, p: nat, reflect: bool)
    requires p <= |bytes|
    ensures p == 0 ==> MessageBits(bytes[..p], reflect) == []
    ensures p < |bytes| ==>
      MessageBits(bytes[..p + 1], reflect) == MessageBits(bytes[..p], reflect) + MessageBits([bytes[p]], reflect)
  {
    if p < |bytes| {
      assert bytes[..p + 1] == bytes[..p] + [bytes[p]];
      MessageAppend(bytes[..p], [bytes[p]], reflect);
    }
  }

  // ----- The table-driven computer -----

  /** `reflect_sub_byte` on a register: the value passes through an unsigned char. */
  function SubByteMirror(order: nat, r: Word): (w: Word)
    requires 0 < order <= 8 <= |r|
    ensures |w| == |r|
  {
    Resize(SubByteReflected(order, Resize(r, 8)), |r|)
  }

  /** The high bits are lost on the way. */
  lemma SubByteMirrorIs(order: nat, r: Word)
    requires 0 < order <= 8 <= |r|
    ensures Low(order, SubByteMirror(order, r)) == Mirror(order, r) && Clean(order, SubByteMirror(order, r))
  {
    var w := SubByteMirror(order, r);
    assert Low(order, Resize(r, 8)) == Low(order, r);
    assert w == Zeros(|r| - 8) + (Zeros(8 - order) + Mirror(order, r));
    assert High(order, w) == Zeros(|r| - order);
  }

  /** On a register, too, nothing is lost exactly when there is nothing above the significant bits. */
  lemma SubByteMirrorKeepsExactly(order: nat, r: Word)
    requires 0 < order <= 8 <= |r|
    ensures SubByteMirror(order, r) == Reflect(order, r) <==> Clean(order, r)
  {
    SubByteMirrorIs(order, r);
    ReflectInvolution(order, r);
    var w := SubByteMirror(order, r);
    assert w == High(order, w) + Low(order, w);
  }

  /** `possible_reflector<Bits, DoIt>::reflect_q`. */
  function ReflectQ(bits: nat, doIt: bool, r: Word): (w: Word)
    requires 0 < bits <= |r| && 8 <= |r|
    ensures |w| == |r|
  {
    if !doIt then r else if bits > 8 then Reflect(bits, r) else SubByteMirror(bits, r)
  }

  lemma LowReflectQ(bits: nat, doIt: bool, r: Word)
    requires 0 < bits <= |r| && 8 <= |r|
    ensures Low(bits, ReflectQ(bits, doIt, r)) == if doIt then Mirror(bits, r) else Low(bits, r)
    ensures doIt && (bits > 8 ==> Clean(bits, r)) ==> Clean(bits, ReflectQ(bits, doIt, r))
    ensures doIt && bits > 8 && !Clean(bits, r) ==> !Clean(bits, ReflectQ(bits, doIt, r))
  {
    ReflectInvolution(bits, r);
    if bits <= 8 { SubByteMirrorIs(bits, r); }
  }

  method PossiblyReflect(bits: nat, doIt: bool, r: Word) returns (w: Word)
    requires 0 < bits <= |r| && 8 <= |r|
    ensures w == ReflectQ(bits, doIt, r)
    ensures !doIt ==> w == r
    ensures doIt && bits > 8 ==> w == Reflect(bits, r)
    ensures doIt && bits <= 8 ==> Low(bits, w) == Reverse(Low(bits, r)) && High(bits, w) == Zeros(|r| - bits)
  {
    LowReflectQ(bits, doIt, r);
    if !doIt {
      w := r;
    } else if bits > 8 {
      w := ReflectUnsigned(r, bits);
    } else {
      var b := ReflectSubByte(Resize(r, 8), bits);
      w := Resize(b, |r|);
    }
  }

  /** The loop of both `crc_update` functions for orders below a byte: no table, each byte bit by bit. */
  method SubByteUpdate(order: nat, p: Word, remainder: Word, bytes: seq<Byte>, reflect: bool) returns (r: Word)
    requires 0 < order <= |p| == |remainder|
    ensures r == RegRun(order, remainder, p, MessageBits(bytes, reflect))
  {
    hide *;
    r := remainder;
    var i := 0;
    RegRunFirst(order, r, p, false, []);
    MessageSplit(bytes, 0, reflect);
    while i < |bytes|
      invariant 0 <= i <= |bytes| && |r| == |p|
      invariant r == RegRun(order, remainder, p, MessageBits(bytes[..i], reflect))
    {
      MessageSplit(bytes, i, reflect);
      RegRunAppend(order, remainder, p, MessageBits(bytes[..i], reflect), MessageBits([bytes[i]], reflect));
      SingleByte(bytes[i], reflect);
      r := CrcModuloWordUpdate(order, r, bytes[i], p, 8, reflect);
      i := i + 1;
    }
    assert bytes[..i] == bytes;
  }

  lemma SingleByte(b: Byte, reflect: bool)
    ensures MessageBits([b], reflect) == InputBits(b, 8, reflect)
  {
    assert MessageBits([b], reflect) == InputBits(b, 8, reflect) + MessageBits([], reflect);
  }

  /** `crc_table_type::crc_update` for the parameters. */
  function TableUpdate(c: Parameters, r: Word, bytes: seq<Byte>): (s: Word)
    requires c.Valid() && |r| == c.Width()
    ensures |s| == |r|
  {
    if c.bits >= 8 then
      ByteSteps(Form(false, c.reflectIn), c.bits, c.poly, r, bytes)
    else if c.reflectIn then
      SubByteMirror(c.bits, RegRun(c.bits, SubByteMirror(c.bits, r), c.poly, MessageBits(bytes, true)))
    else
      RegRun(c.bits, r, c.poly, MessageBits(bytes, false))
  }

  /** `crc_optimal`; its template parameters are the constant c. */
  class CrcOptimal {
    const c: Parameters
    var rem: Word

    ghost predicate Valid()
      reads this
    {
      c.Valid() && |rem| == c.Width()
    }

    constructor (c: Parameters, initRem: Word)
      requires c.Valid() && |initRem| == c.Width()
      ensures Valid() && this.c == c && rem == ReflectQ(c.bits, c.reflectIn, initRem)
    {
      this.c := c;
      rem := [];
      new;
      rem := PossiblyReflect(c.bits, c.reflectIn, initRem);
    }

    method GetInterimRemainder() returns (r: Word)
      requires Valid()
      ensures r == Padded(|rem|, if c.reflectIn then Mirror(c.bits, rem) else Low(c.bits, rem))
    {
      r := PossiblyReflect(c.bits, c.reflectIn, rem);
      LowReflectQ(c.bits, c.reflectIn, rem);
      MaskedIsPadded(c.bits, r);
      r := And(r, LowBitsMask(|r|, c.bits));
    }

    method Reset(newRem: Word)
      requires Valid() && |newRem| == c.Width()
      modifies this
      ensures Valid() && rem == ReflectQ(c.bits, c.reflectIn, newRem)
    {
      rem := PossiblyReflect(c.bits, c.reflectIn, newRem);
    }

    method ProcessByte(byte: Byte)
      requires Valid()
      modifies this
      ensures Valid() && rem == TableUpdate(c, old(rem), [byte])
    {
      ProcessBytes([byte]);
    }

    method ProcessBlock(bytes: seq<Byte>)
      requires Valid()
      modifies this
      ensures Valid() && rem == TableUpdate(c, old(rem), bytes)
    {
      ProcessBytes(bytes);
    }

    method ProcessBytes(bytes: seq<Byte>)
      requires Valid()
      modifies this
      ensures Valid() && rem == TableUpdate(c, old(rem), bytes)
    {
      if c.bits >= 8 {
        if c.reflectIn {
          rem := ReflectedCrcUpdate(c.bits, c.poly, rem, bytes);
        } else {
          rem := DirectCrcUpdate(c.bits, c.poly, rem, bytes);
        }
      } else if c.reflectIn {
        rem := PossiblyReflect(c.bits, true, rem);
        rem := SubByteUpdate(c.bits, c.poly, rem, bytes, true);
        rem := PossiblyReflect(c.bits, true, rem);
      } else {
        rem := SubByteUpdate(c.bits, c.poly, rem, bytes, false);
      }
    }

    method Checksum() returns (w: Word)
      requires Valid()
      ensures w == Finish(c, if c.reflectIn then Mirror(c.bits, rem) else Low(c.bits, rem))
    {
      var r := PossiblyReflect(c.bits, c.reflectRem != c.reflectIn, rem);
      OptimalOutput(c, rem);
      w := And(Xor(r, c.finalXor), LowBitsMask(|rem|, c.bits));
    }
  }

  /** Reflecting the output only when the flags differ undoes the reflection of the register when it must. */
  lemma OptimalOutput(c: Parameters, r: Word)
    requires c.Valid() && |r| == c.Width()
    ensures And(Xor(ReflectQ(c.bits, c.reflectRem != c.reflectIn, r), c.finalXor), LowBitsMask(|r|, c.bits))
         == Finish(c, if c.reflectIn then Mirror(c.bits, r) else Low(c.bits, r))
  {
    var x := ReflectQ(c.bits, c.reflectRem != c.reflectIn, r);
    MaskedIsPadded(c.bits, Xor(x, c.finalXor));
    LowXor(c.bits, x, c.finalXor);
    LowReflectQ(c.bits, c.reflectRem != c.reflectIn, r);
    ReverseReverse(Low(c.bits, r));
  }

  // ----- Histories -----

  /** A call on either computer. */
  datatype Call =
    | ProcessByte(byte: Byte)
    | ProcessBlock(block: seq<Byte>)
    | ProcessBytes(buffer: seq<Byte>)
    | Reset(newRem: Word)
    | ResetToInitial
  {
    /** The call's argument has the register's type. */
    predicate Fits(c: Parameters)
      requires c.Valid()
    {
      Reset? ==> |newRem| == c.Width()
    }

    /** The call's argument is one that both computers take alike. */
    predicate Agreeable(c: Parameters)
      requires c.Valid() && Fits(c)
    {
      Reset? ==> c.Accepts(newRem)
    }

    function Bytes(): seq<Byte> {
      match this
      case ProcessByte(b) => [b]
      case ProcessBlock(b) => b
      case ProcessBytes(b) => b
      case _ => []
    }

    function Value(c: Parameters): Word {
      if Reset? then newRem else c.init
    }
  }

  ghost predicate AllFit(c: Parameters, calls: seq<Call>)
    requires c.Valid()
  {
    c.Accepts(c.init) && forall call <- calls :: call.Fits(c) && call.Agreeable(c)
  }

  /** The register of a `crc_basic` object after a call, by the contracts of its methods. */
  function BasicAfter(c: Parameters, r: Word, call: Call): (s: Word)
    requires c.Valid() && |r| == c.Width() && call.Fits(c)
    ensures |s| == |r|
  {
    if call.Reset? || call.ResetToInitial? then call.Value(c)
    else RegRun(c.bits, r, c.poly, MessageBits(call.Bytes(), c.reflectIn))
  }

  /** The register of a `crc_optimal` object after a call, by the contracts of its methods. */
  function OptimalAfter(c: Parameters, r: Word, call: Call): (s: Word)
    requires c.Valid() && |r| == c.Width() && call.Fits(c)
    ensures |s| == |r|
  {
    if call.Reset? || call.ResetToInitial? then ReflectQ(c.bits, c.reflectIn, call.Value(c))
    else TableUpdate(c, r, call.Bytes())
  }

  /** The simulation: the significant bits agree, mirrored when input is reflected. */
  predicate Simulates(c: Parameters, basic: Word, optimal: Word)
    requires c.Valid() && |basic| == |optimal| == c.Width()
  {
    && Low(c.bits, optimal) == (if c.reflectIn then Mirror(c.bits, basic) else Low(c.bits, basic))
    && (c.reflectIn && c.bits >= 8 ==> Clean(c.bits, optimal))
  }

  lemma LoadSimulates(c: Parameters, v: Word)
    requires c.Valid() && |v| == c.Width() && c.Accepts(v)
    ensures Simulates(c, v, ReflectQ(c.bits, c.reflectIn, v))
  {
    LowReflectQ(c.bits, c.reflectIn, v);
  }

  lemma BytesSimulate(c: Parameters, basic: Word, optimal: Word, bytes: seq<Byte>)
    requires c.Valid() && c.Sound() && |basic| == |optimal| == c.Width() && Simulates(c, basic, optimal)
    ensures Simulates(c, RegRun(c.bits, basic, c.poly, MessageBits(bytes, c.reflectIn)), TableUpdate(c, optimal, bytes))
  {
    hide Low, Reverse, RegStep, ByteStep, SubByteMirror, Xor, InputBits, High;
    var m := MessageBits(bytes, c.reflectIn);
    LowRegRun(c.bits, basic, c.poly, m);
    ReverseReverse(Low(c.bits, basic));
    if c.bits >= 8 {
      if c.reflectIn {
        ReflectedIsDivision(false, c.bits, c.poly, optimal, bytes);
        ReverseReverse(Low(c.bits, TableUpdate(c, optimal, bytes)));
      } else {
        DirectIsDivision(false, c.bits, c.poly, optimal, bytes);
      }
    } else if c.reflectIn {
      var start := SubByteMirror(c.bits, optimal);
      SubByteMirrorIs(c.bits, optimal);
      LowRegRun(c.bits, start, c.poly, m);
      SubByteMirrorIs(c.bits, RegRun(c.bits, start, c.poly, m));
    } else {
      LowRegRun(c.bits, optimal, c.poly, m);
    }
  }

  /** Which loop the table-driven computer runs. */
  lemma TableUpdateIs(c: Parameters, r: Word, bytes: seq<Byte>)
    requires c.Valid() && |r| == c.Width()
    ensures c.bits >= 8 ==> TableUpdate(c, r, bytes) == ByteSteps(Form(false, c.reflectIn), c.bits, c.poly, r, bytes)
    ensures c.bits < 8 && !c.reflectIn ==>
      TableUpdate(c, r, bytes) == RegRun(c.bits, r, c.poly, MessageBits(bytes, false))
    ensures c.bits < 8 && c.reflectIn ==>
      var s := RegRun(c.bits, SubByteMirror(c.bits, r), c.poly, MessageBits(bytes, true));
      Low(c.bits, TableUpdate(c, r, bytes)) == Mirror(c.bits, s)
  {
    hide RegRun, ByteSteps, MessageBits, Low, Mirror;
    if c.bits < 8 && c.reflectIn {
      SubByteMirrorIs(c.bits, RegRun(c.bits, SubByteMirror(c.bits, r), c.poly, MessageBits(bytes, true)));
    }
  }

  /** Each call on either computer, written out. */
  lemma EachCall(c: Parameters, r: Word, b: Byte, bytes: seq<Byte>, v: Word)
    requires c.Valid() && |r| == |v| == c.Width()
    ensures BasicAfter(c, r, ProcessByte(b)) == RegRun(c.bits, r, c.poly, MessageBits([b], c.reflectIn))
    ensures BasicAfter(c, r, ProcessBlock(bytes)) == RegRun(c.bits, r, c.poly, MessageBits(bytes, c.reflectIn))
    ensures BasicAfter(c, r, ProcessBytes(bytes)) == RegRun(c.bits, r, c.poly, MessageBits(bytes, c.reflectIn))
    ensures BasicAfter(c, r, Reset(v)) == v && BasicAfter(c, r, ResetToInitial) == c.init
    ensures OptimalAfter(c, r, ProcessByte(b)) == TableUpdate(c, r, [b])
    ensures OptimalAfter(c, r, ProcessBlock(bytes)) == TableUpdate(c, r, bytes)
    ensures OptimalAfter(c, r, ProcessBytes(bytes)) == TableUpdate(c, r, bytes)
    ensures OptimalAfter(c, r, Reset(v)) == ReflectQ(c.bits, c.reflectIn, v)
    ensures OptimalAfter(c, r, ResetToInitial) == ReflectQ(c.bits, c.reflectIn, c.init)
  {
  }

  lemma CallSimulates(c: Parameters, basic: Word, optimal: Word, call: Call)
    requires c.Valid() && c.Sound() && |basic| == |optimal| == c.Width() && Simulates(c, basic, optimal)
    requires call.Fits(c) && call.Agreeable(c) && c.Accepts(c.init)
    ensures Simulates(c, BasicAfter(c, basic, call), OptimalAfter(c, optimal, call))
  {
    if call.Reset? || call.ResetToInitial? {
      LoadSimulates(c, call.Value(c));
    } else {
      BytesSimulate(c, basic, optimal, call.Bytes());
    }
  }

  function BasicRun(c: Parameters, r: Word, calls: seq<Call>): (s: Word)
    requires c.Valid() && |r| == c.Width() && forall call <- calls :: call.Fits(c)
    ensures |s| == |r|
    decreases |calls|
  {
    if calls == [] then r
    else
      assert forall call <- calls[1..] :: call in calls;
      BasicRun(c, BasicAfter(c, r, calls[0]), calls[1..])
  }

  function OptimalRun(c: Parameters, r: Word, calls: seq<Call>): (s: Word)
    requires c.Valid() && |r| == c.Width() && forall call <- calls :: call.Fits(c)
    ensures |s| == |r|
    decreases |calls|
  {
    if calls == [] then r
    else
      assert forall call <- calls[1..] :: call in calls;
      OptimalRun(c, OptimalAfter(c, r, calls[0]), calls[1..])
  }

  lemma {:induction false} RunSimulates(c: Parameters, basic: Word, optimal: Word, calls: seq<Call>)
    requires c.Valid() && c.Sound() && |basic| == |optimal| == c.Width() && Simulates(c, basic, optimal)
    requires AllFit(c, calls)
    ensures Simulates(c, BasicRun(c, basic, calls), OptimalRun(c, optimal, calls))
    decreases |calls|
  {
    if calls != [] {
      hide Simulates, BasicAfter, OptimalAfter;
      CallSimulates(c, basic, optimal, calls[0]);
      assert forall call <- calls[1..] :: call in calls;
      RunSimulates(c, BasicAfter(c, basic, calls[0]), OptimalAfter(c, optimal, calls[0]), calls[1..]);
    }
  }

  /** What the two computers return, as the contracts of `Checksum` and `GetInterimRemainder` say. */
  function BasicChecksum(c: Parameters, r: Word): (w: Word)
    requires c.Valid() && |r| == c.Width()
  {
    Finish(c, Low(c.bits, r))
  }

  function OptimalRemainder(c: Parameters, r: Word): (w: Word)
    requires c.Valid() && |r| == c.Width()
    ensures |w| == c.bits
  {
    if c.reflectIn then Mirror(c.bits, r) else Low(c.bits, r)
  }

  function OptimalChecksum(c: Parameters, r: Word): (w: Word)
    requires c.Valid() && |r| == c.Width()
  {
    Finish(c, OptimalRemainder(c, r))
  }

  /** After any history both computers hold the same remainder and return the same checksum. */
  lemma SameChecksum(c: Parameters, calls: seq<Call>)
    requires c.Valid() && c.Sound() && AllFit(c, calls)
    ensures var basic := BasicRun(c, c.init, calls);
            var optimal := OptimalRun(c, ReflectQ(c.bits, c.reflectIn, c.init), calls);
            && OptimalRemainder(c, optimal) == Low(c.bits, basic)
            && OptimalChecksum(c, optimal) == BasicChecksum(c, basic)
  {
    LoadSimulates(c, c.init);
    RunSimulates(c, c.init, ReflectQ(c.bits, c.reflectIn, c.init), calls);
    ReverseReverse(Low(c.bits, BasicRun(c, c.init, calls)));
  }

  /** What `reset` is documented to leave: the checksum and the significant bits of the interim remainder always, the
      given value itself exactly when nothing lies above those bits. */
  lemma ResetIsObserved(c: Parameters, v: Word)
    requires c.Valid() && |v| == c.Width()
    ensures OptimalRemainder(c, ReflectQ(c.bits, c.reflectIn, v)) == Low(c.bits, v)
    ensures OptimalChecksum(c, ReflectQ(c.bits, c.reflectIn, v)) == BasicChecksum(c, v) == Finish(c, Low(c.bits, v))
    ensures Padded(c.Width(), Low(c.bits, v)) == v <==> Clean(c.bits, v)
  {
    LowReflectQ(c.bits, c.reflectIn, v);
    ReverseReverse(Low(c.bits, v));
    PaddedParts(c.Width(), Low(c.bits, v));
    assert v == High(c.bits, v) + Low(c.bits, v);
  }

  /** A value with a bit above the order does not come back, from either computer. */
  lemma ResetDropsStrays(c: Parameters, k: nat)
    requires c.Valid() && c.bits <= k < c.Width()
    ensures var v := OneHot(c.Width(), k);
            && Padded(c.Width(), Low(c.bits, v)) != v
            && Padded(c.Width(), OptimalRemainder(c, ReflectQ(c.bits, c.reflectIn, v))) != v
  {
    var v := OneHot(c.Width(), k);
    ResetIsObserved(c, v);
    assert High(c.bits, v)[c.Width() - 1 - k];
  }
}
