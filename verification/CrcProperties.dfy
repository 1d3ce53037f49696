/** What the CRC computers are for: both kinds agree, their checksum is a polynomial remainder, it can be carried
    from one computer to the next, and it exposes bursts of errors. */
module CrcProperties {
  import opened Words
  import opened Division
  import opened Bitwise
  import opened Tables
  import opened StrayBits
  import opened Crc

  // ----- The computers side by side -----

  method CallBasic(o: CrcBasic, call: Call)
    requires o.Valid() && call.Fits(o.Parms())
    modifies o
    ensures o.Valid() && o.Parms() == old(o.Parms())
    ensures o.rem == BasicAfter(old(o.Parms()), old(o.rem), call)
  {
    match call
    case ProcessByte(b) => o.ProcessByte(b);
    case ProcessBlock(b) => o.ProcessBlock(b);
    case ProcessBytes(b) => o.ProcessBytes(b);
    case Reset(v) => o.Reset(v);
    case ResetToInitial => o.ResetToInitial();
  }

  method CallOptimal(o: CrcOptimal, call: Call)
    requires o.Valid() && call.Fits(o.c)
    modifies o
    ensures o.Valid() && o.rem == OptimalAfter(o.c, old(o.rem), call)
  {
    match call
    case ProcessByte(b) => o.ProcessByte(b);
    case ProcessBlock(b) => o.ProcessBlock(b);
    case ProcessBytes(b) => o.ProcessBytes(b);
    case Reset(v) => o.Reset(v);
    case ResetToInitial => o.Reset(o.c.init);
  }

  /** Two objects given the same calls return the same checksum and the same interim remainder. */
  method Lockstep(c: Parameters, calls: seq<Call>)
    returns (basicSum: Word, optimalSum: Word, basicRem: Word, optimalRem: Word)
    requires c.Valid() && c.Sound() && AllFit(c, calls)
    ensures basicSum == optimalSum && basicRem == optimalRem
    ensures basicSum == BasicChecksum(c, BasicRun(c, c.init, calls))
  {
    hide Low, Reverse, Xor, Finish, Padded, TableUpdate, ReflectQ, BasicAfter, OptimalAfter, Simulates, Mirror;
    var basic := new CrcBasic(c);
    var optimal := new CrcOptimal(c, c.init);
    var i := 0;
    LoadSimulates(c, c.init);
    RunTo(c, c.init, calls, 0);
    while i < |calls|
      invariant 0 <= i <= |calls| && basic.Valid() && optimal.Valid() && basic.Parms() == optimal.c == c
      invariant basic.rem == BasicRun(c, c.init, calls[..i])
      invariant Simulates(c, basic.rem, optimal.rem)
    {
      RunTo(c, c.init, calls, i);
      CallSimulates(c, basic.rem, optimal.rem, calls[i]);
      CallBasic(basic, calls[i]);
      CallOptimal(optimal, calls[i]);
      i := i + 1;
    }
    assert calls[..i] == calls;
    SimulatedRemainder(c, basic.rem, optimal.rem);
    basicSum := basic.Checksum();
    optimalSum := optimal.Checksum();
    basicRem := basic.GetInterimRemainder();
    optimalRem := optimal.GetInterimRemainder();
  }

  lemma {:induction false} BasicRunAppend(c: Parameters, r: Word, a: seq<Call>, call: Call)
    requires c.Valid() && |r| == c.Width() && forall x <- a + [call] :: x.Fits(c)
    ensures (forall x <- a :: x in a + [call]) && call in a + [call]
    ensures BasicRun(c, r, a + [call]) == BasicAfter(c, BasicRun(c, r, a), call)
    decreases |a|
  {
    assert call in a + [call];
    assert forall x <- a :: x in a + [call];
    if a == [] {
      assert a + [call] == [call];
    } else {
      assert (a + [call])[1..] == a[1..] + [call];
      assert forall x <- a[1..] + [call] :: x in a + [call];
      BasicRunAppend(c, BasicAfter(c, r, a[0]), a[1..], call);
    }
  }

  lemma RunTo(c: Parameters, r: Word, calls: seq<Call>, i: nat)
    requires c.Valid() && |r| == c.Width() && (forall x <- calls :: x.Fits(c)) && i <= |calls|
    ensures forall x <- calls[..i] :: x.Fits(c)
    ensures i == 0 ==> BasicRun(c, r, calls[..i]) == r
    ensures i < |calls| ==>
      && (forall x <- calls[..i + 1] :: x.Fits(c))
      && BasicRun(c, r, calls[..i + 1]) == BasicAfter(c, BasicRun(c, r, calls[..i]), calls[i])
  {
    assert forall x <- calls[..i] :: x in calls;
    if i < |calls| {
      assert calls[..i + 1] == calls[..i] + [calls[i]];
      assert forall x <- calls[..i + 1] :: x in calls;
      BasicRunAppend(c, r, calls[..i], calls[i]);
    }
  }

  // ----- When the table-driven computer is right -----

  /** The checksum of one byte sequence, by either computer. */
  function BasicSum(c: Parameters, bytes: seq<Byte>): (w: Word)
    requires c.Valid()
  {
    BasicChecksum(c, RegRun(c.bits, c.init, c.poly, MessageBits(bytes, c.reflectIn)))
  }

  /** The function template `crc`: a `crc_optimal` object fed once. */
  function OptimalSum(c: Parameters, bytes: seq<Byte>): (w: Word)
    requires c.Valid()
  {
    OptimalChecksum(c, TableUpdate(c, ReflectQ(c.bits, c.reflectIn, c.init), bytes))
  }

  method ComputeCrc(c: Parameters, buffer: seq<Byte>) returns (w: Word)
    requires c.Valid()
    ensures w == OptimalSum(c, buffer)
  {
    var computer := new CrcOptimal(c, c.init);
    computer.ProcessBytes(buffer);
    w := computer.Checksum();
  }

  /** A checksum of one sequence is that of the history with one call. */
  lemma OneShot(c: Parameters, bytes: seq<Byte>)
    requires c.Valid()
    ensures var r := BasicAfter(c, c.init, ProcessBytes(bytes)); BasicSum(c, bytes) == Finish(c, Low(c.bits, r))
    ensures var r := OptimalAfter(c, ReflectQ(c.bits, c.reflectIn, c.init), ProcessBytes(bytes));
            OptimalSum(c, bytes) == Finish(c, if c.reflectIn then Reverse(Low(c.bits, r)) else Low(c.bits, r))
  {
  }

  lemma SumsAgree(c: Parameters, bytes: seq<Byte>)
    requires c.Valid() && c.Sound() && c.Accepts(c.init)
    ensures OptimalSum(c, bytes) == BasicSum(c, bytes)
  {
    var calls := [ProcessBytes(bytes)];
    assert calls[1..] == [];
    SameChecksum(c, calls);
  }

  /** For parameters of every width, order and reflection: the table-driven checksum is the bit-wise one on all
      messages exactly when the reflected table, if it is used, is free of stray bits. */
  lemma SumsAgreeExactly(c: Parameters)
    requires c.Valid()
    ensures (forall bytes: seq<Byte> :: OptimalSum(c, bytes) == BasicSum(c, bytes)) <==> c.Sound() && c.Accepts(c.init)
  {
    if c.Sound() && c.Accepts(c.init) {
      forall bytes: seq<Byte> ensures OptimalSum(c, bytes) == BasicSum(c, bytes) { SumsAgree(c, bytes); }
    }
    if (forall bytes: seq<Byte> :: OptimalSum(c, bytes) == BasicSum(c, bytes)) && c.reflectIn && c.bits >= 8 {
      SumsAgreeOnlyIf(c);
    }
  }

  lemma SumsAgreeOnlyIf(c: Parameters)
    requires c.Valid() && c.reflectIn && c.bits >= 8
    requires forall bytes: seq<Byte> :: OptimalSum(c, bytes) == BasicSum(c, bytes)
    ensures c.Sound() && c.Accepts(c.init)
  {
    hide Low, Reverse, Xor, Finish, ReflectQ, OptimalSum, BasicSum, RegStep, ByteStep, Agrees;
    var r := ReflectQ(c.bits, true, c.init);
    LowReflectQ(c.bits, true, c.init);
    ReverseReverse(Low(c.bits, c.init));
    forall bytes: seq<Byte>
      ensures Mirror(c.bits, ByteSteps(Form(false, true), c.bits, c.poly, r, bytes))
           == Divide(false, Mirror(c.bits, r), Low(c.bits, c.poly), MessageBits(bytes, true))
    {
      assert OptimalSum(c, bytes) == BasicSum(c, bytes);
      EqualSums(c, bytes);
      LowRegRun(c.bits, c.init, c.poly, MessageBits(bytes, true));
    }
    AgreesIf(false, c.bits, c.poly, r);
    ReflectedExactly(false, c.bits, c.poly, r);
  }

  lemma EqualSums(c: Parameters, bytes: seq<Byte>)
    requires c.Valid() && OptimalSum(c, bytes) == BasicSum(c, bytes)
    ensures OptimalRemainder(c, TableUpdate(c, ReflectQ(c.bits, c.reflectIn, c.init), bytes))
         == Low(c.bits, RegRun(c.bits, c.init, c.poly, MessageBits(bytes, c.reflectIn)))
  {
    FinishInjective(c, OptimalRemainder(c, TableUpdate(c, ReflectQ(c.bits, c.reflectIn, c.init), bytes)),
      Low(c.bits, RegRun(c.bits, c.init, c.poly, MessageBits(bytes, c.reflectIn))));
  }

  /** A 12-bit divisor, x^12 + x^11 + x^3 + x^2 + x + 1, in a 16-bit register with reflected input. */
  function Crc12Reflected(): (c: Parameters)
    ensures c.Valid()
  {
    var poly :=
      [false, false, false, false, true, false, false, false, false, false, false, false, true, true, true, true];
    Parameters(12, poly, Zeros(16), Zeros(16), true, true)
  }

  /** On the message 80 01 the table-driven checksum is 0x01F, the bit-wise one 0x00F: the mask of the first byte
      brings a bit above the twelve into the register, and the shift for the second byte moves it down. */
  lemma Crc12ReflectedIsWrong()
    ensures var c, bytes: seq<Byte> := Crc12Reflected(), [OneHot(8, 7), OneHot(8, 0)];
            && OptimalSum(c, bytes) == Zeros(11) + [true, true, true, true, true]
            && BasicSum(c, bytes) == Zeros(12) + [true, true, true, true]
  {
    hide *;
    Crc12Table();
    Crc12BitWise();
  }

  /** 0x1F01, a bit of which is above the order. */
  function Crc12Mask(): (w: Word)
    ensures |w| == 16
  {
    [false, false, false, true, true, true, true, true, false, false, false, false, false, false, false, true]
  }

  /** The byte 80 puts the reflected divisor, with its omitted leading coefficient, into an empty register. */
  lemma UnitByte(order: nat, p: Word)
    requires 8 <= order < |p|
    ensures ByteStep(Form(false, true), order, p, Zeros(|p|), OneHot(8, 7))
         == Reflect(order, Xor(OneHot(|p|, order), p))
  {
    hide *;
    var x: Byte := OneHot(8, 7);
    var t, i := ReflectedStep(false, order, p, Zeros(|p|), x);
    EmptyParts(|p|);
    XorZeros(x);
    XorZeros(Entry(order, p, true, x));
    UnitEntry(order, p);
    UnitReversed();
    EntryReflects(order, p, x);
  }

  lemma EmptyParts(width: nat)
    requires width >= 8
    ensures Low(8, Zeros(width)) == Zeros(8) && Shr(Zeros(width), 8) == Zeros(width)
  {
  }

  lemma UnitReversed()
    ensures Reverse(OneHot(8, 7)) == OneHot(8, 0) && Reverse(OneHot(8, 0)) == OneHot(8, 7)
  {
  }

  lemma EntryReflects(order: nat, p: Word, x: Word)
    requires 0 < order <= |p|
    ensures Entry(order, p, true, x) == Reflect(order, RegRun(order, Zeros(|p|), p, Reverse(x)))
  {
  }

  lemma Crc12FirstByte()
    ensures var p := Crc12Reflected().poly; Reflect(12, Xor(OneHot(16, 12), p)) == Crc12Mask()
  {
    var e, m := Xor(OneHot(16, 12), Crc12Reflected().poly), Crc12Mask();
    assert Reverse(Low(12, e)) == Low(12, m);
    assert High(12, e) == High(12, m);
    assert m == High(12, m) + Low(12, m);
  }

  /** The second is the register's last byte, so that the register is only shifted. */
  lemma Crc12SecondByte(p: Word, s: Word)
    requires |p| == 16
    requires s == Crc12Mask()
    ensures ByteStep(Form(false, true), 12, p, s, OneHot(8, 0))
         == Zeros(8) + [false, false, false, true, true, true, true, true]
  {
    hide RegRun, ByteStep, Entry;
    assert Low(8, s) == OneHot(8, 0);
    Drained(false, 12, p, s);
    ZeroEntry(12, p);
    XorZeros(Shr(s, 8));
    assert Shr(s, 8) == Zeros(8) + [false, false, false, true, true, true, true, true];
  }

  lemma Crc12Output(low: Word)
    requires |low| == 12
    ensures Finish(Crc12Reflected(), low) == Zeros(4) + Reverse(low)
  {
    assert Low(12, Zeros(16)) == Zeros(12);
    XorZeros(Reverse(low));
  }

  lemma Crc12Table()
    ensures OptimalSum(Crc12Reflected(), [OneHot(8, 7), OneHot(8, 0)]) == Zeros(11) + [true, true, true, true, true]
  {
    hide RegRun, Entry, ByteSteps, ByteStep, Finish, Xor, Low, Reflect, Crc12Reflected, Crc12Mask, Reverse, OneHot;
    var c, x: Byte, y: Byte := Crc12Reflected(), OneHot(8, 7), OneHot(8, 0);
    var w := Zeros(8) + [false, false, false, true, true, true, true, true];
    Crc12Divisor();
    UnitByte(12, c.poly);
    Crc12FirstByte();
    Crc12SecondByte(c.poly, Crc12Mask());
    TwoBytes(Form(false, true), 12, c.poly, Zeros(16), x, y);
    assert TableUpdate(c, ReflectQ(12, true, Zeros(16)), [x, y]) == w;
    Crc12TableOutput(w);
  }

  lemma Crc12TableOutput(w: Word)
    requires w == Zeros(8) + [false, false, false, true, true, true, true, true]
    ensures OptimalChecksum(Crc12Reflected(), w) == Zeros(11) + [true, true, true, true, true]
  {
    hide Finish, Crc12Reflected;
    Crc12Divisor();
    Crc12Output(Reverse(Low(12, w)));
    ReverseReverse(Low(12, w));
    assert Zeros(4) + Low(12, w) == Zeros(11) + [true, true, true, true, true];
  }

  lemma TwoBytes(form: Form, order: nat, p: Word, r: Word, x: Byte, y: Byte)
    requires 8 <= order <= |p| == |r|
    ensures ByteSteps(form, order, p, r, [x, y]) == ByteStep(form, order, p, ByteStep(form, order, p, r, x), y)
    ensures MessageBits([x, y], true) == Reverse(x) + Reverse(y)
  {
    hide ByteStep, Reverse, InputBits, MessageBits;
    OneByte(form, order, p, r, x, [y]);
    OneByte(form, order, p, ByteStep(form, order, p, r, x), y, []);
    assert [x] + [y] == [x, y] && [y] + [] == [y] && Reverse(y) + [] == Reverse(y);
  }

  /** By division, the first byte leaves the divisor and the second cancels its leading byte. */
  lemma Crc12Division(q: Word)
    requires q == [true, false, false, false, false, false, false, false, true, true, true, true]
    requires Run(Zeros(12), q, OneHot(8, 0)) == q
    ensures Run(Zeros(12), q, OneHot(8, 0) + OneHot(8, 7))
         == [true, true, true, true, false, false, false, false, false, false, false, false]
  {
    hide Run;
    RunAppend(Zeros(12), q, OneHot(8, 0), OneHot(8, 7));
    assert q[..8] == OneHot(8, 7);
    RunCancels(q, q, 8);
    assert Shl(q, 8) == [true, true, true, true, false, false, false, false, false, false, false, false];
  }

  lemma UnitRun(order: nat, p: Word)
    requires 8 <= order < |p|
    ensures Run(Zeros(order), Low(order, p), OneHot(8, 0)) == Low(order, p)
  {
    hide *;
    UnitEntry(order, p);
    LowRegRun(order, Zeros(|p|), p, OneHot(8, 0));
    LowUnit(order, p);
  }

  lemma Crc12Bits()
    ensures MessageBits([OneHot(8, 7), OneHot(8, 0)], true) == OneHot(8, 0) + OneHot(8, 7)
  {
    hide MessageBits;
    TwoBytes(Form(false, true), 12, Zeros(16), Zeros(16), OneHot(8, 7), OneHot(8, 0));
    UnitReversed();
  }

  lemma Crc12Divisor()
    ensures var c := Crc12Reflected();
            && |c.poly| == 16 && c.bits == 12 && c.reflectIn && c.reflectRem && c.init == Zeros(16)
            && Low(12, c.init) == Zeros(12) && ReflectQ(12, true, Zeros(16)) == Zeros(16)
    ensures Low(12, Crc12Reflected().poly)
         == [true, false, false, false, false, false, false, false, true, true, true, true]
  {
    assert Reverse(Low(12, Zeros(16))) == Low(12, Zeros(16)) == Zeros(12);
    assert High(12, Zeros(16)) + Low(12, Zeros(16)) == Zeros(16);
  }

  lemma Crc12BitWise()
    ensures BasicSum(Crc12Reflected(), [OneHot(8, 7), OneHot(8, 0)]) == Zeros(12) + [true, true, true, true]
  {
    hide RegRun, Run, Finish, Xor, Reverse, MessageBits, OneHot, Low, Crc12Reflected;
    var c, m := Crc12Reflected(), OneHot(8, 0) + OneHot(8, 7);
    Crc12Bits();
    Crc12Divisor();
    LowRegRun(12, c.init, c.poly, m);
    UnitRun(12, c.poly);
    Crc12Division(Low(12, c.poly));
    var w := [true, true, true, true, false, false, false, false, false, false, false, false];
    Crc12Output(w);
    assert Zeros(4) + Reverse(w) == Zeros(12) + [true, true, true, true];
  }

  // ----- The checksum is a remainder -----

  /** The checksum belongs to the one remainder of M(x) x^n + Init(x) x^|M| divided by x^n + Poly(x). */
  lemma ChecksumIsRemainder(c: Parameters, bytes: seq<Byte>, r: Word)
    requires c.Valid() && |r| == c.bits
    ensures Finish(c, r) == BasicSum(c, bytes) <==>
      IsRemainder(Dividend(Low(c.bits, c.init), MessageBits(bytes, c.reflectIn)), Low(c.bits, c.poly), r)
  {
    RunFinishes(c, c.init, bytes, r);
  }

  // ----- What a history means -----

  /** The bytes fed since the last reset, and the value they were fed to, call by call. */
  predicate Follows(c: Parameters, calls: seq<Call>, start: seq<Word>, fed: seq<seq<Byte>>)
  {
    && |start| == |fed| == |calls| + 1 && start[0] == c.init && fed[0] == []
    && forall k :: 0 <= k < |calls| ==>
         && (calls[k].ProcessByte? ==> start[k + 1] == start[k] && fed[k + 1] == fed[k] + [calls[k].byte])
         && (calls[k].ProcessBlock? ==> start[k + 1] == start[k] && fed[k + 1] == fed[k] + calls[k].block)
         && (calls[k].ProcessBytes? ==> start[k + 1] == start[k] && fed[k + 1] == fed[k] + calls[k].buffer)
         && (calls[k].Reset? ==> start[k + 1] == calls[k].newRem && fed[k + 1] == [])
         && (calls[k].ResetToInitial? ==> start[k + 1] == c.init && fed[k + 1] == [])
  }

  lemma {:induction false} HistoryRuns(c: Parameters, calls: seq<Call>, start: seq<Word>, fed: seq<seq<Byte>>, k: nat)
    requires c.Valid() && (forall call <- calls :: call.Fits(c)) && Follows(c, calls, start, fed) && k <= |calls|
    ensures |start[k]| == c.Width() && forall call <- calls[..k] :: call.Fits(c)
    ensures BasicRun(c, c.init, calls[..k]) == RegRun(c.bits, start[k], c.poly, MessageBits(fed[k], c.reflectIn))
    decreases k
  {
    hide Call.Fits, RegRun, MessageBits;
    RunTo(c, c.init, calls, k);
    if k > 0 {
      assert calls[k - 1] in calls;
      HistoryRuns(c, calls, start, fed, k - 1);
      RunTo(c, c.init, calls, k - 1);
      CallFeeds(c, calls[k - 1], start[k - 1], fed[k - 1]);
    } else {
      MessageNext([], c.reflectIn);
      RegRunFirst(c.bits, c.init, c.poly, false, []);
    }
  }

  lemma CallFeeds(c: Parameters, call: Call, v: Word, bytes: seq<Byte>)
    requires c.Valid() && call.Fits(c) && |v| == c.Width()
    ensures var s := BasicAfter(c, RegRun(c.bits, v, c.poly, MessageBits(bytes, c.reflectIn)), call);
            && (call.ProcessByte? ==> s == RegRun(c.bits, v, c.poly, MessageBits(bytes + [call.byte], c.reflectIn)))
            && (call.ProcessBlock? ==> s == RegRun(c.bits, v, c.poly, MessageBits(bytes + call.block, c.reflectIn)))
            && (call.ProcessBytes? ==> s == RegRun(c.bits, v, c.poly, MessageBits(bytes + call.buffer, c.reflectIn)))
            && (call.Reset? ==> s == RegRun(c.bits, call.newRem, c.poly, MessageBits([], c.reflectIn)))
            && (call.ResetToInitial? ==> s == RegRun(c.bits, c.init, c.poly, MessageBits([], c.reflectIn)))
  {
    hide RegRun, MessageBits;
    var more := call.Bytes();
    MessageAppend(bytes, more, c.reflectIn);
    RegRunAppend(c.bits, v, c.poly, MessageBits(bytes, c.reflectIn), MessageBits(more, c.reflectIn));
    MessageNext([], c.reflectIn);
    RegRunFirst(c.bits, call.Value(c), c.poly, false, []);
  }

  /** After every history the checksum belongs to the one remainder of the bytes fed since the last reset, from that
      reset's value: for `crc_basic` always, for `crc_optimal` when no stray bits are about. */
  lemma HistoryIsRemainder(c: Parameters, calls: seq<Call>, start: seq<Word>, fed: seq<seq<Byte>>, r: Word)
    requires 0 < c.bits <= |c.poly| == |c.init| == |c.finalXor| && 8 <= |c.poly| && |r| == c.bits
    requires forall call <- calls :: call.Reset? ==> |call.newRem| == |c.poly|
    requires |start| == |fed| == |calls| + 1 && start[0] == c.init && fed[0] == []
    requires forall k :: 0 <= k < |calls| ==>
      && (calls[k].ProcessByte? ==> start[k + 1] == start[k] && fed[k + 1] == fed[k] + [calls[k].byte])
      && (calls[k].ProcessBlock? ==> start[k + 1] == start[k] && fed[k + 1] == fed[k] + calls[k].block)
      && (calls[k].ProcessBytes? ==> start[k + 1] == start[k] && fed[k + 1] == fed[k] + calls[k].buffer)
      && (calls[k].Reset? ==> start[k + 1] == calls[k].newRem && fed[k + 1] == [])
      && (calls[k].ResetToInitial? ==> start[k + 1] == c.init && fed[k + 1] == [])
    ensures c.Valid() && (forall call <- calls :: call.Fits(c)) && |start[|calls|]| == |c.poly|
    ensures Finish(c, r) == BasicChecksum(c, BasicRun(c, c.init, calls)) <==>
      IsRemainder(Dividend(Low(c.bits, start[|calls|]), MessageBits(fed[|calls|], c.reflectIn)), Low(c.bits, c.poly), r)
    ensures c.Sound() && AllFit(c, calls) ==>
      OptimalChecksum(c, OptimalRun(c, ReflectQ(c.bits, c.reflectIn, c.init), calls))
      == BasicChecksum(c, BasicRun(c, c.init, calls))
  {
    hide RegRun, MessageBits, Low, Finish, IsRemainder, Dividend;
    assert Follows(c, calls, start, fed);
    HistoryRuns(c, calls, start, fed, |calls|);
    assert calls[..|calls|] == calls;
    RunFinishes(c, start[|calls|], fed[|calls|], r);
    if c.Sound() && AllFit(c, calls) { SameChecksum(c, calls); }
  }

  /** What both computers take alike: any history at all when the register has the divisor's width, or when input is
      not reflected, or below nine bits. */
  lemma AllFitExactly(c: Parameters, calls: seq<Call>)
    requires c.Valid()
    ensures AllFit(c, calls) <==>
      && (forall call <- calls :: call.Reset? ==> |call.newRem| == |c.poly|)
      && (c.reflectIn && c.bits > 8 ==>
            && High(c.bits, c.init) == Zeros(|c.poly| - c.bits)
            && forall call <- calls :: call.Reset? ==> High(c.bits, call.newRem) == Zeros(|c.poly| - c.bits))
    ensures c.bits == |c.poly| ==> c.Sound() && c.Accepts(c.init)
  {
  }

  lemma RunFinishes(c: Parameters, v: Word, bytes: seq<Byte>, r: Word)
    requires c.Valid() && |v| == c.Width() && |r| == c.bits
    ensures Finish(c, r) == BasicChecksum(c, RegRun(c.bits, v, c.poly, MessageBits(bytes, c.reflectIn))) <==>
      IsRemainder(Dividend(Low(c.bits, v), MessageBits(bytes, c.reflectIn)), Low(c.bits, c.poly), r)
  {
    hide RegRun, MessageBits, Low, Finish, IsRemainder, Dividend;
    var m := MessageBits(bytes, c.reflectIn);
    RunIsRemainder(Low(c.bits, v), Low(c.bits, c.poly), m, r);
    LowRegRun(c.bits, v, c.poly, m);
    if Finish(c, r) == Finish(c, Run(Low(c.bits, v), Low(c.bits, c.poly), m)) {
      FinishInjective(c, r, Run(Low(c.bits, v), Low(c.bits, c.poly), m));
    }
  }

  // ----- Interrupting a computation -----

  /** A computer of either kind that is reset to the interim remainder of another and fed the rest of the message
      returns the checksum of the whole message. */
  lemma Resume(c: Parameters, first: seq<Byte>, rest: seq<Byte>, other: Word)
    requires c.Valid() && c.Sound() && c.Accepts(c.init) && |other| == c.Width()
    ensures var r := RegRun(c.bits, c.init, c.poly, MessageBits(first, c.reflectIn));
            var s := TableUpdate(c, ReflectQ(c.bits, c.reflectIn, c.init), first);
            var interim := Padded(c.Width(), Low(c.bits, r));
            var calls := [Reset(interim), ProcessBytes(rest)];
            && (forall call <- calls :: call.Fits(c))
            && interim == Padded(c.Width(), OptimalRemainder(c, s))
            && BasicChecksum(c, BasicRun(c, other, calls)) == BasicSum(c, first + rest)
            && OptimalChecksum(c, OptimalRun(c, other, calls)) == BasicSum(c, first + rest)
  {
    hide Low, Reverse, Xor, Finish, Padded, TableUpdate, ReflectQ, RegStep, Mirror;
    var n, m1, m2 := c.bits, MessageBits(first, c.reflectIn), MessageBits(rest, c.reflectIn);
    var r1 := RegRun(n, c.init, c.poly, m1);
    var interim := Padded(c.Width(), Low(n, r1));
    PaddedParts(c.Width(), Low(n, r1));
    SumsAgree(c, first);
    EqualSums(c, first);
    TwoCalls(c, other, Reset(interim), ProcessBytes(rest));
    var r2 := RegRun(n, interim, c.poly, m2);
    assert Low(n, r2) == Low(n, RegRun(n, c.init, c.poly, MessageBits(first + rest, c.reflectIn))) by {
      MessageAppend(first, rest, c.reflectIn);
      RegRunAppend(n, c.init, c.poly, m1, m2);
      LowRegRun(n, r1, c.poly, m2);
      LowRegRun(n, interim, c.poly, m2);
    }
    var optimal := ReflectQ(n, c.reflectIn, interim);
    LoadSimulates(c, interim);
    BytesSimulate(c, interim, optimal, rest);
    SimulatedRemainder(c, r2, TableUpdate(c, optimal, rest));
  }

  lemma SimulatedRemainder(c: Parameters, basic: Word, optimal: Word)
    requires c.Valid() && |basic| == |optimal| == c.Width() && Simulates(c, basic, optimal)
    ensures OptimalRemainder(c, optimal) == Low(c.bits, basic)
  {
    ReverseReverse(Low(c.bits, basic));
  }

  lemma TwoCalls(c: Parameters, r: Word, x: Call, y: Call)
    requires c.Valid() && |r| == c.Width() && x.Fits(c) && y.Fits(c)
    ensures BasicRun(c, r, [x, y]) == BasicAfter(c, BasicAfter(c, r, x), y)
    ensures OptimalRun(c, r, [x, y]) == OptimalAfter(c, OptimalAfter(c, r, x), y)
  {
    hide BasicAfter, OptimalAfter, Call.Fits;
    var calls, r', s' := [x, y], BasicAfter(c, r, x), OptimalAfter(c, r, x);
    assert calls[1..] == [y];
    assert [y][1..] == [];
    assert BasicRun(c, r, calls) == BasicRun(c, r', [y]) == BasicAfter(c, r', y);
    assert OptimalRun(c, r, calls) == OptimalRun(c, s', [y]) == OptimalAfter(c, s', y);
  }

  // ----- Error detection -----

  /** With an odd divisor, two messages whose bits, in the order of processing, differ within some window of Bits
      consecutive ones have different checksums. */
  lemma BurstsChangeChecksum(c: Parameters, a: seq<Byte>, b: seq<Byte>, x: Word, u: Word, v: Word, y: Word)
    requires c.Valid() && c.poly[c.Width() - 1]
    requires MessageBits(a, c.reflectIn) == x + u + y && MessageBits(b, c.reflectIn) == x + v + y
    requires |u| == |v| <= c.bits && a != b
    ensures BasicSum(c, a) != BasicSum(c, b)
    ensures c.Sound() && c.Accepts(c.init) ==> OptimalSum(c, a) != OptimalSum(c, b)
  {
    hide Low, OptimalSum, BasicSum, Step, Reverse, InputBits, Parameters.Sound, Parameters.Accepts;
    var p, r := Low(c.bits, c.poly), Low(c.bits, c.init);
    if u == v { MessageInjective(a, b, c.reflectIn); }
    LastLow(c.bits, c.poly);
    OddDetects(r, p, x, u, v, y);
    EqualBasicSums(c, a, b);
    if c.Sound() && c.Accepts(c.init) {
      SumsAgree(c, a);
      SumsAgree(c, b);
    }
  }

  lemma EqualBasicSums(c: Parameters, a: seq<Byte>, b: seq<Byte>)
    requires c.Valid()
    ensures BasicSum(c, a) == BasicSum(c, b) ==>
      Run(Low(c.bits, c.init), Low(c.bits, c.poly), MessageBits(a, c.reflectIn))
      == Run(Low(c.bits, c.init), Low(c.bits, c.poly), MessageBits(b, c.reflectIn))
  {
    hide Low, Finish, RegStep, Step, InputBits;
    var p, r, ma, mb :=
      Low(c.bits, c.poly), Low(c.bits, c.init), MessageBits(a, c.reflectIn), MessageBits(b, c.reflectIn);
    LowRegRun(c.bits, c.init, c.poly, ma);
    LowRegRun(c.bits, c.init, c.poly, mb);
    if BasicSum(c, a) == BasicSum(c, b) { FinishInjective(c, Run(r, p, ma), Run(r, p, mb)); }
  }

  lemma LastLow(n: nat, w: Word)
    requires 0 < n <= |w|
    ensures Low(n, w)[n - 1] == w[|w| - 1]
  {
  }

  lemma {:induction false} MessageInjective(a: seq<Byte>, b: seq<Byte>, reflect: bool)
    requires |a| == |b| && MessageBits(a, reflect) == MessageBits(b, reflect)
    ensures a == b
    decreases |a|
  {
    if a != [] {
      MessageNext(a, reflect);
      MessageNext(b, reflect);
      var x, y := MessageBits(a, reflect), MessageBits(b, reflect);
      assert x[..8] == y[..8] && x[8..] == y[8..];
      assert x[8..] == MessageBits(a[1..], reflect) && y[8..] == MessageBits(b[1..], reflect);
      MessageInjective(a[1..], b[1..], reflect);
      var u: Word, v: Word := if reflect then Reverse(a[0]) else a[0], if reflect then Reverse(b[0]) else b[0];
      assert u == x[..8] && v == y[..8];
      ReverseReverse(a[0]);
      ReverseReverse(b[0]);
      assert a == [a[0]] + a[1..] && b == [b[0]] + b[1..];
    }
  }

  // ----- The augmented function -----

  /** The value of `augmented_crc`. */
  function AugmentedSum(bits: nat, poly: Word, buffer: seq<Byte>, initialRemainder: Word): (w: Word)
    requires 0 < bits <= |poly| == |initialRemainder|
    ensures |w| == |poly|
  {
    Padded(|poly|, AugRun(Low(bits, initialRemainder), Low(bits, poly), MessageBits(buffer, false)))
  }

  /** `augmented_crc`. Only orders of at least a byte: the byte table has 8-bit units. */
  method AugmentedCrc(bits: nat, poly: Word, buffer: seq<Byte>, initialRemainder: Word) returns (w: Word)
    requires 8 <= bits <= |poly| == |initialRemainder|
    ensures w == AugmentedSum(bits, poly, buffer, initialRemainder)
  {
    var r := DirectAugmentedCrcUpdate(bits, poly, initialRemainder, buffer);
    DirectIsDivision(true, bits, poly, initialRemainder, buffer);
    MaskedIsPadded(bits, r);
    w := And(LowBitsMask(|poly|, bits), r);
    assert w == And(r, LowBitsMask(|poly|, bits));
  }

  /** From every start and for every order, the result is the remainder of the start value's significant bits and the
      buffer, read as one polynomial. */
  lemma AugmentedIsRemainder(bits: nat, poly: Word, buffer: seq<Byte>, v: Word, r: Word)
    requires 0 < bits <= |poly| == |v| && |r| == bits
    ensures AugmentedSum(bits, poly, buffer, v) == Padded(|poly|, r) <==>
      IsRemainder(Low(bits, v) + MessageBits(buffer, false), Low(bits, poly), r)
  {
    var s := AugRun(Low(bits, v), Low(bits, poly), MessageBits(buffer, false));
    AugRunIsRemainder(Low(bits, v), Low(bits, poly), MessageBits(buffer, false), r);
    PaddedParts(|poly|, r);
    PaddedParts(|poly|, s);
  }

  /** A buffer read in two runs: the second starts from the result of the first. */
  lemma AugmentedResumes(bits: nat, poly: Word, a: seq<Byte>, b: seq<Byte>, v: Word)
    requires 0 < bits <= |poly| == |v|
    ensures AugmentedSum(bits, poly, a + b, v) == AugmentedSum(bits, poly, b, AugmentedSum(bits, poly, a, v))
  {
    var x, p, ma, mb := Low(bits, v), Low(bits, poly), MessageBits(a, false), MessageBits(b, false);
    MessageAppend(a, b, false);
    AugRunAppend(x, p, ma, mb);
    PaddedParts(|poly|, AugRun(x, p, ma));
  }

  /** When check bytes fill the divisor's order exactly, the augmented run from zero over a message and those bytes
      comes out zero just when they are the message's unaugmented checksum, big-endian; and with zero bytes instead
      it comes out as that checksum. */
  lemma AugmentedCheck(bits: nat, poly: Word, message: seq<Byte>, check: seq<Byte>)
    requires 0 < bits == 8 * |check| <= |poly|
    ensures var z, c := Zeros(|poly|), MessageBits(check, false);
            var sum := Run(Zeros(bits), Low(bits, poly), MessageBits(message, false));
            && (AugmentedSum(bits, poly, message + check, z) == z <==> c == sum)
            && (c == Zeros(bits) ==> AugmentedSum(bits, poly, message + check, z) == Padded(|poly|, sum))
  {
    var p, z, m, c := Low(bits, poly), Zeros(bits), MessageBits(message, false), MessageBits(check, false);
    var sum := Run(z, p, m);
    MessageAppend(message, check, false);
    AugmentedAgrees(z, p, m, c);
    ZeroStays(p, bits);
    XorZeros(sum);
    XorCancel(sum, c);
    XorZeros(c);
    assert Low(bits, Zeros(|poly|)) == z;
    PaddedParts(|poly|, Xor(sum, c));
    assert Padded(|poly|, z) == Zeros(|poly|);
  }
}
