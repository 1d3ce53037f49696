/** Byte-wise division with a table of combined masks, direct and reflected, plain (augmented) and altered; and the
    bit-wise loops that stand in for it when the divisor's order is below a byte. */
module Tables {
  import opened Powers
  import opened Words
  import opened Division
  import opened Bitwise

  // ----- The table -----

  /** The mask at index x: what dividing x into an empty register leaves there. A reflected table is indexed by the
      reflected dividend and holds reflected masks. */
  function Entry(order: nat, p: Word, reflect: bool, x: Word): (w: Word)
    requires 0 < order <= |p|
    ensures |w| == |p|
  {
    if reflect then Reflect(order, RegRun(order, Zeros(|p|), p, Reverse(x))) else RegRun(order, Zeros(|p|), p, x)
  }

  ghost predicate IsTable(table: seq<Word>, order: nat, p: Word, reflect: bool)
    requires 0 < order <= |p|
  {
    forall x: Byte :: ToNat(x) < |table| && table[ToNat(x)] == Entry(order, p, reflect, x)
  }

  /** Where the mask of dividend u is put. */
  function IndexOf(reflect: bool, u: Word): (x: Word)
    ensures |x| == |u|
  {
    if reflect then Reverse(u) else u
  }

  lemma IndexOfInverse(reflect: bool, u: Word)
    ensures IndexOf(reflect, IndexOf(reflect, u)) == u
  {
    ReverseReverse(u);
  }

  /** The first n dividends have been entered. */
  ghost predicate Entered(table: seq<Word>, order: nat, p: Word, reflect: bool, subOrder: nat, n: nat)
    requires 0 < order <= |p|
  {
    && |table| == Pow2(subOrder)
    && forall u: Word {:trigger IndexOf(reflect, u)} :: |u| == subOrder && ToNat(u) < n ==>
         ToNat(IndexOf(reflect, u)) < |table|
         && table[ToNat(IndexOf(reflect, u))] == Entry(order, p, reflect, IndexOf(reflect, u))
  }

  lemma EnterOne(table: seq<Word>, order: nat, p: Word, reflect: bool, subOrder: nat, u: Word)
    requires 0 < order <= |p| && |u| == subOrder
    requires Entered(table, order, p, reflect, subOrder, ToNat(u))
    ensures var x := IndexOf(reflect, u);
            Entered(table[ToNat(x) := Entry(order, p, reflect, x)], order, p, reflect, subOrder, ToNat(u) + 1)
  {
    hide Entry, IndexOf, ToNat, Pow2, Entered;
    var x := IndexOf(reflect, u);
    var i, e := ToNat(x), Entry(order, p, reflect, x);
    assert |table| == Pow2(subOrder) by { EnteredAt(table, order, p, reflect, subOrder, u, u, i, e); }
    forall v: Word | |v| == subOrder && ToNat(v) < ToNat(u) + 1
      ensures ToNat(IndexOf(reflect, v)) < |table|
      ensures table[i := e][ToNat(IndexOf(reflect, v))] == Entry(order, p, reflect, IndexOf(reflect, v))
    {
      EnteredAt(table, order, p, reflect, subOrder, u, v, i, e);
    }
    EnteredIf(table[i := e], order, p, reflect, subOrder, ToNat(u) + 1);
  }

  lemma EnteredIf(table: seq<Word>, order: nat, p: Word, reflect: bool, subOrder: nat, n: nat)
    requires 0 < order <= |p| && |table| == Pow2(subOrder)
    requires forall u: Word :: |u| == subOrder && ToNat(u) < n ==>
      ToNat(IndexOf(reflect, u)) < |table|
      && table[ToNat(IndexOf(reflect, u))] == Entry(order, p, reflect, IndexOf(reflect, u))
    ensures Entered(table, order, p, reflect, subOrder, n)
  {
    hide Entry, IndexOf, ToNat, Pow2;
  }

  lemma EnteredAt(table: seq<Word>, order: nat, p: Word, reflect: bool, subOrder: nat, u: Word, v: Word, i: nat,
      e: Word)
    requires 0 < order <= |p| && |u| == |v| == subOrder && ToNat(v) <= ToNat(u)
    requires Entered(table, order, p, reflect, subOrder, ToNat(u))
    requires i == ToNat(IndexOf(reflect, u)) && e == Entry(order, p, reflect, IndexOf(reflect, u))
    ensures var y := IndexOf(reflect, v);
            && |table| == Pow2(subOrder) && i < |table| && ToNat(y) < |table|
            && table[i := e][ToNat(y)] == Entry(order, p, reflect, y)
  {
    hide Entry, IndexOf, ToNat, Pow2;
    SameSlot(reflect, u, v);
    if ToNat(v) == ToNat(u) { ToNatInjective(u, v); }
  }

  /** Different dividends have different places. */
  lemma SameSlot(reflect: bool, u: Word, v: Word)
    requires |u| == |v|
    ensures ToNat(IndexOf(reflect, u)) == ToNat(IndexOf(reflect, v)) <==> u == v
  {
    hide ToNat, IndexOf;
    if ToNat(IndexOf(reflect, u)) == ToNat(IndexOf(reflect, v)) {
      ToNatInjective(IndexOf(reflect, u), IndexOf(reflect, v));
      IndexOfInverse(reflect, u);
      IndexOfInverse(reflect, v);
    }
  }

  lemma EnteredAll(table: seq<Word>, order: nat, p: Word, reflect: bool, subOrder: nat)
    requires 0 < order <= |p|
    requires Entered(table, order, p, reflect, subOrder, Pow2(subOrder))
    ensures forall x: Word :: |x| == subOrder ==>
      ToNat(x) < |table| && table[ToNat(x)] == Entry(order, p, reflect, x)
  {
    forall x: Word | |x| == subOrder
      ensures ToNat(x) < |table| && table[ToNat(x)] == Entry(order, p, reflect, x)
    {
      IndexOfInverse(reflect, x);
      assert ToNat(IndexOf(reflect, x)) < Pow2(subOrder);
    }
  }

  /** A dividend held in a type one bit wider than it needs. */
  lemma WideDividend(n: nat, subOrder: nat, w: Word, reflect: bool) returns (u: Word, x: Word)
    requires |w| == subOrder + 1 && ToNat(w) == n < Pow2(subOrder)
    ensures |u| == subOrder && ToNat(u) == n && InputBits(w, subOrder, false) == u
    ensures x == IndexOf(reflect, u)
    ensures ToNat(if reflect then Reflect(subOrder, w) else w) == ToNat(x)
  {
    u := FromNat(n, subOrder);
    ToNatPadded(1, u);
    assert Zeros(1) == [false];
    assert w == [false] + u by { ToNatInjective(w, [false] + u); }
    x := IndexOf(reflect, u);
    assert High(subOrder, w) == [false] && Low(subOrder, w) == u;
    ToNatPadded(1, x);
  }

  lemma PowerDoubles(n: nat)
    ensures Pow2(n) < Pow2(n + 1)
  {
  }

  lemma EntryOf(order: nat, p: Word, reflect: bool, u: Word, x: Word)
    requires 0 < order <= |p| && x == IndexOf(reflect, u)
    ensures (if reflect then Reflect(order, RegRun(order, Zeros(|p|), p, u)) else RegRun(order, Zeros(|p|), p, u))
         == Entry(order, p, reflect, x)
  {
    IndexOfInverse(reflect, u);
  }

  /** `make_partial_xor_products_table`. */
  method MakePartialXorProductsTable(subOrder: nat, order: nat, truncatedDivisor: Word, reflect: bool)
    returns (table: array<Word>)
    requires 0 < subOrder <= order <= |truncatedDivisor|
    ensures fresh(table) && table.Length == Pow2(subOrder)
    ensures forall x: Word :: |x| == subOrder ==>
      ToNat(x) < table.Length && table[ToNat(x)] == Entry(order, truncatedDivisor, reflect, x)
  {
    hide *;
    table := new Word[Pow2(subOrder)](_ => []);
    var dividend := 0;
    PowerDoubles(subOrder);
    NothingEntered(table[..], order, truncatedDivisor, reflect, subOrder);
    while dividend < table.Length
      invariant 0 <= dividend <= table.Length
      invariant Entered(table[..], order, truncatedDivisor, reflect, subOrder, dividend)
    {
      var w := FromNat(dividend, subOrder + 1);
      ghost var u, x := WideDividend(dividend, subOrder, w, reflect);
      var remainder := CrcModuloWordUpdate(order, Zeros(|truncatedDivisor|), w, truncatedDivisor, subOrder, false);
      var index := ReflectOptionally(w, reflect, subOrder);
      remainder := ReflectOptionally(remainder, reflect, order);
      EntryOf(order, truncatedDivisor, reflect, u, x);
      EnterOne(table[..], order, truncatedDivisor, reflect, subOrder, u);
      ghost var before := table[..];
      table[ToNat(index)] := remainder;
      assert table[..] == before[ToNat(x) := Entry(order, truncatedDivisor, reflect, x)];
      dividend := dividend + 1;
    }
    EnteredAll(table[..], order, truncatedDivisor, reflect, subOrder);
  }

  lemma NothingEntered(table: seq<Word>, order: nat, p: Word, reflect: bool, subOrder: nat)
    requires 0 < order <= |p| && |table| == Pow2(subOrder)
    ensures Entered(table, order, p, reflect, subOrder, 0)
  {
  }

  /** `get_table` for a byte-indexed table. */
  method GetByteTable(order: nat, truncatedDivisor: Word, reflect: bool) returns (table: array<Word>)
    requires 8 <= order <= |truncatedDivisor|
    ensures fresh(table) && IsTable(table[..], order, truncatedDivisor, reflect)
  {
    table := MakePartialXorProductsTable(8, order, truncatedDivisor, reflect);
  }

  // ----- Byte-wise updates -----

  /** The four byte-fed table-driven update loops. */
  datatype Form = Form(augmented: bool, reflect: bool)

  /** The effect of one byte on the register, reading the table. */
  function ByteStep(form: Form, order: nat, p: Word, r: Word, byte: Byte): (s: Word)
    requires 8 <= order <= |p| == |r|
    ensures |s| == |r|
  {
    var leading: Byte := if form.reflect then Low(8, r) else Low(8, Shr(r, order - 8));
    var shifted := if form.reflect then Shr(r, 8) else Shl(r, 8);
    if form.augmented then
      var incoming := Resize(byte, |r|);
      Xor(Or(shifted, if form.reflect then Shl(incoming, order - 8) else incoming),
          Entry(order, p, form.reflect, leading))
    else
      Xor(shifted, Entry(order, p, form.reflect, Xor(leading, byte)))
  }

  function ByteSteps(form: Form, order: nat, p: Word, r: Word, bytes: seq<Byte>): (s: Word)
    requires 8 <= order <= |p| == |r|
    ensures |s| == |r|
    decreases |bytes|
  {
    if bytes == [] then r else ByteSteps(form, order, p, ByteStep(form, order, p, r, bytes[0]), bytes[1..])
  }

  lemma ByteStepsNext(form: Form, order: nat, p: Word, r: Word, bytes: seq<Byte>, i: nat)
    requires 8 <= order <= |p| == |r| && i <= |bytes|
    ensures i < |bytes| ==>
      ByteSteps(form, order, p, r, bytes[i..])
      == ByteSteps(form, order, p, ByteStep(form, order, p, r, bytes[i]), bytes[i + 1..])
    ensures i == |bytes| ==> ByteSteps(form, order, p, r, bytes[i..]) == r
    ensures i == 0 ==> bytes[i..] == bytes
  {
  }

  /** One turn of each loop, as the code writes it, is one `ByteStep`. */
  lemma TurnIsByteStep(order: nat, p: Word, r: Word, byte: Byte, table: seq<Word>, reflect: bool)
    requires 8 <= order <= |p| == |r| && IsTable(table, order, p, reflect)
    ensures var lead: Byte := if reflect then Low(8, r) else Low(8, Shr(r, order - 8));
            var shifted := if reflect then Shr(r, 8) else Shl(r, 8);
            && ToNat(lead) < |table| && ToNat(Xor(lead, byte)) < |table|
            && |table[ToNat(lead)]| == |table[ToNat(Xor(lead, byte))]| == |r|
            && Xor(shifted, table[ToNat(Xor(lead, byte))]) == ByteStep(Form(false, reflect), order, p, r, byte)
            && Xor(Or(shifted, if reflect then Shl(Resize(byte, |r|), order - 8) else Resize(byte, |r|)),
                   table[ToNat(lead)]) == ByteStep(Form(true, reflect), order, p, r, byte)
  {
    hide Entry, Xor, Or, Shl, Shr, Low, Resize, ToNat;
    var lead: Byte := if reflect then Low(8, r) else Low(8, Shr(r, order - 8));
    var index: Byte := Xor(lead, byte);
    assert table[ToNat(lead)] == Entry(order, p, reflect, lead);
    assert table[ToNat(index)] == Entry(order, p, reflect, index);
  }

  method DirectCrcUpdate(order: nat, p: Word, remainder: Word, bytes: seq<Byte>) returns (r: Word)
    requires 8 <= order <= |p| == |remainder|
    ensures r == ByteSteps(Form(false, false), order, p, remainder, bytes)
  {
    hide *;
    var table := GetByteTable(order, p, false);
    r := remainder;
    var i := 0;
    ByteStepsNext(Form(false, false), order, p, r, bytes, 0);
    while i < |bytes|
      invariant 0 <= i <= |bytes| && |r| == |p| && IsTable(table[..], order, p, false)
      invariant ByteSteps(Form(false, false), order, p, r, bytes[i..])
             == ByteSteps(Form(false, false), order, p, remainder, bytes)
    {
      ByteStepsNext(Form(false, false), order, p, r, bytes, i);
      TurnIsByteStep(order, p, r, bytes[i], table[..], false);
      var index: Byte := Xor(Low(8, Shr(r, order - 8)), bytes[i]);
      i := i + 1;
      r := Shl(r, 8);
      r := Xor(r, table[ToNat(index)]);
    }
    ByteStepsNext(Form(false, false), order, p, r, bytes, i);
  }

  method DirectAugmentedCrcUpdate(order: nat, p: Word, remainder: Word, bytes: seq<Byte>) returns (r: Word)
    requires 8 <= order <= |p| == |remainder|
    ensures r == ByteSteps(Form(true, false), order, p, remainder, bytes)
  {
    hide *;
    var table := GetByteTable(order, p, false);
    r := remainder;
    var i := 0;
    ByteStepsNext(Form(true, false), order, p, r, bytes, 0);
    while i < |bytes|
      invariant 0 <= i <= |bytes| && |r| == |p| && IsTable(table[..], order, p, false)
      invariant ByteSteps(Form(true, false), order, p, r, bytes[i..])
             == ByteSteps(Form(true, false), order, p, remainder, bytes)
    {
      ByteStepsNext(Form(true, false), order, p, r, bytes, i);
      TurnIsByteStep(order, p, r, bytes[i], table[..], false);
      var index: Byte := Low(8, Shr(r, order - 8));
      r := Shl(r, 8);
      r := Or(r, Resize(bytes[i], |r|));
      i := i + 1;
      r := Xor(r, table[ToNat(index)]);
    }
    ByteStepsNext(Form(true, false), order, p, r, bytes, i);
  }

  method ReflectedCrcUpdate(order: nat, p: Word, remainder: Word, bytes: seq<Byte>) returns (r: Word)
    requires 8 <= order <= |p| == |remainder|
    ensures r == ByteSteps(Form(false, true), order, p, remainder, bytes)
  {
    hide *;
    var table := GetByteTable(order, p, true);
    r := remainder;
    var i := 0;
    ByteStepsNext(Form(false, true), order, p, r, bytes, 0);
    while i < |bytes|
      invariant 0 <= i <= |bytes| && |r| == |p| && IsTable(table[..], order, p, true)
      invariant ByteSteps(Form(false, true), order, p, r, bytes[i..])
             == ByteSteps(Form(false, true), order, p, remainder, bytes)
    {
      ByteStepsNext(Form(false, true), order, p, r, bytes, i);
      TurnIsByteStep(order, p, r, bytes[i], table[..], true);
      var index: Byte := Xor(Low(8, r), bytes[i]);
      i := i + 1;
      r := Shr(r, 8);
      r := Xor(r, table[ToNat(index)]);
    }
    ByteStepsNext(Form(false, true), order, p, r, bytes, i);
  }

  method ReflectedAugmentedCrcUpdate(order: nat, p: Word, remainder: Word, bytes: seq<Byte>) returns (r: Word)
    requires 8 <= order <= |p| == |remainder|
    ensures r == ByteSteps(Form(true, true), order, p, remainder, bytes)
  {
    hide *;
    var table := GetByteTable(order, p, true);
    r := remainder;
    var i := 0;
    ByteStepsNext(Form(true, true), order, p, r, bytes, 0);
    while i < |bytes|
      invariant 0 <= i <= |bytes| && |r| == |p| && IsTable(table[..], order, p, true)
      invariant ByteSteps(Form(true, true), order, p, r, bytes[i..])
             == ByteSteps(Form(true, true), order, p, remainder, bytes)
    {
      ByteStepsNext(Form(true, true), order, p, r, bytes, i);
      TurnIsByteStep(order, p, r, bytes[i], table[..], true);
      var index: Byte := Low(8, r);
      r := Shr(r, 8);
      r := Or(r, Shl(Resize(bytes[i], |r|), order - 8));
      i := i + 1;
      r := Xor(r, table[ToNat(index)]);
    }
    ByteStepsNext(Form(true, true), order, p, r, bytes, i);
  }

  // ----- What the byte-wise loops compute -----

  /** The bits of a byte sequence in the order in which division consumes them. */
  function MessageBits(bytes: seq<Byte>, reflect: bool): (m: Word)
    ensures |m| == 8 * |bytes|
  {
    if bytes == [] then [] else InputBits(bytes[0], 8, reflect) + MessageBits(bytes[1..], reflect)
  }

  /** Byte by byte, each from its highest bit down, or up if input is reflected. */
  lemma {:induction false} MessageBitAt(bytes: seq<Byte>, reflect: bool, i: nat, j: nat)
    requires i < |bytes| && j < 8
    ensures MessageBits(bytes, reflect)[8 * i + j] == bytes[i][if reflect then 7 - j else j]
    decreases i
  {
    hide InputBits;
    var first, rest := InputBits(bytes[0], 8, reflect), MessageBits(bytes[1..], reflect);
    assert MessageBits(bytes, reflect) == first + rest;
    if i > 0 {
      MessageBitAt(bytes[1..], reflect, i - 1, j);
      assert (first + rest)[8 * i + j] == rest[8 * (i - 1) + j];
    } else {
      InputBitAt(bytes[0], reflect, j);
    }
  }

  lemma InputBitAt(b: Byte, reflect: bool, j: nat)
    requires j < 8
    ensures InputBits(b, 8, reflect)[j] == b[if reflect then 7 - j else j]
  {
    assert Low(8, b) == b;
  }

  function Divide(augmented: bool, r: Word, p: Word, m: Word): (s: Word)
    requires |r| == |p| > 0
    ensures |s| == |p|
  {
    if augmented then AugRun(r, p, m) else Run(r, p, m)
  }

  lemma DivideAppend(augmented: bool, r: Word, p: Word, a: Word, b: Word)
    requires |r| == |p| > 0
    ensures Divide(augmented, r, p, a + b) == Divide(augmented, Divide(augmented, r, p, a), p, b)
    ensures Divide(augmented, r, p, []) == r
  {
    if augmented { AugRunAppend(r, p, a, b); } else { RunAppend(r, p, a, b); }
  }

  /** The leading byte of the significant part, and the part once that byte has left. */
  lemma DirectParts(order: nat, r: Word, byte: Byte)
    requires 8 <= order <= |r|
    ensures Low(8, Shr(r, order - 8)) == Low(order, r)[..8]
    ensures Low(order, Shl(r, 8)) == Shl(Low(order, r), 8)
    ensures Low(order, Or(Shl(r, 8), Resize(byte, |r|))) == Low(order, r)[8..] + byte
  {
    var x, y := Or(Shl(r, 8), Resize(byte, |r|)), Low(order, r)[8..] + byte;
    assert Low(order, x) == y;
  }

  lemma LowEntry(order: nat, p: Word, x: Word)
    requires 0 < order <= |p|
    ensures Low(order, Entry(order, p, false, x)) == Run(Zeros(order), Low(order, p), x)
  {
    LowRegRun(order, Zeros(|p|), p, x);
    assert Low(order, Zeros(|p|)) == Zeros(order);
  }

  /** A direct table step is eight bit-level division steps on the significant bits, whatever lies above them. */
  lemma DirectByte(augmented: bool, order: nat, p: Word, r: Word, byte: Byte)
    requires 8 <= order <= |p| == |r|
    ensures Low(order, ByteStep(Form(augmented, false), order, p, r, byte))
         == Divide(augmented, Low(order, r), Low(order, p), byte)
  {
    var lead: Byte := Low(8, Shr(r, order - 8));
    DirectParts(order, r, byte);
    if augmented {
      LowXor(order, Or(Shl(r, 8), Resize(byte, |r|)), Entry(order, p, false, lead));
      LowEntry(order, p, lead);
      AugRunByTable(Low(order, r), Low(order, p), byte);
    } else {
      LowXor(order, Shl(r, 8), Entry(order, p, false, Xor(lead, byte)));
      LowEntry(order, p, Xor(lead, byte));
      RunByTable(Low(order, r), Low(order, p), byte);
    }
  }

  lemma {:induction false} DirectIsDivision(augmented: bool, order: nat, p: Word, r: Word, bytes: seq<Byte>)
    requires 8 <= order <= |p| == |r|
    ensures Low(order, ByteSteps(Form(augmented, false), order, p, r, bytes))
         == Divide(augmented, Low(order, r), Low(order, p), MessageBits(bytes, false))
    decreases |bytes|
  {
    if bytes != [] {
      DirectByte(augmented, order, p, r, bytes[0]);
      assert InputBits(bytes[0], 8, false) == bytes[0];
      DirectIsDivision(augmented, order, p, ByteStep(Form(augmented, false), order, p, r, bytes[0]), bytes[1..]);
      DivideAppend(augmented, Low(order, r), Low(order, p), bytes[0], MessageBits(bytes[1..], false));
    }
  }

  // ----- The reflected loop is the mirror image of the direct one -----

  /** The mirror image of the significant part. */
  function Mirror(order: nat, r: Word): (w: Word)
    requires order <= |r|
    ensures |w| == order
  {
    Reverse(Low(order, r))
  }

  lemma MirrorEntry(order: nat, p: Word, x: Word)
    requires 0 < order <= |p|
    ensures Mirror(order, Entry(order, p, true, x)) == Run(Zeros(order), Low(order, p), Reverse(x))
    ensures High(order, Entry(order, p, true, x)) == High(order, RegRun(order, Zeros(|p|), p, Reverse(x)))
    ensures Clean(order, RegRun(order, Zeros(|p|), p, Reverse(x))) ==>
      High(order, Entry(order, p, true, x)) == Zeros(|p| - order)
  {
    var e := RegRun(order, Zeros(|p|), p, Reverse(x));
    ReflectInvolution(order, e);
    ReverseReverse(Low(order, e));
    LowRegRun(order, Zeros(|p|), p, Reverse(x));
    assert Low(order, Zeros(|p|)) == Zeros(order);
  }

  /** On a clean register the reflected shifts mirror the direct ones. */
  lemma ReflectedParts(order: nat, r: Word, byte: Byte)
    requires 8 <= order <= |r| && Clean(order, r)
    ensures Reverse(Low(8, r)) == Mirror(order, r)[..8]
    ensures Mirror(order, Shr(r, 8)) == Shl(Mirror(order, r), 8) && Clean(order, Shr(r, 8))
    ensures Mirror(order, Or(Shr(r, 8), Shl(Resize(byte, |r|), order - 8))) == Mirror(order, r)[8..] + Reverse(byte)
  {
    var w, m := |r|, Mirror(order, r);
    forall i | 0 <= i < w - order ensures !r[i] { assert High(order, r)[i] == r[i]; }
    assert Mirror(order, Shr(r, 8)) == Shl(m, 8);
    IncomingByte(order, r, byte);
  }

  /** A byte placed at the top of the significant part. */
  lemma TopByte(order: nat, width: nat, byte: Byte)
    requires 8 <= order <= width
    ensures Low(order, Shl(Resize(byte, width), order - 8)) == byte + Zeros(order - 8)
  {
    var y := Resize(byte, width);
    assert y[width - 8..] == byte;
    var b := Shl(y, order - 8);
    forall i | 0 <= i < order ensures Low(order, b)[i] == (byte + Zeros(order - 8))[i] {
      assert Low(order, b)[i] == b[width - order + i];
      if i < 8 { assert b[width - order + i] == y[width - 8 + i] == y[width - 8..][i]; }
    }
  }

  lemma IncomingByte(order: nat, r: Word, byte: Byte)
    requires 8 <= order <= |r| && forall i :: 0 <= i < |r| - order ==> !r[i]
    ensures Mirror(order, Or(Shr(r, 8), Shl(Resize(byte, |r|), order - 8))) == Mirror(order, r)[8..] + Reverse(byte)
  {
    var s, b := Shr(r, 8), Shl(Resize(byte, |r|), order - 8);
    TopByte(order, |r|, byte);
    assert Low(order, s) == Zeros(8) + Low(order, r)[..order - 8];
    assert Low(order, Or(s, b)) == Or(Low(order, s), Low(order, b));
    assert Or(Zeros(8) + Low(order, r)[..order - 8], byte + Zeros(order - 8)) == byte + Low(order, r)[..order - 8];
    ReverseAppend(byte, Low(order, r)[..order - 8]);
    assert Reverse(Low(order, r)[..order - 8]) == Mirror(order, r)[8..];
  }

  /** A reflected table step on a clean register mirrors the bit-level division of the reflected byte. */
  lemma ReflectedByte(augmented: bool, order: nat, p: Word, r: Word, byte: Byte)
    requires 8 <= order <= |p| == |r| && Clean(order, r)
    ensures Mirror(order, ByteStep(Form(augmented, true), order, p, r, byte))
         == Divide(augmented, Mirror(order, r), Low(order, p), Reverse(byte))
  {
    var lead: Byte := Low(8, r);
    ReflectedParts(order, r, byte);
    if augmented {
      MirrorXor(order, Or(Shr(r, 8), Shl(Resize(byte, |r|), order - 8)), Entry(order, p, true, lead));
      MirrorEntry(order, p, lead);
      AugRunByTable(Mirror(order, r), Low(order, p), Reverse(byte));
    } else {
      MirrorXor(order, Shr(r, 8), Entry(order, p, true, Xor(lead, byte)));
      MirrorEntry(order, p, Xor(lead, byte));
      ReverseXor(lead, byte);
      RunByTable(Mirror(order, r), Low(order, p), Reverse(byte));
    }
  }

  lemma MirrorXor(order: nat, a: Word, b: Word)
    requires order <= |a| == |b|
    ensures Mirror(order, Xor(a, b)) == Xor(Mirror(order, a), Mirror(order, b))
  {
    LowXor(order, a, b);
    ReverseXor(Low(order, a), Low(order, b));
  }

  // ----- When the reflected loop is right -----

  /** The register has no room above the divisor's order, or the divisor's leading coefficient is spelled out there
      (and nothing above it), although callers are told to omit it. */
  predicate SpelledOut(order: nat, p: Word)
    requires order <= |p|
  {
    order < |p| ==> High(order, p) == Zeros(|p| - order - 1) + [true]
  }

  lemma StepStaysClean(order: nat, r: Word, p: Word, b: bool)
    requires 0 < order <= |r| == |p| && Clean(order, r) && SpelledOut(order, p)
    ensures Clean(order, RegStep(order, r, p, b))
  {
    var x, w := if b then Xor(r, OneHot(|r|, order - 1)) else r, |r|;
    var s := Shl(x, 1);
    assert forall i :: 0 <= i < w - order ==> !x[i] by {
      assert forall i :: 0 <= i < w - order ==> r[i] == High(order, r)[i];
    }
    assert forall i :: 0 <= i < w - order ==> s[i] == (i == w - order - 1 && x[w - order]);
    assert forall i :: 0 <= i < w - order ==> p[i] == (i == w - order - 1) by {
      assert forall i :: 0 <= i < w - order ==> p[i] == High(order, p)[i];
    }
    var y := RegStep(order, r, p, b);
    assert forall i :: 0 <= i < w - order ==> !y[i];
    assert High(order, y) == Zeros(w - order);
  }

  lemma {:induction false} RunStaysClean(order: nat, r: Word, p: Word, m: Word)
    requires 0 < order <= |r| == |p| && Clean(order, r) && SpelledOut(order, p)
    ensures Clean(order, RegRun(order, r, p, m))
    decreases |m|
  {
    if m != [] {
      StepStaysClean(order, r, p, m[0]);
      RunStaysClean(order, RegStep(order, r, p, m[0]), p, m[1..]);
    }
  }

  lemma ReflectedStaysClean(augmented: bool, order: nat, p: Word, r: Word, byte: Byte)
    requires 8 <= order <= |p| == |r| && Clean(order, r) && SpelledOut(order, p)
    ensures Clean(order, ByteStep(Form(augmented, true), order, p, r, byte))
  {
    hide *;
    var s, x := ReflectedStep(augmented, order, p, r, byte);
    ZeroIsClean(order, |p|);
    RunStaysClean(order, Zeros(|p|), p, Reverse(x));
    MirrorEntry(order, p, x);
    ShiftedClean(order, r, byte);
    CleanXor(order, s, Entry(order, p, true, x));
  }

  /** A reflected step taken apart: the moved register and the index of the mask. */
  lemma ReflectedStep(augmented: bool, order: nat, p: Word, r: Word, byte: Byte) returns (s: Word, x: Byte)
    requires 8 <= order <= |p| == |r|
    ensures |s| == |r| && ByteStep(Form(augmented, true), order, p, r, byte) == Xor(s, Entry(order, p, true, x))
    ensures s == if augmented then Or(Shr(r, 8), Shl(Resize(byte, |r|), order - 8)) else Shr(r, 8)
    ensures x == if augmented then Low(8, r) else Xor(Low(8, r), byte)
  {
    s := if augmented then Or(Shr(r, 8), Shl(Resize(byte, |r|), order - 8)) else Shr(r, 8);
    x := if augmented then Low(8, r) else Xor(Low(8, r), byte);
  }

  lemma ZeroIsClean(order: nat, width: nat)
    requires order <= width
    ensures Clean(order, Zeros(width))
  {
    assert High(order, Zeros(width)) == Zeros(width - order);
  }

  lemma CleanBits(order: nat, r: Word)
    requires order <= |r|
    ensures Clean(order, r) <==> forall i :: 0 <= i < |r| - order ==> !r[i]
  {
    var h := High(order, r);
    if Clean(order, r) {
      forall i | 0 <= i < |r| - order ensures !r[i] { assert h[i] == r[i]; }
    }
    if forall i :: 0 <= i < |r| - order ==> !r[i] { assert h == Zeros(|r| - order); }
  }

  lemma CleanXor(order: nat, s: Word, e: Word)
    requires order <= |s| == |e| && Clean(order, s)
    ensures Clean(order, Xor(s, e)) <==> High(order, e) == Zeros(|e| - order)
  {
    LowXor(order, s, e);
    XorZeros(High(order, e));
  }

  lemma ShiftedClean(order: nat, r: Word, byte: Byte)
    requires 8 <= order <= |r| && Clean(order, r)
    ensures Clean(order, Shr(r, 8)) && Clean(order, Or(Shr(r, 8), Shl(Resize(byte, |r|), order - 8)))
  {
    var w := |r|;
    var s, b := Shr(r, 8), Shl(Resize(byte, w), order - 8);
    assert forall i :: 0 <= i < w - order ==> !r[i] by {
      assert forall i :: 0 <= i < w - order ==> r[i] == High(order, r)[i];
    }
    assert forall i :: 0 <= i < w - order ==> !s[i];
    assert forall i :: 0 <= i < w - order ==> !b[i];
    assert High(order, s) == Zeros(w - order);
    assert High(order, Or(s, b)) == Zeros(w - order);
  }

  lemma {:induction false} ReflectedIsDivision(augmented: bool, order: nat, p: Word, r: Word, bytes: seq<Byte>)
    requires 8 <= order <= |p| == |r| && Clean(order, r) && SpelledOut(order, p)
    ensures var s := ByteSteps(Form(augmented, true), order, p, r, bytes);
            && Clean(order, s)
            && Mirror(order, s) == Divide(augmented, Mirror(order, r), Low(order, p), MessageBits(bytes, true))
    decreases |bytes|
  {
    hide *;
    ByteStepsNext(Form(augmented, true), order, p, r, bytes, 0);
    MessageNext(bytes, true);
    DivideAppend(augmented, Mirror(order, r), Low(order, p), [], []);
    if bytes != [] {
      var s, m := ByteStep(Form(augmented, true), order, p, r, bytes[0]), MessageBits(bytes[1..], true);
      ReflectedByte(augmented, order, p, r, bytes[0]);
      ReflectedStaysClean(augmented, order, p, r, bytes[0]);
      ReflectedIsDivision(augmented, order, p, s, bytes[1..]);
      DivideAppend(augmented, Mirror(order, r), Low(order, p), Reverse(bytes[0]), m);
    }
  }

  /** Every byte reflected. */
  function ReflectedBytes(bytes: seq<Byte>): (s: seq<Byte>)
    ensures |s| == |bytes|
  {
    seq(|bytes|, i requires 0 <= i < |bytes| => Reverse(bytes[i]))
  }

  lemma ReflectedBytesNext(bytes: seq<Byte>)
    requires bytes != []
    ensures ReflectedBytes(bytes)[0] == Reverse(bytes[0]) && ReflectedBytes(bytes)[1..] == ReflectedBytes(bytes[1..])
  {
    hide Reverse;
  }

  lemma {:induction false} ReflectedMessage(bytes: seq<Byte>)
    ensures MessageBits(bytes, true) == MessageBits(ReflectedBytes(bytes), false)
    decreases |bytes|
  {
    hide *;
    MessageNext(bytes, true);
    MessageNext(ReflectedBytes(bytes), false);
    if bytes != [] {
      ReflectedMessage(bytes[1..]);
      ReflectedBytesNext(bytes);
    }
  }

  /** The reflected loop on mirrored contents is the mirror image of the direct loop on reflected bytes. */
  lemma ReflectedMirrorsDirect(augmented: bool, order: nat, p: Word, r: Word, r': Word, bytes: seq<Byte>)
    requires 8 <= order <= |p| == |r| == |r'| && Clean(order, r') && SpelledOut(order, p)
    requires Low(order, r') == Mirror(order, r)
    ensures Low(order, ByteSteps(Form(augmented, true), order, p, r', bytes))
         == Mirror(order, ByteSteps(Form(augmented, false), order, p, r, ReflectedBytes(bytes)))
  {
    hide ByteSteps, Low, Reverse, Divide;
    ReflectedIsDivision(augmented, order, p, r', bytes);
    DirectIsDivision(augmented, order, p, r, ReflectedBytes(bytes));
    ReflectedMessage(bytes);
    ReverseReverse(Low(order, r));
    ReverseReverse(Low(order, ByteSteps(Form(augmented, true), order, p, r', bytes)));
  }

  lemma MessageNext(bytes: seq<Byte>, reflect: bool)
    ensures bytes == [] ==> MessageBits(bytes, reflect) == []
    ensures bytes != [] ==>
      MessageBits(bytes, reflect)
      == (if reflect then Reverse(bytes[0]) else bytes[0]) + MessageBits(bytes[1..], reflect)
  {
    if bytes != [] { assert Low(8, bytes[0]) == bytes[0]; }
  }
}
