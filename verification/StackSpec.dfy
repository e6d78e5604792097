/** The guest stack as a byte string, the byte at the stack pointer first, and as a stack
    of values of mixed widths. The first is what the code maintains; the second is what
    a program pushing and popping values expects. */
module StackSpec {
  import opened Words
  import opened RegisterFile
  import opened CpuArithmetic

  datatype StackOp = Push(value: u32, width: FEBitWidth) | Pop(width: FEBitWidth)

  /** An 8-bit value goes on the stack as a 32-bit word. */
  function Moved(width: FEBitWidth): (n: nat)
    ensures n == 2 || n == 4
  {
    if width == k16bit then 2 else 4
  }

  /** What a push of `value` leaves on the stack: an 8-bit value extended by its sign. */
  function Word(value: u32, width: FEBitWidth): u32 {
    match width
    case k32bit => value
    case k16bit => value % 0x1_0000
    case k8bit => Wrap32(ToSigned(value, k8bit))
  }

  function PushedBytes(value: u32, width: FEBitWidth): (s: seq<byte>)
    ensures |s| == Moved(width)
  {
    LeBytes(Word(value, width), Moved(width))
  }

  /** Read back as a signed word, an 8-bit value pushed is the signed byte it was. */
  lemma BytePushedIsSignExtended(value: u32)
    ensures ToSigned(Word(value, k8bit), k32bit) == ToSigned(value, k8bit)
  {}

  /** The bytes a push stores, lowest address first: four or two bytes of the value, or its low
      byte and three copies of its sign. */
  lemma PushedBytesAre(value: u32)
    ensures PushedBytes(value, k32bit)
            == [value % 0x100, value / 0x100 % 0x100, value / 0x1_0000 % 0x100, value / 0x100_0000]
    ensures PushedBytes(value, k16bit) == [value % 0x100, value / 0x100 % 0x100]
    ensures var sign: byte := if value % 0x100 < 0x80 then 0 else 0xff;
            PushedBytes(value, k8bit) == [value % 0x100, sign, sign, sign]
  {
    hide LeBytes;
    var b0, b1, b2, b3 := value % 0x100, value / 0x100 % 0x100, value / 0x1_0000 % 0x100, value / 0x100_0000;
    FourBytes(value);
    BytesOfJoin(b0, b1, b2, b3);
    LowByteTwice(value);
    BytesOfValue(value % 0x1_0000);
    var sign: byte := if value % 0x100 < 0x80 then 0 else 0xff;
    SignExtension(value);
    BytesOfJoin(b0, sign, sign, sign);
  }

  lemma FourBytes(v: u32)
    ensures v == Join(v % 0x100, v / 0x100 % 0x100, v / 0x1_0000 % 0x100, v / 0x100_0000)
  {
    var w := v / 0x100;
    var x := w / 0x100;
    assert x == v / 0x1_0000 && x / 0x100 == v / 0x100_0000;
  }

  lemma SignExtension(value: u32)
    ensures Word(value, k8bit) == Extended(value)
  {}

  /** The low byte of a value extended to 32 bits by its sign. */
  function Extended(value: u32): u32 {
    if value % 0x100 < 0x80 then value % 0x100 else 0xffff_ff00 + value % 0x100
  }

  // ----- The stack as bytes

  /** A push leaves at least one of the `size` bytes of the stack unused; a pop finds its
      bytes. */
  predicate Enabled(size: int, s: seq<byte>, op: StackOp) {
    match op
    case Push(_, width) => |s| + Moved(width) < size
    case Pop(width) => width != k8bit && Moved(width) <= |s|
  }

  function Step(s: seq<byte>, op: StackOp): seq<byte> {
    match op
    case Push(value, width) => PushedBytes(value, width) + s
    case Pop(width) => if Moved(width) <= |s| then s[Moved(width)..] else []
  }

  /** The value an operation returns, if any. */
  function Output(s: seq<byte>, op: StackOp): seq<nat> {
    match op
    case Push(_, _) => []
    case Pop(width) => if Moved(width) <= |s| then [LeValue(s[..Moved(width)])] else []
  }

  predicate Run(size: int, s: seq<byte>, ops: seq<StackOp>)
    decreases |ops|
  {
    ops == [] || (Enabled(size, s, ops[0]) && Run(size, Step(s, ops[0]), ops[1..]))
  }

  function After(s: seq<byte>, ops: seq<StackOp>): seq<byte>
    decreases |ops|
  {
    if ops == [] then s else After(Step(s, ops[0]), ops[1..])
  }

  function Outputs(s: seq<byte>, ops: seq<StackOp>): seq<nat>
    decreases |ops|
  {
    if ops == [] then [] else Output(s, ops[0]) + Outputs(Step(s, ops[0]), ops[1..])
  }

  lemma {:induction false} AfterConcat(s: seq<byte>, ops: seq<StackOp>, more: seq<StackOp>)
    ensures After(s, ops + more) == After(After(s, ops), more)
    ensures Outputs(s, ops + more) == Outputs(s, ops) + Outputs(After(s, ops), more)
    decreases |ops|
  {
    if ops == [] {
      assert ops + more == more;
    } else {
      assert (ops + more)[1..] == ops[1..] + more;
      AfterConcat(Step(s, ops[0]), ops[1..], more);
    }
  }

  // ----- The stack as values

  /** A value on the stack and the number of bytes it takes. */
  datatype Item = Item(value: nat, bytes: nat) {
    predicate Ok() { value < Pow2(8 * bytes) }
  }

  /** Every pop finds on top a value of its own width. */
  predicate Typed(items: seq<Item>, ops: seq<StackOp>)
    decreases |ops|
  {
    ops == [] || (CanDo(items, ops[0]) && Typed(Do(items, ops[0]), ops[1..]))
  }

  predicate CanDo(items: seq<Item>, op: StackOp) {
    op.Pop? ==> op.width != k8bit && items != [] && items[0].bytes == Moved(op.width)
  }

  /** A push adds the whole value, its low half, or its low byte extended by its sign. */
  function Do(items: seq<Item>, op: StackOp): seq<Item> {
    match op
    case Push(value, k32bit) => [Item(value, 4)] + items
    case Push(value, k16bit) => [Item(value % 0x1_0000, 2)] + items
    case Push(value, k8bit) => [Item(Extended(value), 4)] + items
    case Pop(_) => if items == [] then [] else items[1..]
  }

  function Popped(items: seq<Item>, op: StackOp): seq<nat> {
    match op
    case Push(_, _) => []
    case Pop(_) => if items == [] then [] else [items[0].value]
  }

  function ItemsAfter(items: seq<Item>, ops: seq<StackOp>): seq<Item>
    decreases |ops|
  {
    if ops == [] then items else ItemsAfter(Do(items, ops[0]), ops[1..])
  }

  function ValuesPopped(items: seq<Item>, ops: seq<StackOp>): seq<nat>
    decreases |ops|
  {
    if ops == [] then [] else Popped(items, ops[0]) + ValuesPopped(Do(items, ops[0]), ops[1..])
  }

  predicate AllOk(items: seq<Item>) { forall i :: 0 <= i < |items| ==> items[i].Ok() }

  function Bytes(items: seq<Item>): seq<byte> {
    if items == [] then [] else LeBytes(items[0].value, items[0].bytes) + Bytes(items[1..])
  }

  // ----- The byte stack is a stack of values

  lemma StepIsDo(items: seq<Item>, below: seq<byte>, op: StackOp)
    requires AllOk(items) && CanDo(items, op)
    ensures AllOk(Do(items, op)) && Step(Bytes(items) + below, op) == Bytes(Do(items, op)) + below
    ensures Output(Bytes(items) + below, op) == Popped(items, op)
  {
    hide LeBytes, LeValue;
    var s := Bytes(items) + below;
    match op
    case Push(value, width) =>
      WordFits(value, width);
      SignExtension(value);
      assert Do(items, op) == [Item(Word(value, width), Moved(width))] + items;
      assert Do(items, op)[1..] == items;
      assert PushedBytes(value, width) + s == (PushedBytes(value, width) + Bytes(items)) + below;
    case Pop(width) =>
      var n, top := Moved(width), items[0];
      assert s[..n] == LeBytes(top.value, n) && s[n..] == Bytes(items[1..]) + below;
      LoadAfterStore(top.value, n);
  }

  lemma WordFits(value: u32, width: FEBitWidth)
    ensures Word(value, width) < Pow2(8 * Moved(width))
  {
    Pow2Of32();
  }

  /** Any mixed run in which each pop has the width of the value on top returns exactly the
      values a stack returns, whatever bytes lie below, and leaves those bytes alone. */
  lemma {:induction false} MixedRunIsLifo(items: seq<Item>, below: seq<byte>, ops: seq<StackOp>)
    requires AllOk(items) && Typed(items, ops)
    ensures After(Bytes(items) + below, ops) == Bytes(ItemsAfter(items, ops)) + below
    ensures Outputs(Bytes(items) + below, ops) == ValuesPopped(items, ops)
    decreases |ops|
  {
    hide Bytes, Do, Step, Output, Popped;
    if ops != [] {
      StepIsDo(items, below, ops[0]);
      MixedRunIsLifo(Do(items, ops[0]), below, ops[1..]);
    }
  }

  /** A value pushed comes back after any run that leaves the stack as it found it. */
  lemma PopReturnsPushed(s: seq<byte>, value: u32, width: FEBitWidth, ops: seq<StackOp>, width': FEBitWidth)
    requires Typed([], ops) && ItemsAfter([], ops) == []
    requires width' != k8bit && Moved(width') == Moved(width)
    ensures After(s, [Push(value, width)] + ops + [Pop(width')]) == s
    ensures Outputs(s, [Push(value, width)] + ops + [Pop(width')])
            == ValuesPopped([], ops)
               + [match width
                  case k32bit => value
                  case k16bit => value % 0x1_0000
                  case k8bit => if value % 0x100 < 0x80 then value % 0x100 else 0xffff_ff00 + value % 0x100]
  {
    SignExtension(value);
    var push, pop := Push(value, width), Pop(width');
    var s' := PushedBytes(value, width) + s;
    assert Step(s, push) == s';
    MixedRunIsLifo([], s', ops);
    assert Bytes([]) + s' == s';
    var n := Moved(width);
    assert s'[..n] == PushedBytes(value, width) && s'[n..] == s;
    WordFits(value, width);
    LoadAfterStore(Word(value, width), n);
    assert ([push] + ops + [pop]) == [push] + (ops + [pop]);
    AfterConcat(s', ops, [pop]);
    assert ([push] + (ops + [pop]))[1..] == ops + [pop];
    assert After(s', [pop]) == s && Outputs(s', [pop]) == [Word(value, width)];
  }

  /** Two 16-bit pops take apart a 32-bit word, the low half first. */
  lemma HalvesOfWord(s: seq<byte>, value: u32)
    ensures Outputs(s, [Push(value, k32bit), Pop(k16bit), Pop(k16bit)]) == [value % 0x1_0000, value / 0x1_0000]
    ensures After(s, [Push(value, k32bit), Pop(k16bit), Pop(k16bit)]) == s
  {
    hide LeBytes, LeValue, Pow2;
    var lo, hi := value % 0x1_0000, value / 0x1_0000;
    var ops := [Push(value, k32bit), Pop(k16bit), Pop(k16bit)];
    var items := [Item(lo, 2), Item(hi, 2)];
    Pow2Of32();
    LeBytesConcat(lo, 2, hi, 2);
    assert items[1..] == [Item(hi, 2)] && items[1..][1..] == [];
    assert Bytes(items[1..]) == LeBytes(hi, 2) + Bytes([]);
    assert Bytes(items) == LeBytes(value, 4);
    assert Step(s, ops[0]) == Bytes(items) + s;
    MixedRunIsLifo(items, s, [Pop(k16bit), Pop(k16bit)]);
    assert ops[1..] == [Pop(k16bit), Pop(k16bit)] && ops[1..][1..] == [Pop(k16bit)] && ops[1..][1..][1..] == [];
    assert ValuesPopped(items, ops[1..]) == [lo] + ValuesPopped(items[1..], [Pop(k16bit)]);
    assert Bytes([]) + s == s;
  }

  // ----- The check a pop makes

  /** A pop checks that the stack is not empty, not that it holds what it reads. */
  predicate PopGuard(s: seq<byte>) { s != [] }

  /** Every operation moves an even number of bytes. */
  lemma {:induction false} DepthStaysEven(size: int, s: seq<byte>, ops: seq<StackOp>)
    requires |s| % 2 == 0 && Run(size, s, ops)
    ensures |After(s, ops)| % 2 == 0
    decreases |ops|
  {
    if ops != [] {
      DepthStaysEven(size, Step(s, ops[0]), ops[1..]);
    }
  }

  /** So after any run from an empty stack the check keeps a pop inside the stack except in
      one case: a 32-bit pop when a single 16-bit value is left. */
  lemma GuardKeepsPopInside(size: int, ops: seq<StackOp>, width: FEBitWidth)
    requires Run(size, [], ops)
    ensures var s := After([], ops);
            (PopGuard(s) ==> Moved(width) <= |s|) <==> !(Moved(width) == 4 && |s| == 2)
  {
    DepthStaysEven(size, [], ops);
  }

  /** That case arises: after one 16-bit push the check lets a 32-bit pop through. */
  lemma GuardMissesHalfWord(value: u32)
    ensures var ops := [Push(value, k16bit)];
            && Run(8 * 1024, [], ops) && PopGuard(After([], ops))
            && !Enabled(8 * 1024, After([], ops), Pop(k32bit))
  {
    var ops := [Push(value, k16bit)];
    assert ops[1..] == [];
    assert After([], ops) == PushedBytes(value, k16bit) + [];
  }
}
