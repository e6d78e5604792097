/** The x87 registers: eight slots used as a ring whose top is kept in bits 11 to 13 of
    the status word, so that ST(i) names slot (top + i) mod 8. */
module FEFPUs {
  import opened Words

  // ----- Masks on 16-bit words

  function And16(x: u16, y: u16): u16 { Pow2Of32(); Bitwise(Both, x, y, 16) }
  function Or16(x: u16, y: u16): u16 { Pow2Of32(); Bitwise(Either, x, y, 16) }
  function Not16(x: u16): u16 { 0xffff - x }

  /** `(statusWord >> 11) & 7` */
  function TopBits(statusWord: u16): u16 { And16(statusWord / 0x800, 7) }

  /** `(statusWord & ~(7 << 11)) | ((top & 7) << 11)` */
  function WithTopBits(statusWord: u16, top: u16): u16 {
    MaskSeven(top);
    Or16(And16(statusWord, Not16(0x3800)), And16(top, 7) * 0x800)
  }

  // ----- The status word as three fields: 11 low bits, the top of the ring, 2 high bits

  function Low(w: u16): (l: nat)
    ensures l < 0x800
  {
    w % 0x800
  }

  function Top(w: u16): (t: nat)
    ensures t < 8
  {
    w / 0x800 % 8
  }

  function High(w: u16): (h: nat)
    ensures h < 4
  {
    w / 0x4000
  }

  lemma Fields(w: u16)
    ensures w == Low(w) + 0x800 * (Top(w) + 8 * High(w))
  {}

  lemma FieldsOf(w: u16, low: nat, top: nat, high: nat)
    requires low < 0x800 && top < 8 && high < 4 && w == low + 0x800 * (top + 8 * high)
    ensures Low(w) == low && Top(w) == top && High(w) == high
  {}

  lemma MaskSeven(x: u16)
    ensures And16(x, 7) == x % 8
  {
    Powers();
    BitwiseSplit(Both, x % 8, x / 8, 7, 0, 3, 13);
    BitwiseWithOnes(x % 8, 3);
    BitwiseWithZero(x / 8, 13);
  }

  lemma Powers()
    ensures Pow2(2) == 4 && Pow2(3) == 8 && Pow2(5) == 32 && Pow2(11) == 0x800 && Pow2(13) == 0x2000
  {
    Pow2Add(3, 2);
    Pow2Add(3, 8);
    Pow2Add(5, 8);
    Pow2Of32();
  }

  /** The masks read and replace the middle field and nothing else. */
  lemma TopBitsIsTop(w: u16)
    ensures TopBits(w) == Top(w)
  {
    MaskSeven(w / 0x800);
  }

  lemma WithTopBitsSetsTop(w: u16, top: u16)
    ensures var r := WithTopBits(w, top);
            Top(r) == top % 8 && Low(r) == Low(w) && High(r) == High(w)
  {
    hide Low, Top, High, And16, Or16;
    Fields(w);
    MaskSeven(top);
    TopCleared(w, Low(w), Top(w), High(w));
    TopEntered(Low(w), top % 8, High(w));
    FieldsOf(WithTopBits(w, top), Low(w), top % 8, High(w));
  }

  lemma TopCleared(w: u16, low: nat, top: nat, high: nat)
    requires low < 0x800 && top < 8 && high < 4 && w == low + 0x800 * (top + 8 * high)
    ensures And16(w, Not16(0x3800)) == low + 0x800 * (8 * high)
  {
    hide Bitwise, Pow2;
    Powers();
    BitwiseSplit(Both, low, top + 8 * high, 0x7ff, 0x18, 11, 5);
    BitwiseSplit(Both, top, high, 0, 3, 3, 2);
    BitwiseWithOnes(low, 11);
    BitwiseWithZero(top, 3);
    BitwiseWithOnes(high, 2);
  }

  lemma TopEntered(low: nat, top: nat, high: nat)
    requires low < 0x800 && top < 8 && high < 4
    ensures Or16(low + 0x800 * (8 * high), top * 0x800) == low + 0x800 * (top + 8 * high)
  {
    hide Bitwise, Pow2;
    Powers();
    BitwiseSplit(Either, low, 8 * high, 0, top, 11, 5);
    BitwiseSplit(Either, 0, high, top, 0, 3, 2);
    BitwiseWithZero(low, 11);
    BitwiseWithZero(top, 3);
    BitwiseWithZero(high, 2);
  }

  // ----- The tag word: two bits for each register

  /** `(tagWord & ~(3 << (2 * r))) | (tag << (2 * r))` */
  function WithTag(tagWord: u16, r: nat, tag: nat): u16
    requires r < 8 && tag < 4
  {
    TagFits(r, 3);
    TagFits(r, tag);
    Or16(And16(tagWord, Not16(Pow2(2 * r) * 3)), Pow2(2 * r) * tag)
  }

  lemma TagFits(r: nat, tag: nat)
    requires r < 8 && tag < 4
    ensures 0 <= Pow2(2 * r) * tag < 0x1_0000
  {
    Pow2Grows(2 * r, 14);
    Pow2Of32();
    MulGrows2(Pow2(2 * r), tag, 3);
  }

  /** Setting a tag replaces its two bits and no other. */
  lemma WithTagBits(tagWord: u16, r: nat, tag: nat, k: nat)
    requires r < 8 && tag < 4 && k < 16
    ensures Bit(WithTag(tagWord, r, tag), k)
            <==> if k == 2 * r then tag % 2 == 1 else if k == 2 * r + 1 then tag / 2 == 1 else Bit(tagWord, k)
  {
    hide Bitwise, Bit, Pow2;
    var mask, bits := Pow2(2 * r) * 3, Pow2(2 * r) * tag;
    TagFits(r, 3);
    TagFits(r, tag);
    Pow2Of32();
    BitwiseBits(Both, tagWord, Not16(mask), 16, k);
    BitwiseBits(Either, And16(tagWord, Not16(mask)), bits, 16, k);
    BitsOfComplement(mask, 16, k);
    BitsOfMultiple(3, 2 * r, k);
    BitsOfMultiple(tag, 2 * r, k);
    if 2 * r <= k {
      BitsOfTag(3, k - 2 * r);
      BitsOfTag(tag, k - 2 * r);
    }
  }

  lemma BitsOfTag(tag: nat, k: nat)
    requires tag < 4
    ensures Bit(tag, k) <==> if k == 0 then tag % 2 == 1 else k == 1 && tag / 2 == 1
  {
    if k > 1 {
      assert tag / 2 / 2 == 0;
      BitsOfZero(k - 2);
    }
  }

  lemma {:induction false} BitsOfZero(k: nat)
    ensures !Bit(0, k)
  {
    if k > 0 { BitsOfZero(k - 1); }
  }

  // ----- The ring

  /** The slot ST(i) names: (top + i) mod 8. */
  function Slot(top: nat, i: nat): (k: nat)
    requires top < 8 && i < 8
    ensures k < 8
  {
    if top + i > 7 then top + i - 8 else top + i
  }

  /** The ring as the x87 names see it: element i is ST(i). */
  function RingOf<V>(data: seq<V>, top: nat): (ring: seq<V>)
    requires |data| == 8 && top < 8
    ensures |ring| == 8
  {
    seq(8, (i: nat) requires i < 8 => data[Slot(top, i)])
  }

  /** What decrementing the top does to the names: ST(i) becomes ST(i + 1). */
  function Turned<V>(ring: seq<V>): seq<V>
    requires |ring| == 8
  {
    [ring[7]] + ring[..7]
  }

  /** What incrementing the top does to the names: ST(i) becomes ST(i - 1). */
  function TurnedBack<V>(ring: seq<V>): seq<V>
    requires |ring| == 8
  {
    ring[1..] + [ring[0]]
  }

  lemma RingTurns<V>(data: seq<V>, top: nat)
    requires |data| == 8 && top < 8
    ensures RingOf(data, Slot(top, 7)) == Turned(RingOf(data, top))
    ensures RingOf(data, Slot(top, 1)) == TurnedBack(RingOf(data, top))
  {}

  lemma RingUpdate<V>(data: seq<V>, top: nat, i: nat, v: V)
    requires |data| == 8 && top < 8 && i < 8
    ensures RingOf(data[Slot(top, i) := v], top) == RingOf(data, top)[i := v]
  {}

  class FEFPU<V(0)> {
    var controlWord: u16
    var statusWord: u16
    var tagWord: u16
    const data: array<V>

    ghost predicate Valid() { data.Length == 8 }

    ghost function Ring(): (ring: seq<V>)
      requires Valid()
      reads this, data
      ensures |ring| == 8
    {
      RingOf(data[..], Top(statusWord))
    }

    constructor ()
      ensures Valid() && fresh(data)
    {
      data := new V[8];
    }

    /** Resets the control, status and tag words. */
    method Fninit()
      requires Valid()
      modifies this
      ensures controlWord == 0x37f && statusWord == 0 && tagWord == 0xffff && Top(statusWord) == 0
    {
      controlWord, statusWord, tagWord := 0x37f, 0, 0xffff;
    }

    function TopOfStack(): (t: u16)
      reads this
      ensures t == Top(statusWord)
    {
      TopBitsIsTop(statusWord);
      hide TopBits, Top;
      TopBits(statusWord)
    }

    method SetTag(registerName: nat, tag: nat)
      requires registerName < 8 && tag < 4
      modifies this`tagWord
      ensures tagWord == WithTag(old(tagWord), registerName, tag)
    {
      tagWord := WithTag(tagWord, registerName, tag);
    }

    method DecrementTop()
      requires Valid()
      modifies this`statusWord, this`tagWord
      ensures Top(statusWord) == Slot(Top(old(statusWord)), 7)
      ensures Low(statusWord) == Low(old(statusWord)) && High(statusWord) == High(old(statusWord))
      ensures tagWord == if Top(old(statusWord)) == 0 then old(tagWord) else WithTag(old(tagWord), 0, 3)
      ensures Ring() == Turned(old(Ring()))
    {
      hide WithTopBits, WithTag, RingOf, Low, High, Top, Turned, TopBits;
      var top := TopOfStack();
      RingTurns(data[..], Top(statusWord));
      if top == 0 {
        top := 7;
      } else {
        SetTag(0, 3);
        top := top - 1;
      }
      WithTopBitsSetsTop(statusWord, top);
      statusWord := WithTopBits(statusWord, top);
    }

    method IncrementTop()
      requires Valid()
      modifies this`statusWord
      ensures Top(statusWord) == Slot(Top(old(statusWord)), 1)
      ensures Low(statusWord) == Low(old(statusWord)) && High(statusWord) == High(old(statusWord))
      ensures Ring() == TurnedBack(old(Ring()))
    {
      hide WithTopBits, RingOf, Low, High, Top, TurnedBack, TopBits;
      var top := TopOfStack();
      RingTurns(data[..], Top(statusWord));
      top := top + 1;
      if top > 7 {
        top := top - 8;
      }
      WithTopBitsSetsTop(statusWord, top);
      statusWord := WithTopBits(statusWord, top);
    }

    function Register(registerName: nat): (v: V)
      requires Valid() && registerName < 8
      reads this, data
      ensures v == Ring()[registerName]
    {
      var offset := registerName + TopOfStack();
      data[if offset > 7 then offset - 8 else offset]
    }

    method SetRegister(registerName: nat, value: V)
      requires Valid() && registerName < 8
      modifies this`tagWord, data
      ensures Ring() == old(Ring())[registerName := value]
      ensures tagWord == WithTag(old(tagWord), Slot(Top(statusWord), registerName), 0)
    {
      hide WithTag, RingOf, Top, TopBits;
      var offset := registerName + TopOfStack();
      if offset > 7 {
        offset := offset - 8;
      }
      RingUpdate(data[..], Top(statusWord), registerName, value);
      SetTag(offset, 0);
      data[offset] := value;
      assert data[..] == old(data[..])[offset := value];
    }
  }

  // ----- Pushing and popping: when the ring is a stack

  datatype FpuOp<V> = Push(value: V) | Pop

  /** Push decrements the top and sets ST(0); pop reads ST(0) and increments the top. */
  function RingAfter<V>(ring: seq<V>, op: FpuOp<V>): (r: seq<V>)
    requires |ring| == 8
    ensures |r| == 8
  {
    match op
    case Push(v) => Turned(ring)[0 := v]
    case Pop => TurnedBack(ring)
  }

  function RingReads<V>(ring: seq<V>, ops: seq<FpuOp<V>>): seq<V>
    requires |ring| == 8
    decreases |ops|
  {
    if ops == [] then []
    else (if ops[0].Pop? then [ring[0]] else []) + RingReads(RingAfter(ring, ops[0]), ops[1..])
  }

  /** The run pops no more than has been pushed. */
  predicate NeverPopsEmpty<V>(depth: nat, ops: seq<FpuOp<V>>)
    decreases |ops|
  {
    ops == [] ||
    match ops[0]
    case Push(_) => NeverPopsEmpty(depth + 1, ops[1..])
    case Pop => depth > 0 && NeverPopsEmpty(depth - 1, ops[1..])
  }

  /** What an unbounded stack returns. */
  function StackReads<V>(stack: seq<V>, ops: seq<FpuOp<V>>): seq<V>
    requires NeverPopsEmpty(|stack|, ops)
    decreases |ops|
  {
    if ops == [] then []
    else
      match ops[0]
      case Push(v) => StackReads([v] + stack, ops[1..])
      case Pop => [stack[0]] + StackReads(stack[1..], ops[1..])
  }

  /** Every pop finds a value the ring still holds. Of the values pushed and not popped, the
      ring holds the last `live`, at most eight. */
  predicate PopsLive<V>(live: nat, ops: seq<FpuOp<V>>)
    decreases |ops|
  {
    ops == [] ||
    match ops[0]
    case Push(_) => PopsLive(if live < 8 then live + 1 else 8, ops[1..])
    case Pop => live > 0 && PopsLive(live - 1, ops[1..])
  }

  function Pushes<V>(ops: seq<FpuOp<V>>): seq<V>
    decreases |ops|
  {
    if ops == [] then [] else (if ops[0].Push? then [ops[0].value] else []) + Pushes(ops[1..])
  }

  ghost predicate Distinct<V>(s: seq<V>) { forall i, j :: 0 <= i < j < |s| ==> s[i] != s[j] }

  /** The ring holds the first `live` values of the stack. */
  ghost predicate Holds<V>(ring: seq<V>, stack: seq<V>, live: nat)
    requires |ring| == 8
  {
    live <= 8 && live <= |stack| && ring[..live] == stack[..live]
  }

  /** None of the others is anywhere in the ring. */
  ghost predicate OthersLost<V>(ring: seq<V>, stack: seq<V>, live: nat)
    requires |ring| == 8
  {
    forall k, i :: live <= k < |stack| && 0 <= i < 8 ==> ring[i] != stack[k]
  }

  lemma PushKeeps<V>(ring: seq<V>, stack: seq<V>, live: nat, v: V, later: seq<V>)
    requires |ring| == 8 && Holds(ring, stack, live)
    ensures var live' := if live < 8 then live + 1 else 8;
            && Holds(RingAfter(ring, Push(v)), [v] + stack, live')
            && (OthersLost(ring, stack, live) && Distinct(stack + ([v] + later)) ==>
                  OthersLost(RingAfter(ring, Push(v)), [v] + stack, live') && Distinct([v] + stack + later))
  {
    var live', r, s := if live < 8 then live + 1 else 8, RingAfter(ring, Push(v)), [v] + stack;
    assert r == [v] + ring[..7];
    var all := stack + ([v] + later);
    assert forall k :: 0 <= k < |stack| ==> all[k] == stack[k];
    assert all[|stack|] == v;
    assert forall k :: 0 <= k < |later| ==> all[|stack| + 1 + k] == later[k];
    forall k, i | OthersLost(ring, stack, live) && Distinct(all) && live' <= k < |s| && 0 <= i < 8
      ensures r[i] != s[k]
    {
      if i > 0 && k == 8 && live == 8 {
        assert ring[i - 1] == ring[..8][i - 1] == stack[..8][i - 1];
      }
    }
  }

  lemma PopKeeps<V>(ring: seq<V>, stack: seq<V>, live: nat, later: seq<V>)
    requires |ring| == 8 && Holds(ring, stack, live) && 0 < live
    ensures ring[0] == stack[0] && Holds(RingAfter(ring, Pop), stack[1..], live - 1)
    ensures OthersLost(ring, stack, live) ==> OthersLost(RingAfter(ring, Pop), stack[1..], live - 1)
    ensures Distinct(stack + later) ==> Distinct(stack[1..] + later)
  {
    assert ring[0] == ring[..live][0] && stack[0] == stack[..live][0];
    assert ring[1..live] == ring[..live][1..] && stack[1..live] == stack[..live][1..];
    assert stack[1..] + later == (stack + later)[1..];
  }

  lemma {:induction false} RunReads<V>(ring: seq<V>, stack: seq<V>, live: nat, ops: seq<FpuOp<V>>)
    requires |ring| == 8 && NeverPopsEmpty(|stack|, ops) && Holds(ring, stack, live)
    ensures PopsLive(live, ops) ==> RingReads(ring, ops) == StackReads(stack, ops)
    ensures OthersLost(ring, stack, live) && Distinct(stack + Pushes(ops)) ==>
              RingReads(ring, ops) == StackReads(stack, ops) ==> PopsLive(live, ops)
    decreases |ops|
  {
    hide Holds, OthersLost, Distinct, RingAfter;
    if ops != [] {
      var later := Pushes(ops[1..]);
      if ops[0].Push? {
        var v := ops[0].value;
        PushKeeps(ring, stack, live, v, later);
        RunReads(RingAfter(ring, ops[0]), [v] + stack, if live < 8 then live + 1 else 8, ops[1..]);
      } else if live > 0 {
        assert Pushes(ops) == later;
        PopKeeps(ring, stack, live, later);
        RunReads(RingAfter(ring, ops[0]), stack[1..], live - 1, ops[1..]);
        assert RingReads(ring, ops)[1..] == RingReads(RingAfter(ring, ops[0]), ops[1..]);
        assert StackReads(stack, ops)[1..] == StackReads(stack[1..], ops[1..]);
      } else {
        DeadPop(ring, stack);
        assert RingReads(ring, ops)[0] == ring[0] && StackReads(stack, ops)[0] == stack[0];
      }
    }
  }

  /** A pop that finds nothing live returns something else than the stack. */
  lemma DeadPop<V>(ring: seq<V>, stack: seq<V>)
    requires |ring| == 8 && stack != []
    ensures OthersLost(ring, stack, 0) ==> ring[0] != stack[0]
  {}

  /** A run that pops no more than it pushes reads from the ring what an unbounded stack would
      return, if every pop finds a live value; and for values that can be told apart, only
      then. */
  lemma RingIsStack<V>(ring: seq<V>, ops: seq<FpuOp<V>>)
    requires |ring| == 8 && NeverPopsEmpty(0, ops)
    ensures PopsLive(0, ops) ==> RingReads(ring, ops) == StackReads([], ops)
    ensures Distinct(Pushes(ops)) ==> (RingReads(ring, ops) == StackReads([], ops) <==> PopsLive(0, ops))
  {
    assert [] + Pushes(ops) == Pushes(ops);
    RunReads(ring, [], 0, ops);
  }

  /** A push is a decrement of the top and a write of ST(0), a pop a read of ST(0) and an
      increment. */
  method Perform<V(0)>(fpu: FEFPU<V>, op: FpuOp<V>) returns (popped: seq<V>)
    requires fpu.Valid()
    modifies fpu, fpu.data
    ensures fpu.Ring() == RingAfter(old(fpu.Ring()), op)
    ensures popped == if op.Pop? then [old(fpu.Ring())[0]] else []
  {
    hide Top, Low, High, WithTag, RingOf, Turned, TurnedBack;
    popped := [];
    match op {
      case Push(v) =>
        fpu.DecrementTop();
        fpu.SetRegister(0, v);
      case Pop =>
        popped := [fpu.Register(0)];
        fpu.IncrementTop();
    }
  }

  lemma NextRead<V>(ring: seq<V>, ops: seq<FpuOp<V>>, i: nat)
    requires |ring| == 8 && i <= |ops|
    ensures RingReads(ring, ops[i..])
            == if i == |ops| then []
               else (if ops[i].Pop? then [ring[0]] else []) + RingReads(RingAfter(ring, ops[i]), ops[i + 1..])
  {
    if i < |ops| {
      assert ops[i..][1..] == ops[i + 1..];
    }
  }

  /** Any run of pushes and pops, performed on the registers from any state, returns what a
      stack would, if every pop finds a value the ring still holds; and for values that can
      be told apart, only then. */
  method PushAndPop<V(0)>(fpu: FEFPU<V>, ops: seq<FpuOp<V>>) returns (popped: seq<V>)
    requires fpu.Valid() && NeverPopsEmpty(0, ops)
    modifies fpu, fpu.data
    ensures PopsLive(0, ops) ==> popped == StackReads([], ops)
    ensures Distinct(Pushes(ops)) ==> (popped == StackReads([], ops) <==> PopsLive(0, ops))
  {
    hide RingAfter, RingReads, StackReads, NeverPopsEmpty, PopsLive, Pushes, Distinct, FEFPU.Ring;
    ghost var ring := fpu.Ring();
    RingIsStack(ring, ops);
    popped := [];
    var i := 0;
    assert ops[0..] == ops;
    while i < |ops|
      invariant 0 <= i <= |ops| && fpu.Valid()
      invariant popped + RingReads(fpu.Ring(), ops[i..]) == RingReads(ring, ops)
    {
      NextRead(fpu.Ring(), ops, i);
      var more := Perform(fpu, ops[i]);
      popped := popped + more;
      i := i + 1;
    }
    NextRead(fpu.Ring(), ops, i);
  }

  // ----- The ninth push

  /** The values pushed one after another, then `m` pops. */
  function PushesThenPops<V>(values: seq<V>, m: nat): seq<FpuOp<V>>
    decreases |values|, m
  {
    if values != [] then [Push(values[0])] + PushesThenPops(values[1..], m)
    else if m > 0 then [Pop] + PushesThenPops(values, m - 1)
    else []
  }

  lemma {:induction false} PushesThenPopsFacts<V>(values: seq<V>, m: nat, depth: nat, live: nat)
    requires live <= 8
    ensures var ops := PushesThenPops(values, m);
            && Pushes(ops) == values
            && (NeverPopsEmpty(depth, ops) <==> m <= depth + |values|)
            && (PopsLive(live, ops) <==> m <= if live + |values| < 8 then live + |values| else 8)
    decreases |values|, m
  {
    var ops := PushesThenPops(values, m);
    if values != [] {
      assert ops[1..] == PushesThenPops(values[1..], m);
      PushesThenPopsFacts(values[1..], m, depth + 1, if live < 8 then live + 1 else 8);
    } else if m > 0 {
      assert ops[1..] == PushesThenPops(values, m - 1);
      PushesThenPopsFacts(values, m - 1, if depth > 0 then depth - 1 else 0, if live > 0 then live - 1 else 0);
    }
  }

  /** Of values pushed in a row the ring gives back eight and no more: a ninth push replaces
      the oldest value. */
  lemma NinthPushReplacesOldest<V>(ring: seq<V>, values: seq<V>, m: nat)
    requires |ring| == 8 && Distinct(values) && m <= |values|
    ensures var ops := PushesThenPops(values, m);
            NeverPopsEmpty(0, ops) && (RingReads(ring, ops) == StackReads([], ops) <==> m <= 8)
  {
    PushesThenPopsFacts(values, m, 0, 0);
    RingIsStack(ring, PushesThenPops(values, m));
  }

  /** Decrementing and incrementing undo each other on the names. */
  lemma TurnsCancel<V>(ring: seq<V>)
    requires |ring| == 8
    ensures Turned(TurnedBack(ring)) == ring && TurnedBack(Turned(ring)) == ring
  {}
}
