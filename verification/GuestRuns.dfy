/** Runs of a whole guest: blocks mapped, threads created one after another on one memory
    map, pushing, popping and moving their stack pointers anywhere in any interleaving, with
    other allocations and frees between. */
module GuestRuns {
  import opened Words
  import AddressSpace
  import opened FlatMemory
  import opened RegisterFile
  import StackSpec
  import opened FEThreads

  type Extent = AddressSpace.Extent

  datatype Thread = Thread(start: nat, tib: nat, esp: u32) {
    function Stack(): Extent { AddressSpace.Extent(start, STACK_SIZE) }

    function Tib(): Extent { AddressSpace.Extent(tib, TIB_SIZE) }

    function Base(): nat { start + STACK_SIZE }

    /** Where a push of this width puts its bytes. */
    function Target(width: FEBitWidth): u32 { Wrap32(esp as int - StackSpec.Moved(width)) }

    predicate InStack() { start <= esp <= Base() }
  }

  /** Which memory is taken, which of it has no buffer, and where each thread's stack, TIB and
      stack pointer are. */
  datatype Layout = Layout(space: AddressSpace.MapState, unbacked: set<Extent>, threads: seq<Thread>) {
    /** The `n` bytes from `a` on lie in one block with a buffer, and the page of `a` was not freed. */
    ghost predicate Reaches(a: int, n: int) {
      a / AddressSpace.PAGE !in space.freed
      && exists e :: e in space.blocks && e !in unbacked && e.Contains(a) && a + n <= e.End()
    }
  }

  datatype Guest = Guest(layout: Layout, mem: map<int, byte>)

  /** The buffer of a block that is mapped, if it has one. */
  datatype Backing = NoBuffer | Buffer(bytes: seq<byte>)

  datatype GuestOp =
    | Create
    | SetEsp(thread: nat, esp: u32)
    | Push(thread: nat, value: u32, width: FEBitWidth)
    | Pop(thread: nat, width: FEBitWidth)
    | Malloc(bytes: u32)
    | Map(block: Extent, backing: Backing)
    | Free(address: u32)

  /** What the code asserts and, where it accesses memory, that there is a buffer to access. */
  ghost predicate CanDo(l: Layout, op: GuestOp) {
    match op
    case Create => HasRoom(l.space) && l.space.size < 0x1_0000_0000
    case SetEsp(i, _) => i < |l.threads|
    case Push(i, _, width) =>
      && i < |l.threads|
      && var target := l.threads[i].Target(width);
      && l.threads[i].start < target
      && if width == k16bit then l.Reaches(target, 2) else target <= l.threads[i].Base() - 4
    case Pop(i, width) =>
      && i < |l.threads| && width != k8bit
      && l.threads[i].start <= l.threads[i].esp
      && l.threads[i].esp as int + StackSpec.Moved(width) <= l.threads[i].Base()
    case Malloc(bytes) => AddressSpace.Enabled(l.space, AddressSpace.Malloc(bytes))
    case Map(e, backing) =>
      && AddressSpace.Enabled(l.space, AddressSpace.Map(e)) && e.End() < 0x1_0000_0000
      && (backing.Buffer? ==> |backing.bytes| == e.size)
    case Free(address) => AddressSpace.Enabled(l.space, AddressSpace.Free(address))
  }

  ghost function Place(l: Layout, op: GuestOp): Layout
    requires CanDo(l, op)
  {
    match op
    case Create => l.(space := AfterThread(l.space), threads := l.threads + [NewThread(l)])
    case SetEsp(i, esp) => WithEspOf(l, i, esp)
    case Push(i, _, width) => WithEspOf(l, i, l.threads[i].Target(width))
    case Pop(i, width) => WithEspOf(l, i, Wrap32(l.threads[i].esp as int + StackSpec.Moved(width)))
    case Malloc(bytes) => l.(space := AddressSpace.Apply(l.space, AddressSpace.Malloc(bytes)))
    case Map(e, backing) =>
      l.(space := l.space.Add(e), unbacked := l.unbacked + if backing.NoBuffer? then {e} else {})
    case Free(address) => l.(space := AddressSpace.Apply(l.space, AddressSpace.Free(address)))
  }

  function WithEspOf(l: Layout, i: nat, esp: u32): Layout
    requires i < |l.threads|
  {
    l.(threads := l.threads[i := l.threads[i].(esp := esp)])
  }

  ghost function NewThread(l: Layout): Thread
    requires HasRoom(l.space)
  {
    PlacesArePages(l.space);
    Thread(StackPlace(l.space), TibPlace(l.space), Wrap32(StackPlace(l.space) + STACK_SIZE))
  }

  lemma PlacesArePages(s: AddressSpace.MapState)
    ensures StackPlace(s) >= 0 && TibPlace(s) >= 0
  {
    AddressSpace.FirstFitIsLowest(s.blocks, s.size, STACK_SIZE);
    AddressSpace.FirstFitIsLowest(AfterStack(s).blocks, s.size, TIB_SIZE);
  }

  /** What the operation may do to memory. The bytes an allocation adds are arbitrary. */
  ghost predicate MemStep(l: Layout, m: map<int, byte>, op: GuestOp, m': map<int, byte>)
    requires CanDo(l, op)
  {
    match op
    case Create => ThreadMemoryAdded(m, m', TibPlace(l.space), NewThread(l).start)
    case Push(i, value, width) => m' == Store(m, l.threads[i].Target(width), StackSpec.PushedBytes(value, width))
    case Malloc(bytes) =>
      var r := AddressSpace.Result(l.space, AddressSpace.Malloc(bytes));
      if r == 0 then m' == m else Extends(m, m', r, r + bytes)
    case Map(e, Buffer(bytes)) =>
      Extends(m, m', e.start, e.End()) && forall a :: e.Contains(a) ==> a in m' && m'[a] == bytes[a - e.start]
    case _ => m' == m
  }

  ghost predicate Next(g: Guest, op: GuestOp, g': Guest) {
    CanDo(g.layout, op) && g'.layout == Place(g.layout, op) && MemStep(g.layout, g.mem, op, g'.mem)
  }

  /** `value` is what a pop finds at the stack pointer. */
  ghost predicate PoppedFrom(g: Guest, op: GuestOp, value: nat) {
    && CanDo(g.layout, op) && op.Pop?
    && var esp, n := g.layout.threads[op.thread].esp, StackSpec.Moved(op.width);
    && Mapped(g.mem, esp, n) && value == LeValue(Load(g.mem, esp, n))
  }

  /** A push puts its bytes into the stack of its own thread. */
  predicate Inside(l: Layout, op: GuestOp) {
    op.Push? && op.thread < |l.threads| ==>
      var t := l.threads[op.thread];
      t.start <= t.Target(op.width) && t.Target(op.width) as int + StackSpec.Moved(op.width) <= t.Base()
  }

  /** The assertions of a 32-bit push see to that. That of a 16-bit push does so exactly if the
      stack pointer is not above the base and does not wrap. */
  lemma PushIsInside(l: Layout, op: GuestOp)
    requires op.Push? && CanDo(l, op) && l.threads[op.thread].Base() < 0x1_0000_0000
    ensures var t := l.threads[op.thread];
            && (op.width != k16bit ==> Inside(l, op))
            && (op.width == k16bit ==> (Inside(l, op) <==> 2 <= t.esp <= t.Base()))
            && (Inside(l, op) ==> t.Target(op.width) == t.esp as int - StackSpec.Moved(op.width))
  {}

  // ----- The invariant

  ghost predicate ThreadPlaced(l: Layout, m: map<int, byte>, t: Thread) {
    && t.Stack() in l.space.blocks && t.Tib() in l.space.blocks && AddressSpace.Disjoint(t.Stack(), t.Tib())
    && t.Base() < 0x1_0000_0000 && Mapped(m, t.start, STACK_SIZE) && Mapped(m, t.tib, TIB_SIZE)
  }

  ghost predicate Apart(t: Thread, u: Thread) {
    && AddressSpace.Disjoint(t.Stack(), u.Stack()) && AddressSpace.Disjoint(t.Tib(), u.Tib())
    && AddressSpace.Disjoint(t.Stack(), u.Tib()) && AddressSpace.Disjoint(t.Tib(), u.Stack())
  }

  /** The address lies in a block with a buffer. */
  ghost predicate Backs(blocks: set<Extent>, unbacked: set<Extent>, a: int) {
    exists e :: e in blocks && e !in unbacked && e.Contains(a)
  }

  /** Memory holds exactly the addresses of the blocks with buffers. */
  ghost predicate MemoryIsBacked(g: Guest) {
    && g.layout.unbacked <= g.layout.space.blocks
    && forall a :: a in g.mem <==> Backs(g.layout.space.blocks, g.layout.unbacked, a)
  }

  /** All stacks and TIBs lie apart in memory. */
  ghost predicate Placed(g: Guest) {
    && g.layout.space.Ok() && MemoryIsBacked(g)
    && (forall i :: 0 <= i < |g.layout.threads| ==> ThreadPlaced(g.layout, g.mem, g.layout.threads[i]))
    && (forall i, j :: 0 <= i < j < |g.layout.threads| ==> Apart(g.layout.threads[i], g.layout.threads[j]))
  }

  /** And every TIB holds the ends of its own thread's stack. */
  ghost predicate Inv(g: Guest) {
    && Placed(g)
    && forall i :: 0 <= i < |g.layout.threads| ==> TibHolds(g.mem, g.layout.threads[i].tib, g.layout.threads[i].start)
  }

  /** The bytes on a thread's stack. */
  ghost function Contents(g: Guest, j: nat): seq<byte>
    requires Placed(g) && j < |g.layout.threads| && g.layout.threads[j].InStack()
  {
    var t := g.layout.threads[j];
    assert ThreadPlaced(g.layout, g.mem, t);
    Load(g.mem, t.esp, t.Base() - t.esp)
  }

  /** The bytes of a thread's whole stack and of its TIB. */
  ghost function Bytes(g: Guest, j: nat): (seq<byte>, seq<byte>)
    requires Placed(g) && j < |g.layout.threads|
  {
    var t := g.layout.threads[j];
    assert ThreadPlaced(g.layout, g.mem, t);
    (Load(g.mem, t.start, STACK_SIZE), Load(g.mem, t.tib, TIB_SIZE))
  }

  /** An operation of the thread on its stack. */
  predicate OnStackOf(op: GuestOp, j: nat) { (op.Push? || op.Pop?) && op.thread == j }

  predicate By(op: GuestOp, j: nat) { OnStackOf(op, j) || (op.SetEsp? && op.thread == j) }

  // ----- One step

  /** A new extent is backed unless it is said not to be. */
  lemma BlockAdded(blocks: set<Extent>, unbacked: set<Extent>, e: Extent, a: int)
    requires unbacked <= blocks && 0 < e.size && forall f :: f in blocks ==> AddressSpace.Disjoint(e, f)
    ensures Backs(blocks + {e}, unbacked, a) <==> Backs(blocks, unbacked, a) || e.Contains(a)
    ensures Backs(blocks + {e}, unbacked + {e}, a) <==> Backs(blocks, unbacked, a)
  {
    assert e !in blocks;
    if Backs(blocks, unbacked, a) {
      var f :| f in blocks && f !in unbacked && f.Contains(a);
      assert f in blocks + {e} && f !in unbacked + {e};
    }
    if e.Contains(a) { assert e in blocks + {e} && e !in unbacked; }
  }

  lemma StepKeepsBacked(g: Guest, op: GuestOp, g': Guest)
    requires Placed(g) && Next(g, op, g')
    ensures MemoryIsBacked(g')
  {
    hide AddressSpace.FirstFit, TibHolds, LeBytes, Backs, StackSpec.Word, Layout.Reaches, AddressSpace.WrappedGap;
    var s, unbacked := g.layout.space, g.layout.unbacked;
    match op
    case Create =>
      AddressSpace.AllocationFits(s, STACK_SIZE);
      AddressSpace.StepKeepsOk(s, AddressSpace.Malloc(STACK_SIZE));
      AddressSpace.AllocationFits(AfterStack(s), TIB_SIZE);
      forall a { BlockAdded(s.blocks, unbacked, AddressSpace.Extent(StackPlace(s), STACK_SIZE), a); }
      forall a { BlockAdded(AfterStack(s).blocks, unbacked, AddressSpace.Extent(TibPlace(s), TIB_SIZE), a); }
    case Malloc(bytes) =>
      var r := AddressSpace.Result(s, AddressSpace.Malloc(bytes));
      AddressSpace.AllocationFits(s, bytes);
      if r != 0 { forall a { BlockAdded(s.blocks, unbacked, AddressSpace.Extent(r, bytes), a); } }
    case Map(e, backing) =>
      assert g'.layout.unbacked == if backing.NoBuffer? then unbacked + {e} else unbacked;
      assert g'.layout.space.blocks == s.blocks + {e};
      forall a { BlockAdded(s.blocks, unbacked, e, a); }
    case _ =>
  }

  /** A push outside leaves the upper byte of its value outside the stack. */
  lemma OutsidePushEscapes(g: Guest, op: GuestOp, g': Guest)
    requires Placed(g) && op.Push? && Next(g, op, g') && !Inside(g.layout, op)
    ensures var t := g.layout.threads[op.thread];
            var a := t.Target(op.width) + 1;
            op.width == k16bit && !t.Stack().Contains(a) && a in g'.mem && g'.mem[a] == op.value / 0x100 % 0x100
  {
    var t := g.layout.threads[op.thread];
    assert ThreadPlaced(g.layout, g.mem, t);
    PushIsInside(g.layout, op);
    ReachedIsMapped(g, t.Target(op.width), 2);
    UpperByte(op.value);
    hide LeBytes, Wrap32, Layout.Reaches;
  }

  lemma ReachedIsMapped(g: Guest, a: int, n: int)
    requires Placed(g) && g.layout.Reaches(a, n)
    ensures Mapped(g.mem, a, n)
  {
    forall x | a <= x < a + n ensures x in g.mem {
      assert Backs(g.layout.space.blocks, g.layout.unbacked, x);
    }
  }

  lemma UpperByte(value: u32)
    ensures StackSpec.PushedBytes(value, k16bit)[1] == value / 0x100 % 0x100
  {
    BytesOfValue(value % 0x1_0000);
    LowByteTwice(value);
  }


  lemma NewThreadIsApart(s: AddressSpace.MapState, e: Extent)
    requires s.Ok() && HasRoom(s)
    ensures AfterThread(s).Ok() && s.blocks <= AfterThread(s).blocks
    ensures var stack := AddressSpace.Extent(StackPlace(s), STACK_SIZE);
            var tib := AddressSpace.Extent(TibPlace(s), TIB_SIZE);
            && stack in AfterThread(s).blocks && tib in AfterThread(s).blocks && AddressSpace.Disjoint(stack, tib)
            && (e in s.blocks ==> AddressSpace.Disjoint(e, stack) && AddressSpace.Disjoint(e, tib))
  {
    hide AddressSpace.FirstFit;
    AddressSpace.AllocationFits(s, STACK_SIZE);
    AddressSpace.StepKeepsOk(s, AddressSpace.Malloc(STACK_SIZE));
    assert AfterStack(s).Ok();
    AddressSpace.AllocationFits(AfterStack(s), TIB_SIZE);
    AddressSpace.StepKeepsOk(AfterStack(s), AddressSpace.Malloc(TIB_SIZE));
  }

  /** The fields of a TIB survive a step that keeps its bytes. */
  lemma TibKept(m: map<int, byte>, m': map<int, byte>, tib: int, start: nat)
    requires TibHolds(m, tib, start) && KeptWithin(m, m', tib, tib + TIB_SIZE)
    ensures TibHolds(m', tib, start)
  {
    hide LeBytes, Load;
    LoadKept(m, m', tib, tib + TIB_SIZE, tib, 4);
    LoadKept(m, m', tib, tib + TIB_SIZE, tib + 4, 4);
    LoadKept(m, m', tib, tib + TIB_SIZE, tib + 8, 4);
    LoadKept(m, m', tib, tib + TIB_SIZE, tib + 0x20, 4);
    LoadKept(m, m', tib, tib + TIB_SIZE, tib + 0x24, 4);
  }

  /** A step whose push, if it is one, is inside its own stack changes no byte of any TIB, and
      of the stacks only the one of the thread that pushes, below its stack pointer. */
  lemma StepTouches(g: Guest, op: GuestOp, g': Guest, j: nat)
    requires Placed(g) && Next(g, op, g') && Inside(g.layout, op) && j < |g.layout.threads|
    ensures StaysPut(g, g', j)
    ensures var t := g.layout.threads[j];
            && (!By(op, j) ==> g'.layout.threads[j] == t && KeptWithin(g.mem, g'.mem, t.start, t.Base()))
            && (t.InStack() ==> KeptWithin(g.mem, g'.mem, t.esp, t.Base()))
            && KeptWithin(g.mem, g'.mem, t.tib, t.tib + TIB_SIZE)
  {
    hide AddressSpace.FirstFit, TibHolds, LeBytes, AfterThread, StackPlace, TibPlace, StackSpec.Word, MemoryIsBacked;
    hide Layout.Reaches;
    if op.Push? {
      PushTouches(g, op, g', j);
    }
  }

  lemma PushTouches(g: Guest, op: GuestOp, g': Guest, j: nat)
    requires Placed(g) && op.Push? && Next(g, op, g') && Inside(g.layout, op) && j < |g.layout.threads|
    ensures var t := g.layout.threads[j];
            && (op.thread != j ==> KeptWithin(g.mem, g'.mem, t.start, t.Base()))
            && (t.InStack() ==> KeptWithin(g.mem, g'.mem, t.esp, t.Base()))
            && KeptWithin(g.mem, g'.mem, t.tib, t.tib + TIB_SIZE)
  {
    hide TibHolds, LeBytes, StackSpec.Word, StackSpec.PushedBytes, Wrap32, Layout.Reaches, MemoryIsBacked;
    var t, u := g.layout.threads[j], g.layout.threads[op.thread];
    assert ThreadPlaced(g.layout, g.mem, t);
    assert ThreadPlaced(g.layout, g.mem, u);
    if op.thread != j {
      assert Apart(t, u) || Apart(u, t);
    } else if t.InStack() {
      PushIsInside(g.layout, op);
    }
  }

  /** The thread is still there and its stack and TIB are where they were. */
  predicate StaysPut(g: Guest, g': Guest, j: nat) {
    && j < |g.layout.threads| <= |g'.layout.threads|
    && g'.layout.threads[j].start == g.layout.threads[j].start && g'.layout.threads[j].tib == g.layout.threads[j].tib
  }

  lemma ThreadStaysPlaced(g: Guest, op: GuestOp, g': Guest, j: nat)
    requires Placed(g) && Next(g, op, g') && j < |g.layout.threads|
    ensures StaysPut(g, g', j) && ThreadPlaced(g'.layout, g'.mem, g'.layout.threads[j])
  {
    hide MemoryIsBacked;
    var t := g.layout.threads[j];
    assert ThreadPlaced(g.layout, g.mem, t);
    StepKeepsMapped(g, op, g', t.start, STACK_SIZE);
    StepKeepsMapped(g, op, g', t.tib, TIB_SIZE);
    SpaceGrows(g, op, g');
    hide AddressSpace.FirstFit, TibHolds, StackSpec.Word, LeBytes, MemStep, Layout.Reaches;
  }

  lemma StepKeepsMapped(g: Guest, op: GuestOp, g': Guest, lo: int, n: int)
    requires Next(g, op, g')
    ensures Mapped(g.mem, lo, n) ==> Mapped(g'.mem, lo, n)
  {
    hide AddressSpace.FirstFit, TibHolds, LeBytes, AfterThread, StackPlace, TibPlace, StackSpec.Word, Layout.Reaches;
  }

  lemma SpaceGrows(g: Guest, op: GuestOp, g': Guest)
    requires Placed(g) && Next(g, op, g')
    ensures g'.layout.space.Ok() && g.layout.space.blocks <= g'.layout.space.blocks
  {
    hide AddressSpace.FirstFit, MemStep, Layout.Reaches, MemoryIsBacked;
    match op
    case Create => NewThreadIsApart(g.layout.space, AddressSpace.Extent(0, 0));
    case Malloc(bytes) => AddressSpace.StepKeepsOk(g.layout.space, AddressSpace.Malloc(bytes));
    case Map(e, _) => AddressSpace.StepKeepsOk(g.layout.space, AddressSpace.Map(e));
    case Free(address) => AddressSpace.StepKeepsOk(g.layout.space, AddressSpace.Free(address));
    case _ =>
  }

  lemma CreatedThreadPlaced(g: Guest, g': Guest)
    requires Placed(g) && Next(g, Create, g')
    ensures ThreadPlaced(g'.layout, g'.mem, NewThread(g.layout)) && NewThread(g.layout).InStack()
    ensures forall j :: 0 <= j < |g.layout.threads| ==> Apart(g.layout.threads[j], NewThread(g.layout))
  {
    hide MemoryIsBacked;
    var s := g.layout.space;
    NewStackFits(s);
    hide AddressSpace.FirstFit, StackPlace, TibPlace;
    NewThreadIsApart(s, AddressSpace.Extent(0, 0));
    forall j | 0 <= j < |g.layout.threads| ensures Apart(g.layout.threads[j], NewThread(g.layout)) {
      var t := g.layout.threads[j];
      assert ThreadPlaced(g.layout, g.mem, t);
      NewThreadIsApart(s, t.Stack());
      NewThreadIsApart(s, t.Tib());
    }
  }

  lemma NewStackFits(s: AddressSpace.MapState)
    requires HasRoom(s) && s.size < 0x1_0000_0000
    ensures 0 <= StackPlace(s) && StackPlace(s) + STACK_SIZE <= s.size
    ensures Wrap32(StackPlace(s) + STACK_SIZE) == StackPlace(s) + STACK_SIZE
  {
    AddressSpace.FirstFitIsLowest(s.blocks, s.size, STACK_SIZE);
    NoWrap(StackPlace(s) + STACK_SIZE);
  }

  /** Whatever stack pointers are set to and wherever pushes go, stacks and TIBs stay apart. */
  lemma StepKeepsPlaced(g: Guest, op: GuestOp, g': Guest)
    requires Placed(g) && Next(g, op, g')
    ensures Placed(g')
  {
    hide ThreadPlaced, MemStep, NewThread, AddressSpace.Enabled, AddressSpace.Apply, HasRoom, AfterThread;
    hide Layout.Reaches, MemoryIsBacked;
    SpaceGrows(g, op, g');
    StepKeepsBacked(g, op, g');
    var n := |g.layout.threads|;
    if op.Create? { CreatedThreadPlaced(g, g'); }
    forall j | 0 <= j < |g'.layout.threads| ensures ThreadPlaced(g'.layout, g'.mem, g'.layout.threads[j]) {
      if j < n { ThreadStaysPlaced(g, op, g', j); }
    }
    forall i, j | 0 <= i < j < |g'.layout.threads| ensures Apart(g'.layout.threads[i], g'.layout.threads[j]) {
      assert j < n ==> Apart(g.layout.threads[i], g.layout.threads[j]);
    }
  }

  lemma StepKeepsInv(g: Guest, op: GuestOp, g': Guest)
    requires Inv(g) && Next(g, op, g') && Inside(g.layout, op)
    ensures Inv(g')
  {
    hide MemoryIsBacked;
    hide ThreadPlaced, Apart, TibHolds, AddressSpace.Enabled, AddressSpace.Apply, HasRoom, AfterThread, Layout.Reaches;
    StepKeepsPlaced(g, op, g');
    forall j | 0 <= j < |g'.layout.threads|
      ensures TibHolds(g'.mem, g'.layout.threads[j].tib, g'.layout.threads[j].start)
    {
      if j < |g.layout.threads| {
        StepTouches(g, op, g', j);
        TibKept(g.mem, g'.mem, g.layout.threads[j].tib, g.layout.threads[j].start);
      }
    }
  }

  // ----- Runs

  ghost predicate IsRun(gs: seq<Guest>, ops: seq<GuestOp>) {
    |gs| == |ops| + 1 && forall k :: 0 <= k < |ops| ==> Next(gs[k], ops[k], gs[k + 1])
  }

  /** No push of the run goes outside its own stack. */
  predicate AllInside(gs: seq<Guest>, ops: seq<GuestOp>) {
    |gs| == |ops| + 1 && forall k :: 0 <= k < |ops| ==> Inside(gs[k].layout, ops[k])
  }

  /** `popped` lists for each operation the value a pop returns. */
  ghost predicate PoppedInRun(gs: seq<Guest>, ops: seq<GuestOp>, popped: seq<nat>) {
    |gs| == |ops| + 1 && |popped| == |ops|
    && forall k :: 0 <= k < |ops| && ops[k].Pop? ==> PoppedFrom(gs[k], ops[k], popped[k])
  }

  /** Every operation can be performed when its turn comes. */
  ghost predicate CanRun(l: Layout, ops: seq<GuestOp>)
    decreases |ops|
  {
    ops == [] || (CanDo(l, ops[0]) && CanRun(Place(l, ops[0]), ops[1..]))
  }

  /** A guest with an empty map and no threads. */
  ghost function Start(size: int): Guest { Guest(Layout(AddressSpace.Empty(size), {}, []), map[]) }

  /** Over every run all stacks and TIBs of all threads lie apart. */
  lemma {:induction false} RunKeepsPlaced(gs: seq<Guest>, ops: seq<GuestOp>, k: nat)
    requires IsRun(gs, ops) && Placed(gs[0]) && k <= |ops|
    ensures Placed(gs[k])
  {
    if k > 0 {
      RunKeepsPlaced(gs, ops, k - 1);
      StepKeepsPlaced(gs[k - 1], ops[k - 1], gs[k]);
    }
  }

  /** Over every run whose pushes stay inside their stacks every TIB reads back the ends of its
      own thread's stack. */
  lemma {:induction false} RunKeepsInv(gs: seq<Guest>, ops: seq<GuestOp>, k: nat)
    requires IsRun(gs, ops) && AllInside(gs, ops) && Inv(gs[0]) && k <= |ops|
    ensures Inv(gs[k])
  {
    if k > 0 {
      RunKeepsInv(gs, ops, k - 1);
      StepKeepsInv(gs[k - 1], ops[k - 1], gs[k]);
    }
  }

  lemma RestIsRun(gs: seq<Guest>, ops: seq<GuestOp>)
    requires IsRun(gs, ops) && ops != []
    ensures Next(gs[0], ops[0], gs[1]) && IsRun(gs[1..], ops[1..]) && gs[1..][|ops| - 1] == gs[|ops|]
    ensures AllInside(gs, ops) ==> Inside(gs[0].layout, ops[0]) && AllInside(gs[1..], ops[1..])
  {
    hide Next, Inside;
  }

  /** A run in which a thread neither pushes nor pops nor moves its stack pointer, and the
      others push only inside their stacks, changes no byte of its stack or TIB. */
  lemma {:induction false} ThreadIsolation(gs: seq<Guest>, ops: seq<GuestOp>, j: nat)
    requires IsRun(gs, ops) && AllInside(gs, ops) && Placed(gs[0]) && j < |gs[0].layout.threads|
    requires forall op :: op in ops ==> !By(op, j)
    ensures var g := gs[|ops|];
            && Placed(g) && j < |g.layout.threads| && g.layout.threads[j] == gs[0].layout.threads[j]
            && Bytes(g, j) == Bytes(gs[0], j)
    decreases |ops|
  {
    hide Placed, Next, Inside, By;
    if ops != [] {
      RestIsRun(gs, ops);
      StepKeepsPlaced(gs[0], ops[0], gs[1]);
      StepTouches(gs[0], ops[0], gs[1], j);
      BytesKept(gs[0], gs[1], j);
      ThreadIsolation(gs[1..], ops[1..], j);
    }
  }

  lemma TailIsRun(gs: seq<Guest>, ops: seq<GuestOp>, k: nat)
    requires IsRun(gs, ops) && k <= |ops|
    ensures IsRun(gs[k..], ops[k..]) && (AllInside(gs, ops) ==> AllInside(gs[k..], ops[k..]))
  {
    hide Next, Inside;
  }

  /** The same from any moment of a run: once a thread exists, and while pushes stay inside
      their stacks, only its own operations can touch its stack, and nothing touches its TIB. */
  lemma IsolatedOnceCreated(gs: seq<Guest>, ops: seq<GuestOp>, k: nat, j: nat)
    requires IsRun(gs, ops) && Inv(gs[0]) && k <= |ops| && j < |gs[k].layout.threads|
    requires AllInside(gs, ops)
    ensures Inv(gs[k]) && Inv(gs[|ops|]) && j < |gs[|ops|].layout.threads|
    ensures (forall op :: op in ops[k..] ==> !By(op, j)) ==> Bytes(gs[|ops|], j) == Bytes(gs[k], j)
    ensures Bytes(gs[|ops|], j).1 == Bytes(gs[k], j).1
  {
    hide Next, By, Inside;
    RunKeepsInv(gs, ops, k);
    RunKeepsInv(gs, ops, |ops|);
    TailIsRun(gs, ops, k);
    TibIsolation(gs[k..], ops[k..], j);
    assert gs[k..][|ops[k..]|] == gs[|ops|];
    if forall op :: op in ops[k..] ==> !By(op, j) {
      ThreadIsolation(gs[k..], ops[k..], j);
    }
  }

  /** No run whose pushes stay inside their stacks changes a byte of a TIB, not even one in
      which its own thread is active. */
  lemma {:induction false} TibIsolation(gs: seq<Guest>, ops: seq<GuestOp>, j: nat)
    requires IsRun(gs, ops) && AllInside(gs, ops) && Placed(gs[0]) && j < |gs[0].layout.threads|
    ensures var g := gs[|ops|];
            Placed(g) && j < |g.layout.threads| && Bytes(g, j).1 == Bytes(gs[0], j).1
    decreases |ops|
  {
    hide Placed, Next, Inside, By;
    if ops != [] {
      RestIsRun(gs, ops);
      StepKeepsPlaced(gs[0], ops[0], gs[1]);
      StepTouches(gs[0], ops[0], gs[1], j);
      TibBytesKept(gs[0], gs[1], j);
      TibIsolation(gs[1..], ops[1..], j);
    }
  }

  lemma TibBytesKept(g: Guest, g': Guest, j: nat)
    requires Placed(g) && Placed(g') && StaysPut(g, g', j)
    requires KeptWithin(g.mem, g'.mem, g.layout.threads[j].tib, g.layout.threads[j].tib + TIB_SIZE)
    ensures Bytes(g', j).1 == Bytes(g, j).1
  {
    hide Load, KeptWithin, MemoryIsBacked;
    var t := g.layout.threads[j];
    assert ThreadPlaced(g.layout, g.mem, t);
    LoadKept(g.mem, g'.mem, t.tib, t.tib + TIB_SIZE, t.tib, TIB_SIZE);
  }

  lemma BytesKept(g: Guest, g': Guest, j: nat)
    requires Placed(g) && Placed(g') && StaysPut(g, g', j)
    requires var t := g.layout.threads[j];
             KeptWithin(g.mem, g'.mem, t.start, t.Base()) && KeptWithin(g.mem, g'.mem, t.tib, t.tib + TIB_SIZE)
    ensures Bytes(g', j) == Bytes(g, j)
  {
    hide Load, KeptWithin, MemoryIsBacked;
    var t := g.layout.threads[j];
    assert ThreadPlaced(g.layout, g.mem, t);
    LoadKept(g.mem, g'.mem, t.start, t.Base(), t.start, STACK_SIZE);
    LoadKept(g.mem, g'.mem, t.tib, t.tib + TIB_SIZE, t.tib, TIB_SIZE);
  }

  // ----- Every thread has a stack of its own

  /** The pushes and pops of one thread. */
  function Mine(ops: seq<GuestOp>, j: nat): seq<StackSpec.StackOp>
    decreases |ops|
  {
    if ops == [] then [] else (if OnStackOf(ops[0], j) then [StackOpOf(ops[0])] else []) + Mine(ops[1..], j)
  }

  function StackOpOf(op: GuestOp): StackSpec.StackOp
    requires op.Push? || op.Pop?
  {
    match op
    case Push(_, value, width) => StackSpec.Push(value, width)
    case Pop(_, width) => StackSpec.Pop(width)
  }

  /** The values one thread pops. */
  function Seen(ops: seq<GuestOp>, popped: seq<nat>, j: nat): seq<nat>
    requires |popped| == |ops|
    decreases |ops|
  {
    if ops == [] then []
    else (if OnStackOf(ops[0], j) && ops[0].Pop? then [popped[0]] else []) + Seen(ops[1..], popped[1..], j)
  }

  lemma StepOfOwnStack(g: Guest, op: GuestOp, g': Guest, j: nat, value: nat)
    requires Placed(g) && Placed(g') && Next(g, op, g') && Inside(g.layout, op) && StaysPut(g, g', j)
    requires g.layout.threads[j].InStack() && !(op.SetEsp? && op.thread == j)
    requires op.Pop? ==> PoppedFrom(g, op, value)
    ensures g'.layout.threads[j].InStack()
    ensures Contents(g', j) ==
            if OnStackOf(op, j) then StackSpec.Step(Contents(g, j), StackOpOf(op)) else Contents(g, j)
    ensures OnStackOf(op, j) ==>
              && StackSpec.Enabled(STACK_SIZE, Contents(g, j), StackOpOf(op))
              && StackSpec.Output(Contents(g, j), StackOpOf(op)) == if op.Pop? then [value] else []
  {
    hide Placed, Next, PoppedFrom, Inside, StaysPut, Thread.InStack, Contents;
    hide StackSpec.Step, StackSpec.Enabled, StackSpec.Output;
    if op.Push? && op.thread == j {
      OwnPush(g, op, g');
    } else if op.Pop? && op.thread == j {
      OwnPop(g, op, g', value);
    } else {
      NotOwn(g, op, g', j);
    }
  }

  lemma NotOwn(g: Guest, op: GuestOp, g': Guest, j: nat)
    requires Placed(g) && Placed(g') && Next(g, op, g') && Inside(g.layout, op) && StaysPut(g, g', j)
    requires g.layout.threads[j].InStack() && !By(op, j)
    ensures g'.layout.threads[j].InStack() && Contents(g', j) == Contents(g, j)
  {
    StepTouches(g, op, g', j);
    hide Load, KeptWithin, Next, Inside, MemoryIsBacked;
    var t := g.layout.threads[j];
    assert ThreadPlaced(g.layout, g.mem, t);
    LoadKept(g.mem, g'.mem, t.start, t.Base(), t.esp, t.Base() - t.esp);
  }

  lemma OwnPush(g: Guest, op: GuestOp, g': Guest)
    requires Placed(g) && Placed(g') && op.Push? && Next(g, op, g') && Inside(g.layout, op)
    requires g.layout.threads[op.thread].InStack()
    ensures g'.layout.threads[op.thread].InStack()
    ensures StackSpec.Enabled(STACK_SIZE, Contents(g, op.thread), StackOpOf(op))
    ensures StackSpec.Output(Contents(g, op.thread), StackOpOf(op)) == []
    ensures Contents(g', op.thread) == StackSpec.Step(Contents(g, op.thread), StackOpOf(op))
  {
    hide TibHolds, StackSpec.PushedBytes, Load, Store, Layout.Reaches, MemoryIsBacked;
    var t := g.layout.threads[op.thread];
    assert ThreadPlaced(g.layout, g.mem, t);
    assert ThreadPlaced(g'.layout, g'.mem, g'.layout.threads[op.thread]);
    var bytes := StackSpec.PushedBytes(op.value, op.width);
    PushIsInside(g.layout, op);
    LoadBelow(g.mem, t.esp as int - |bytes|, bytes, t.Base() - t.esp);
  }

  lemma OwnPop(g: Guest, op: GuestOp, g': Guest, value: nat)
    requires Placed(g) && Placed(g') && op.Pop? && Next(g, op, g') && PoppedFrom(g, op, value)
    ensures g.layout.threads[op.thread].InStack() && g'.layout.threads[op.thread].InStack()
    ensures StackSpec.Enabled(STACK_SIZE, Contents(g, op.thread), StackOpOf(op))
    ensures StackSpec.Output(Contents(g, op.thread), StackOpOf(op)) == [value]
    ensures Contents(g', op.thread) == StackSpec.Step(Contents(g, op.thread), StackOpOf(op))
  {
    hide TibHolds, StackSpec.Moved, Load, LeValue, MemoryIsBacked;
    var t, n := g.layout.threads[op.thread], StackSpec.Moved(op.width);
    assert ThreadPlaced(g.layout, g.mem, t);
    NoWrap(t.esp as int + n);
    LoadSplit(g.mem, t.esp, n, t.Base() - (t.esp + n));
  }

  /** However the threads interleave, while pushes stay inside their stacks, the stack of a
      thread that does not set its stack pointer goes through exactly the steps of its own
      pushes and pops, as if it ran alone, and pops the same values. */
  lemma {:induction false} EachThreadHasItsOwnStack(gs: seq<Guest>, ops: seq<GuestOp>, popped: seq<nat>, j: nat)
    requires IsRun(gs, ops) && AllInside(gs, ops) && PoppedInRun(gs, ops, popped)
    requires Placed(gs[0]) && j < |gs[0].layout.threads| && gs[0].layout.threads[j].InStack()
    requires forall op :: op in ops ==> !(op.SetEsp? && op.thread == j)
    ensures var g, s := gs[|ops|], Contents(gs[0], j);
            && Placed(g) && j < |g.layout.threads| && g.layout.threads[j].InStack()
            && StackSpec.Run(STACK_SIZE, s, Mine(ops, j))
            && Contents(g, j) == StackSpec.After(s, Mine(ops, j))
            && Seen(ops, popped, j) == StackSpec.Outputs(s, Mine(ops, j))
    decreases |ops|
  {
    hide Placed, Next, Contents, PoppedFrom, Inside, Thread.InStack;
    hide StackSpec.Step, StackSpec.Output, StackSpec.Enabled;
    if ops != [] {
      RestIsRun(gs, ops);
      StepKeepsPlaced(gs[0], ops[0], gs[1]);
      StepTouches(gs[0], ops[0], gs[1], j);
      StepOfOwnStack(gs[0], ops[0], gs[1], j, popped[0]);
      EachThreadHasItsOwnStack(gs[1..], ops[1..], popped[1..], j);
      if OnStackOf(ops[0], j) {
        assert Mine(ops, j)[0] == StackOpOf(ops[0]) && Mine(ops, j)[1..] == Mine(ops[1..], j);
      } else {
        assert Mine(ops, j) == Mine(ops[1..], j);
      }
    }
  }
}
