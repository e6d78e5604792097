/** The code performs the runs of GuestRuns: every operation on real threads and a real
    memory map is a step of the guest they amount to. */
module GuestExecution {
  import opened Words
  import opened AddressSpace
  import opened FlatMemory
  import opened RegisterFile
  import StackSpec
  import opened FEMemoryMapBlocks
  import opened FirstFitWalk
  import opened FEMemoryMaps
  import opened FEThreads
  import opened GuestRuns

  /** The map and all threads are good, and no two threads share their registers. */
  ghost predicate Good(memoryMap: FEMemoryMap, threads: seq<FEThreadContext>)
    reads threads, RegistersOf(threads), memoryMap, memoryMap.memoryMapBlocksShadow, memoryMap.memoryMapBlocks
    reads memoryMap.memoryMapBlocksShadow.p, memoryMap.memoryMapBlocks.p
  {
    && memoryMap.Valid()
    && (forall t :: t in threads ==> t.memoryMap == memoryMap && t.Valid())
    && (forall i, j :: 0 <= i < j < |threads| ==> threads[i].regs != threads[j].regs)
  }

  lemma GoodByIndex(memoryMap: FEMemoryMap, threads: seq<FEThreadContext>)
    requires memoryMap.Valid()
    requires forall j :: 0 <= j < |threads| ==> threads[j].memoryMap == memoryMap && threads[j].Valid()
    requires forall i, j :: 0 <= i < j < |threads| ==> threads[i].regs != threads[j].regs
    ensures Good(memoryMap, threads)
  {}

  ghost function RegistersOf(threads: seq<FEThreadContext>): set<array<byte>> {
    set t | t in threads :: t.regs
  }

  ghost function ThreadOf(t: FEThreadContext): Thread
    requires t.Valid()
    reads t, t.regs, t.memoryMap, t.memoryMap.memoryMapBlocksShadow, t.memoryMap.memoryMapBlocks
    reads t.memoryMap.memoryMapBlocksShadow.p, t.memoryMap.memoryMapBlocks.p
  {
    Thread(t.stack.start, t.TIBAddress, t.Esp())
  }

  ghost function ThreadsOf(memoryMap: FEMemoryMap, threads: seq<FEThreadContext>): (s: seq<Thread>)
    requires Good(memoryMap, threads)
    reads threads, RegistersOf(threads), memoryMap, memoryMap.memoryMapBlocksShadow, memoryMap.memoryMapBlocks
    reads memoryMap.memoryMapBlocksShadow.p, memoryMap.memoryMapBlocks.p
    ensures |s| == |threads| && forall i :: 0 <= i < |s| ==> s[i] == ThreadOf(threads[i])
  {
    seq(|threads|, (i: nat) requires i < |threads| && Good(memoryMap, threads)
                      reads threads, RegistersOf(threads)
                      reads memoryMap, memoryMap.memoryMapBlocksShadow, memoryMap.memoryMapBlocks
                      reads memoryMap.memoryMapBlocksShadow.p, memoryMap.memoryMapBlocks.p
                      => ThreadOf(threads[i]))
  }

  ghost function LayoutOf(memoryMap: FEMemoryMap, threads: seq<FEThreadContext>): Layout
    requires Good(memoryMap, threads)
    reads threads, RegistersOf(threads), memoryMap, memoryMap.memoryMapBlocksShadow, memoryMap.memoryMapBlocks
    reads memoryMap.memoryMapBlocksShadow.p, memoryMap.memoryMapBlocks.p
  {
    Layout(memoryMap.State(), Unbacked(memoryMap.Blocks()), ThreadsOf(memoryMap, threads))
  }

  ghost function GuestOf(memoryMap: FEMemoryMap, threads: seq<FEThreadContext>): Guest
    requires Good(memoryMap, threads)
    reads threads, RegistersOf(threads), memoryMap, memoryMap.memoryMapBlocksShadow, memoryMap.memoryMapBlocks
    reads memoryMap.memoryMapBlocksShadow.p, memoryMap.memoryMapBlocks.p, memoryMap.buffers
  {
    Guest(LayoutOf(memoryMap, threads), memoryMap.Mem())
  }

  /** A memory map without threads is a good place to start, whatever is mapped. */
  lemma MapAloneIsGood(memoryMap: FEMemoryMap)
    requires memoryMap.Valid()
    ensures Good(memoryMap, []) && Inv(GuestOf(memoryMap, []))
  {
    ListIsOk(memoryMap.Blocks(), memoryMap.size, memoryMap.freed);
    forall a ensures a in memoryMap.Mem() <==> Backs(memoryMap.State().blocks, Unbacked(memoryMap.Blocks()), a) {
      MemoryOfBlocks(memoryMap, a);
    }
  }

  /** Memory holds an address exactly if a block with a buffer contains it. */
  lemma MemoryOfBlocks(memoryMap: FEMemoryMap, a: int)
    requires memoryMap.Valid()
    ensures a in memoryMap.Mem() <==> Backs(memoryMap.State().blocks, Unbacked(memoryMap.Blocks()), a)
  {
    var blocks := memoryMap.Blocks();
    if a in memoryMap.Mem() {
      OwnerListed(blocks, a);
      var b := Owner(blocks, a);
      BackedExtent(memoryMap, b);
    }
    if Backs(Extents(blocks), Unbacked(blocks), a) {
      var e :| e in Extents(blocks) && e !in Unbacked(blocks) && e.Contains(a);
      var b :| b in blocks && b != null && e == b.Range();
      OwnerIs(blocks, memoryMap.size, a, b);
    }
  }

  lemma BackedExtent(memoryMap: FEMemoryMap, b: FEMemoryMapBlock)
    requires memoryMap.Valid() && b in memoryMap.Blocks() && b.localAddress != null
    ensures b.Range() in memoryMap.State().blocks && b.Range() !in Unbacked(memoryMap.Blocks())
  {
    var blocks := memoryMap.Blocks();
    if c :| c in blocks && c != null && c.localAddress == null && c.Range() == b.Range() {
      Separate(blocks, memoryMap.size, b, c);
    }
  }

  /** What the memory map can access is what the layout says can be reached. */
  lemma ReachIsInBlock(memoryMap: FEMemoryMap, l: Layout, address: int, n: nat)
    requires memoryMap.Valid() && 0 <= address && 0 < n
    requires l.space == memoryMap.State() && l.unbacked == Unbacked(memoryMap.Blocks())
    ensures memoryMap.InBlock(address, n) <==> l.Reaches(address, n)
  {
    var blocks := memoryMap.Blocks();
    if memoryMap.InBlock(address, n) {
      var b := memoryMap.BlockFromVirtualAddress(address);
      PageOf(b.Range(), address);
      BackedExtent(memoryMap, b);
    }
    if l.Reaches(address, n) {
      var e :| e in l.space.blocks && e !in l.unbacked && e.Contains(address) && address + n <= e.End();
      var b :| b in blocks && b != null && e == b.Range();
      OwnerIs(blocks, memoryMap.size, address, b);
      memoryMap.SearchIsTranslation(address);
    }
  }

  method PerformFree(memoryMap: FEMemoryMap, threads: seq<FEThreadContext>, address: u32)
    requires Good(memoryMap, threads) && CanDo(LayoutOf(memoryMap, threads), GuestOp.Free(address))
    modifies memoryMap`freed, memoryMap.memoryMapBlocksShadow.p
    ensures Good(memoryMap, threads)
    ensures Next(old(GuestOf(memoryMap, threads)), GuestOp.Free(address), GuestOf(memoryMap, threads))
  {
    hide FirstFit, ListOk, ShadowOk, MemOf, EspOf, Extents, Buffers, Unbacked;
    ghost var ts := ThreadsOf(memoryMap, threads);
    memoryMap.Free(address);
    forall t | t in threads ensures t.Valid() && ThreadOf(t) == old(ThreadOf(t)) {}
    assert ThreadsOf(memoryMap, threads) == ts;
  }

  /** A thread's own registers are no part of another thread or of guest memory. */
  lemma OwnRegisters(memoryMap: FEMemoryMap, threads: seq<FEThreadContext>, i: nat)
    requires Good(memoryMap, threads) && i < |threads|
    ensures threads[i].Valid() && threads[i].memoryMap == memoryMap && threads[i].regs in RegistersOf(threads)
    ensures forall j :: 0 <= j < |threads| ==>
              && threads[j].regs !in memoryMap.buffers && (j != i ==> threads[j].regs != threads[i].regs)
  {
    assert threads[i] in threads;
    forall j | 0 <= j < |threads|
      ensures threads[j].regs !in memoryMap.buffers && (j != i ==> threads[j].regs != threads[i].regs)
    {
      assert threads[j] in threads;
    }
  }

  method PerformSetEsp(memoryMap: FEMemoryMap, threads: seq<FEThreadContext>, i: nat, esp: u32)
    requires Good(memoryMap, threads) && CanDo(LayoutOf(memoryMap, threads), GuestOp.SetEsp(i, esp))
    modifies threads[i].regs
    ensures Good(memoryMap, threads)
    ensures Next(old(GuestOf(memoryMap, threads)), GuestOp.SetEsp(i, esp), GuestOf(memoryMap, threads))
  {
    hide FirstFit, ListOk, ShadowOk, MemOf, EspOf, Extents, Buffers, Unbacked, WithEsp;
    OwnRegisters(memoryMap, threads, i);
    ghost var ts := ThreadsOf(memoryMap, threads);
    threads[i].SetEsp(esp);
    forall j | 0 <= j < |threads|
      ensures threads[j].Valid() && ThreadOf(threads[j]) == if j == i then ts[i].(esp := esp) else ts[j]
    {}
    GoodByIndex(memoryMap, threads);
    assert ThreadsOf(memoryMap, threads) == ts[i := ts[i].(esp := esp)];
  }

  method PerformPush(memoryMap: FEMemoryMap, threads: seq<FEThreadContext>, i: nat, value: u32, width: FEBitWidth)
    requires Good(memoryMap, threads) && CanDo(LayoutOf(memoryMap, threads), GuestOp.Push(i, value, width))
    modifies threads[i].regs, memoryMap.buffers
    ensures Good(memoryMap, threads)
    ensures Next(old(GuestOf(memoryMap, threads)), GuestOp.Push(i, value, width), GuestOf(memoryMap, threads))
  {
    hide FirstFit, ListOk, ShadowOk, MemOf, EspOf, Extents, Buffers, Unbacked, WithEsp, Store, Load;
    hide StackSpec.PushedBytes, Wrap32;
    OwnRegisters(memoryMap, threads, i);
    ghost var ts, target := ThreadsOf(memoryMap, threads), ThreadOf(threads[i]).Target(width);
    PushIsPossible(memoryMap, threads, i, width);
    threads[i].stack.Push(value, width);
    forall j | 0 <= j < |threads|
      ensures threads[j].Valid() && ThreadOf(threads[j]) == if j == i then ts[i].(esp := target) else ts[j]
    {}
    GoodByIndex(memoryMap, threads);
    assert ThreadsOf(memoryMap, threads) == ts[i := ts[i].(esp := target)];
  }

  lemma PushIsPossible(memoryMap: FEMemoryMap, threads: seq<FEThreadContext>, i: nat, width: FEBitWidth)
    requires Good(memoryMap, threads) && CanDo(LayoutOf(memoryMap, threads), GuestOp.Push(i, 0, width))
    ensures threads[i].Valid() && threads[i].stack.CanPush(width)
    ensures threads[i].stack.PushBuffer(width) <= memoryMap.buffers
  {
    hide ListOk, ShadowOk, Extents, EspOf, Unbacked, Wrap32;
    OwnRegisters(memoryMap, threads, i);
    var stack, target := threads[i].stack, ThreadOf(threads[i]).Target(width);
    memoryMap.BufferListed(stack.stackBlock);
    if width == k16bit {
      ReachIsInBlock(memoryMap, LayoutOf(memoryMap, threads), target, 2);
      memoryMap.TranslationIsSearch(target, 2);
    }
  }

  method PerformPop(memoryMap: FEMemoryMap, threads: seq<FEThreadContext>, i: nat, width: FEBitWidth)
    returns (result: u32)
    requires Good(memoryMap, threads) && CanDo(LayoutOf(memoryMap, threads), GuestOp.Pop(i, width))
    modifies threads[i].regs
    ensures Good(memoryMap, threads)
    ensures Next(old(GuestOf(memoryMap, threads)), GuestOp.Pop(i, width), GuestOf(memoryMap, threads))
    ensures PoppedFrom(old(GuestOf(memoryMap, threads)), GuestOp.Pop(i, width), result)
  {
    hide LeValue, Wrap32, StackSpec.Moved, FirstFit, ListOk, ShadowOk, MemOf, EspOf, WithEsp, Store, Load;
    hide Extents, Buffers, Unbacked;
    OwnRegisters(memoryMap, threads, i);
    ghost var ts, esp, n := ThreadsOf(memoryMap, threads), threads[i].Esp(), StackSpec.Moved(width);
    PopIsPossible(memoryMap, threads, i, width);
    result := threads[i].stack.Pop(width);
    forall j | 0 <= j < |threads|
      ensures threads[j].Valid() && ThreadOf(threads[j]) == if j == i then ts[i].(esp := esp as int + n) else ts[j]
    {}
    GoodByIndex(memoryMap, threads);
    assert ThreadsOf(memoryMap, threads) == ts[i := ts[i].(esp := esp as int + n)];
  }

  lemma PopIsPossible(memoryMap: FEMemoryMap, threads: seq<FEThreadContext>, i: nat, width: FEBitWidth)
    requires Good(memoryMap, threads) && CanDo(LayoutOf(memoryMap, threads), GuestOp.Pop(i, width))
    ensures var t, n := threads[i], StackSpec.Moved(width);
            && t.Valid() && t.stack.InStack() && t.Esp() as int + n < 0x1_0000_0000
            && StackSpec.Enabled(t.stack.size, t.stack.Contents(), StackSpec.Pop(width))
            && Mapped(memoryMap.Mem(), t.Esp(), n)
            && Load(memoryMap.Mem(), t.Esp(), n) == t.stack.Contents()[..n]
            && EspOf(WithEsp(t.Registers(), t.Esp() as int + n)) == t.Esp() as int + n
            && Wrap32(t.Esp() as int + n) == t.Esp() as int + n
  {
    hide FirstFit, ListOk, ShadowOk, MemOf, EspOf, Extents, Buffers, Unbacked, WithEsp, Load;
    OwnRegisters(memoryMap, threads, i);
    var t, n := threads[i], StackSpec.Moved(width);
    t.stack.LoadedFacts(n);
    LoadSplit(memoryMap.Mem(), t.Esp(), n, t.stack.base as int - (t.Esp() as int + n));
    EspReadBack(t.Registers(), t.Esp() as int + n);
  }

  lemma NothingTakenAway(s: MapState)
    ensures s.blocks <= AfterThread(s).blocks && AfterThread(s).freed <= s.freed
  {}

  method PerformCreate(memoryMap: FEMemoryMap, threads: seq<FEThreadContext>) returns (threads': seq<FEThreadContext>)
    requires Good(memoryMap, threads) && CanDo(LayoutOf(memoryMap, threads), Create)
    modifies memoryMap`freed, memoryMap`buffers, memoryMap.memoryMapBlocksShadow.p
    modifies memoryMap.memoryMapBlocks, memoryMap.memoryMapBlocks.p
    ensures Good(memoryMap, threads')
    ensures Next(old(GuestOf(memoryMap, threads)), Create, GuestOf(memoryMap, threads'))
    ensures memoryMap.ArrayKept() && NewBuffers(memoryMap) && Extended(threads, threads')
  {
    hide FEMemoryMap.Valid, FEMemoryMap.State, FEMemoryMap.Mem, FEThreadContext.Valid, Unbacked;
    hide AfterThread, StackPlace, TibPlace, ThreadMemoryAdded, EspOf;
    ghost var ts := ThreadsOf(memoryMap, threads);
    var thread := CreateBeside(memoryMap, threads);
    threads' := threads + [thread];
    assert ThreadsOf(memoryMap, threads') == ts + [ThreadOf(thread)];
  }

  /** The new thread is made of new objects, and the others are as good as before. */
  method CreateBeside(memoryMap: FEMemoryMap, threads: seq<FEThreadContext>) returns (thread: FEThreadContext)
    requires Good(memoryMap, threads) && CanDo(LayoutOf(memoryMap, threads), Create)
    modifies memoryMap`freed, memoryMap`buffers, memoryMap.memoryMapBlocksShadow.p
    modifies memoryMap.memoryMapBlocks, memoryMap.memoryMapBlocks.p
    ensures memoryMap.Valid() && memoryMap.ArrayKept() && NewBuffers(memoryMap)
    ensures Unbacked(memoryMap.Blocks()) == old(Unbacked(memoryMap.Blocks()))
    ensures fresh(thread) && fresh(thread.regs) && thread.memoryMap == memoryMap && thread.Valid()
    ensures ThreadOf(thread) == NewThread(old(LayoutOf(memoryMap, threads)))
    ensures memoryMap.State() == AfterThread(old(memoryMap.State()))
    ensures ThreadMemoryAdded(old(memoryMap.Mem()), memoryMap.Mem(), TibPlace(old(memoryMap.State())),
                              thread.stack.start)
    ensures forall t :: t in threads ==> t.Valid() && ThreadOf(t) == old(ThreadOf(t))
  {
    hide FirstFit, ListOk, ShadowOk, MemOf, EspOf, Extents, Buffers, Unbacked, WithEsp, Store, Load;
    hide AfterThread, StackPlace, TibPlace, ThreadMemoryAdded, Wrap32;
    NothingTakenAway(memoryMap.State());
    NewStackFits(memoryMap.State());
    thread := FEThreadContext.Create(memoryMap, 0);
    forall t | t in threads ensures t.Valid() && ThreadOf(t) == old(ThreadOf(t)) {
    }
  }

  method PerformMalloc(memoryMap: FEMemoryMap, threads: seq<FEThreadContext>, bytes: u32) returns (r: u32)
    requires Good(memoryMap, threads) && CanDo(LayoutOf(memoryMap, threads), GuestOp.Malloc(bytes))
    modifies memoryMap`freed, memoryMap`buffers, memoryMap.memoryMapBlocksShadow.p
    modifies memoryMap.memoryMapBlocks, memoryMap.memoryMapBlocks.p
    ensures Good(memoryMap, threads)
    ensures Next(old(GuestOf(memoryMap, threads)), GuestOp.Malloc(bytes), GuestOf(memoryMap, threads))
    ensures memoryMap.ArrayKept() && NewBuffers(memoryMap)
  {
    hide FirstFit, ListOk, ShadowOk, MemOf, EspOf, Extents, Buffers, Unbacked, WithEsp, Store, Load, Extends;
    hide FEMemoryMap.Allocated, WrappedGap;
    ghost var ts := ThreadsOf(memoryMap, threads);
    ghost var blocks, slots, state, mem := memoryMap.Blocks(), memoryMap.Slots(), memoryMap.State(), memoryMap.Mem();
    r := memoryMap.Malloc(bytes);
    if r != 0 {
      memoryMap.AllocatedFacts(memoryMap.BlockFromVirtualAddress(r), r, bytes, blocks, slots, state, mem);
    }
    forall j | 0 <= j < |threads| ensures threads[j].Valid() && ThreadOf(threads[j]) == ts[j] {}
    GoodByIndex(memoryMap, threads);
    assert ThreadsOf(memoryMap, threads) == ts;
  }

  /** The buffer of a block, with as much in it as the block takes. */
  ghost function BackingOf(block: FEMemoryMapBlock): Backing
    requires block.localAddress != null ==> block.size <= block.localAddress.Length
    reads block.Buffer()
  {
    if block.localAddress == null then NoBuffer else Buffer(block.localAddress[..block.size])
  }

  /** Maps a block its caller made, with a buffer of its own or none. */
  method PerformMap(memoryMap: FEMemoryMap, threads: seq<FEThreadContext>, block: FEMemoryMapBlock)
    requires Good(memoryMap, threads) && block.end == block.virtualAddress as int + block.size
    requires block.localAddress != null ==> block.size <= block.localAddress.Length
    requires CanDo(LayoutOf(memoryMap, threads), GuestOp.Map(block.Range(), BackingOf(block)))
    requires block.Buffer() !! memoryMap.buffers && block.Buffer() !! RegistersOf(threads)
    modifies memoryMap`freed, memoryMap`buffers, memoryMap.memoryMapBlocksShadow.p
    modifies memoryMap.memoryMapBlocks, memoryMap.memoryMapBlocks.p
    ensures Good(memoryMap, threads)
    ensures Next(old(GuestOf(memoryMap, threads)), GuestOp.Map(block.Range(), old(BackingOf(block))),
                 GuestOf(memoryMap, threads))
    ensures memoryMap.ArrayKept() && memoryMap.buffers == old(memoryMap.buffers) + block.Buffer()
  {
    hide FirstFit, ListOk, ShadowOk, MemOf, EspOf, Extents, Buffers, Unbacked, Disjoint, BytesOf, Fits, WellFormedList;
    hide Fresh, Covers, Extends;
    ghost var ts := ThreadsOf(memoryMap, threads);
    ghost var blocks, mem := memoryMap.Blocks(), memoryMap.Mem();
    BlockIsFresh(memoryMap, block);
    NewAddresses(blocks, block, memoryMap.size);
    memoryMap.Map(block);
    SameMembers(blocks, block, memoryMap.Blocks());
    BytesAdded(block, mem, memoryMap.Mem());
    forall j | 0 <= j < |threads| ensures threads[j].Valid() && ThreadOf(threads[j]) == ts[j] {}
    GoodByIndex(memoryMap, threads);
    assert ThreadsOf(memoryMap, threads) == ts;
  }

  lemma BlockIsFresh(memoryMap: FEMemoryMap, block: FEMemoryMapBlock)
    requires memoryMap.Valid() && Enabled(memoryMap.State(), MapOp.Map(block.Range()))
    requires block.Buffer() !! memoryMap.buffers
    ensures Fresh(block, memoryMap.Blocks()) && WellFormedList(memoryMap.Blocks(), memoryMap.size)
  {
    var blocks := memoryMap.Blocks();
    forall i | 0 <= i < |blocks| ensures Disjoint(block.Range(), blocks[i].Range()) {
      assert blocks[i].Range() in Extents(blocks);
    }
    forall b | b in Buffers(blocks) ensures b != block.localAddress {
      assert b in memoryMap.buffers;
    }
    NewBlockFresh(block, blocks, memoryMap.size);
  }

  lemma BytesAdded(block: FEMemoryMapBlock, mem: map<int, byte>, mem': map<int, byte>)
    requires block.end == block.virtualAddress as int + block.size
    requires block.localAddress != null ==> block.size <= block.localAddress.Length
    requires mem' == mem + BytesOf(block) && forall a :: a in mem ==> !block.ContainsVirtualAddress(a)
    ensures var e := block.Range();
            match BackingOf(block)
            case NoBuffer => mem' == mem
            case Buffer(bytes) =>
              && Extends(mem, mem', e.start, e.End())
              && forall a :: e.Contains(a) ==> a in mem' && mem'[a] == bytes[a - e.start]
  {}

  /** The buffers that have joined are new. */
  twostate predicate NewBuffers(memoryMap: FEMemoryMap)
    reads memoryMap
  {
    old(memoryMap.buffers) <= memoryMap.buffers && fresh(memoryMap.buffers - old(memoryMap.buffers))
  }

  /** The threads are the old ones and perhaps one made of new objects only. */
  twostate predicate Extended(threads: seq<FEThreadContext>, new threads': seq<FEThreadContext>) {
    forall t :: t in threads' && t !in threads ==> fresh(t) && fresh(t.regs)
  }

  /** Performs one operation; `popped` is the value a pop returns, else 0. */
  method Perform(memoryMap: FEMemoryMap, threads: seq<FEThreadContext>, op: GuestOp)
    returns (threads': seq<FEThreadContext>, popped: u32)
    requires Good(memoryMap, threads) && CanDo(LayoutOf(memoryMap, threads), op)
    modifies memoryMap`freed, memoryMap`buffers, memoryMap.memoryMapBlocksShadow.p
    modifies memoryMap.memoryMapBlocks, memoryMap.memoryMapBlocks.p
    modifies RegistersOf(threads), memoryMap.buffers
    ensures Good(memoryMap, threads')
    ensures Next(old(GuestOf(memoryMap, threads)), op, GuestOf(memoryMap, threads'))
    ensures op.Pop? ==> PoppedFrom(old(GuestOf(memoryMap, threads)), op, popped)
    ensures memoryMap.ArrayKept() && NewBuffers(memoryMap) && Extended(threads, threads')
  {
    hide Next, PoppedFrom, MemStep, Place, FEMemoryMap.Valid, FEThreadContext.Valid, Layout.Reaches, Unbacked;
    threads', popped := threads, 0;
    match op {
      case Create => threads' := PerformCreate(memoryMap, threads);
      case SetEsp(i, esp) => PerformSetEsp(memoryMap, threads, i, esp);
      case Push(i, value, width) => PerformPush(memoryMap, threads, i, value, width);
      case Pop(i, width) => popped := PerformPop(memoryMap, threads, i, width);
      case Malloc(bytes) => var _ := PerformMalloc(memoryMap, threads, bytes);
      case Map(e, backing) => MakeAndMap(memoryMap, threads, e, backing);
      case Free(address) => PerformFree(memoryMap, threads, address);
    }
  }

  /** Makes a block, with a new buffer or none, and maps it. */
  method MakeAndMap(memoryMap: FEMemoryMap, threads: seq<FEThreadContext>, e: AddressSpace.Extent, backing: Backing)
    requires Good(memoryMap, threads) && CanDo(LayoutOf(memoryMap, threads), GuestOp.Map(e, backing))
    modifies memoryMap`freed, memoryMap`buffers, memoryMap.memoryMapBlocksShadow.p
    modifies memoryMap.memoryMapBlocks, memoryMap.memoryMapBlocks.p
    ensures Good(memoryMap, threads)
    ensures Next(old(GuestOf(memoryMap, threads)), GuestOp.Map(e, backing), GuestOf(memoryMap, threads))
    ensures memoryMap.ArrayKept() && NewBuffers(memoryMap)
  {
    hide Next, MemStep, Place, FEMemoryMap.Valid, FEThreadContext.Valid, Unbacked, CanDo;
    ghost var ts := ThreadsOf(memoryMap, threads);
    MapBounds(LayoutOf(memoryMap, threads), e, backing);
    var block := NewBlock(e, backing);
    assert ThreadsOf(memoryMap, threads) == ts;
    PerformMap(memoryMap, threads, block);
  }

  lemma MapBounds(l: Layout, e: AddressSpace.Extent, backing: Backing)
    requires CanDo(l, GuestOp.Map(e, backing))
    ensures 0 <= e.start && 0 < e.size && e.End() < 0x1_0000_0000
    ensures backing.Buffer? ==> |backing.bytes| == e.size
  {}

  method NewBlock(e: AddressSpace.Extent, backing: Backing) returns (block: FEMemoryMapBlock)
    requires 0 <= e.start && 0 < e.size && e.End() < 0x1_0000_0000
    requires backing.Buffer? ==> |backing.bytes| == e.size
    ensures fresh(block) && fresh(block.Buffer()) && block.Range() == e && block.end == e.End()
    ensures block.localAddress != null ==> block.size <= block.localAddress.Length
    ensures BackingOf(block) == backing
  {
    var buffer: array?<byte> := null;
    if backing.Buffer? {
      buffer := new byte[e.size](k requires 0 <= k < e.size => backing.bytes[k]);
      assert buffer[..e.size] == backing.bytes;
    }
    block := new FEMemoryMapBlock(e.start, e.size, e.End(), buffer);
  }

  /** Performs a whole run. The states it goes through form a run of the guest. */
  method Execute(memoryMap: FEMemoryMap, threads: seq<FEThreadContext>, ops: seq<GuestOp>)
    returns (threads': seq<FEThreadContext>, popped: seq<u32>, ghost gs: seq<Guest>)
    requires Good(memoryMap, threads) && CanRun(LayoutOf(memoryMap, threads), ops)
    modifies memoryMap`freed, memoryMap`buffers, memoryMap.memoryMapBlocksShadow.p
    modifies memoryMap.memoryMapBlocks, memoryMap.memoryMapBlocks.p
    modifies RegistersOf(threads), memoryMap.buffers
    ensures Good(memoryMap, threads')
    ensures IsRun(gs, ops) && PoppedInRun(gs, ops, popped)
    ensures gs[0] == old(GuestOf(memoryMap, threads)) && gs[|ops|] == GuestOf(memoryMap, threads')
    decreases |ops|
  {
    hide Good, CanDo, PoppedFrom, Place, MemStep;
    ghost var g := GuestOf(memoryMap, threads);
    if ops == [] {
      return threads, [], [g];
    }
    var threads1, value := Perform(memoryMap, threads, ops[0]);
    var threads2, rest, restGs := Execute(memoryMap, threads1, ops[1..]);
    threads', popped, gs := threads2, [value] + rest, [g] + restGs;
  }

  /** Performs a run on a memory map without threads, whatever is mapped in it. At its end all
      stacks and TIBs lie apart, and if no push went outside its stack, every TIB reads back
      the ends of its own thread's stack. */
  method ExecuteOnMap(memoryMap: FEMemoryMap, ops: seq<GuestOp>)
    returns (threads: seq<FEThreadContext>, popped: seq<u32>, ghost gs: seq<Guest>)
    requires memoryMap.Valid() && Good(memoryMap, []) && CanRun(LayoutOf(memoryMap, []), ops)
    modifies memoryMap`freed, memoryMap`buffers, memoryMap.memoryMapBlocksShadow.p
    modifies memoryMap.memoryMapBlocks, memoryMap.memoryMapBlocks.p, memoryMap.buffers
    ensures Good(memoryMap, threads) && Placed(GuestOf(memoryMap, threads))
    ensures AllInside(gs, ops) ==> Inv(GuestOf(memoryMap, threads))
    ensures IsRun(gs, ops) && PoppedInRun(gs, ops, popped)
    ensures gs[0] == old(GuestOf(memoryMap, [])) && gs[|ops|] == GuestOf(memoryMap, threads)
  {
    hide MemOf, ListOk, ShadowOk, CanRun, Placed, Inv, IsRun, PoppedInRun, AllInside;
    MapAloneIsGood(memoryMap);
    InvIsPlaced(GuestOf(memoryMap, []));
    threads, popped, gs := Execute(memoryMap, [], ops);
    RunKeepsPlaced(gs, ops, |ops|);
    if AllInside(gs, ops) { RunKeepsInv(gs, ops, |ops|); }
  }

  lemma InvIsPlaced(g: Guest)
    requires Inv(g)
    ensures Placed(g)
  {}

  /** The same from a new memory map on. */
  method ExecuteFromStart(size: u32, ops: seq<GuestOp>)
    returns (memoryMap: FEMemoryMap, threads: seq<FEThreadContext>, popped: seq<u32>, ghost gs: seq<Guest>)
    requires CanRun(Start(size).layout, ops)
    ensures Good(memoryMap, threads) && Placed(GuestOf(memoryMap, threads))
    ensures AllInside(gs, ops) ==> Inv(GuestOf(memoryMap, threads))
    ensures IsRun(gs, ops) && PoppedInRun(gs, ops, popped)
    ensures gs[0] == Start(size) && gs[|ops|] == GuestOf(memoryMap, threads)
  {
    hide MemOf, ListOk, ShadowOk, CanRun, Placed, Inv, IsRun, PoppedInRun, AllInside;
    memoryMap := new FEMemoryMap(size);
    NoneUnbacked();
    assert ThreadsOf(memoryMap, []) == [];
    threads, popped, gs := ExecuteOnMap(memoryMap, ops);
  }

  // ----- A push outside its stack

  /** In an empty map the TIB of the first thread follows its stack. */
  /** In an empty map of 1 GB the first thread takes pages 1 and 2 for its stack and page 3 for
      its TIB, and the next allocation of a byte gets page 4. */
  lemma FirstThreadPlaces()
    ensures var s := Empty(0x4000_0000);
            HasRoom(s) && StackPlace(s) == 0x1000 && TibPlace(s) == 0x3000 && AfterThread(s).freed == {}
    ensures FirstFit(AfterThread(Empty(0x4000_0000)).blocks, 0x4000_0000, 1) == 0x4000
  {
    var s := Empty(0x4000_0000);
    assert Aligned(0x1000) && Aligned(0x2000) && Aligned(0x3000);
    SearchFinds({}, s.size, STACK_SIZE, PAGE, 0x1000);
    var stack := Extent(0x1000, STACK_SIZE);
    forall c | Aligned(c) && PAGE <= c < 0x3000 ensures !Clear({stack}, c, TIB_SIZE) {}
    assert s.Add(stack).blocks == {stack};
    SearchFinds({stack}, s.size, TIB_SIZE, PAGE, 0x3000);
    SmallSumsDoNotWrap({}, s.size, STACK_SIZE);
    SmallSumsDoNotWrap({stack}, s.size, TIB_SIZE);
    var tib := Extent(0x3000, TIB_SIZE);
    assert AfterThread(s).blocks == {stack, tib};
    assert Aligned(0x4000);
    forall c | Aligned(c) && PAGE <= c < 0x4000 ensures !Clear({stack, tib}, c, 1) {}
    SearchFinds({stack, tib}, s.size, 1, PAGE, 0x4000);
  }

  lemma NoneUnbacked()
    ensures Unbacked([]) == {}
  {}

  /** The first thread of a guest, its ESP set six bytes above the base by an instruction. */
  method ThreadAboveItsBase() returns (thread: FEThreadContext)
    ensures fresh(thread) && thread.Valid() && fresh(thread.memoryMap) && fresh(thread.regs)
    ensures fresh(thread.memoryMap.buffers)
    ensures thread.TIBAddress == thread.stack.base == 0x3000 && thread.Esp() == 0x3006
    ensures thread.memoryMap.State().blocks == AfterThread(Empty(0x4000_0000)).blocks
    ensures thread.memoryMap.freed == {} && Unbacked(thread.memoryMap.Blocks()) == {}
    ensures thread.stack.start == 0x1000
  {
    hide FirstFit, ListOk, ShadowOk, MemOf, EspOf, WithEsp, TibHolds, Extents, Buffers, Unbacked, ThreadMemoryAdded;
    var memoryMap := new FEMemoryMap(0x4000_0000);
    FirstThreadPlaces();
    NoneUnbacked();
    thread := FEThreadContext.Create(memoryMap, 0);
    thread.SetEsp(thread.stack.base as int + 6);
  }

  /** The assertion of a 16-bit push holds there, and its two bytes replace half of the stack
      base kept in the TIB. */
  method PushOverwritesTib(value: u16) returns (thread: FEThreadContext)
    ensures thread.Valid() && thread.TIBAddress == thread.stack.base == 0x3000
    ensures Mapped(thread.memoryMap.Mem(), thread.TIBAddress as int + 4, 2)
    ensures Load(thread.memoryMap.Mem(), thread.TIBAddress as int + 4, 2) == LeBytes(value, 2)
    ensures value != 0x3000 ==> !TibHolds(thread.memoryMap.Mem(), thread.TIBAddress, thread.stack.start)
  {
    hide FirstFit, ListOk, ShadowOk, MemOf, EspOf, WithEsp, TibHolds, LeBytes, Store, Load, Extents, Unbacked;
    hide AfterThread, Wrap32, FEStack.Contents;
    thread := ThreadAboveItsBase();
    TibReached(thread);
    thread.memoryMap.TranslationIsSearch(0x3004, 2);
    ghost var m := thread.memoryMap.Mem();
    thread.stack.Push16(value);
    HalfOfBase(m, value);
  }

  lemma TibReached(thread: FEThreadContext)
    requires thread.Valid() && thread.memoryMap.State().blocks == AfterThread(Empty(0x4000_0000)).blocks
    requires thread.memoryMap.freed == {} && Unbacked(thread.memoryMap.Blocks()) == {}
    ensures thread.memoryMap.InBlock(0x3004, 2) && Wrap32(0x3006 - 2) == 0x3004
  {
    hide ListOk, ShadowOk, Extents, Unbacked, FirstFit;
    FirstThreadPlaces();
    var tib, l := Extent(0x3000, TIB_SIZE), Layout(thread.memoryMap.State(), {}, []);
    assert tib in l.space.blocks && tib.Contains(0x3004);
    assert l.Reaches(0x3004, 2);
    ReachIsInBlock(thread.memoryMap, l, 0x3004, 2);
  }

  /** The TIB of the first thread follows its stack, so that a 32-bit access two bytes below the
      base, and a 16-bit push with ESP one above it, whose assertion holds, run from one block
      into the other: every address is in memory, but not in one buffer. */
  method AccessAcrossBlocks() returns (thread: FEThreadContext)
    ensures thread.Valid() && thread.stack.base == thread.TIBAddress == 0x3000
    ensures thread.stack.start < Wrap32(0x3001 - 2)
    ensures var m := thread.memoryMap;
            && Mapped(m.Mem(), 0x2ffe, 4) && m.Translates(0x2ffe) && !m.InBlock(0x2ffe, 4)
            && Mapped(m.Mem(), 0x2fff, 2) && m.Translates(Wrap32(0x3001 - 2)) && !m.InBlock(Wrap32(0x3001 - 2), 2)
  {
    hide FirstFit, ListOk, ShadowOk, MemOf, EspOf, TibHolds, Extents, Unbacked;
    thread := ThreadAboveItsBase();
    LastBytesOfStack(thread);
  }

  lemma LastBytesOfStack(thread: FEThreadContext)
    requires thread.Valid() && thread.stack.start == 0x1000 && thread.TIBAddress == thread.stack.base == 0x3000
    requires thread.memoryMap.State().blocks == AfterThread(Empty(0x4000_0000)).blocks
    requires thread.memoryMap.freed == {} && Unbacked(thread.memoryMap.Blocks()) == {}
    ensures Wrap32(0x3001 - 2) == 0x2fff
    ensures var m := thread.memoryMap;
            && Mapped(m.Mem(), 0x2ffe, 4)
            && m.Translates(0x2ffe) && !m.InBlock(0x2ffe, 4) && m.Translates(0x2fff) && !m.InBlock(0x2fff, 2)
  {
    hide ListOk, ShadowOk, MemOf, Extents, Unbacked, FirstFit, EspOf;
    var m, tib := thread.memoryMap, Extent(0x3000, TIB_SIZE);
    thread.stack.Translated(0x2ffe);
    thread.stack.Translated(0x2fff);
    m.BlockInMem(thread.stack.stackBlock, 0x1ffe, 2);
    FirstThreadPlaces();
    var l := Layout(m.State(), {}, []);
    assert tib in l.space.blocks && tib.Contains(0x3000);
    assert l.Reaches(0x3000, 2);
    ReachIsInBlock(m, l, 0x3000, 2);
    m.TranslationIsSearch(0x3000, 2);
  }

  lemma HalfOfBase(m: map<int, byte>, value: u16)
    requires Mapped(m, 0x3004, 2)
    ensures var m' := Store(m, 0x3004, LeBytes(value, 2));
            && Mapped(m', 0x3004, 2) && Load(m', 0x3004, 2) == LeBytes(value, 2)
            && (value != 0x3000 ==> !TibHolds(m', 0x3000, 0x1000))
  {
    hide LeBytes, LeValue, Pow2, Store;
    Pow2Of32();
    StoredIsLoaded(m, 0x3004, LeBytes(value, 2));
    var m' := Store(m, 0x3004, LeBytes(value, 2));
    if TibHolds(m', 0x3000, 0x1000) {
      assert Load(m', 0x3004, 4) == LeBytes(0x3000, 4);
      LoadSplit(m', 0x3004, 2, 2);
      LeBytesConcat(0x3000, 2, 0, 2);
      assert LeBytes(value, 2) == Load(m', 0x3004, 4)[..2] == LeBytes(0x3000, 2);
      LoadAfterStore(value, 2);
      LoadAfterStore(0x3000, 2);
    }
  }
}
