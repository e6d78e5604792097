/** A guest thread: its registers, its stack and its thread information block (TIB) in
    guest memory. */
module FEThreads {
  import opened Words
  import opened AddressSpace
  import opened FlatMemory
  import opened FEMemoryMapBlocks
  import opened FirstFitWalk
  import opened FEMemoryMaps
  import opened RegisterFile
  import opened CpuArithmetic
  import StackSpec

  const STACK_SIZE: u32 := 8 * 1024
  const TIB_SIZE: u32 := 3 * 1024

  // ----- Where a new thread goes

  ghost function StackPlace(s: MapState): int { FirstFit(s.blocks, s.size, STACK_SIZE) }

  ghost function AfterStack(s: MapState): MapState { s.Add(Extent(StackPlace(s), STACK_SIZE)) }

  ghost function TibPlace(s: MapState): int { FirstFit(AfterStack(s).blocks, s.size, TIB_SIZE) }

  ghost function AfterThread(s: MapState): MapState { AfterStack(s).Add(Extent(TibPlace(s), TIB_SIZE)) }

  /** Both allocations can be asked for and find a place. */
  ghost predicate HasRoom(s: MapState) {
    && Enabled(s, MapOp.Malloc(STACK_SIZE)) && StackPlace(s) != 0
    && Enabled(AfterStack(s), MapOp.Malloc(TIB_SIZE)) && TibPlace(s) != 0
  }

  /** A TIB at `tib` of a thread whose stack starts at `start`: the SEH frame, the ends of the
      stack, the process id and the thread id. */
  ghost predicate TibHolds(m: map<int, byte>, tib: int, start: nat) {
    && Mapped(m, tib, TIB_SIZE)
    && Load(m, tib, 4) == LeBytes(0, 4)
    && Load(m, tib + 4, 4) == LeBytes(start + STACK_SIZE, 4)
    && Load(m, tib + 8, 4) == LeBytes(start, 4)
    && Load(m, tib + 0x20, 4) == LeBytes(0, 4)
    && Load(m, tib + 0x24, 4) == LeBytes(1, 4)
  }

  /** `m'` is `m` with the memory of a new thread added. */
  ghost predicate ThreadMemoryAdded(m: map<int, byte>, m': map<int, byte>, tib: int, start: nat) {
    && (forall a :: a in m ==> a in m' && m'[a] == m[a])
    && (forall a :: a in m' <==> a in m || start <= a < start + STACK_SIZE || tib <= a < tib + TIB_SIZE)
    && (forall a :: a in m ==> !(start <= a < start + STACK_SIZE) && !(tib <= a < tib + TIB_SIZE))
    && TibHolds(m', tib, start)
  }

  lemma StackThenTib(m: map<int, byte>, m': map<int, byte>, m'': map<int, byte>, tib: int, start: nat)
    requires Extends(m, m', start, start + STACK_SIZE) && Extends(m', m'', tib, tib + TIB_SIZE)
    requires TibHolds(m'', tib, start)
    ensures ThreadMemoryAdded(m, m'', tib, start)
  {
    hide TibHolds;
  }

  /** The five stores that fill a TIB put each field where it belongs and touch nothing else. */
  lemma TibFields(m: map<int, byte>, tib: int, start: nat, m': map<int, byte>)
    requires Mapped(m, tib, TIB_SIZE)
    requires m' == Store(Store(Store(Store(Store(m, tib, LeBytes(0, 4)), tib + 4, LeBytes(start + STACK_SIZE, 4)),
                     tib + 8, LeBytes(start, 4)), tib + 0x20, LeBytes(0, 4)), tib + 0x24, LeBytes(1, 4))
    ensures TibHolds(m', tib, start)
    ensures SameOutside(m, m', tib, tib + TIB_SIZE)
  {
    hide LeBytes, Store, Load;
    var m1 := Store(m, tib, LeBytes(0, 4));
    var m2 := Store(m1, tib + 4, LeBytes(start + STACK_SIZE, 4));
    var m3 := Store(m2, tib + 8, LeBytes(start, 4));
    var m4 := Store(m3, tib + 0x20, LeBytes(0, 4));
    Field(m, tib, LeBytes(0, 4), tib);
    Field(m1, tib + 4, LeBytes(start + STACK_SIZE, 4), tib);
    Field(m2, tib + 8, LeBytes(start, 4), tib);
    Field(m3, tib + 0x20, LeBytes(0, 4), tib);
    Field(m4, tib + 0x24, LeBytes(1, 4), tib);
    assert m' == Store(m4, tib + 0x24, LeBytes(1, 4));
    Kept(m1, tib + 4, LeBytes(start + STACK_SIZE, 4), tib);
    Kept(m2, tib + 8, LeBytes(start, 4), tib);
    Kept(m3, tib + 0x20, LeBytes(0, 4), tib);
    Kept(m4, tib + 0x24, LeBytes(1, 4), tib);
    Kept(m2, tib + 8, LeBytes(start, 4), tib + 4);
    Kept(m3, tib + 0x20, LeBytes(0, 4), tib + 4);
    Kept(m4, tib + 0x24, LeBytes(1, 4), tib + 4);
    Kept(m3, tib + 0x20, LeBytes(0, 4), tib + 8);
    Kept(m4, tib + 0x24, LeBytes(1, 4), tib + 8);
    Kept(m4, tib + 0x24, LeBytes(1, 4), tib + 0x20);
  }

  lemma Field(m: map<int, byte>, a: int, bytes: seq<byte>, tib: int)
    requires Mapped(m, tib, TIB_SIZE) && tib <= a && a + |bytes| <= tib + TIB_SIZE
    ensures var m' := Store(m, a, bytes);
            && Mapped(m', tib, TIB_SIZE) && m'.Keys == m.Keys && Load(m', a, |bytes|) == bytes
            && forall x :: x in m && !(tib <= x < tib + TIB_SIZE) ==> m'[x] == m[x]
  {
    LoadOverlapping(m, a, bytes, a, |bytes|);
  }

  lemma Kept(m: map<int, byte>, a: int, bytes: seq<byte>, b: int)
    requires Mapped(m, b, 4) && (b + 4 <= a || a + |bytes| <= b)
    ensures var m' := Store(m, a, bytes);
            Mapped(m', b, 4) && Load(m', b, 4) == Load(m, b, 4)
  {
    LoadOverlapping(m, a, bytes, b, 4);
  }

  method FillTib(memoryMap: FEMemoryMap, ghost block: FEMemoryMapBlock, tib: u32, start: u32, base: u32, threadId: u16)
    requires memoryMap.Valid() && Aligned(tib) && block in memoryMap.Blocks()
    requires memoryMap.Translates(tib) && memoryMap.BlockFromVirtualAddress(tib) == block
    requires block.virtualAddress == tib && block.end == tib as int + TIB_SIZE && block.localAddress != null
    requires base == start as int + STACK_SIZE && threadId == 1
    modifies block.Buffer()
    ensures memoryMap.Valid() && memoryMap.State() == old(memoryMap.State())
    ensures memoryMap.Blocks() == old(memoryMap.Blocks()) && memoryMap.Slots() == old(memoryMap.Slots())
    ensures TibHolds(memoryMap.Mem(), tib, start)
    ensures SameOutside(old(memoryMap.Mem()), memoryMap.Mem(), tib, tib as int + TIB_SIZE)
  {
    hide ListOk, ShadowOk, MemOf, LeBytes, Store, Load, TibHolds;
    memoryMap.BlockInMem(block, 0, TIB_SIZE);
    SamePage(tib, 0x4);
    SamePage(tib, 0x8);
    SamePage(tib, 0x20);
    SamePage(tib, 0x24);
    ghost var m := memoryMap.Mem();
    // no exception handler yet
    memoryMap.SetValue32(tib, 0);
    // where the stack begins, at its high end
    memoryMap.SetValue32(tib as int + 0x4, base);
    // and how far down it may grow
    memoryMap.SetValue32(tib as int + 0x8, start);
    // the only process is number 0
    memoryMap.SetValue32(tib as int + 0x20, 0);
    // and its thread is known by this number
    memoryMap.SetValue32(tib as int + 0x24, threadId);
    TibFields(m, tib, start, memoryMap.Mem());
  }

  ghost predicate TibMade(memoryMap: FEMemoryMap, tib: int, start: nat, state: MapState, mem: map<int, byte>,
                          blocks: seq<FEMemoryMapBlock?>)
    reads memoryMap, memoryMap.memoryMapBlocksShadow, memoryMap.memoryMapBlocks
    reads memoryMap.memoryMapBlocksShadow.p, memoryMap.memoryMapBlocks.p, memoryMap.buffers
  {
    && memoryMap.Valid()
    && tib == FirstFit(state.blocks, state.size, TIB_SIZE)
    && memoryMap.State() == state.Add(Extent(tib, TIB_SIZE))
    && (forall c :: c in blocks ==> c in memoryMap.Blocks())
    && Extends(mem, memoryMap.Mem(), tib, tib + TIB_SIZE)
    && TibHolds(memoryMap.Mem(), tib, start)
  }

  /** Allocates and fills the TIB of a thread whose stack lies from `start` to `base`. */
  method MakeTib(memoryMap: FEMemoryMap, start: u32, base: u32, threadId: u16) returns (tib: u32)
    requires memoryMap.Valid() && base == start as int + STACK_SIZE && threadId == 1
    requires Enabled(memoryMap.State(), MapOp.Malloc(TIB_SIZE))
    requires FirstFit(memoryMap.State().blocks, memoryMap.size, TIB_SIZE) != 0
    modifies memoryMap`freed, memoryMap`buffers, memoryMap.memoryMapBlocksShadow.p
    modifies memoryMap.memoryMapBlocks, memoryMap.memoryMapBlocks.p
    ensures memoryMap.Grown()
    ensures TibMade(memoryMap, tib, start, old(memoryMap.State()), old(memoryMap.Mem()), old(memoryMap.Blocks()))
  {
    hide FirstFit, ListOk, ShadowOk, MemOf, BytesOf, FEMemoryMap.Allocated, TibHolds, Extends, SameOutside;
    hide Extents, Buffers, Unbacked, WrappedGap;
    ghost var blocks, slots, state, mem := memoryMap.Blocks(), memoryMap.Slots(), memoryMap.State(), memoryMap.Mem();
    tib := memoryMap.Malloc(TIB_SIZE);
    var block := memoryMap.BlockFromVirtualAddress(tib);
    memoryMap.AllocatedFacts(block, tib, TIB_SIZE, blocks, slots, state, mem);
    ghost var mem' := memoryMap.Mem();
    FillTib(memoryMap, block, tib, start, base, threadId);
    ExtendsThenSame(mem, mem', memoryMap.Mem(), tib, tib as int + TIB_SIZE);
  }

  lemma SamePage(a: int, k: int)
    requires Aligned(a) && 0 <= k < PAGE
    ensures (a + k) / PAGE == a / PAGE
  {}

  class FEThreadContext {
    const memoryMap: FEMemoryMap
    var stack: FEStack?
    var cpuFlags: FECPUFlags
    /** The register fields, in the order of their declaration. */
    const regs: array<byte>
    var threadId: u16
    var TIBAddress: u32

    /** The thread's stack is good and its TIB is a block of its own. */
    ghost predicate Valid()
      reads this, regs, memoryMap, memoryMap.memoryMapBlocksShadow, memoryMap.memoryMapBlocks
      reads memoryMap.memoryMapBlocksShadow.p, memoryMap.memoryMapBlocks.p
    {
      && stack != null && stack.threadContext == this && stack.memoryMap == memoryMap
      && stack.size == STACK_SIZE && stack.Valid()
      && Extent(TIBAddress, TIB_SIZE) in memoryMap.State().blocks
    }

    /** The stack and the TIB lie where the allocator puts them from `state` on, the stack is
        empty, and their memory has been added to `mem`. */
    static ghost predicate Made(memoryMap: FEMemoryMap, stack: FEStack, tib: u32, state: MapState, mem: map<int, byte>)
      reads memoryMap, memoryMap.memoryMapBlocksShadow, memoryMap.memoryMapBlocks
      reads memoryMap.memoryMapBlocksShadow.p, memoryMap.memoryMapBlocks.p, memoryMap.buffers, stack.threadContext.regs
    {
      && memoryMap.Valid() && stack.threadContext.regs.Length == SIZE
      && memoryMap.State() == AfterThread(state)
      && stack.start == StackPlace(state) && tib == TibPlace(state)
      && stack.threadContext.Esp() == stack.base
      && ThreadMemoryAdded(mem, memoryMap.Mem(), tib, stack.start)
    }

    static lemma TibListed(memoryMap: FEMemoryMap, stack: FEStack, tib: u32, state: MapState, mem: map<int, byte>)
      requires Made(memoryMap, stack, tib, state, mem)
      ensures memoryMap.Valid() && Extent(tib, TIB_SIZE) in memoryMap.State().blocks
    {
      hide FirstFit, ThreadMemoryAdded;
    }

    constructor Blank(memoryMap: FEMemoryMap)
      ensures this.memoryMap == memoryMap && fresh(regs) && regs.Length == SIZE && stack == null
      ensures cpuFlags == NO_FLAGS && threadId == 1
    {
      this.memoryMap := memoryMap;
      cpuFlags := NO_FLAGS;
      regs := new byte[SIZE];
      threadId := 1;
      TIBAddress := 0;
      stack := null;
    }

    /** Creates a thread: its stack first, then its TIB, into which go the ends of the stack,
        a process id of 0 and the thread id. The requested stack size is not used. */
    static method Create(memoryMap: FEMemoryMap, stackSize: u32) returns (thread: FEThreadContext)
      requires memoryMap.Valid() && HasRoom(memoryMap.State())
      modifies memoryMap`freed, memoryMap`buffers, memoryMap.memoryMapBlocksShadow.p
      modifies memoryMap.memoryMapBlocks, memoryMap.memoryMapBlocks.p
      ensures fresh(thread) && fresh(thread.regs) && thread.memoryMap == memoryMap
      ensures thread.cpuFlags == FECPUFlags(false, false, false, false, false, false, false, false, false)
      ensures thread.threadId == 1
      ensures memoryMap.Valid() && Extent(thread.TIBAddress, 3072) in memoryMap.State().blocks
      ensures thread.Valid() && thread.stack.size == 8192
      ensures fresh(thread.stack) && fresh(thread.stack.stackBlock.Buffer())
      ensures memoryMap.Grown()
      ensures Made(memoryMap, thread.stack, thread.TIBAddress, old(memoryMap.State()), old(memoryMap.Mem()))
    {
      hide FirstFit, ListOk, ShadowOk, MemOf, EspOf, Made, Extents, Buffers, Unbacked;
      thread := new FEThreadContext.Blank(memoryMap);
      var stack, tib := thread.MakeStackAndTib();
      TibListed(memoryMap, stack, tib, old(memoryMap.State()), old(memoryMap.Mem()));
      thread.stack, thread.TIBAddress := stack, tib;
    }

    method MakeStackAndTib() returns (stack: FEStack, tib: u32)
      requires memoryMap.Valid() && HasRoom(memoryMap.State())
      requires regs.Length == SIZE && regs !in memoryMap.buffers && threadId == 1
      modifies memoryMap`freed, memoryMap`buffers, memoryMap.memoryMapBlocksShadow.p
      modifies memoryMap.memoryMapBlocks, memoryMap.memoryMapBlocks.p, regs
      ensures fresh(stack) && fresh(stack.stackBlock.Buffer()) && StackOf(stack)
      ensures memoryMap.Grown()
      ensures Made(memoryMap, stack, tib, old(memoryMap.State()), old(memoryMap.Mem()))
    {
      hide FirstFit, ListOk, ShadowOk, MemOf, BytesOf, EspOf, TibHolds, Extends, ThreadMemoryAdded;
      hide Extents, Buffers, Unbacked;
      ghost var mem := memoryMap.Mem();
      stack := MakeStack();
      ghost var mem' := memoryMap.Mem();
      tib := MakeTib(memoryMap, stack.start, stack.base, threadId);
      StackThenTib(mem, mem', memoryMap.Mem(), tib, stack.start);
    }

    ghost predicate StackOf(stack: FEStack)
      reads regs, memoryMap, memoryMap.memoryMapBlocksShadow, memoryMap.memoryMapBlocks
      reads memoryMap.memoryMapBlocksShadow.p, memoryMap.memoryMapBlocks.p
    {
      && stack.threadContext == this && stack.memoryMap == memoryMap && stack.size == STACK_SIZE
      && stack.Valid()
    }

    method MakeStack() returns (stack: FEStack)
      requires memoryMap.Valid() && Enabled(memoryMap.State(), MapOp.Malloc(STACK_SIZE))
      requires FirstFit(memoryMap.State().blocks, memoryMap.size, STACK_SIZE) != 0
      requires regs.Length == SIZE && regs !in memoryMap.buffers
      modifies memoryMap`freed, memoryMap`buffers, memoryMap.memoryMapBlocksShadow.p
      modifies memoryMap.memoryMapBlocks, memoryMap.memoryMapBlocks.p, regs
      ensures fresh(stack) && fresh(stack.stackBlock.Buffer()) && StackOf(stack)
      ensures memoryMap.Grown()
      ensures StackMade(stack, old(memoryMap.State()), old(memoryMap.Mem()))
    {
      hide FirstFit, ListOk, ShadowOk, MemOf, BytesOf, EspOf, WithEsp, FEMemoryMap.Allocated, Extends;
      ghost var blocks, slots, state, mem := memoryMap.Blocks(), memoryMap.Slots(), memoryMap.State(), memoryMap.Mem();
      stack := new FEStack(STACK_SIZE, memoryMap, this);
      memoryMap.AllocatedFacts(stack.stackBlock, stack.start, STACK_SIZE, blocks, slots, state, mem);
    }

    ghost predicate StackMade(stack: FEStack, state: MapState, mem: map<int, byte>)
      reads regs, memoryMap, memoryMap.memoryMapBlocksShadow, memoryMap.memoryMapBlocks
      reads memoryMap.memoryMapBlocksShadow.p, memoryMap.memoryMapBlocks.p, memoryMap.buffers
    {
      && memoryMap.Valid() && regs.Length == SIZE
      && stack.start == FirstFit(state.blocks, state.size, STACK_SIZE)
      && memoryMap.State() == state.Add(Extent(stack.start, STACK_SIZE))
      && Esp() == stack.base
      && Extends(mem, memoryMap.Mem(), stack.start, stack.start as int + STACK_SIZE)
    }

    ghost function Registers(): File
      requires regs.Length == SIZE
      reads regs
    {
      regs[..]
    }

    function Esp(): u32
      requires regs.Length == SIZE
      reads regs
    {
      EspOf(regs[..])
    }

    /** The view reads back what was written to it, cut to its width; views that share no byte
        with it read as before. */
    method SetRegister(name: FERegisterName, value: u32, width: FEBitWidth)
      requires regs.Length == SIZE && InFile(name, width)
      modifies regs
      ensures Registers() == Write(old(Registers()), name, value, width)
      ensures Register(name, width) == Truncate(value, width)
      ensures forall other, width' :: InFile(other, width') && ShareNoByte(name, width, other, width') ==>
                Register(other, width') == old(Register(other, width'))
    {
      hide Offset, LeBytes, Read, Truncate, ShareNoByte;
      ghost var file := Registers();
      CopyInto(regs, Offset(name), LeBytes(value, width.Bytes()));
      assert Registers() == Write(file, name, value, width);
      ReadAfterWrite(file, name, value, width);
      forall other, width' | InFile(other, width') && ShareNoByte(name, width, other, width')
        ensures Register(other, width') == Read(file, other, width')
      {
        ReadElsewhere(file, name, value, width, other, width');
      }
    }

    /** After any run of writes each view reads as the last write to it left it, if later ones
        were elsewhere, and as before if all were. */
    method SetRegisters(run: seq<Access>)
      requires regs.Length == SIZE && OkRun(run)
      modifies regs
      ensures Registers() == Writes(old(Registers()), run)
      ensures forall j, name, width :: InFile(name, width) && LastWriteTo(run, j, name, width) ==>
                Register(name, width) == Truncate(run[j].value, width)
      ensures forall name, width :: InFile(name, width) && NeverWritten(run, name, width) ==>
                Register(name, width) == old(Register(name, width))
    {
      hide Read, Write, Truncate, NeverWritten, InFile, ShareNoByte;
      ghost var file := Registers();
      var i := 0;
      while i < |run|
        invariant 0 <= i <= |run| && Registers() == Writes(file, run[..i])
      {
        assert run[i].Ok() && run[..i + 1][..i] == run[..i];
        SetRegister(run[i].name, run[i].value, run[i].width);
        i := i + 1;
      }
      assert run[..i] == run;
      forall j, name, width | InFile(name, width) && LastWriteTo(run, j, name, width)
        ensures Register(name, width) == Truncate(run[j].value, width)
      {
        ReadAfterWrites(file, run, j, name, width);
      }
      forall name, width | InFile(name, width) && NeverWritten(run, name, width)
        ensures Register(name, width) == Read(file, name, width)
      {
        ReadAfterWrites(file, run, 0, name, width);
      }
    }

    /** The parts of a register read its low half and the bytes of it, and the stack pointer is
        what ESP reads. */
    lemma RegisterParts(half: FERegisterName, whole: FERegisterName, v: Views)
      requires regs.Length == SIZE && HalfOf(half, whole) && Nested(v)
      ensures InFile(half, k16bit) && InFile(whole, k32bit)
      ensures Register(half, k16bit) == Register(whole, k32bit) % 0x1_0000
      ensures InFile(v.whole, k32bit) && InFile(v.low, k8bit) && InFile(v.high, k8bit)
      ensures Register(v.low, k8bit) == Register(v.whole, k32bit) % 0x100
      ensures Register(v.high, k8bit) == Register(v.whole, k32bit) / 0x100 % 0x100
      ensures InFile(ESP, k32bit) && Esp() == Register(ESP, k32bit)
    {
      hide Read, Offset;
      ReadHalf(regs[..], half, whole);
      NestedOffsets(v);
      ReadParts(regs[..], v);
      EspInFile();
    }

    method SetEsp(value: u32)
      requires regs.Length == SIZE
      modifies regs
      ensures Registers() == WithEsp(old(Registers()), value) && Esp() == value
    {
      hide EspOf, Offset, Write;
      EspInFile();
      EspReadBack(regs[..], value);
      SetRegister(ESP, value, k32bit);
    }

    function Register(name: FERegisterName, width: FEBitWidth): u32
      requires regs.Length == SIZE && InFile(name, width)
      reads regs
    {
      Read(regs[..], name, width)
    }

    /** Signed multiplication: the exact product, with CF and OF set if and only if it
        does not fit the operand width. */
    method Imul32(arg1: u32, arg2: u32, width: FEBitWidth) returns (result: u64)
      modifies this`cpuFlags
      ensures var product := ToSigned(arg1, width) * ToSigned(arg2, width);
              && result == (if product < 0 then product + 0x1_0000_0000_0000_0000 else product)
              && ToInt64(result) == product
              && cpuFlags == old(cpuFlags).(
                   CF := !FitsSigned(product, width), OF := !FitsSigned(product, width),
                   SF := ToSigned(product, width) < 0, PF := EvenParity(product % 0x100))
              && cpuFlags.SF == Bit(ToUnsigned(product, width), 8 * width.Bytes() - 1)
              && cpuFlags.PF == (|SetBits(product % 0x100, 8)| % 2 == 0)
    {
      hide ToSigned, ToUnsigned, FitsSigned, ToInt64, ToUint64, EvenParity, Bit;
      var sArg1, sArg2 := ToSigned(arg1, width), ToSigned(arg2, width);
      SignedProductBound(sArg1, sArg2, width);
      Int64Exact(sArg1 * sArg2);
      var product := ToInt64(sArg1 * sArg2);
      var truncated := ToSigned(product, width);
      TruncationExact(product, width);
      SignIsTopBit(product, width);
      ParityCountsBits(product % 0x100);
      var flag, sign := truncated != product, truncated < 0;
      cpuFlags := cpuFlags.(PF := EvenParity(product % 0x100), CF := flag, OF := flag, SF := sign);
      result := ToUint64(product);
    }

    /** Unsigned multiplication likewise. */
    method Mul32(arg1: u32, arg2: u32, width: FEBitWidth) returns (result: u64)
      modifies this`cpuFlags
      ensures var product := ToUnsigned(arg1, width) * ToUnsigned(arg2, width);
              && result == product
              && cpuFlags == old(cpuFlags).(
                   CF := !FitsUnsigned(product, width), OF := !FitsUnsigned(product, width),
                   SF := ToSigned(product, width) < 0, PF := EvenParity(product % 0x100))
              && cpuFlags.SF == Bit(ToUnsigned(product, width), 8 * width.Bytes() - 1)
              && cpuFlags.PF == (|SetBits(product % 0x100, 8)| % 2 == 0)
    {
      hide ToSigned, ToUnsigned, FitsUnsigned, ToUint64, EvenParity, Bit, Modulus;
      var uArg1, uArg2 := ToUnsigned(arg1, width), ToUnsigned(arg2, width);
      UnsignedProductBound(uArg1, uArg2, width);
      Uint64Exact(uArg1 * uArg2);
      result := ToUint64(uArg1 * uArg2);
      var truncated := ToUnsigned(result, width);
      HighHalf(result, width);
      SignIsTopBit(result, width);
      ParityCountsBits(result % 0x100);
      var flag := result / Modulus(width) % Modulus(width) != 0;
      var sign := truncated / (Modulus(width) / 2) % 2 == 1;
      cpuFlags := cpuFlags.(PF := EvenParity(result % 0x100), CF := flag, OF := flag, SF := sign);
    }
  }

  /** A product of two operands exceeds one operand exactly if its upper half is not
      zero, and the top bit of its lower half is the sign of its truncation. */
  lemma HighHalf(x: u64, width: FEBitWidth)
    requires x < Modulus(width) * Modulus(width)
    ensures x / Modulus(width) % Modulus(width) != 0 <==> !FitsUnsigned(x, width)
    ensures ToUnsigned(x, width) / (Modulus(width) / 2) % 2 == 1 <==> ToSigned(x, width) < 0
  {
    var m := Modulus(width);
    var q, r := x / m, x % m;
    hide Modulus;
    ProductDigits(x, m, q, r);
    TopHalf(r, m / 2);
  }

  /** The two digits of a number below `m * m` to the base `m`. */
  lemma ProductDigits(x: nat, m: nat, q: int, r: int)
    requires 0 < m && x < m * m && x == m * q + r && 0 <= r < m
    ensures 0 <= q < m && q % m == q && (q == 0 <==> x < m)
  {
    if q < 0 { MulGrows(q, m); }
    if q >= m { MulGrows(q - m, m); assert m * q == m * m + (q - m) * m; }
    QuotientIs(q, m, 0, q);
    if q >= 1 { MulGrows(q, m); }
  }

  /** The guest stack: a block of guest memory that grows down from `base`; the stack
      pointer is the ESP of its thread. */
  class FEStack {
    const threadContext: FEThreadContext
    const memoryMap: FEMemoryMap
    const stackBlock: FEMemoryMapBlock
    const size: u32
    const start: u32
    const base: u32

    /** The block is listed and has a buffer. Of the stack pointer nothing is said: guest
        instructions move it anywhere. */
    ghost predicate Valid()
      reads memoryMap, memoryMap.memoryMapBlocksShadow, memoryMap.memoryMapBlocks
      reads memoryMap.memoryMapBlocksShadow.p, memoryMap.memoryMapBlocks.p, threadContext.regs
    {
      && memoryMap.Valid() && threadContext.regs.Length == SIZE
      && threadContext.regs !in memoryMap.buffers
      && stackBlock in memoryMap.Blocks() && stackBlock.Range() == Extent(start, size)
      && stackBlock.localAddress != null && 0 < start && base == start as int + size == stackBlock.end
    }

    /** The stack pointer is in the stack. */
    ghost predicate InStack()
      requires threadContext.regs.Length == SIZE
      reads threadContext.regs
    {
      start <= threadContext.Esp() <= base
    }

    /** The bytes on the stack, the last pushed first. */
    ghost function Contents(): seq<byte>
      requires Valid() && InStack()
      reads memoryMap, memoryMap.memoryMapBlocksShadow, memoryMap.memoryMapBlocks
      reads memoryMap.memoryMapBlocksShadow.p, memoryMap.memoryMapBlocks.p, threadContext.regs
      reads memoryMap.buffers
    {
      var esp := threadContext.Esp();
      memoryMap.BlockInMem(stackBlock, esp - start, base - esp);
      Load(memoryMap.Mem(), esp, base - esp)
    }

    constructor (size: u32, memory: FEMemoryMap, threadContext: FEThreadContext)
      requires memory.Valid() && Enabled(memory.State(), MapOp.Malloc(size))
      requires FirstFit(memory.State().blocks, memory.size, size) != 0
      requires threadContext.regs.Length == SIZE && threadContext.regs !in memory.buffers
      modifies memory`freed, memory`buffers, memory.memoryMapBlocksShadow.p
      modifies memory.memoryMapBlocks, memory.memoryMapBlocks.p
      modifies threadContext.regs
      ensures Valid() && this.threadContext == threadContext && memoryMap == memory && this.size == size
      ensures start == FirstFit(old(memory.State()).blocks, memory.size, size)
      ensures memory.ArrayKept()
      ensures fresh(stackBlock) && fresh(stackBlock.Buffer())
      ensures memory.Allocated(stackBlock, start, size, old(memory.Blocks()), old(memory.Slots()), old(memory.State()),
                               old(memory.Mem()))
      ensures threadContext.Registers() == WithEsp(old(threadContext.Registers()), base)
      ensures threadContext.Esp() == base
    {
      hide FirstFit, ListOk, ShadowOk, MemOf, BytesOf, EspOf, WithEsp, Disjoint, Wrap32, Extents, WrappedGap;
      hide FEMemoryMap.Allocated;
      var address := memory.Malloc(size);
      var block := memory.BlockFromVirtualAddress(address);
      NoWrap(address as int + size);
      this.threadContext := threadContext;
      memoryMap := memory;
      this.size := size;
      start := address;
      base := Wrap32(address as int + size);
      stackBlock := block;
      new;
      NewStackFacts(old(memory.Blocks()), old(memory.Slots()), old(memory.State()), old(memory.Mem()));
      threadContext.SetEsp(Wrap32(start as int + size));
    }

    /** A block just allocated can hold a stack. */
    lemma NewStackFacts(blocks: seq<FEMemoryMapBlock?>, slots: seq<FEMemoryMapBlock?>, state: MapState,
                        mem: map<int, byte>)
      requires memoryMap.Allocated(stackBlock, start, size, blocks, slots, state, mem)
      ensures memoryMap.Valid() && stackBlock in memoryMap.Blocks()
      ensures stackBlock.Range() == Extent(start, size) && stackBlock.end == start as int + size
      ensures stackBlock.localAddress != null && memoryMap.buffers == Buffers(blocks) + {stackBlock.localAddress}
    {
      SameMembers(blocks, stackBlock, memoryMap.Blocks());
    }

    /** The stack pointer has moved down by `|bytes|`, modulo 2^32, and the bytes are where it
        points; nothing else has changed. If that is in the stack, they precede the former
        contents. */
    twostate predicate Pushed(bytes: seq<byte>)
      reads memoryMap, memoryMap.memoryMapBlocksShadow, memoryMap.memoryMapBlocks
      reads memoryMap.memoryMapBlocksShadow.p, memoryMap.memoryMapBlocks.p, threadContext.regs
      reads memoryMap.buffers
    {
      && old(Valid()) && Valid() && SameLayout()
      && var stackPtr := Wrap32(old(threadContext.Esp()) as int - |bytes|);
      && threadContext.Registers() == WithEsp(old(threadContext.Registers()), stackPtr)
      && threadContext.Esp() == stackPtr
      && memoryMap.Mem() == Store(old(memoryMap.Mem()), stackPtr, bytes)
      && (old(InStack()) && start as int + |bytes| <= old(threadContext.Esp()) ==>
            InStack() && Contents() == bytes + old(Contents()))
    }

    /** The stack pointer has moved up by `n` and nothing else has changed. */
    twostate predicate Popped(n: nat, value: int)
      reads memoryMap, memoryMap.memoryMapBlocksShadow, memoryMap.memoryMapBlocks
      reads memoryMap.memoryMapBlocksShadow.p, memoryMap.memoryMapBlocks.p, threadContext.regs
      reads memoryMap.buffers
    {
      && old(Valid()) && Valid() && SameLayout() && old(InStack()) && InStack()
      && old(threadContext.Esp()) as int + n < 0x1_0000_0000
      && threadContext.Registers() == WithEsp(old(threadContext.Registers()), old(threadContext.Esp()) as int + n)
      && memoryMap.Mem() == old(memoryMap.Mem())
      && n <= |old(Contents())| && value == LeValue(old(Contents())[..n]) && Contents() == old(Contents())[n..]
    }

    twostate predicate SameLayout()
      requires old(memoryMap.Valid()) && memoryMap.Valid()
      reads memoryMap, memoryMap.memoryMapBlocksShadow, memoryMap.memoryMapBlocks
      reads memoryMap.memoryMapBlocksShadow.p, memoryMap.memoryMapBlocks.p
    {
      && memoryMap.State() == old(memoryMap.State()) && memoryMap.buffers == old(memoryMap.buffers)
      && memoryMap.Blocks() == old(memoryMap.Blocks()) && memoryMap.Slots() == old(memoryMap.Slots())
    }

    method Push32(value: u32)
      requires Valid() && start < Wrap32(threadContext.Esp() as int - 4) <= base as int - 4
      modifies threadContext.regs, stackBlock.Buffer()
      ensures Pushed(LeBytes(value, 4)) && old(InStack()) && InStack()
    {
      hide ListOk, ShadowOk, MemOf, EspOf, WithEsp, LeBytes, Store, Load, Wrap32, Extents, Buffers, Unbacked;
      ghost var m, esp, n := memoryMap.Mem(), threadContext.Esp(), base as int - threadContext.Esp();
      Push32AssertIsRoom();
      var stackPtr := Wrap32(threadContext.Esp() as int - 4);
      var offset := stackPtr - start;
      memoryMap.BlockInMem(stackBlock, offset, 4 + n);
      memoryMap.StoreInBlock(stackBlock, stackBlock.localAddress, offset, LeBytes(value, 4));
      threadContext.SetEsp(stackPtr);
      LoadBelow(m, esp - 4, LeBytes(value, 4), n);
    }

    /** The two bytes go wherever the memory map puts them: the assertion does not keep them
        in the stack. */
    method Push16(value: u16)
      requires Valid() && start < Wrap32(threadContext.Esp() as int - 2)
      requires memoryMap.InBlock(Wrap32(threadContext.Esp() as int - 2), 2)
      modifies threadContext.regs, memoryMap.BlockFromVirtualAddress(Wrap32(threadContext.Esp() as int - 2)).Buffer()
      ensures Pushed(LeBytes(value, 2))
    {
      hide ListOk, ShadowOk, MemOf, EspOf, WithEsp, LeBytes, Store, Load, Wrap32, Extents, Buffers, Unbacked;
      ghost var m, esp, bytes := memoryMap.Mem(), threadContext.Esp(), LeBytes(value, 2);
      var stackPtr := Wrap32(threadContext.Esp() as int - 2);
      memoryMap.TranslationIsSearch(stackPtr, 2);
      if start as int + 2 <= esp <= base {
        NoWrap(esp - 2);
        memoryMap.BlockInMem(stackBlock, esp - 2 - start, 2 + (base - esp));
        LoadBelow(m, esp - 2, bytes, base - esp);
      }
      memoryMap.SetValue16(stackPtr, value);
      threadContext.SetEsp(stackPtr);
      assert memoryMap.Mem() == Store(m, stackPtr, bytes);
    }

    method Pop32() returns (result: u32)
      requires Valid() && start <= threadContext.Esp() && threadContext.Esp() as int + 4 <= base
      modifies threadContext.regs
      ensures Popped(4, result)
    {
      hide ListOk, ShadowOk, MemOf, EspOf, WithEsp, LeValue, Load, Pow2, Extents, Buffers, Unbacked;
      ghost var m, esp := memoryMap.Mem(), threadContext.Esp();
      var stackPtr := threadContext.Esp();
      Pow2Of32();
      LoadedFacts(4);
      result := LeValue(memoryMap.LoadFromBlock(stackBlock, stackPtr - start, 4));
      stackPtr := Wrap32(stackPtr as int + 4);
      threadContext.SetEsp(stackPtr);
      LoadSplit(m, esp, 4, base as int - (esp + 4));
    }

    method Pop16() returns (result: u16)
      requires Valid() && start <= threadContext.Esp() && threadContext.Esp() as int + 2 <= base
      modifies threadContext.regs
      ensures Popped(2, result)
    {
      hide ListOk, ShadowOk, MemOf, EspOf, WithEsp, LeValue, Load, Pow2, Extents, Buffers, Unbacked;
      ghost var m, esp := memoryMap.Mem(), threadContext.Esp();
      var stackPtr := threadContext.Esp();
      Pow2Of32();
      LoadedFacts(2);
      result := LeValue(memoryMap.LoadFromBlock(stackBlock, stackPtr - start, 2));
      stackPtr := Wrap32(stackPtr as int + 2);
      threadContext.SetEsp(stackPtr);
      LoadSplit(m, esp, 2, base as int - (esp + 2));
    }

    lemma LoadedFacts(n: nat)
      requires Valid() && start <= threadContext.Esp() && threadContext.Esp() as int + n <= base
      ensures Wrap32(threadContext.Esp() as int + n) == threadContext.Esp() as int + n
      ensures Mapped(memoryMap.Mem(), threadContext.Esp(), base - threadContext.Esp())
      ensures stackBlock.virtualAddress == start && InStack() && base == stackBlock.end
    {
      var esp := threadContext.Esp();
      memoryMap.BlockInMem(stackBlock, esp - start, base - esp);
    }

    /** What a push asserts of the moved stack pointer, and that the write it makes goes to a
        block. The two 16-bit bytes are not asserted to lie below the base. */
    ghost predicate CanPush(width: FEBitWidth)
      requires Valid()
      reads memoryMap, memoryMap.memoryMapBlocksShadow, memoryMap.memoryMapBlocks
      reads memoryMap.memoryMapBlocksShadow.p, memoryMap.memoryMapBlocks.p, threadContext.regs
    {
      var stackPtr := Wrap32(threadContext.Esp() as int - StackSpec.Moved(width));
      && start < stackPtr
      && if width == k16bit then memoryMap.InBlock(stackPtr, 2) else stackPtr <= base as int - 4
    }

    /** The buffer a push writes to. */
    ghost function PushBuffer(width: FEBitWidth): set<array<byte>>
      requires Valid() && CanPush(width)
      reads memoryMap, memoryMap.memoryMapBlocksShadow, memoryMap.memoryMapBlocks
      reads memoryMap.memoryMapBlocksShadow.p, memoryMap.memoryMapBlocks.p, threadContext.regs
    {
      if width == k16bit then memoryMap.BlockFromVirtualAddress(Wrap32(threadContext.Esp() as int - 2)).Buffer()
      else stackBlock.Buffer()
    }

    /** Pushes a value of any width, an 8-bit one as a 32-bit word extended by its sign. */
    method Push(value: u32, width: FEBitWidth)
      requires Valid() && CanPush(width)
      modifies threadContext.regs, PushBuffer(width)
      ensures Pushed(StackSpec.PushedBytes(value, width))
    {
      hide LeBytes, ToSigned, ListOk, ShadowOk, MemOf, EspOf, Wrap32;
      match width {
        case k32bit => Push32(value);
        case k16bit => Push16(value % 0x1_0000);
        case k8bit =>
          var origValue := ToSigned(value, k8bit);
          var signExtended := Wrap32(origValue);
          Push32(signExtended);
      }
    }

    // ----- What the assertions of a push are worth, for every value of the stack pointer

    /** The assertions of a 32-bit push hold exactly if its four bytes fit in the stack, above
        its lowest byte. */
    lemma Push32AssertIsRoom()
      requires Valid()
      ensures var esp, stackPtr := threadContext.Esp(), Wrap32(threadContext.Esp() as int - 4);
              && (start < stackPtr <= base as int - 4 <==> start as int + 4 < esp <= base)
              && (start < stackPtr <= base as int - 4 ==> stackPtr == esp - 4)
    {
      StartsOnPage();
    }

    /** The assertion of a 16-bit push also holds for a stack pointer above the base, or so low
        that it wraps. It keeps the two bytes in the stack exactly if neither is the case. */
    lemma Push16AssertIsNotRoom()
      requires Valid()
      ensures var esp, stackPtr := threadContext.Esp(), Wrap32(threadContext.Esp() as int - 2);
              && (start < stackPtr <==> start as int + 2 < esp || esp < 2)
              && (start < stackPtr && stackPtr as int + 2 <= base <==> start as int + 2 < esp <= base)
              && ((start < stackPtr ==> stackPtr as int + 2 <= base) <==>
                    2 <= esp && (esp <= base || esp <= start as int + 2))
    {
      StartsOnPage();
    }

    /** The assertion of a pop says nothing of the start of the stack and nothing of how much the
        pop reads. It keeps the bytes in the stack exactly if neither matters. */
    lemma PopAssertIsNotRoom(width: FEBitWidth)
      requires Valid()
      ensures var esp, n := threadContext.Esp(), StackSpec.Moved(width);
              (esp < base ==> start <= esp && esp as int + n <= base) <==>
              !(esp < start) && !(base as int - n < esp < base)
    {}

    /** With the stack pointer in the stack, and its pages not freed, a push can be made exactly
        if its bytes fit above the lowest byte of the stack. */
    lemma AssertsAreRoom(value: u32, width: FEBitWidth)
      requires Valid() && InStack()
      requires forall p :: p in memoryMap.freed ==> !Covers(stackBlock, p)
      ensures CanPush(width) <==> StackSpec.Enabled(size, Contents(), StackSpec.Push(value, width))
    {
      hide ListOk, ShadowOk, MemOf, EspOf, Load, Wrap32, Extents, Buffers, Unbacked;
      StartsOnPage();
      Push32AssertIsRoom();
      Push16AssertIsNotRoom();
      var esp := threadContext.Esp();
      if start as int + 2 < esp {
        NoWrap(esp - 2);
        PageInStack(esp - 2);
        Translated(esp - 2);
      }
    }

    /** Pops a value of 16 or 32 bits. */
    method Pop(width: FEBitWidth) returns (result: u32)
      requires Valid() && InStack() && StackSpec.Enabled(size, Contents(), StackSpec.Pop(width))
      modifies threadContext.regs
      ensures Popped(StackSpec.Moved(width), result)
      ensures Contents() == StackSpec.Step(old(Contents()), StackSpec.Pop(width))
      ensures [result] == StackSpec.Output(old(Contents()), StackSpec.Pop(width))
    {
      match width {
        case k32bit => result := Pop32();
        case k16bit => result := Pop16();
      }
    }

    lemma PageInStack(address: int)
      requires Valid() && start <= address < base
      ensures Covers(stackBlock, address / PAGE)
    {
      StartsOnPage();
      PageOf(stackBlock.Range(), address);
    }

    lemma StartsOnPage()
      requires Valid()
      ensures PAGE <= start
    {
      var b := stackBlock;
      assert b.WellFormed(memoryMap.size);
    }

    /** The memory map finds the stack's own block for every address in it whose page was not
        freed. */
    lemma Translated(address: int)
      requires Valid() && start <= address < base && address / PAGE !in memoryMap.freed
      ensures memoryMap.Translates(address) && memoryMap.BlockFromVirtualAddress(address) == stackBlock
    {
      PageOf(stackBlock.Range(), address);
      OwnerIs(memoryMap.Blocks(), memoryMap.size, address, stackBlock);
      memoryMap.SearchIsTranslation(address);
    }
  }
}
