/** The guest memory map: a first-fit allocator over the sorted list of blocks, and
    loads and stores that find their block through the shadow table. */
module FEMemoryMaps {
  import opened Words
  import opened FEArrays
  import MergeSortSpec
  import opened AddressSpace
  import opened FlatMemory
  import opened FEMemoryMapBlocks
  import opened FirstFitWalk

  class FEMemoryMap {
    const size: u32
    const memoryMapBlocksShadow: FEArray<FEMemoryMapBlock?>
    const memoryMapBlocks: FEArray<FEMemoryMapBlock?>
    /** The pages whose slot was cleared since a block was last mapped there. */
    ghost var freed: set<int>
    /** The host buffers of the listed blocks. */
    ghost var buffers: set<array<byte>>

    ghost predicate Shape()
      reads memoryMapBlocksShadow, memoryMapBlocks
    {
      && memoryMapBlocksShadow != memoryMapBlocks
      && memoryMapBlocksShadow.Valid() && memoryMapBlocks.Valid()
      && memoryMapBlocksShadow.p != memoryMapBlocks.p
      && memoryMapBlocksShadow.size == size / PAGE + 1
    }

    ghost function Blocks(): seq<FEMemoryMapBlock?>
      requires Shape()
      reads memoryMapBlocksShadow, memoryMapBlocks, memoryMapBlocks.p
    {
      memoryMapBlocks.Elements()
    }

    ghost function Slots(): seq<FEMemoryMapBlock?>
      requires Shape()
      reads memoryMapBlocksShadow, memoryMapBlocks, memoryMapBlocksShadow.p
    {
      memoryMapBlocksShadow.Elements()
    }

    /** The list is strictly sorted and without overlap, and list and shadow table agree. */
    ghost predicate Valid()
      reads this, memoryMapBlocksShadow, memoryMapBlocks, memoryMapBlocksShadow.p, memoryMapBlocks.p
    {
      Shape() && ListOk(Blocks(), size) && ShadowOk(Slots(), Blocks(), freed) && buffers == Buffers(Blocks())
    }

    ghost function State(): MapState
      requires Valid()
      reads this, memoryMapBlocksShadow, memoryMapBlocks, memoryMapBlocksShadow.p, memoryMapBlocks.p
    {
      MapState(size, Extents(Blocks()), freed)
    }

    /** Guest memory: every byte of every block, at its guest address. */
    ghost function Mem(): map<int, byte>
      requires Valid()
      reads this, memoryMapBlocksShadow, memoryMapBlocks, memoryMapBlocksShadow.p, memoryMapBlocks.p
      reads buffers
    {
      MemOf(Blocks(), size)
    }

    /** The array of the block list is the same or has been replaced by a new one. */
    twostate predicate ArrayKept()
      reads memoryMapBlocks
    {
      memoryMapBlocks.p == old(memoryMapBlocks.p) || fresh(memoryMapBlocks.p)
    }

    /** The map is good before and after, no block has left the list, and those that have
        joined it have new buffers. */
    twostate predicate Grown()
      reads this, memoryMapBlocksShadow, memoryMapBlocks, memoryMapBlocksShadow.p, memoryMapBlocks.p
    {
      && ArrayKept() && old(Valid()) && Valid()
      && (forall c :: c in old(Blocks()) ==> c in Blocks())
      && old(buffers) <= buffers && fresh(buffers - old(buffers)) && Unbacked(Blocks()) == old(Unbacked(Blocks()))
    }

    constructor (size: u32)
      ensures Valid() && this.size == size && Blocks() == [] && buffers == {}
      ensures State() == Empty(size) && Mem() == map[]
      ensures fresh(memoryMapBlocksShadow) && fresh(memoryMapBlocksShadow.p)
      ensures fresh(memoryMapBlocks) && fresh(memoryMapBlocks.p)
    {
      this.size := size;
      memoryMapBlocksShadow := new FEArray(size / PAGE + 1);
      memoryMapBlocks := new FEArray(16);
      freed, buffers := {}, {};
      new;
      var shadow := memoryMapBlocksShadow.p;
      forall i | 0 <= i < shadow.Length {
        shadow[i] := null;
      }
      memoryMapBlocksShadow.size := memoryMapBlocksShadow.capacity;
      assert Slots() == shadow[..];
    }

    /** The block has been listed and entered on its pages, and nothing else changed. */
    ghost predicate Entered(block: FEMemoryMapBlock, blocks: seq<FEMemoryMapBlock?>, slots: seq<FEMemoryMapBlock?>,
                            state: MapState)
      reads this, memoryMapBlocksShadow, memoryMapBlocks, memoryMapBlocksShadow.p, memoryMapBlocks.p
    {
      && Valid()
      && State() == state.Add(block.Range())
      && multiset(Blocks()) == multiset(blocks + [block])
      && buffers == Buffers(blocks) + block.Buffer()
      && |Slots()| == |slots|
      && forall p :: 0 <= p < |slots| ==> Slots()[p] == if Covers(block, p) then block else slots[p]
    }

    /** Enters the block in the slot of each of its pages, appends it to the list and
        sorts the list. The slots are found free. */
    method AppendMemoryBlock(block: FEMemoryMapBlock)
      requires Valid() && block.WellFormed(size) && Fresh(block, Blocks())
      modifies this`freed, this`buffers, memoryMapBlocksShadow.p, memoryMapBlocks, memoryMapBlocks.p
      ensures Entered(block, old(Blocks()), old(Slots()), old(State()))
      ensures ArrayKept()
      ensures Mem() == old(Mem()) + old(BytesOf(block))
    {
      hide ListOk, ShadowOk, Fresh, MemOf, Fits, WellFormedList, Disjoint, Entered, Covers, Slots, State;
      WellFormedBlocks();
      ghost var blocks := Blocks();
      Enter(block);
      MemAfter(blocks, block);
    }

    lemma WellFormedBlocks()
      requires Valid()
      ensures WellFormedList(Blocks(), size)
    {}

    lemma MemAfter(blocks: seq<FEMemoryMapBlock?>, block: FEMemoryMapBlock)
      requires Valid() && ListOk(blocks, size) && block.WellFormed(size)
      requires multiset(Blocks()) == multiset(blocks + [block])
      ensures Mem() == MemOf(blocks, size) + BytesOf(block)
    {
      AppendedMem(blocks, block, Blocks(), size);
    }

    method Enter(block: FEMemoryMapBlock)
      requires Valid() && block.WellFormed(size) && Fresh(block, Blocks())
      modifies this`freed, this`buffers, memoryMapBlocksShadow.p, memoryMapBlocks, memoryMapBlocks.p
      ensures Entered(block, old(Blocks()), old(Slots()), old(State()))
      ensures Valid() && multiset(Blocks()) == multiset(old(Blocks()) + [block])
      ensures ArrayKept()
    {
      hide ListOk, ShadowOk, Fresh, Fits;
      ghost var blocks, slots := Blocks(), Slots();
      EnterInShadow(block);
      EnterInList(block);
      AppendedShadow(slots, Slots(), blocks, block, Blocks(), freed, size);
      freed := set p | p in freed && !block.Range().CoversPage(p);
      buffers := Buffers(Blocks());
      SameMembers(blocks, block, Blocks());
    }

    method EnterInList(block: FEMemoryMapBlock)
      requires Shape() && ListOk(Blocks(), size) && block.WellFormed(size) && Fresh(block, Blocks())
      modifies memoryMapBlocks, memoryMapBlocks.p
      ensures Shape() && ListOk(Blocks(), size)
      ensures ArrayKept()
      ensures multiset(Blocks()) == multiset(old(Blocks()) + [block])
      ensures Slots() == old(Slots())
    {
      hide ListOk, Fresh, MergeSortSpec.MergeSort;
      SortedListOk(Blocks(), block, size);
      FewBlocks(Blocks(), size);
      memoryMapBlocks.Append(block);
      memoryMapBlocks.MergeSort(Compare);
    }

    method EnterInShadow(block: FEMemoryMapBlock)
      requires Valid() && block.WellFormed(size) && Fresh(block, Blocks())
      modifies memoryMapBlocksShadow.p
      ensures Shape() && |Slots()| == |old(Slots())|
      ensures forall p :: 0 <= p < |Slots()| ==> Slots()[p] == if Covers(block, p) then block else old(Slots())[p]
      ensures Blocks() == old(Blocks())
    {
      hide ListOk, ShadowOk, Fresh;
      ghost var slots, blocks := Slots(), Blocks();
      var shadow := memoryMapBlocksShadow.p;
      forall p ensures Covers(block, p) <==>
                       block.virtualAddress / PAGE <= p <= (block.size as int + block.virtualAddress - 1) / PAGE
      {
        PagesOf(block.Range(), p);
      }
      LastPage(block.Range(), size);
      var first := block.virtualAddress / PAGE;
      var last := (block.size as int + block.virtualAddress - 1) / PAGE;
      var shadowIndex := first;
      while shadowIndex <= last
        invariant first <= shadowIndex <= last + 1
        invariant forall p :: 0 <= p < |slots| ==>
                    shadow[p] == if first <= p < shadowIndex then block else slots[p]
        modifies shadow
      {
        var currentBlock := shadow[shadowIndex];
        SlotsFree(slots, blocks, block, freed, size, shadowIndex);
        assert currentBlock == null;
        shadow[shadowIndex] := block;
        shadowIndex := shadowIndex + 1;
      }
    }

    /** Maps a block its caller made. */
    method Map(block: FEMemoryMapBlock)
      requires Valid() && block.WellFormed(size) && Fresh(block, Blocks())
      modifies this`freed, this`buffers, memoryMapBlocksShadow.p, memoryMapBlocks, memoryMapBlocks.p
      ensures Entered(block, old(Blocks()), old(Slots()), old(State()))
      ensures ArrayKept()
      ensures State() == Apply(old(State()), MapOp.Map(block.Range()))
      ensures |Slots()| == |old(Slots())|
      ensures forall p :: 0 <= p < |Slots()| ==> Slots()[p] == if Covers(block, p) then block else old(Slots())[p]
      ensures Mem() == old(Mem()) + old(BytesOf(block))
    {
      AppendMemoryBlock(block);
    }

    /** Where an allocation of `bytes` bytes goes, if anywhere: before the first block, else in
        the first gap between two blocks, else after the last. The answer is right exactly if
        32-bit arithmetic does not mislead the walk. */
    method FindAddress(bytes: u32) returns (found: bool, r: u32)
      requires Valid()
      ensures Right(Blocks(), size, bytes, found, r) <==> !Misled(State().blocks, size, bytes)
      ensures !found ==> r == 0
    {
      hide ListOk, ShadowOk, RoundUp, Aligned, Clear, FirstFit, Wrap32, Extents, NoneBelow, WrappedGap, SumWrapsAt;
      var startAddress: u32 := PAGE;
      ghost var blocks := Blocks();
      PageAligned();
      var i := 0;
      while i < memoryMapBlocks.size
        invariant 0 <= i <= |blocks|
        invariant i > 0 ==>
                    var b := blocks[if i < |blocks| then i else i - 1];
                    b != null && NoneBelow(Extents(blocks), bytes, b.end)
        invariant forall j :: 0 <= j < i && j + 1 < |blocks| ==> !SumWrapsAt(blocks, size, bytes, j)
      {
        GapFacts(blocks, size, i);
        var first := memoryMapBlocks.p[i];
        if i == 0 {
          NoWrap(first.virtualAddress as int - startAddress);
          if first.virtualAddress > startAddress && bytes < Wrap32(first.virtualAddress as int - startAddress) {
            FitsBefore(blocks, size, bytes);
            return true, startAddress;
          }
          NoneBeforeFirst(blocks, size, bytes);
        }
        if i + 1 < memoryMapBlocks.size {
          var second := memoryMapBlocks.p[i + 1];
          var address := AfterBlock(first);
          if Wrap32(address as int + bytes) < second.virtualAddress {
            WalkEnds(blocks, size, bytes, i, address);
            return true, address;
          }
          TestFails(blocks, size, bytes, i, address);
          NoneBetween(blocks, size, bytes, i);
        }
        i := i + 1;
      }

      if memoryMapBlocks.size == 0 {
        EmptyWalk(size, bytes);
        if bytes > Wrap32(size as int - startAddress) {
          return false, 0;
        }
        return true, startAddress;
      }

      GapFacts(blocks, size, |blocks| - 1);
      var lastBlock := memoryMapBlocks.p[memoryMapBlocks.size - 1];
      var address := AfterBlock(lastBlock);
      GapFacts(blocks, size, 0);
      NotEmpty(blocks);
      WalkEnds(blocks, size, bytes, |blocks| - 1, address);
      if Wrap32(address as int + bytes) >= size {
        return false, 0;
      }
      return true, address;
    }

    /** The first page after a block, which is 0 after a block on the last page there is. */
    method AfterBlock(block: FEMemoryMapBlock) returns (address: u32)
      requires block.end == block.virtualAddress as int + block.size
      ensures address == Wrap32(RoundUp(block.end))
    {
      hide Wrap32, RoundUp;
      NoWrap(block.end);
      address := Wrap32(block.virtualAddress as int + block.size);
      address := Wrap32(RoundUp(address));
    }

    /** Makes a block of `bytes` bytes at the address the allocator found and maps it. */
    method MapNewBlock(r: u32, bytes: u32)
      requires Valid() && 0 < bytes && PAGE <= size
      requires r == FirstFit(State().blocks, size, bytes) != 0
      modifies this`freed, this`buffers, memoryMapBlocksShadow.p, memoryMapBlocks, memoryMapBlocks.p
      ensures Valid() && Translates(r)
      ensures ArrayKept()
      ensures fresh(BlockFromVirtualAddress(r)) && fresh(BlockFromVirtualAddress(r).Buffer())
      ensures Allocated(BlockFromVirtualAddress(r), r, bytes, old(Blocks()), old(Slots()), old(State()), old(Mem()))
    {
      hide FirstFit, ListOk, ShadowOk, Fits, MemOf, BytesOf, Disjoint, Fresh, WellFormedList, Extents, Unbacked;
      NewBlockFits(Blocks(), freed, size, bytes, r);
      var realAddress := new byte[bytes];
      var newBlock := new FEMemoryMapBlock(r, bytes, Wrap32(r as int + bytes), realAddress);
      NewBlockFresh(newBlock, Blocks(), size);
      WellFormedBlocks();
      NewAddresses(Blocks(), newBlock, size);
      AppendMemoryBlock(newBlock);
      PageOf(newBlock.Range(), r);
      LastPage(newBlock.Range(), size);
    }

    /** Allocates `bytes` bytes of guest memory; 0 and no change if they fit nowhere. */
    method Malloc(bytes: u32) returns (r: u32)
      requires Valid() && Enabled(State(), MapOp.Malloc(bytes))
      modifies this`freed, this`buffers, memoryMapBlocksShadow.p, memoryMapBlocks, memoryMapBlocks.p
      ensures Valid()
      ensures ArrayKept()
      ensures r == Result(old(State()), MapOp.Malloc(bytes))
      ensures State() == Apply(old(State()), MapOp.Malloc(bytes))
      ensures r == 0 ==> Blocks() == old(Blocks()) && Slots() == old(Slots()) && Mem() == old(Mem())
      ensures r != 0 ==>
                && Translates(r)
                && var b := BlockFromVirtualAddress(r);
                && fresh(b) && fresh(b.Buffer())
                && Allocated(b, r, bytes, old(Blocks()), old(Slots()), old(State()), old(Mem()))
    {
      hide FirstFit, ListOk, ShadowOk, Fits, MemOf, BytesOf, WellFormedList, Covers;
      WellFormedBlocks();
      var found;
      found, r := FindAddress(bytes);
      if found {
        MapNewBlock(r, bytes);
      }
    }

    /** `b` is a block of `bytes` bytes at `r`, listed, entered on its pages and in memory with
        the bytes of its buffer, and nothing else has changed. */
    ghost predicate Allocated(b: FEMemoryMapBlock, r: int, bytes: int, blocks: seq<FEMemoryMapBlock?>,
                              slots: seq<FEMemoryMapBlock?>, state: MapState, mem: map<int, byte>)
      reads this, memoryMapBlocksShadow, memoryMapBlocks, memoryMapBlocksShadow.p, memoryMapBlocks.p
      reads buffers, b.Buffer()
    {
      && b.Range() == Extent(r, bytes) && b.end == r + bytes && b.localAddress != null && b.localAddress.Length == bytes
      && Entered(b, blocks, slots, state)
      && Mem() == mem + BytesOf(b)
      && forall a :: a in mem ==> !b.ContainsVirtualAddress(a)
    }

    /** What an allocation leaves as it was and what it adds. */
    lemma AllocatedFacts(b: FEMemoryMapBlock, r: int, bytes: int, blocks: seq<FEMemoryMapBlock?>,
                         slots: seq<FEMemoryMapBlock?>, state: MapState, mem: map<int, byte>)
      requires Allocated(b, r, bytes, blocks, slots, state, mem)
      ensures Valid() && b in Blocks() && State() == state.Add(Extent(r, bytes))
      ensures b.Range() == Extent(r, bytes) && b.end == r + bytes && Aligned(r)
      ensures forall c :: c in blocks ==> c in Blocks()
      ensures freed <= state.freed && forall p :: p in freed ==> !Covers(b, p)
      ensures b.localAddress != null && buffers == Buffers(blocks) + {b.localAddress}
      ensures Unbacked(Blocks()) == Unbacked(blocks)
      ensures Extends(mem, Mem(), r, r + bytes)
    {
      SameMembers(blocks, b, Blocks());
    }

    /** Clears the slot of one page; the block stays listed. */
    method Free(address: u32)
      requires Valid() && address / PAGE < size / PAGE + 1
      modifies this`freed, memoryMapBlocksShadow.p
      ensures Valid()
      ensures State() == Apply(old(State()), MapOp.Free(address))
      ensures Slots() == old(Slots())[address / PAGE := null]
      ensures Blocks() == old(Blocks()) && Mem() == old(Mem())
    {
      var shadow := memoryMapBlocksShadow.p;
      shadow[address / PAGE] := null;
      freed := freed + {address / PAGE};
    }

    // ----- Translation, loads and stores

    /** The page of the address is in the table and its slot names a block. */
    ghost predicate Translates(address: int)
      requires Shape()
      reads memoryMapBlocksShadow, memoryMapBlocks, memoryMapBlocksShadow.p
    {
      0 <= address && address / PAGE < |Slots()| && Slots()[address / PAGE] != null
    }

    function BlockFromVirtualAddress(address: int): FEMemoryMapBlock
      requires Shape() && Translates(address)
      reads memoryMapBlocksShadow, memoryMapBlocks, memoryMapBlocksShadow.p
    {
      memoryMapBlocksShadow.p[address / PAGE]
    }

    /** The `n` bytes from `address` on lie in the block that translates `address`, and it has
        a buffer. */
    ghost predicate InBlock(address: int, n: int)
      requires Shape()
      reads memoryMapBlocksShadow, memoryMapBlocks, memoryMapBlocksShadow.p
    {
      && Translates(address) && address + n <= BlockFromVirtualAddress(address).end
      && BlockFromVirtualAddress(address).localAddress != null
    }

    /** The slot of the page stands for the linear search: it names the only listed
        block that contains the address, and the translated offset lies in its buffer. */
    lemma TranslationIsSearch(address: int, n: nat)
      requires Valid() && InBlock(address, n)
      ensures var b := BlockFromVirtualAddress(address);
              && b in Blocks() && b.virtualAddress <= address && b.localAddress in buffers
              && (address - b.virtualAddress) + n <= b.localAddress.Length
              && (forall x :: address <= x < address + n ==> Owner(Blocks(), x) == b)
              && Mapped(Mem(), address, n)
              && Load(Mem(), address, n) == b.localAddress[address - b.virtualAddress..address - b.virtualAddress + n]
    {
      var b := BlockFromVirtualAddress(address);
      BufferListed(b);
      PageOf(b.Range(), address);
      forall x | address <= x < address + n ensures Owner(Blocks(), x) == b {
        OwnerIs(Blocks(), size, x, b);
      }
    }

    lemma BufferListed(block: FEMemoryMapBlock)
      requires Valid() && block in Blocks() && block.localAddress != null
      ensures block.localAddress in buffers
    {
      assert block.localAddress in block.Buffer();
    }

    /** Conversely, an address in a listed block whose page was not freed is translated
        by the block the linear search finds. It can be loaded if that block has a buffer. */
    lemma SearchIsTranslation(address: int)
      requires Valid() && 0 <= address && address / PAGE !in freed && Owner(Blocks(), address) != null
      ensures Translates(address) && BlockFromVirtualAddress(address) == Owner(Blocks(), address)
      ensures InBlock(address, 1) <==> Owner(Blocks(), address).localAddress != null
    {
      OwnerListed(Blocks(), address);
      var b := Owner(Blocks(), address);
      PageOf(b.Range(), address);
      LastPage(b.Range(), size);
      assert address / PAGE <= (b.Range().End() - 1) / PAGE;
    }

    /** Only the first byte is translated. Of a range of addresses that are all in memory the
        access stays in one buffer exactly if the last is in the same block as the first. */
    lemma InBlockIsSameOwner(address: int, n: nat)
      requires Valid() && 0 < n && Translates(address) && Mapped(Mem(), address, n)
      ensures InBlock(address, n) <==> Owner(Blocks(), address + n - 1) == Owner(Blocks(), address)
    {
      hide ShadowOk;
      TranslatesByOwner(address);
      var b := BlockFromVirtualAddress(address);
      var last := address + n - 1;
      OwnerListed(Blocks(), last);
      if InBlock(address, n) { OwnerIs(Blocks(), size, last, b); }
    }

    /** An address in memory that is translated at all is translated by the block it is in. */
    lemma TranslatesByOwner(address: int)
      requires Valid() && Translates(address) && address in Mem()
      ensures var b := BlockFromVirtualAddress(address);
              && b == Owner(Blocks(), address) && b in Blocks()
              && b.ContainsVirtualAddress(address) && b.localAddress != null
    {
      OwnerListed(Blocks(), address);
      PageOf(Owner(Blocks(), address).Range(), address);
    }

    function LocalAddress(address: int): (ptr: (array<byte>, int))
      requires Shape() && InBlock(address, 0)
      reads memoryMapBlocksShadow, memoryMapBlocks, memoryMapBlocksShadow.p
    {
      var block := BlockFromVirtualAddress(address);
      (block.localAddress, address - block.virtualAddress)
    }

    function LoadBytes(address: u32, n: u32): (bytes: seq<byte>)
      requires Valid() && InBlock(address, n)
      reads this, memoryMapBlocksShadow, memoryMapBlocks, memoryMapBlocksShadow.p, memoryMapBlocks.p
      reads buffers
      ensures Mapped(Mem(), address, n) && bytes == Load(Mem(), address, n)
    {
      TranslationIsSearch(address, n);
      var (buffer, offset) := LocalAddress(address);
      buffer[offset..offset + n]
    }

    method StoreBytes(address: u32, bytes: seq<byte>)
      requires Valid() && InBlock(address, |bytes|)
      modifies BlockFromVirtualAddress(address).Buffer()
      ensures Valid() && State() == old(State())
      ensures Blocks() == old(Blocks()) && Slots() == old(Slots())
      ensures Mem() == Store(old(Mem()), address, bytes)
    {
      hide ShadowOk, ListOk, Store;
      TranslationIsSearch(address, |bytes|);
      var (buffer, offset) := LocalAddress(address);
      StoreInBlock(BlockFromVirtualAddress(address), buffer, offset, bytes);
    }

    /** A store through a host pointer into the buffer of a listed block. */
    method StoreInBlock(ghost block: FEMemoryMapBlock, buffer: array<byte>, offset: int, bytes: seq<byte>)
      requires Valid() && block in Blocks() && buffer == block.localAddress
      requires 0 <= offset && block.virtualAddress as int + offset + |bytes| <= block.end
      modifies buffer
      ensures Valid() && State() == old(State())
      ensures Blocks() == old(Blocks()) && Slots() == old(Slots())
      ensures Mem() == Store(old(Mem()), block.virtualAddress as int + offset, bytes)
    {
      hide ShadowOk, Fits, ListOk;
      WellFormedBlocks();
      ghost var blocks, m := Blocks(), Mem();
      ghost var address := block.virtualAddress as int + offset;
      CopyInto(buffer, offset, bytes);
      forall x: int | x in m
        ensures ByteAt(blocks, size, x) == if address <= x < address + |bytes| then bytes[x - address] else m[x]
      {
        OwnerListed(blocks, x);
        var c := Owner(blocks, x);
        if c != block {
          Separate(blocks, size, block, c);
          assert c.localAddress != buffer;
        }
      }
    }

    /** A load through a host pointer into the buffer of a listed block. */
    function LoadFromBlock(block: FEMemoryMapBlock, offset: int, n: nat): (bytes: seq<byte>)
      requires Valid() && block in Blocks() && block.localAddress != null
      requires 0 <= offset && block.virtualAddress as int + offset + n <= block.end
      reads this, memoryMapBlocksShadow, memoryMapBlocks, memoryMapBlocksShadow.p, memoryMapBlocks.p
      reads buffers
      ensures Mapped(Mem(), block.virtualAddress as int + offset, n)
      ensures bytes == Load(Mem(), block.virtualAddress as int + offset, n)
    {
      BlockInMem(block, offset, n);
      block.localAddress[offset..offset + n]
    }

    lemma BlockInMem(block: FEMemoryMapBlock, offset: int, n: nat)
      requires Valid() && block in Blocks() && block.localAddress != null
      requires 0 <= offset && block.virtualAddress as int + offset + n <= block.end
      ensures block.end <= block.virtualAddress as int + block.localAddress.Length && block.localAddress in buffers
      ensures Mapped(Mem(), block.virtualAddress as int + offset, n)
      ensures block.localAddress[offset..offset + n] == Load(Mem(), block.virtualAddress as int + offset, n)
    {
      BufferListed(block);
      var a := block.virtualAddress as int + offset;
      forall x | a <= x < a + n ensures Owner(Blocks(), x) == block {
        OwnerIs(Blocks(), size, x, block);
      }
    }

    method Value32AtAddress(address: u32) returns (value: u32)
      requires Valid() && InBlock(address, 4)
      ensures Mapped(Mem(), address, 4) && value == LeValue(Load(Mem(), address, 4))
    {
      hide ListOk, ShadowOk, LeValue;
      var bytes := LoadBytes(address, 4);
      Pow2Of32();
      value := LeValue(bytes);
    }

    method SetValue32(address: u32, value: u32)
      requires Valid() && InBlock(address, 4)
      modifies BlockFromVirtualAddress(address).Buffer()
      ensures Valid() && State() == old(State())
      ensures Blocks() == old(Blocks()) && Slots() == old(Slots())
      ensures Mem() == Store(old(Mem()), address, LeBytes(value, 4))
    {
      hide ListOk, ShadowOk, LeBytes, Store;
      StoreBytes(address, LeBytes(value, 4));
    }

    method Value16AtAddress(address: u32) returns (value: u16)
      requires Valid() && InBlock(address, 2)
      ensures Mapped(Mem(), address, 2) && value == LeValue(Load(Mem(), address, 2))
    {
      hide ListOk, ShadowOk, LeValue;
      var bytes := LoadBytes(address, 2);
      Pow2Of32();
      value := LeValue(bytes);
    }

    method SetValue16(address: u32, value: u16)
      requires Valid() && InBlock(address, 2)
      modifies BlockFromVirtualAddress(address).Buffer()
      ensures Valid() && State() == old(State())
      ensures Blocks() == old(Blocks()) && Slots() == old(Slots())
      ensures Mem() == Store(old(Mem()), address, LeBytes(value, 2))
    {
      hide ListOk, ShadowOk, LeBytes, Store;
      StoreBytes(address, LeBytes(value, 2));
    }

    method Value8AtAddress(address: u32) returns (value: byte)
      requires Valid() && InBlock(address, 1)
      ensures Mapped(Mem(), address, 1) && value == LeValue(Load(Mem(), address, 1))
    {
      hide ListOk, ShadowOk, LeValue;
      var bytes := LoadBytes(address, 1);
      Pow2Of32();
      value := LeValue(bytes);
    }

    method SetValue8(address: u32, value: byte)
      requires Valid() && InBlock(address, 1)
      modifies BlockFromVirtualAddress(address).Buffer()
      ensures Valid() && State() == old(State())
      ensures Blocks() == old(Blocks()) && Slots() == old(Slots())
      ensures Mem() == Store(old(Mem()), address, LeBytes(value, 1))
    {
      hide ListOk, ShadowOk, LeBytes, Store;
      StoreBytes(address, LeBytes(value, 1));
    }

    /** Copies the first `n` bytes of a host buffer to guest memory. */
    method MemcpyToVirtualFromReal(dst: u32, src: seq<byte>, n: u32)
      requires Valid() && InBlock(dst, n) && n <= |src|
      modifies BlockFromVirtualAddress(dst).Buffer()
      ensures Valid() && State() == old(State())
      ensures Blocks() == old(Blocks()) && Slots() == old(Slots())
      ensures Mem() == Store(old(Mem()), dst, src[..n])
    {
      hide ListOk, ShadowOk, Store;
      StoreBytes(dst, src[..n]);
    }

    /** Copies guest memory to the start of a host buffer. */
    method MemcpyToRealFromVirtual(dst: array<byte>, src: u32, n: u32)
      requires Valid() && InBlock(src, n) && n <= dst.Length
      requires dst !in buffers
      modifies dst
      ensures Mapped(old(Mem()), src, n)
      ensures dst[..] == Load(old(Mem()), src, n) + old(dst[n..])
    {
      hide ListOk, ShadowOk, Load;
      var bytes := LoadBytes(src, n);
      CopyInto(dst, 0, bytes);
    }

    /** Copies guest memory to guest memory; the two ranges may not overlap. */
    method MemcpyToVirtualFromVirtual(dst: u32, src: u32, n: u32)
      requires Valid() && InBlock(dst, n) && InBlock(src, n)
      requires src as int + n <= dst || dst as int + n <= src
      modifies BlockFromVirtualAddress(dst).Buffer()
      ensures Valid() && State() == old(State())
      ensures Blocks() == old(Blocks()) && Slots() == old(Slots())
      ensures Mapped(old(Mem()), src, n)
      ensures Mem() == Store(old(Mem()), dst, Load(old(Mem()), src, n))
    {
      hide ListOk, ShadowOk, Load, Store;
      var bytes := LoadBytes(src, n);
      StoreBytes(dst, bytes);
    }

    /** Copies a C string to guest memory, cut to `n - 1` bytes, and ends it with a zero. */
    method StrncpyFromRealToVirtual(dst: u32, src: seq<byte>, n: u32)
      requires Valid() && 0 in src && |src| < 0x1_0000_0000
      requires InBlock(dst, Copied(src, n) + 1) && Translates(dst + Copied(src, n))
      modifies BlockFromVirtualAddress(dst).Buffer()
      ensures Valid() && State() == old(State())
      ensures Blocks() == old(Blocks()) && Slots() == old(Slots())
      ensures Mem() == Store(old(Mem()), dst, src[..Copied(src, n)] + [0])
      ensures StringAt(Mem(), dst) == src[..Copied(src, n)]
    {
      hide ListOk, ShadowOk, StringAt, Wrap32, Store, LeBytes;
      ghost var m, t := Mem(), src[..Copied(src, n)];
      SameBlock(dst, |t|);
      TranslationIsSearch(dst, |t| + 1);
      var length := StringLength(src);
      var room := Wrap32(n as int - 1);
      var copied: u32 := if room < length then room else length;
      MemcpyToVirtualFromReal(dst, src, copied);
      SetValue8(dst as int + copied, 0);
      ZeroByte();
      StoreAdjacent(m, dst, t, [0]);
      StringOfStore(m, dst, t);
    }

    /** The terminator is translated on its own, by the same block. */
    lemma SameBlock(address: int, k: nat)
      requires Valid() && InBlock(address, k + 1) && Translates(address + k)
      ensures InBlock(address, k) && InBlock(address + k, 1) && address + k < 0x1_0000_0000
      ensures BlockFromVirtualAddress(address + k) == BlockFromVirtualAddress(address)
    {
      var b, c := BlockFromVirtualAddress(address), BlockFromVirtualAddress(address + k);
      PageOf(b.Range(), address);
      PageOf(b.Range(), address + k);
    }

    /** Reads a guest string into a new host buffer, with its terminator. */
    method StrcpyFromVirtualToAllocatedReal(src: u32) returns (result: array<byte>)
      requires Valid() && Translates(src) && TerminatedWithin(src, 4095)
      ensures fresh(result) && result[..] == StringAt(old(Mem()), src) + [0]
    {
      hide ListOk, ShadowOk, MemOf;
      ghost var k :| 0 <= k < 4095 && EndsAt(src, k);
      TranslationIsSearch(src, k + 1);
      var (buffer, offset) := LocalAddress(src);
      ghost var m, s := Mem(), buffer[offset..offset + k + 1];
      assert s == Load(m, src, k + 1);
      assert s[k] == 0;
      var length := Strlen(buffer, offset, k);
      assert Load(m, src, length) == s[..length] == buffer[offset..offset + length];
      assert m[src + length] == s[length] == 0;
      StringIs(m, src, length);
      result := new byte[length + 1];
      CopyInto(result, 0, buffer[offset..offset + length] + [0]);
      assert result[..] == s[..length] + [0];
    }

    /** A zero byte follows in the same block, fewer than `limit` bytes on. */
    ghost predicate TerminatedWithin(src: int, limit: int)
      requires Valid()
      reads this, memoryMapBlocksShadow, memoryMapBlocks, memoryMapBlocksShadow.p, memoryMapBlocks.p
      reads buffers
    {
      exists k :: 0 <= k < limit && EndsAt(src, k)
    }

    ghost predicate EndsAt(src: int, k: int)
      requires Valid()
      reads this, memoryMapBlocksShadow, memoryMapBlocks, memoryMapBlocksShadow.p, memoryMapBlocks.p
      reads buffers
    {
      InBlock(src, k + 1) && src + k in Mem() && Mem()[src + k] == 0
    }
  }

  /** A string copied to guest memory and back is the source, cut to `n - 1` bytes. */
  method CopyInAndOut(memoryMap: FEMemoryMap, address: u32, src: seq<byte>, n: u32) returns (result: array<byte>)
    requires memoryMap.Valid() && 0 in src && |src| < 0x1_0000_0000 && n != 0 && Copied(src, n) < 4095
    requires memoryMap.InBlock(address, Copied(src, n) + 1) && memoryMap.Translates(address + Copied(src, n))
    modifies memoryMap.BlockFromVirtualAddress(address).Buffer()
    ensures fresh(result)
    ensures result[..] == src[..if n as int - 1 < StringLength(src) then n as int - 1 else StringLength(src)] + [0]
    ensures memoryMap.Valid() && memoryMap.Mem() == Store(old(memoryMap.Mem()), address, src[..Copied(src, n)] + [0])
  {
    hide ListOk, ShadowOk, MemOf, StringLength, StringAt, Copied;
    ghost var k, m := Copied(src, n), memoryMap.Mem();
    memoryMap.TranslationIsSearch(address, k + 1);
    memoryMap.StrncpyFromRealToVirtual(address, src, n);
    assert address + k in m;
    assert memoryMap.EndsAt(address, k);
    result := memoryMap.StrcpyFromVirtualToAllocatedReal(address);
    CopiedIs(src, n);
  }

  lemma CopiedIs(src: seq<byte>, n: u32)
    requires 0 in src && n != 0
    ensures Copied(src, n) == if n as int - 1 < StringLength(src) then n as int - 1 else StringLength(src)
  {
    MinusOne(n);
    hide StringLength, Wrap32;
  }

  /** strlen of a host string known to end within `k` bytes. */
  method Strlen(buffer: array<byte>, offset: int, ghost k: nat) returns (length: nat)
    requires 0 <= offset && offset + k < buffer.Length && buffer[offset + k] == 0
    ensures length <= k && buffer[offset + length] == 0 && 0 !in buffer[offset..offset + length]
  {
    length := 0;
    while buffer[offset + length] != 0
      invariant length <= k && forall i :: offset <= i < offset + length ==> buffer[i] != 0
      decreases k - length
    {
      length := length + 1;
    }
  }

  /** memcpy into a host buffer. */
  method CopyInto(buffer: array<byte>, offset: int, bytes: seq<byte>)
    requires 0 <= offset && offset + |bytes| <= buffer.Length
    modifies buffer
    ensures forall k :: 0 <= k < buffer.Length ==>
              buffer[k] == if offset <= k < offset + |bytes| then bytes[k - offset] else old(buffer[k])
  {
    var i := 0;
    while i < |bytes|
      invariant 0 <= i <= |bytes|
      invariant forall k :: 0 <= k < buffer.Length ==>
                  buffer[k] == if offset <= k < offset + i then bytes[k - offset] else old(buffer[k])
    {
      buffer[offset + i] := bytes[i];
      i := i + 1;
    }
  }

  /** The bytes strncpyFromRealToVirtual copies: `MIN(n - 1, strlen(src))`, where `n - 1`
      is unsigned. */
  function Copied(src: seq<byte>, n: u32): (k: nat)
    requires 0 in src
    ensures k <= StringLength(src) < |src|
  {
    if Wrap32(n as int - 1) < StringLength(src) then Wrap32(n as int - 1) else StringLength(src)
  }

  lemma ZeroByte()
    ensures LeBytes(0, 1) == [0]
  {}

  /** A copy keeps to the `n` bytes it was given exactly when it was given any: of a
      length of zero, `n - 1` wraps and the whole string is copied. */
  lemma CopyKeepsToLength(src: seq<byte>, n: u32)
    requires 0 in src && |src| < 0x1_0000_0000
    ensures Copied(src, n) + 1 <= n <==> n != 0
    ensures n == 0 ==> Copied(src, n) == StringLength(src)
  {
    MinusOne(n);
    hide Wrap32, StringLength;
  }

  lemma MinusOne(n: u32)
    ensures Wrap32(n as int - 1) == if n == 0 then 0xffff_ffff else n - 1
  {}

  function StringLength(s: seq<byte>): (n: nat)
    requires 0 in s
    ensures n < |s| && s[n] == 0 && 0 !in s[..n]
  {
    if s[0] == 0 then 0 else
      var n := StringLength(s[1..]);
      assert s[..n + 1] == [s[0]] + s[1..][..n];
      n + 1
  }
}
