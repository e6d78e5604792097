/** Blocks of guest memory: their order, the list that holds them sorted, the shadow
    table that names the block on each page, and the bytes they hold. */
module FEMemoryMapBlocks {
  import opened Words
  import opened MergeSortSpec
  import opened AddressSpace
  import opened FlatMemory

  /** A block of guest memory. Its place is settled before it is mapped and does not
      change afterwards. A block without a buffer, such as the page at address 0, only
      takes up addresses. */
  class FEMemoryMapBlock {
    const virtualAddress: u32
    const end: u32
    const size: u32
    const localAddress: array?<byte>

    constructor (virtualAddress: u32, size: u32, end: u32, localAddress: array?<byte>)
      ensures this.virtualAddress == virtualAddress && this.size == size && this.end == end
      ensures this.localAddress == localAddress
    {
      this.virtualAddress := virtualAddress;
      this.size := size;
      this.end := end;
      this.localAddress := localAddress;
    }

    predicate ContainsVirtualAddress(address: int) {
      virtualAddress <= address && end > address
    }

    function Range(): Extent { Extent(virtualAddress, size) }

    /** What the source takes for granted about a block it maps. */
    ghost predicate WellFormed(mapSize: int) {
      && Fits(Range(), mapSize) && end == virtualAddress as int + size
      && (localAddress != null ==> size <= localAddress.Length)
    }

    ghost function Buffer(): set<array<byte>> {
      if localAddress == null then {} else {localAddress}
    }
  }

  function Compare(block1: FEMemoryMapBlock?, block2: FEMemoryMapBlock?): FEComparisonResult {
    if block1 == null || block2 == null then Same
    else if block1.virtualAddress < block2.virtualAddress then Ascendent
    else if block1.virtualAddress > block2.virtualAddress then Descendent
    else Same
  }

  /** The blocks do not have the same buffer. */
  ghost predicate Unshared(b: FEMemoryMapBlock, c: FEMemoryMapBlock) {
    b.localAddress == null || b.localAddress != c.localAddress
  }

  // ----- The list of blocks

  ghost predicate WellFormedList(blocks: seq<FEMemoryMapBlock?>, mapSize: int) {
    forall i :: 0 <= i < |blocks| ==> blocks[i] != null && blocks[i].WellFormed(mapSize)
  }

  /** Strictly sorted by address, without overlap, no buffer shared. */
  ghost predicate ListOk(blocks: seq<FEMemoryMapBlock?>, mapSize: int) {
    && WellFormedList(blocks, mapSize)
    && forall i, j :: 0 <= i < j < |blocks| ==>
         blocks[i].end <= blocks[j].virtualAddress && Unshared(blocks[i], blocks[j])
  }

  ghost function Extents(blocks: seq<FEMemoryMapBlock?>): set<Extent> {
    set b | b in blocks && b != null :: b.Range()
  }

  /** The extents of the blocks without a buffer. */
  ghost function Unbacked(blocks: seq<FEMemoryMapBlock?>): set<Extent> {
    set b | b in blocks && b != null && b.localAddress == null :: b.Range()
  }

  ghost function Buffers(blocks: seq<FEMemoryMapBlock?>): set<array<byte>> {
    set b, a | b in blocks && b != null && a in b.Buffer() :: a
  }

  /** The linear search the shadow table stands in for. */
  function Owner(blocks: seq<FEMemoryMapBlock?>, address: int): FEMemoryMapBlock? {
    if blocks == [] then null
    else if blocks[0] != null && blocks[0].ContainsVirtualAddress(address) then blocks[0]
    else Owner(blocks[1..], address)
  }

  // ----- The shadow table

  predicate Covers(b: FEMemoryMapBlock?, p: int) { b != null && b.Range().CoversPage(p) }

  /** A slot names the listed block that covers its page, unless the page was freed. */
  ghost predicate ShadowOk(shadow: seq<FEMemoryMapBlock?>, blocks: seq<FEMemoryMapBlock?>, freed: set<int>) {
    && (forall p :: 0 <= p < |shadow| && shadow[p] != null ==>
          shadow[p] in blocks && Covers(shadow[p], p) && p !in freed)
    && (forall i, p :: 0 <= i < |blocks| && 0 <= p < |shadow| && p !in freed && Covers(blocks[i], p) ==>
          shadow[p] == blocks[i])
  }

  // ----- Guest memory as a flat map

  predicate Backed(b: FEMemoryMapBlock?) { b != null && b.localAddress != null }

  ghost function MemOf(blocks: seq<FEMemoryMapBlock?>, mapSize: int): map<int, byte>
    requires WellFormedList(blocks, mapSize)
    reads Buffers(blocks)
  {
    map a | 0 <= a < 0x1_0000_0000 && Backed(Owner(blocks, a)) :: ByteAt(blocks, mapSize, a)
  }

  ghost function ByteAt(blocks: seq<FEMemoryMapBlock?>, mapSize: int, a: int): byte
    requires WellFormedList(blocks, mapSize) && Backed(Owner(blocks, a))
    reads Buffers(blocks)
  {
    OwnerListed(blocks, a);
    var b := Owner(blocks, a);
    assert b.localAddress in b.Buffer();
    assert b.localAddress in Buffers(blocks);
    b.localAddress[a - b.virtualAddress]
  }

  lemma {:induction false} OwnerListed(blocks: seq<FEMemoryMapBlock?>, a: int)
    ensures var b := Owner(blocks, a); b != null ==> b in blocks && b.ContainsVirtualAddress(a)
  {
    if blocks != [] { OwnerListed(blocks[1..], a); }
  }

  /** The linear search finds a listed block that contains the address, and no other does. */
  lemma {:induction false} OwnerIs(blocks: seq<FEMemoryMapBlock?>, mapSize: int, a: int, b: FEMemoryMapBlock)
    requires ListOk(blocks, mapSize) && b in blocks && b.ContainsVirtualAddress(a)
    ensures Owner(blocks, a) == b
  {
    if blocks[0] != b {
      assert !blocks[0].ContainsVirtualAddress(a);
      OwnerIs(blocks[1..], mapSize, a, b);
    }
  }

  /** The bytes of one block, at their guest addresses. */
  ghost function BytesOf(b: FEMemoryMapBlock): map<int, byte>
    requires b.localAddress != null ==> b.end <= b.virtualAddress as int + b.localAddress.Length
    reads b.Buffer()
  {
    map a | 0 <= a < 0x1_0000_0000 && b.localAddress != null && b.ContainsVirtualAddress(a) ::
      b.localAddress[a - b.virtualAddress]
  }

  // ----- Appending a block

  ghost predicate NoDuplicates(s: seq<FEMemoryMapBlock?>) {
    forall x :: x in s ==> multiset(s)[x] == 1
  }

  /** Every element of a list without repetition occurs once. */
  lemma {:induction false} OnceEach(s: seq<FEMemoryMapBlock?>)
    requires forall i, j :: 0 <= i < j < |s| ==> s[i] != s[j]
    ensures NoDuplicates(s)
  {
    if s != [] {
      OnceEach(s[1..]);
      assert s == [s[0]] + s[1..];
      assert s[0] !in s[1..];
    }
  }

  lemma Distinct(s: seq<FEMemoryMapBlock?>, i: int, j: int)
    requires NoDuplicates(s)
    requires 0 <= i < j < |s|
    ensures s[i] != s[j]
  {
    var x := s[i];
    assert s == s[..j] + s[j..];
    assert multiset(s)[x] == multiset(s[..j])[x] + multiset(s[j..])[x];
    assert s[..j][i] in multiset(s[..j]) && s[j..][0] in multiset(s[j..]);
  }

  ghost predicate InAddressOrder(r: seq<FEMemoryMapBlock?>) {
    forall i, j :: 0 <= i < j < |r| ==>
      r[i] != null && r[j] != null && r[i].virtualAddress <= r[j].virtualAddress
  }

  lemma SortedByAddress(blocks: seq<FEMemoryMapBlock?>)
    requires forall b :: b in blocks ==> b != null
    ensures var r := MergeSort(Compare, blocks);
            && multiset(r) == multiset(blocks)
            && InAddressOrder(r)
  {
    var u := set b | b in blocks;
    MergeSortPermutes(Compare, blocks);
    MergeSortSorts(Compare, u, blocks);
    var r := MergeSort(Compare, blocks);
    forall i, j | 0 <= i < j < |r|
      ensures r[i] != null && r[j] != null && r[i].virtualAddress <= r[j].virtualAddress
    {
      assert r[i] in multiset(r) && r[j] in multiset(r);
      assert Before(Compare, r[i], r[j]);
    }
  }

  ghost predicate Fresh(block: FEMemoryMapBlock, blocks: seq<FEMemoryMapBlock?>) {
    forall i :: 0 <= i < |blocks| && blocks[i] != null ==>
      Disjoint(block.Range(), blocks[i].Range()) && Unshared(block, blocks[i])
  }

  lemma SortedListOk(blocks: seq<FEMemoryMapBlock?>, block: FEMemoryMapBlock, mapSize: int)
    requires ListOk(blocks, mapSize) && block.WellFormed(mapSize) && Fresh(block, blocks)
    ensures var r := MergeSort(Compare, blocks + [block]);
            ListOk(r, mapSize) && multiset(r) == multiset(blocks + [block])
  {
    var s := blocks + [block];
    assert forall b :: b in s ==> b != null;
    hide MergeSort, ListOk, Fresh;
    SortedByAddress(s);
    NoRepetition(blocks, block, mapSize);
    var r := MergeSort(Compare, s);
    Reordered(s, r, blocks, block, mapSize);
  }

  lemma Reordered(s: seq<FEMemoryMapBlock?>, r: seq<FEMemoryMapBlock?>, blocks: seq<FEMemoryMapBlock?>,
                  block: FEMemoryMapBlock, mapSize: int)
    requires ListOk(blocks, mapSize) && block.WellFormed(mapSize) && Fresh(block, blocks)
    requires s == blocks + [block] && multiset(r) == multiset(s) && NoDuplicates(s)
    requires InAddressOrder(r)
    ensures ListOk(r, mapSize)
  {
    hide Fresh;
    assert WellFormedList(s, mapSize);
    forall i | 0 <= i < |r|
      ensures r[i] in s && r[i] != null && r[i].WellFormed(mapSize)
    {
      assert r[i] in multiset(r);
    }
    forall i, j | 0 <= i < j < |r|
      ensures r[i].end <= r[j].virtualAddress && Unshared(r[i], r[j])
    {
      Distinct(r, i, j);
      Apart(blocks, block, mapSize, r[i], r[j]);
    }
  }

  lemma NoRepetition(blocks: seq<FEMemoryMapBlock?>, block: FEMemoryMapBlock, mapSize: int)
    requires ListOk(blocks, mapSize) && block.WellFormed(mapSize) && Fresh(block, blocks)
    ensures NoDuplicates(blocks + [block])
  {
    var s := blocks + [block];
    forall i, j | 0 <= i < j < |s| ensures s[i] != s[j] {
      assert s[i] == blocks[i];
    }
    OnceEach(s);
  }

  lemma Apart(blocks: seq<FEMemoryMapBlock?>, block: FEMemoryMapBlock, mapSize: int,
              b: FEMemoryMapBlock, c: FEMemoryMapBlock)
    requires ListOk(blocks, mapSize) && block.WellFormed(mapSize) && Fresh(block, blocks)
    requires b in blocks + [block] && c in blocks + [block] && b != c
    requires b.virtualAddress <= c.virtualAddress
    ensures b.end <= c.virtualAddress && Unshared(b, c)
  {}

  // ----- Address arithmetic

  /** The page of an address that lies in an aligned extent is one the extent covers,
      and lies after its start. */
  lemma PageOf(e: Extent, a: int)
    requires Aligned(e.start) && 0 <= a
    ensures e.Contains(a) ==> e.CoversPage(a / PAGE)
    ensures e.CoversPage(a / PAGE) ==> e.start <= a
  {}

  /** Disjoint aligned extents share no page. */
  lemma PagesApart(e: Extent, f: Extent, p: int)
    requires Aligned(e.start) && Aligned(f.start) && Disjoint(e, f)
    ensures !(e.CoversPage(p) && f.CoversPage(p))
  {}

  /** The pages from the one of the first byte to the one of the last. */
  lemma PagesOf(e: Extent, p: int)
    requires Aligned(e.start) && 0 <= e.start && 0 < e.size
    ensures e.CoversPage(p) <==> e.start / PAGE <= p <= (e.End() - 1) / PAGE
  {}

  lemma {:induction false} BlockCount(blocks: seq<FEMemoryMapBlock?>, mapSize: int, i: int)
    requires ListOk(blocks, mapSize) && 0 <= i < |blocks|
    ensures PAGE * i <= blocks[i].virtualAddress
  {
    if i > 0 {
      BlockCount(blocks, mapSize, i - 1);
      var b, c := blocks[i - 1], blocks[i];
      assert b.end <= c.virtualAddress;
      NextPage(b.virtualAddress, c.virtualAddress);
    }
  }

  // ----- What appending a block does to the shadow table and to memory

  lemma SameMembers(blocks: seq<FEMemoryMapBlock?>, block: FEMemoryMapBlock, r: seq<FEMemoryMapBlock?>)
    requires multiset(r) == multiset(blocks + [block])
    ensures forall b :: b in r <==> b in blocks || b == block
    ensures Extents(r) == Extents(blocks) + {block.Range()}
    ensures Buffers(r) == Buffers(blocks) + block.Buffer()
    ensures Unbacked(r) == Unbacked(blocks) + if block.localAddress == null then {block.Range()} else {}
  {
    forall b ensures b in r <==> b in blocks || b == block {
      assert b in r <==> b in multiset(r);
      assert b in multiset(blocks + [block]) <==> b in blocks + [block];
    }
  }

  lemma AppendedShadow(slots: seq<FEMemoryMapBlock?>, slots': seq<FEMemoryMapBlock?>, blocks: seq<FEMemoryMapBlock?>,
                       block: FEMemoryMapBlock, r: seq<FEMemoryMapBlock?>, freed: set<int>, mapSize: int)
    requires ListOk(blocks, mapSize) && ShadowOk(slots, blocks, freed)
    requires block.WellFormed(mapSize) && Fresh(block, blocks) && multiset(r) == multiset(blocks + [block])
    requires |slots'| == |slots|
    requires forall p :: 0 <= p < |slots| ==> slots'[p] == if Covers(block, p) then block else slots[p]
    ensures ShadowOk(slots', r, set p | p in freed && !block.Range().CoversPage(p))
  {
    SameMembers(blocks, block, r);
    forall i, p | 0 <= i < |r| && 0 <= p < |slots'| && !(p in freed && !block.Range().CoversPage(p)) && Covers(r[i], p)
      ensures slots'[p] == r[i]
    {
      assert r[i] in r;
      if r[i] != block {
        PagesApart(r[i].Range(), block.Range(), p);
      }
    }
  }

  /** Before a block is appended none of its pages has a slot in use. */
  lemma SlotsFree(slots: seq<FEMemoryMapBlock?>, blocks: seq<FEMemoryMapBlock?>, block: FEMemoryMapBlock,
                  freed: set<int>, mapSize: int, p: int)
    requires ListOk(blocks, mapSize) && ShadowOk(slots, blocks, freed)
    requires block.WellFormed(mapSize) && Fresh(block, blocks) && 0 <= p < |slots| && Covers(block, p)
    ensures slots[p] == null
  {
    if slots[p] != null {
      PagesApart(slots[p].Range(), block.Range(), p);
    }
  }

  lemma AppendedMem(blocks: seq<FEMemoryMapBlock?>, block: FEMemoryMapBlock, r: seq<FEMemoryMapBlock?>, mapSize: int)
    requires ListOk(blocks, mapSize) && block.WellFormed(mapSize)
    requires ListOk(r, mapSize) && multiset(r) == multiset(blocks + [block])
    ensures MemOf(r, mapSize) == MemOf(blocks, mapSize) + BytesOf(block)
  {
    SameMembers(blocks, block, r);
    hide MemOf, BytesOf, ListOk, Owner, Buffers;
    var m := MemOf(blocks, mapSize) + BytesOf(block);
    forall a: int
      ensures a in MemOf(r, mapSize) <==> a in m
      ensures a in m && a in MemOf(r, mapSize) ==> m[a] == MemOf(r, mapSize)[a]
    {
      AppendedAt(blocks, block, r, mapSize, a);
    }
  }

  lemma AppendedAt(blocks: seq<FEMemoryMapBlock?>, block: FEMemoryMapBlock, r: seq<FEMemoryMapBlock?>,
                   mapSize: int, a: int)
    requires ListOk(blocks, mapSize) && ListOk(r, mapSize) && block.WellFormed(mapSize)
    requires forall b :: b in r <==> b in blocks || b == block
    ensures a in MemOf(r, mapSize) <==> a in MemOf(blocks, mapSize) || a in BytesOf(block)
    ensures a in MemOf(r, mapSize) ==>
              MemOf(r, mapSize)[a] == if a in BytesOf(block) then BytesOf(block)[a] else MemOf(blocks, mapSize)[a]
  {
    OwnerAfterAppend(blocks, block, r, mapSize, a);
    hide ListOk, Owner, Buffers;
  }

  lemma NewAddresses(blocks: seq<FEMemoryMapBlock?>, block: FEMemoryMapBlock, mapSize: int)
    requires WellFormedList(blocks, mapSize) && block.WellFormed(mapSize) && Fresh(block, blocks)
    ensures forall a :: a in MemOf(blocks, mapSize) ==> !block.ContainsVirtualAddress(a)
  {
    forall a | a in MemOf(blocks, mapSize) ensures !block.ContainsVirtualAddress(a) {
      OwnerListed(blocks, a);
    }
  }

  lemma OwnerAfterAppend(blocks: seq<FEMemoryMapBlock?>, block: FEMemoryMapBlock, r: seq<FEMemoryMapBlock?>,
                         mapSize: int, a: int)
    requires ListOk(blocks, mapSize) && ListOk(r, mapSize)
    requires forall b :: b in r <==> b in blocks || b == block
    ensures Owner(r, a) == if block.ContainsVirtualAddress(a) then block else Owner(blocks, a)
    ensures block.ContainsVirtualAddress(a) && Owner(blocks, a) != null ==> Owner(blocks, a) == block
  {
    OwnerListed(r, a);
    OwnerListed(blocks, a);
    if block.ContainsVirtualAddress(a) {
      OwnerIs(r, mapSize, a, block);
      if Owner(blocks, a) != null { OwnerIs(r, mapSize, a, Owner(blocks, a)); }
    } else if Owner(blocks, a) != null {
      OwnerIs(r, mapSize, a, Owner(blocks, a));
    } else if Owner(r, a) != null {
      OwnerIs(blocks, mapSize, a, Owner(r, a));
    }
  }

  lemma Separate(blocks: seq<FEMemoryMapBlock?>, mapSize: int, b: FEMemoryMapBlock, c: FEMemoryMapBlock)
    requires ListOk(blocks, mapSize) && b in blocks && c in blocks && b != c
    ensures Unshared(b, c) && Disjoint(b.Range(), c.Range())
  {}
}
