/** The walk over the gaps between sorted blocks finds what the page-by-page search finds,
    and what it finds can hold a block. */
module FirstFitWalk {
  import opened Words
  import opened AddressSpace
  import opened FEMemoryMapBlocks

  lemma PageAligned()
    ensures Aligned(PAGE)
  {}

  lemma GapFacts(blocks: seq<FEMemoryMapBlock?>, mapSize: int, i: nat)
    requires ListOk(blocks, mapSize) && i < |blocks|
    ensures blocks[i] != null && 0 < blocks[i].end <= RoundUp(blocks[i].end) <= mapSize + PAGE
    ensures RoundUp(blocks[i].end) <= 0x1_0000_0000
    ensures i + 1 < |blocks| ==> RoundUp(blocks[i].end) <= blocks[i + 1].virtualAddress
    ensures blocks[i].end == blocks[i].virtualAddress as int + blocks[i].size
    ensures PAGE <= RoundUp(blocks[i].end)
    ensures i + 1 < |blocks| ==> blocks[i + 1] != null && blocks[i].end <= blocks[i + 1].virtualAddress <= mapSize
    ensures blocks[i].virtualAddress <= mapSize
  {
    EndOfMap(blocks[i].Range(), mapSize);
    RoundUpIsNextPage(blocks[i].end, 0x1_0000_0000);
    if i + 1 < |blocks| {
      EndOfMap(blocks[i + 1].Range(), mapSize);
      RoundUpIsNextPage(blocks[i].end, blocks[i + 1].virtualAddress);
    }
  }

  lemma ClearBetween(blocks: seq<FEMemoryMapBlock?>, mapSize: int, a: int, bytes: int, i: int)
    requires ListOk(blocks, mapSize) && -1 <= i < |blocks|
    requires i >= 0 ==> blocks[i].end <= a
    requires i + 1 < |blocks| ==> a + bytes < blocks[i + 1].virtualAddress
    ensures Clear(Extents(blocks), a, bytes)
  {
    forall e | e in Extents(blocks) ensures !(e.start <= a + bytes && a < e.End()) {
      var b :| b in blocks && b != null && e == b.Range();
      var j :| 0 <= j < |blocks| && blocks[j] == b;
    }
  }

  lemma NotClear(blocks: seq<FEMemoryMapBlock?>, a: int, bytes: int, i: nat)
    requires i < |blocks| && blocks[i] != null
    requires blocks[i].Range().start <= a + bytes && a < blocks[i].Range().End()
    ensures !Clear(Extents(blocks), a, bytes)
  {
    assert blocks[i].Range() in Extents(blocks);
  }

  lemma LastPage(e: Extent, mapSize: int)
    requires Fits(e, mapSize)
    ensures 0 <= e.start / PAGE <= (e.End() - 1) / PAGE < mapSize / PAGE + 1
  {}

  lemma FewBlocks(blocks: seq<FEMemoryMapBlock?>, mapSize: int)
    requires ListOk(blocks, mapSize)
    ensures |blocks| <= 0x10_0000
  {
    if blocks != [] { BlockCount(blocks, mapSize, |blocks| - 1); }
  }

  lemma NotEmpty(blocks: seq<FEMemoryMapBlock?>)
    requires blocks != [] && blocks[0] != null
    ensures Extents(blocks) != {}
  {
    assert blocks[0].Range() in Extents(blocks);
  }

  lemma FitsBefore(blocks: seq<FEMemoryMapBlock?>, mapSize: int, bytes: int)
    requires ListOk(blocks, mapSize) && blocks != [] && PAGE + bytes < blocks[0].virtualAddress && 0 <= bytes
    ensures FirstFit(Extents(blocks), mapSize, bytes) == PAGE
    ensures !WrappedGap(Extents(blocks), mapSize, bytes)
  {
    EndOfMap(blocks[0].Range(), mapSize);
    ClearBetween(blocks, mapSize, PAGE, bytes, -1);
    NotEmpty(blocks);
    SearchFinds(Extents(blocks), mapSize, bytes, PAGE, PAGE);
    FoundBeforeWrapping(blocks, mapSize, bytes, -1, PAGE);
  }

  lemma NoneBeforeFirst(blocks: seq<FEMemoryMapBlock?>, mapSize: int, bytes: int)
    requires ListOk(blocks, mapSize) && blocks != [] && PAGE + bytes >= blocks[0].virtualAddress
    ensures NoneBelow(Extents(blocks), bytes, blocks[0].end)
  {
    forall a | Aligned(a) && PAGE <= a < blocks[0].end ensures !Clear(Extents(blocks), a, bytes) {
      NotClear(blocks, a, bytes, 0);
    }
  }

  lemma FitsBetween(blocks: seq<FEMemoryMapBlock?>, mapSize: int, bytes: int, i: nat)
    requires ListOk(blocks, mapSize) && i + 1 < |blocks| && NoneBelow(Extents(blocks), bytes, blocks[i].end)
    requires 0 <= bytes && RoundUp(blocks[i].end) + bytes < blocks[i + 1].virtualAddress
    ensures FirstFit(Extents(blocks), mapSize, bytes) == RoundUp(blocks[i].end)
  {
    var r := RoundUp(blocks[i].end);
    EndOfMap(blocks[i].Range(), mapSize);
    EndOfMap(blocks[i + 1].Range(), mapSize);
    RoundUpIsNextPage(blocks[i].end, r);
    ClearBetween(blocks, mapSize, r, bytes, i);
    NotEmpty(blocks);
    forall c | Aligned(c) && PAGE <= c < r ensures !Clear(Extents(blocks), c, bytes) {
      RoundUpIsNextPage(blocks[i].end, c);
    }
    SearchFinds(Extents(blocks), mapSize, bytes, PAGE, r);
  }

  lemma NoneBetween(blocks: seq<FEMemoryMapBlock?>, mapSize: int, bytes: int, i: nat)
    requires ListOk(blocks, mapSize) && i + 1 < |blocks| && NoneBelow(Extents(blocks), bytes, blocks[i].end)
    requires RoundUp(blocks[i].end) + bytes >= blocks[i + 1].virtualAddress
    ensures NoneBelow(Extents(blocks), bytes, blocks[i + 1].end)
  {
    forall a | Aligned(a) && PAGE <= a < blocks[i + 1].end ensures !Clear(Extents(blocks), a, bytes) {
      if blocks[i].end <= a {
        RoundUpIsNextPage(blocks[i].end, a);
        NotClear(blocks, a, bytes, i + 1);
      }
    }
  }

  lemma FitsInEmpty(blocks: seq<FEMemoryMapBlock?>, mapSize: int, bytes: int)
    ensures blocks == [] ==> FirstFit(Extents(blocks), mapSize, bytes) == if PAGE + bytes <= mapSize then PAGE else 0
    ensures blocks == [] ==> Extents(blocks) == {} && !WrappedGap(Extents(blocks), mapSize, bytes)
  {
    if blocks == [] {
      assert Extents(blocks) == {};
    }
  }

  lemma FitsAfter(blocks: seq<FEMemoryMapBlock?>, mapSize: int, bytes: int)
    requires ListOk(blocks, mapSize) && blocks != [] && 0 <= bytes
    requires NoneBelow(Extents(blocks), bytes, blocks[|blocks| - 1].end)
    ensures var r := RoundUp(blocks[|blocks| - 1].end);
            FirstFit(Extents(blocks), mapSize, bytes) == if r + bytes < mapSize then r else 0
  {
    var i := |blocks| - 1;
    var r := RoundUp(blocks[i].end);
    EndOfMap(blocks[i].Range(), mapSize);
    RoundUpIsNextPage(blocks[i].end, r);
    ClearBetween(blocks, mapSize, r, bytes, i);
    NotEmpty(blocks);
    forall c | Aligned(c) && PAGE <= c < r ensures !Clear(Extents(blocks), c, bytes) {
      RoundUpIsNextPage(blocks[i].end, c);
    }
    if r + bytes < mapSize {
      SearchFinds(Extents(blocks), mapSize, bytes, PAGE, r);
    } else {
      SearchFails(Extents(blocks), mapSize, bytes, PAGE);
    }
  }

  // ----- When a sum wraps

  /** Where the room after block `i` ends. */
  ghost function GapEnd(blocks: seq<FEMemoryMapBlock?>, mapSize: int, i: nat): int {
    if i + 1 < |blocks| && blocks[i + 1] != null then blocks[i + 1].virtualAddress else mapSize
  }

  /** The sum made for the gap after block `i` wraps into it. */
  ghost predicate SumWrapsAt(blocks: seq<FEMemoryMapBlock?>, mapSize: int, bytes: int, i: nat) {
    && i < |blocks| && blocks[i] != null
    && 0x1_0000_0000 <= RoundUp(blocks[i].end) + bytes < 0x1_0000_0000 + GapEnd(blocks, mapSize, i)
  }

  /** In a sorted list the end of the gap after a block is the start of the next one. */
  lemma GapEndIsNext(blocks: seq<FEMemoryMapBlock?>, mapSize: int, bytes: int, i: nat)
    requires ListOk(blocks, mapSize) && i < |blocks|
    ensures SumWrapsAt(blocks, mapSize, bytes, i) <==>
            SumWrapsIntoGap(Extents(blocks), mapSize, bytes, blocks[i].Range())
  {
    hide RoundUp;
    GapFacts(blocks, mapSize, i);
    if i + 1 < |blocks| { assert blocks[i + 1].Range() in Extents(blocks); }
    forall f | f in Extents(blocks) && blocks[i].end <= f.start ensures GapEnd(blocks, mapSize, i) <= f.start {
      var b :| b in blocks && b != null && f == b.Range();
      var j :| 0 <= j < |blocks| && blocks[j] == b;
    }
  }

  /** The sum taken of an address that may itself have been cut to 32 bits. */
  lemma Sum(x: int, y: u32)
    requires 0 <= x <= 0x1_0000_0000
    ensures Wrap32(Wrap32(x) as int + y) == if x + y < 0x1_0000_0000 then x + y else x + y - 0x1_0000_0000
  {}

  /** If a page has room and no gap up to the block before it wraps, none matters. */
  lemma FoundBeforeWrapping(blocks: seq<FEMemoryMapBlock?>, mapSize: int, bytes: int, i: int, a: int)
    requires ListOk(blocks, mapSize) && -1 <= i < |blocks|
    requires Aligned(a) && PAGE <= a && Clear(Extents(blocks), a, bytes)
    requires forall j :: 0 <= j <= i ==> !SumWrapsAt(blocks, mapSize, bytes, j)
    requires forall j :: i < j < |blocks| ==> a < blocks[j].end
    ensures !WrappedGap(Extents(blocks), mapSize, bytes)
  {
    hide SumWrapsAt, SumWrapsIntoGap, Clear, Aligned;
    forall e | e in Extents(blocks) && SumWrapsIntoGap(Extents(blocks), mapSize, bytes, e)
      ensures !NoneBelow(Extents(blocks), bytes, e.End())
    {
      var b :| b in blocks && b != null && e == b.Range();
      var j :| 0 <= j < |blocks| && blocks[j] == b;
      GapEndIsNext(blocks, mapSize, bytes, j);
    }
  }

  /** If no sum wraps there is no such gap. */
  lemma NoneWraps(blocks: seq<FEMemoryMapBlock?>, mapSize: int, bytes: int)
    requires ListOk(blocks, mapSize) && forall j :: 0 <= j < |blocks| ==> !SumWrapsAt(blocks, mapSize, bytes, j)
    ensures !WrappedGap(Extents(blocks), mapSize, bytes)
  {
    hide SumWrapsAt, SumWrapsIntoGap;
    forall e | e in Extents(blocks) ensures !SumWrapsIntoGap(Extents(blocks), mapSize, bytes, e) {
      var b :| b in blocks && b != null && e == b.Range();
      var j :| 0 <= j < |blocks| && blocks[j] == b;
      GapEndIsNext(blocks, mapSize, bytes, j);
    }
  }

  /** An address the walk finds by a wrapped sum is not the first fit: there is no room. */
  lemma WrappedIsWrong(blocks: seq<FEMemoryMapBlock?>, mapSize: int, bytes: int, i: nat)
    requires ListOk(blocks, mapSize) && i < |blocks| && mapSize < 0x1_0000_0000
    requires NoneBelow(Extents(blocks), bytes, blocks[i].end) && SumWrapsAt(blocks, mapSize, bytes, i)
    ensures WrappedGap(Extents(blocks), mapSize, bytes)
    ensures FirstFit(Extents(blocks), mapSize, bytes) != 0 ==>
              FirstFit(Extents(blocks), mapSize, bytes) != Wrap32(RoundUp(blocks[i].end))
  {
    hide RoundUp, SumWrapsIntoGap, Clear;
    GapFacts(blocks, mapSize, i);
    GapEndIsNext(blocks, mapSize, bytes, i);
    assert blocks[i].Range() in Extents(blocks);
    FirstFitIsLowest(Extents(blocks), mapSize, bytes);
    NotEmpty(blocks);
    if RoundUp(blocks[i].end) < 0x1_0000_0000 { NoWrap(RoundUp(blocks[i].end)); }
  }

  /** The walk is right if it finds a place exactly if there is one, and then the first. */
  ghost predicate Right(blocks: seq<FEMemoryMapBlock?>, mapSize: int, bytes: int, found: bool, r: int) {
    var place := FirstFit(Extents(blocks), mapSize, bytes);
    found == (place != 0) && (found ==> r == place)
  }

  /** What the test of the gap after block `i` decides once nothing fits up to that block. */
  lemma WalkEnds(blocks: seq<FEMemoryMapBlock?>, mapSize: int, bytes: u32, i: nat, address: u32)
    requires ListOk(blocks, mapSize) && i < |blocks| && mapSize < 0x1_0000_0000
    requires address == Wrap32(RoundUp(blocks[i].end)) && NoneBelow(Extents(blocks), bytes, blocks[i].end)
    requires forall j :: 0 <= j < i ==> !SumWrapsAt(blocks, mapSize, bytes, j)
    ensures Wrap32(address as int + bytes) < GapEnd(blocks, mapSize, i) ==>
              (Right(blocks, mapSize, bytes, true, address) <==> !WrappedGap(Extents(blocks), mapSize, bytes))
    ensures i + 1 == |blocks| && Wrap32(address as int + bytes) >= mapSize ==>
              FirstFit(Extents(blocks), mapSize, bytes) == 0 && !WrappedGap(Extents(blocks), mapSize, bytes)
  {
    hide RoundUp, FirstFit, Wrap32, NoneBelow, Extents, Clear, WrappedGap;
    GapFacts(blocks, mapSize, i);
    Sum(RoundUp(blocks[i].end), bytes);
    if i + 1 == |blocks| { FitsAfter(blocks, mapSize, bytes); }
    if SumWrapsAt(blocks, mapSize, bytes, i) {
      WrappedIsWrong(blocks, mapSize, bytes, i);
    } else if RoundUp(blocks[i].end) + bytes < GapEnd(blocks, mapSize, i) {
      NoWrap(RoundUp(blocks[i].end));
      if i + 1 < |blocks| { FitsBetween(blocks, mapSize, bytes, i); }
      FirstFitIsLowest(Extents(blocks), mapSize, bytes);
      FoundBeforeWrapping(blocks, mapSize, bytes, i, address);
    } else if i + 1 == |blocks| {
      NoneWraps(blocks, mapSize, bytes);
    }
  }

  /** A gap between two blocks that fails the test does not fit, and no sum wraps into it. */
  lemma TestFails(blocks: seq<FEMemoryMapBlock?>, mapSize: int, bytes: u32, i: nat, address: u32)
    requires ListOk(blocks, mapSize) && i + 1 < |blocks| && address == Wrap32(RoundUp(blocks[i].end))
    requires Wrap32(address as int + bytes) >= blocks[i + 1].virtualAddress
    ensures !SumWrapsAt(blocks, mapSize, bytes, i) && RoundUp(blocks[i].end) + bytes >= blocks[i + 1].virtualAddress
  {
    hide RoundUp, Wrap32;
    GapFacts(blocks, mapSize, i);
    Sum(RoundUp(blocks[i].end), bytes);
  }

  /** What the test made for an empty map decides. */
  lemma EmptyWalk(mapSize: u32, bytes: u32)
    ensures Right([], mapSize, bytes, bytes <= Wrap32(mapSize as int - PAGE), PAGE)
            <==> !Misled(Extents([]), mapSize, bytes)
  {
    FitsInEmpty([], mapSize, bytes);
    RoomAfterFirstPage(mapSize);
    hide FirstFit, Wrap32, WrappedGap;
  }

  lemma RoomAfterFirstPage(mapSize: u32)
    ensures Wrap32(mapSize as int - PAGE) == if mapSize < PAGE then mapSize - PAGE + 0x1_0000_0000 else mapSize - PAGE
  {}

  /** It happens: on a map of 1 GB, with blocks on pages 1 and 3, the walk comes to the gap
      of one page between them and takes it for an allocation of almost 4 GB, which fits
      nowhere. */
  lemma WrappedSumFitsAnywhere(b: FEMemoryMapBlock, c: FEMemoryMapBlock)
    requires b.Range() == Extent(0x1000, 0x1000) && c.Range() == Extent(0x3000, 0x1000)
    requires b.WellFormed(0x4000_0000) && c.WellFormed(0x4000_0000) && Unshared(b, c)
    ensures ListOk([b, c], 0x4000_0000) && WrappedGap(Extents([b, c]), 0x4000_0000, 0xffff_f000)
    ensures FirstFit(Extents([b, c]), 0x4000_0000, 0xffff_f000) == 0
  {
    var blocks: seq<FEMemoryMapBlock?> := [b, c];
    assert blocks[0] == b && blocks[1] == c;
    assert RoundUp(0x2000) == 0x2000;
    NoneBeforeFirst(blocks, 0x4000_0000, 0xffff_f000);
    assert SumWrapsAt(blocks, 0x4000_0000, 0xffff_f000, 0);
    GapEndIsNext(blocks, 0x4000_0000, 0xffff_f000, 0);
    assert b.Range() in Extents(blocks);
    FirstFitIsLowest(Extents(blocks), 0x4000_0000, 0xffff_f000);
  }

  // ----- The block made where the walk ends

  lemma NewBlockFits(blocks: seq<FEMemoryMapBlock?>, freed: set<int>, mapSize: int, bytes: int, r: int)
    requires ListOk(blocks, mapSize) && 0 < bytes && PAGE <= mapSize
    requires r == FirstFit(Extents(blocks), mapSize, bytes) != 0
    ensures Fits(Extent(r, bytes), mapSize) && r + bytes <= mapSize
    ensures forall i :: 0 <= i < |blocks| && blocks[i] != null ==> Disjoint(Extent(r, bytes), blocks[i].Range())
  {
    var s := MapState(mapSize, Extents(blocks), freed);
    assert s.Ok() by { ListIsOk(blocks, mapSize, freed); }
    AllocationFits(s, bytes);
    FirstFitIsLowest(Extents(blocks), mapSize, bytes);
    forall i | 0 <= i < |blocks| && blocks[i] != null
      ensures Disjoint(Extent(r, bytes), blocks[i].Range())
    {
      assert blocks[i].Range() in Extents(blocks);
    }
  }

  /** A good list lays out a good address space. */
  lemma ListIsOk(blocks: seq<FEMemoryMapBlock?>, mapSize: int, freed: set<int>)
    requires ListOk(blocks, mapSize)
    ensures MapState(mapSize, Extents(blocks), freed).Ok()
  {
    forall e, f | e in Extents(blocks) && f in Extents(blocks) && e != f
      ensures Fits(e, mapSize) && Disjoint(e, f)
    {
      var b :| b in blocks && b != null && e == b.Range();
      var c :| c in blocks && c != null && f == c.Range();
      Separate(blocks, mapSize, b, c);
    }
    forall e | e in Extents(blocks) ensures Fits(e, mapSize) {
      var b :| b in blocks && b != null && e == b.Range();
    }
  }

  lemma NewBlockFresh(block: FEMemoryMapBlock, blocks: seq<FEMemoryMapBlock?>, mapSize: int)
    requires forall i :: 0 <= i < |blocks| && blocks[i] != null ==> Disjoint(block.Range(), blocks[i].Range())
    requires forall b :: b in Buffers(blocks) ==> b != block.localAddress
    ensures Fresh(block, blocks)
  {
    forall i | 0 <= i < |blocks| && blocks[i] != null ensures Unshared(block, blocks[i]) {
      assert blocks[i].localAddress != null ==> blocks[i].localAddress in blocks[i].Buffer();
      assert blocks[i].localAddress != null ==> blocks[i].localAddress in Buffers(blocks);
    }
  }
}
