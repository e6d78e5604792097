/** The guest address space as the memory map lays it out: which extents are taken,
    which pages have been freed, and where the next allocation goes. This is the
    reference the memory map is proved against; its allocator looks at one page
    after another, where the code walks the gaps between sorted blocks. */
module AddressSpace {
  const PAGE := 4096

  predicate Aligned(a: int) { a % PAGE == 0 }

  datatype Extent = Extent(start: int, size: int) {
    function End(): int { start + size }

    /** Some byte of page `p` lies in the extent. */
    predicate CoversPage(p: int) { start < (p + 1) * PAGE && p * PAGE < End() }

    predicate Contains(a: int) { start <= a < End() }
  }

  predicate Disjoint(e: Extent, f: Extent) { e.End() <= f.start || f.End() <= e.start }

  /** What a block needs to be mapped in an address space of `size` bytes: it starts on
      a page and none of its pages lies past the one that holds address `size`. */
  predicate Fits(e: Extent, size: int) {
    && 0 <= e.start && Aligned(e.start) && 0 < e.size
    && e.End() <= (size / PAGE + 1) * PAGE
  }

  /** `[a, a + size]`, one byte more than was asked for, meets no extent. */
  ghost predicate Clear(blocks: set<Extent>, a: int, size: int) {
    forall e :: e in blocks ==> !(e.start <= a + size && a < e.End())
  }

  /** The first address an allocation may not reach; the check made for an empty
      address space is laxer by one byte. */
  ghost function Bound(blocks: set<Extent>, mapSize: int): int {
    if blocks == {} then mapSize + 1 else mapSize
  }

  ghost predicate Candidate(blocks: set<Extent>, mapSize: int, size: int, a: int) {
    Aligned(a) && PAGE <= a && a + size < Bound(blocks, mapSize) && Clear(blocks, a, size)
  }

  /** Page-by-page search for the first candidate; 0 when there is none. */
  ghost function Search(blocks: set<Extent>, mapSize: int, size: int, a: int): (r: int)
    requires Aligned(a)
    decreases mapSize + 1 - size - a
  {
    if a + size >= Bound(blocks, mapSize) then 0
    else if Clear(blocks, a, size) then a
    else Search(blocks, mapSize, size, a + PAGE)
  }

  ghost function FirstFit(blocks: set<Extent>, mapSize: int, size: int): int {
    Search(blocks, mapSize, size, PAGE)
  }

  lemma {:induction false} SearchFinds(blocks: set<Extent>, mapSize: int, size: int, a: int, b: int)
    requires Aligned(a) && Aligned(b) && a <= b && b + size < Bound(blocks, mapSize)
    requires Clear(blocks, b, size)
    requires forall c :: Aligned(c) && a <= c < b ==> !Clear(blocks, c, size)
    ensures Search(blocks, mapSize, size, a) == b
    decreases b - a
  {
    if a < b {
      NextPage(a, b);
      SearchFinds(blocks, mapSize, size, a + PAGE, b);
    }
  }

  lemma {:induction false} SearchFails(blocks: set<Extent>, mapSize: int, size: int, a: int)
    requires Aligned(a)
    requires forall c :: Aligned(c) && a <= c && c + size < Bound(blocks, mapSize) ==> !Clear(blocks, c, size)
    ensures Search(blocks, mapSize, size, a) == 0
    decreases mapSize + 1 - size - a
  {
    if a + size < Bound(blocks, mapSize) {
      NextPage(a, a);
      SearchFails(blocks, mapSize, size, a + PAGE);
    }
  }

  lemma NextPage(a: int, b: int)
    requires Aligned(a)
    ensures Aligned(a + PAGE)
    ensures Aligned(b) && a < b ==> a + PAGE <= b
  {}

  lemma {:induction false} SearchSound(blocks: set<Extent>, mapSize: int, size: int, a: int)
    requires Aligned(a) && PAGE <= a
    ensures var r := Search(blocks, mapSize, size, a);
            && (r != 0 ==> a <= r && Candidate(blocks, mapSize, size, r))
            && (forall c :: Aligned(c) && a <= c && Candidate(blocks, mapSize, size, c) ==> 0 < r <= c)
    decreases mapSize + 1 - size - a
  {
    if a + size < Bound(blocks, mapSize) && !Clear(blocks, a, size) {
      NextPage(a, a);
      SearchSound(blocks, mapSize, size, a + PAGE);
      var r := Search(blocks, mapSize, size, a);
      forall c | Aligned(c) && a <= c && Candidate(blocks, mapSize, size, c)
        ensures 0 < r <= c
      {
        assert c != a;
        NextPage(a, c);
      }
    }
  }

  /** The allocator is exactly first-fit: it succeeds if and only if there is a candidate,
      and then hands out the lowest one. */
  lemma FirstFitIsLowest(blocks: set<Extent>, mapSize: int, size: int)
    ensures var r := FirstFit(blocks, mapSize, size);
            && (r != 0 <==> exists a :: Candidate(blocks, mapSize, size, a))
            && (r != 0 ==> Candidate(blocks, mapSize, size, r))
            && (forall a :: Candidate(blocks, mapSize, size, a) ==> r <= a)
  {
    SearchSound(blocks, mapSize, size, PAGE);
    var r := FirstFit(blocks, mapSize, size);
    forall a | Candidate(blocks, mapSize, size, a)
      ensures 0 < r <= a
    {}
  }

  // ----- Where 32-bit arithmetic goes wrong

  /** `(address / ALIGNMENT + 1 * (address % ALIGNMENT != 0)) * ALIGNMENT` */
  function RoundUp(address: int): int {
    (address / PAGE + if address % PAGE != 0 then 1 else 0) * PAGE
  }

  lemma RoundUpIsNextPage(x: int, a: int)
    ensures Aligned(RoundUp(x)) && x <= RoundUp(x) < x + PAGE
    ensures Aligned(a) && x <= a ==> RoundUp(x) <= a
  {}

  lemma EndOfMap(e: Extent, mapSize: int)
    requires Fits(e, mapSize)
    ensures e.start <= mapSize && PAGE <= RoundUp(e.End()) <= mapSize + PAGE && e.End() <= RoundUp(e.End())
  {
    RoundUpIsNextPage(e.End(), (mapSize / PAGE + 1) * PAGE);
    RoundUpIsNextPage(e.End(), e.End());
  }

  /** No page at or after the first page of the address space and below `limit` is clear. */
  ghost predicate NoneBelow(blocks: set<Extent>, bytes: int, limit: int) {
    forall a :: Aligned(a) && PAGE <= a < limit ==> !Clear(blocks, a, bytes)
  }

  /** The first page after the extent and the size add up to more than 32 bits, and what is
      left of the sum lies before the end of the map and of the gap after the extent. */
  ghost predicate SumWrapsIntoGap(blocks: set<Extent>, mapSize: int, bytes: int, e: Extent) {
    var rest := RoundUp(e.End()) + bytes - 0x1_0000_0000;
    0 <= rest < mapSize && forall f :: f in blocks && e.End() <= f.start ==> rest < f.start
  }

  /** The walk over the gaps comes to such a gap, because nothing fits before it. */
  ghost predicate WrappedGap(blocks: set<Extent>, mapSize: int, bytes: int) {
    exists e :: e in blocks && NoneBelow(blocks, bytes, e.End()) && SumWrapsIntoGap(blocks, mapSize, bytes, e)
  }

  /** An empty map of less than a page, whose room after the first page is a negative
      number taken modulo 2^32. */
  ghost predicate WrappedRoom(blocks: set<Extent>, mapSize: int, bytes: int) {
    blocks == {} && mapSize < PAGE && bytes <= mapSize - PAGE + 0x1_0000_0000
  }

  /** Where 32-bit arithmetic makes the walk go wrong. */
  ghost predicate Misled(blocks: set<Extent>, mapSize: int, bytes: int) {
    WrappedGap(blocks, mapSize, bytes) || WrappedRoom(blocks, mapSize, bytes)
  }

  /** No sum wraps while size, map and a page together stay below 2^32. */
  lemma SmallSumsDoNotWrap(blocks: set<Extent>, mapSize: int, bytes: int)
    requires (forall e :: e in blocks ==> Fits(e, mapSize)) && bytes + mapSize + PAGE < 0x1_0000_0000
    ensures !WrappedGap(blocks, mapSize, bytes)
  {
    hide RoundUp;
    forall e | e in blocks ensures !SumWrapsIntoGap(blocks, mapSize, bytes, e) {
      EndOfMap(e, mapSize);
    }
  }

  // ----- Runs of map, malloc and free

  datatype MapState = MapState(size: int, blocks: set<Extent>, freed: set<int>) {
    /** Every extent fits, no two overlap, and since all start on a page, no two share a page. */
    ghost predicate Ok() {
      && (forall e :: e in blocks ==> Fits(e, size))
      && (forall e, f :: e in blocks && f in blocks && e != f ==> Disjoint(e, f))
    }

    ghost function Add(e: Extent): MapState {
      MapState(size, blocks + {e}, set p | p in freed && !e.CoversPage(p))
    }
  }

  datatype MapOp = Map(block: Extent) | Malloc(bytes: int) | Free(address: int)

  /** What the caller of an operation has to see to. */
  ghost predicate Enabled(s: MapState, op: MapOp) {
    match op
    case Map(e) => Fits(e, s.size) && forall f :: f in s.blocks ==> Disjoint(e, f)
    case Malloc(bytes) => 0 < bytes < 0x1_0000_0000 && PAGE <= s.size && !WrappedGap(s.blocks, s.size, bytes)
    case Free(address) => 0 <= address < (s.size / PAGE + 1) * PAGE
  }

  /** The address the operation returns; 0 when it returns none. */
  ghost function Result(s: MapState, op: MapOp): int {
    match op
    case Malloc(bytes) => FirstFit(s.blocks, s.size, bytes)
    case _ => 0
  }

  ghost function Apply(s: MapState, op: MapOp): MapState {
    match op
    case Map(e) => s.Add(e)
    case Malloc(bytes) =>
      var r := FirstFit(s.blocks, s.size, bytes);
      if r == 0 then s else s.Add(Extent(r, bytes))
    case Free(address) => s.(freed := s.freed + {address / PAGE})
  }

  ghost predicate Run(s: MapState, ops: seq<MapOp>)
    decreases |ops|
  {
    ops == [] || (Enabled(s, ops[0]) && Run(Apply(s, ops[0]), ops[1..]))
  }

  ghost function After(s: MapState, ops: seq<MapOp>): MapState
    decreases |ops|
  {
    if ops == [] then s else After(Apply(s, ops[0]), ops[1..])
  }

  /** A new address space of `size` bytes. */
  ghost function Empty(size: int): MapState { MapState(size, {}, {}) }

  lemma AllocationFits(s: MapState, bytes: int)
    requires s.Ok() && 0 < bytes && PAGE <= s.size
    ensures var r := FirstFit(s.blocks, s.size, bytes);
            r != 0 ==> Fits(Extent(r, bytes), s.size) && forall f :: f in s.blocks ==> Disjoint(Extent(r, bytes), f)
  {
    FirstFitIsLowest(s.blocks, s.size, bytes);
  }

  lemma StepKeepsOk(s: MapState, op: MapOp)
    requires s.Ok() && Enabled(s, op)
    ensures Apply(s, op).Ok() && s.blocks <= Apply(s, op).blocks && Apply(s, op).size == s.size
  {
    if op.Malloc? {
      AllocationFits(s, op.bytes);
    }
  }

  /** Over every run the extents stay on pages, in bounds and apart, and none disappears,
      whatever is freed. */
  lemma {:induction false} RunKeepsOk(s: MapState, ops: seq<MapOp>)
    requires s.Ok() && Run(s, ops)
    ensures After(s, ops).Ok() && s.blocks <= After(s, ops).blocks && After(s, ops).size == s.size
    decreases |ops|
  {
    if ops != [] {
      StepKeepsOk(s, ops[0]);
      RunKeepsOk(Apply(s, ops[0]), ops[1..]);
    }
  }

  /** A range an allocation hands out lies apart from everything ever mapped or handed out
      before it: no range is handed out twice, even after it was freed. */
  lemma NeverHandedOutAgain(s: MapState, first: MapOp, between: seq<MapOp>, later: MapOp)
    requires s.Ok() && Run(s, [first] + between)
    requires first.Malloc? && later.Malloc? && Enabled(After(s, [first] + between), later)
    requires Result(s, first) != 0 && Result(After(s, [first] + between), later) != 0
    ensures var a, b := Result(s, first), Result(After(s, [first] + between), later);
            a + first.bytes <= b || b + later.bytes < a
  {
    var ops := [first] + between;
    assert ops[1..] == between;
    var a := Extent(Result(s, first), first.bytes);
    assert a in Apply(s, first).blocks;
    StepKeepsOk(s, first);
    RunKeepsOk(Apply(s, first), between);
    FirstFitIsLowest(After(s, ops).blocks, After(s, ops).size, later.bytes);
  }
}
