# Verification of the emulator core and of tcc's MD5

A Dafny model of two parts of the repository, with proofs:

* the core of `fallout-emu`, a user-mode x86 emulator: its growable array with an in-place merge sort, the guest
  memory map (a first-fit allocator over a sorted list of blocks, and a page table that names the block on each page),
  guest threads with their stacks and thread information blocks (TIBs), the register file with its overlapping views,
  multiplication and division with flags and fault ranges, and the x87 register ring;
* the streaming MD5 implementation in `compilers/tcc/md5.c`.

Code that changes things in place is modelled in place: classes with arrays and fields, methods with loops. Each such
method is proved against a function or a predicate on values, and the properties below are proved about those.
`dafny verify dfyconfig.toml` checks everything.

## What is proved, in short

* **Memory map.** The list stays strictly sorted and without overlap and agrees with the page table after every
  operation; the slot a new block is entered in is always found free. The allocator, which walks the gaps between
  blocks, is exactly first-fit: it returns what a page-by-page search returns, if and only if its 32-bit arithmetic does
  not mislead it. No range is handed out twice, freed or not. Every load and store that stays in one block acts on one
  flat little-endian byte map, `Mem`, and the constant-time lookup in the page table agrees with a linear search of the
  list.
* **Threads.** `GuestRuns` is a machine whose steps are thread creation, pushes, pops, writes of any value to ESP, the
  mapping of blocks with or without a buffer, allocations and frees, in any order. Over every run all stacks and TIBs
  lie apart. While no push goes outside its own stack (`Inside`), every TIB reads back the ends of its own thread's
  stack, no TIB changes, a thread that does not operate on its stack keeps every byte of it, and the stack of a thread
  that does not write ESP goes through exactly the steps of its own pushes and pops, as if it ran alone. When a push goes
  outside is decided exactly (`PushIsInside`). `GuestExecution` proves that the methods of the classes, called on real
  objects, perform exactly these steps, on any memory map.
* **Stack.** The contents are a byte string to which every push and pop of every width adds or removes exactly its
  bytes; any mixed run in which pops match the widths pushed returns the values last-in, first-out.
* **MD5.** For any split of a message into `Append` calls, `Finish` delivers the digest RFC 1321 (sections 3.1 to
  3.5) specifies; the 64 unrolled operations are the 64 steps of its table. The functions it is specified with are tied
  to bits and numbers: what F, G, H and I do to each bit, a rotation as multiplication and division, the padding, the
  start words and the order of bytes.
* **Sort.** The in-place merge sort yields a sorted, stable permutation for every comparison that is a total preorder
  on the elements.
* **Arithmetic, registers, x87.** Exact products with flags set exactly when they do not fit; truncating division with
  exact fault ranges, undoing multiplication; every byte of the register file is what the last write that touched it
  put there, no register shares a byte with another, and reads through the thread return what was written; the x87
  ring returns what an unbounded stack would exactly if every pop finds a value that is still in it.

## Where the code does less than it seems to promise

* A 16-bit push asserts only that the moved stack pointer is above the start of the stack
  (`fallout-emu/FEStack.c:79`), where a 32-bit push also looks at the base. Guest instructions write ESP
  (`fallout-emu/FEProcess.m:1438`, `1454`, `1466`, `1916`), and a 32-bit pop with two bytes left moves it past the base.
  `FEStack.Push16AssertIsNotRoom` shows for every ESP when the assertion holds and when it keeps the bytes in the stack:
  not if ESP is above the base, or 0 or 1, where the subtraction wraps. `GuestExecution.PushOverwritesTib` is a run from
  a new memory map in which such a push, its assertion true, replaces half of the stack base in the TIB.
  `FEStack.Push32AssertIsRoom` shows that the assertions of a 32-bit push suffice for every ESP.
* A pop asserts only that ESP is below the base (`fallout-emu/FEStack.c:65` and `:87`). `FEStack.PopAssertIsNotRoom` shows
  for every ESP when that keeps the pop inside the stack, `StackSpec.GuardKeepsPopInside` does for every run of pushes and
  pops, and `StackSpec.GuardMissesHalfWord` gives the run in which it does not: a 32-bit pop after one 16-bit push reads
  two bytes past the base. The methods `Pop32`, `Pop16` and `Pop` require that the bytes are there.
* An access translates only its first byte and goes on in the host buffer of that block
  (`fallout-emu/FEMemoryMap.c:335-364` does not look at `size`). If all its addresses are in memory, it stays in that
  buffer exactly if the last is in the same block as the first: `FEMemoryMap.InBlockIsSameOwner`. Blocks do touch:
  `GuestExecution.AccessAcrossBlocks` creates a thread in an empty map and shows that a 32-bit access two bytes below the
  base of its stack, and a 16-bit push with ESP one above the base, its assertion true, run from the stack into the TIB.
  The source then reads or writes past the host buffer of the stack and does not reach the TIB.
* A string copy with a size of 0 copies the whole string, because `size - 1` is unsigned
  (`fallout-emu/FEMemoryMap.c:253`): `FEMemoryMaps.CopyKeepsToLength`.
* The 32-bit sums of the allocator can wrap (`fallout-emu/FEMemoryMap.c:116-119`, `142-144`). The address it finds is
  the first fit if and only if the walk does not come to a gap into which a sum wraps and the map is not an empty one of
  less than a page whose remaining room wraps (`FEMemoryMap.FindAddress`, `AddressSpace.Misled`), on every map. One such
  gap is the one after a block on the last page of a map of almost 4 GB, where the address itself wraps to 0.
  `FirstFitWalk.WrappedSumFitsAnywhere` gives a list of two blocks on a map of 1 GB for which the walk comes to such a
  gap, so that `FindAddress` returns an address although nothing fits, and `AddressSpace.SmallSumsDoNotWrap` shows that
  there is no such gap while the requested size, the size of the map and one page together stay below 2^32. `Malloc` and
  the runs of `AddressSpace` and `GuestRuns` require that there is none.
* The bounds of the allocator differ by one byte between an empty and a non-empty map, and it leaves at least one byte
  free after an allocation. `AddressSpace.Bound` and `AddressSpace.Clear` say so.
* `free` only clears one slot of the page table: the block stays listed and its addresses are never handed out again.
* The x87 ring does not notice overflow (`fallout-emu/FEFPU.c:81`): a push on a full ring replaces the oldest value.
  `FEFPUs.RingIsStack` shows for every run that the ring returns what an unbounded stack would if every pop finds a value
  still held, and for pairwise distinct values only then; `FEFPUs.NinthPushReplacesOldest` that of values pushed in a row
  eight come back and no more.

## Modules

| module | models |
|---|---|
| `Words` | fixed-width words, little-endian byte strings, the bitwise operators of C |
| `Md5Spec`, `Md5` | RFC 1321 as a function; `compilers/tcc/md5.c` |
| `MergeSortSpec`, `FEArrays` | stable merge sort as a function; `fallout-emu/FEArray.c` |
| `AddressSpace`, `FlatMemory` | the address space as a set of extents, guest memory as a byte map |
| `FEMemoryMapBlocks`, `FirstFitWalk`, `FEMemoryMaps` | `fallout-emu/FEMemoryMapBlock.c`, `fallout-emu/FEMemoryMap.c` |
| `RegisterFile`, `CpuArithmetic`, `StackSpec` | registers, arithmetic and stack contents as functions |
| `FEThreads` | `fallout-emu/FEStack.c`, `fallout-emu/FEThreadContext.c` |
| `FEFPUs` | `fallout-emu/FEFPU.c` |
| `GuestRuns`, `GuestExecution` | whole runs of a guest, and their execution by the classes |

## Model

| member | source | states |
|---|---|---|
| Md5Spec.Padding | compilers/tcc/md5.c:374-387 | the padding is a byte 0x80 and then zeros, 1 to 64 bytes in all, and brings the length to 56 modulo 64 |
| Md5Spec.Padded | compilers/tcc/md5.c:383-389 | the padded message is the message, a byte 0x80, zeros and eight bytes whose value is the bit length modulo 2^64, in the fewest whole blocks |
| Md5Spec.InitialBytes | compilers/tcc/md5.c:323-331 | the four start words, low byte first, are the bytes 01 23 45 67 89 ab cd ef fe dc ba 98 76 54 32 10 |
| Md5Spec.BytesOfBlockWord | compilers/tcc/md5.c:182-187 | word i of a block has the bytes 4i to 4i + 3 of the block, low byte first |
| Md5.DecodeBlock | compilers/tcc/md5.c:182-187 | the 16 words decoded are the little-endian words of the block |
| Words.BitwiseBits | compilers/tcc/md5.c:208-291 | each bit of a bitwise and, or or exclusive or is that operation on the bits in its place |
| Words.BitIsDigit | compilers/tcc/md5.c:208-291 | a bit is the digit in its place to the base 2 |
| Words.BitsOfOperators | compilers/tcc/md5.c:208-291 | bit by bit the four operators on 32-bit words are and, or, inequality and not |
| Words.RotationIs | compilers/tcc/md5.c:208 | a rotation by n is the word times 2^n modulo 2^32, plus the word divided by 2^(32 - n) |
| Words.ShiftRightDivides | compilers/tcc/md5.c:385 | a right shift by n divides by 2^n |
| Words.DigitOfBytes | compilers/tcc/md5.c:385-391 | byte j of a number stored low byte first is its digit j to the base 256 |
| Md5Spec.BitsOfRounds | compilers/tcc/md5.c:213-291 | bit by bit F takes y where x is set and z elsewhere, G takes x where z is set and y elsewhere, H is the parity of the three, I is y unequal to (x or not z) |
| Md5Spec.CompressAdds | compilers/tcc/md5.c:313-320 | a block adds to each of the four words, modulo 2^32, what the 64 operations make of it |
| Md5.Rounds | compilers/tcc/md5.c:208-312 | the 64 unrolled operations equal the 64 steps of the table of section 3.4 of RFC 1321, for every block and state |
| Md5.Md5State.Init | compilers/tcc/md5.c:323-331 | a new state is good for the empty message: counter 0, the start words in the digest buffer |
| Md5.Md5State.Process | compilers/tcc/md5.c:165-321 | one block is folded into the digest buffer by the compression function of RFC 1321 |
| Md5.CountsAfter | compilers/tcc/md5.c:339-348 | with the carry and the bits `nbytes >> 29` the two words count 8 times the total length modulo 2^64 |
| Md5.CountsAlign | compilers/tcc/md5.c:338 | the offset computed from the low count word is the total length modulo 64, whatever has wrapped |
| Md5.Md5State.CountBytes | compilers/tcc/md5.c:344-348 | the counter goes from the length before to the length after |
| Md5.WithinBlock | compilers/tcc/md5.c:350-356 | data that does not fill the partial block only lengthens it |
| Md5.AcrossBlock | compilers/tcc/md5.c:350-364 | data that fills the partial block has that block absorbed first, then the rest |
| Md5.LastBlock | compilers/tcc/md5.c:366-368 | after whole blocks the bytes left over are the unprocessed tail of the whole message |
| Md5.AbsorbMore | compilers/tcc/md5.c:350-368 | absorbing a longer message is absorbing the shorter one and then its tail with the new data |
| Md5.Md5State.ProcessPartialBlock | compilers/tcc/md5.c:350-360 | the buffer holds the old bytes followed by the copied ones, and is compressed exactly if it is full |
| Md5.Md5State.ProcessBlocks | compilers/tcc/md5.c:362-364 | the loop absorbs all whole blocks of the data and leaves fewer than 64 bytes |
| Md5.Md5State.Append | compilers/tcc/md5.c:333-369 | the message grows by exactly the data; counter, digest and partial block keep their meaning; a non-positive length changes nothing |
| Md5.Md5State.SaveLength | compilers/tcc/md5.c:383-385 | the eight bytes are the bit length modulo 2^64, low byte first |
| Md5.PadLength | compilers/tcc/md5.c:387 | the pad length computed from the wrapped counter is that of the true length |
| Md5Spec.Output | compilers/tcc/md5.c:390-391 | digest byte i is digit i modulo 4 to the base 256 of word i / 4 |
| Md5.Md5State.Output16 | compilers/tcc/md5.c:390-391 | the loop writes the digest bytes of the four words, low byte first |
| Md5.Md5State.Finish | compilers/tcc/md5.c:371-392 | the digest is the MD5 of everything appended since initialisation |
| Md5.DigestOfChunks | compilers/tcc/md5.c:323-392 | for every split of a message into chunks the result is the MD5 of their concatenation |
| MergeSortSpec.MergeSortPermutes | fallout-emu/FEArray.c:257-268 | the sort neither loses nor duplicates elements |
| MergeSortSpec.MergeSortSorts | fallout-emu/FEArray.c:257-268 | the result is sorted for any comparison that is a total preorder on the elements |
| MergeSortSpec.MergeSortStable | fallout-emu/FEArray.c:213 | elements the comparison cannot tell apart keep their order |
| MergeSortSpec.MergeSorts | fallout-emu/FEArray.c:204-251 | merging two sorted sequences gives a sorted one |
| MergeSortSpec.MergeStable | fallout-emu/FEArray.c:204-251 | of equal elements those of the left half come first |
| FEArrays.FEArray.Append | fallout-emu/FEArray.c:59-85 | the element is added at the end, growing the buffer if it is full |
| FEArrays.FEArray.RemoveIndex | fallout-emu/FEArray.c:121-146 | exactly the element at the index is removed; out of range nothing changes |
| FEArrays.FEArray.MergeSort | fallout-emu/FEArray.c:168-170 | the elements become their merge sort, also when the array is empty and the last index is -1 |
| FEArrays.FEArray.SortRange | fallout-emu/FEArray.c:257-268 | the range is sorted in place and nothing outside it is written |
| FEArrays.FEArray.MergeRange | fallout-emu/FEArray.c:179-255 | two adjacent ranges become their merge and nothing outside them is written |
| FEArrays.FEArray.MergeInto | fallout-emu/FEArray.c:204-251 | the loop over both temporary arrays writes back their merge |
| AddressSpace.FirstFitIsLowest | fallout-emu/FEMemoryMap.c:103-152 | the allocator succeeds if and only if some page-aligned address from 4096 on has room before the end of the map and meets no block, and returns the lowest such address |
| AddressSpace.StepKeepsOk | fallout-emu/FEMemoryMap.c:78-168 | mapping, allocating and freeing keep all extents on pages, in bounds and apart |
| AddressSpace.RunKeepsOk | fallout-emu/FEMemoryMap.c:78-168 | the same over every run, in which no extent ever disappears |
| AddressSpace.NeverHandedOutAgain | fallout-emu/FEMemoryMap.c:82-168 | two ranges handed out in one run never overlap, even if the first was freed in between |
| FirstFitWalk.FitsBefore | fallout-emu/FEMemoryMap.c:105-113 | if the gap before the first block fits, it is the first fit |
| FirstFitWalk.NoneBeforeFirst | fallout-emu/FEMemoryMap.c:105-113 | if it does not, no page up to the end of the first block fits |
| FirstFitWalk.FitsBetween | fallout-emu/FEMemoryMap.c:114-126 | if nothing fits up to a block and the gap after it fits, that gap is the first fit |
| FirstFitWalk.NoneBetween | fallout-emu/FEMemoryMap.c:114-126 | if the gap does not fit, no page up to the end of the next block fits |
| FirstFitWalk.FitsInEmpty | fallout-emu/FEMemoryMap.c:129-139 | in an empty map the first page is handed out exactly if the size fits after it |
| FirstFitWalk.FitsAfter | fallout-emu/FEMemoryMap.c:141-152 | after the last block the first page past it is the first fit, or there is none |
| FirstFitWalk.WalkEnds | fallout-emu/FEMemoryMap.c:114-152 | what the test of a gap decides: the page after the block is the first fit unless a sum wraps, and past the last block a failed test means that nothing fits |
| FirstFitWalk.TestFails | fallout-emu/FEMemoryMap.c:116-119 | a gap between blocks that fails the 32-bit test does not fit, and no sum wraps into it |
| FirstFitWalk.WrappedIsWrong | fallout-emu/FEMemoryMap.c:116-119 | an address found by a wrapped sum is never the first fit |
| AddressSpace.SmallSumsDoNotWrap | fallout-emu/FEMemoryMap.c:116-144 | no sum wraps while size, map size and a page stay below 2^32 |
| FirstFitWalk.EmptyWalk | fallout-emu/FEMemoryMap.c:129-139 | the test of an empty map finds the first fit unless the map is so small that its room after the first page wraps |
| FirstFitWalk.WrappedSumFitsAnywhere | fallout-emu/FEMemoryMap.c:106-119 | for blocks on pages 1 and 3 of a map of 1 GB the list is good, the walk comes to the gap between them with a sum that wraps into it, and nothing fits |
| FirstFitWalk.NewBlockFits | fallout-emu/FEMemoryMap.c:119-151 | a block made where the search ends is in bounds and apart from all listed blocks |
| FEMemoryMapBlocks.SortedByAddress | fallout-emu/FEMemoryMapBlock.c:51-62 | sorting with the comparison of blocks gives the same blocks in address order |
| FEMemoryMapBlocks.SortedListOk | fallout-emu/FEMemoryMap.c:311-312 | appending a block apart from the others and sorting keeps the list strictly sorted and without overlap |
| FEMemoryMapBlocks.SlotsFree | fallout-emu/FEMemoryMap.c:304-306 | the assertion that a slot is free never fails |
| FEMemoryMapBlocks.AppendedShadow | fallout-emu/FEMemoryMap.c:300-312 | entering a block on its pages keeps list and page table in agreement |
| FEMemoryMapBlocks.AppendedMem | fallout-emu/FEMemoryMap.c:292-317 | a new block adds its bytes to guest memory and changes no other |
| FEMemoryMapBlocks.OwnerIs | fallout-emu/FEMemoryMapBlock.c:47-49 | the linear search finds the only listed block that contains an address |
| FEMemoryMaps.FEMemoryMap.constructor | fallout-emu/FEMemoryMap.c:24-64 | a new map is empty, with one free slot per page |
| FEMemoryMaps.FEMemoryMap.EnterInShadow | fallout-emu/FEMemoryMap.c:300-309 | exactly the slots of the pages of the block name it afterwards |
| FEMemoryMaps.FEMemoryMap.EnterInList | fallout-emu/FEMemoryMap.c:311-312 | the list is the old one and the block, strictly sorted |
| FEMemoryMaps.FEMemoryMap.AppendMemoryBlock | fallout-emu/FEMemoryMap.c:292-317 | list, page table and memory gain the block and nothing else changes |
| FEMemoryMaps.FEMemoryMap.Map | fallout-emu/FEMemoryMap.c:78-80 | mapping is the step of the address space and adds the bytes of the block to memory; a block without a buffer, like the zero page, adds none |
| FEMemoryMaps.FEMemoryMap.FindAddress | fallout-emu/FEMemoryMap.c:103-152 | the walk over the gaps between blocks returns what a search page by page returns if and only if 32-bit arithmetic does not mislead it, for every map, list and size |
| FEMemoryMaps.FEMemoryMap.MapNewBlock | fallout-emu/FEMemoryMap.c:86-151 | a new block with a buffer of its own is made at the address found, listed and entered |
| FEMemoryMaps.FEMemoryMap.Malloc | fallout-emu/FEMemoryMap.c:82-160 | exactly first-fit; on success a new block on its pages, on failure 0 and no change |
| FEMemoryMaps.FEMemoryMap.Free | fallout-emu/FEMemoryMap.c:163-168 | one slot is cleared; list and memory stay |
| FEMemoryMaps.FEMemoryMap.TranslationIsSearch | fallout-emu/FEMemoryMap.c:335-364 | the slot names the block the linear search finds and the translated offset lies in its buffer |
| FEMemoryMaps.FEMemoryMap.SearchIsTranslation | fallout-emu/FEMemoryMap.c:335-364 | an address in a listed block whose page was not freed is translated, by that block, and can be accessed exactly if the block has a buffer |
| FEMemoryMaps.FEMemoryMap.InBlockIsSameOwner | fallout-emu/FEMemoryMap.c:335-364 | an access all of whose addresses are in memory stays in the buffer of the translated block exactly if its last address is in the same block as its first |
| FEMemoryMaps.FEMemoryMap.LoadBytes | fallout-emu/FEMemoryMap.c:185-213 | a load through the translation, within one block, reads flat memory |
| FEMemoryMaps.FEMemoryMap.StoreBytes | fallout-emu/FEMemoryMap.c:215-234 | a store through the translation, within one block, is a store to flat memory: no other byte of any block changes |
| FEMemoryMaps.FEMemoryMap.StoreInBlock | fallout-emu/FEStack.c:57-58 | a store through a pointer into the buffer of a block is the same store to flat memory |
| FEMemoryMaps.FEMemoryMap.LoadFromBlock | fallout-emu/FEStack.c:67 | a load through such a pointer reads flat memory |
| FEMemoryMaps.FEMemoryMap.Value32AtAddress | fallout-emu/FEMemoryMap.c:185-193 | the value of the four bytes in memory, low byte first |
| FEMemoryMaps.FEMemoryMap.Value16AtAddress | fallout-emu/FEMemoryMap.c:195-203 | the value of the two bytes in memory |
| FEMemoryMaps.FEMemoryMap.Value8AtAddress | fallout-emu/FEMemoryMap.c:205-213 | the byte in memory |
| FEMemoryMaps.FEMemoryMap.SetValue32 | fallout-emu/FEMemoryMap.c:215-220 | four bytes of memory become those of the value, all others stay |
| FEMemoryMaps.FEMemoryMap.SetValue16 | fallout-emu/FEMemoryMap.c:222-227 | the same for two bytes |
| FEMemoryMaps.FEMemoryMap.SetValue8 | fallout-emu/FEMemoryMap.c:229-234 | the same for one byte |
| FEMemoryMaps.FEMemoryMap.MemcpyToVirtualFromReal | fallout-emu/FEMemoryMap.c:236-239 | memory holds the host bytes, all other bytes stay |
| FEMemoryMaps.FEMemoryMap.MemcpyToRealFromVirtual | fallout-emu/FEMemoryMap.c:241-244 | the host buffer starts with the bytes of memory, the rest of it stays |
| FEMemoryMaps.FEMemoryMap.MemcpyToVirtualFromVirtual | fallout-emu/FEMemoryMap.c:246-250 | one range of memory becomes a copy of another |
| FEMemoryMaps.FEMemoryMap.StrncpyFromRealToVirtual | fallout-emu/FEMemoryMap.c:252-256 | the string in memory is the source cut to its size, and no byte past the terminator changes |
| FEMemoryMaps.FEMemoryMap.StrcpyFromVirtualToAllocatedReal | fallout-emu/FEMemoryMap.c:258-274 | the new buffer holds the string in memory and its terminator |
| FEMemoryMaps.CopyInAndOut | fallout-emu/FEMemoryMap.c:252-274 | a string copied in and out again is the source cut to `size - 1` bytes |
| FEMemoryMaps.CopyKeepsToLength | fallout-emu/FEMemoryMap.c:253 | a copy keeps to its size if and only if the size is not 0; with 0 the whole string is copied |
| FlatMemory.LoadOfStore | fallout-emu/FEMemoryMap.c:185-234 | a value stored at any width is loaded back at that width |
| FlatMemory.LoadOverlapping | fallout-emu/FEMemoryMap.c:185-234 | a load of any width and overlap sees stored bytes where it meets the store and old bytes elsewhere |
| FlatMemory.ByteOfWord | fallout-emu/FEMemoryMap.c:205-220 | byte k of a stored 32-bit value is bits 8k to 8k + 7 |
| FlatMemory.StoresCommute | fallout-emu/FEMemoryMap.c:215-234 | stores to ranges that do not meet commute |
| FlatMemory.StringOfStore | fallout-emu/FEMemoryMap.c:252-256 | a string stored with its terminator is read back |
| StackSpec.PushedBytesAre | fallout-emu/FEStack.c:94-111 | a push stores the four bytes of the value, its two low bytes, or its low byte and three copies of the sign of that byte, lowest address first |
| StackSpec.BytePushedIsSignExtended | fallout-emu/FEStack.c:102-106 | an 8-bit push appears as the sign-extended 32-bit word |
| StackSpec.MixedRunIsLifo | fallout-emu/FEStack.c:52-125 | any mixed run whose pops match the pushed widths returns what a stack of values returns, to which a push adds the value, its low half or its sign-extended low byte, and keeps the bytes below |
| StackSpec.PopReturnsPushed | fallout-emu/FEStack.c:52-125 | after any balanced run a push of 32 bits is popped as the value, one of 16 bits as the value modulo 2^16, one of 8 bits as its sign-extended low byte, and the stack is as before |
| StackSpec.HalvesOfWord | fallout-emu/FEStack.c:52-92 | two 16-bit pops take a 32-bit push apart, low half first |
| StackSpec.DepthStaysEven | fallout-emu/FEStack.c:52-125 | the depth stays even over every run |
| StackSpec.GuardKeepsPopInside | fallout-emu/FEStack.c:63-92 | after any run the check of a pop keeps it inside the stack unless it is a 32-bit pop with two bytes left |
| StackSpec.GuardMissesHalfWord | fallout-emu/FEStack.c:63-66 | that case is reached by one 16-bit push |
| FEThreads.FEStack.constructor | fallout-emu/FEStack.c:20-40 | the stack is a new block at the first fit, empty, with ESP at its base |
| FEThreads.FEStack.Push32 | fallout-emu/FEStack.c:52-61 | for every ESP that passes the assertions the four bytes precede the old contents, ESP moves to them, no other byte or register changes |
| FEThreads.FEStack.Push16 | fallout-emu/FEStack.c:76-83 | for every ESP that passes the assertion the two bytes go through the memory map to the address below it, wherever that is; in the stack, they precede the old contents |
| FEThreads.FEStack.Pop32 | fallout-emu/FEStack.c:63-74 | the first four bytes are returned and removed, memory stays |
| FEThreads.FEStack.Pop16 | fallout-emu/FEStack.c:85-92 | the same for two bytes |
| FEThreads.FEStack.Push | fallout-emu/FEStack.c:94-111 | a push of any width stores the bytes of the value, an 8-bit one extended by its sign, below ESP |
| FEThreads.FEStack.Pop | fallout-emu/FEStack.c:113-125 | a pop of 16 or 32 bits is the step of the byte string and returns its output |
| FEThreads.FEStack.Push32AssertIsRoom | fallout-emu/FEStack.c:53-55 | for every ESP the assertions of a 32-bit push hold exactly if its bytes fit in the stack above its lowest byte |
| FEThreads.FEStack.Push16AssertIsNotRoom | fallout-emu/FEStack.c:77-79 | for every ESP when the assertion of a 16-bit push holds, when it does with the bytes in the stack, and exactly when the first implies the second |
| FEThreads.FEStack.PopAssertIsNotRoom | fallout-emu/FEStack.c:63-92 | for every ESP when the assertion of a pop implies that it reads inside the stack |
| FEThreads.FEStack.AssertsAreRoom | fallout-emu/FEStack.c:53-79 | with ESP in a stack of which no page was freed, a push is possible exactly if its bytes fit above the lowest byte |
| FEThreads.FEStack.Translated | fallout-emu/FEStack.c:76-80 | for every address of the stack whose page was not freed the memory map finds the block that is used directly |
| FEThreads.TibFields | fallout-emu/FEThreadContext.c:84-93 | the five stores put each field in its place and touch only the TIB |
| FEThreads.FillTib | fallout-emu/FEThreadContext.c:84-93 | the stores through the memory map leave a filled TIB and all else unchanged |
| FEThreads.MakeTib | fallout-emu/FEThreadContext.c:74-93 | the TIB is a new block at the first fit holding the ends of the stack |
| FEThreads.FEThreadContext.Create | fallout-emu/FEThreadContext.c:21-96 | a stack of 8192 bytes and a TIB of 3072 lie where the allocator puts them one after the other, the stack is empty, the flags are clear, and the rest of memory stays |
| FEThreads.FEThreadContext.SetRegister | fallout-emu/FEThreadContext.c:107-163 | after a write through a view a read of it returns the value cut to its width, and a read of any view that shares no byte with it returns what it did before |
| FEThreads.FEThreadContext.SetRegisters | fallout-emu/FEThreadContext.c:107-163 | after any run of writes a read returns what the last write to that view put there if later ones were elsewhere, and what it did before if all were |
| FEThreads.FEThreadContext.RegisterParts | fallout-emu/FEThreadContext.c:37-163 | a read of a half or byte view returns that part of its register, and the stack pointer is what a read of ESP returns |
| FEThreads.FEThreadContext.Imul32 | fallout-emu/FEThreadContext.c:392-428 | the exact signed product; CF and OF set if and only if it does not fit the operand, SF is the top bit of its truncation, PF whether an even number of its eight low bits is set |
| FEThreads.FEThreadContext.Mul32 | fallout-emu/FEThreadContext.c:431-479 | the exact unsigned product, with the flags likewise |
| FEThreads.HighHalf | fallout-emu/FEThreadContext.c:446-466 | the upper half is not zero exactly if the product does not fit, and the top bit is the sign of the lower half |
| RegisterFile.LastWriteWins | fallout-emu/FEThreadContext.c:37-163 | after any run of writes through any views each byte is the one the last write touching it put there |
| RegisterFile.ReadAfterWrite | fallout-emu/FEThreadContext.c:107-163 | a view is read back as written, cut to its width |
| RegisterFile.ReadElsewhere | fallout-emu/FEThreadContext.c:37-163 | views that share no byte do not affect each other |
| RegisterFile.DifferentRegisters | fallout-emu/FEThreadContext.c:37-48 | views of different registers share no byte |
| RegisterFile.OtherRegistersKept | fallout-emu/FEThreadContext.c:37-163 | a write to one of the nine 32-bit and six segment registers, or to a part of it, changes no other register and no part of one |
| RegisterFile.ReadHalf | fallout-emu/FEThreadContext.c:37-163 | AX, BX, CX, DX, SI, DI, BP, SP and IP read their registers modulo 2^16 |
| RegisterFile.ReadAfterWrites | fallout-emu/FEThreadContext.c:107-163 | after any run of writes a view reads as its last write left it, or as before |
| RegisterFile.ReadParts | fallout-emu/FEThreadContext.c:37-163 | AX, AL and AH read the low half and its two bytes, and likewise for B, C and D |
| RegisterFile.WriteLow | fallout-emu/FEThreadContext.c:37-163 | a write to AL changes bits 0 to 7 of EAX only |
| RegisterFile.WriteHigh | fallout-emu/FEThreadContext.c:37-163 | a write to AH changes bits 8 to 15 of EAX only |
| RegisterFile.WriteHalf | fallout-emu/FEThreadContext.c:37-163 | a write to AX changes bits 0 to 15 of EAX only |
| CpuArithmetic.ConversionKeepsBits | fallout-emu/FEThreadContext.c:400-417 | conversion to an operand type changes an integer by a multiple of 2 to the number of bits of the operand |
| CpuArithmetic.SignIsTopBit | fallout-emu/FEThreadContext.c:404-466 | the converted value is negative exactly if the top bit of the operand is set |
| CpuArithmetic.ParityCountsBits | fallout-emu/FECPUFlags.c:31-34 | the parity flag says that the number of set bits of the byte is even |
| CpuArithmetic.TruncationExact | fallout-emu/FEThreadContext.c:400-417 | a value equals its truncation exactly if it fits the operand |
| CpuArithmetic.ProductsAgree | fallout-emu/FEThreadContext.c:392-479 | signed and unsigned products agree modulo the operand width, with the sign extension of cutils.c |
| CpuArithmetic.IdivLaw | fallout-emu/FEThreadContext.c:481-524 | the result is the unique truncating quotient and remainder; it faults exactly for a zero divisor or a quotient that does not fit |
| CpuArithmetic.DivLaw | fallout-emu/FEThreadContext.c:526-568 | the same for unsigned division |
| CpuArithmetic.DivUndoesMul | fallout-emu/FEThreadContext.c:431-568 | dividing a product by a non-zero factor gives the other one, remainder 0, without fault |
| CpuArithmetic.IdivUndoesImul | fallout-emu/FEThreadContext.c:392-524 | the same for the signed operations |
| FEFPUs.FEFPU.Fninit | fallout-emu/FEFPU.c:43-62 | the control, status and tag words are reset, the top to 0 |
| FEFPUs.TopBitsIsTop | fallout-emu/FEFPU.c:27-29 | shift and mask read bits 11 to 13 of the status word |
| FEFPUs.WithTopBitsSetsTop | fallout-emu/FEFPU.c:73-74 | the masks replace bits 11 to 13 and leave all other bits |
| FEFPUs.WithTagBits | fallout-emu/FEFPU.c:92-95 | setting a tag replaces its two bits of the tag word and leaves all others |
| FEFPUs.FEFPU.TopOfStack | fallout-emu/FEFPU.c:27-29 | the top of the ring |
| FEFPUs.FEFPU.DecrementTop | fallout-emu/FEFPU.c:64-75 | ST(i) becomes ST(i + 1), other status bits stay |
| FEFPUs.FEFPU.IncrementTop | fallout-emu/FEFPU.c:77-86 | ST(i) becomes ST(i - 1), other status bits stay |
| FEFPUs.FEFPU.Register | fallout-emu/FEFPU.c:97-104 | ST(i) is element i of the ring |
| FEFPUs.FEFPU.SetRegister | fallout-emu/FEFPU.c:106-114 | only element i of the ring is replaced |
| FEFPUs.TurnsCancel | fallout-emu/FEFPU.c:64-86 | decrement and increment undo each other |
| FEFPUs.RingIsStack | fallout-emu/FEFPU.c:64-114 | a run that pops no more than it pushes reads what an unbounded stack returns if every pop finds a value still held, and for distinct values only then |
| FEFPUs.Perform | fallout-emu/FEFPU.c:64-114 | a push (decrement, set ST(0)) and a pop (read ST(0), increment) on the registers are the steps of the ring |
| FEFPUs.PushAndPop | fallout-emu/FEFPU.c:64-114 | the same of the values a run performed on the registers returns, from any state |
| FEFPUs.NinthPushReplacesOldest | fallout-emu/FEFPU.c:77-86 | of distinct values pushed in a row, m pops return the last m exactly if m is at most 8 |
| GuestRuns.PushIsInside | fallout-emu/FEStack.c:52-83 | a push that passes its assertions stays inside its own stack, if it is one of 16 bits exactly if ESP is at least 2 and not above the base |
| GuestRuns.OutsidePushEscapes | fallout-emu/FEStack.c:76-83 | a push outside is one of 16 bits and writes the upper byte of its value to memory outside the stack |
| GuestRuns.StepKeepsBacked | fallout-emu/FEMemoryMap.c:78-168 | at every step memory holds exactly the addresses of the blocks with buffers |
| GuestRuns.StepTouches | fallout-emu/FEStack.c:52-92 | a step without a push outside changes no TIB and, of the stacks, only bytes below the stack pointer of the thread that pushes |
| GuestRuns.StepKeepsPlaced | fallout-emu/FEThreadContext.c:64-93 | every step, whatever ESP is, keeps stacks and TIBs apart and in memory |
| GuestRuns.RunKeepsPlaced | fallout-emu/FEThreadContext.c:64-93 | the same over every run |
| GuestRuns.StepKeepsInv | fallout-emu/FEThreadContext.c:64-93 | a step without a push outside keeps the contents of every TIB right |
| GuestRuns.RunKeepsInv | fallout-emu/FEThreadContext.c:64-93 | the same over every run without a push outside |
| GuestRuns.ThreadIsolation | fallout-emu/FEStack.c:52-125 | in a run without a push outside a thread that does not operate on its stack keeps every byte of its stack and TIB |
| GuestRuns.TibIsolation | fallout-emu/FEThreadContext.c:74-93 | no run without a push outside changes a byte of any TIB |
| GuestRuns.IsolatedOnceCreated | fallout-emu/FEThreadContext.c:64-93 | both hold from any moment of a run that starts in any good state |
| GuestRuns.StepOfOwnStack | fallout-emu/FEStack.c:52-125 | a step is a step of the stack of the thread that takes it and of no other |
| GuestRuns.EachThreadHasItsOwnStack | fallout-emu/FEStack.c:52-125 | in every interleaving without a push outside the stack of a thread that does not write ESP goes through its own pushes and pops and returns the same values as alone |
| GuestExecution.MapAloneIsGood | fallout-emu/FEProcess.m:131-157 | every memory map without threads, whatever is mapped in it, is a good state to start from |
| GuestExecution.ReachIsInBlock | fallout-emu/FEMemoryMap.c:335-364 | an access through the page table is possible exactly if its bytes lie in one listed block with a buffer and the page was not freed |
| GuestExecution.PerformSetEsp | fallout-emu/FEProcess.m:1436-1438 | a write of any value to the ESP of one of several threads is a step of the guest |
| GuestExecution.PerformMap | fallout-emu/FEMemoryMap.c:78-80 | so is the mapping of a block, with a buffer or without, while threads exist |
| GuestExecution.PerformCreate | fallout-emu/FEThreadContext.c:21-96 | creating a thread beside others is a step of the guest |
| GuestExecution.PerformPush | fallout-emu/FEStack.c:94-111 | a push of one of several threads is a step of the guest |
| GuestExecution.PerformPop | fallout-emu/FEStack.c:113-125 | so is a pop, which returns what lies at the stack pointer |
| GuestExecution.PerformMalloc | fallout-emu/FEMemoryMap.c:82-160 | so is an allocation |
| GuestExecution.PerformFree | fallout-emu/FEMemoryMap.c:163-168 | so is a free |
| GuestExecution.Execute | fallout-emu/FEStack.c:20-125 | every run the guest can make is performed by the classes, state by state |
| GuestExecution.ExecuteOnMap | fallout-emu/FEProcess.m:131-157 | the same on any memory map without threads; at the end all stacks and TIBs lie apart, and without a push outside the TIBs hold what they should |
| GuestExecution.ExecuteFromStart | fallout-emu/FEThreadContext.c:21-96 | the same from a new memory map on |
| GuestExecution.FirstThreadPlaces | fallout-emu/FEThreadContext.c:64-74 | in an empty map of 1 GB the first thread has its stack at 0x1000 and its TIB at 0x3000, and the next allocation goes to 0x4000 |
| GuestExecution.AccessAcrossBlocks | fallout-emu/FEThreadContext.c:64-74 | stack and TIB of the first thread touch: accesses at the end of the stack run over addresses that are all in memory but not in one buffer |
| GuestExecution.PushOverwritesTib | fallout-emu/FEStack.c:76-83 | with ESP six bytes above the base a 16-bit push passes its assertion and overwrites the stack base in the TIB |

## Left out

- Md5.Md5State.Append: requires `offset + nbytes` to fit an int and data that is not the state's own buffer.
- FEArrays.FEArray.MergeSort: requires fewer than 2^31 elements, because the source passes the last index as an int; the comparison is a pure function.
- FEArrays.FEArray.Append: sizes are unbounded, so a capacity that wraps at 2^32 is not modelled; nor are the byte size of an element, a failed host allocation and the return value that reports it.
- FEArrays.FEArray.RemoveIndex: the cleanup callback on the removed element is not modelled.
- FEMemoryMaps.FEMemoryMap.Map: takes for granted what the source does of a mapped block: page-aligned, not empty, `end` right, pages apart from every listed block, and no host buffer or one no other block uses. Sections of an executable that lie in one mapped file are therefore modelled with buffers of their own.
- FEMemoryMaps.FEMemoryMap.LoadBytes: requires that the range lies in one block with a buffer; past the end of the host buffer the source has no defined behaviour (see above).
- FEMemoryMaps.FEMemoryMap.StoreBytes: requires the same.
- FEMemoryMaps.FEMemoryMap.Value32AtAddress: requires the same of four bytes.
- FEMemoryMaps.FEMemoryMap.Value16AtAddress: requires the same of two bytes.
- FEMemoryMaps.FEMemoryMap.SetValue32: requires the same of four bytes.
- FEMemoryMaps.FEMemoryMap.SetValue16: requires the same of two bytes.
- FEMemoryMaps.FEMemoryMap.MemcpyToVirtualFromReal: requires the same of the guest range.
- FEMemoryMaps.FEMemoryMap.MemcpyToRealFromVirtual: requires the same of the guest range.
- FEMemoryMaps.FEMemoryMap.MemcpyToVirtualFromVirtual: requires the same of both ranges, and that they do not overlap, which memcpy leaves undefined.
- FEMemoryMaps.FEMemoryMap.StrncpyFromRealToVirtual: requires the same of the string and its terminator.
- FEMemoryMaps.FEMemoryMap.Malloc: requires a positive size, a map of at least one page and that no sum wraps into a gap the walk meets, since it would then list overlapping blocks; host allocation failure and the cleanup path with its assertion are left out, so a failed allocation just returns 0.
- FEMemoryMaps.FEMemoryMap.StrcpyFromVirtualToAllocatedReal: requires a terminator within 4095 bytes in the same block, as the assertion does; strings that run over block boundaries are not modelled.
- FEThreads.FEStack.Push16: requires, besides its assertion, that both bytes lie in one block with a buffer. If the first address has none the source writes through a null or undefined pointer; if the second is past the end of the block, as with ESP one above the base, it writes past the host buffer.
- FEThreads.FEStack.Push: requires the same of a 16-bit push.
- FEThreads.FEStack.Pop32: requires that the four bytes lie in the stack; its assertion is weaker (see above), and outside the source reads past the host buffer.
- FEThreads.FEStack.Pop16: requires that the two bytes lie in the stack, likewise.
- FEThreads.FEStack.Pop: requires the same.
- FEThreads.FEThreadContext.Create: requires that the stack and the TIB find room, since a failed allocation runs into an assertion. The requested stack size is ignored, as in the source.
- CpuArithmetic.IdivLaw: leaves out the quotient of the least 64-bit number by -1, which is undefined in C; faults are values, where the source has assertions.
- GuestRuns.ThreadIsolation: stores by guest instructions to arbitrary addresses are not steps; pushes are, and one outside its stack is excluded, since it does write elsewhere.
- GuestRuns.EachThreadHasItsOwnStack: excludes writes to the ESP of the thread in question, which make other bytes its contents.
- Failing assertions stop the program, so they appear as preconditions, and what a build without assertions would do is left out.
- The address, size, end and buffer of a block are constants of its object: the source sets them before it maps the block and not afterwards.
- `blockFromVirtualAddress` has its body commented out in the source; it is modelled as that body.
- Access rights and their callback: the loop that sets them stops before the last page and nothing checks them.
- Block tags and the search by tag; printing; `isMemoryMapBlockAvailable`, whose only call is commented out.
- Release functions: `fe_stack_release` frees the page after the stack, not the stack.
- `fe_array_insert`: it does not grow the size and computes a wrong byte count, so no insertion law holds; swap and index search add only easy members.
- ALU operations in inline assembly: their meaning is that of the host CPU; flag packing and the LDT add only finite checks.
- x87 tags beyond what each method writes, instruction and operand pointers, and floating-point values, which are an opaque type.
- The `fpu` field of a thread; the bytes of a new host buffer, which are arbitrary.
- The host is taken to be little-endian, as x86 is; `md5.c` is modelled in its portable branch.
- The constants of the sine table of MD5 are taken from the source and not derived from the sine.
- The DLL, DirectX, process and user-interface code, the tcc compiler itself and the command-line tools.
