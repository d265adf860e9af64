/** Mapping a loaded program and its stack into an address space
    (process_map_elf, process_map_binary and process_map_memory of `src/task/process.c`). */
module AddressSpace {
  import opened Words
  import opened HeapTable
  import opened Heap
  import opened Ram
  import opened KernelHeap
  import opened PageLists
  import opened Paging
  import opened PageMaps
  import opened PageLife
  import opened Elf
  import opened Processor

  const PROGRAM_ADDRESS: Word := 0x40_0000
  const STACK_SIZE: Word := 16384
  const STACK_END: Word := 0x3f_b000

  /** PAGING_IS_PRESENT | PAGING_ACCESS_FROM_ALL: the flags of a task's fresh address space. */
  const USER_READ: Flags := 5
  const USER_WRITE: Flags := 7

  /** What was loaded for a process: an ELF image with its program headers, or a flat binary. */
  datatype Program =
    | ElfProgram(memory: Word, headers: seq<Phdr>)
    | BinaryProgram(ptr: Word, size: Word)

  // ---------------------------------------------------------------- the mapping calls

  /** A call for the pages around `size` bytes at `va` and, congruent to it, at `pa`. */
  function RangeCall(va: Word, pa: Word, size: Word, flags: Flags): MapOp {
    MapTo(AlignToLowerPage(va), AlignToLowerPage(pa), AlignToUpperPage(ToWord(pa + size)), flags)
  }

  function HeaderFlags(h: Phdr): Flags {
    if BitOne(h.pFlags) then USER_WRITE else USER_READ
  }

  function HeaderCall(memory: Word, h: Phdr): MapOp {
    RangeCall(h.pVaddr, PhysAddress(memory, h), h.pMemsz, HeaderFlags(h))
  }

  function HeaderCalls(memory: Word, headers: seq<Phdr>): (calls: seq<MapOp>)
    ensures |calls| == |headers|
  {
    seq(|headers|, i requires 0 <= i < |headers| => HeaderCall(memory, headers[i]))
  }

  function BinaryCall(ptr: Word, size: Word): MapOp {
    MapTo(PROGRAM_ADDRESS, ptr, AlignToUpperPage(ToWord(ptr + size)), USER_WRITE)
  }

  function StackCall(stack: Word): MapOp {
    MapTo(STACK_END, stack, AlignToUpperPage(ToWord(stack + STACK_SIZE)), USER_WRITE)
  }

  /** The calls of process_map_memory for an ELF program. */
  function ProgramCalls(memory: Word, headers: seq<Phdr>, stack: Word): (calls: seq<MapOp>)
    ensures |calls| == |headers| + 1 && calls[|headers|] == StackCall(stack)
    ensures forall i :: 0 <= i < |headers| ==> calls[i] == HeaderCall(memory, headers[i])
  {
    HeaderCalls(memory, headers) + [StackCall(stack)]
  }

  /** The call of paging_map_to for a header succeeds. */
  predicate HeaderFits(memory: Word, h: Phdr) {
    var phys := PhysAddress(memory, h);
    AlignToLowerPage(phys) <= AlignToUpperPage(ToWord(phys + h.pMemsz))
  }

  // ---------------------------------------------------------------- runs of range calls

  function FirstPage(call: MapOp): nat
    requires call.MapTo?
  {
    call.virt / PAGE_SIZE
  }

  function PageCount(call: MapOp): int
    requires call.MapTo?
  {
    MapToPages(call.virt, call.phys, call.end)
  }

  /** A successful call whose virtual range does not run over the end of the address space. */
  predicate Straight(call: MapOp) {
    && call.MapTo? && PageCount(call) >= 0
    && FirstPage(call) + PageCount(call) <= PAGES
  }

  predicate Touches(call: MapOp, v: nat) {
    Straight(call) && FirstPage(call) <= v < FirstPage(call) + PageCount(call)
  }

  ghost predicate AllStraight(calls: seq<MapOp>) {
    forall i :: 0 <= i < |calls| ==> Straight(calls[i])
  }

  ghost predicate PairwiseApart(calls: seq<MapOp>) {
    && AllStraight(calls)
    && (forall i, j, v: nat :: 0 <= i < j < |calls| && Touches(calls[i], v) ==> !Touches(calls[j], v))
  }

  /** The last call that touches page `v`, or -1. */
  function LastTouch(calls: seq<MapOp>, v: nat): (r: int)
    ensures -1 <= r < |calls|
    ensures r >= 0 ==> Touches(calls[r], v)
    ensures forall i :: r < i < |calls| ==> !Touches(calls[i], v)
  {
    if calls == [] then -1
    else if Touches(calls[|calls| - 1], v) then |calls| - 1
    else LastTouch(calls[..|calls| - 1], v)
  }

  /** In a range that does not run over the end, the page offset is the plain difference. */
  lemma OffsetInside(virt: Word, n: nat, v: nat)
    requires virt / PAGE_SIZE + n <= PAGES && v < PAGES
    ensures var first := virt / PAGE_SIZE;
            && (PageOffset(virt, v) < n <==> first <= v < first + n)
            && (first <= v ==> PageOffset(virt, v) == v - first)
  {
  }

  /** The entry a call gives page `v`. */
  function EntryOf(call: MapOp, v: nat): Word
    requires Touches(call, v)
  {
    Tagged(PagesAfter(call.phys, v - FirstPage(call)), call.flags)
  }

  lemma CallAt(f: PageMap, call: MapOp, v: nat)
    requires Straight(call) && v < PAGES
    ensures FlatApply(f, call)[v] == if Touches(call, v) then EntryOf(call, v) else f[v]
  {
    FlatRangeAt(f, call.virt, call.phys, PageCount(call), call.flags, v);
    OffsetInside(call.virt, PageCount(call), v);
  }

  lemma {:induction false} RunOutside(f: PageMap, calls: seq<MapOp>, v: nat)
    requires forall i :: 0 <= i < |calls| ==> Straight(calls[i]) && !Touches(calls[i], v)
    requires v < PAGES
    ensures FlatRun(f, calls)[v] == f[v]
    decreases calls
  {
    if calls != [] {
      CallAt(f, calls[0], v);
      RunOutside(FlatApply(f, calls[0]), calls[1..], v);
    }
  }

  /** A call no later one overlaps in page `v` decides its entry. */
  lemma {:induction false} RunInside(f: PageMap, calls: seq<MapOp>, j: nat, v: nat)
    requires AllStraight(calls) && j < |calls| && v < PAGES && Touches(calls[j], v)
    requires forall i :: j < i < |calls| ==> !Touches(calls[i], v)
    ensures FlatRun(f, calls)[v] == EntryOf(calls[j], v)
    decreases calls
  {
    CallAt(f, calls[j], v);
    if j == 0 {
      RunOutside(FlatApply(f, calls[0]), calls[1..], v);
    } else {
      var rest := calls[1..];
      assert forall i :: 0 <= i < |rest| ==> rest[i] == calls[i + 1];
      RunInside(FlatApply(f, calls[0]), rest, j - 1, v);
    }
  }

  /** For any calls, overlapping or not, the last one that touches a page decides its entry. */
  lemma LastCallWins(f: PageMap, calls: seq<MapOp>, v: nat)
    requires AllStraight(calls) && v < PAGES
    ensures FlatRun(f, calls)[v]
         == if LastTouch(calls, v) < 0 then f[v] else EntryOf(calls[LastTouch(calls, v)], v)
  {
    if LastTouch(calls, v) < 0 {
      RunOutside(f, calls, v);
    } else {
      RunInside(f, calls, LastTouch(calls, v), v);
    }
  }

  lemma ApartLast(calls: seq<MapOp>, j: nat, v: nat)
    requires PairwiseApart(calls) && j < |calls| && Touches(calls[j], v)
    ensures LastTouch(calls, v) == j
  {
  }

  // ---------------------------------------------------------------- the address space of a program

  /** Each header is page-congruent and stays inside the address space. */
  predicate HeaderPlaced(memory: Word, h: Phdr) {
    && (h.pVaddr - h.pOffset) % PAGE_SIZE == 0
    && h.pVaddr + h.pMemsz <= WORD_LIMIT
    && PhysAddress(memory, h) + h.pMemsz <= 0xffff_f000
  }

  ghost predicate HeadersPlaced(memory: Word, headers: seq<Phdr>, stack: Word) {
    && Aligned(memory) && Aligned(stack) && stack + STACK_SIZE <= 0xffff_f000
    && (forall i :: 0 <= i < |headers| ==> HeaderPlaced(memory, headers[i]))
  }

  /** Moreover, the pages of the headers and of the stack do not overlap. */
  ghost predicate ProgramPlaced(memory: Word, headers: seq<Phdr>, stack: Word) {
    HeadersPlaced(memory, headers, stack) && PairwiseApart(ProgramCalls(memory, headers, stack))
  }

  lemma SumMod(a: int, b: int)
    requires a % PAGE_SIZE == 0
    ensures (a + b) % PAGE_SIZE == b % PAGE_SIZE
  {
  }

  lemma WordMod(a: int)
    ensures ToWord(a) % PAGE_SIZE == a % PAGE_SIZE
  {
  }

  lemma HeaderCongruent(memory: Word, h: Phdr)
    requires Aligned(memory) && HeaderPlaced(memory, h)
    ensures PhysAddress(memory, h) % PAGE_SIZE == h.pVaddr % PAGE_SIZE
  {
    WordMod(memory + h.pOffset);
    SumMod(memory, h.pOffset);
    SumMod(h.pVaddr - h.pOffset, h.pOffset);
  }

  /** The call maps the page of `va` so that `va` lands on `pa`. */
  predicate Lands(call: MapOp, va: Word, pa: Word) {
    && Touches(call, va / PAGE_SIZE) && Aligned(call.phys)
    && PagesAfter(call.phys, va / PAGE_SIZE - FirstPage(call)) + va % PAGE_SIZE == pa
  }

  predicate RangePlaced(va: Word, pa: Word, size: Word) {
    va % PAGE_SIZE == pa % PAGE_SIZE && va + size <= WORD_LIMIT && pa + size <= 0xffff_f000
  }

  /** Its page count, from the offset `r` of the range in its first page. */
  lemma RangePages(va: Word, pa: Word, size: Word, flags: Flags)
    requires RangePlaced(va, pa, size)
    ensures var call, r := RangeCall(va, pa, size, flags), va % PAGE_SIZE;
            && FirstPage(call) == va / PAGE_SIZE && call.phys == pa - r
            && PageCount(call) == (r + size + 4095) / PAGE_SIZE
            && Straight(call)
  {
    var r := va % PAGE_SIZE;
    assert ToWord(pa + size) == pa + size;
    assert AlignToUpperPage(pa + size) == (pa + size + 4095) / PAGE_SIZE * PAGE_SIZE;
    assert (pa + size + 4095) / PAGE_SIZE == pa / PAGE_SIZE + (r + size + 4095) / PAGE_SIZE;
  }

  /** Where a straight call sends an address of a page it touches. */
  lemma LandsPlain(call: MapOp, va: Word, pa: Word)
    requires Touches(call, va / PAGE_SIZE)
    requires call.phys + (va / PAGE_SIZE - FirstPage(call)) * PAGE_SIZE + va % PAGE_SIZE == pa
    ensures Lands(call, va, pa)
  {
    PagesAfterPlain(call.phys, va / PAGE_SIZE - FirstPage(call));
  }

  lemma RangeByte(va: Word, pa: Word, size: Word, flags: Flags, a: nat)
    requires RangePlaced(va, pa, size) && a < size
    ensures Lands(RangeCall(va, pa, size, flags), ToWord(va + a), ToWord(pa + a))
  {
    var r := va % PAGE_SIZE;
    RangePages(va, pa, size, flags);
    PageOfSum(va, a);
    CeilingAbove(r, a, size);
    assert ToWord(va + a) == va + a && ToWord(pa + a) == pa + a;
    LandsPlain(RangeCall(va, pa, size, flags), va + a, pa + a);
  }

  lemma CeilingAbove(r: nat, a: nat, size: nat)
    requires a < size
    ensures (r + a) / PAGE_SIZE < (r + size + 4095) / PAGE_SIZE
    ensures (r + a) / PAGE_SIZE * PAGE_SIZE + (r + a) % PAGE_SIZE == r + a
  {
  }

  lemma PagesAfterPlain(p: Word, k: nat)
    requires Aligned(p) && p + k * PAGE_SIZE < WORD_LIMIT
    ensures PagesAfter(p, k) == p + k * PAGE_SIZE
  {
  }

  lemma PageOfSum(va: nat, a: nat)
    ensures (va + a) / PAGE_SIZE == va / PAGE_SIZE + (va % PAGE_SIZE + a) / PAGE_SIZE
    ensures (va + a) % PAGE_SIZE == (va % PAGE_SIZE + a) % PAGE_SIZE
  {
  }

  lemma HeaderStraight(memory: Word, h: Phdr)
    requires Aligned(memory) && HeaderPlaced(memory, h)
    ensures Straight(HeaderCall(memory, h)) && HeaderFits(memory, h)
  {
    HeaderCongruent(memory, h);
    RangePages(h.pVaddr, PhysAddress(memory, h), h.pMemsz, HeaderFlags(h));
  }

  lemma HeaderByte(memory: Word, h: Phdr, a: nat)
    requires Aligned(memory) && HeaderPlaced(memory, h) && a < h.pMemsz
    ensures Lands(HeaderCall(memory, h), ToWord(h.pVaddr + a), ToWord(PhysAddress(memory, h) + a))
  {
    HeaderCongruent(memory, h);
    RangeByte(h.pVaddr, PhysAddress(memory, h), h.pMemsz, HeaderFlags(h), a);
  }

  lemma StackByte(stack: Word, a: nat)
    requires Aligned(stack) && stack + STACK_SIZE <= 0xffff_f000 && a < STACK_SIZE
    ensures Lands(StackCall(stack), ToWord(STACK_END + a), ToWord(stack + a))
  {
    RangeByte(STACK_END, stack, STACK_SIZE, USER_WRITE, a);
  }

  /** Virtual address `va` reaches physical address `pa`, present and open to user code, and
      writable exactly when `writable`. */
  predicate Reaches(f: PageMap, va: Word, pa: Word, writable: bool) {
    var e := f[va / PAGE_SIZE];
    Frame(e) + va % PAGE_SIZE == pa && OpenEntry(e, writable)
  }

  /** The entry paging_new_4gb gives page `v` of a task: the page itself, present and open to
      user code, but not writable. */
  predicate IdentityEntry(e: Word, v: nat) {
    e == 0x1000 * v + 5 && OpenEntry(e, false)
  }

  ghost predicate Identity(f: PageMap) {
    forall v :: 0 <= v < PAGES ==> IdentityEntry(f[v], v)
  }

  predicate ByteReached(f: PageMap, va: Word, pa: Word, writable: bool, a: nat) {
    Reaches(f, ToWord(va + a), ToWord(pa + a), writable)
  }

  /** `size` bytes from virtual address `va` on reach the bytes from physical address `pa` on. */
  ghost predicate RangeReached(f: PageMap, va: Word, pa: Word, size: Word, writable: bool) {
    forall a: nat :: a < size ==> ByteReached(f, va, pa, writable, a)
  }

  ghost predicate HeaderReached(f: PageMap, memory: Word, h: Phdr) {
    RangeReached(f, h.pVaddr, ToWord(memory + h.pOffset), h.pMemsz, And(h.pFlags, 2) != 0)
  }

  ghost predicate StackReached(f: PageMap, stack: Word) {
    RangeReached(f, 0x3f_b000, stack, 16384, true)
  }

  /** No call touches page `v`. */
  ghost predicate Unmapped(calls: seq<MapOp>, v: nat) {
    forall i :: 0 <= i < |calls| ==> !Touches(calls[i], v)
  }

  /** The page map of a loaded program: every header address, the four stack pages, and the
      untouched identity entries everywhere else. */
  ghost predicate Loaded(f: PageMap, memory: Word, headers: seq<Phdr>, stack: Word) {
    && (forall i :: 0 <= i < |headers| ==> HeaderReached(f, memory, headers[i]))
    && StackReached(f, stack)
    && (forall v: nat :: v < PAGES && Unmapped(ProgramCalls(memory, headers, stack), v) ==>
          IdentityEntry(f[v], v))
  }

  /** Two calls send a page they both touch to the same frame with the same flags. */
  predicate SameMapping(c: MapOp, d: MapOp)
    requires c.MapTo? && d.MapTo?
  {
    c.flags == d.flags && c.phys - c.virt == d.phys - d.virt
  }

  lemma EntryIs(call: MapOp, v: nat)
    requires Touches(call, v)
    ensures Frame(EntryOf(call, v)) == call.phys - call.virt + v * PAGE_SIZE
    ensures call.flags == USER_WRITE ==> OpenEntry(EntryOf(call, v), true)
    ensures call.flags == USER_READ ==> OpenEntry(EntryOf(call, v), false)
  {
    var k := v - FirstPage(call);
    assert call.phys + k * PAGE_SIZE <= call.end;
    PagesAfterPlain(call.phys, k);
    TaggedBits(PagesAfter(call.phys, k), call.flags);
  }

  /** The flags of the calls are those of user pages. */
  ghost predicate UserCalls(calls: seq<MapOp>) {
    forall i :: 0 <= i < |calls| ==> calls[i].MapTo? && (calls[i].flags == USER_READ || calls[i].flags == USER_WRITE)
  }

  /** An address one call lands on is reached in the end exactly when the last call that touches
      its page maps it the same way. */
  lemma ReachesExact(f: PageMap, calls: seq<MapOp>, j: nat, va: Word, pa: Word, writable: bool)
    requires AllStraight(calls) && UserCalls(calls) && j < |calls| && Lands(calls[j], va, pa)
    requires calls[j].flags == if writable then USER_WRITE else USER_READ
    ensures j <= LastTouch(calls, va / PAGE_SIZE)
    ensures Reaches(FlatRun(f, calls), va, pa, writable)
            <==> SameMapping(calls[LastTouch(calls, va / PAGE_SIZE)], calls[j])
  {
    var v := va / PAGE_SIZE;
    var last := LastTouch(calls, v);
    LastCallWins(f, calls, v);
    EntryIs(calls[last], v);
    EntryIs(calls[j], v);
    assert Frame(EntryOf(calls[j], v)) + va % PAGE_SIZE == pa;
  }

  lemma HeaderByteExact(f: PageMap, memory: Word, h: Phdr, calls: seq<MapOp>, i: nat, a: nat)
    requires Aligned(memory) && HeaderPlaced(memory, h) && a < h.pMemsz
    requires AllStraight(calls) && UserCalls(calls) && i < |calls| && calls[i] == HeaderCall(memory, h)
    ensures LastTouch(calls, ToWord(h.pVaddr + a) / PAGE_SIZE) >= 0
    ensures ByteReached(FlatRun(f, calls), h.pVaddr, PhysAddress(memory, h), BitOne(h.pFlags), a)
            <==> SameMapping(calls[LastTouch(calls, ToWord(h.pVaddr + a) / PAGE_SIZE)], calls[i])
  {
    HeaderByte(memory, h, a);
    ReachesExact(f, calls, i, ToWord(h.pVaddr + a), ToWord(PhysAddress(memory, h) + a), BitOne(h.pFlags));
  }

  /** For two headers the test compares their flags and the distances of memory and address. */
  lemma SameMappingOfHeaders(memory: Word, g: Phdr, h: Phdr)
    requires Aligned(memory) && HeaderPlaced(memory, g) && HeaderPlaced(memory, h)
    ensures SameMapping(HeaderCall(memory, g), HeaderCall(memory, h))
            <==> BitOne(g.pFlags) == BitOne(h.pFlags)
                 && PhysAddress(memory, g) - g.pVaddr == PhysAddress(memory, h) - h.pVaddr
  {
    HeaderCongruent(memory, g);
    HeaderCongruent(memory, h);
  }

  /** Byte `a` of header `i` is not remapped by a later header or the stack. */
  predicate ByteKept(memory: Word, headers: seq<Phdr>, stack: Word, i: nat, a: nat)
    requires i < |headers|
  {
    var calls := ProgramCalls(memory, headers, stack);
    var last := LastTouch(calls, ToWord(headers[i].pVaddr + a) / PAGE_SIZE);
    last >= 0 ==> SameMapping(calls[last], calls[i])
  }

  ghost predicate HeaderKept(memory: Word, headers: seq<Phdr>, stack: Word, i: nat)
    requires i < |headers|
  {
    forall a: nat :: a < headers[i].pMemsz ==> ByteKept(memory, headers, stack, i, a)
  }

  lemma PlacedStraight(memory: Word, headers: seq<Phdr>, stack: Word)
    requires HeadersPlaced(memory, headers, stack)
    ensures AllStraight(ProgramCalls(memory, headers, stack)) && UserCalls(ProgramCalls(memory, headers, stack))
  {
    RangePages(STACK_END, stack, STACK_SIZE, USER_WRITE);
    forall i | 0 <= i < |headers|
      ensures Straight(HeaderCall(memory, headers[i]))
    {
      HeaderStraight(memory, headers[i]);
    }
  }

  lemma HeaderReachedExact(f: PageMap, memory: Word, headers: seq<Phdr>, stack: Word, i: nat)
    requires HeadersPlaced(memory, headers, stack) && i < |headers|
    ensures HeaderReached(FlatRun(f, ProgramCalls(memory, headers, stack)), memory, headers[i])
            <==> HeaderKept(memory, headers, stack, i)
  {
    var f', h := FlatRun(f, ProgramCalls(memory, headers, stack)), headers[i];
    forall a: nat | a < h.pMemsz
      ensures ByteReached(f', h.pVaddr, PhysAddress(memory, h), BitOne(h.pFlags), a)
              <==> ByteKept(memory, headers, stack, i, a)
    {
      HeaderByteKept(f, memory, headers, stack, i, a);
    }
    AllBytes(f', memory, headers, stack, i);
  }

  lemma HeaderByteKept(f: PageMap, memory: Word, headers: seq<Phdr>, stack: Word, i: nat, a: nat)
    requires HeadersPlaced(memory, headers, stack) && i < |headers| && a < headers[i].pMemsz
    ensures var h := headers[i];
            ByteReached(FlatRun(f, ProgramCalls(memory, headers, stack)), h.pVaddr, PhysAddress(memory, h),
                        BitOne(h.pFlags), a)
            <==> ByteKept(memory, headers, stack, i, a)
  {
    PlacedStraight(memory, headers, stack);
    HeaderByteExact(f, memory, headers[i], ProgramCalls(memory, headers, stack), i, a);
  }

  lemma AllBytes(f: PageMap, memory: Word, headers: seq<Phdr>, stack: Word, i: nat)
    requires i < |headers|
    requires var h := headers[i];
             forall a: nat :: a < h.pMemsz ==>
               (ByteReached(f, h.pVaddr, PhysAddress(memory, h), BitOne(h.pFlags), a)
                <==> ByteKept(memory, headers, stack, i, a))
    ensures HeaderReached(f, memory, headers[i]) <==> HeaderKept(memory, headers, stack, i)
  {
    var h := headers[i];
    BitOneIsMask(h.pFlags);
    assert BitOne(h.pFlags) == (And(h.pFlags, 2) != 0);
    assert HeaderReached(f, memory, h)
        == RangeReached(f, h.pVaddr, PhysAddress(memory, h), h.pMemsz, BitOne(h.pFlags));
  }

  lemma StackByteReached(f: PageMap, calls: seq<MapOp>, stack: Word, a: nat)
    requires Aligned(stack) && stack + STACK_SIZE <= 0xffff_f000 && a < STACK_SIZE
    requires AllStraight(calls) && UserCalls(calls) && calls != [] && calls[|calls| - 1] == StackCall(stack)
    ensures ByteReached(FlatRun(f, calls), STACK_END, stack, true, a)
  {
    StackByte(stack, a);
    ReachesExact(f, calls, |calls| - 1, ToWord(STACK_END + a), ToWord(stack + a), true);
  }

  lemma StackIsReached(f: PageMap, calls: seq<MapOp>, stack: Word)
    requires Aligned(stack) && stack + STACK_SIZE <= 0xffff_f000
    requires AllStraight(calls) && UserCalls(calls) && calls != [] && calls[|calls| - 1] == StackCall(stack)
    ensures StackReached(FlatRun(f, calls), stack)
  {
    forall a: nat | a < STACK_SIZE
      ensures ByteReached(FlatRun(f, calls), STACK_END, stack, true, a)
    {
      StackByteReached(f, calls, stack, a);
    }
  }

  lemma UnmappedKept(f: PageMap, calls: seq<MapOp>)
    requires AllStraight(calls)
    ensures forall v: nat :: v < PAGES && Unmapped(calls, v) ==> FlatRun(f, calls)[v] == f[v]
  {
    forall v: nat | v < PAGES && Unmapped(calls, v)
      ensures FlatRun(f, calls)[v] == f[v]
    {
      RunOutside(f, calls, v);
    }
  }

  /** Running the calls of process_map_memory on the identity map loads the program exactly when
      no header is remapped differently by a later one or by the stack. */
  lemma LoadedExact(f: PageMap, memory: Word, headers: seq<Phdr>, stack: Word)
    requires Identity(f) && HeadersPlaced(memory, headers, stack)
    ensures Loaded(FlatRun(f, ProgramCalls(memory, headers, stack)), memory, headers, stack)
            <==> forall i :: 0 <= i < |headers| ==> HeaderKept(memory, headers, stack, i)
  {
    var calls := ProgramCalls(memory, headers, stack);
    PlacedStraight(memory, headers, stack);
    forall i | 0 <= i < |headers|
      ensures HeaderReached(FlatRun(f, calls), memory, headers[i]) <==> HeaderKept(memory, headers, stack, i)
    {
      HeaderReachedExact(f, memory, headers, stack, i);
    }
    StackIsReached(f, calls, stack);
    UnmappedKept(f, calls);
  }

  /** Without overlaps it always does. */
  lemma ProgramLoaded(f: PageMap, memory: Word, headers: seq<Phdr>, stack: Word)
    requires Identity(f) && ProgramPlaced(memory, headers, stack)
    ensures Loaded(FlatRun(f, ProgramCalls(memory, headers, stack)), memory, headers, stack)
  {
    forall i | 0 <= i < |headers|
      ensures HeaderKept(memory, headers, stack, i)
    {
      ApartKept(memory, headers, stack, i);
    }
    LoadedExact(f, memory, headers, stack);
  }

  lemma ApartKept(memory: Word, headers: seq<Phdr>, stack: Word, i: nat)
    requires ProgramPlaced(memory, headers, stack) && i < |headers|
    ensures HeaderKept(memory, headers, stack, i)
  {
    var calls, h := ProgramCalls(memory, headers, stack), headers[i];
    forall a: nat | a < h.pMemsz
      ensures ByteKept(memory, headers, stack, i, a)
    {
      HeaderByte(memory, h, a);
      ApartLast(calls, i, ToWord(h.pVaddr + a) / PAGE_SIZE);
    }
  }

  predicate BinaryPlaced(ptr: Word, size: Word, stack: Word) {
    && Aligned(ptr) && ptr + size <= 0xffff_f000 && PROGRAM_ADDRESS + size <= WORD_LIMIT
    && Aligned(stack) && stack + STACK_SIZE <= 0xffff_f000
  }

  lemma BinaryApart(ptr: Word, size: Word, stack: Word)
    requires BinaryPlaced(ptr, size, stack)
    ensures PairwiseApart([BinaryCall(ptr, size), StackCall(stack)])
  {
    RangePages(PROGRAM_ADDRESS, ptr, size, USER_WRITE);
    RangePages(STACK_END, stack, STACK_SIZE, USER_WRITE);
  }

  lemma BinaryByteReached(f: PageMap, calls: seq<MapOp>, ptr: Word, size: Word, stack: Word, a: nat)
    requires BinaryPlaced(ptr, size, stack) && a < size
    requires PairwiseApart(calls) && UserCalls(calls) && calls != [] && calls[0] == BinaryCall(ptr, size)
    ensures ByteReached(FlatRun(f, calls), PROGRAM_ADDRESS, ptr, true, a)
  {
    RangeByte(PROGRAM_ADDRESS, ptr, size, USER_WRITE, a);
    ApartLast(calls, 0, ToWord(PROGRAM_ADDRESS + a) / PAGE_SIZE);
    ReachesExact(f, calls, 0, ToWord(PROGRAM_ADDRESS + a), ToWord(ptr + a), true);
  }

  ghost predicate BinaryReached(f: PageMap, ptr: Word, size: Word) {
    RangeReached(f, 0x40_0000, ptr, size, true)
  }

  /** A flat binary and its stack, likewise. */
  lemma BinaryLoaded(f: PageMap, ptr: Word, size: Word, stack: Word)
    requires BinaryPlaced(ptr, size, stack)
    ensures var calls := [BinaryCall(ptr, size), StackCall(stack)];
            && BinaryReached(FlatRun(f, calls), ptr, size)
            && StackReached(FlatRun(f, calls), stack)
            && (forall v: nat :: v < PAGES && Unmapped(calls, v) ==> FlatRun(f, calls)[v] == f[v])
  {
    var calls := [BinaryCall(ptr, size), StackCall(stack)];
    BinaryApart(ptr, size, stack);
    BinaryIsReached(f, calls, ptr, size, stack);
    StackIsReached(f, calls, stack);
    UnmappedKept(f, calls);
  }

  lemma BinaryIsReached(f: PageMap, calls: seq<MapOp>, ptr: Word, size: Word, stack: Word)
    requires BinaryPlaced(ptr, size, stack)
    requires PairwiseApart(calls) && UserCalls(calls) && calls != [] && calls[0] == BinaryCall(ptr, size)
    ensures BinaryReached(FlatRun(f, calls), ptr, size)
  {
    forall a: nat | a < size
      ensures ByteReached(FlatRun(f, calls), PROGRAM_ADDRESS, ptr, true, a)
    {
      BinaryByteReached(f, calls, ptr, size, stack, a);
    }
  }

  // ---------------------------------------------------------------- the code

  lemma {:induction false} RunAppend(m: Memory, dir: Word, calls: seq<MapOp>, call: MapOp)
    requires Aligned(dir)
    ensures MemRun(m, dir, calls + [call]) == MemApply(MemRun(m, dir, calls), dir, call)
    decreases calls
  {
    if calls == [] {
      assert [] + [call] == [call];
      assert MemRun(MemApply(m, dir, call), dir, []) == MemApply(m, dir, call);
    } else {
      assert (calls + [call])[1..] == calls[1..] + [call];
      RunAppend(MemApply(m, dir, calls[0]), dir, calls[1..], call);
    }
  }

  lemma MapElfStep(live: Live, m: Memory, chunk: Word, calls: seq<MapOp>, i: nat)
    requires Space(live, m, chunk) && i < |calls|
    ensures var dir := Load(m, chunk);
            var n := MemRun(m, dir, calls[..i + 1]);
            && n == MemApply(MemRun(m, dir, calls[..i]), dir, calls[i])
            && Space(live, n, chunk) && Load(n, chunk) == dir && SpacePages(n, chunk) == SpacePages(m, chunk)
  {
    assert calls[..i] + [calls[i]] == calls[..i + 1];
    RunAppend(m, Load(m, chunk), calls[..i], calls[i]);
    RunRefines(live, m, chunk, calls[..i + 1]);
  }

  /** One round of process_map_elf. */
  method MapHeader(k: Kernel, chunk: Word, memory: Word, h: Phdr) returns (response: int)
    requires k.Intact() && Space(k.live, k.Mem(), chunk)
    modifies k.ram
    ensures response == if HeaderFits(memory, h) then 0 else INVALID_ARGUMENT
    ensures k.Mem() == MemApply(old(k.Mem()), Load(old(k.Mem()), chunk), HeaderCall(memory, h))
    ensures Space(k.live, k.Mem(), chunk) && Load(k.Mem(), chunk) == Load(old(k.Mem()), chunk)
    ensures SpacePages(k.Mem(), chunk) == SpacePages(old(k.Mem()), chunk)
  {
    var phys := PhysAddress(memory, h);
    var flags := USER_READ;
    if BitOne(h.pFlags) {
      flags := USER_WRITE;
    }
    MapElfStep(k.live, k.Mem(), chunk, [HeaderCall(memory, h)], 0);
    response := PagingMapTo(k, chunk, AlignToLowerPage(h.pVaddr), AlignToLowerPage(phys),
                            AlignToUpperPage(ToWord(phys + h.pMemsz)), flags, k.live);
  }

  /** The number of headers before the first one whose call fails. */
  function FitCount(memory: Word, headers: seq<Phdr>): (n: nat)
    ensures n <= |headers| && (n < |headers| ==> !HeaderFits(memory, headers[n]))
    ensures forall i :: 0 <= i < n ==> HeaderFits(memory, headers[i])
  {
    if headers == [] || !HeaderFits(memory, headers[0]) then 0 else 1 + FitCount(memory, headers[1..])
  }

  lemma FitCountIs(memory: Word, headers: seq<Phdr>, n: nat)
    requires n <= |headers| && (n < |headers| ==> !HeaderFits(memory, headers[n]))
    requires forall i :: 0 <= i < n ==> HeaderFits(memory, headers[i])
    ensures FitCount(memory, headers) == n
  {
  }

  lemma FailingCallKeeps(m: Memory, dir: Word, memory: Word, h: Phdr)
    requires Aligned(dir) && !HeaderFits(memory, h)
    ensures MemApply(m, dir, HeaderCall(memory, h)) == m
  {
  }

  /** process_map_elf: maps header after header and stops at the first one that fails, with
      exactly the headers before it mapped. */
  method MapElf(k: Kernel, chunk: Word, memory: Word, headers: seq<Phdr>) returns (response: int)
    requires k.Intact() && Space(k.live, k.Mem(), chunk)
    modifies k.ram
    ensures response == if FitCount(memory, headers) == |headers| then 0 else INVALID_ARGUMENT
    ensures k.Mem() == MemRun(old(k.Mem()), Load(old(k.Mem()), chunk),
                              HeaderCalls(memory, headers)[..FitCount(memory, headers)])
  {
    response := 0;
    ghost var m0: Memory := k.Mem();
    ghost var dir, calls := Load(m0, chunk), HeaderCalls(memory, headers);
    var i := 0;
    while i < |headers|
      invariant 0 <= i <= |headers| && response == 0
      invariant forall j :: 0 <= j < i ==> HeaderFits(memory, headers[j])
      invariant k.Mem() == MemRun(m0, dir, calls[..i])
      invariant Space(k.live, k.Mem(), chunk) && Load(k.Mem(), chunk) == dir
    {
      MapElfStep(k.live, m0, chunk, calls, i);
      ghost var before: Memory := k.Mem();
      response := MapHeader(k, chunk, memory, headers[i]);
      if response < 0 {
        FailingCallKeeps(before, dir, memory, headers[i]);
        break;
      }
      i := i + 1;
    }
    FitCountIs(memory, headers, i);
  }

  /** process_map_binary; the code ignores the result of the call. */
  method MapBinary(k: Kernel, chunk: Word, ptr: Word, size: Word) returns (response: int)
    requires k.Intact() && Space(k.live, k.Mem(), chunk)
    modifies k.ram
    ensures response == 0
    ensures k.Mem() == MemApply(old(k.Mem()), Load(old(k.Mem()), chunk), BinaryCall(ptr, size))
  {
    var ignored := PagingMapTo(k, chunk, PROGRAM_ADDRESS, ptr, AlignToUpperPage(ToWord(ptr + size)),
                               USER_WRITE, k.live);
    response := 0;
  }

  predicate Fits(program: Program) {
    program.ElfProgram? ==> FitCount(program.memory, program.headers) == |program.headers|
  }

  /** The calls that take effect: those for the program, and the one for the stack unless a
      header fails. */
  function Calls(program: Program, stack: Word): seq<MapOp> {
    match program
    case ElfProgram(memory, headers) =>
      if Fits(program) then ProgramCalls(memory, headers, stack)
      else HeaderCalls(memory, headers)[..FitCount(memory, headers)]
    case BinaryProgram(ptr, size) => [BinaryCall(ptr, size), StackCall(stack)]
  }

  /** process_map_memory.  It fails exactly when the end of some header wraps below its start;
      in every case the address space has been changed by the calls that take effect, and no
      other memory has. */
  method MapMemory(k: Kernel, chunk: Word, program: Program, stack: Word) returns (response: int)
    requires k.Intact() && Space(k.live, k.Mem(), chunk)
    modifies k.ram
    ensures response == if Fits(program) then 0 else INVALID_ARGUMENT
    ensures Refines(k.live, old(k.Mem()), k.Mem(), chunk,
                    FlatRun(Flat(old(k.Mem()), Load(old(k.Mem()), chunk)), Calls(program, stack)))
  {
    ghost var m: Memory := k.Mem();
    ghost var dir := Load(m, chunk);
    ghost var made := if program.BinaryProgram? then [BinaryCall(program.ptr, program.size)]
                      else HeaderCalls(program.memory, program.headers)[..FitCount(program.memory, program.headers)];
    match program {
      case ElfProgram(memory, headers) =>
        response := MapElf(k, chunk, memory, headers);
      case BinaryProgram(ptr, size) =>
        response := MapBinary(k, chunk, ptr, size);
        OneCall(m, dir, BinaryCall(ptr, size));
    }
    MapStackStep(k.live, m, chunk, made, StackCall(stack));
    if response < 0 {
      return;
    }
    assert Calls(program, stack) == made + [StackCall(stack)];
    var ignored := PagingMapTo(k, chunk, STACK_END, stack, AlignToUpperPage(ToWord(stack + STACK_SIZE)),
                               USER_WRITE, k.live);
  }

  lemma OneCall(m: Memory, dir: Word, call: MapOp)
    requires Aligned(dir)
    ensures MemRun(m, dir, [call]) == MemApply(m, dir, call)
  {
    assert MemRun(MemApply(m, dir, call), dir, []) == MemApply(m, dir, call);
  }

  lemma MapStackStep(live: Live, m: Memory, chunk: Word, calls: seq<MapOp>, last: MapOp)
    requires Space(live, m, chunk)
    ensures var dir := Load(m, chunk);
            var n := MemRun(m, dir, calls);
            && Space(live, n, chunk) && Load(n, chunk) == dir
            && Refines(live, m, n, chunk, FlatRun(Flat(m, dir), calls))
            && Refines(live, m, MemApply(n, dir, last), chunk, FlatRun(Flat(m, dir), calls + [last]))
  {
    RunRefines(live, m, chunk, calls);
    RunRefines(live, m, chunk, calls + [last]);
    RunAppend(m, Load(m, chunk), calls, last);
  }

  lemma PlacedFits(memory: Word, headers: seq<Phdr>, stack: Word)
    requires HeadersPlaced(memory, headers, stack)
    ensures Fits(ElfProgram(memory, headers))
  {
    forall i | 0 <= i < |headers|
      ensures HeaderFits(memory, headers[i])
    {
      HeaderStraight(memory, headers[i]);
    }
  }

  lemma NewSpaceIdentity(live: Live, m: Memory, live': Live, m': Memory, chunk: Word)
    requires NewSpace(live, m, live', m', chunk, USER_READ)
    ensures Identity(Flat(m', Load(m', chunk)))
  {
    var dir := Load(m', chunk);
    forall v: nat | v < PAGES
      ensures IdentityEntry(Flat(m', dir)[v], v)
    {
      assert PageEntry(m', dir, v) == Tagged(PageStart(v), USER_READ);
      IdentityIs(v);
    }
  }

  lemma IdentityIs(v: nat)
    requires v < PAGES
    ensures IdentityEntry(Tagged(PageStart(v), USER_READ), v)
  {
    TaggedBits(PageStart(v), USER_READ);
  }

  /** What was loaded can be placed, and where all of it ends up. */
  ghost predicate Placed(program: Program, stack: Word) {
    match program
    case ElfProgram(memory, headers) => HeadersPlaced(memory, headers, stack)
    case BinaryProgram(ptr, size) => BinaryPlaced(ptr, size, stack)
  }

  ghost predicate LoadedProgram(f: PageMap, program: Program, stack: Word) {
    match program
    case ElfProgram(memory, headers) => Loaded(f, memory, headers, stack)
    case BinaryProgram(ptr, size) =>
      && BinaryReached(f, ptr, size) && StackReached(f, stack)
      && (forall v: nat :: v < PAGES && Unmapped([BinaryCall(ptr, size), StackCall(stack)], v) ==>
            IdentityEntry(f[v], v))
  }

  /** No header is remapped differently by a later one or by the stack. */
  ghost predicate Kept(program: Program, stack: Word) {
    program.ElfProgram? ==>
      forall i :: 0 <= i < |program.headers| ==> HeaderKept(program.memory, program.headers, stack, i)
  }

  lemma PlacedLoaded(f: PageMap, program: Program, stack: Word)
    requires Identity(f) && Placed(program, stack)
    ensures Fits(program)
    ensures LoadedProgram(FlatRun(f, Calls(program, stack)), program, stack) <==> Kept(program, stack)
  {
    match program
    case ElfProgram(memory, headers) =>
      PlacedFits(memory, headers, stack);
      LoadedExact(f, memory, headers, stack);
    case BinaryProgram(ptr, size) =>
      BinaryLoaded(f, ptr, size, stack);
  }

  /** Changes confined to the tables of a space touch only its pages. */
  lemma ConfinedUntouched(m0: Memory, m: Memory, n: Memory, chunk: Word, pages: seq<Word>)
    requires Aligned(Load(m, chunk)) && Confined(m, n, Load(m, chunk)) && Untouched(m0, m, pages)
    requires forall p :: p in SpacePages(m, chunk) ==> p in pages
    ensures Untouched(m0, n, pages)
  {
    forall w | 0 <= w < RAM_WORDS && !InSome(pages, w)
      ensures n[w] == m0[w]
    {
      TablesInPages(m, chunk, pages, w);
    }
  }

  lemma TablesInPages(m: Memory, chunk: Word, pages: seq<Word>, w: int)
    requires Aligned(Load(m, chunk))
    requires forall p :: p in SpacePages(m, chunk) ==> p in pages
    ensures InTables(m, Load(m, chunk), w) ==> InSome(pages, w)
  {
    if InTables(m, Load(m, chunk), w) {
      var d :| 0 <= d < ENTRIES && InPage(TableAt(m, Load(m, chunk), d), w);
      assert SpacePages(m, chunk)[d + 1] in pages;
      var i :| 0 <= i < |pages| && pages[i] == SpacePages(m, chunk)[d + 1];
      assert InPage(pages[i], w);
    }
  }
}
