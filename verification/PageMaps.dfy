/** The mapping calls of `src/memory/paging/paging.c` and the flat page map they refine. */
module PageMaps {
  import opened Words
  import opened HeapTable
  import opened Heap
  import opened Ram
  import opened KernelHeap
  import opened PageLists
  import opened Paging

  /** paging_align_address: up to a page boundary, with wrap-around. */
  function AlignToUpperPage(p: Word): (r: Word)
    ensures Aligned(r)
    ensures p <= 0xffff_f000 ==> p <= r < p + PAGE_SIZE
  {
    if Aligned(p) then p else ToWord(p + PAGE_SIZE - p % PAGE_SIZE)
  }

  /** paging_align_to_lower_page. */
  function AlignToLowerPage(p: Word): (r: Word)
    ensures Aligned(r) && r <= p < r + PAGE_SIZE
  {
    p - p % PAGE_SIZE
  }

  // ---------------------------------------------------------------- effect on the flat map

  type PageMap = f: seq<Word> | |f| == PAGES ghost witness seq(PAGES, _ => 0)

  function FlatMap(f: PageMap, virt: Word, phys: Word, flags: Flags): PageMap {
    if Aligned(virt) && Aligned(phys) then f[virt / PAGE_SIZE := Tagged(phys, flags)] else f
  }

  function FlatRange(f: PageMap, virt: Word, phys: Word, pages: int, flags: Flags): PageMap
    decreases pages
  {
    if pages <= 0 then f
    else FlatRange(FlatMap(f, virt, phys, flags), ToWord(virt + PAGE_SIZE), ToWord(phys + PAGE_SIZE), pages - 1, flags)
  }

  /** The number of pages paging_map_to maps, or -EINVARG. */
  function MapToPages(virt: Word, phys: Word, end: Word): int {
    if Aligned(virt) && Aligned(phys) && Aligned(end) && phys <= end then (end - phys) / PAGE_SIZE
    else INVALID_ARGUMENT
  }

  function FlatMapTo(f: PageMap, virt: Word, phys: Word, end: Word, flags: Flags): PageMap {
    FlatRange(f, virt, phys, MapToPages(virt, phys, end), flags)
  }

  /** Page `v` counted from the page of `virt`, around the end of the address space. */
  function PageOffset(virt: Word, v: nat): (k: nat)
    ensures k < PAGES
  {
    (v - virt / PAGE_SIZE) % PAGES
  }

  /** The page-aligned address `k` pages after `p`. */
  function PagesAfter(p: Word, k: nat): (q: Word)
    requires Aligned(p)
    ensures Aligned(q)
  {
    var pageNumber := (p / PAGE_SIZE + k) % PAGES;
    pageNumber * PAGE_SIZE
  }

  lemma NextPage(p: Word)
    requires Aligned(p)
    ensures ToWord(p + PAGE_SIZE) == PagesAfter(p, 1)
  {
  }

  lemma AlignedNext(p: Word)
    ensures Aligned(ToWord(p + PAGE_SIZE)) == Aligned(p)
  {
  }

  lemma PagesAfterNext(p: Word, k: nat)
    requires Aligned(p)
    ensures PagesAfter(p, 0) == p
    ensures k > 0 ==> PagesAfter(PagesAfter(p, 1), k - 1) == PagesAfter(p, k)
  {
  }

  lemma PageOffsetNext(virt: Word, v: nat)
    requires Aligned(virt) && v < PAGES
    ensures var k := PageOffset(virt, v);
            && (k == 0 <==> v == virt / PAGE_SIZE)
            && PageOffset(PagesAfter(virt, 1), v) == if k == 0 then PAGES - 1 else k - 1
  {
  }

  /** Up to 2^20 pages, also around the end of the address space, a range maps page
      virt + k to frame phys + k for every k and changes no other page. */
  lemma {:induction false} FlatRangeAt(f: PageMap, virt: Word, phys: Word, pages: nat, flags: Flags, v: nat)
    requires Aligned(virt) && Aligned(phys) && pages <= PAGES && v < PAGES
    ensures var k := PageOffset(virt, v);
            FlatRange(f, virt, phys, pages, flags)[v]
              == if k < pages then Tagged(PagesAfter(phys, k), flags) else f[v]
    decreases pages
  {
    if pages > 0 {
      NextPage(virt);
      NextPage(phys);
      var k := PageOffset(virt, v);
      var f' := FlatMap(f, virt, phys, flags);
      var virt', phys' := PagesAfter(virt, 1), PagesAfter(phys, 1);
      FlatRangeAt(f', virt', phys', pages - 1, flags, v);
      PageOffsetNext(virt, v);
      PagesAfterNext(phys, k);
    }
  }

  /** After paging_map the addresses of the page lead to the frame, and all others where they did. */
  lemma MapTranslates(live: Live, m: Memory, chunk: Word, virt: Word, phys: Word, flags: Flags, va: Word)
    requires Space(live, m, chunk) && Aligned(virt) && Aligned(phys)
    ensures Translate(MemMap(m, Load(m, chunk), virt, phys, flags), Load(m, chunk), va)
         == if virt <= va < virt + 4096 then phys + (va - virt) else Translate(m, Load(m, chunk), va)
  {
    var dir := Load(m, chunk);
    SetEntryFlat(live, m, chunk, virt / PAGE_SIZE, Tagged(phys, flags));
    var n := MemMap(m, dir, virt, phys, flags);
    assert Translate(n, dir, va) == Frame(Flat(n, dir)[va / PAGE_SIZE]) + va % PAGE_SIZE;
    assert Translate(m, dir, va) == Frame(Flat(m, dir)[va / PAGE_SIZE]) + va % PAGE_SIZE;
  }

  lemma {:induction false} FlatRangeUnaligned(f: PageMap, virt: Word, phys: Word, pages: int, flags: Flags)
    requires !Aligned(virt) || !Aligned(phys)
    ensures FlatRange(f, virt, phys, pages, flags) == f
    decreases pages
  {
    if pages > 0 {
      FlatRangeUnaligned(f, ToWord(virt + PAGE_SIZE), ToWord(phys + PAGE_SIZE), pages - 1, flags);
    }
  }

  // ---------------------------------------------------------------- the same effect in memory

  function MemSet(m: Memory, dir: Word, virt: Word, val: Word): Memory
    requires Aligned(dir)
  {
    if Aligned(virt) then SetEntry(m, dir, virt / PAGE_SIZE, val) else m
  }

  function MemMap(m: Memory, dir: Word, virt: Word, phys: Word, flags: Flags): Memory
    requires Aligned(dir)
  {
    if Aligned(virt) && Aligned(phys) then SetEntry(m, dir, virt / PAGE_SIZE, Tagged(phys, flags)) else m
  }

  function MemRange(m: Memory, dir: Word, virt: Word, phys: Word, pages: int, flags: Flags): Memory
    requires Aligned(dir)
    decreases pages
  {
    if pages <= 0 then m
    else
      MemRange(MemMap(m, dir, virt, phys, flags), dir, ToWord(virt + PAGE_SIZE), ToWord(phys + PAGE_SIZE),
               pages - 1, flags)
  }

  lemma {:induction false} MemRangeUnaligned(m: Memory, dir: Word, virt: Word, phys: Word, pages: int, flags: Flags)
    requires Aligned(dir) && (!Aligned(virt) || !Aligned(phys))
    ensures MemRange(m, dir, virt, phys, pages, flags) == m
    decreases pages
  {
    if pages > 0 {
      MemRangeUnaligned(m, dir, ToWord(virt + PAGE_SIZE), ToWord(phys + PAGE_SIZE), pages - 1, flags);
    }
  }

  /** `n` is `m` after changes confined to the tables of the space at `chunk`, whose flat map
      has become `f`. */
  ghost predicate Refines(live: Live, m: Memory, n: Memory, chunk: Word, f: PageMap) {
    && Space(live, m, chunk) && Space(live, n, chunk)
    && Load(n, chunk) == Load(m, chunk) && SpacePages(n, chunk) == SpacePages(m, chunk)
    && Confined(m, n, Load(m, chunk))
    && Flat(n, Load(m, chunk)) == f
  }

  lemma RefinesSelf(live: Live, m: Memory, chunk: Word)
    requires Space(live, m, chunk)
    ensures Refines(live, m, m, chunk, Flat(m, Load(m, chunk)))
  {
  }

  lemma RefinesChain(live: Live, m: Memory, n: Memory, o: Memory, chunk: Word, f: PageMap, g: PageMap)
    requires Refines(live, m, n, chunk, f) && Refines(live, n, o, chunk, g)
    ensures Refines(live, m, o, chunk, g)
  {
    ConfinedChain(m, n, o, Load(m, chunk));
  }

  lemma SetRefines(live: Live, m: Memory, chunk: Word, v: nat, val: Word)
    requires Space(live, m, chunk) && v < PAGES
    ensures var dir := Load(m, chunk);
            Refines(live, m, SetEntry(m, dir, v, val), chunk, Flat(m, dir)[v := val])
  {
    SetEntryFlat(live, m, chunk, v, val);
    SpaceStays(live, m, SetEntry(m, Load(m, chunk), v, val), chunk);
  }

  lemma MapRefines(live: Live, m: Memory, chunk: Word, virt: Word, phys: Word, flags: Flags)
    requires Space(live, m, chunk)
    ensures var dir := Load(m, chunk);
            Refines(live, m, MemMap(m, dir, virt, phys, flags), chunk, FlatMap(Flat(m, dir), virt, phys, flags))
  {
    if Aligned(virt) && Aligned(phys) {
      SetRefines(live, m, chunk, virt / PAGE_SIZE, Tagged(phys, flags));
    } else {
      RefinesSelf(live, m, chunk);
    }
  }

  /** The first page of a range call: the memory after it, and both sides of the rest. */
  lemma RangeStep(live: Live, m: Memory, chunk: Word, virt: Word, phys: Word, pages: int, flags: Flags)
    requires Space(live, m, chunk) && pages > 0
    ensures var dir := Load(m, chunk);
            var n, f := MemMap(m, dir, virt, phys, flags), FlatMap(Flat(m, dir), virt, phys, flags);
            var virt', phys' := ToWord(virt + PAGE_SIZE), ToWord(phys + PAGE_SIZE);
            && Space(live, n, chunk) && Load(n, chunk) == dir && Flat(n, dir) == f
            && MemRange(m, dir, virt, phys, pages, flags) == MemRange(n, dir, virt', phys', pages - 1, flags)
            && FlatRange(Flat(m, dir), virt, phys, pages, flags) == FlatRange(f, virt', phys', pages - 1, flags)
            && (forall o, g {:trigger Refines(live, n, o, chunk, g)} ::
                  Refines(live, n, o, chunk, g) ==> Refines(live, m, o, chunk, g))
  {
    var dir := Load(m, chunk);
    var n, f := MemMap(m, dir, virt, phys, flags), FlatMap(Flat(m, dir), virt, phys, flags);
    MapRefines(live, m, chunk, virt, phys, flags);
    forall o, g | Refines(live, n, o, chunk, g)
      ensures Refines(live, m, o, chunk, g)
    {
      RefinesChain(live, m, n, o, chunk, f, g);
    }
  }

  lemma {:induction false} RangeRefines(live: Live, m: Memory, chunk: Word, virt: Word, phys: Word, pages: int,
                                        flags: Flags)
    requires Space(live, m, chunk)
    ensures var dir := Load(m, chunk);
            Refines(live, m, MemRange(m, dir, virt, phys, pages, flags), chunk,
                    FlatRange(Flat(m, dir), virt, phys, pages, flags))
    decreases pages
  {
    if pages <= 0 {
      RefinesSelf(live, m, chunk);
    } else {
      RangeStep(live, m, chunk, virt, phys, pages, flags);
      var n := MemMap(m, Load(m, chunk), virt, phys, flags);
      RangeRefines(live, n, chunk, ToWord(virt + PAGE_SIZE), ToWord(phys + PAGE_SIZE), pages - 1, flags);
    }
  }

  // ---------------------------------------------------------------- any number of calls

  datatype MapOp =
    | Set(virt: Word, val: Word)
    | Map(virt: Word, phys: Word, flags: Flags)
    | MapRange(virt: Word, phys: Word, pages: int, flags: Flags)
    | MapTo(virt: Word, phys: Word, end: Word, flags: Flags)

  function MemApply(m: Memory, dir: Word, op: MapOp): Memory
    requires Aligned(dir)
  {
    match op
    case Set(virt, val) => MemSet(m, dir, virt, val)
    case Map(virt, phys, flags) => MemMap(m, dir, virt, phys, flags)
    case MapRange(virt, phys, pages, flags) => MemRange(m, dir, virt, phys, pages, flags)
    case MapTo(virt, phys, end, flags) => MemRange(m, dir, virt, phys, MapToPages(virt, phys, end), flags)
  }

  function FlatApply(f: PageMap, op: MapOp): PageMap {
    match op
    case Set(virt, val) => if Aligned(virt) then f[virt / PAGE_SIZE := val] else f
    case Map(virt, phys, flags) => FlatMap(f, virt, phys, flags)
    case MapRange(virt, phys, pages, flags) => FlatRange(f, virt, phys, pages, flags)
    case MapTo(virt, phys, end, flags) => FlatMapTo(f, virt, phys, end, flags)
  }

  function MemRun(m: Memory, dir: Word, ops: seq<MapOp>): Memory
    requires Aligned(dir)
    decreases ops
  {
    if ops == [] then m else MemRun(MemApply(m, dir, ops[0]), dir, ops[1..])
  }

  function FlatRun(f: PageMap, ops: seq<MapOp>): PageMap
    decreases ops
  {
    if ops == [] then f else FlatRun(FlatApply(f, ops[0]), ops[1..])
  }

  lemma ApplyRefines(live: Live, m: Memory, chunk: Word, op: MapOp)
    requires Space(live, m, chunk)
    ensures var dir := Load(m, chunk);
            Refines(live, m, MemApply(m, dir, op), chunk, FlatApply(Flat(m, dir), op))
  {
    RefinesSelf(live, m, chunk);
    match op
    case Set(virt, val) =>
      if Aligned(virt) {
        SetRefines(live, m, chunk, virt / PAGE_SIZE, val);
      }
    case Map(virt, phys, flags) =>
      MapRefines(live, m, chunk, virt, phys, flags);
    case MapRange(virt, phys, pages, flags) =>
      RangeRefines(live, m, chunk, virt, phys, pages, flags);
    case MapTo(virt, phys, end, flags) =>
      RangeRefines(live, m, chunk, virt, phys, MapToPages(virt, phys, end), flags);
  }

  /** Any sequence of mapping calls acts on the two-level tables exactly as on one flat map,
      keeps every directory word, and changes no memory outside the tables. */
  lemma {:induction false} RunRefines(live: Live, m: Memory, chunk: Word, ops: seq<MapOp>)
    requires Space(live, m, chunk)
    ensures var dir := Load(m, chunk);
            Refines(live, m, MemRun(m, dir, ops), chunk, FlatRun(Flat(m, dir), ops))
    decreases ops
  {
    var dir := Load(m, chunk);
    if ops == [] {
      RefinesSelf(live, m, chunk);
    } else {
      ApplyRefines(live, m, chunk, ops[0]);
      var n, f := MemApply(m, dir, ops[0]), FlatApply(Flat(m, dir), ops[0]);
      RunRefines(live, n, chunk, ops[1..]);
      RefinesChain(live, m, n, MemRun(n, dir, ops[1..]), chunk, f, FlatRun(f, ops[1..]));
    }
  }

  /** Spaces without a page in common are independent: mapping calls on one leave the other a
      well-formed space with the same page map. */
  lemma RunLeavesOther(live: Live, m: Memory, chunk: Word, other: Word, ops: seq<MapOp>)
    requires Space(live, m, chunk) && Space(live, m, other)
    requires forall p :: p in SpacePages(m, chunk) ==> p !in SpacePages(m, other)
    ensures var n := MemRun(m, Load(m, chunk), ops);
            && Load(n, other) == Load(m, other) && Space(live, n, other)
            && Flat(n, Load(m, other)) == Flat(m, Load(m, other))
  {
    var n := MemRun(m, Load(m, chunk), ops);
    RunRefines(live, m, chunk, ops);
    forall i | 0 <= i < ENTRIES + 2
      ensures SamePage(m, n, SpacePages(m, other)[i])
    {
      ConfinedPage(live, m, n, chunk, SpacePages(m, other)[i]);
    }
    SpaceUnchanged(live, m, n, other);
  }

  /** A page outside the space at `chunk` keeps its words. */
  lemma ConfinedPage(live: Live, m: Memory, n: Memory, chunk: Word, p: Word)
    requires Space(live, m, chunk) && Confined(m, n, Load(m, chunk))
    requires Aligned(p) && p !in SpacePages(m, chunk)
    ensures SamePage(m, n, p)
  {
    var dir := Load(m, chunk);
    forall w | 0 <= w < RAM_WORDS && InPage(p, w)
      ensures n[w] == m[w]
    {
      if InTables(m, dir, w) {
        var d :| 0 <= d < ENTRIES && InPage(TableAt(m, dir, d), w);
        assert SpacePages(m, chunk)[d + 1] == TableAt(m, dir, d);
        PagesApart(p, TableAt(m, dir, d), w);
      }
    }
  }

  /** A space has the same pages and the same map in two memories. */
  ghost predicate SameMap(m: Memory, n: Memory, chunk: Word) {
    && Aligned(Load(m, chunk)) && Load(n, chunk) == Load(m, chunk)
    && SpacePages(n, chunk) == SpacePages(m, chunk) && Flat(n, Load(m, chunk)) == Flat(m, Load(m, chunk))
  }

  /** A space whose pages keep their words keeps its map. */
  lemma SpaceUnchanged(live: Live, m: Memory, n: Memory, chunk: Word)
    requires Space(live, m, chunk)
    requires forall i :: 0 <= i < ENTRIES + 2 ==> SamePage(m, n, SpacePages(m, chunk)[i])
    ensures Load(n, chunk) == Load(m, chunk) && SpacePages(n, chunk) == SpacePages(m, chunk)
    ensures Space(live, n, chunk)
    ensures Flat(n, Load(m, chunk)) == Flat(m, Load(m, chunk))
  {
    var dir, pages := Load(m, chunk), SpacePages(m, chunk);
    SpaceParts(live, m, chunk);
    assert SamePage(m, n, pages[ENTRIES + 1]) && InPage(chunk, chunk / 4);
    assert SamePage(m, n, pages[0]);
    forall d | 0 <= d < ENTRIES
      ensures DirWord(n, dir, d) == DirWord(m, dir, d)
    {
      assert InPage(dir, dir / 4 + d);
    }
    assert SpacePages(n, chunk) == pages;
    forall v | 0 <= v < PAGES
      ensures PageEntry(n, dir, v) == PageEntry(m, dir, v)
    {
      assert SamePage(m, n, pages[v / ENTRIES + 1]);
      assert EntrySlot(n, dir, v) == EntrySlot(m, dir, v);
    }
  }

  // ---------------------------------------------------------------- the calls themselves

  /** paging_set. */
  method PagingSet(k: Kernel, directory: Word, virt: Word, val: Word) returns (response: int)
    requires k.Valid() && Aligned(directory)
    modifies k.ram
    ensures response == if Aligned(virt) then 0 else INVALID_ARGUMENT
    ensures k.Mem() == MemSet(old(k.Mem()), directory, virt, val)
  {
    if !Aligned(virt) {
      return INVALID_ARGUMENT;
    }
    var status, directoryIndex, tableIndex := GetPagingIndices(virt);
    if status < 0 {
      return status;
    }
    IndicesBijective(directoryIndex, tableIndex, virt / PAGE_SIZE);
    var entry := k.ram[directory / 4 + directoryIndex];
    var table := Frame(entry);
    k.ram[table / 4 + tableIndex] := val;
    response := 0;
  }

  /** get_page. */
  method ReadPage(k: Kernel, directory: Word, virt: Word) returns (entry: Word)
    requires k.Valid() && Aligned(directory)
    ensures entry == GetPage(k.Mem(), directory, virt)
  {
    var status, directoryIndex, tableIndex := GetPagingIndices(virt);
    if status < 0 {
      return 0;
    }
    IndicesBijective(directoryIndex, tableIndex, virt / PAGE_SIZE);
    var table := Frame(k.ram[directory / 4 + directoryIndex]);
    entry := k.ram[table / 4 + tableIndex];
  }

  /** paging_map. */
  method PagingMap(k: Kernel, chunk: Word, virt: Word, phys: Word, flags: Flags) returns (response: int)
    requires k.Valid() && Aligned(Load(k.Mem(), chunk))
    modifies k.ram
    ensures response == if Aligned(virt) && Aligned(phys) then 0 else INVALID_ARGUMENT
    ensures k.Mem() == MemMap(old(k.Mem()), Load(old(k.Mem()), chunk), virt, phys, flags)
  {
    if !Aligned(virt) || !Aligned(phys) {
      return INVALID_ARGUMENT;
    }
    response := PagingSet(k, k.ram[chunk / 4], virt, Tagged(phys, flags));
  }

  lemma MapKeepsSpace(live: Live, m: Memory, chunk: Word, virt: Word, phys: Word, flags: Flags)
    requires Space(live, m, chunk)
    ensures var n := MemMap(m, Load(m, chunk), virt, phys, flags);
            Space(live, n, chunk) && Load(n, chunk) == Load(m, chunk)
  {
    MapRefines(live, m, chunk, virt, phys, flags);
  }

  /** paging_map_range. */
  method PagingMapRange(k: Kernel, chunk: Word, virt: Word, phys: Word, totalPages: int, flags: Flags, ghost live: Live)
    returns (response: int)
    requires k.Valid() && Space(live, k.Mem(), chunk)
    modifies k.ram
    ensures response == if totalPages <= 0 || (Aligned(virt) && Aligned(phys)) then 0 else INVALID_ARGUMENT
    ensures k.Mem() == MemRange(old(k.Mem()), Load(old(k.Mem()), chunk), virt, phys, totalPages, flags)
  {
    response := 0;
    ghost var m0: Memory := k.Mem();
    ghost var dir := Load(m0, chunk);
    var va: Word, pa: Word, i := virt, phys, 0;
    while i < totalPages
      invariant 0 <= i && (i <= totalPages || totalPages < 0)
      invariant response == 0 && (i > 0 ==> Aligned(virt) && Aligned(phys))
      invariant Aligned(va) == Aligned(virt) && Aligned(pa) == Aligned(phys)
      invariant Space(live, k.Mem(), chunk) && Load(k.Mem(), chunk) == dir
      invariant MemRange(k.Mem(), dir, va, pa, totalPages - i, flags)
             == MemRange(m0, dir, virt, phys, totalPages, flags)
    {
      ghost var before: Memory := k.Mem();
      response := PagingMap(k, chunk, va, pa, flags);
      if response < 0 {
        MemRangeUnaligned(before, dir, va, pa, totalPages - i, flags);
        return;
      }
      MapKeepsSpace(live, before, chunk, va, pa, flags);
      AlignedNext(pa);
      AlignedNext(va);
      pa := ToWord(pa + PAGE_SIZE);
      va := ToWord(va + PAGE_SIZE);
      i := i + 1;
    }
  }

  /** paging_map_to. */
  method PagingMapTo(k: Kernel, chunk: Word, virt: Word, phys: Word, end: Word, flags: Flags, ghost live: Live)
    returns (response: int)
    requires k.Valid() && Space(live, k.Mem(), chunk)
    modifies k.ram
    ensures response == if MapToPages(virt, phys, end) >= 0 then 0 else INVALID_ARGUMENT
    ensures k.Mem() == MemRange(old(k.Mem()), Load(old(k.Mem()), chunk), virt, phys, MapToPages(virt, phys, end), flags)
  {
    if !Aligned(virt) {
      return INVALID_ARGUMENT;
    }
    if !Aligned(phys) {
      return INVALID_ARGUMENT;
    }
    if !Aligned(end) {
      return INVALID_ARGUMENT;
    }
    if end < phys {
      return INVALID_ARGUMENT;
    }
    var totalBytes := end - phys;
    var totalPages := totalBytes / PAGE_SIZE;
    response := PagingMapRange(k, chunk, virt, phys, totalPages, flags, live);
  }
}
