/** Two-level page tables (`src/memory/paging/paging.c`) inside the kernel heap.

    A directory and its 1024 tables are ordinary heap pages.  `Space` says that they are live,
    pairwise different allocations; everything else about aliasing follows from the heap. */
module Paging {
  import opened Words
  import opened HeapTable
  import opened Heap
  import opened Ram
  import opened KernelHeap
  import opened PageLists

  const ENTRIES: int := 1024

  /** Pages in the 4 GiB address space. */
  const PAGES: int := 0x10_0000

  /** The first address of page `v`. */
  function PageStart(v: nat): (p: Word)
    requires v < PAGES
    ensures Aligned(p) && p / PAGE_SIZE == v
  {
    v * PAGE_SIZE
  }

  // ---------------------------------------------------------------- reading the tables

  function DirWord(m: Memory, dir: Word, d: nat): Word
    requires Aligned(dir) && d < ENTRIES
  {
    m[dir / 4 + d]
  }

  /** The table pointer in directory word `d`. */
  function TableAt(m: Memory, dir: Word, d: nat): (t: Word)
    requires Aligned(dir) && d < ENTRIES
    ensures Aligned(t)
  {
    Frame(DirWord(m, dir, d))
  }

  /** Where the entry of page `v` is stored, as a word index. */
  function EntrySlot(m: Memory, dir: Word, v: nat): (i: nat)
    requires Aligned(dir) && v < PAGES
    ensures InPage(TableAt(m, dir, v / ENTRIES), i) && i < RAM_WORDS
  {
    TableAt(m, dir, v / ENTRIES) / 4 + v % ENTRIES
  }

  function PageEntry(m: Memory, dir: Word, v: nat): Word
    requires Aligned(dir) && v < PAGES
  {
    m[EntrySlot(m, dir, v)]
  }

  /** The flat page map that the two levels implement. */
  function Flat(m: Memory, dir: Word): (f: seq<Word>)
    requires Aligned(dir)
    ensures |f| == PAGES
  {
    seq(PAGES, v requires 0 <= v < PAGES => PageEntry(m, dir, v))
  }

  /** get_page; an unaligned address has no entry and reads as 0. */
  function GetPage(m: Memory, dir: Word, virt: Word): Word
    requires Aligned(dir)
  {
    if Aligned(virt) then PageEntry(m, dir, virt / PAGE_SIZE) else 0
  }

  /** The physical address the processor finds for a virtual one. */
  function Translate(m: Memory, dir: Word, virt: Word): Word
    requires Aligned(dir)
  {
    Frame(PageEntry(m, dir, virt / PAGE_SIZE)) + virt % PAGE_SIZE
  }

  // ---------------------------------------------------------------- well-formed address spaces

  /** Page `i` of the 1026 pages of an address space, in allocation order. */
  function SpacePage(m: Memory, chunk: Word, i: nat): Word
    requires Aligned(Load(m, chunk)) && i < ENTRIES + 2
  {
    if i == 0 then Load(m, chunk)
    else if i <= ENTRIES then TableAt(m, Load(m, chunk), i - 1)
    else chunk
  }

  function SpacePages(m: Memory, chunk: Word): (pages: seq<Word>)
    requires Aligned(Load(m, chunk))
    ensures |pages| == ENTRIES + 2
  {
    seq(ENTRIES + 2, i requires 0 <= i < ENTRIES + 2 => SpacePage(m, chunk, i))
  }

  /** The chunk, its directory and the 1024 tables are different live heap pages. */
  ghost predicate Space(live: Live, m: Memory, chunk: Word) {
    && Aligned(Load(m, chunk))
    && AllLive(live, SpacePages(m, chunk)) && Distinct(SpacePages(m, chunk))
  }

  lemma SpaceParts(live: Live, m: Memory, chunk: Word)
    requires Space(live, m, chunk)
    ensures LivePage(live, chunk) && LivePage(live, Load(m, chunk)) && Load(m, chunk) != chunk
    ensures forall d :: 0 <= d < ENTRIES ==>
              var t := TableAt(m, Load(m, chunk), d);
              LivePage(live, t) && t != Load(m, chunk) && t != chunk
    ensures forall c, d :: 0 <= c < d < ENTRIES ==>
              TableAt(m, Load(m, chunk), c) != TableAt(m, Load(m, chunk), d)
  {
    var pages := SpacePages(m, chunk);
    assert pages[0] == Load(m, chunk) && pages[ENTRIES + 1] == chunk;
    forall d | 0 <= d < ENTRIES
      ensures pages[d + 1] == TableAt(m, Load(m, chunk), d)
    {
    }
  }

  // ---------------------------------------------------------------- setting one entry

  function SetEntry(m: Memory, dir: Word, v: nat, val: Word): Memory
    requires Aligned(dir) && v < PAGES
  {
    m[EntrySlot(m, dir, v) := val]
  }

  /** The directory words are as before, and only words of its tables differ. */
  ghost predicate Confined(m: Memory, n: Memory, dir: Word)
    requires Aligned(dir)
  {
    && (forall d :: 0 <= d < ENTRIES ==> DirWord(n, dir, d) == DirWord(m, dir, d))
    && (forall w :: 0 <= w < RAM_WORDS && !InTables(m, dir, w) ==> n[w] == m[w])
  }

  ghost predicate InTables(m: Memory, dir: Word, w: int)
    requires Aligned(dir)
  {
    exists d :: 0 <= d < ENTRIES && InPage(TableAt(m, dir, d), w)
  }

  lemma ConfinedTables(m: Memory, n: Memory, dir: Word)
    requires Aligned(dir) && Confined(m, n, dir)
    ensures forall d :: 0 <= d < ENTRIES ==> TableAt(n, dir, d) == TableAt(m, dir, d)
  {
  }

  lemma ConfinedChain(m: Memory, n: Memory, o: Memory, dir: Word)
    requires Aligned(dir) && Confined(m, n, dir) && Confined(n, o, dir)
    ensures Confined(m, o, dir)
  {
    ConfinedTables(m, n, dir);
    forall w | 0 <= w < RAM_WORDS && InTables(n, dir, w)
      ensures InTables(m, dir, w)
    {
      var d :| 0 <= d < ENTRIES && InPage(TableAt(n, dir, d), w);
      assert InPage(TableAt(m, dir, d), w);
    }
  }

  /** A well-formed space stays one under any change confined to its tables. */
  lemma SpaceStays(live: Live, m: Memory, n: Memory, chunk: Word)
    requires Space(live, m, chunk) && Confined(m, n, Load(m, chunk))
    ensures Load(n, chunk) == Load(m, chunk) && Space(live, n, chunk)
    ensures SpacePages(n, chunk) == SpacePages(m, chunk)
  {
    var dir := Load(m, chunk);
    SpaceParts(live, m, chunk);
    assert InPage(chunk, chunk / 4);
    if InTables(m, dir, chunk / 4) {
      var d :| 0 <= d < ENTRIES && InPage(TableAt(m, dir, d), chunk / 4);
      PagesApart(chunk, TableAt(m, dir, d), chunk / 4);
    }
    ConfinedTables(m, n, dir);
  }

  /** Two pages of the address space have the same slot only if they are the same. */
  lemma SlotsApart(live: Live, m: Memory, chunk: Word, u: nat, v: nat)
    requires Space(live, m, chunk) && u < PAGES && v < PAGES
    requires EntrySlot(m, Load(m, chunk), u) == EntrySlot(m, Load(m, chunk), v)
    ensures u == v
  {
    var dir := Load(m, chunk);
    SpaceParts(live, m, chunk);
    PagesApart(TableAt(m, dir, u / ENTRIES), TableAt(m, dir, v / ENTRIES), EntrySlot(m, dir, u));
  }

  /** Storing one entry is a one-point update of the flat map, and leaves the directory and all
      other memory alone. */
  lemma SetEntryFlat(live: Live, m: Memory, chunk: Word, v: nat, val: Word)
    requires Space(live, m, chunk) && v < PAGES
    ensures var dir := Load(m, chunk);
            var n := SetEntry(m, dir, v, val);
            && Confined(m, n, dir)
            && Flat(n, dir) == Flat(m, dir)[v := val]
  {
    var dir := Load(m, chunk);
    var slot := EntrySlot(m, dir, v);
    var n := SetEntry(m, dir, v, val);
    SpaceParts(live, m, chunk);
    assert InPage(TableAt(m, dir, v / ENTRIES), slot);
    forall d | 0 <= d < ENTRIES
      ensures DirWord(n, dir, d) == DirWord(m, dir, d)
    {
      assert InPage(dir, dir / 4 + d);
      if dir / 4 + d == slot {
        PagesApart(dir, TableAt(m, dir, v / ENTRIES), slot);
      }
    }
    assert InTables(m, dir, slot);
    assert Confined(m, n, dir);
    ConfinedTables(m, n, dir);
    forall u | 0 <= u < PAGES
      ensures PageEntry(n, dir, u) == if u == v then val else PageEntry(m, dir, u)
    {
      assert EntrySlot(n, dir, u) == EntrySlot(m, dir, u);
      if EntrySlot(m, dir, u) == slot {
        SlotsApart(live, m, chunk, u, v);
      }
    }
  }

  // ---------------------------------------------------------------- indices

  /** get_paging_indeces. */
  method GetPagingIndices(virt: Word) returns (response: int, directoryIndex: nat, tableIndex: nat)
    ensures response == 0 <==> Aligned(virt)
    ensures response == 0 || response == -2
    ensures response == 0 ==>
              && directoryIndex < ENTRIES && tableIndex < ENTRIES
              && directoryIndex * ENTRIES + tableIndex == virt / PAGE_SIZE
  {
    directoryIndex, tableIndex := 0, 0;
    if !Aligned(virt) {
      return INVALID_ARGUMENT, directoryIndex, tableIndex;
    }
    response := 0;
    directoryIndex := virt / (ENTRIES * PAGE_SIZE);
    tableIndex := virt % (ENTRIES * PAGE_SIZE) / PAGE_SIZE;
  }

  /** (directory index, table index) names each page exactly once. */
  lemma IndicesBijective(d: nat, t: nat, v: nat)
    requires d < ENTRIES && t < ENTRIES && v < PAGES
    ensures d * ENTRIES + t < PAGES
    ensures d * ENTRIES + t == v <==> d == v / ENTRIES && t == v % ENTRIES
  {
  }
}
