/** Building an address space from the heap and giving it back
    (paging_new_4gb and paging_free_4gb of `src/memory/paging/paging.c`). */
module PageLife {
  import opened Words
  import opened HeapTable
  import opened Ram
  import opened KernelHeap
  import opened PageLists
  import opened Paging
  import opened PageMaps

  /** The 1026 blocks of one address space. */
  const SPACE_BLOCKS: int := ENTRIES + 2

  /** The word at index `w` of a memory where the table at `p` maps 1024 pages from `offset` on
      to themselves. */
  function Tabled(m: Memory, p: Word, offset: Word, flags: Flags): Memory
    requires Aligned(p) && Aligned(offset)
  {
    seq(RAM_WORDS, w requires 0 <= w < RAM_WORDS =>
      if InPage(p, w) then Tagged(PagesAfter(offset, w - p / 4), flags) else m[w])
  }

  /** The inner loop of paging_new_4gb. */
  method FillTable(k: Kernel, entry: Word, offset: Word, flags: Flags)
    requires k.Valid() && Aligned(entry) && Aligned(offset)
    modifies k.ram
    ensures k.Mem() == Tabled(old(k.Mem()), entry, offset, flags)
  {
    var j := 0;
    while j < ENTRIES
      invariant 0 <= j <= ENTRIES
      invariant forall w :: 0 <= w < RAM_WORDS ==>
                  k.ram[w] == if entry / 4 <= w < entry / 4 + j then Tagged(PagesAfter(offset, w - entry / 4), flags)
                              else old(k.ram[w])
    {
      OffsetIsPagesAfter(offset, j);
      k.ram[entry / 4 + j] := Tagged(ToWord(offset + j * PAGE_SIZE), flags);
      j := j + 1;
    }
  }

  lemma OffsetIsPagesAfter(offset: Word, j: nat)
    requires Aligned(offset)
    ensures ToWord(offset + j * PAGE_SIZE) == PagesAfter(offset, j)
  {
  }

  /** The table at `p` is the identity map of pages 1024 * d to 1024 * d + 1023. */
  ghost predicate IdentityTable(m: Memory, p: Word, d: nat, flags: Flags)
    requires d < ENTRIES
  {
    forall w :: 0 <= w < RAM_WORDS && InPage(p, w) ==>
      m[w] == Tagged(PageStart(d * ENTRIES + (w - p / 4)), flags)
  }

  /** `pages` lists the directory and its first `i` tables, all linked and filled. */
  ghost predicate Built(m: Memory, pages: seq<Word>, i: nat, flags: Flags)
    requires i <= ENTRIES
  {
    && |pages| == i + 1 && (forall j :: 0 <= j < |pages| ==> Aligned(pages[j]))
    && (forall d :: 0 <= d < i ==> TableBuilt(m, pages, d, flags))
  }

  /** Table `d` of a list that begins with the directory is linked, and is the identity map of
      its pages. */
  ghost predicate TableBuilt(m: Memory, pages: seq<Word>, d: nat, flags: Flags)
    requires d < ENTRIES && d + 1 < |pages| && Aligned(pages[0]) && Aligned(pages[d + 1])
  {
    && DirWord(m, pages[0], d) == Tagged(pages[d + 1], WithBitOne(flags))
    && IdentityTable(m, pages[d + 1], d, flags)
  }

  lemma IdentityStays(m: Memory, n: Memory, p: Word, d: nat, flags: Flags)
    requires d < ENTRIES && IdentityTable(m, p, d, flags) && SamePage(m, n, p)
    ensures IdentityTable(n, p, d, flags)
  {
  }

  lemma DirWordStays(m: Memory, n: Memory, dir: Word, d: nat)
    requires Aligned(dir) && d < ENTRIES && SamePage(m, n, dir)
    ensures DirWord(n, dir, d) == DirWord(m, dir, d)
  {
    assert InPage(dir, dir / 4 + d);
  }

  /** Changes outside the pages of a partly built space keep it. */
  lemma BuiltStays(m: Memory, n: Memory, pages: seq<Word>, i: nat, flags: Flags)
    requires i <= ENTRIES && Built(m, pages, i, flags)
    requires forall j :: 0 <= j < |pages| ==> SamePage(m, n, pages[j])
    ensures Built(n, pages, i, flags)
  {
    forall d | 0 <= d < i
      ensures TableBuilt(n, pages, d, flags)
    {
      assert TableBuilt(m, pages, d, flags);
      DirWordStays(m, n, pages[0], d);
      IdentityStays(m, n, pages[d + 1], d, flags);
    }
  }

  /** One round of the outer loop: a fresh page is filled, then linked into the directory. */
  lemma BuiltStep(m: Memory, n: Memory, pages: seq<Word>, p: Word, i: nat, flags: Flags)
    requires i < ENTRIES && Built(m, pages, i, flags) && Distinct(pages)
    requires Aligned(p) && p !in pages
    requires forall w :: 0 <= w < RAM_WORDS && !InPage(p, w) ==> n[w] == m[w]
    requires IdentityTable(n, p, i, flags)
    ensures var o := n[pages[0] / 4 + i := Tagged(p, WithBitOne(flags))];
            Built(o, pages + [p], i + 1, flags)
  {
    forall j | 0 <= j < |pages|
      ensures SamePage(m, n, pages[j])
    {
      OnlyPageOther(m, n, p, pages[j]);
    }
    BuiltStays(m, n, pages, i, flags);
    LinkTable(n, pages, p, i, flags);
  }

  lemma LinkTable(n: Memory, pages: seq<Word>, p: Word, i: nat, flags: Flags)
    requires i < ENTRIES && Built(n, pages, i, flags) && Distinct(pages)
    requires Aligned(p) && p !in pages && IdentityTable(n, p, i, flags)
    ensures var o := n[pages[0] / 4 + i := Tagged(p, WithBitOne(flags))];
            Built(o, pages + [p], i + 1, flags)
  {
    var dir, slot := pages[0], pages[0] / 4 + i;
    var o := n[slot := Tagged(p, WithBitOne(flags))];
    var pages' := pages + [p];
    assert InPage(dir, slot);
    forall d | 0 <= d < i + 1
      ensures TableBuilt(o, pages', d, flags)
    {
      assert d < i ==> TableBuilt(n, pages, d, flags);
      StoreElsewhere(n, dir, slot, Tagged(p, WithBitOne(flags)), pages'[d + 1]);
      IdentityStays(n, o, pages'[d + 1], d, flags);
    }
  }

  lemma StoreElsewhere(n: Memory, p: Word, slot: nat, val: Word, q: Word)
    requires Aligned(p) && Aligned(q) && p != q && InPage(p, slot) && slot < RAM_WORDS
    ensures SamePage(n, n[slot := val], q)
  {
    if InPage(q, slot) {
      PagesApart(p, q, slot);
    }
  }

  lemma TabledIdentity(m: Memory, p: Word, d: nat, flags: Flags)
    requires Aligned(p) && d < ENTRIES
    ensures IdentityTable(Tabled(m, p, PageStart(d * ENTRIES), flags), p, d, flags)
  {
    forall w | 0 <= w < RAM_WORDS && InPage(p, w)
      ensures PagesAfter(PageStart(d * ENTRIES), w - p / 4) == PageStart(d * ENTRIES + (w - p / 4))
    {
    }
  }

  /** A finished build is a space with the identity map. */
  lemma BuiltSpace(live: Live, m: Memory, pages: seq<Word>, chunk: Word, flags: Flags)
    requires Built(m, pages, ENTRIES, flags) && Load(m, chunk) == pages[0]
    requires Fresh(live, pages + [chunk])
    ensures SpacePages(m, chunk) == pages + [chunk]
    ensures Space(Extend(live, pages + [chunk]), m, chunk)
    ensures forall v :: 0 <= v < PAGES ==> PageEntry(m, pages[0], v) == Tagged(PageStart(v), flags)
    ensures DirectoryLinked(m, pages[0], flags)
  {
    forall d | 0 <= d < ENTRIES
      ensures TableAt(m, pages[0], d) == pages[d + 1]
      ensures DirWord(m, pages[0], d) == Or(Or(TableAt(m, pages[0], d), flags), 2)
    {
      assert TableBuilt(m, pages, d, flags);
      TaggedWithBitOne(pages[d + 1], flags);
    }
    assert SpacePages(m, chunk) == pages + [chunk];
    FreshAreLive(live, pages + [chunk]);
    forall v | 0 <= v < PAGES
      ensures PageEntry(m, pages[0], v) == Tagged(PageStart(v), flags)
    {
      var d := v / ENTRIES;
      assert TableBuilt(m, pages, d, flags);
      assert InPage(pages[d + 1], EntrySlot(m, pages[0], v));
    }
  }

  // ---------------------------------------------------------------- building

  /** Every directory word is its table's address with the flags and the writable bit. */
  ghost predicate DirectoryLinked(m: Memory, dir: Word, flags: Flags)
    requires Aligned(dir)
  {
    forall d :: 0 <= d < ENTRIES ==> DirWord(m, dir, d) == Or(Or(TableAt(m, dir, d), flags), 2)
  }

  /** What paging_new_4gb returns: 1026 fresh blocks that form a space whose every page `v`
      reads `v | flags`, with all other allocations and all other memory as before. */
  ghost predicate NewSpace(live: Live, m: Memory, live': Live, m': Memory, chunk: Word, flags: Flags) {
    && Space(live', m', chunk)
    && Fresh(live, SpacePages(m', chunk)) && live' == Extend(live, SpacePages(m', chunk))
    && Untouched(m, m', SpacePages(m', chunk))
    && (forall v :: 0 <= v < PAGES ==> PageEntry(m', Load(m', chunk), v) == Tagged(PageStart(v), flags))
    && DirectoryLinked(m', Load(m', chunk), flags)
  }

  lemma FreshAligned(live: Live, pages: seq<Word>)
    requires Fresh(live, pages)
    ensures forall j :: 0 <= j < |pages| ==> Aligned(pages[j])
  {
  }

  /** Memory across one round of the outer loop. */
  lemma Round(live: Live, m0: Memory, m1: Memory, m2: Memory, pages: seq<Word>, p: Word, i: nat, flags: Flags)
    requires i < ENTRIES && Built(m1, pages, i, flags) && Untouched(m0, m1, pages)
    requires Fresh(live, pages + [p])
    requires forall w :: 0 <= w < RAM_WORDS && !InPage(p, w) ==> m2[w] == m1[w]
    ensures Aligned(p)
    ensures var m3 := Tabled(m2, p, PageStart(i * ENTRIES), flags);
            var m4 := m3[pages[0] / 4 + i := Tagged(p, WithBitOne(flags))];
            Built(m4, pages + [p], i + 1, flags) && Untouched(m0, m4, pages + [p])
  {
    var all := pages + [p];
    assert all[|pages|] == p;
    FreshAligned(live, all);
    FreshPrefix(live, pages, p);
    var m3 := Tabled(m2, p, PageStart(i * ENTRIES), flags);
    var m4 := m3[pages[0] / 4 + i := Tagged(p, WithBitOne(flags))];
    TabledIdentity(m2, p, i, flags);
    BuiltStep(m1, m3, pages, p, i, flags);
    forall w | 0 <= w < RAM_WORDS && !InSome(all, w)
      ensures m4[w] == m0[w]
    {
      InSomePush(pages, p, w);
      assert !InPage(all[0], w);
    }
  }

  lemma FreshPrefix(live: Live, pages: seq<Word>, p: Word)
    requires Fresh(live, pages + [p])
    ensures Fresh(live, pages) && p !in pages && HeapPage(p)
  {
    var all := pages + [p];
    assert all[|pages|] == p;
    forall i | 0 <= i < |pages|
      ensures all[i] == pages[i] && pages[i] != p
    {
    }
  }

  /** Memory across the allocation and initialisation of the chunk. */
  lemma Finish(live: Live, m0: Memory, m1: Memory, m2: Memory, pages: seq<Word>, chunk: Word, flags: Flags)
    requires Built(m1, pages, ENTRIES, flags) && Untouched(m0, m1, pages)
    requires Fresh(live, pages + [chunk])
    requires forall w :: 0 <= w < RAM_WORDS && !InPage(chunk, w) ==> m2[w] == m1[w]
    ensures var m3 := Store(m2, chunk, pages[0]);
            NewSpace(live, m0, Extend(live, pages + [chunk]), m3, chunk, flags)
    ensures SpacePages(Store(m2, chunk, pages[0]), chunk) == pages + [chunk]
  {
    var m3, all := Store(m2, chunk, pages[0]), pages + [chunk];
    assert all[|pages|] == chunk;
    FreshPrefix(live, pages, chunk);
    assert InPage(chunk, chunk / 4);
    forall j | 0 <= j < |pages|
      ensures SamePage(m1, m3, pages[j])
    {
      OnlyPageOther(m1, m3, chunk, pages[j]);
    }
    BuiltStays(m1, m3, pages, ENTRIES, flags);
    BuiltSpace(live, m3, pages, chunk, flags);
    forall w | 0 <= w < RAM_WORDS && !InSome(all, w)
      ensures m3[w] == m0[w]
    {
      InSomePush(pages, chunk, w);
    }
  }

  /** The memory after the table at `p` was filled and linked as entry `i` of the directory. */
  function WithTable(m: Memory, dir: Word, i: nat, p: Word, offset: Word, flags: Flags): Memory
    requires Aligned(dir) && i < ENTRIES && Aligned(p) && Aligned(offset)
  {
    Tabled(m, p, offset, flags)[dir / 4 + i := Tagged(p, WithBitOne(flags))]
  }

  /** State of the construction: the directory and `i` tables are taken, filled and linked. */
  ghost predicate Progress(live: Live, m: Memory, live': Live, m': Memory, pages: seq<Word>, i: nat, flags: Flags)
    requires i <= ENTRIES
  {
    && Fresh(live, pages) && live' == Extend(live, pages)
    && Built(m', pages, i, flags) && Untouched(m, m', pages)
  }

  lemma ProgressStart(live: Live, m: Memory, live1: Live, m1: Memory, directory: Word, flags: Flags)
    requires FreshPage(live, m, live1, m1, directory, 4096)
    ensures Progress(live, m, live1, m1, [directory], 0, flags)
  {
    PushFirst(live, directory);
    UntouchedSingle(m, m1, directory);
  }

  lemma ProgressStep(live: Live, m: Memory, live1: Live, m1: Memory, live2: Live, m2: Memory,
                     pages: seq<Word>, p: Word, i: nat, flags: Flags)
    requires i < ENTRIES && Progress(live, m, live1, m1, pages, i, flags)
    requires FreshPage(live1, m1, live2, m2, p, 4096)
    ensures pages != [] && Aligned(pages[0])
    ensures Progress(live, m, live2, WithTable(m2, pages[0], i, p, PageStart(i * ENTRIES), flags),
                     pages + [p], i + 1, flags)
  {
    Push(live, pages, p);
    Round(live, m, m1, m2, pages, p, i, flags);
  }

  lemma ProgressEnd(live: Live, m: Memory, live1: Live, m1: Memory, live2: Live, m2: Memory,
                    pages: seq<Word>, chunk: Word, flags: Flags)
    requires Progress(live, m, live1, m1, pages, ENTRIES, flags)
    requires FreshPage(live1, m1, live2, m2, chunk, 4)
    ensures NewSpace(live, m, live2, Store(m2, chunk, pages[0]), chunk, flags)
  {
    Push(live, pages, chunk);
    Finish(live, m, m1, m2, pages, chunk, flags);
  }

  /** One round of the outer loop of paging_new_4gb. */
  method AddTable(k: Kernel, directory: Word, i: nat, offset: Word, flags: Byte,
                  ghost live: Live, ghost m: Memory, ghost pages: seq<Word>)
    returns (entry: Word)
    requires k.Intact() && k.FreeCount() > 0 && i < ENTRIES && offset == PageStart(i * ENTRIES)
    requires Progress(live, m, k.live, k.Mem(), pages, i, flags) && pages[0] == directory
    modifies k`live, k.heap.entries, k.ram
    ensures k.Intact() && k.FreeCount() == old(k.FreeCount()) - 1
    ensures Progress(live, m, k.live, k.Mem(), pages + [entry], i + 1, flags)
    ensures k.heap.Outside() == old(k.heap.Outside())
  {
    entry := ZallocPage(k, 4 * ENTRIES);
    ProgressStep(live, m, old(k.live), old(k.Mem()), k.live, k.Mem(), pages, entry, i, flags);
    LinkTableAt(k, directory, i, entry, offset, flags);
  }

  method LinkTableAt(k: Kernel, directory: Word, i: nat, entry: Word, offset: Word, flags: Byte)
    requires k.Valid() && Aligned(directory) && i < ENTRIES && Aligned(entry) && Aligned(offset)
    modifies k.ram
    ensures k.Mem() == WithTable(old(k.Mem()), directory, i, entry, offset, flags)
  {
    FillTable(k, entry, offset, flags);
    k.ram[directory / 4 + i] := Tagged(entry, WithBitOne(flags));
  }

  /** The last step of paging_new_4gb: the structure that holds the directory pointer. */
  method NewChunk(k: Kernel, directory: Word, flags: Byte, ghost live: Live, ghost m: Memory, ghost pages: seq<Word>)
    returns (chunk: Word)
    requires k.Intact() && k.FreeCount() > 0
    requires Progress(live, m, k.live, k.Mem(), pages, ENTRIES, flags) && pages[0] == directory
    modifies k`live, k.heap.entries, k.ram
    ensures k.Intact() && k.FreeCount() == old(k.FreeCount()) - 1
    ensures NewSpace(live, m, k.live, k.Mem(), chunk, flags)
    ensures k.heap.Outside() == old(k.heap.Outside())
  {
    chunk := ZallocPage(k, 4);
    ProgressEnd(live, m, old(k.live), old(k.Mem()), k.live, k.Mem(), pages, chunk, flags);
    k.ram[chunk / 4] := directory;
  }

  /** The outer loop of paging_new_4gb. */
  method NewTables(k: Kernel, directory: Word, flags: Byte, ghost live: Live, ghost m: Memory)
    returns (ghost pages: seq<Word>)
    requires k.Intact() && k.FreeCount() >= ENTRIES
    requires Progress(live, m, k.live, k.Mem(), [directory], 0, flags)
    modifies k`live, k.heap.entries, k.ram
    ensures k.Intact() && k.FreeCount() == old(k.FreeCount()) - ENTRIES
    ensures Progress(live, m, k.live, k.Mem(), pages, ENTRIES, flags) && pages[0] == directory
    ensures k.heap.Outside() == old(k.heap.Outside())
  {
    pages := [directory];
    var offset: Word, i := 0, 0;
    while i < ENTRIES
      invariant 0 <= i <= ENTRIES
      invariant k.Intact() && k.FreeCount() == old(k.FreeCount()) - i
      invariant Progress(live, m, k.live, k.Mem(), pages, i, flags) && pages[0] == directory
      invariant i < ENTRIES ==> offset == PageStart(i * ENTRIES)
      invariant k.heap.Outside() == old(k.heap.Outside())
    {
      var entry := AddTable(k, directory, i, offset, flags, live, m, pages);
      pages := pages + [entry];
      offset := ToWord(offset + ENTRIES * PAGE_SIZE);
      i := i + 1;
    }
  }

  /** paging_new_4gb. */
  method New4gb(k: Kernel, flags: Byte) returns (chunk: Word)
    requires k.Intact() && k.FreeCount() >= SPACE_BLOCKS
    modifies k`live, k.heap.entries, k.ram
    ensures k.Intact() && k.FreeCount() == old(k.FreeCount()) - SPACE_BLOCKS
    ensures NewSpace(old(k.live), old(k.Mem()), k.live, k.Mem(), chunk, flags)
    ensures k.heap.Outside() == old(k.heap.Outside())
  {
    ghost var live: Live, m: Memory := k.live, k.Mem();
    var directory := ZallocPage(k, 4 * ENTRIES);
    ProgressStart(live, m, k.live, k.Mem(), directory, flags);
    ghost var pages := NewTables(k, directory, flags, live, m);
    chunk := NewChunk(k, directory, flags, live, m, pages);
  }

  // ---------------------------------------------------------------- two spaces

  /** A space that is live while fresh pages are taken and written has none of them, and keeps
      its map. */
  lemma OtherSpaceKept(live: Live, m: Memory, n: Memory, pages: seq<Word>, other: Word)
    requires Space(live, m, other) && Fresh(live, pages) && Untouched(m, n, pages)
    ensures Space(live, n, other) && Space(Extend(live, pages), n, other) && SameMap(m, n, other)
    ensures forall p :: p in pages ==> p !in SpacePages(m, other)
  {
    var theirs := SpacePages(m, other);
    forall i | 0 <= i < |theirs|
      ensures LivePage(Extend(live, pages), theirs[i]) && theirs[i] !in pages && SamePage(m, n, theirs[i])
    {
      OldStaysLive(live, pages, theirs[i]);
      FreshAligned(live, pages);
      UntouchedPage(m, n, pages, theirs[i]);
    }
    SpaceUnchanged(live, m, n, other);
  }

  /** A space built while another one is live shares no page with it and leaves it alone. */
  lemma NewSpaceApart(live: Live, m: Memory, live': Live, m': Memory, chunk: Word, flags: Flags, other: Word)
    requires Space(live, m, other) && NewSpace(live, m, live', m', chunk, flags)
    ensures Space(live', m', other) && Load(m', other) == Load(m, other)
    ensures Flat(m', Load(m, other)) == Flat(m, Load(m, other))
    ensures forall p :: p in SpacePages(m', chunk) ==> p !in SpacePages(m', other)
  {
    OtherSpaceKept(live, m, m', SpacePages(m', chunk), other);
  }

  /** Address spaces from separate paging_new_4gb calls share no page, and are isolated: no sequence of mapping
      calls on one changes an entry of the other. */
  lemma SpacesIsolated(live: Live, m: Memory, live': Live, m': Memory, chunk: Word, flags: Flags,
                       other: Word, ops: seq<MapOp>)
    requires Space(live, m, other) && NewSpace(live, m, live', m', chunk, flags)
    ensures var n := MemRun(m', Load(m', chunk), ops);
            && Space(live', n, other) && Load(n, other) == Load(m, other)
            && Flat(n, Load(m, other)) == Flat(m, Load(m, other))
    ensures Space(live', m', other) && Load(m', other) == Load(m, other)
    ensures forall p :: p in SpacePages(m', chunk) ==> p !in SpacePages(m', other)
    ensures var n := MemRun(m', Load(m', other), ops);
            && Space(live', n, chunk) && Load(n, chunk) == Load(m', chunk)
            && Flat(n, Load(m', chunk)) == Flat(m', Load(m', chunk))
  {
    NewSpaceApart(live, m, live', m', chunk, flags, other);
    RunLeavesOther(live', m', chunk, other, ops);
    RunLeavesOther(live', m', other, chunk, ops);
  }

  // ---------------------------------------------------------------- giving the blocks back

  /** The blocks of a space in the order paging_free_4gb frees them. */
  function FreeOrder(m: Memory, chunk: Word): (pages: seq<Word>)
    requires Aligned(Load(m, chunk))
    ensures |pages| == SPACE_BLOCKS
  {
    SpacePages(m, chunk)[1..ENTRIES + 1] + [Load(m, chunk)] + [chunk]
  }

  lemma FreeOrderPages(live: Live, m: Memory, chunk: Word)
    requires Space(live, m, chunk)
    ensures AllLive(live, FreeOrder(m, chunk)) && Distinct(FreeOrder(m, chunk))
    ensures forall p :: p in FreeOrder(m, chunk) <==> p in SpacePages(m, chunk)
    ensures forall d :: 0 <= d < ENTRIES ==> FreeOrder(m, chunk)[d] == TableAt(m, Load(m, chunk), d)
  {
    var pages, order := SpacePages(m, chunk), FreeOrder(m, chunk);
    SpaceParts(live, m, chunk);
    forall i | 0 <= i < SPACE_BLOCKS
      ensures order[i] == if i < ENTRIES then TableAt(m, Load(m, chunk), i)
                          else if i == ENTRIES then Load(m, chunk) else chunk
    {
    }
    forall p | p in pages
      ensures p in order
    {
      var i :| 0 <= i < SPACE_BLOCKS && pages[i] == p;
      assert order[if i == 0 then ENTRIES else if i <= ENTRIES then i - 1 else i] == p;
    }
    forall p | p in order
      ensures p in pages
    {
      var i :| 0 <= i < SPACE_BLOCKS && order[i] == p;
      assert pages[if i < ENTRIES then i + 1 else if i == ENTRIES then 0 else i] == p;
    }
  }

  /** paging_free_4gb. */
  method Free4gb(k: Kernel, chunk: Word)
    requires k.Intact() && Space(k.live, k.Mem(), chunk)
    modifies k`live, k.heap.entries
    ensures k.Intact() && k.live == Shrink(old(k.live), FreeOrder(k.Mem(), chunk))
    ensures k.FreeCount() == old(k.FreeCount()) + SPACE_BLOCKS
    ensures k.heap.Outside() == old(k.heap.Outside())
  {
    ghost var live, order := k.live, FreeOrder(k.Mem(), chunk);
    FreeOrderPages(live, k.Mem(), chunk);
    FreeTables(k, chunk, order);
    FreePage(k, k.ram[chunk / 4], live, order, ENTRIES);
    FreePage(k, chunk, live, order, ENTRIES + 1);
    assert order[..SPACE_BLOCKS] == order;
  }

  /** The loop of paging_free_4gb. */
  method FreeTables(k: Kernel, chunk: Word, ghost order: seq<Word>)
    requires k.Intact() && Aligned(Load(k.Mem(), chunk)) && AllLive(k.live, order) && Distinct(order)
    requires |order| >= ENTRIES
    requires forall d :: 0 <= d < ENTRIES ==> order[d] == TableAt(k.Mem(), Load(k.Mem(), chunk), d)
    modifies k`live, k.heap.entries
    ensures k.Intact() && k.live == Shrink(old(k.live), order[..ENTRIES])
    ensures k.FreeCount() == old(k.FreeCount()) + ENTRIES
    ensures k.heap.Outside() == old(k.heap.Outside())
  {
    ghost var live := k.live;
    var i := 0;
    while i < ENTRIES
      invariant 0 <= i <= ENTRIES
      invariant k.Intact() && k.live == Shrink(live, order[..i])
      invariant k.FreeCount() == old(k.FreeCount()) + i
      invariant k.heap.Outside() == old(k.heap.Outside())
    {
      var entry := k.ram[k.ram[chunk / 4] / 4 + i];
      var table := Frame(entry);
      FreePage(k, table, live, order, i);
      i := i + 1;
    }
  }

  /** After paging_new_4gb and any number of mapping calls, the blocks paging_free_4gb frees are
      exactly the 1026 blocks that were allocated, each once, so the live allocations are those
      of the beginning. */
  lemma LifeCycle(live: Live, m: Memory, live': Live, m': Memory, chunk: Word, flags: Flags, ops: seq<MapOp>)
    requires NewSpace(live, m, live', m', chunk, flags)
    ensures var n := MemRun(m', Load(m', chunk), ops);
            && Space(live', n, chunk)
            && Distinct(FreeOrder(n, chunk))
            && Shrink(live', FreeOrder(n, chunk)) == live
  {
    var n := MemRun(m', Load(m', chunk), ops);
    RunRefines(live', m', chunk, ops);
    FreeOrderPages(live', n, chunk);
    ExtendShrink(live, SpacePages(m', chunk), FreeOrder(n, chunk));
  }

  /** One mapping call. */
  method Call(k: Kernel, chunk: Word, op: MapOp) returns (response: int)
    requires k.Intact() && Space(k.live, k.Mem(), chunk)
    modifies k.ram
    ensures k.Mem() == MemApply(old(k.Mem()), Load(old(k.Mem()), chunk), op)
  {
    match op
    case Set(virt, val) => response := PagingSet(k, k.ram[chunk / 4], virt, val);
    case Map(virt, phys, flags) => response := PagingMap(k, chunk, virt, phys, flags);
    case MapRange(virt, phys, pages, flags) =>
      response := PagingMapRange(k, chunk, virt, phys, pages, flags, k.live);
    case MapTo(virt, phys, end, flags) =>
      response := PagingMapTo(k, chunk, virt, phys, end, flags, k.live);
  }

  /** The whole life of an address space restores the heap table entry for entry. */
  method BuildUseFree(k: Kernel, flags: Byte, ops: seq<MapOp>)
    requires k.Intact() && k.FreeCount() >= SPACE_BLOCKS
    modifies k`live, k.heap.entries, k.ram
    ensures k.Intact() && k.live == old(k.live)
    ensures k.Table() == old(k.Table()) && k.heap.Outside() == old(k.heap.Outside())
  {
    ghost var live: Live, m: Memory := k.live, k.Mem();
    var chunk := New4gb(k, flags);
    ghost var m': Memory := k.Mem();
    ghost var dir := Load(m', chunk);
    var i := 0;
    while i < |ops|
      invariant 0 <= i <= |ops|
      invariant k.Intact() && k.heap.Outside() == old(k.heap.Outside())
      invariant NewSpace(live, m, k.live, m', chunk, flags)
      invariant Space(k.live, k.Mem(), chunk) && Load(k.Mem(), chunk) == dir
      invariant MemRun(k.Mem(), dir, ops[i..]) == MemRun(m', dir, ops)
    {
      ApplyRefines(k.live, k.Mem(), chunk, ops[i]);
      var response := Call(k, chunk, ops[i]);
      i := i + 1;
    }
    LifeCycle(live, m, k.live, m', chunk, flags, ops);
    Free4gb(k, chunk);
    EncodingUnique(k.Table(), old(k.Table()), live);
  }
}
