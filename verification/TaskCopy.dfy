/** copy_string_from_task of `src/task/task.c` as a whole. */
module TaskCopy {
  import opened Words
  import opened HeapTable
  import opened Heap
  import opened Ram
  import opened KernelHeap
  import opened PageLists
  import opened Paging
  import opened PageMaps
  import opened Processor
  import opened CopyString

  /** The processor's page directory register, as paging_switch sets it. */
  class Mmu {
    var currentDirectory: Word

    constructor ()
      ensures currentDirectory == 0
    {
      currentDirectory := 0;
    }

    /** paging_switch; kernel_page and task_page come down to it. */
    method Switch(k: Kernel, chunk: Word)
      requires k.Valid()
      modifies this
      ensures currentDirectory == Load(k.Mem(), chunk)
    {
      currentDirectory := k.ram[chunk / 4];
    }
  }

  // ---------------------------------------------------------------- memory, step by step

  /** After paging_map(hold, hold). */
  function Mapped(m1: Memory, tdir: Word, hold: Word): Memory
    requires Aligned(tdir) && Aligned(hold)
  {
    SetEntry(m1, tdir, hold / PAGE_SIZE, Tagged(hold, HOLD_FLAGS))
  }

  /** While it is mapped, the page `hold` is present, writable and open under the task's directory,
      and leads to itself. */
  lemma HoldEntry(live: Live, m1: Memory, task: Word, hold: Word)
    requires Space(live, m1, task) && Aligned(hold)
    ensures var e := Flat(Mapped(m1, Load(m1, task), hold), Load(m1, task))[hold / PAGE_SIZE];
            Frame(e) == hold && OpenEntry(e, true)
  {
    SetEntryFlat(live, m1, task, hold / PAGE_SIZE, Tagged(hold, HOLD_FLAGS));
    TaggedBits(hold, HOLD_FLAGS);
  }

  /** After the strncpy under the task's directory. */
  function Fetched(m1: Memory, tdir: Word, hold: Word, virt: Word, max: int): Memory
    requires Aligned(tdir) && Aligned(hold)
  {
    StrncpyFrom(Mapped(m1, tdir, hold), tdir, hold, virt, max, 0)
  }

  /** After the old entry of `hold` was put back. */
  function Restored(m1: Memory, tdir: Word, hold: Word, virt: Word, max: int): Memory
    requires Aligned(tdir) && Aligned(hold)
  {
    SetEntry(Fetched(m1, tdir, hold, virt, max), tdir, hold / PAGE_SIZE, PageEntry(m1, tdir, hold / PAGE_SIZE))
  }

  /** The kernel's directory translates every address to itself. */
  ghost predicate KernelIdentity(m: Memory, kdir: Word)
    requires Aligned(kdir)
  {
    forall v :: 0 <= v < PAGES ==> Frame(Flat(m, kdir)[v]) == PageStart(v)
  }

  lemma IdentityTranslate(m: Memory, kdir: Word, va: Word)
    requires Aligned(kdir) && KernelIdentity(m, kdir)
    ensures Translate(m, kdir, va) == va
  {
    assert Frame(Flat(m, kdir)[va / PAGE_SIZE]) == PageStart(va / PAGE_SIZE);
  }

  /** Two live spaces without a page in common, and a page that belongs to no allocation. */
  ghost predicate Setting(live: Live, m: Memory, task: Word, kernel: Word, hold: Word) {
    && Space(live, m, task) && Space(live, m, kernel)
    && (forall p :: p in SpacePages(m, task) ==> p !in SpacePages(m, kernel))
    && HeapPage(hold) && Block(hold) !in live
  }

  /** Both page maps are the same in two memories. */
  ghost predicate SameSpaces(live: Live, m: Memory, n: Memory, task: Word, kernel: Word) {
    && Load(n, task) == Load(m, task) && Load(n, kernel) == Load(m, kernel)
    && Aligned(Load(m, task)) && Aligned(Load(m, kernel))
    && Space(live, n, task) && Space(live, n, kernel)
    && SpacePages(n, task) == SpacePages(m, task) && SpacePages(n, kernel) == SpacePages(m, kernel)
    && Flat(n, Load(m, task)) == Flat(m, Load(m, task)) && Flat(n, Load(m, kernel)) == Flat(m, Load(m, kernel))
  }

  lemma ZeroedBoth(live: Live, m: Memory, m1: Memory, task: Word, kernel: Word, hold: Word, size: nat)
    requires Setting(live, m, task, kernel, hold)
    requires size <= PAGE_SIZE && Filled(m, m1, hold, 0, size)
    ensures SameSpaces(live, m, m1, task, kernel) && Setting(live, m1, task, kernel, hold)
  {
    ZeroedSpace(live, m, m1, task, hold, size);
    ZeroedSpace(live, m, m1, kernel, hold, size);
  }

  /** Mapping `hold`, writing its bytes and restoring its entry leaves both page maps alone. */
  lemma RestoredBoth(live: Live, m1: Memory, task: Word, kernel: Word, hold: Word, virt: Word, max: int)
    requires Setting(live, m1, task, kernel, hold) && max < PAGE_SIZE
    ensures SameSpaces(live, m1, Restored(m1, Load(m1, task), hold, virt, max), task, kernel)
    ensures Load(Fetched(m1, Load(m1, task), hold, virt, max), kernel) == Load(m1, kernel)
    ensures OnlyBytes(Mapped(m1, Load(m1, task), hold), Fetched(m1, Load(m1, task), hold, virt, max), hold, Room(max))
  {
    var tdir, v := Load(m1, task), hold / PAGE_SIZE;
    var m2, m3 := Mapped(m1, tdir, hold), Fetched(m1, tdir, hold, virt, max);
    HoldMapped(live, m1, task, hold, max);
    SetRefines(live, m1, task, v, Tagged(hold, HOLD_FLAGS));
    SetLeavesOther(live, m1, task, kernel, v, Tagged(hold, HOLD_FLAGS));
    CopyWrites(live, m2, m2, task, hold, virt, max, hold, 0);
    OnlyBytesSpace(live, m2, m3, task, hold, Room(max));
    HoldApart(live, m2, kernel, hold);
    ClearShorter(SpacePages(m2, kernel), hold, PAGE_SIZE, Room(max));
    OnlyBytesSpace(live, m2, m3, kernel, hold, Room(max));
    SetRefines(live, m3, task, v, PageEntry(m1, tdir, v));
    SetLeavesOther(live, m3, task, kernel, v, PageEntry(m1, tdir, v));
    PutBack(Flat(m1, tdir), v, Tagged(hold, HOLD_FLAGS));
    assert PageEntry(m1, tdir, v) == Flat(m1, tdir)[v];
  }

  lemma PutBack(f: seq<Word>, v: nat, val: Word)
    requires v < |f|
    ensures f[v := val][v := f[v]] == f
  {
  }

  /** The bytes `hold` holds at the end are the task's string. */
  lemma FetchedString(live: Live, m: Memory, m1: Memory, task: Word, kernel: Word, hold: Word, virt: Word,
                      max: int, size: nat)
    requires Setting(live, m, task, kernel, hold) && max < PAGE_SIZE
    requires size <= Room(max) && Filled(m, m1, hold, 0, size)
    requires StringClear(m, Load(m, task), virt, max, hold)
    ensures Load(m1, task) == Load(m, task)
    ensures var tdir := Load(m, task);
            var s := StringAt(m, tdir, virt, max, 0);
            Delivered(Mapped(m1, tdir, hold), Fetched(m1, tdir, hold, virt, max), hold, s, Room(max))
  {
    ZeroedBoth(live, m, m1, task, kernel, hold, size);
    var tdir := Load(m, task);
    var m2 := Mapped(m1, tdir, hold);
    HoldMapped(live, m1, task, hold, max);
    forall i: nat | i <= |StringAt(m, tdir, virt, max, 0)| && i < max - 1
      ensures NthVirtual(m2, tdir, virt, i) == NthVirtual(m, tdir, virt, i)
      ensures Outside(m2, tdir, virt, i, hold, Room(max))
    {
      ClearByteStays(live, m, m1, task, virt, i, hold, size, Room(max));
    }
    SameBytesSameString(m, tdir, virt, m2, tdir, virt, max, 0);
    CopyExact(live, m2, task, hold, virt, max, hold);
  }

  lemma RestoredBytes(live: Live, m1: Memory, task: Word, hold: Word, virt: Word, max: int, j: nat)
    requires Space(live, m1, task) && HeapPage(hold) && Block(hold) !in live && max < PAGE_SIZE && j < PAGE_SIZE
    ensures var tdir := Load(m1, task);
            Nth(Restored(m1, tdir, hold, virt, max), hold, j) == Nth(Fetched(m1, tdir, hold, virt, max), hold, j)
  {
    var tdir, v := Load(m1, task), hold / PAGE_SIZE;
    var m3 := Fetched(m1, tdir, hold, virt, max);
    HoldMapped(live, m1, task, hold, max);
    var m2 := Mapped(m1, tdir, hold);
    CopyWrites(live, m2, m2, task, hold, virt, max, hold, 0);
    OnlyBytesSpace(live, m2, m3, task, hold, Room(max));
    HoldApart(live, m3, task, hold);
    var slot := EntrySlot(m3, tdir, v);
    assert SpacePages(m3, task)[v / ENTRIES + 1] == TableAt(m3, tdir, v / ENTRIES);
    assert !Within(TableAt(m3, tdir, v / ENTRIES), hold, j);
  }

  /** The destination buffer is outside both spaces and outside `hold`. */
  ghost predicate BufferClear(m: Memory, task: Word, kernel: Word, hold: Word, absolute: Word, max: int)
    requires Aligned(Load(m, task)) && Aligned(Load(m, kernel))
  {
    && ClearOf(SpacePages(m, task), absolute, Room(max))
    && ClearOf(SpacePages(m, kernel), absolute, Room(max))
    && Clear(hold, absolute, Room(max))
  }

  /** The second strncpy, from `hold` to the buffer under the kernel's directory. */
  lemma SecondCopy(live: Live, m4: Memory, kernel: Word, hold: Word, absolute: Word, max: int, s: seq<Byte>)
    requires Space(live, m4, kernel) && KernelIdentity(m4, Load(m4, kernel))
    requires HeapPage(hold) && max < PAGE_SIZE && |s| < Room(max)
    requires ClearOf(SpacePages(m4, kernel), absolute, Room(max)) && Clear(hold, absolute, Room(max))
    requires (forall j :: 0 <= j < |s| ==> s[j] != 0 && Nth(m4, hold, j) == s[j]) && Nth(m4, hold, |s|) == 0
    ensures Delivered(m4, StrncpyFrom(m4, Load(m4, kernel), absolute, hold, max, 0), absolute, s, Room(max))
  {
    var kdir := Load(m4, kernel);
    forall i: nat | i < Room(max)
      ensures MapsTo(m4, kdir, absolute, absolute, i)
      ensures Outside(m4, kdir, hold, i, absolute, Room(max))
      ensures NthVirtual(m4, kdir, hold, i) == Nth(m4, hold, i)
    {
      BufferByte(m4, kdir, hold, absolute, Room(max), i);
    }
    StringIs(m4, kdir, hold, max, s, 0);
    CopyExact(live, m4, kernel, absolute, hold, max, absolute);
  }

  lemma BufferByte(m4: Memory, kdir: Word, hold: Word, absolute: Word, room: nat, i: nat)
    requires Aligned(kdir) && KernelIdentity(m4, kdir)
    requires HeapPage(hold) && i < room <= PAGE_SIZE && Clear(hold, absolute, room)
    ensures MapsTo(m4, kdir, absolute, absolute, i)
    ensures Outside(m4, kdir, hold, i, absolute, room)
    ensures NthVirtual(m4, kdir, hold, i) == Nth(m4, hold, i)
  {
    IdentityTranslate(m4, kdir, ToWord(absolute + i));
    IdentityTranslate(m4, kdir, ToWord(hold + i));
    ApartFromBuffer(hold, absolute, room, i);
  }

  lemma ApartFromBuffer(hold: Word, absolute: Word, room: nat, i: nat)
    requires HeapPage(hold) && i < room <= PAGE_SIZE && Clear(hold, absolute, room)
    ensures ToWord(ToWord(hold + i) - absolute) >= room
  {
    var a := ToWord(hold + i);
    var d := ToWord(a - absolute);
    OffsetIs(absolute, a, d);
    OffsetInPage(hold, i);
    assert Within(hold, absolute, d);
  }

  /** A zero-terminated string of bytes is what StringAt reads. */
  lemma {:induction false} StringIs(m: Memory, dir: Word, src: Word, n: int, s: seq<Byte>, i: nat)
    requires Aligned(dir) && i <= |s| < Room(n)
    requires forall j: nat :: j < Room(n) ==> NthVirtual(m, dir, src, j) == Nth(m, src, j)
    requires (forall j :: 0 <= j < |s| ==> s[j] != 0 && Nth(m, src, j) == s[j]) && Nth(m, src, |s|) == 0
    ensures StringAt(m, dir, src, n, i) == s[i..]
    decreases |s| - i
  {
    assert NthVirtual(m, dir, src, i) == Nth(m, src, i);
    if i < |s| {
      StringIs(m, dir, src, n, s, i + 1);
      assert s[i..] == [s[i]] + s[i + 1..];
    }
  }

  // ---------------------------------------------------------------- the theorem

  /** The whole effect on memory, from the moment `hold` was zeroed. */
  function CopyMem(m1: Memory, tdir: Word, kdir: Word, hold: Word, virt: Word, absolute: Word, max: int): Memory
    requires Aligned(tdir) && Aligned(kdir) && Aligned(hold)
  {
    StrncpyFrom(Restored(m1, tdir, hold, virt, max), kdir, absolute, hold, max, 0)
  }

  /** The caller's side of the bargain: kernel and task have separate spaces, the kernel's is the
      identity, and the buffer is outside both spaces and outside `hold`. */
  ghost predicate Proper(live: Live, m: Memory, task: Word, kernel: Word, hold: Word, absolute: Word, max: int) {
    && Setting(live, m, task, kernel, hold) && 0 <= max < PAGE_SIZE
    && KernelIdentity(m, Load(m, kernel))
    && BufferClear(m, task, kernel, hold, absolute, max)
  }

  /** What the second strncpy writes, whatever it reads from `hold`. */
  lemma SecondWrites(live: Live, m4: Memory, kernel: Word, hold: Word, absolute: Word, max: int)
    requires Space(live, m4, kernel) && KernelIdentity(m4, Load(m4, kernel)) && max < PAGE_SIZE
    requires ClearOf(SpacePages(m4, kernel), absolute, Room(max))
    ensures OnlyBytes(m4, StrncpyFrom(m4, Load(m4, kernel), absolute, hold, max, 0), absolute, Room(max))
  {
    var kdir := Load(m4, kernel);
    forall i: nat | i < Room(max)
      ensures MapsTo(m4, kdir, absolute, absolute, i)
    {
      IdentityTranslate(m4, kdir, ToWord(absolute + i));
    }
    CopyWrites(live, m4, m4, kernel, absolute, hold, max, absolute, 0);
  }

  /** Every translation of the task and of the kernel is as it was, whatever string the task
      passes, even one that runs into the page of `hold`. */
  lemma TranslationsKept(live: Live, m: Memory, m1: Memory, task: Word, kernel: Word, hold: Word, virt: Word,
                         absolute: Word, max: int)
    requires Proper(live, m, task, kernel, hold, absolute, max) && Filled(m, m1, hold, 0, max)
    ensures SameSpaces(live, m, CopyMem(m1, Load(m, task), Load(m, kernel), hold, virt, absolute, max), task, kernel)
  {
    var tdir := Load(m, task);
    ZeroedBoth(live, m, m1, task, kernel, hold, max);
    RestoredBoth(live, m1, task, kernel, hold, virt, max);
    var m4 := Restored(m1, tdir, hold, virt, max);
    SecondWrites(live, m4, kernel, hold, absolute, max);
    var m5 := CopyMem(m1, tdir, Load(m, kernel), hold, virt, absolute, max);
    OnlyBytesSpace(live, m4, m5, task, absolute, Room(max));
    OnlyBytesSpace(live, m4, m5, kernel, absolute, Room(max));
  }

  /** Only bytes of `hold` and of the buffer differ. */
  ghost predicate OnlyBuffers(m: Memory, n: Memory, hold: Word, absolute: Word, len: nat) {
    forall a: Word :: ToWord(a - hold) >= len && ToWord(a - absolute) >= len ==> ByteAt(n, a) == ByteAt(m, a)
  }

  /** Up to the put-back of the entry only bytes of `hold` have changed. */
  lemma RestoredMemory(live: Live, m1: Memory, task: Word, kernel: Word, hold: Word, virt: Word, max: int)
    requires Setting(live, m1, task, kernel, hold) && max < PAGE_SIZE
    ensures OnlyBytes(m1, Restored(m1, Load(m1, task), hold, virt, max), hold, Room(max))
  {
    var tdir, v := Load(m1, task), hold / PAGE_SIZE;
    var m2, m3 := Mapped(m1, tdir, hold), Fetched(m1, tdir, hold, virt, max);
    RestoredBoth(live, m1, task, kernel, hold, virt, max);
    HoldMapped(live, m1, task, hold, max);
    OnlyBytesSpace(live, m2, m3, task, hold, Room(max));
    SlotStays(m1, m3, task, v);
    PutBackBytes(m1, m3, EntrySlot(m1, tdir, v), Tagged(hold, HOLD_FLAGS), hold, Room(max));
  }

  lemma SlotStays(m: Memory, n: Memory, chunk: Word, v: nat)
    requires Aligned(Load(m, chunk)) && Load(n, chunk) == Load(m, chunk) && v < PAGES
    requires SpacePages(n, chunk) == SpacePages(m, chunk)
    ensures EntrySlot(n, Load(m, chunk), v) == EntrySlot(m, Load(m, chunk), v)
  {
    assert SpacePages(n, chunk)[v / ENTRIES + 1] == SpacePages(m, chunk)[v / ENTRIES + 1];
  }

  /** A word that is changed for a while and then put back. */
  lemma PutBackBytes(m1: Memory, m3: Memory, slot: nat, val: Word, p: Word, len: nat)
    requires slot < RAM_WORDS && OnlyBytes(m1[slot := val], m3, p, len)
    ensures OnlyBytes(m1, m3[slot := m1[slot]], p, len)
  {
    var m4 := m3[slot := m1[slot]];
    forall a: Word | ToWord(a - p) >= len
      ensures ByteAt(m4, a) == ByteAt(m1, a)
    {
      assert ByteAt(m3, a) == ByteAt(m1[slot := val], a);
    }
  }

  /** After the call every byte outside `hold` and the buffer is as before. */
  lemma OnlyBuffersWritten(live: Live, m: Memory, m1: Memory, task: Word, kernel: Word, hold: Word, virt: Word,
                           absolute: Word, max: int)
    requires Proper(live, m, task, kernel, hold, absolute, max) && Filled(m, m1, hold, 0, max)
    ensures OnlyBuffers(m, CopyMem(m1, Load(m, task), Load(m, kernel), hold, virt, absolute, max),
                        hold, absolute, Room(max))
  {
    var tdir, kdir := Load(m, task), Load(m, kernel);
    ZeroedBoth(live, m, m1, task, kernel, hold, max);
    RestoredBoth(live, m1, task, kernel, hold, virt, max);
    RestoredMemory(live, m1, task, kernel, hold, virt, max);
    var m4 := Restored(m1, tdir, hold, virt, max);
    SecondWrites(live, m4, kernel, hold, absolute, max);
    BytesChain(m, m1, m4, CopyMem(m1, tdir, kdir, hold, virt, absolute, max), hold, absolute, max, Room(max));
  }

  lemma BytesChain(m: Memory, m1: Memory, m4: Memory, m5: Memory, hold: Word, absolute: Word, size: Word, len: nat)
    requires size <= len && Filled(m, m1, hold, 0, size)
    requires OnlyBytes(m1, m4, hold, len) && OnlyBytes(m4, m5, absolute, len)
    ensures OnlyBuffers(m, m5, hold, absolute, len)
  {
    forall a: Word | ToWord(a - hold) >= len && ToWord(a - absolute) >= len
      ensures ByteAt(m5, a) == ByteAt(m, a)
    {
      assert ByteAt(m5, a) == ByteAt(m4, a) == ByteAt(m1, a);
    }
  }

  /** Any further address space whose pages are clear of the buffer keeps its map. */
  lemma OtherSpaceKept(live: Live, m: Memory, n: Memory, hold: Word, absolute: Word, len: nat, other: Word)
    requires Space(live, m, other) && HeapPage(hold) && Block(hold) !in live && len <= PAGE_SIZE
    requires ClearOf(SpacePages(m, other), absolute, len) && OnlyBuffers(m, n, hold, absolute, len)
    ensures Space(live, n, other) && SameMap(m, n, other)
  {
    HoldApart(live, m, other, hold);
    ClearShorter(SpacePages(m, other), hold, PAGE_SIZE, len);
    forall i | 0 <= i < ENTRIES + 2
      ensures SamePage(m, n, SpacePages(m, other)[i])
    {
      OnlyBuffersPage(m, n, hold, absolute, len, SpacePages(m, other)[i]);
    }
    SpaceUnchanged(live, m, n, other);
  }

  lemma OnlyBuffersPage(m: Memory, n: Memory, hold: Word, absolute: Word, len: nat, q: Word)
    requires OnlyBuffers(m, n, hold, absolute, len) && Clear(q, hold, len) && Clear(q, absolute, len)
    ensures SamePage(m, n, q)
  {
    forall a: Word | InPage(q, a / 4)
      ensures ByteAt(n, a) == ByteAt(m, a)
    {
      ClearByte(q, hold, len, a);
      ClearByte(q, absolute, len, a);
    }
    SameBytesPage(m, n, q);
  }

  /** `s` and a terminating zero stand from `p` on. */
  ghost predicate Stands(m: Memory, p: Word, s: seq<Byte>) {
    (forall j: nat :: j < |s| ==> Nth(m, p, j) == s[j]) && Nth(m, p, |s|) == 0
  }

  /** If the string is clear of the page `hold`, the buffer holds the task's string as the task's
      own mapping delivers it, cut at max - 1 and terminated. */
  lemma StringDelivered(live: Live, m: Memory, m1: Memory, task: Word, kernel: Word, hold: Word, virt: Word,
                        absolute: Word, max: int)
    requires Proper(live, m, task, kernel, hold, absolute, max) && Filled(m, m1, hold, 0, max)
    requires StringClear(m, Load(m, task), virt, max, hold)
    ensures Stands(CopyMem(m1, Load(m, task), Load(m, kernel), hold, virt, absolute, max), absolute,
                   StringAt(m, Load(m, task), virt, max, 0))
  {
    var tdir, kdir := Load(m, task), Load(m, kernel);
    var s := StringAt(m, tdir, virt, max, 0);
    ZeroedBoth(live, m, m1, task, kernel, hold, max);
    var m4 := Restored(m1, tdir, hold, virt, max);
    RestoredBoth(live, m1, task, kernel, hold, virt, max);
    FetchedString(live, m, m1, task, kernel, hold, virt, max, max);
    forall j: nat | j <= |s|
      ensures Nth(m4, hold, j) == Nth(Fetched(m1, tdir, hold, virt, max), hold, j)
    {
      RestoredBytes(live, m1, task, hold, virt, max, j);
    }
    SecondCopy(live, m4, kernel, hold, absolute, max, s);
  }

  // ---------------------------------------------------------------- the code

  lemma EndsFreeHasRun(t: seq<Entry>)
    ensures EndsFree(t) ==> HasRun(t, 1)
  {
    if EndsFree(t) {
      assert FreeRun(t, |t| - 1, 1);
    }
  }

  /** The first block kzalloc finds for at most one block is free. */
  lemma HoldIsFree(t: seq<Entry>, live: Live, n: nat)
    requires |t| == HEAP_BLOCKS && Encodes(t, live) && n <= 1 && StartBlock(t, n) >= 0
    ensures var s := StartBlock(t, n);
            s < HEAP_BLOCKS && IsFree(t[s]) && s !in live && (n == 1 ==> HasRun(t, 1))
  {
    var s := StartBlock(t, n);
    StartBlockRange(t, n);
    if n == 1 {
      StartBlockExact(t, 1);
      EndsFreeHasRun(t);
    }
    LiveIntervals(t, live);
    if s in live {
      assert Covers(live, s, s);
    }
  }

  /** kzalloc(max) for max < 4096: nothing, or a page that was not live. */
  method AllocateHold(k: Kernel, max: nat) returns (hold: Word)
    requires k.Intact() && max < PAGE_SIZE
    modifies k`live, k.heap.entries, k.ram
    ensures k.Intact()
    ensures hold == 0 <==> StartBlock(old(k.Table()), BlocksFor(max)) < 0
    ensures hold == 0 ==> k.live == old(k.live) && k.Mem() == old(k.Mem()) && k.Table() == old(k.Table())
    ensures hold != 0 ==>
              && HeapPage(hold) && Block(hold) !in old(k.live)
              && hold == BlockAddress(HEAP_ADDRESS, StartBlock(old(k.Table()), BlocksFor(max)))
              && k.live == (if max == 0 then old(k.live) else old(k.live)[Block(hold) := 1])
              && Filled(old(k.Mem()), k.Mem(), hold, 0, max)
  {
    ghost var t, n := k.Table(), BlocksFor(max);
    if StartBlock(t, n) >= 0 {
      HoldIsFree(t, k.live, n);
      PageAddress(StartBlock(t, n));
    }
    hold := k.Kzalloc(max);
  }

  /** copy_string_from_task once `hold` is allocated.  paging_set of the old entry cannot fail,
      because `hold` is page-aligned. */
  method CopyThrough(k: Kernel, mmu: Mmu, task: Word, kernel: Word, hold: Word, virt: Word, absolute: Word, max: nat,
                     ghost live: Live)
    requires k.Valid() && Setting(live, k.Mem(), task, kernel, hold) && max < PAGE_SIZE
    modifies k.ram, mmu
    ensures mmu.currentDirectory == Load(old(k.Mem()), kernel)
    ensures k.Mem() == CopyMem(old(k.Mem()), Load(old(k.Mem()), task), Load(old(k.Mem()), kernel),
                               hold, virt, absolute, max)
  {
    ghost var m1: Memory := k.Mem();
    HoldMapped(live, m1, task, hold, max);
    RestoredBoth(live, m1, task, kernel, hold, virt, max);
    var taskDir := k.ram[task / 4];
    var prev := ReadPage(k, taskDir, hold);
    var response := PagingMap(k, task, hold, hold, HOLD_FLAGS);
    mmu.Switch(k, task);
    Strncpy(k, mmu.currentDirectory, hold, virt, max);
    mmu.Switch(k, kernel);
    response := PagingSet(k, taskDir, hold, prev);
    assert response == 0;
    Strncpy(k, mmu.currentDirectory, absolute, hold, max);
  }

  /** What a successful call promises.  Translations and other memory do not depend on the
      string; the delivered string does. */
  ghost predicate CopyPromise(live: Live, m: Memory, n: Memory, task: Word, kernel: Word, hold: Word, virt: Word,
                         absolute: Word, max: nat) {
    Proper(live, m, task, kernel, hold, absolute, max) ==>
      && SameSpaces(live, m, n, task, kernel)
      && OnlyBuffers(m, n, hold, absolute, Room(max))
      && (StringClear(m, Load(m, task), virt, max, hold) ==>
            Stands(n, absolute, StringAt(m, Load(m, task), virt, max, 0)))
  }

  /** The whole call, from the zeroing of `hold` on. */
  lemma CopyKeepsPromise(live: Live, m: Memory, m1: Memory, task: Word, kernel: Word, hold: Word, virt: Word,
                         absolute: Word, max: nat)
    requires Setting(live, m, task, kernel, hold) && max < PAGE_SIZE && Filled(m, m1, hold, 0, max)
    ensures Setting(live, m1, task, kernel, hold)
    ensures Load(m1, task) == Load(m, task) && Load(m1, kernel) == Load(m, kernel)
    ensures var m5 := CopyMem(m1, Load(m, task), Load(m, kernel), hold, virt, absolute, max);
            CopyPromise(live, m, m5, task, kernel, hold, virt, absolute, max)
  {
    ZeroedBoth(live, m, m1, task, kernel, hold, max);
    if Proper(live, m, task, kernel, hold, absolute, max) {
      TranslationsKept(live, m, m1, task, kernel, hold, virt, absolute, max);
      OnlyBuffersWritten(live, m, m1, task, kernel, hold, virt, absolute, max);
      if StringClear(m, Load(m, task), virt, max, hold) {
        StringDelivered(live, m, m1, task, kernel, hold, virt, absolute, max);
      }
    }
  }

  /** The address kzalloc will return for `max` bytes, when it can. */
  ghost function HoldAddress(t: seq<Entry>, max: nat): Word
    requires max < PAGE_SIZE
  {
    BlockAddress(HEAP_ADDRESS, StartBlock(t, BlocksFor(max)))
  }

  /** The rest of copy_string_from_task, after the zeroing of `hold`. */
  method ServeCopy(k: Kernel, mmu: Mmu, task: Word, kernel: Word, hold: Word, virt: Word, absolute: Word, max: nat,
                   ghost live: Live, ghost m: Memory)
    requires k.Valid() && Setting(live, m, task, kernel, hold) && max < PAGE_SIZE && Filled(m, k.Mem(), hold, 0, max)
    modifies k.ram, mmu
    ensures mmu.currentDirectory == Load(m, kernel)
    ensures CopyPromise(live, m, k.Mem(), task, kernel, hold, virt, absolute, max)
  {
    CopyKeepsPromise(live, m, k.Mem(), task, kernel, hold, virt, absolute, max);
    CopyThrough(k, mmu, task, kernel, hold, virt, absolute, max, live);
  }

  /** copy_string_from_task.  The page `hold` is not given back on success. */
  method CopyStringFromTask(k: Kernel, mmu: Mmu, task: Word, kernel: Word, virt: Word, absolute: Word, max: nat)
    returns (response: int)
    requires k.Intact() && Space(k.live, k.Mem(), task) && Space(k.live, k.Mem(), kernel)
    requires forall p :: p in SpacePages(k.Mem(), task) ==> p !in SpacePages(k.Mem(), kernel)
    modifies k`live, k.heap.entries, k.ram, mmu
    ensures k.Intact()
    ensures response == if max >= PAGE_SIZE then INVALID_ARGUMENT
                        else if StartBlock(old(k.Table()), BlocksFor(max)) < 0 then NO_MEMORY else 0
    ensures response != 0 ==> k.Mem() == old(k.Mem()) && k.live == old(k.live)
    ensures response == 0 ==>
              && mmu.currentDirectory == Load(old(k.Mem()), kernel)
              && k.live == (if max == 0 then old(k.live) else old(k.live)[Block(HoldAddress(old(k.Table()), max)) := 1])
              && CopyPromise(old(k.live), old(k.Mem()), k.Mem(), task, kernel, HoldAddress(old(k.Table()), max),
                        virt, absolute, max)
  {
    if max >= PAGE_SIZE {
      return INVALID_ARGUMENT;
    }
    var hold := AllocateHold(k, max);
    if hold == 0 {
      return NO_MEMORY;
    }
    ServeCopy(k, mmu, task, kernel, hold, virt, absolute, max, old(k.live), old(k.Mem()));
    response := 0;
  }
}
