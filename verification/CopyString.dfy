/** copy_string_from_task of `src/task/task.c`: a kernel page is mapped into the task's address
    space for the time of one strncpy, and unmapped again. */
module CopyString {
  import opened Words
  import opened HeapTable
  import opened Ram
  import opened KernelHeap
  import opened PageLists
  import opened Paging
  import opened PageMaps

  // ---------------------------------------------------------------- memory through a directory

  function LoadVirtual(m: Memory, dir: Word, va: Word): Byte
    requires Aligned(dir)
  {
    ByteAt(m, Translate(m, dir, va))
  }

  function StoreVirtual(m: Memory, dir: Word, va: Word, b: Byte): Memory
    requires Aligned(dir)
  {
    StoreByte(m, Translate(m, dir, va), b)
  }

  /** Byte `i` after a virtual address. */
  function NthVirtual(m: Memory, dir: Word, va: Word, i: nat): Byte
    requires Aligned(dir)
  {
    LoadVirtual(m, dir, ToWord(va + i))
  }

  /** The rest of strncpy (`src/string/string.c`) from index `i`: copy up to a zero byte or index
      n - 1, then store the terminator. */
  function StrncpyFrom(m: Memory, dir: Word, dest: Word, src: Word, n: int, i: nat): Memory
    requires Aligned(dir)
    decreases n - i
  {
    var c := NthVirtual(m, dir, src, i);
    if i < n - 1 && c != 0 then
      StrncpyFrom(StoreVirtual(m, dir, ToWord(dest + i), c), dir, dest, src, n, i + 1)
    else
      StoreVirtual(m, dir, ToWord(dest + i), 0)
  }

  /** The string at a virtual address from index `i` on, cut before index n - 1. */
  function StringAt(m: Memory, dir: Word, src: Word, n: int, i: nat): (s: seq<Byte>)
    requires Aligned(dir)
    ensures s == [] || i + |s| < n
    ensures forall j :: 0 <= j < |s| ==> s[j] != 0
    decreases n - i
  {
    var c := NthVirtual(m, dir, src, i);
    if i < n - 1 && c != 0 then [c] + StringAt(m, dir, src, n, i + 1) else []
  }

  /** The string is the longest one: its bytes are those read through the directory, and it ends
      before a zero byte or at index n - 1. */
  lemma {:induction false} StringExact(m: Memory, dir: Word, src: Word, n: int, i: nat)
    requires Aligned(dir)
    ensures var s := StringAt(m, dir, src, n, i);
            && (forall j: nat :: i <= j < i + |s| ==> s[j - i] == NthVirtual(m, dir, src, j))
            && (i + |s| >= n - 1 || NthVirtual(m, dir, src, i + |s|) == 0)
    decreases n - i
  {
    if i < n - 1 && NthVirtual(m, dir, src, i) != 0 {
      StringExact(m, dir, src, n, i + 1);
      StringShift(m, dir, src, n, i);
    }
  }

  lemma StringShift(m: Memory, dir: Word, src: Word, n: int, i: nat)
    requires Aligned(dir) && i < n - 1 && NthVirtual(m, dir, src, i) != 0
    ensures var s, t := StringAt(m, dir, src, n, i), StringAt(m, dir, src, n, i + 1);
            |s| == |t| + 1 && s[0] == NthVirtual(m, dir, src, i) && forall j :: 0 < j < |s| ==> s[j] == t[j - 1]
  {
  }

  /** strncpy, run under the page directory `dir`. */
  method Strncpy(k: Kernel, dir: Word, dest: Word, src: Word, n: int)
    requires k.Valid() && Aligned(dir)
    modifies k.ram
    ensures k.Mem() == StrncpyFrom(old(k.Mem()), dir, dest, src, n, 0)
  {
    var i := StrncpyBytes(k, dir, dest, src, n);
    StrncpyEnd(k, dir, dest, src, n, i);
  }

  /** The loop of strncpy. */
  method StrncpyBytes(k: Kernel, dir: Word, dest: Word, src: Word, n: int) returns (i: nat)
    requires k.Valid() && Aligned(dir)
    modifies k.ram
    ensures StringEnds(k.Mem(), dir, src, n, i)
    ensures StrncpyFrom(k.Mem(), dir, dest, src, n, i) == StrncpyFrom(old(k.Mem()), dir, dest, src, n, 0)
  {
    ghost var copied := StrncpyFrom(k.Mem(), dir, dest, src, n, 0);
    i := 0;
    while i < n - 1
      invariant StrncpyFrom(k.Mem(), dir, dest, src, n, i) == copied
      decreases n - i
    {
      var c := StrncpyRound(k, dir, dest, src, n, i);
      if c == 0 {
        break;
      }
      i := i + 1;
    }
  }

  predicate StringEnds(m: Memory, dir: Word, src: Word, n: int, i: nat)
    requires Aligned(dir)
  {
    i >= n - 1 || NthVirtual(m, dir, src, i) == 0
  }

  /** One round of strncpy: the byte read is stored unless it is the terminator. */
  method StrncpyRound(k: Kernel, dir: Word, dest: Word, src: Word, n: int, i: nat) returns (c: Byte)
    requires k.Valid() && Aligned(dir) && i < n - 1
    modifies k.ram
    ensures c == 0 ==> k.Mem() == old(k.Mem()) && StringEnds(k.Mem(), dir, src, n, i)
    ensures c != 0 ==>
              StrncpyFrom(old(k.Mem()), dir, dest, src, n, i) == StrncpyFrom(k.Mem(), dir, dest, src, n, i + 1)
  {
    c := ReadVirtual(k, dir, ToWord(src + i));
    if c != 0 {
      StrncpyUnfold(k.Mem(), dir, dest, src, n, i);
      WriteVirtual(k, dir, ToWord(dest + i), c);
    }
  }

  /** The terminator of strncpy. */
  method StrncpyEnd(k: Kernel, dir: Word, dest: Word, src: Word, n: int, i: nat)
    requires k.Valid() && Aligned(dir) && StringEnds(k.Mem(), dir, src, n, i)
    modifies k.ram
    ensures k.Mem() == StrncpyFrom(old(k.Mem()), dir, dest, src, n, i)
  {
    StrncpyUnfold(k.Mem(), dir, dest, src, n, i);
    WriteVirtual(k, dir, ToWord(dest + i), 0);
  }

  lemma StrncpyUnfold(m: Memory, dir: Word, dest: Word, src: Word, n: int, i: nat)
    requires Aligned(dir)
    ensures var c := LoadVirtual(m, dir, ToWord(src + i));
            StrncpyFrom(m, dir, dest, src, n, i) ==
              if i < n - 1 && c != 0 then
                StrncpyFrom(StoreVirtual(m, dir, ToWord(dest + i), c), dir, dest, src, n, i + 1)
              else StoreVirtual(m, dir, ToWord(dest + i), 0)
  {
  }

  /** The processor's walk through the two levels of `dir`. */
  method PhysicalOf(k: Kernel, dir: Word, va: Word) returns (pa: Word)
    requires k.Valid() && Aligned(dir)
    ensures pa == Translate(k.Mem(), dir, va)
  {
    var table := Frame(k.ram[dir / 4 + va / PAGE_SIZE / ENTRIES]);
    pa := Frame(k.ram[table / 4 + va / PAGE_SIZE % ENTRIES]) + va % PAGE_SIZE;
  }

  /** A byte read by the processor under `dir`. */
  method ReadVirtual(k: Kernel, dir: Word, va: Word) returns (b: Byte)
    requires k.Valid() && Aligned(dir)
    ensures b == LoadVirtual(k.Mem(), dir, va)
  {
    var pa := PhysicalOf(k, dir, va);
    b := ByteOf(k.ram[pa / 4], pa % 4);
  }

  /** A byte written by the processor under `dir`. */
  method WriteVirtual(k: Kernel, dir: Word, va: Word, b: Byte)
    requires k.Valid() && Aligned(dir)
    modifies k.ram
    ensures k.Mem() == StoreVirtual(old(k.Mem()), dir, va, b)
  {
    var pa := PhysicalOf(k, dir, va);
    k.ram[pa / 4] := SetByte(k.ram[pa / 4], pa % 4, b);
  }

  // ---------------------------------------------------------------- what a copy changes

  /** Bytes outside the pages of a space do not affect it. */
  lemma OnlyBytesSpace(live: Live, m: Memory, n: Memory, chunk: Word, p: Word, len: nat)
    requires Space(live, m, chunk) && OnlyBytes(m, n, p, len)
    requires ClearOf(SpacePages(m, chunk), p, len)
    ensures Load(n, chunk) == Load(m, chunk) && SpacePages(n, chunk) == SpacePages(m, chunk)
    ensures Space(live, n, chunk) && Flat(n, Load(m, chunk)) == Flat(m, Load(m, chunk))
  {
    forall i | 0 <= i < ENTRIES + 2
      ensures SamePage(m, n, SpacePages(m, chunk)[i])
    {
      OnlyBytesPage(m, n, p, len, SpacePages(m, chunk)[i]);
    }
    SpaceUnchanged(live, m, n, chunk);
  }

  lemma SameFlatTranslate(m: Memory, n: Memory, dir: Word, va: Word)
    requires Aligned(dir) && Flat(n, dir)[va / PAGE_SIZE] == Flat(m, dir)[va / PAGE_SIZE]
    ensures Translate(n, dir, va) == Translate(m, dir, va)
  {
  }

  // ---------------------------------------------------------------- strncpy is exact

  /** The bytes strncpy(dest, src, n) may write: one at least. */
  function Room(n: int): nat {
    if n < 1 then 1 else n
  }

  /** Index `i` of `dest` is mapped to the byte `i` after `p`. */
  predicate MapsTo(m: Memory, dir: Word, dest: Word, p: Word, i: nat)
    requires Aligned(dir)
  {
    Translate(m, dir, ToWord(dest + i)) == ToWord(p + i)
  }

  /** Byte `i` of the source is none of the `len` bytes from `p` on. */
  predicate Outside(m: Memory, dir: Word, src: Word, i: nat, p: Word, len: nat)
    requires Aligned(dir)
  {
    ToWord(Translate(m, dir, ToWord(src + i)) - p) >= len
  }

  /** A copy that cannot disturb itself: the destination is mapped to the bytes from `p` on,
      these are outside the pages of the space, and none of them is read as source. */
  ghost predicate CopySafe(live: Live, m: Memory, chunk: Word, dest: Word, src: Word, n: int, p: Word) {
    && Space(live, m, chunk) && n < WORD_LIMIT
    && (forall i: nat :: i < Room(n) ==> MapsTo(m, Load(m, chunk), dest, p, i))
    && ClearOf(SpacePages(m, chunk), p, Room(n))
    && (forall i: nat :: i <= |StringAt(m, Load(m, chunk), src, n, 0)| && i < n - 1 ==>
          Outside(m, Load(m, chunk), src, i, p, Room(n)))
  }

  /** `s` and a terminating zero stand from `p` on, and only bytes of the room have changed. */
  ghost predicate Delivered(m: Memory, m': Memory, p: Word, s: seq<Byte>, len: nat) {
    && (forall j: nat :: j < |s| ==> Nth(m', p, j) == s[j])
    && Nth(m', p, |s|) == 0
    && OnlyBytes(m, m', p, len)
  }

  /** While only bytes of the destination have changed, the processor translates as before and
      reads the same source byte. */
  lemma SourceStays(live: Live, m: Memory, m': Memory, chunk: Word, dest: Word, src: Word, n: int, p: Word, i: nat)
    requires CopySafe(live, m, chunk, dest, src, n, p) && OnlyBytes(m, m', p, Room(n))
    requires i < Room(n) && i <= |StringAt(m, Load(m, chunk), src, n, 0)|
    ensures MapsTo(m', Load(m, chunk), dest, p, i)
    ensures i < n - 1 ==> NthVirtual(m', Load(m, chunk), src, i) == NthVirtual(m, Load(m, chunk), src, i)
  {
    var dir := Load(m, chunk);
    OnlyBytesSpace(live, m, m', chunk, p, Room(n));
    SameFlatTranslate(m, m', dir, ToWord(dest + i));
    assert MapsTo(m, dir, dest, p, i);
    if i < n - 1 {
      assert Outside(m, dir, src, i, p, Room(n));
      OutsideStays(m, m', dir, src, i, p, Room(n));
    }
  }

  /** The destination stays mapped to the same bytes. */
  lemma DestStays(live: Live, m: Memory, m': Memory, chunk: Word, dest: Word, p: Word, len: nat, i: nat)
    requires Space(live, m, chunk) && ClearOf(SpacePages(m, chunk), p, len) && OnlyBytes(m, m', p, len)
    requires MapsTo(m, Load(m, chunk), dest, p, i)
    ensures MapsTo(m', Load(m, chunk), dest, p, i)
  {
    OnlyBytesSpace(live, m, m', chunk, p, len);
    SameFlatTranslate(m, m', Load(m, chunk), ToWord(dest + i));
  }

  /** A byte outside the written ones reads the same. */
  lemma OutsideStays(m: Memory, m': Memory, dir: Word, src: Word, i: nat, p: Word, len: nat)
    requires Aligned(dir) && Flat(m', dir) == Flat(m, dir)
    requires Outside(m, dir, src, i, p, len) && OnlyBytes(m, m', p, len)
    ensures NthVirtual(m', dir, src, i) == NthVirtual(m, dir, src, i)
  {
    SameFlatTranslate(m, m', dir, ToWord(src + i));
  }

  /** The first `i` bytes of `s` stand from `p` on, and only bytes of the room have changed. */
  ghost predicate SoFar(m: Memory, m': Memory, p: Word, s: seq<Byte>, i: nat, len: nat) {
    && i <= |s| < len < WORD_LIMIT
    && (forall j: nat :: j < i ==> Nth(m', p, j) == s[j])
    && OnlyBytes(m, m', p, len)
  }

  /** Storing a byte behind the first `i` keeps them. */
  lemma StoreAt(m: Memory, m': Memory, p: Word, s: seq<Byte>, i: nat, b: Byte, len: nat)
    requires SoFar(m, m', p, s, i, len)
    ensures var n := StoreByte(m', ToWord(p + i), b);
            SoFar(m, n, p, s, i, len) && Nth(n, p, i) == b
  {
    StoreOnlyBytes(m, m', p, i, b, len);
    StoreNth(m', p, i, b, i);
    forall j: nat | j < i
      ensures Nth(StoreByte(m', ToWord(p + i), b), p, j) == s[j]
    {
      StoreNth(m', p, i, b, j);
    }
  }

  /** `s` is the source string, and its bytes from `i` on are still to be read. */
  ghost predicate Reading(m: Memory, dir: Word, src: Word, n: int, s: seq<Byte>, i: nat)
    requires Aligned(dir)
  {
    s == StringAt(m, dir, src, n, 0) && i <= |s| && StringAt(m, dir, src, n, i) == s[i..]
  }

  lemma StringUnfold(m: Memory, dir: Word, src: Word, n: int, s: seq<Byte>, i: nat)
    requires Aligned(dir) && Reading(m, dir, src, n, s, i)
    ensures i < |s| <==> i < n - 1 && NthVirtual(m, dir, src, i) != 0
    ensures i < |s| ==> s[i] == NthVirtual(m, dir, src, i) && Reading(m, dir, src, n, s, i + 1)
  {
    if i < |s| {
      assert s[i..] == [s[i]] + s[i + 1..];
    }
  }

  /** The code sees the end of the string where it was, and its bytes as they were. */
  lemma SourceAgrees(live: Live, m: Memory, m': Memory, chunk: Word, dest: Word, src: Word, n: int, p: Word,
                     s: seq<Byte>, i: nat)
    requires CopySafe(live, m, chunk, dest, src, n, p)
    requires Reading(m, Load(m, chunk), src, n, s, i) && SoFar(m, m', p, s, i, Room(n))
    ensures var dir := Load(m, chunk);
            && MapsTo(m', dir, dest, p, i)
            && (StringEnds(m', dir, src, n, i) <==> i == |s|)
            && (i < |s| ==> NthVirtual(m', dir, src, i) == s[i] && Reading(m, dir, src, n, s, i + 1))
  {
    SourceStays(live, m, m', chunk, dest, src, n, p, i);
    StringUnfold(m, Load(m, chunk), src, n, s, i);
  }

  lemma UnfoldMore(m: Memory, dir: Word, dest: Word, src: Word, n: int, p: Word, i: nat, c: Byte)
    requires Aligned(dir) && !StringEnds(m, dir, src, n, i) && MapsTo(m, dir, dest, p, i)
    requires c == NthVirtual(m, dir, src, i)
    ensures StrncpyFrom(m, dir, dest, src, n, i)
         == StrncpyFrom(StoreByte(m, ToWord(p + i), c), dir, dest, src, n, i + 1)
  {
  }

  lemma UnfoldEnd(m: Memory, dir: Word, dest: Word, src: Word, n: int, p: Word, i: nat)
    requires Aligned(dir) && StringEnds(m, dir, src, n, i) && MapsTo(m, dir, dest, p, i)
    ensures StrncpyFrom(m, dir, dest, src, n, i) == StoreByte(m, ToWord(p + i), 0)
  {
  }

  lemma {:induction false} CopyFrom(live: Live, m: Memory, m': Memory, chunk: Word, dest: Word, src: Word, n: int,
                                    p: Word, s: seq<Byte>, i: nat)
    requires CopySafe(live, m, chunk, dest, src, n, p)
    requires Reading(m, Load(m, chunk), src, n, s, i) && SoFar(m, m', p, s, i, Room(n))
    ensures Delivered(m, StrncpyFrom(m', Load(m, chunk), dest, src, n, i), p, s, Room(n))
    decreases |s| - i
  {
    SourceAgrees(live, m, m', chunk, dest, src, n, p, s, i);
    if i < |s| {
      UnfoldMore(m', Load(m, chunk), dest, src, n, p, i, s[i]);
      StoreAt(m, m', p, s, i, s[i], Room(n));
      CopyFrom(live, m, StoreByte(m', ToWord(p + i), s[i]), chunk, dest, src, n, p, s, i + 1);
    } else {
      UnfoldEnd(m', Load(m, chunk), dest, src, n, p, i);
      StoreAt(m, m', p, s, i, 0, Room(n));
    }
  }

  /** strncpy delivers the string as it stood at the source address when it was called. */
  lemma CopyExact(live: Live, m: Memory, chunk: Word, dest: Word, src: Word, n: int, p: Word)
    requires CopySafe(live, m, chunk, dest, src, n, p)
    ensures var dir := Load(m, chunk);
            Delivered(m, StrncpyFrom(m, dir, dest, src, n, 0), p, StringAt(m, dir, src, n, 0), Room(n))
  {
    var s := StringAt(m, Load(m, chunk), src, n, 0);
    assert s[0..] == s;
    CopyFrom(live, m, m, chunk, dest, src, n, p, s, 0);
  }

  /** One round, as far as it concerns what is written. */
  lemma WriteStep(live: Live, m: Memory, m': Memory, chunk: Word, dest: Word, src: Word, n: int, p: Word, i: nat)
    requires Space(live, m, chunk) && i < Room(n) < WORD_LIMIT && MapsTo(m, Load(m, chunk), dest, p, i)
    requires ClearOf(SpacePages(m, chunk), p, Room(n)) && OnlyBytes(m, m', p, Room(n))
    ensures var dir := Load(m, chunk);
            var next := StoreByte(m', ToWord(p + i), NthVirtual(m', dir, src, i));
            if StringEnds(m', dir, src, n, i) then OnlyBytes(m, StrncpyFrom(m', dir, dest, src, n, i), p, Room(n))
            else
              && OnlyBytes(m, next, p, Room(n))
              && StrncpyFrom(m', dir, dest, src, n, i) == StrncpyFrom(next, dir, dest, src, n, i + 1)
  {
    var dir := Load(m, chunk);
    DestStays(live, m, m', chunk, dest, p, Room(n), i);
    if StringEnds(m', dir, src, n, i) {
      UnfoldEnd(m', dir, dest, src, n, p, i);
      StoreOnlyBytes(m, m', p, i, 0, Room(n));
    } else {
      var c := NthVirtual(m', dir, src, i);
      UnfoldMore(m', dir, dest, src, n, p, i, c);
      StoreOnlyBytes(m, m', p, i, c, Room(n));
    }
  }

  /** What strncpy writes, whatever it reads. */
  lemma {:induction false} CopyWrites(live: Live, m: Memory, m': Memory, chunk: Word, dest: Word, src: Word,
                                      n: int, p: Word, i: nat)
    requires Space(live, m, chunk) && n < WORD_LIMIT && i < Room(n)
    requires forall j: nat :: j < Room(n) ==> MapsTo(m, Load(m, chunk), dest, p, j)
    requires ClearOf(SpacePages(m, chunk), p, Room(n)) && OnlyBytes(m, m', p, Room(n))
    ensures OnlyBytes(m, StrncpyFrom(m', Load(m, chunk), dest, src, n, i), p, Room(n))
    decreases n - i
  {
    WriteStep(live, m, m', chunk, dest, src, n, p, i);
    if !StringEnds(m', Load(m, chunk), src, n, i) {
      var next := StoreByte(m', ToWord(p + i), NthVirtual(m', Load(m, chunk), src, i));
      CopyWrites(live, m, next, chunk, dest, src, n, p, i + 1);
    }
  }

  lemma {:induction false} SameBytesSameString(m: Memory, dir: Word, src: Word, m': Memory, dir': Word,
                                               src': Word, n: int, i: nat)
    requires Aligned(dir) && Aligned(dir')
    requires forall j: nat :: i <= j <= i + |StringAt(m, dir, src, n, i)| && j < n - 1 ==>
               NthVirtual(m', dir', src', j) == NthVirtual(m, dir, src, j)
    ensures StringAt(m', dir', src', n, i) == StringAt(m, dir, src, n, i)
    decreases n - i
  {
    if i < n - 1 {
      assert NthVirtual(m', dir', src', i) == NthVirtual(m, dir, src, i);
      if NthVirtual(m, dir, src, i) != 0 {
        SameBytesSameString(m, dir, src, m', dir', src', n, i + 1);
      }
    }
  }

  // ---------------------------------------------------------------- the temporary mapping

  const HOLD_FLAGS: Flags := 7

  /** A live page and a page that is not live have no byte in common. */
  lemma NotLiveApart(live: Live, p: Word, hold: Word)
    requires LivePage(live, p) && HeapPage(hold) && Block(hold) !in live
    ensures p != hold && Clear(p, hold, PAGE_SIZE)
  {
    forall i: nat | i < PAGE_SIZE
      ensures !Within(p, hold, i)
    {
      OffsetInPage(hold, i);
      if Within(p, hold, i) {
        PagesApart(p, hold, (hold + i) / 4);
      }
    }
  }

  /** A page that is not a live allocation is no page of a live space. */
  lemma HoldApart(live: Live, m: Memory, chunk: Word, hold: Word)
    requires Space(live, m, chunk) && HeapPage(hold) && Block(hold) !in live
    ensures hold !in SpacePages(m, chunk)
    ensures ClearOf(SpacePages(m, chunk), hold, PAGE_SIZE)
  {
    var pages := SpacePages(m, chunk);
    forall j | 0 <= j < |pages|
      ensures pages[j] != hold && Clear(pages[j], hold, PAGE_SIZE)
    {
      NotLiveApart(live, pages[j], hold);
    }
  }

  lemma ClearShorter(pages: seq<Word>, p: Word, len: nat, len': nat)
    requires ClearOf(pages, p, len) && len' <= len
    ensures ClearOf(pages, p, len')
  {
  }

  /** The space after the fresh page `hold` was zeroed. */
  lemma ZeroedSpace(live: Live, m: Memory, m1: Memory, chunk: Word, hold: Word, size: nat)
    requires Space(live, m, chunk) && HeapPage(hold) && Block(hold) !in live
    requires size <= PAGE_SIZE && Filled(m, m1, hold, 0, size)
    ensures Load(m1, chunk) == Load(m, chunk) && SpacePages(m1, chunk) == SpacePages(m, chunk)
    ensures Space(live, m1, chunk) && Flat(m1, Load(m, chunk)) == Flat(m, Load(m, chunk))
  {
    HoldApart(live, m, chunk, hold);
    ClearShorter(SpacePages(m, chunk), hold, PAGE_SIZE, size);
    OnlyBytesSpace(live, m, m1, chunk, hold, size);
  }

  /** Another space after one entry was set in this one. */
  lemma SetLeavesOther(live: Live, m: Memory, chunk: Word, other: Word, v: nat, val: Word)
    requires Space(live, m, chunk) && Space(live, m, other) && v < PAGES
    requires forall p :: p in SpacePages(m, chunk) ==> p !in SpacePages(m, other)
    ensures var n := SetEntry(m, Load(m, chunk), v, val);
            && Load(n, other) == Load(m, other) && SpacePages(n, other) == SpacePages(m, other)
            && Space(live, n, other) && Flat(n, Load(m, other)) == Flat(m, Load(m, other))
  {
    var n := SetEntry(m, Load(m, chunk), v, val);
    SetRefines(live, m, chunk, v, val);
    forall i | 0 <= i < ENTRIES + 2
      ensures SamePage(m, n, SpacePages(m, other)[i])
    {
      ConfinedPage(live, m, n, chunk, SpacePages(m, other)[i]);
    }
    SpaceUnchanged(live, m, n, other);
  }

  lemma HoldByte(hold: Word, j: nat)
    requires HeapPage(hold) && j < PAGE_SIZE
    ensures ToWord(hold + j) == hold + j && (hold + j) / PAGE_SIZE == hold / PAGE_SIZE
    ensures (hold + j) % PAGE_SIZE == j
  {
  }

  /** While `hold` is mapped onto itself, strncpy to it writes only its bytes. */
  lemma HoldMapped(live: Live, m1: Memory, chunk: Word, hold: Word, n: int)
    requires Space(live, m1, chunk) && HeapPage(hold) && Block(hold) !in live && n < PAGE_SIZE
    ensures var m2 := SetEntry(m1, Load(m1, chunk), hold / PAGE_SIZE, Tagged(hold, HOLD_FLAGS));
            && Space(live, m2, chunk) && Load(m2, chunk) == Load(m1, chunk)
            && SpacePages(m2, chunk) == SpacePages(m1, chunk)
            && (forall j: nat :: j < Room(n) ==> MapsTo(m2, Load(m2, chunk), hold, hold, j))
            && ClearOf(SpacePages(m2, chunk), hold, Room(n))
  {
    var dir := Load(m1, chunk);
    var m2 := SetEntry(m1, dir, hold / PAGE_SIZE, Tagged(hold, HOLD_FLAGS));
    SetRefines(live, m1, chunk, hold / PAGE_SIZE, Tagged(hold, HOLD_FLAGS));
    HoldApart(live, m2, chunk, hold);
    ClearShorter(SpacePages(m2, chunk), hold, PAGE_SIZE, Room(n));
    forall j: nat | j < Room(n)
      ensures MapsTo(m2, dir, hold, hold, j)
    {
      HoldByte(hold, j);
      assert Flat(m2, dir)[hold / PAGE_SIZE] == Tagged(hold, HOLD_FLAGS);
    }
  }

  /** Byte `i` of the string is read through another page than that of `hold`, and is stored
      neither in the bytes of `hold` nor in the table word that is changed for a while. */
  predicate ByteClear(m: Memory, dir: Word, virt: Word, i: nat, hold: Word, len: nat)
    requires Aligned(dir)
  {
    var va := ToWord(virt + i);
    var pa := Translate(m, dir, va);
    && va / PAGE_SIZE != hold / PAGE_SIZE
    && ToWord(pa - hold) >= len
    && pa / 4 != EntrySlot(m, dir, hold / PAGE_SIZE)
  }

  /** The bytes strncpy will read are all clear of `hold`. */
  ghost predicate StringClear(m: Memory, dir: Word, virt: Word, max: int, hold: Word)
    requires Aligned(dir)
  {
    forall i: nat :: i <= |StringAt(m, dir, virt, max, 0)| && i < max - 1 ==>
      ByteClear(m, dir, virt, i, hold, Room(max))
  }

  /** A clear byte reads the same after `hold` was zeroed and mapped. */
  lemma ClearByteStays(live: Live, m: Memory, m1: Memory, chunk: Word, virt: Word, i: nat, hold: Word,
                       size: nat, len: nat)
    requires Space(live, m, chunk) && HeapPage(hold) && Block(hold) !in live
    requires size <= len && size <= PAGE_SIZE && Filled(m, m1, hold, 0, size)
    requires ByteClear(m, Load(m, chunk), virt, i, hold, len)
    ensures Aligned(Load(m1, chunk))
    ensures var dir := Load(m, chunk);
            var m2 := SetEntry(m1, dir, hold / PAGE_SIZE, Tagged(hold, HOLD_FLAGS));
            && NthVirtual(m2, dir, virt, i) == NthVirtual(m, dir, virt, i)
            && Outside(m2, dir, virt, i, hold, len)
  {
    var dir, va := Load(m, chunk), ToWord(virt + i);
    ZeroedSpace(live, m, m1, chunk, hold, size);
    var m2 := SetEntry(m1, dir, hold / PAGE_SIZE, Tagged(hold, HOLD_FLAGS));
    SetRefines(live, m1, chunk, hold / PAGE_SIZE, Tagged(hold, HOLD_FLAGS));
    assert Flat(m2, dir)[va / PAGE_SIZE] == Flat(m, dir)[va / PAGE_SIZE];
    SameFlatTranslate(m, m2, dir, va);
    var pa := Translate(m, dir, va);
    assert EntrySlot(m1, dir, hold / PAGE_SIZE) == EntrySlot(m, dir, hold / PAGE_SIZE) by {
      var d := hold / PAGE_SIZE / ENTRIES;
      assert SpacePages(m1, chunk)[d + 1] == SpacePages(m, chunk)[d + 1];
    }
    assert ByteAt(m1, pa) == ByteAt(m, pa);
  }
}
