/** Strings of a loaded program passed to copy_string_from_task (`src/task/task.c`): the kernel
    gets the bytes that were loaded. */
module TaskStrings {
  import opened Words
  import opened HeapTable
  import opened Ram
  import opened KernelHeap
  import opened PageLists
  import opened Paging
  import opened Elf
  import opened AddressSpace
  import opened UserSpace
  import opened CopyString
  import opened TaskCopy

  /** Place of a text in the memory a header was loaded to: `text` from byte `from` of the header
      on, and then a zero byte, unless the text has to be cut at max - 1. */
  predicate TextLoaded(m: Memory, memory: Word, h: Phdr, from: nat, max: nat, text: seq<Byte>) {
    && from + |text| <= h.pMemsz && (text == [] || |text| < max)
    && (forall j: nat :: j < |text| ==> text[j] != 0 && Nth(m, ToWord(memory + h.pOffset), from + j) == text[j])
    && (|text| + 1 >= max
        || (from + |text| < h.pMemsz && Nth(m, ToWord(memory + h.pOffset), from + |text|) == 0))
  }

  /** A byte of a loaded header, read through the directory. */
  lemma HeaderByteRead(m: Memory, dir: Word, memory: Word, h: Phdr, from: nat, j: nat)
    requires Aligned(dir) && HeaderReached(Flat(m, dir), memory, h) && from + j < h.pMemsz
    ensures Translate(m, dir, ToWord(ToWord(h.pVaddr + from) + j)) == ToWord(ToWord(memory + h.pOffset) + from + j)
    ensures NthVirtual(m, dir, ToWord(h.pVaddr + from), j) == Nth(m, ToWord(memory + h.pOffset), from + j)
  {
    var pa, w := ToWord(memory + h.pOffset), And(h.pFlags, 2) != 0;
    WordSum(h.pVaddr + from, j);
    assert ByteReached(Flat(m, dir), h.pVaddr, pa, w, from + j);
    ReachedTranslates(m, dir, ToWord(h.pVaddr + (from + j)), ToWord(pa + (from + j)), w);
  }

  lemma {:induction false} TextIs(m: Memory, dir: Word, src: Word, n: int, text: seq<Byte>, i: nat)
    requires Aligned(dir) && i <= |text| && (text == [] || |text| < n)
    requires forall j: nat :: j < |text| ==> text[j] != 0 && NthVirtual(m, dir, src, j) == text[j]
    requires |text| + 1 >= n || NthVirtual(m, dir, src, |text|) == 0
    ensures StringAt(m, dir, src, n, i) == text[i..]
    decreases |text| - i
  {
    if i < |text| {
      TextIs(m, dir, src, n, text, i + 1);
      assert text[i..] == [text[i]] + text[i + 1..];
    }
  }

  lemma TextRead(m: Memory, dir: Word, memory: Word, h: Phdr, from: nat, max: nat, text: seq<Byte>)
    requires Aligned(dir) && HeaderReached(Flat(m, dir), memory, h) && TextLoaded(m, memory, h, from, max, text)
    ensures var src := ToWord(h.pVaddr + from);
            && (forall j: nat :: j < |text| ==> text[j] != 0 && NthVirtual(m, dir, src, j) == text[j])
            && (|text| + 1 >= max || NthVirtual(m, dir, src, |text|) == 0)
  {
    forall j: nat | j < |text|
      ensures NthVirtual(m, dir, ToWord(h.pVaddr + from), j) == text[j]
    {
      HeaderByteRead(m, dir, memory, h, from, j);
    }
    if |text| + 1 < max {
      HeaderByteRead(m, dir, memory, h, from, |text|);
    }
  }

  /** The string at a virtual address inside a loaded header is the text that was loaded there. */
  lemma LoadedString(m: Memory, dir: Word, memory: Word, h: Phdr, from: nat, max: nat, text: seq<Byte>)
    requires Aligned(dir) && HeaderReached(Flat(m, dir), memory, h) && TextLoaded(m, memory, h, from, max, text)
    ensures StringAt(m, dir, ToWord(h.pVaddr + from), max, 0) == text
  {
    TextRead(m, dir, memory, h, from, max, text);
    TextIs(m, dir, ToWord(h.pVaddr + from), max, text, 0);
  }

  // ---------------------------------------------------------------- clear of the temporary page

  /** A byte outside an aligned heap page is at least a page away from its start. */
  lemma OutsidePage(hold: Word, a: Word)
    requires HeapPage(hold) && !InPage(hold, a / 4)
    ensures ToWord(a - hold) >= PAGE_SIZE
  {
    var d := ToWord(a - hold);
    OffsetIs(hold, a, d);
    if d < PAGE_SIZE {
      OffsetInPage(hold, d);
    }
  }

  /** The text is loaded neither in `hold` nor in the page tables, and is not read through the
      virtual page of `hold`. */
  ghost predicate TextClear(m: Memory, task: Word, memory: Word, h: Phdr, from: nat, text: seq<Byte>, hold: Word)
    requires Aligned(Load(m, task))
  {
    forall k: nat :: from <= k <= from + |text| ==> ByteApart(m, task, memory, h, k, hold)
  }

  ghost predicate ByteApart(m: Memory, task: Word, memory: Word, h: Phdr, k: nat, hold: Word)
    requires Aligned(Load(m, task))
  {
    var pa := ToWord(ToWord(memory + h.pOffset) + k);
    && ToWord(h.pVaddr + k) / PAGE_SIZE != hold / PAGE_SIZE
    && !InPage(hold, pa / 4)
    && (forall i :: 0 <= i < ENTRIES + 2 ==> !InPage(SpacePages(m, task)[i], pa / 4))
  }

  lemma SlotApart(m: Memory, task: Word, w: nat, v: nat)
    requires Aligned(Load(m, task)) && v < PAGES
    requires forall i :: 0 <= i < ENTRIES + 2 ==> !InPage(SpacePages(m, task)[i], w)
    ensures w != EntrySlot(m, Load(m, task), v)
  {
    assert SpacePages(m, task)[v / ENTRIES + 1] == TableAt(m, Load(m, task), v / ENTRIES);
  }

  lemma ByteApartIsClear(m: Memory, task: Word, memory: Word, h: Phdr, from: nat, j: nat, hold: Word, len: nat)
    requires Aligned(Load(m, task)) && HeapPage(hold) && len <= PAGE_SIZE
    requires HeaderReached(Flat(m, Load(m, task)), memory, h) && from + j < h.pMemsz
    requires ByteApart(m, task, memory, h, from + j, hold)
    ensures ByteClear(m, Load(m, task), ToWord(h.pVaddr + from), j, hold, len)
  {
    var pa := ToWord(ToWord(memory + h.pOffset) + (from + j));
    HeaderByteRead(m, Load(m, task), memory, h, from, j);
    WordSum(h.pVaddr + from, j);
    OutsidePage(hold, pa);
    SlotApart(m, task, pa / 4, hold / PAGE_SIZE);
  }

  lemma TextIsClear(m: Memory, task: Word, memory: Word, h: Phdr, from: nat, max: nat, text: seq<Byte>, hold: Word)
    requires Aligned(Load(m, task)) && HeapPage(hold) && max < PAGE_SIZE
    requires HeaderReached(Flat(m, Load(m, task)), memory, h) && TextLoaded(m, memory, h, from, max, text)
    requires TextClear(m, task, memory, h, from, text, hold)
    ensures StringClear(m, Load(m, task), ToWord(h.pVaddr + from), max, hold)
  {
    LoadedString(m, Load(m, task), memory, h, from, max, text);
    var dir, src, len := Load(m, task), ToWord(h.pVaddr + from), Room(max);
    forall j: nat | j <= |text| && j < max - 1
      ensures ByteClear(m, dir, src, j, hold, len)
    {
      assert ByteApart(m, task, memory, h, from + j, hold);
      ByteApartIsClear(m, task, memory, h, from, j, hold, Room(max));
    }
  }

  /** A successful copy of a string inside a loaded header puts the bytes loaded for that header,
      at memory + p_offset + from on, into the buffer, and a zero byte behind them. */
  lemma LoadedStringServed(live: Live, m: Memory, n: Memory, task: Word, kernel: Word, hold: Word, absolute: Word,
                           max: nat, memory: Word, h: Phdr, from: nat, text: seq<Byte>)
    requires Proper(live, m, task, kernel, hold, absolute, max)
    requires CopyPromise(live, m, n, task, kernel, hold, ToWord(h.pVaddr + from), absolute, max)
    requires HeaderReached(Flat(m, Load(m, task)), memory, h)
    requires TextLoaded(m, memory, h, from, max, text) && TextClear(m, task, memory, h, from, text, hold)
    ensures forall j: nat :: j < |text| ==>
              Nth(n, absolute, j) == text[j] == Nth(m, ToWord(memory + h.pOffset), from + j)
    ensures Nth(n, absolute, |text|) == 0
  {
    TextIsClear(m, task, memory, h, from, max, text, hold);
    LoadedString(m, Load(m, task), memory, h, from, max, text);
  }
}
