/** How the processor reads a page directory: the two-level walk and the bits it checks
    (section "32-Bit Paging" of the Intel 64 and IA-32 manual, volume 3). */
module Processor {
  import opened Words
  import opened Ram
  import opened Paging

  const PRESENT: nat := 0x1
  const WRITABLE: nat := 0x2
  const USER: nat := 0x4

  /** The directory entry of a virtual address: bits 31 to 22 select it. */
  function DirectoryEntry(m: Memory, dir: Word, va: Word): Word
    requires Aligned(dir)
  {
    m[dir / 4 + va / 0x40_0000]
  }

  /** The table entry: bits 21 to 12 select it in the table the directory entry points to. */
  function TableEntry(m: Memory, dir: Word, va: Word): Word
    requires Aligned(dir)
  {
    var table := And(DirectoryEntry(m, dir, va), 0xffff_f000);
    FrameIsMask(DirectoryEntry(m, dir, va));
    m[table / 4 + va / 0x1000 % 0x400]
  }

  predicate Bit(e: Word, mask: nat) {
    And(e, mask) != 0
  }

  /** Present and open to user code, and writable exactly when `writable`. */
  predicate OpenEntry(e: Word, writable: bool) {
    Bit(e, PRESENT) && Bit(e, USER) && (Bit(e, WRITABLE) <==> writable)
  }

  /** User code that uses `va` gets physical address `pa`, and may write there exactly when
      `writable`: both levels are present and open to it, and both allow the write. */
  predicate Accessible(m: Memory, dir: Word, va: Word, pa: Word, writable: bool)
    requires Aligned(dir)
  {
    var directoryEntry, tableEntry := DirectoryEntry(m, dir, va), TableEntry(m, dir, va);
    && Bit(directoryEntry, PRESENT) && Bit(tableEntry, PRESENT)
    && Bit(directoryEntry, USER) && Bit(tableEntry, USER)
    && (Bit(directoryEntry, WRITABLE) && Bit(tableEntry, WRITABLE) <==> writable)
    && And(tableEntry, 0xffff_f000) + va % 0x1000 == pa
  }

  /** The flat map holds the entries of this walk. */
  lemma EntryIsWalked(m: Memory, dir: Word, va: Word)
    requires Aligned(dir)
    ensures PageEntry(m, dir, va / PAGE_SIZE) == Flat(m, dir)[va / PAGE_SIZE] == TableEntry(m, dir, va)
    ensures DirWord(m, dir, va / PAGE_SIZE / ENTRIES) == DirectoryEntry(m, dir, va)
  {
    FrameIsMask(DirectoryEntry(m, dir, va));
    DivideTwice(va);
  }

  lemma DivideTwice(va: nat)
    ensures va / 0x1000 / 0x400 == va / 0x40_0000
  {
  }

  /** The translation is that of the walk. */
  lemma TranslateIsWalked(m: Memory, dir: Word, va: Word)
    requires Aligned(dir)
    ensures Translate(m, dir, va) == And(TableEntry(m, dir, va), 0xffff_f000) + va % 0x1000
  {
    EntryIsWalked(m, dir, va);
    FrameIsMask(TableEntry(m, dir, va));
  }

  /** The bits of an entry with given flags. */
  lemma TaggedBits(p: Word, flags: Flags)
    requires Aligned(p)
    ensures Bit(Tagged(p, flags), PRESENT) <==> flags % 2 == 1
    ensures Bit(Tagged(p, flags), WRITABLE) <==> flags / 2 % 2 == 1
    ensures Bit(Tagged(p, flags), USER) <==> flags / 4 % 2 == 1
  {
    var e := Tagged(p, flags);
    LowBits(p / 4096, flags);
    AndOne(e);
    AndTwo(e);
    AndFour(e);
  }

  /** Every directory entry is present, writable and open to user code, so that the table entry
      decides. */
  ghost predicate DirectoryOpen(m: Memory, dir: Word)
    requires Aligned(dir)
  {
    forall d :: 0 <= d < ENTRIES ==> OpenEntry(DirWord(m, dir, d), true)
  }

  lemma OpenIsAccessible(m: Memory, dir: Word, va: Word, writable: bool)
    requires Aligned(dir) && DirectoryOpen(m, dir)
    requires OpenEntry(Flat(m, dir)[va / PAGE_SIZE], writable)
    ensures Accessible(m, dir, va, Translate(m, dir, va), writable)
  {
    EntryIsWalked(m, dir, va);
    TranslateIsWalked(m, dir, va);
    assert OpenEntry(DirWord(m, dir, va / PAGE_SIZE / ENTRIES), true);
  }
}
