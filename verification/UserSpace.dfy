/** What user code sees of a program that process_map_memory has mapped, at the level of the
    processor's page walk (`src/task/process.c`, `src/memory/paging/paging.c`). */
module UserSpace {
  import opened Words
  import opened Heap
  import opened Ram
  import opened KernelHeap
  import opened PageLists
  import opened Paging
  import opened PageMaps
  import opened PageLife
  import opened Elf
  import opened Processor
  import opened AddressSpace

  // ---------------------------------------------------------------- pages of headers and stack

  /** Some byte of the `size` bytes at `va`, or the start of an unaligned empty range, lies in
      page `v`. */
  predicate Meets(va: Word, size: Word, v: nat) {
    0x1000 * v < va + size && va < 0x1000 * (v + 1)
  }

  lemma TouchesExact(va: Word, pa: Word, size: Word, flags: Flags, v: nat)
    requires RangePlaced(va, pa, size)
    ensures Touches(RangeCall(va, pa, size, flags), v) <==> Meets(va, size, v)
  {
    RangePages(va, pa, size, flags);
    CeilingExact(va % PAGE_SIZE + size, v - va / PAGE_SIZE);
  }

  lemma CeilingExact(n: nat, k: int)
    ensures k < (n + 4095) / PAGE_SIZE <==> PAGE_SIZE * k < n
  {
  }

  /** Page `v` belongs to no header and not to the four stack pages. */
  predicate FreeOfElf(headers: seq<Phdr>, v: nat) {
    (forall i :: 0 <= i < |headers| ==> !Meets(headers[i].pVaddr, headers[i].pMemsz, v)) && !(0x3fb <= v < 0x3ff)
  }

  lemma FreeIsUnmapped(memory: Word, headers: seq<Phdr>, stack: Word, v: nat)
    requires HeadersPlaced(memory, headers, stack)
    ensures FreeOfElf(headers, v) <==> Unmapped(ProgramCalls(memory, headers, stack), v)
  {
    var calls := ProgramCalls(memory, headers, stack);
    TouchesExact(STACK_END, stack, STACK_SIZE, USER_WRITE, v);
    forall i | 0 <= i < |headers|
      ensures Touches(calls[i], v) <==> Meets(headers[i].pVaddr, headers[i].pMemsz, v)
    {
      var h := headers[i];
      HeaderCongruent(memory, h);
      TouchesExact(h.pVaddr, PhysAddress(memory, h), h.pMemsz, HeaderFlags(h), v);
    }
    assert Touches(calls[|headers|], v) <==> 0x3fb <= v < 0x3ff;
  }

  lemma FreeIsUnmappedBinary(ptr: Word, size: Word, stack: Word, v: nat)
    requires BinaryPlaced(ptr, size, stack)
    ensures !Meets(0x40_0000, size, v) && !(0x3fb <= v < 0x3ff)
            <==> Unmapped([BinaryCall(ptr, size), StackCall(stack)], v)
  {
    var calls := [BinaryCall(ptr, size), StackCall(stack)];
    TouchesExact(PROGRAM_ADDRESS, ptr, size, USER_WRITE, v);
    TouchesExact(STACK_END, stack, STACK_SIZE, USER_WRITE, v);
    assert Touches(calls[0], v) <==> Meets(0x40_0000, size, v);
    assert Touches(calls[1], v) <==> 0x3fb <= v < 0x3ff;
  }

  // ---------------------------------------------------------------- access

  predicate ByteAccessible(m: Memory, dir: Word, va: Word, pa: Word, writable: bool, a: nat)
    requires Aligned(dir)
  {
    Accessible(m, dir, ToWord(va + a), ToWord(pa + a), writable)
  }

  ghost predicate RangeAccessible(m: Memory, dir: Word, va: Word, pa: Word, size: Word, writable: bool)
    requires Aligned(dir)
  {
    forall a: nat :: a < size ==> ByteAccessible(m, dir, va, pa, writable, a)
  }

  ghost predicate HeaderAccessible(m: Memory, dir: Word, memory: Word, h: Phdr)
    requires Aligned(dir)
  {
    RangeAccessible(m, dir, h.pVaddr, ToWord(memory + h.pOffset), h.pMemsz, And(h.pFlags, 2) != 0)
  }

  /** User code finds every header where its contents were loaded, writable by PF_W, a writable
      stack, and everything else unchanged and read-only. */
  ghost predicate ElfAccessible(m: Memory, dir: Word, memory: Word, headers: seq<Phdr>, stack: Word)
    requires Aligned(dir)
  {
    && (forall i :: 0 <= i < |headers| ==> HeaderAccessible(m, dir, memory, headers[i]))
    && RangeAccessible(m, dir, 0x3f_b000, stack, 16384, true)
    && (forall va: Word :: FreeOfElf(headers, va / 0x1000) ==> Accessible(m, dir, va, va, false))
  }

  ghost predicate BinaryAccessible(m: Memory, dir: Word, ptr: Word, size: Word, stack: Word)
    requires Aligned(dir)
  {
    && RangeAccessible(m, dir, 0x40_0000, ptr, size, true)
    && RangeAccessible(m, dir, 0x3f_b000, stack, 16384, true)
    && (forall va: Word :: !Meets(0x40_0000, size, va / 0x1000) && !(0x3fb <= va / 0x1000 < 0x3ff) ==>
          Accessible(m, dir, va, va, false))
  }

  ghost predicate ProgramAccessible(m: Memory, dir: Word, program: Program, stack: Word)
    requires Aligned(dir)
  {
    match program
    case ElfProgram(memory, headers) => ElfAccessible(m, dir, memory, headers, stack)
    case BinaryProgram(ptr, size) => BinaryAccessible(m, dir, ptr, size, stack)
  }

  /** An address the page map reaches is translated there. */
  lemma ReachedTranslates(m: Memory, dir: Word, va: Word, pa: Word, writable: bool)
    requires Aligned(dir) && Reaches(Flat(m, dir), va, pa, writable)
    ensures Translate(m, dir, va) == pa
  {
  }

  /** Under an open directory reaching an address is having access to it. */
  lemma ReachesIsAccess(m: Memory, dir: Word, va: Word, pa: Word, writable: bool)
    requires Aligned(dir) && DirectoryOpen(m, dir)
    ensures Reaches(Flat(m, dir), va, pa, writable) <==> Accessible(m, dir, va, pa, writable)
  {
    var e := Flat(m, dir)[va / PAGE_SIZE];
    EntryIsWalked(m, dir, va);
    FrameIsMask(e);
    assert OpenEntry(DirWord(m, dir, va / PAGE_SIZE / ENTRIES), true);
  }

  lemma RangeIsAccess(m: Memory, dir: Word, va: Word, pa: Word, size: Word, writable: bool)
    requires Aligned(dir) && DirectoryOpen(m, dir)
    ensures RangeReached(Flat(m, dir), va, pa, size, writable) <==> RangeAccessible(m, dir, va, pa, size, writable)
  {
    forall a: nat | a < size
      ensures ByteReached(Flat(m, dir), va, pa, writable, a) <==> ByteAccessible(m, dir, va, pa, writable, a)
    {
      ReachesIsAccess(m, dir, ToWord(va + a), ToWord(pa + a), writable);
    }
  }

  lemma IdentityIsAccess(m: Memory, dir: Word, va: Word)
    requires Aligned(dir) && DirectoryOpen(m, dir) && IdentityEntry(Flat(m, dir)[va / PAGE_SIZE], va / PAGE_SIZE)
    ensures Accessible(m, dir, va, va, false)
  {
    ReachesIsAccess(m, dir, va, va, false);
  }

  /** A loaded program is accessible as its headers say. */
  lemma LoadedIsAccessible(m: Memory, dir: Word, program: Program, stack: Word)
    requires Aligned(dir) && DirectoryOpen(m, dir) && Placed(program, stack)
    requires LoadedProgram(Flat(m, dir), program, stack)
    ensures ProgramAccessible(m, dir, program, stack)
  {
    RangeIsAccess(m, dir, 0x3f_b000, stack, 16384, true);
    match program
    case ElfProgram(memory, headers) =>
      forall i | 0 <= i < |headers|
        ensures HeaderAccessible(m, dir, memory, headers[i])
      {
        var h := headers[i];
        RangeIsAccess(m, dir, h.pVaddr, ToWord(memory + h.pOffset), h.pMemsz, And(h.pFlags, 2) != 0);
      }
      forall va: Word | FreeOfElf(headers, va / 0x1000)
        ensures Accessible(m, dir, va, va, false)
      {
        FreeIsUnmapped(memory, headers, stack, va / 0x1000);
        IdentityIsAccess(m, dir, va);
      }
    case BinaryProgram(ptr, size) =>
      RangeIsAccess(m, dir, 0x40_0000, ptr, size, true);
      forall va: Word | !Meets(0x40_0000, size, va / 0x1000) && !(0x3fb <= va / 0x1000 < 0x3ff)
        ensures Accessible(m, dir, va, va, false)
      {
        FreeIsUnmappedBinary(ptr, size, stack, va / 0x1000);
        IdentityIsAccess(m, dir, va);
      }
  }

  lemma AccessibleHeaderKept(m: Memory, dir: Word, f: PageMap, memory: Word, headers: seq<Phdr>, stack: Word, i: nat)
    requires Aligned(dir) && DirectoryOpen(m, dir) && HeadersPlaced(memory, headers, stack) && i < |headers|
    requires Flat(m, dir) == FlatRun(f, ProgramCalls(memory, headers, stack))
    requires HeaderAccessible(m, dir, memory, headers[i])
    ensures HeaderKept(memory, headers, stack, i)
  {
    var h := headers[i];
    RangeIsAccess(m, dir, h.pVaddr, ToWord(memory + h.pOffset), h.pMemsz, And(h.pFlags, 2) != 0);
    assert HeaderReached(Flat(m, dir), memory, h);
    HeaderReachedExact(f, memory, headers, stack, i);
  }

  /** An accessible program was not remapped. */
  lemma AccessibleIsKept(m: Memory, dir: Word, f: PageMap, program: Program, stack: Word)
    requires Aligned(dir) && DirectoryOpen(m, dir) && Placed(program, stack)
    requires Flat(m, dir) == FlatRun(f, Calls(program, stack)) && Fits(program)
    requires ProgramAccessible(m, dir, program, stack)
    ensures Kept(program, stack)
  {
    match program
    case ElfProgram(memory, headers) =>
      forall i | 0 <= i < |headers|
        ensures HeaderKept(memory, headers, stack, i)
      {
        AccessibleHeaderKept(m, dir, f, memory, headers, stack, i);
      }
    case BinaryProgram(_, _) =>
  }

  lemma LinkedIsOpen(m: Memory, dir: Word)
    requires Aligned(dir) && DirectoryLinked(m, dir, USER_READ)
    ensures DirectoryOpen(m, dir)
  {
    forall d | 0 <= d < ENTRIES
      ensures OpenEntry(DirWord(m, dir, d), true)
    {
      TaggedWithBitOne(TableAt(m, dir, d), USER_READ);
      TaggedBits(TableAt(m, dir, d), WithBitOne(USER_READ));
    }
  }

  /** The whole construction: a fresh address space from paging_new_4gb, then
      process_map_memory, gives user code the program as described exactly when it is kept; it
      takes 1026 fresh blocks and writes no other memory. */
  method BuildAddressSpace(k: Kernel, program: Program, stack: Word) returns (chunk: Word, response: int)
    requires k.Intact() && k.FreeCount() >= SPACE_BLOCKS
    modifies k`live, k.heap.entries, k.ram
    ensures k.Intact() && Space(k.live, k.Mem(), chunk) && k.FreeCount() == old(k.FreeCount()) - SPACE_BLOCKS
    ensures Fresh(old(k.live), SpacePages(k.Mem(), chunk))
    ensures k.live == Extend(old(k.live), SpacePages(k.Mem(), chunk))
    ensures Untouched(old(k.Mem()), k.Mem(), SpacePages(k.Mem(), chunk))
    ensures k.heap.Outside() == old(k.heap.Outside())
    ensures response == if Fits(program) then 0 else INVALID_ARGUMENT
    ensures DirectoryOpen(k.Mem(), Load(k.Mem(), chunk))
    ensures Placed(program, stack) ==>
              && response == 0
              && (LoadedProgram(Flat(k.Mem(), Load(k.Mem(), chunk)), program, stack) <==> Kept(program, stack))
              && (ProgramAccessible(k.Mem(), Load(k.Mem(), chunk), program, stack) <==> Kept(program, stack))
  {
    chunk := New4gb(k, USER_READ);
    NewSpaceIdentity(old(k.live), old(k.Mem()), k.live, k.Mem(), chunk);
    ghost var m: Memory := k.Mem();
    LinkedIsOpen(m, Load(m, chunk));
    response := MapMemory(k, chunk, program, stack);
    ConfinedUntouched(old(k.Mem()), m, k.Mem(), chunk, SpacePages(m, chunk));
    if Placed(program, stack) {
      BuiltProgram(m, k.Mem(), Load(m, chunk), program, stack);
    }
  }

  lemma BuiltProgram(m: Memory, n: Memory, dir: Word, program: Program, stack: Word)
    requires Aligned(dir) && DirectoryOpen(n, dir) && Placed(program, stack) && Identity(Flat(m, dir))
    requires Flat(n, dir) == FlatRun(Flat(m, dir), Calls(program, stack))
    ensures Fits(program)
    ensures LoadedProgram(Flat(n, dir), program, stack) <==> Kept(program, stack)
    ensures ProgramAccessible(n, dir, program, stack) <==> Kept(program, stack)
  {
    PlacedLoaded(Flat(m, dir), program, stack);
    if Kept(program, stack) {
      LoadedIsAccessible(n, dir, program, stack);
    }
    if ProgramAccessible(n, dir, program, stack) {
      AccessibleIsKept(n, dir, Flat(m, dir), program, stack);
    }
  }
}
