/** One concrete input for each place where the code does otherwise than intended. */
module Witnesses {
  import opened Words
  import opened HeapTable
  import opened Heap
  import opened KernelHeap
  import opened PageMaps
  import opened Elf
  import opened AddressSpace
  import opened ElfBounds
  import TaskList
  import Keyboard
  import ProcessHeap
  import Fat16

  /** On the fresh kernel heap a request for one block more than there are is answered by block 0,
      and leaves a table that encodes no allocations at all. */
  lemma OverlargeRequest()
    ensures var t, n := seq(HEAP_BLOCKS, _ => FREE), BlocksFor(HEAP_SIZE_BYTES + 1);
            && Encodes(t, map[]) && n == HEAP_BLOCKS + 1
            && StartBlock(t, n) == 0
            && !exists live :: Encodes(Requested(t, n), live)
  {
    var t, n := seq(HEAP_BLOCKS, _ => FREE), HEAP_BLOCKS + 1;
    AllFreeEncodesEmpty(t);
    RequestExact(t, map[], n);
    StartBlockExact(t, n);
    assert EndsFree(t);
    assert !HasRun(t, n);
  }

  /** A request just below 4 GiB asks for no block. */
  lemma RoundingWraps()
    ensures AlignUp(0xffff_f001) == 0 && BlocksFor(0xffff_f001) == 0
  {
  }

  /** Block 2^19 of a heap at 0 has an address that converts back to a negative block. */
  lemma FarBlock()
    ensures AddressBlock(0, BlockAddress(0, 0x8_0000)) == -0x8_0000
  {
  }

  /** Freeing address 0 with an empty slot clears the byte 4096 places below the table. */
  lemma FreeNull()
    ensures var origin := 0x8_0000;
            var e := seq(origin + HEAP_BLOCKS, i => if i == origin - 4096 then TAKEN else FREE);
            ProcessHeap.FreeEffect(e, origin, [0], 0) != e
  {
    var origin := 0x8_0000;
    var e := seq(origin + HEAP_BLOCKS, i => if i == origin - 4096 then TAKEN else FREE);
    ProcessHeap.UnownedFreeExact(e, origin, [0], 0);
    assert e[origin - 4096] == TAKEN;
    assert [0 as Word][0] == 0;
  }

  /** After removing the second of three tasks, the last one still points back to it. */
  method MiddleRemoval() returns (list: TaskList.Tasks, removed: TaskList.Task)
    ensures list.Forward() && !list.Valid()
    ensures |list.tasks| == 2 && list.tasks[1].prev == removed && removed !in list.tasks
  {
    list := new TaskList.Tasks();
    var first := new TaskList.Task(0);
    list.Append(first);
    removed := new TaskList.Task(0);
    list.Append(removed);
    var last := new TaskList.Task(0);
    list.Append(last);
    assert list.tasks == [first, removed, last];
    list.Remove(removed, 1);
    assert list.tasks == [first, last];
  }

  const WRITABLE_HEADER: Phdr := Phdr(PT_LOAD, 0, 0x40_0000, 16, 16, 2)
  const READ_ONLY_HEADER: Phdr := Phdr(PT_LOAD, 0, 0x40_0000, 16, 16, 0)

  /** Two headers for one page: the later one takes the write permission of the earlier away. */
  lemma HeaderRemapped(f: PageMap)
    ensures var headers, stack: Word := [WRITABLE_HEADER, READ_ONLY_HEADER], 0x20_0000;
            && HeadersPlaced(0x10_0000, headers, stack)
            && !HeaderReached(FlatRun(f, ProgramCalls(0x10_0000, headers, stack)), 0x10_0000, WRITABLE_HEADER)
  {
    var headers, stack: Word := [WRITABLE_HEADER, READ_ONLY_HEADER], 0x20_0000;
    LaterHeaderWins(0x10_0000, headers, stack);
    HeaderReachedExact(f, 0x10_0000, headers, stack, 0);
  }

  lemma WritableCall()
    ensures HeaderCall(0x10_0000, WRITABLE_HEADER) == MapTo(0x40_0000, 0x10_0000, 0x10_1000, 7)
  {
  }

  lemma ReadOnlyCall()
    ensures HeaderCall(0x10_0000, READ_ONLY_HEADER) == MapTo(0x40_0000, 0x10_0000, 0x10_1000, 5)
  {
  }

  lemma StackCallIs()
    ensures StackCall(0x20_0000) == MapTo(0x3f_b000, 0x20_0000, 0x20_4000, 7)
  {
  }

  lemma LaterHeaderWins(memory: Word, headers: seq<Phdr>, stack: Word)
    requires memory == 0x10_0000 && headers == [WRITABLE_HEADER, READ_ONLY_HEADER] && stack == 0x20_0000
    ensures HeadersPlaced(memory, headers, stack) && !HeaderKept(memory, headers, stack, 0)
  {
    WritableCall();
    ReadOnlyCall();
    StackCallIs();
    var calls := ProgramCalls(memory, headers, stack);
    assert calls[0] == HeaderCall(memory, WRITABLE_HEADER) && calls[1] == HeaderCall(memory, READ_ONLY_HEADER);
    assert Touches(calls[1], 0x400) && !Touches(calls[2], 0x400);
    assert LastTouch(calls, 0x400) == 1;
    assert !ByteKept(memory, headers, stack, 0, 0);
  }

  /** A load entry at address 0 is forgotten when a later one is higher. */
  lemma BaseForgotten()
    ensures var loads := [Phdr(PT_LOAD, 0, 0, 0x1000, 0x1000, 0), Phdr(PT_LOAD, 0x1000, 0x5000, 0x1000, 0x1000, 0)];
            BoundsOf(0, loads).virtualBase == 0x5000
  {
    var first, second := Phdr(PT_LOAD, 0, 0, 0x1000, 0x1000, 0), Phdr(PT_LOAD, 0x1000, 0x5000, 0x1000, 0x1000, 0);
    assert [first, second][..1] == [first];
    assert [first][..0] == [];
    assert BoundsOf(0, [first]).virtualBase == 0;
  }

  /** A push into a full ring breaks it. */
  lemma FullPush()
    ensures var r := Keyboard.Ring(seq(1024, _ => 1), 0, 1024);
            Keyboard.Sound(r) && |Keyboard.Queue(r)| == 1024 && !Keyboard.Sound(Keyboard.PushRing(r, 2))
  {
  }

  /** So does a backspace in an empty one. */
  lemma EmptyBackspace()
    ensures var r := Keyboard.Ring(seq(1024, _ => 0), 0, 0);
            Keyboard.Sound(r) && Keyboard.Queue(r) == [] && !Keyboard.Sound(Keyboard.BackspaceRing(r))
  {
  }

  /** With one sector per cluster, reading a whole cluster from byte 1 on goes wrong. */
  lemma UnalignedRead()
    ensures var v := Fat16.TwoClusters(1);
            && Fat16.FileBytes(v, 10, 1, 512).Some?
            && Fat16.CodeRead(v, 10, 1, 512) != Fat16.FileBytes(v, 10, 1, 512)
  {
    Fat16.UnalignedWrong(1, 1, 512);
  }
}
