/** A task from new_task to task_free (`src/task/task.c`), across heap, paging and task list. */
module TaskLife {
  import opened Words
  import opened HeapTable
  import opened Ram
  import opened KernelHeap
  import opened PageLists
  import opened Paging
  import opened PageMaps
  import opened PageLife
  import opened AddressSpace
  import opened TaskList

  /** sizeof(task_t): a pointer, twelve registers and three more pointers. */
  const TASK_SIZE: Word := 64

  /** The blocks a task occupies: its own and those of its address space. */
  const TASK_BLOCKS: int := SPACE_BLOCKS + 1

  /** The pages of a task in allocation order. */
  function TaskPages(m: Memory, address: Word, chunk: Word): seq<Word>
    requires Aligned(Load(m, chunk))
  {
    [address] + SpacePages(m, chunk)
  }

  /** The memory of a new task: its block and an identity address space, all of them fresh, and
      no other word written. */
  ghost predicate NewTaskMemory(live: Live, m: Memory, live': Live, m': Memory, address: Word, chunk: Word) {
    && Space(live', m', chunk) && Identity(Flat(m', Load(m', chunk)))
    && Fresh(live, TaskPages(m', address, chunk)) && live' == Extend(live, TaskPages(m', address, chunk))
    && Untouched(m, m', TaskPages(m', address, chunk))
  }

  /** The heap part of new_task and task_init. */
  method AllocateTask(k: Kernel) returns (address: Word, chunk: Word)
    requires k.Intact() && k.FreeCount() >= TASK_BLOCKS
    modifies k`live, k.heap.entries, k.ram
    ensures k.Intact() && k.FreeCount() == old(k.FreeCount()) - TASK_BLOCKS
    ensures NewTaskMemory(old(k.live), old(k.Mem()), k.live, k.Mem(), address, chunk)
    ensures k.heap.Outside() == old(k.heap.Outside())
  {
    address := ZallocPage(k, TASK_SIZE);
    ghost var live1, m1: Memory := k.live, k.Mem();
    chunk := New4gb(k, USER_READ);
    NewTaskFrom(old(k.live), old(k.Mem()), address, live1, m1, k.live, k.Mem(), chunk);
  }

  lemma NewTaskFrom(live: Live, m: Memory, address: Word, live1: Live, m1: Memory, live2: Live, m2: Memory, chunk: Word)
    requires HeapPage(address) && Block(address) !in live && live1 == live[Block(address) := 1]
    requires OnlyPage(m, m1, address) && NewSpace(live1, m1, live2, m2, chunk, USER_READ)
    ensures NewTaskMemory(live, m, live2, m2, address, chunk)
  {
    NewSpaceIdentity(live1, m1, live2, m2, chunk);
    FreshAfter(live, address, SpacePages(m2, chunk));
    UntouchedFront(m, m1, m2, address, SpacePages(m2, chunk));
  }

  lemma UntouchedFront(m: Memory, m1: Memory, m2: Memory, p: Word, pages: seq<Word>)
    requires OnlyPage(m, m1, p) && Untouched(m1, m2, pages)
    ensures Untouched(m, m2, [p] + pages)
  {
    var all := [p] + pages;
    forall w | 0 <= w < RAM_WORDS && !InSome(all, w)
      ensures m2[w] == m[w]
    {
      assert !InPage(all[0], w);
      InSomeFront(p, pages, w);
    }
  }

  lemma InSomeFront(p: Word, pages: seq<Word>, w: int)
    ensures InSome(pages, w) ==> InSome([p] + pages, w)
  {
    if i :| 0 <= i < |pages| && InPage(pages[i], w) {
      assert InPage(([p] + pages)[i + 1], w);
    }
  }

  /** new_task. */
  method NewTask(k: Kernel, list: Tasks) returns (task: Task)
    requires k.Intact() && k.FreeCount() >= TASK_BLOCKS && list.Valid()
    modifies k`live, k.heap.entries, k.ram, list, list.tasks`next
    ensures k.Intact() && list.Valid() && fresh(task)
    ensures list.tasks == old(list.tasks) + [task]
    ensures list.current == if old(list.tasks) == [] then task else old(list.current)
    ensures k.FreeCount() == old(k.FreeCount()) - TASK_BLOCKS
    ensures NewTaskMemory(old(k.live), old(k.Mem()), k.live, k.Mem(), task.address, task.pageDirectory)
    ensures k.heap.Outside() == old(k.heap.Outside())
  {
    var address, chunk := AllocateTask(k);
    task := new Task(address);
    task.pageDirectory := chunk;
    list.Append(task);
  }

  /** A page taken before a fresh list makes one longer fresh list. */
  lemma {:induction false} FreshAfter(live: Live, p: Word, pages: seq<Word>)
    requires HeapPage(p) && Block(p) !in live
    requires Fresh(live[Block(p) := 1], pages)
    ensures Fresh(live, [p] + pages)
    ensures Extend(live, [p] + pages) == Extend(live[Block(p) := 1], pages)
  {
    var all := [p] + pages;
    forall i | 0 <= i < |all|
      ensures HeapPage(all[i]) && Block(all[i]) !in live
      ensures i > 0 ==> all[i] != p
    {
      if i > 0 {
        assert all[i] == pages[i - 1];
      }
    }
    ExtendFront(live, p, pages);
  }

  lemma {:induction false} ExtendFront(live: Live, p: Word, pages: seq<Word>)
    ensures Extend(live, [p] + pages) == Extend(live[Block(p) := 1], pages)
  {
    var all := [p] + pages;
    if pages == [] {
      assert all[..0] == [] && Extend(live, []) == live;
    } else {
      assert all[..|all| - 1] == [p] + pages[..|pages| - 1];
      ExtendFront(live, p, pages[..|pages| - 1]);
    }
  }

  /** The blocks of a task, in the order task_free gives them back. */
  function TaskFreeOrder(m: Memory, address: Word, chunk: Word): seq<Word>
    requires Aligned(Load(m, chunk))
  {
    FreeOrder(m, chunk) + [address]
  }

  /** The block of the task survives the release of its address space. */
  lemma TaskBlockLast(live: Live, m: Memory, address: Word, chunk: Word)
    requires Space(live, m, chunk) && LivePage(live, address) && address !in SpacePages(m, chunk)
    ensures var live1 := Shrink(live, FreeOrder(m, chunk));
            && LivePage(live1, address)
            && Shrink(live, TaskFreeOrder(m, address, chunk)) == live1 - {Block(address)}
  {
    var order, all := FreeOrder(m, chunk), TaskFreeOrder(m, address, chunk);
    FreeOrderPages(live, m, chunk);
    ShrinkAt(live, order, Block(address));
    assert all[..|all| - 1] == order;
    if i :| 0 <= i < |order| && Block(order[i]) == Block(address) {
      BlockInjective(order[i], address);
    }
  }

  /** task_free. */
  method TaskFree(k: Kernel, list: Tasks, task: Task)
    requires k.Intact() && list.Valid() && list.tasks != [] && list.tasks[|list.tasks| - 1] == task
    requires Space(k.live, k.Mem(), task.pageDirectory)
    requires LivePage(k.live, task.address) && task.address !in SpacePages(k.Mem(), task.pageDirectory)
    modifies k`live, k.heap.entries, list, list.tasks`next
    ensures k.Intact() && list.Valid()
    ensures list.tasks == old(list.tasks)[..|old(list.tasks)| - 1]
    ensures old(list.current) != task ==> list.current == old(list.current)
    ensures k.live == Shrink(old(k.live), TaskFreeOrder(k.Mem(), task.address, old(task.pageDirectory)))
    ensures k.FreeCount() == old(k.FreeCount()) + TASK_BLOCKS
    ensures k.heap.Outside() == old(k.heap.Outside())
  {
    TaskBlockLast(k.live, k.Mem(), task.address, task.pageDirectory);
    Free4gb(k, task.pageDirectory);
    list.Remove(task, |list.tasks| - 1);
    k.Kfree(task.address);
  }

  lemma AppendMembers(a: seq<Word>, b: seq<Word>)
    ensures forall p :: p in a + b <==> p in a || p in b
  {
  }

  lemma TaskBlockApart(live: Live, m: Memory, address: Word, chunk: Word)
    requires Aligned(Load(m, chunk)) && Fresh(live, TaskPages(m, address, chunk))
    ensures address !in SpacePages(m, chunk)
    ensures LivePage(Extend(live, TaskPages(m, address, chunk)), address)
  {
    var pages := TaskPages(m, address, chunk);
    FreshAreLive(live, pages);
    assert pages[0] == address;
    forall i | 0 <= i < |SpacePages(m, chunk)|
      ensures SpacePages(m, chunk)[i] != address
    {
      assert pages[i + 1] == SpacePages(m, chunk)[i];
    }
  }

  /** What task_free gives back is what new_task took, whatever was mapped in between. */
  lemma TaskMemoryRestored(live: Live, m: Memory, live': Live, m': Memory, n: Memory, address: Word, chunk: Word)
    requires NewTaskMemory(live, m, live', m', address, chunk)
    requires Space(live', n, chunk) && SpacePages(n, chunk) == SpacePages(m', chunk)
    ensures LivePage(live', address) && address !in SpacePages(n, chunk)
    ensures Shrink(live', TaskFreeOrder(n, address, chunk)) == live
  {
    TaskBlockApart(live, m', address, chunk);
    FreeOrderPages(live', n, chunk);
    AppendMembers([address], SpacePages(m', chunk));
    AppendMembers(FreeOrder(n, chunk), [address]);
    ExtendShrink(live, TaskPages(m', address, chunk), TaskFreeOrder(n, address, chunk));
  }

  /** Mapping calls in a task's space write only its pages. */
  lemma TaskConfined(m: Memory, m': Memory, n: Memory, address: Word, chunk: Word)
    requires Aligned(Load(m', chunk)) && Confined(m', n, Load(m', chunk))
    requires Untouched(m, m', TaskPages(m', address, chunk))
    ensures Untouched(m, n, TaskPages(m', address, chunk))
  {
    AppendMembers([address], SpacePages(m', chunk));
    ConfinedUntouched(m, m', n, chunk, TaskPages(m', address, chunk));
  }

  /** process_map_memory for a new task: everything task_free needs to undo it. */
  method MapTask(k: Kernel, address: Word, chunk: Word, program: Program, stack: Word,
                 ghost live: Live, ghost m: Memory)
    requires k.Intact() && NewTaskMemory(live, m, k.live, k.Mem(), address, chunk)
    modifies k.ram
    ensures Space(k.live, k.Mem(), chunk)
    ensures LivePage(k.live, address) && address !in SpacePages(k.Mem(), chunk)
    ensures Shrink(k.live, TaskFreeOrder(k.Mem(), address, chunk)) == live
    ensures Untouched(m, k.Mem(), TaskPages(old(k.Mem()), address, chunk))
  {
    ghost var m' := k.Mem();
    var response := MapMemory(k, chunk, program, stack);
    TaskConfined(m, m', k.Mem(), address, chunk);
    TaskMemoryRestored(live, m, k.live, m', k.Mem(), address, chunk);
  }

  /** process_map_memory, then task_free. */
  method MapAndFree(k: Kernel, list: Tasks, task: Task, program: Program, stack: Word,
                    ghost live: Live, ghost m: Memory)
    requires k.Intact() && list.Valid() && list.tasks != [] && list.tasks[|list.tasks| - 1] == task
    requires NewTaskMemory(live, m, k.live, k.Mem(), task.address, task.pageDirectory)
    modifies k`live, k.heap.entries, k.ram, list, list.tasks`next
    ensures k.Intact() && k.live == live && k.heap.Outside() == old(k.heap.Outside())
    ensures Untouched(m, k.Mem(), TaskPages(old(k.Mem()), task.address, task.pageDirectory))
    ensures list.Valid() && list.tasks == old(list.tasks)[..|old(list.tasks)| - 1]
    ensures old(list.current) != task ==> list.current == old(list.current)
  {
    MapTask(k, task.address, task.pageDirectory, program, stack, live, m);
    TaskFree(k, list, task);
  }

  /** The failure path of process_load_for_slot: a task is created, its address space is changed
      by mapping calls, and it is freed again.  Heap table, task list and every other address
      space are as before, and only words of blocks that were not live have been written. */
  method FailedLoad(k: Kernel, list: Tasks, program: Program, stack: Word) returns (ghost pages: seq<Word>)
    requires k.Intact() && k.FreeCount() >= TASK_BLOCKS && list.Valid()
    modifies k`live, k.heap.entries, k.ram, list, list.tasks`next
    ensures k.Intact() && k.live == old(k.live) && k.Table() == old(k.Table())
    ensures k.heap.Outside() == old(k.heap.Outside())
    ensures Fresh(k.live, pages) && Untouched(old(k.Mem()), k.Mem(), pages)
    ensures forall other :: Space(k.live, old(k.Mem()), other) ==>
              Space(k.live, k.Mem(), other) && SameMap(old(k.Mem()), k.Mem(), other)
    ensures list.Valid() && list.tasks == old(list.tasks) && list.current == old(list.current)
  {
    ghost var live, m := k.live, k.Mem();
    var task := NewTask(k, list);
    pages := TaskPages(k.Mem(), task.address, task.pageDirectory);
    MapAndFree(k, list, task, program, stack, live, m);
    EncodingUnique(k.Table(), old(k.Table()), k.live);
    AllOthersKept(live, m, k.Mem(), pages);
  }

  lemma AllOthersKept(live: Live, m: Memory, n: Memory, pages: seq<Word>)
    requires Fresh(live, pages) && Untouched(m, n, pages)
    ensures forall other :: Space(live, m, other) ==> Space(live, n, other) && SameMap(m, n, other)
  {
    forall other | Space(live, m, other)
      ensures Space(live, n, other) && SameMap(m, n, other)
    {
      OtherSpaceKept(live, m, n, pages, other);
    }
  }
}
