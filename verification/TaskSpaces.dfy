/** All tasks of the system at once: over runs of new_task, process_map_memory and task_free
    their address spaces stay separate (`src/task/task.c`, `src/task/process.c`). */
module TaskSpaces {
  import opened Words
  import opened HeapTable
  import opened Ram
  import opened KernelHeap
  import opened PageLists
  import opened Paging
  import opened PageMaps
  import opened PageLife
  import opened AddressSpace
  import opened TaskList
  import opened TaskLife

  /** Where a task lives: its own block and its address space. */
  datatype Home = Home(address: Word, chunk: Word)

  /** The home is allocated: a live block and a live space without it. */
  ghost predicate Owns(live: Live, m: Memory, h: Home) {
    Space(live, m, h.chunk) && LivePage(live, h.address) && h.address !in SpacePages(m, h.chunk)
  }

  /** All pages of a home. */
  function Pages(m: Memory, h: Home): seq<Word>
    requires Aligned(Load(m, h.chunk))
  {
    TaskPages(m, h.address, h.chunk)
  }

  ghost predicate NoneShared(m: Memory, g: Home, h: Home)
    requires Aligned(Load(m, g.chunk)) && Aligned(Load(m, h.chunk))
  {
    forall p :: p in Pages(m, g) ==> p !in Pages(m, h)
  }

  /** Every home is allocated, and no two have a page in common. */
  ghost predicate Apart(live: Live, m: Memory, homes: seq<Home>) {
    && (forall i :: 0 <= i < |homes| ==> Owns(live, m, homes[i]))
    && (forall i, j :: 0 <= i < j < |homes| ==> NoneShared(m, homes[i], homes[j]))
  }

  lemma PagesOf(m: Memory, h: Home, p: Word)
    requires Aligned(Load(m, h.chunk))
    ensures p in Pages(m, h) <==> p == h.address || p in SpacePages(m, h.chunk)
  {
  }

  lemma OwnedIsLive(live: Live, m: Memory, h: Home, p: Word)
    requires Owns(live, m, h) && p in Pages(m, h)
    ensures LivePage(live, p)
  {
    PagesOf(m, h, p);
    if p in SpacePages(m, h.chunk) {
      var i :| 0 <= i < |SpacePages(m, h.chunk)| && SpacePages(m, h.chunk)[i] == p;
    }
  }

  // ---------------------------------------------------------------- one step

  lemma OwnerKept(live: Live, m: Memory, n: Memory, pages: seq<Word>, h: Home)
    requires Owns(live, m, h) && Fresh(live, pages) && Untouched(m, n, pages)
    ensures Owns(Extend(live, pages), n, h) && SameMap(m, n, h.chunk)
    ensures forall p :: p in pages ==> p !in Pages(m, h)
  {
    OtherSpaceKept(live, m, n, pages, h.chunk);
    OldStaysLive(live, pages, h.address);
    forall p | p in pages
      ensures p !in Pages(m, h)
    {
      PagesOf(m, h, p);
    }
  }

  /** A new task's home is apart from all others and leaves their maps alone. */
  lemma NewApart(live: Live, m: Memory, live': Live, m': Memory, homes: seq<Home>, h: Home)
    requires Apart(live, m, homes) && NewTaskMemory(live, m, live', m', h.address, h.chunk)
    ensures Apart(live', m', homes + [h])
    ensures forall i :: 0 <= i < |homes| ==> SameMap(m, m', homes[i].chunk)
  {
    TaskBlockApart(live, m', h.address, h.chunk);
    forall i | 0 <= i < |homes|
      ensures Owns(live', m', homes[i]) && SameMap(m, m', homes[i].chunk) && NoneShared(m', homes[i], h)
    {
      OwnerKept(live, m, m', Pages(m', h), homes[i]);
      SamePages(m, m', homes[i]);
    }
    AddHome(live, live', m, m', homes, h);
  }

  lemma SamePages(m: Memory, n: Memory, h: Home)
    requires SameMap(m, n, h.chunk)
    ensures Pages(n, h) == Pages(m, h)
  {
  }

  lemma AddHome(live0: Live, live: Live, m: Memory, n: Memory, homes: seq<Home>, h: Home)
    requires Apart(live0, m, homes) && Owns(live, n, h)
    requires forall i :: 0 <= i < |homes| ==>
               Owns(live, n, homes[i]) && SameMap(m, n, homes[i].chunk) && NoneShared(n, homes[i], h)
    ensures Apart(live, n, homes + [h])
  {
    var all := homes + [h];
    forall i, j | 0 <= i < j < |all|
      ensures NoneShared(n, all[i], all[j])
    {
      if j < |homes| {
        assert NoneShared(m, homes[i], homes[j]);
        SamePages(m, n, homes[i]);
        SamePages(m, n, homes[j]);
      }
    }
  }

  lemma MappedKeeps(live: Live, m: Memory, n: Memory, g: Home, h: Home, f: PageMap)
    requires Owns(live, m, g) && Owns(live, m, h) && Refines(live, m, n, g.chunk, f)
    requires forall p :: p in Pages(m, g) ==> p !in Pages(m, h)
    ensures Owns(live, n, h) && SameMap(m, n, h.chunk)
  {
    forall i | 0 <= i < ENTRIES + 2
      ensures SamePage(m, n, SpacePages(m, h.chunk)[i])
    {
      PagesOf(m, h, SpacePages(m, h.chunk)[i]);
      PagesOf(m, g, SpacePages(m, h.chunk)[i]);
      ConfinedPage(live, m, n, g.chunk, SpacePages(m, h.chunk)[i]);
    }
    SpaceUnchanged(live, m, n, h.chunk);
  }

  /** Mapping calls on one task's space keep all homes apart and all other maps as they are. */
  lemma MapApart(live: Live, m: Memory, n: Memory, homes: seq<Home>, k: nat, f: PageMap)
    requires Apart(live, m, homes) && k < |homes| && Refines(live, m, n, homes[k].chunk, f)
    ensures Apart(live, n, homes)
    ensures forall i :: 0 <= i < |homes| && i != k ==> SameMap(m, n, homes[i].chunk)
  {
    forall i | 0 <= i < |homes|
      ensures Owns(live, n, homes[i]) && Pages(n, homes[i]) == Pages(m, homes[i])
      ensures i != k ==> SameMap(m, n, homes[i].chunk)
    {
      if i != k {
        OtherHome(m, homes, k, i);
        MappedKeeps(live, m, n, homes[k], homes[i], f);
      }
    }
    forall i, j | 0 <= i < j < |homes|
      ensures NoneShared(n, homes[i], homes[j])
    {
      assert NoneShared(m, homes[i], homes[j]);
    }
  }

  lemma OtherHome(m: Memory, homes: seq<Home>, k: nat, i: nat)
    requires k < |homes| && i < |homes| && i != k
    requires forall j :: 0 <= j < |homes| ==> Aligned(Load(m, homes[j].chunk))
    requires forall a, b :: 0 <= a < b < |homes| ==> NoneShared(m, homes[a], homes[b])
    ensures forall p :: p in Pages(m, homes[k]) ==> p !in Pages(m, homes[i])
  {
    if k < i {
      assert NoneShared(m, homes[k], homes[i]);
    } else {
      assert NoneShared(m, homes[i], homes[k]);
    }
  }

  lemma FreedKeeps(live: Live, m: Memory, order: seq<Word>, h: Home)
    requires Owns(live, m, h) && AllLive(live, order) && forall p :: p in order ==> p !in Pages(m, h)
    ensures Owns(Shrink(live, order), m, h)
  {
    forall p | p in Pages(m, h)
      ensures LivePage(Shrink(live, order), p)
    {
      OwnedIsLive(live, m, h, p);
      ShrinkAt(live, order, Block(p));
      if i :| 0 <= i < |order| && Block(order[i]) == Block(p) {
        BlockInjective(order[i], p);
      }
    }
    forall i | 0 <= i < ENTRIES + 2
      ensures LivePage(Shrink(live, order), SpacePages(m, h.chunk)[i])
    {
      PagesOf(m, h, SpacePages(m, h.chunk)[i]);
    }
  }

  lemma FreeOrderOf(live: Live, m: Memory, h: Home)
    requires Owns(live, m, h)
    ensures var order := TaskFreeOrder(m, h.address, h.chunk);
            AllLive(live, order) && forall p :: p in order <==> p in Pages(m, h)
  {
    FreeOrderPages(live, m, h.chunk);
    AppendMembers(FreeOrder(m, h.chunk), [h.address]);
    AppendMembers([h.address], SpacePages(m, h.chunk));
  }

  /** Releasing the last task keeps the other homes. */
  lemma FreeApart(live: Live, m: Memory, homes: seq<Home>)
    requires Apart(live, m, homes) && homes != []
    ensures var last := homes[|homes| - 1];
            Apart(Shrink(live, TaskFreeOrder(m, last.address, last.chunk)), m, homes[..|homes| - 1])
  {
    var n := |homes| - 1;
    var order := TaskFreeOrder(m, homes[n].address, homes[n].chunk);
    FreeOrderOf(live, m, homes[n]);
    forall i | 0 <= i < n
      ensures Owns(Shrink(live, order), m, homes[i])
    {
      OtherHome(m, homes, n, i);
      FreedKeeps(live, m, order, homes[i]);
    }
  }

  // ---------------------------------------------------------------- the system

  function Homes(tasks: seq<Task>): (homes: seq<Home>)
    reads tasks
    ensures |homes| == |tasks|
  {
    seq(|tasks|, i requires 0 <= i < |tasks| reads tasks => Home(tasks[i].address, tasks[i].pageDirectory))
  }

  /** Heap and task list are well formed, and every task has a home of its own. */
  ghost predicate Separated(k: Kernel, list: Tasks)
    reads k, k.heap, k.heap.entries, k.ram, list, list.tasks
  {
    k.Intact() && list.Valid() && Apart(k.live, k.Mem(), Homes(list.tasks))
  }

  datatype Op =
    | Create
    | MapProgram(i: nat, program: Program, stack: Word)
    | FreeLast

  /** With `tasks` tasks and `free` free blocks. */
  predicate Possible(tasks: nat, free: nat, op: Op) {
    match op
    case Create => free >= TASK_BLOCKS
    case MapProgram(i, _, _) => i < tasks
    case FreeLast => tasks > 0
  }

  function TasksAfter(tasks: nat, op: Op): nat
    requires op.FreeLast? ==> tasks > 0
  {
    match op
    case Create => tasks + 1
    case MapProgram(_, _, _) => tasks
    case FreeLast => tasks - 1
  }

  function FreeAfter(free: nat, op: Op): nat
    requires op.Create? ==> free >= TASK_BLOCKS
  {
    match op
    case Create => free - TASK_BLOCKS
    case MapProgram(_, _, _) => free
    case FreeLast => free + TASK_BLOCKS
  }

  predicate PossibleRun(tasks: nat, free: nat, ops: seq<Op>)
    decreases |ops|
  {
    ops == [] ||
    (Possible(tasks, free, ops[0]) && PossibleRun(TasksAfter(tasks, ops[0]), FreeAfter(free, ops[0]), ops[1..]))
  }

  /** The operation neither maps nor frees the task with index `i`. */
  predicate Spares(tasks: nat, op: Op, i: nat) {
    i < tasks && (op.MapProgram? ==> op.i != i) && (op.FreeLast? ==> i + 1 < tasks)
  }

  predicate SparedRun(tasks: nat, free: nat, ops: seq<Op>, i: nat)
    requires PossibleRun(tasks, free, ops)
    decreases |ops|
  {
    i < tasks &&
    (ops == [] ||
     (Spares(tasks, ops[0], i) && SparedRun(TasksAfter(tasks, ops[0]), FreeAfter(free, ops[0]), ops[1..], i)))
  }

  lemma AllSameMap(k: Kernel, list: Tasks)
    requires Separated(k, list)
    ensures forall i :: 0 <= i < |list.tasks| ==> SameMap(k.Mem(), k.Mem(), list.tasks[i].pageDirectory)
  {
    forall i | 0 <= i < |list.tasks|
      ensures SameMap(k.Mem(), k.Mem(), list.tasks[i].pageDirectory)
    {
      assert Owns(k.live, k.Mem(), Homes(list.tasks)[i]);
    }
  }

  lemma SameMapChain(m: Memory, n: Memory, o: Memory, chunk: Word)
    requires SameMap(m, n, chunk) && SameMap(n, o, chunk)
    ensures SameMap(m, o, chunk)
  {
  }

  /** Task `i` is the one it was in `tasks`, with the page map it had in `m`. */
  ghost predicate Same(k: Kernel, list: Tasks, m: Memory, tasks: seq<Task>, i: nat)
    requires k.Valid()
    reads k.heap, k.ram, k, list, list.tasks
  {
    i < |tasks| && i < |list.tasks| && list.tasks[i] == tasks[i] && SameMap(m, k.Mem(), list.tasks[i].pageDirectory)
  }

  method Create(k: Kernel, list: Tasks)
    requires Separated(k, list) && k.FreeCount() >= TASK_BLOCKS
    modifies k`live, k.heap.entries, k.ram, list, list.tasks`next
    ensures Separated(k, list) && k.FreeCount() == old(k.FreeCount()) - TASK_BLOCKS
    ensures |list.tasks| == |old(list.tasks)| + 1
    ensures forall i :: 0 <= i < |list.tasks| ==> list.tasks[i] in old(list.tasks) || fresh(list.tasks[i])
    ensures forall i: nat :: i < |old(list.tasks)| ==> Same(k, list, old(k.Mem()), old(list.tasks), i)
  {
    ghost var homes := Homes(list.tasks);
    var task := NewTask(k, list);
    ghost var h := Home(task.address, task.pageDirectory);
    NewApart(old(k.live), old(k.Mem()), k.live, k.Mem(), homes, h);
    assert Homes(list.tasks) == homes + [h];
    forall i: nat | i < |homes|
      ensures Same(k, list, old(k.Mem()), old(list.tasks), i)
    {
      assert homes[i].chunk == list.tasks[i].pageDirectory;
    }
  }

  method Map(k: Kernel, list: Tasks, task: Task, ghost i: nat, program: Program, stack: Word)
    requires Separated(k, list) && i < |list.tasks| && list.tasks[i] == task
    modifies k.ram
    ensures Separated(k, list) && k.FreeCount() == old(k.FreeCount())
    ensures forall j: nat :: j < |list.tasks| && j != i ==> Same(k, list, old(k.Mem()), list.tasks, j)
  {
    ghost var homes, m := Homes(list.tasks), k.Mem();
    assert Owns(k.live, m, homes[i]);
    ghost var f := FlatRun(Flat(m, Load(m, task.pageDirectory)), Calls(program, stack));
    var response := MapMemory(k, task.pageDirectory, program, stack);
    MapApart(k.live, m, k.Mem(), homes, i, f);
    assert Homes(list.tasks) == homes;
    forall j: nat | j < |list.tasks| && j != i
      ensures Same(k, list, m, list.tasks, j)
    {
      assert homes[j].chunk == list.tasks[j].pageDirectory;
    }
  }

  method Release(k: Kernel, list: Tasks, task: Task)
    requires Separated(k, list) && list.tasks != [] && list.tasks[|list.tasks| - 1] == task
    modifies k`live, k.heap.entries, list, list.tasks`next
    ensures Separated(k, list) && k.FreeCount() == old(k.FreeCount()) + TASK_BLOCKS
    ensures |list.tasks| == |old(list.tasks)| - 1
    ensures forall i :: 0 <= i < |list.tasks| ==> list.tasks[i] in old(list.tasks)
    ensures forall i: nat :: i < |list.tasks| ==> Same(k, list, old(k.Mem()), old(list.tasks), i)
  {
    ghost var homes := Homes(list.tasks);
    assert homes[|homes| - 1] == Home(task.address, task.pageDirectory);
    AllSameMap(k, list);
    FreeApart(k.live, k.Mem(), homes);
    TaskFree(k, list, task);
    assert Homes(list.tasks) == homes[..|homes| - 1];
  }

  /** Task number `i` of the list. */
  method TaskAt(list: Tasks, i: nat) returns (task: Task)
    requires list.Valid() && i < |list.tasks|
    ensures task == list.tasks[i]
  {
    var at, j := list.head, 0;
    while j < i
      invariant 0 <= j <= i && at == list.tasks[j]
    {
      assert list.tasks[j].next == list.tasks[j + 1];
      at := at.next;
      j := j + 1;
    }
    task := at;
  }

  /** One operation keeps all tasks separate, and the task and the page map of every task it is
      not about. */
  method Perform(k: Kernel, list: Tasks, op: Op)
    requires Separated(k, list) && Possible(|list.tasks|, k.FreeCount(), op)
    modifies k`live, k.heap.entries, k.ram, list, list.tasks`next
    ensures Separated(k, list)
    ensures |list.tasks| == TasksAfter(|old(list.tasks)|, op) && k.FreeCount() == FreeAfter(old(k.FreeCount()), op)
    ensures forall i: nat :: Spares(|old(list.tasks)|, op, i) ==> Same(k, list, old(k.Mem()), old(list.tasks), i)
    ensures forall i :: 0 <= i < |list.tasks| ==> list.tasks[i] in old(list.tasks) || fresh(list.tasks[i])
  {
    match op
    case Create =>
      Create(k, list);
      assert forall i: nat :: i < |old(list.tasks)| ==> Same(k, list, old(k.Mem()), old(list.tasks), i);
    case MapProgram(i, program, stack) =>
      var task := TaskAt(list, i);
      Map(k, list, task, i, program, stack);
    case FreeLast =>
      Release(k, list, list.tail);
      assert forall i: nat :: i < |list.tasks| ==> Same(k, list, old(k.Mem()), old(list.tasks), i);
  }

  /** Over every run of creating, mapping and freeing tasks the homes of all tasks stay separate,
      the blocks taken are 1027 for every task, and a task the run neither maps nor frees keeps
      every entry of its address space. */
  method Run(k: Kernel, list: Tasks, ops: seq<Op>)
    requires Separated(k, list) && PossibleRun(|list.tasks|, k.FreeCount(), ops)
    modifies k`live, k.heap.entries, k.ram, list, list.tasks`next
    ensures Separated(k, list)
    ensures k.FreeCount() + TASK_BLOCKS * |list.tasks| == old(k.FreeCount() + TASK_BLOCKS * |list.tasks|)
    ensures forall i: nat :: SparedRun(|old(list.tasks)|, old(k.FreeCount()), ops, i) ==>
              Same(k, list, old(k.Mem()), old(list.tasks), i)
    decreases |ops|
  {
    if ops == [] {
      AllSameMap(k, list);
      return;
    }
    Perform(k, list, ops[0]);
    ghost var m, tasks := k.Mem(), list.tasks;
    Run(k, list, ops[1..]);
    forall i: nat | SparedRun(|old(list.tasks)|, old(k.FreeCount()), ops, i)
      ensures Same(k, list, old(k.Mem()), old(list.tasks), i)
    {
      assert Spares(|old(list.tasks)|, ops[0], i) && Same(k, list, m, tasks, i);
      SameMapChain(old(k.Mem()), m, k.Mem(), list.tasks[i].pageDirectory);
    }
  }
}
