/** Memory a process owns: process_malloc and process_free of `src/task/process.c`. */
module ProcessHeap {
  import opened Words
  import opened HeapTable
  import opened Heap
  import opened Ram
  import opened KernelHeap

  const MAX_ALLOCATIONS: int := 1024

  /** The least index of `v` in `s`, or |s|. */
  function FirstIndex(s: seq<Word>, v: Word): (r: nat)
    ensures r <= |s| && (r < |s| ==> s[r] == v)
    ensures forall i :: 0 <= i < r ==> s[i] != v
  {
    if s == [] || s[0] == v then 0 else 1 + FirstIndex(s[1..], v)
  }

  lemma FirstIndexIs(s: seq<Word>, v: Word, i: nat)
    requires i <= |s| && (forall j :: 0 <= j < i ==> s[j] != v) && (i < |s| ==> s[i] == v)
    ensures FirstIndex(s, v) == i
  {
  }

  lemma FirstIndexIn(s: seq<Word>, v: Word)
    ensures v in s <==> FirstIndex(s, v) < |s|
  {
  }

  /** The slots after a pointer was recorded; a full table forgets it. */
  function Recorded(slots: seq<Word>, ptr: Word): seq<Word> {
    var i := FirstIndex(slots, 0);
    if i < |slots| then slots[i := ptr] else slots
  }

  /** The slots after a pointer was forgotten. */
  function Forgotten(slots: seq<Word>, ptr: Word): seq<Word> {
    var i := FirstIndex(slots, ptr);
    if i < |slots| then slots[i := 0] else slots
  }

  class Process {
    const allocations: array<Word>

    ghost predicate Valid() {
      allocations.Length == MAX_ALLOCATIONS
    }

    constructor ()
      ensures Valid() && fresh(allocations) && allocations.Length == 1024
      ensures forall i :: 0 <= i < 1024 ==> allocations[i] == 0
    {
      allocations := new Word[MAX_ALLOCATIONS](_ => 0);
    }

    /** process_free_alloc_index. */
    method FreeAllocIndex() returns (res: int)
      requires Valid()
      ensures var i := FirstIndex(allocations[..], 0);
              res == if i < MAX_ALLOCATIONS then i else NO_MEMORY
    {
      var i := 0;
      while i < MAX_ALLOCATIONS
        invariant 0 <= i <= MAX_ALLOCATIONS
        invariant forall j :: 0 <= j < i ==> allocations[j] != 0
      {
        if allocations[i] == 0 {
          FirstIndexIs(allocations[..], 0, i);
          return i;
        }
        i := i + 1;
      }
      FirstIndexIs(allocations[..], 0, MAX_ALLOCATIONS);
      return NO_MEMORY;
    }

    /** is_process_pointer. */
    method IsProcessPointer(ptr: Word) returns (yes: bool)
      requires Valid()
      ensures yes <==> ptr in allocations[..]
    {
      var i := 0;
      while i < MAX_ALLOCATIONS
        invariant 0 <= i <= MAX_ALLOCATIONS
        invariant forall j :: 0 <= j < i ==> allocations[j] != ptr
      {
        if allocations[i] == ptr {
          assert allocations[..][i] == ptr;
          return true;
        }
        i := i + 1;
      }
      return false;
    }

    /** mark_free_allocation. */
    method MarkFreeAllocation(ptr: Word)
      requires Valid()
      modifies allocations
      ensures allocations[..] == Forgotten(old(allocations[..]), ptr)
    {
      var i := 0;
      while i < MAX_ALLOCATIONS
        invariant 0 <= i <= MAX_ALLOCATIONS
        invariant forall j :: 0 <= j < i ==> allocations[j] != ptr
        invariant allocations[..] == old(allocations[..])
      {
        if allocations[i] == ptr {
          FirstIndexIs(allocations[..], ptr, i);
          allocations[i] := 0;
          return;
        }
        i := i + 1;
      }
      FirstIndexIs(allocations[..], ptr, MAX_ALLOCATIONS);
    }

    /** process_malloc.  A pointer that finds no slot stays allocated but is not recorded. */
    method Malloc(k: Kernel, size: Word) returns (ptr: Word)
      requires Valid() && k.Valid()
      requires (allocations as object) != k.ram && (allocations as object) != k.heap.entries
      modifies allocations, k`live, k.heap.entries, k.ram
      ensures k.Valid()
      ensures var s := StartBlock(old(k.Table()), BlocksFor(size));
              if s < 0 then
                && ptr == 0 && allocations[..] == old(allocations[..])
                && k.heap.entries[..] == old(k.heap.entries[..]) && k.live == old(k.live) && k.Mem() == old(k.Mem())
              else
                && Filled(old(k.Mem()), k.Mem(), BlockAddress(HEAP_ADDRESS, s), 0, size)
                && allocations[..] == Recorded(old(allocations[..]), BlockAddress(HEAP_ADDRESS, s))
                && ptr == (if 0 in old(allocations[..]) then BlockAddress(HEAP_ADDRESS, s) else 0)
      ensures old(k.Intact()) && BlocksFor(size) >= 1 && HasRun(old(k.Table()), BlocksFor(size)) ==>
                && k.Intact()
                && k.Table() == MallocTable(old(k.Table()), size)
                && k.heap.Outside() == old(k.heap.Outside())
    {
      var q := Allocate(k, size);
      if q == 0 {
        return 0;
      }
      var recorded := Record(q);
      return if recorded then q else 0;
    }

    /** The first half of process_malloc: the zeroed block. */
    static method Allocate(k: Kernel, size: Word) returns (q: Word)
      requires k.Valid()
      modifies k`live, k.heap.entries, k.ram
      ensures k.Valid()
      ensures var s := StartBlock(old(k.Table()), BlocksFor(size));
              if s < 0 then
                && q == 0 && k.heap.entries[..] == old(k.heap.entries[..]) && k.live == old(k.live)
                && k.Mem() == old(k.Mem())
              else q == BlockAddress(HEAP_ADDRESS, s) != 0 && Filled(old(k.Mem()), k.Mem(), q, 0, size)
      ensures old(k.Intact()) && BlocksFor(size) >= 1 && HasRun(old(k.Table()), BlocksFor(size)) ==>
                && k.Intact()
                && k.Table() == MallocTable(old(k.Table()), size)
                && k.heap.Outside() == old(k.heap.Outside())
    {
      q := k.Kzalloc(size);
    }

    /** The second half of process_malloc. */
    method Record(ptr: Word) returns (recorded: bool)
      requires Valid()
      modifies allocations
      ensures allocations[..] == Recorded(old(allocations[..]), ptr)
      ensures recorded <==> 0 in old(allocations[..])
    {
      FirstIndexIn(allocations[..], 0);
      var index := FreeAllocIndex();
      recorded := index >= 0;
      if recorded {
        allocations[index] := ptr;
      }
    }

    /** process_free. */
    method Free(k: Kernel, ptr: Word)
      requires Valid() && k.Valid()
      requires (allocations as object) != k.ram && (allocations as object) != k.heap.entries
      modifies allocations, k`live, k.heap.entries
      ensures k.Valid() && allocations[..] == Forgotten(old(allocations[..]), ptr)
      ensures k.heap.entries[..] == FreeEffect(old(k.heap.entries[..]), k.heap.origin, old(allocations[..]), ptr)
      ensures ptr !in old(allocations[..]) ==> k.live == old(k.live)
      ensures old(k.Intact()) && HeapPage(ptr) && Block(ptr) in old(k.live) ==> k.Intact()
      ensures AddressBlock(HEAP_ADDRESS, ptr) >= 0 ==>
                && k.Table() == FreeTable(old(k.Table()), old(allocations[..]), ptr)
                && k.heap.Outside() == old(k.heap.Outside())
    {
      var owned := IsProcessPointer(ptr);
      if !owned {
        return;
      }
      MarkFreeAllocation(ptr);
      k.Kfree(ptr);
    }
  }

  ghost function MallocTable(t: seq<Entry>, size: Word): seq<Entry>
    requires BlocksFor(size) >= 1 && HasRun(t, BlocksFor(size))
  {
    StartBlockExact(t, BlocksFor(size));
    Marked(t, StartBlock(t, BlocksFor(size)), BlocksFor(size))
  }

  function FreeTable(t: seq<Entry>, slots: seq<Word>, ptr: Word): seq<Entry>
    requires AddressBlock(HEAP_ADDRESS, ptr) >= 0
  {
    if ptr in slots then Freed(t, AddressBlock(HEAP_ADDRESS, ptr), |t|) else t
  }

  /** The memory around the table after process_free. */
  function FreeEffect(e: seq<Entry>, origin: nat, slots: seq<Word>, ptr: Word): seq<Entry>
    requires origin >= 0x8_0000 && origin + HEAP_BLOCKS <= |e|
  {
    if ptr in slots then Freed(e, origin + AddressBlock(HEAP_ADDRESS, ptr), origin + HEAP_BLOCKS) else e
  }

  lemma FreedNothing(e: seq<Entry>, b: nat, end: nat)
    requires end <= |e|
    ensures Freed(e, b, end) == e <==> b >= end || e[b] == FREE
  {
    FreedPointwise(e, b, end);
  }

  /** Freeing a pointer that is not recorded changes nothing, except that address 0 passes for
      recorded while a slot is empty: kfree(0) then clears bytes below the table. */
  lemma UnownedFreeExact(e: seq<Entry>, origin: nat, slots: seq<Word>, ptr: Word)
    requires origin >= 0x8_0000 && origin + HEAP_BLOCKS <= |e|
    requires ptr == 0 || ptr !in slots
    ensures FreeEffect(e, origin, slots, ptr) == e <==> ptr != 0 || 0 !in slots || e[origin - 4096] == FREE
  {
    assert AddressBlock(HEAP_ADDRESS, 0) == -4096;
    FreedNothing(e, origin - 4096, origin + HEAP_BLOCKS);
  }

  // ---------------------------------------------------------------- runs of many processes

  datatype Op =
    | ProcessMalloc(pid: nat, size: Word)
    | ProcessFree(pid: nat, ptr: Word)

  /** The heap table and the recorded pointers of every process. */
  datatype State = State(table: seq<Entry>, slots: seq<seq<Word>>)

  /** Non-zero sizes and pointers, known processes, and no request that overruns the table. */
  ghost predicate Possible(st: State, op: Op) {
    match op
    case ProcessMalloc(pid, size) =>
      && pid < |st.slots| && BlocksFor(size) >= 1
      && (HasRun(st.table, BlocksFor(size)) || !EndsFree(st.table))
    case ProcessFree(pid, ptr) =>
      pid < |st.slots| && ptr != 0
  }

  /** One call by one process.  A pointer below the heap is never recorded, so freeing it does
      nothing. */
  ghost function Step(st: State, op: Op): State
    requires Possible(st, op)
  {
    match op
    case ProcessMalloc(pid, size) =>
      if HasRun(st.table, BlocksFor(size)) then
        var ptr := BlockAddress(HEAP_ADDRESS, StartBlock(st.table, BlocksFor(size)));
        State(MallocTable(st.table, size), st.slots[pid := Recorded(st.slots[pid], ptr)])
      else st
    case ProcessFree(pid, ptr) =>
      if AddressBlock(HEAP_ADDRESS, ptr) >= 0 then
        State(FreeTable(st.table, st.slots[pid], ptr), st.slots[pid := Forgotten(st.slots[pid], ptr)])
      else st
  }

  ghost predicate PossibleRun(st: State, ops: seq<Op>)
    decreases |ops|
  {
    ops == [] || (Possible(st, ops[0]) && PossibleRun(Step(st, ops[0]), ops[1..]))
  }

  ghost function Run(st: State, ops: seq<Op>): State
    requires PossibleRun(st, ops)
    decreases |ops|
  {
    if ops == [] then st else Run(Step(st, ops[0]), ops[1..])
  }

  ghost predicate Records(slots: seq<seq<Word>>, p: int, i: int, ptr: Word) {
    0 <= p < |slots| && 0 <= i < |slots[p]| && slots[p][i] == ptr && ptr != 0
  }

  /** Every recorded pointer is the first block of a live chain, and is recorded once. */
  ghost predicate Owned(live: Live, slots: seq<seq<Word>>) {
    && (forall p, i, ptr :: Records(slots, p, i, ptr) ==> HeapPage(ptr) && Block(ptr) in live)
    && (forall p, i, q, j, ptr :: Records(slots, p, i, ptr) && Records(slots, q, j, ptr) ==> p == q && i == j)
  }

  ghost predicate Sound(st: State) {
    && |st.table| == HEAP_BLOCKS
    && Encodes(st.table, Decode(st.table))
    && Owned(Decode(st.table), st.slots)
  }

  lemma RecordedAt(slots: seq<seq<Word>>, pid: nat, ptr: Word, p: int, i: int, q: Word)
    requires pid < |slots| && ptr != 0
    ensures var slots' := slots[pid := Recorded(slots[pid], ptr)];
            Records(slots', p, i, q) <==>
              Records(slots, p, i, q) || (q == ptr && p == pid && i == FirstIndex(slots[pid], 0) < |slots[pid]|)
  {
  }

  lemma ForgottenAt(slots: seq<seq<Word>>, pid: nat, ptr: Word, p: int, i: int, q: Word)
    requires pid < |slots| && ptr != 0
    ensures var slots' := slots[pid := Forgotten(slots[pid], ptr)];
            Records(slots', p, i, q) <==>
              Records(slots, p, i, q) && !(p == pid && i == FirstIndex(slots[pid], ptr))
  {
  }

  lemma SoundMalloc(st: State, pid: nat, size: Word)
    requires Sound(st) && Possible(st, ProcessMalloc(pid, size)) && HasRun(st.table, BlocksFor(size))
    ensures var st' := Step(st, ProcessMalloc(pid, size));
            var ptr := BlockAddress(HEAP_ADDRESS, StartBlock(st.table, BlocksFor(size)));
            && Sound(st') && HeapPage(ptr) && Block(ptr) !in Decode(st.table)
            && Decode(st'.table) == Decode(st.table)[Block(ptr) := BlocksFor(size)]
            && (0 in st.slots[pid] ==> exists i :: Records(st'.slots, pid, i, ptr))
            && (forall p, i, q :: Records(st.slots, p, i, q) ==> Records(st'.slots, p, i, q))
  {
    var n, live := BlocksFor(size), Decode(st.table);
    TakenIsGranted(st.table, live, n);
    var s := StartBlock(st.table, n);
    var ptr := BlockAddress(HEAP_ADDRESS, s);
    DecodeEncoded(MallocTable(st.table, size), live[s := n]);
    var slots' := st.slots[pid := Recorded(st.slots[pid], ptr)];
    FirstIndexIn(st.slots[pid], 0);
    RecordedAt(st.slots, pid, ptr, pid, FirstIndex(st.slots[pid], 0), ptr);
    forall p, i, q | Records(st.slots, p, i, q)
      ensures Records(slots', p, i, q)
    {
      RecordedAt(st.slots, pid, ptr, p, i, q);
    }
    forall p, i, q | Records(slots', p, i, q)
      ensures HeapPage(q) && Block(q) in live[s := n]
      ensures q == ptr ==> p == pid && i == FirstIndex(st.slots[pid], 0)
      ensures q != ptr ==> Records(st.slots, p, i, q)
    {
      RecordedAt(st.slots, pid, ptr, p, i, q);
    }
  }

  lemma RecordedPointerBlock(st: State, pid: nat, ptr: Word)
    requires Sound(st) && pid < |st.slots| && ptr != 0 && ptr in st.slots[pid]
    ensures HeapPage(ptr) && Block(ptr) in Decode(st.table) && AddressBlock(HEAP_ADDRESS, ptr) == Block(ptr)
  {
    var i :| 0 <= i < |st.slots[pid]| && st.slots[pid][i] == ptr;
    assert Records(st.slots, pid, i, ptr);
    PageBlock(ptr);
  }

  /** Freeing an owned pointer releases exactly its chain: every other recorded pointer, of this
      or any other process, keeps its allocation. */
  lemma SoundFree(st: State, pid: nat, ptr: Word)
    requires Sound(st) && Possible(st, ProcessFree(pid, ptr)) && ptr in st.slots[pid]
    ensures var st' := Step(st, ProcessFree(pid, ptr));
            && Sound(st')
            && Decode(st'.table) == Decode(st.table) - {Block(ptr)}
            && (forall p, i, q :: Records(st'.slots, p, i, q) ==>
                  && Records(st.slots, p, i, q) && Block(q) != Block(ptr)
                  && Decode(st'.table)[Block(q)] == Decode(st.table)[Block(q)])
  {
    var live := Decode(st.table);
    RecordedPointerBlock(st, pid, ptr);
    var b := Block(ptr);
    Released(st.table, live, b);
    DecodeEncoded(Freed(st.table, b, |st.table|), live - {b});
    var slots' := st.slots[pid := Forgotten(st.slots[pid], ptr)];
    var at := FirstIndex(st.slots[pid], ptr);
    assert Records(st.slots, pid, at, ptr);
    forall p, i, q | Records(slots', p, i, q)
      ensures Records(st.slots, p, i, q) && HeapPage(q) && Block(q) in live - {b}
    {
      ForgottenAt(st.slots, pid, ptr, p, i, q);
      if Block(q) == b {
        PageBlock(q);
        PageBlock(ptr);
      }
    }
  }

  /** Freeing a non-zero pointer the process does not own changes nothing. */
  lemma UnownedFree(st: State, pid: nat, ptr: Word)
    requires Possible(st, ProcessFree(pid, ptr)) && ptr !in st.slots[pid]
    ensures Step(st, ProcessFree(pid, ptr)) == st
  {
    assert st.slots[pid := st.slots[pid]] == st.slots;
  }

  lemma StepSound(st: State, op: Op)
    requires Sound(st) && Possible(st, op)
    ensures Sound(Step(st, op))
  {
    match op
    case ProcessMalloc(pid, size) =>
      if HasRun(st.table, BlocksFor(size)) {
        SoundMalloc(st, pid, size);
      }
    case ProcessFree(pid, ptr) =>
      if ptr in st.slots[pid] {
        SoundFree(st, pid, ptr);
      } else {
        UnownedFree(st, pid, ptr);
      }
  }

  /** Over every run by any number of processes the recorded pointers are pairwise different
      first blocks of live chains. */
  lemma {:induction false} RunSound(st: State, ops: seq<Op>)
    requires Sound(st) && PossibleRun(st, ops)
    ensures Sound(Run(st, ops))
    decreases |ops|
  {
    if ops != [] {
      StepSound(st, ops[0]);
      RunSound(Step(st, ops[0]), ops[1..]);
    }
  }

  /** Processes with empty slots over any exact table are a sound start. */
  lemma SoundStart(t: seq<Entry>, live: Live, slots: seq<seq<Word>>)
    requires |t| == HEAP_BLOCKS && Encodes(t, live)
    requires forall p, i :: 0 <= p < |slots| && 0 <= i < |slots[p]| ==> slots[p][i] == 0
    ensures Sound(State(t, slots))
  {
    DecodeEncoded(t, live);
  }

  // ---------------------------------------------------------------- the code on a run

  /** Each process has its own slots, apart from the heap's memory. */
  ghost predicate Separate(k: Kernel, procs: seq<Process>)
    reads k
  {
    && (forall p :: 0 <= p < |procs| ==>
          procs[p].Valid() && (procs[p].allocations as object) !in {k.ram as object, k.heap.entries as object})
    && (forall p, q :: 0 <= p < q < |procs| ==> procs[p].allocations != procs[q].allocations)
  }

  /** Heap and processes stand for a state of the run. */
  ghost predicate Stands(k: Kernel, procs: seq<Process>, st: State)
    reads k, k.heap, k.heap.entries, set p | p in procs :: p.allocations
  {
    && k.Intact() && Separate(k, procs) && Sound(st)
    && k.Table() == st.table && |procs| == |st.slots|
    && (forall p {:trigger procs[p]} :: 0 <= p < |procs| ==> procs[p].allocations[..] == st.slots[p])
  }

  lemma LiveIsDecoded(k: Kernel, procs: seq<Process>, st: State)
    requires Stands(k, procs, st)
    ensures k.live == Decode(st.table)
  {
    DecodeEncoded(k.Table(), k.live);
  }

  /** One call by one process is one step of the run. */
  method Perform(k: Kernel, procs: seq<Process>, op: Op, ghost st: State)
    requires Stands(k, procs, st) && Possible(st, op)
    modifies k`live, k.heap.entries, k.ram, set p | p in procs :: p.allocations
    ensures Stands(k, procs, Step(st, op))
  {
    StepSound(st, op);
    LiveIsDecoded(k, procs, st);
    match op
    case ProcessMalloc(pid, size) =>
      var ptr := procs[pid].Malloc(k, size);
    case ProcessFree(pid, ptr) =>
      if ptr in st.slots[pid] {
        RecordedPointerBlock(st, pid, ptr);
      }
      procs[pid].Free(k, ptr);
  }

  /** Every run of calls by any number of processes leaves the table and the slots of the run. */
  method Execute(k: Kernel, procs: seq<Process>, ops: seq<Op>, ghost st: State)
    requires Stands(k, procs, st) && PossibleRun(st, ops)
    modifies k`live, k.heap.entries, k.ram, set p | p in procs :: p.allocations
    ensures Stands(k, procs, Run(st, ops))
  {
    ghost var at := st;
    var j := 0;
    while j < |ops|
      invariant 0 <= j <= |ops|
      invariant Stands(k, procs, at) && PossibleRun(at, ops[j..]) && Run(at, ops[j..]) == Run(st, ops)
    {
      assert ops[j..][0] == ops[j] && ops[j..][1..] == ops[j + 1..];
      Perform(k, procs, ops[j], at);
      at := Step(at, ops[j]);
      j := j + 1;
    }
  }
}
