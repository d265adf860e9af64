/** Whole runs of satisfiable requests and frees of live pointers on one heap. */
module HeapRuns {
  import opened Words
  import opened HeapTable
  import opened Heap

  /** A request that was served and not freed since. */
  datatype Request = Request(ptr: Word, size: Word)

  datatype Op = Malloc(size: Word) | Free(ptr: Word)

  datatype State = State(table: seq<Entry>, requests: seq<Request>)

  /** heap_create accepted the region and block differences fit a signed integer. */
  predicate Region(start: Word, blocks: nat) {
    blocks < 0x8_0000 && start + blocks * BLOCK_SIZE <= WORD_LIMIT
  }

  predicate Holds(requests: seq<Request>, ptr: Word) {
    exists i :: 0 <= i < |requests| && requests[i].ptr == ptr
  }

  function Without(requests: seq<Request>, ptr: Word): seq<Request> {
    if requests == [] then []
    else if requests[0].ptr == ptr then requests[1..]
    else [requests[0]] + Without(requests[1..], ptr)
  }

  /** The sum of ceil(size / 4096) over the live requests. */
  function SumBlocks(requests: seq<Request>): nat {
    if requests == [] then 0 else BlocksFor(requests[0].size) + SumBlocks(requests[1..])
  }

  function LiveOf(start: Word, requests: seq<Request>): Live {
    if requests == [] then map[]
    else
      var b := AddressBlock(start, requests[0].ptr);
      if b < 0 then LiveOf(start, requests[1..])
      else LiveOf(start, requests[1..])[b := BlocksFor(requests[0].size)]
  }

  ghost predicate Possible(st: State, op: Op) {
    match op
    case Malloc(size) => BlocksFor(size) >= 1 && HasRun(st.table, BlocksFor(size))
    case Free(ptr) => Holds(st.requests, ptr)
  }

  ghost function Step(start: Word, st: State, op: Op): State
    requires Possible(st, op)
  {
    match op
    case Malloc(size) =>
      var n := BlocksFor(size);
      StartBlockExact(st.table, n);
      var s := StartBlock(st.table, n);
      State(Marked(st.table, s, n), st.requests + [Request(BlockAddress(start, s), size)])
    case Free(ptr) =>
      var b := AddressBlock(start, ptr);
      State(if b < 0 then st.table else Freed(st.table, b, |st.table|), Without(st.requests, ptr))
  }

  ghost predicate PossibleRun(start: Word, st: State, ops: seq<Op>)
    decreases |ops|
  {
    ops == [] || (Possible(st, ops[0]) && PossibleRun(start, Step(start, st, ops[0]), ops[1..]))
  }

  ghost function Run(start: Word, st: State, ops: seq<Op>): State
    requires PossibleRun(start, st, ops)
    decreases |ops|
  {
    if ops == [] then st else Run(start, Step(start, st, ops[0]), ops[1..])
  }

  /** `ptr` is the address of a block of the heap. */
  predicate Sits(start: Word, blocks: nat, ptr: Word) {
    var b := AddressBlock(start, ptr);
    0 <= b < blocks && ptr == BlockAddress(start, b)
  }

  ghost predicate Distinct(requests: seq<Request>) {
    forall i, j :: 0 <= i < j < |requests| ==> requests[i].ptr != requests[j].ptr
  }

  /** Every live request is a block address, and no two share one. */
  ghost predicate Placed(start: Word, blocks: nat, requests: seq<Request>) {
    (forall r :: r in requests ==> Sits(start, blocks, r.ptr)) && Distinct(requests)
  }

  /** The table is the exact encoding of the live requests, and its taken blocks number
      ceil(size / 4096) summed over them. */
  ghost predicate Exact(start: Word, st: State) {
    && Region(start, |st.table|)
    && Placed(start, |st.table|, st.requests)
    && Encodes(st.table, LiveOf(start, st.requests))
    && |TakenBlocks(st.table)| == SumBlocks(st.requests)
  }

  lemma {:induction false} LiveOfDomain(start: Word, blocks: nat, requests: seq<Request>, ptr: Word)
    requires Placed(start, blocks, requests) && Sits(start, blocks, ptr)
    ensures AddressBlock(start, ptr) in LiveOf(start, requests) <==> Holds(requests, ptr)
  {
    if requests != [] {
      LiveOfDomain(start, blocks, requests[1..], ptr);
      HoldsSplit(requests, ptr);
      assert requests[0] in requests;
    }
  }

  lemma HoldsSplit(requests: seq<Request>, ptr: Word)
    requires requests != []
    ensures Holds(requests, ptr) <==> requests[0].ptr == ptr || Holds(requests[1..], ptr)
  {
    if Holds(requests, ptr) && requests[0].ptr != ptr {
      var i :| 0 <= i < |requests| && requests[i].ptr == ptr;
      assert requests[1..][i - 1].ptr == ptr;
    }
  }

  lemma {:induction false} LiveOfAppend(start: Word, requests: seq<Request>, r: Request)
    requires AddressBlock(start, r.ptr) >= 0
    requires forall i :: 0 <= i < |requests| ==> AddressBlock(start, requests[i].ptr) != AddressBlock(start, r.ptr)
    ensures LiveOf(start, requests + [r]) == LiveOf(start, requests)[AddressBlock(start, r.ptr) := BlocksFor(r.size)]
    ensures SumBlocks(requests + [r]) == SumBlocks(requests) + BlocksFor(r.size)
  {
    if requests == [] {
      assert requests + [r] == [r];
    } else {
      assert (requests + [r])[1..] == requests[1..] + [r];
      LiveOfAppend(start, requests[1..], r);
    }
  }

  lemma {:induction false} WithoutKeeps(requests: seq<Request>, ptr: Word)
    requires Distinct(requests) && Holds(requests, ptr)
    ensures var kept := Without(requests, ptr);
            && Distinct(kept)
            && (forall r :: r in kept <==> r in requests && r.ptr != ptr)
  {
    var rest := requests[1..];
    HoldsSplit(requests, ptr);
    if requests[0].ptr != ptr {
      WithoutKeeps(rest, ptr);
      assert Without(requests, ptr)[1..] == Without(rest, ptr);
    }
  }

  lemma {:induction false} LiveOfWithout(start: Word, blocks: nat, requests: seq<Request>, ptr: Word)
    requires Placed(start, blocks, requests) && Holds(requests, ptr)
    ensures var b := AddressBlock(start, ptr);
            && b in LiveOf(start, requests)
            && LiveOf(start, Without(requests, ptr)) == LiveOf(start, requests) - {b}
            && SumBlocks(Without(requests, ptr)) == SumBlocks(requests) - LiveOf(start, requests)[b]
  {
    var rest := requests[1..];
    HoldsSplit(requests, ptr);
    var i :| 0 <= i < |requests| && requests[i].ptr == ptr;
    assert requests[i] in requests && requests[0] in requests;
    LiveOfDomain(start, blocks, rest, ptr);
    if requests[0].ptr != ptr {
      LiveOfWithout(start, blocks, rest, ptr);
      assert Without(requests, ptr)[1..] == Without(rest, ptr);
    }
  }

  lemma MallocExact(start: Word, st: State, size: Word)
    requires Exact(start, st) && Possible(st, Malloc(size))
    ensures Exact(start, Step(start, st, Malloc(size)))
  {
    var n := BlocksFor(size);
    StartBlockExact(st.table, n);
    var s := StartBlock(st.table, n);
    var r := Request(BlockAddress(start, s), size);
    BlockAddressRoundTrip(start, s);
    MarkedEncodes(st.table, LiveOf(start, st.requests), s, n);
    MarkedCounts(st.table, s, n);
    LiveOfDomain(start, |st.table|, st.requests, r.ptr);
    LiveOfAppend(start, st.requests, r);
  }

  lemma FreeExact(start: Word, st: State, ptr: Word)
    requires Exact(start, st) && Possible(st, Free(ptr))
    ensures Exact(start, Step(start, st, Free(ptr)))
  {
    var live, b := LiveOf(start, st.requests), AddressBlock(start, ptr);
    WithoutKeeps(st.requests, ptr);
    LiveOfWithout(start, |st.table|, st.requests, ptr);
    FreedEncodes(st.table, live, b);
    FreedCounts(st.table, live, b);
  }

  /** One satisfiable request or one free of a live pointer keeps the encoding exact. */
  lemma StepExact(start: Word, st: State, op: Op)
    requires Exact(start, st) && Possible(st, op)
    ensures Exact(start, Step(start, st, op))
    ensures |Step(start, st, op).table| == |st.table|
  {
    match op
    case Malloc(size) => MallocExact(start, st, size);
    case Free(ptr) => FreeExact(start, st, ptr);
  }

  /** Over every run the table stays the exact encoding of the live requests; once every
      pointer has been freed, in whatever order, the table is all free again. */
  lemma {:induction false} RunExact(start: Word, st: State, ops: seq<Op>)
    requires Exact(start, st) && PossibleRun(start, st, ops)
    ensures var end := Run(start, st, ops);
            && Exact(start, end) && |end.table| == |st.table|
            && (end.requests == [] ==> end.table == seq(|st.table|, _ => FREE))
    decreases |ops|
  {
    if ops == [] {
      if st.requests == [] {
        AllFreeEncodesEmpty(st.table);
      }
    } else {
      StepExact(start, st, ops[0]);
      RunExact(start, Step(start, st, ops[0]), ops[1..]);
    }
  }

  /** The table left by heap_create is the state with no requests. */
  lemma CreatedExact(start: Word, t: seq<Entry>)
    requires Region(start, |t|) && Encodes(t, map[])
    ensures Exact(start, State(t, []))
  {
    AllFreeEncodesEmpty(t);
    assert TakenBlocks(t) == {};
  }

  // ---------------------------------------------------------------- the code on a run

  /** The heap in memory stands for a state of the run. */
  ghost predicate Stands(heap: HeapChunk, st: State)
    reads heap, heap.entries
  {
    heap.Valid() && heap.Table() == st.table && Exact(heap.start, st)
  }

  /** One call on the heap is one step of the run, and writes nothing outside the table. */
  method Perform(heap: HeapChunk, op: Op, ghost st: State) returns (ptr: Word)
    requires Stands(heap, st) && Possible(st, op)
    modifies heap.entries
    ensures Stands(heap, Step(heap.start, st, op)) && heap.Outside() == old(heap.Outside())
    ensures op.Malloc? ==> Step(heap.start, st, op).requests == st.requests + [Request(ptr, op.size)]
  {
    StepExact(heap.start, st, op);
    match op
    case Malloc(size) =>
      StartBlockExact(st.table, BlocksFor(size));
      RequestedIsMarked(st.table, BlocksFor(size));
      ptr := heap.Malloc(size);
    case Free(p) =>
      LiveOfWithout(heap.start, |st.table|, st.requests, p);
      HeldSits(heap.start, |st.table|, st.requests, p);
      heap.Free(p);
      ptr := 0;
  }

  lemma HeldSits(start: Word, blocks: nat, requests: seq<Request>, ptr: Word)
    requires Placed(start, blocks, requests) && Holds(requests, ptr)
    ensures Sits(start, blocks, ptr)
  {
    var i :| 0 <= i < |requests| && requests[i].ptr == ptr;
    assert requests[i] in requests;
  }

  /** Every run of calls on a heap leaves the table of the run. */
  method Execute(heap: HeapChunk, ops: seq<Op>, ghost st: State)
    requires Stands(heap, st) && PossibleRun(heap.start, st, ops)
    modifies heap.entries
    ensures Stands(heap, Run(heap.start, st, ops)) && heap.Outside() == old(heap.Outside())
  {
    ghost var at := st;
    var j := 0;
    while j < |ops|
      invariant 0 <= j <= |ops| && heap.Outside() == old(heap.Outside())
      invariant Stands(heap, at) && PossibleRun(heap.start, at, ops[j..])
      invariant Run(heap.start, at, ops[j..]) == Run(heap.start, st, ops)
    {
      assert ops[j..][0] == ops[j] && ops[j..][1..] == ops[j + 1..];
      var ptr := Perform(heap, ops[j], at);
      at := Step(heap.start, at, ops[j]);
      j := j + 1;
    }
  }
}
