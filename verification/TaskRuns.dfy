/** Whole runs of new_task, task_switch and the removal of the last task: the linked list with
    its current pointer refines a sequence with a cursor. */
module TaskRuns {
  import opened Words
  import opened TaskList

  datatype Op = Add(address: Word) | SwitchTo(k: nat) | RemoveLast

  /** The blocks of the tasks in list order, and the index of the current one. */
  datatype Cursor = Cursor(addresses: seq<Word>, at: nat)

  predicate Allowed(c: Cursor, op: Op) {
    match op
    case Add(_) => true
    case SwitchTo(k) => k < |c.addresses|
    case RemoveLast => c.addresses != []
  }

  function Step(c: Cursor, op: Op): Cursor
    requires Allowed(c, op)
  {
    match op
    case Add(address) => Cursor(c.addresses + [address], if c.addresses == [] then 0 else c.at)
    case SwitchTo(k) => Cursor(c.addresses, k)
    case RemoveLast =>
      var n := |c.addresses| - 1;
      Cursor(c.addresses[..n], if c.at == n then 0 else c.at)
  }

  predicate AllowedRun(c: Cursor, ops: seq<Op>)
    decreases |ops|
  {
    ops == [] || (Allowed(c, ops[0]) && AllowedRun(Step(c, ops[0]), ops[1..]))
  }

  function RunFrom(c: Cursor, ops: seq<Op>): Cursor
    requires AllowedRun(c, ops)
    decreases |ops|
  {
    if ops == [] then c else RunFrom(Step(c, ops[0]), ops[1..])
  }

  /** The cursor never leaves the list. */
  lemma {:induction false} CursorInside(c: Cursor, ops: seq<Op>)
    requires AllowedRun(c, ops) && (c.addresses != [] ==> c.at < |c.addresses|)
    ensures var end := RunFrom(c, ops);
            end.addresses != [] ==> end.at < |end.addresses|
    decreases |ops|
  {
    if ops != [] {
      CursorInside(Step(c, ops[0]), ops[1..]);
    }
  }

  /** The well-formed list `list` stands for `c`. */
  ghost predicate Stands(list: Tasks, c: Cursor)
    reads list, list.tasks
  {
    && list.Valid() && |c.addresses| == |list.tasks|
    && (forall i :: 0 <= i < |list.tasks| ==> list.tasks[i].address == c.addresses[i])
    && (list.tasks != [] ==> c.at < |list.tasks| && list.current == list.tasks[c.at])
  }

  /** One operation on the list is one step of the cursor. */
  method Perform(list: Tasks, op: Op, ghost c: Cursor)
    requires Stands(list, c) && Allowed(c, op)
    modifies list, list.tasks
    ensures Stands(list, Step(c, op))
    ensures forall k :: 0 <= k < |list.tasks| ==> list.tasks[k] in old(list.tasks) || fresh(list.tasks[k])
  {
    match op
    case Add(address) =>
      var task := new Task(address);
      list.Append(task);
    case SwitchTo(k) =>
      SwitchToIndex(list, k);
    case RemoveLast =>
      list.Remove(list.tail, |list.tasks| - 1);
  }

  /** Finds a listed task by its place and switches to it. */
  method SwitchToIndex(list: Tasks, k: nat)
    requires list.Valid() && k < |list.tasks|
    modifies list`current
    ensures list.Valid() && list.tasks == old(list.tasks) && list.current == list.tasks[k]
  {
    var task, i := list.head, 0;
    while i < k
      invariant 0 <= i <= k && task == list.tasks[i]
    {
      assert list.tasks[i].next == list.tasks[i + 1];
      task := task.next;
      i := i + 1;
    }
    list.Switch(task);
  }

  /** Every run keeps a well-formed doubly linked list with the current task in it, whose tasks
      and cursor are those of the run on plain sequences. */
  method Run(list: Tasks, ops: seq<Op>, ghost c: Cursor)
    requires Stands(list, c) && AllowedRun(c, ops)
    modifies list, list.tasks
    ensures Stands(list, RunFrom(c, ops))
  {
    ghost var at := c;
    var j := 0;
    while j < |ops|
      invariant 0 <= j <= |ops|
      invariant Stands(list, at) && AllowedRun(at, ops[j..]) && RunFrom(at, ops[j..]) == RunFrom(c, ops)
      invariant forall k :: 0 <= k < |list.tasks| ==> list.tasks[k] in old(list.tasks) || fresh(list.tasks[k])
    {
      assert ops[j..][0] == ops[j] && ops[j..][1..] == ops[j + 1..];
      Perform(list, ops[j], at);
      at := Step(at, ops[j]);
      j := j + 1;
    }
  }
}
