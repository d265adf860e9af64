/** The list of tasks of `src/task/task.c`: a doubly linked list with a current task. */
module TaskList {
  import opened Words

  /** `struct task`; `address` is the heap block that holds it. */
  class Task {
    const address: Word
    var pageDirectory: Word
    var next: Task?
    var prev: Task?

    /** A task as kzalloc leaves it: no directory, not linked. */
    constructor (address: Word)
      ensures this.address == address && pageDirectory == 0 && next == null && prev == null
    {
      this.address, pageDirectory, next, prev := address, 0, null, null;
    }
  }

  /** `s` without the element at index `k`. */
  function Without<T>(s: seq<T>, k: nat): (r: seq<T>)
    requires k < |s|
    ensures |r| == |s| - 1
    ensures forall i :: 0 <= i < |r| ==> r[i] == if i < k then s[i] else s[i + 1]
  {
    s[..k] + s[k + 1..]
  }

  class Tasks {
    var head: Task?
    var tail: Task?
    var current: Task?
    /** The tasks in list order. */
    ghost var tasks: seq<Task>

    /** head, tail and the next links describe `tasks`. */
    ghost predicate Linked()
      reads this, tasks
    {
      && (forall i, j :: 0 <= i < j < |tasks| ==> tasks[i] != tasks[j])
      && head == (if tasks == [] then null else tasks[0])
      && tail == (if tasks == [] then null else tasks[|tasks| - 1])
      && (forall i {:trigger tasks[i].next} :: 0 <= i < |tasks| ==>
            tasks[i].next == if i + 1 < |tasks| then tasks[i + 1] else null)
    }

    /** Everything but the prev links. */
    ghost predicate Forward()
      reads this, tasks
    {
      Linked() && if tasks == [] then current == null else current != null && current in tasks
    }

    ghost predicate Backward()
      reads this, tasks
    {
      forall i {:trigger tasks[i].prev} :: 0 <= i < |tasks| ==> tasks[i].prev == if i > 0 then tasks[i - 1] else null
    }

    ghost predicate Valid()
      reads this, tasks
    {
      Forward() && Backward()
    }

    constructor ()
      ensures Valid() && tasks == []
    {
      head, tail, current, tasks := null, null, null, [];
    }

    /** The list part of new_task. */
    method Append(task: Task)
      requires Valid() && task !in tasks && task.next == null && task.prev == null
      modifies this, tasks`next, task`prev
      ensures Valid() && tasks == old(tasks) + [task]
      ensures current == if old(tasks) == [] then task else old(current)
    {
      if head == null {
        head := task;
        tail := task;
        current := task;
        tasks := [task];
        return;
      }
      tail.next := task;
      task.prev := tail;
      tail := task;
      tasks := tasks + [task];
    }

    /** get_next_task; the code does not expect an empty list. */
    method GetNextTask() returns (task: Task?)
      requires current != null
      ensures task == NextOf(current)
    {
      if current.next == null {
        return head;
      }
      return current.next;
    }

    ghost function NextOf(task: Task): Task?
      reads this, task
    {
      if task.next == null then head else task.next
    }

    /** task_switch, without the directory switch. */
    method Switch(task: Task)
      requires Valid() && task in tasks
      modifies this`current
      ensures Valid() && tasks == old(tasks) && current == task
    {
      current := task;
    }

    /** task_list_remove up to the choice of the current task. */
    method Unlink(task: Task, ghost k: nat)
      requires Valid() && k < |tasks| && tasks[k] == task
      modifies this`head, this`tail, this`tasks, tasks`next
      ensures tasks == Without(old(tasks), k) && Linked()
      ensures forall i {:trigger tasks[i].prev} :: 0 <= i < |tasks| ==>
                tasks[i].prev == if i == k then task else if i > 0 then tasks[i - 1] else null
      ensures task.next == old(task.next)
    {
      ghost var before := tasks;
      assert tasks[k].prev == if k > 0 then tasks[k - 1] else null;
      assert tasks[k].next == if k + 1 < |tasks| then tasks[k + 1] else null;
      if task.prev != null {
        task.prev.next := task.next;
      }
      if task == head {
        head := task.next;
      }
      if task == tail {
        tail := task.prev;
      }
      tasks := Without(tasks, k);
      forall i | 0 <= i < |tasks|
        ensures tasks[i].next == if i + 1 < |tasks| then tasks[i + 1] else null
        ensures tasks[i].prev == if i == k then task else if i > 0 then tasks[i - 1] else null
      {
        var j := if i < k then i else i + 1;
        assert old(before[j].next) == if j + 1 < |before| then before[j + 1] else null;
        assert before[j].prev == if j > 0 then before[j - 1] else null;
      }
    }

    /** task_list_remove.  The removed task's successor keeps its prev link to the removed task,
        so the list stays well formed exactly when the last task is removed. */
    method Remove(task: Task, ghost k: nat)
      requires Valid() && k < |tasks| && tasks[k] == task
      modifies this, tasks`next
      ensures tasks == Without(old(tasks), k) && Forward()
      ensures Valid() <==> k == |old(tasks)| - 1
      ensures current == if old(current) != task then old(current)
                         else if k + 1 < |old(tasks)| then old(tasks)[k + 1]
                         else if tasks == [] then null else tasks[0]
      ensures task.next == old(task.next)
    {
      ghost var before := tasks;
      assert tasks[k].next == if k + 1 < |tasks| then tasks[k + 1] else null;
      Unlink(task, k);
      if current != task {
        KeptMember(before, k, current);
      }
      if task == current {
        current := GetNextTask();
      }
      assert k < |tasks| ==> tasks[k].prev == task && tasks[k] == before[k + 1];
    }

    static lemma KeptMember<T>(s: seq<T>, k: nat, t: T)
      requires k < |s| && t in s && t != s[k]
      ensures t in Without(s, k)
    {
      var i :| 0 <= i < |s| && s[i] == t;
      assert Without(s, k)[if i < k then i else i - 1] == t;
    }

    /** The task reached by `n` times get_next_task and task_switch. */
    ghost function After(task: Task, n: nat): (t: Task)
      requires Valid() && task in tasks
      reads this, tasks
      ensures t in tasks
    {
      if n == 0 then task
      else
        var t := After(task, n - 1);
        var i :| 0 <= i < |tasks| && tasks[i] == t;
        NextIsNext(i);
        NextOf(t)
    }

    /** The successor of a listed task is the next one, around the end. */
    lemma NextIsNext(i: nat)
      requires Valid() && i < |tasks|
      ensures NextOf(tasks[i]) == tasks[Wrap(i + 1, |tasks|)]
    {
      assert tasks[i].next == if i + 1 < |tasks| then tasks[i + 1] else null;
    }

    lemma {:induction false} AfterIs(c: nat, n: nat)
      requires Valid() && c < |tasks| && n <= |tasks|
      ensures After(tasks[c], n) == tasks[Wrap(c + n, |tasks|)]
    {
      if n > 0 {
        AfterIs(c, n - 1);
        NextIsNext(Wrap(c + n - 1, |tasks|));
      }
    }

    /** The tasks met on one round from the task with index `c`. */
    ghost function Round(c: nat): (r: seq<Task>)
      requires Valid() && c < |tasks|
      reads this, tasks
    {
      var start := tasks[c];
      seq(|tasks|, n requires n >= 0 && Valid() && start in tasks reads this, tasks => After(start, n))
    }

    /** Round robin: one round visits every task once, in list order from the starting task on,
        and one more step leads back to it. */
    lemma RoundRobin(c: nat)
      requires Valid() && c < |tasks|
      ensures Round(c) == tasks[c..] + tasks[..c]
      ensures After(tasks[c], |tasks|) == tasks[c]
    {
      AfterIs(c, |tasks|);
      forall n: nat | n < |tasks|
        ensures Round(c)[n] == (tasks[c..] + tasks[..c])[n]
      {
        AfterIs(c, n);
      }
    }
  }

  /** Index `i` of a ring of `len` places, for at most one turn. */
  function Wrap(i: nat, len: nat): (r: nat)
    requires i < 2 * len
    ensures r < len
  {
    if i < len then i else i - len
  }
}
