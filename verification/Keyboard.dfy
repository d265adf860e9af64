/** The per-process keyboard ring of `src/keyboard/keyboard.c`. */
module Keyboard {
  import opened Words
  import opened Ram

  const BUFFER_SIZE: int := 1024

  /** The ring as a value: cells and the two free-running signed counters. */
  datatype Ring = Ring(cells: seq<Byte>, head: int, tail: int)

  /** `counter % sizeof(buffer)`: the counter is converted to unsigned first. */
  function Index(counter: int): (i: nat)
    ensures i < BUFFER_SIZE
  {
    ToWord(counter) % BUFFER_SIZE
  }

  lemma SameCell(a: int, b: int, t: int)
    requires a == b + t * BUFFER_SIZE
    ensures a % BUFFER_SIZE == b % BUFFER_SIZE
  {
  }

  lemma IndexIsMod(counter: int)
    ensures Index(counter) == counter % BUFFER_SIZE
  {
    var k := counter / WORD_LIMIT;
    assert counter == ToWord(counter) + k * WORD_LIMIT;
    SameCell(counter, ToWord(counter), k * 0x40_0000);
  }

  /** The signed wrap-around of a counter subtracts a multiple of 2^32. */
  lemma SignedWord(x: int)
    ensures ToWord(ToInt32(x)) == ToWord(x)
  {
    var w := x % WORD_LIMIT;
    if w >= 0x8000_0000 {
      SameWord(w - WORD_LIMIT, w, -1);
    }
  }

  /** Because 1024 divides 2^32, wrapped counters index the same cells. */
  lemma IndexWraps(counter: int)
    ensures Index(ToInt32(counter)) == Index(counter) == counter % BUFFER_SIZE
  {
    SignedWord(counter);
    IndexIsMod(counter);
  }

  lemma IndexInjective(counter: int, i: nat, j: nat)
    requires i < BUFFER_SIZE && j < BUFFER_SIZE && Index(counter + i) == Index(counter + j)
    ensures i == j
  {
    IndexIsMod(counter + i);
    IndexIsMod(counter + j);
    var c, q := counter % BUFFER_SIZE, counter / BUFFER_SIZE;
    SameCell(counter + i, c + i, q);
    SameCell(counter + j, c + j, q);
  }

  /** The number of characters between the counters. */
  function Count(r: Ring): nat {
    ToWord(r.tail - r.head)
  }

  /** Cell `i` places after the head. */
  function Cell(r: Ring, i: nat): Byte
    requires |r.cells| == BUFFER_SIZE
  {
    r.cells[Index(r.head + i)]
  }

  /** At most 1024 characters, all non-zero, and zero in every unused cell. */
  ghost predicate Sound(r: Ring) {
    && |r.cells| == BUFFER_SIZE && Count(r) <= BUFFER_SIZE
    && (forall i: nat :: i < BUFFER_SIZE ==> (Cell(r, i) != 0 <==> i < Count(r)))
  }

  /** The queued characters, oldest first. */
  function Queue(r: Ring): (q: seq<Byte>)
    requires |r.cells| == BUFFER_SIZE
    ensures |q| == Count(r)
  {
    seq(Count(r), i requires 0 <= i < Count(r) => Cell(r, i))
  }

  // ---------------------------------------------------------------- the three operations

  /** keyboard_push; there is no check for a full buffer. */
  function PushRing(r: Ring, c: Byte): Ring
    requires |r.cells| == BUFFER_SIZE
  {
    if c == 0 then r
    else Ring(r.cells[Index(r.tail) := c], r.head, ToInt32(r.tail + 1))
  }

  /** keyboard_pop: 0 when the cell at the head is empty. */
  function PopRing(r: Ring): (Byte, Ring)
    requires |r.cells| == BUFFER_SIZE
  {
    var c := r.cells[Index(r.head)];
    if c == 0 then (0, r) else (c, Ring(r.cells[Index(r.head) := 0], ToInt32(r.head + 1), r.tail))
  }

  /** keyboard_backspace; there is no check for an empty buffer. */
  function BackspaceRing(r: Ring): Ring
    requires |r.cells| == BUFFER_SIZE
  {
    var tail := ToInt32(r.tail - 1);
    Ring(r.cells[Index(tail) := 0], r.head, tail)
  }

  lemma TailIndex(r: Ring)
    requires |r.cells| == BUFFER_SIZE
    ensures Index(r.tail) == Index(r.head + Count(r))
    ensures Index(ToInt32(r.tail - 1)) == Index(r.head + Count(r) - 1)
  {
    var k := (r.tail - r.head) / WORD_LIMIT;
    assert r.tail == r.head + Count(r) + k * WORD_LIMIT;
    SameWord(r.tail, r.head + Count(r), k);
    SameWord(r.tail - 1, r.head + Count(r) - 1, k);
    SignedWord(r.tail - 1);
  }

  /** A wrapped counter differs from the unwrapped one by a multiple of 2^32. */
  lemma DifferenceWraps(a: int, b: int)
    ensures ToWord(ToInt32(a) - b) == ToWord(a - b) == ToWord(a - ToInt32(b))
  {
    SignedWord(a);
    SignedWord(b);
    WordDifference(a, b);
    WordDifference(ToInt32(a), b);
    WordDifference(a, ToInt32(b));
  }

  lemma CountStep(tail: int, head: int)
    ensures ToWord(ToInt32(tail + 1) - head)
         == if ToWord(tail - head) == WORD_LIMIT - 1 then 0 else ToWord(tail - head) + 1
    ensures ToWord(ToInt32(tail - 1) - head)
         == if ToWord(tail - head) == 0 then WORD_LIMIT - 1 else ToWord(tail - head) - 1
    ensures ToWord(tail - ToInt32(head + 1))
         == if ToWord(tail - head) == 0 then WORD_LIMIT - 1 else ToWord(tail - head) - 1
  {
    DifferenceWraps(tail + 1, head);
    DifferenceWraps(tail - 1, head);
    DifferenceWraps(tail, head + 1);
    NeighbourWords(tail - head);
    assert tail + 1 - head == (tail - head) + 1;
    assert tail - 1 - head == (tail - head) - 1 == tail - (head + 1);
  }

  lemma NeighbourWords(d: int)
    ensures ToWord(d + 1) == if ToWord(d) == WORD_LIMIT - 1 then 0 else ToWord(d) + 1
    ensures ToWord(d - 1) == if ToWord(d) == 0 then WORD_LIMIT - 1 else ToWord(d) - 1
  {
  }

  /** Pushing appends to the queue exactly when the buffer is not full. */
  lemma PushExact(r: Ring, c: Byte)
    requires Sound(r) && c != 0
    ensures Sound(PushRing(r, c)) && Queue(PushRing(r, c)) == Queue(r) + [c] <==> Count(r) < 1024
  {
    var r' := PushRing(r, c);
    CountStep(r.tail, r.head);
    TailIndex(r);
    if Count(r) < BUFFER_SIZE {
      forall i: nat | i < BUFFER_SIZE
        ensures Cell(r', i) == if i == Count(r) then c else Cell(r, i)
      {
        if i != Count(r) && Index(r.head + i) == Index(r.head + Count(r)) {
          IndexInjective(r.head, i, Count(r));
        }
      }
      assert Queue(r') == Queue(r) + [c];
    }
  }

  /** Popping takes the oldest character, or answers 0 and changes nothing. */
  lemma PopExact(r: Ring)
    requires Sound(r)
    ensures var (c, r') := PopRing(r);
            && Sound(r')
            && (if Count(r) == 0 then c == 0 && r' == r
                else c == Queue(r)[0] && c != 0 && Queue(r') == Queue(r)[1..])
  {
    var (c, r') := PopRing(r);
    assert Cell(r, 0) == r.cells[Index(r.head)];
    if Count(r) > 0 {
      CountStep(r.tail, r.head);
      forall i: nat | i < BUFFER_SIZE
        ensures Cell(r', i) == if i == BUFFER_SIZE - 1 then 0 else Cell(r, i + 1)
      {
        IndexWraps(r.head + 1 + i);
        IndexWraps(r.head);
        ShiftHead(r.head, i);
        if i < BUFFER_SIZE - 1 && Index(r.head + (i + 1)) == Index(r.head + 0) {
          IndexInjective(r.head, i + 1, 0);
        }
      }
      assert Queue(r') == Queue(r)[1..];
    }
  }

  lemma ShiftHead(head: int, i: nat)
    ensures Index(ToInt32(head + 1) + i) == Index(head + (i + 1))
    ensures i == BUFFER_SIZE - 1 ==> Index(head + (i + 1)) == Index(head)
  {
    var t := (head + 1 - ToInt32(head + 1)) / WORD_LIMIT;
    assert head + 1 == ToInt32(head + 1) + t * WORD_LIMIT;
    SameWord(head + (i + 1), ToInt32(head + 1) + i, t);
    if i == BUFFER_SIZE - 1 {
      IndexIsMod(head);
      IndexIsMod(head + (i + 1));
      SameCell(head + (i + 1), head, 1);
    }
  }

  /** Backspace drops the newest character exactly when there is one. */
  lemma BackspaceExact(r: Ring)
    requires Sound(r)
    ensures Sound(BackspaceRing(r)) && Count(r) > 0 && Queue(BackspaceRing(r)) == Queue(r)[..Count(r) - 1]
            <==> Count(r) > 0
    ensures Count(r) == 0 ==> !Sound(BackspaceRing(r))
  {
    var r' := BackspaceRing(r);
    CountStep(r.tail, r.head);
    TailIndex(r);
    if Count(r) > 0 {
      var last := Count(r) - 1;
      forall i: nat | i < BUFFER_SIZE
        ensures Cell(r', i) == if i == last then 0 else Cell(r, i)
      {
        if i != last && Index(r.head + i) == Index(r.head + last) {
          IndexInjective(r.head, i, last);
        }
      }
      assert Queue(r') == Queue(r)[..last];
    }
  }

  // ---------------------------------------------------------------- runs

  datatype Op = Push(c: Byte) | Pop | Backspace

  function RingStep(r: Ring, op: Op): (Byte, Ring)
    requires |r.cells| == BUFFER_SIZE
  {
    match op
    case Push(c) => (0, PushRing(r, c))
    case Pop => PopRing(r)
    case Backspace => (0, BackspaceRing(r))
  }

  /** The specification: a queue of at most 1024 characters. */
  function QueueStep(q: seq<Byte>, op: Op): (Byte, seq<Byte>)
    requires op.Backspace? ==> q != []
  {
    match op
    case Push(c) => (0, if c == 0 then q else q + [c])
    case Pop => if q == [] then (0, q) else (q[0], q[1..])
    case Backspace => (0, q[..|q| - 1])
  }

  predicate Allowed(q: seq<Byte>, op: Op) {
    && (op.Push? && op.c != 0 ==> |q| < BUFFER_SIZE)
    && (op.Backspace? ==> q != [])
  }

  predicate AllowedRun(q: seq<Byte>, ops: seq<Op>)
    decreases |ops|
  {
    ops == [] || (Allowed(q, ops[0]) && AllowedRun(QueueStep(q, ops[0]).1, ops[1..]))
  }

  function QueueRun(q: seq<Byte>, ops: seq<Op>): (seq<Byte>, seq<Byte>)
    requires AllowedRun(q, ops)
    decreases |ops|
  {
    if ops == [] then ([], q)
    else
      var (c, q1) := QueueStep(q, ops[0]);
      var (out, q2) := QueueRun(q1, ops[1..]);
      ([c] + out, q2)
  }

  function RingRun(r: Ring, ops: seq<Op>): (seq<Byte>, Ring)
    requires |r.cells| == BUFFER_SIZE
    decreases |ops|
  {
    if ops == [] then ([], r)
    else
      var (c, r1) := RingStep(r, ops[0]);
      var (out, r2) := RingRun(r1, ops[1..]);
      ([c] + out, r2)
  }

  /** The ring refines the queue: over every run that pushes only below 1024 characters and
      backspaces only when there is one, all answers and the final contents agree. */
  lemma {:induction false} RunRefines(r: Ring, ops: seq<Op>)
    requires Sound(r) && AllowedRun(Queue(r), ops)
    ensures var (out, r') := RingRun(r, ops);
            Sound(r') && QueueRun(Queue(r), ops) == (out, Queue(r'))
    decreases |ops|
  {
    if ops != [] {
      match ops[0] {
        case Push(c) =>
          if c != 0 {
            PushExact(r, c);
          }
        case Pop =>
          PopExact(r);
        case Backspace =>
          BackspaceExact(r);
      }
      RunRefines(RingStep(r, ops[0]).1, ops[1..]);
    }
  }

  // ---------------------------------------------------------------- the code

  /** The keyboard part of a process; memset leaves it all zero. */
  class KeyboardBuffer {
    const buffer: array<Byte>
    var head: int
    var tail: int

    ghost predicate Valid() {
      buffer.Length == BUFFER_SIZE
    }

    ghost function Value(): Ring
      reads this, buffer
    {
      Ring(buffer[..], head, tail)
    }

    constructor ()
      ensures Valid() && fresh(buffer) && Sound(Value()) && Queue(Value()) == []
    {
      buffer := new Byte[BUFFER_SIZE](_ => 0);
      head, tail := 0, 0;
    }

    /** keyboard_get_tail. */
    method GetTail() returns (index: nat)
      ensures index == Index(tail)
    {
      index := ToWord(tail) % BUFFER_SIZE;
    }

    /** keyboard_backspace. */
    method Backspace()
      requires Valid()
      modifies this`tail, buffer
      ensures Value() == BackspaceRing(old(Value()))
    {
      tail := ToInt32(tail - 1);
      var index := GetTail();
      buffer[index] := 0;
    }

    /** keyboard_push for the current process. */
    method Push(toPush: Byte)
      requires Valid()
      modifies this`tail, buffer
      ensures Value() == PushRing(old(Value()), toPush)
    {
      if toPush == 0 {
        return;
      }
      var index := GetTail();
      buffer[index] := toPush;
      tail := ToInt32(tail + 1);
    }

    /** keyboard_pop for the process of the current task. */
    method Pop() returns (popped: Byte)
      requires Valid()
      modifies this`head, buffer
      ensures (popped, Value()) == PopRing(old(Value()))
    {
      var index := ToWord(head) % BUFFER_SIZE;
      popped := buffer[index];
      if popped == 0 {
        return 0;
      } else {
        buffer[index] := 0;
        head := ToInt32(head + 1);
      }
    }
  }

  /** One call on the buffer is one step of the ring. */
  method Perform(k: KeyboardBuffer, op: Op) returns (c: Byte)
    requires k.Valid()
    modifies k, k.buffer
    ensures (c, k.Value()) == RingStep(old(k.Value()), op)
  {
    c := 0;
    match op
    case Push(toPush) => k.Push(toPush);
    case Pop => c := k.Pop();
    case Backspace => k.Backspace();
  }

  /** Every run of calls on a sound buffer answers as the queue does. */
  method Execute(k: KeyboardBuffer, ops: seq<Op>) returns (out: seq<Byte>)
    requires k.Valid() && Sound(k.Value()) && AllowedRun(Queue(k.Value()), ops)
    modifies k, k.buffer
    ensures k.Valid() && Sound(k.Value())
    ensures (out, Queue(k.Value())) == QueueRun(old(Queue(k.Value())), ops)
  {
    ghost var r := k.Value();
    RunRefines(r, ops);
    out := [];
    assert ops[0..] == ops && [] + RingRun(r, ops).0 == RingRun(r, ops).0;
    var j := 0;
    while j < |ops|
      invariant 0 <= j <= |ops|
      invariant var (rest, end) := RingRun(k.Value(), ops[j..]);
                RingRun(r, ops) == (out + rest, end)
    {
      assert ops[j..][0] == ops[j] && ops[j..][1..] == ops[j + 1..];
      ghost var rest := RingRun(RingStep(k.Value(), ops[j]).1, ops[j + 1..]).0;
      var c := Perform(k, ops[j]);
      Regroup(out, c, rest);
      out := out + [c];
      j := j + 1;
    }
    assert out + [] == out;
  }

  lemma Regroup(out: seq<Byte>, c: Byte, rest: seq<Byte>)
    ensures out + ([c] + rest) == (out + [c]) + rest
  {
  }
}
