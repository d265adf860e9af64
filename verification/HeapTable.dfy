/** The block table of `src/memory/heap/heap.c` as a value.

    One byte stands for one 4096-byte block.  An allocation of n blocks is a chain of n
    consecutive bytes: IS_FIRST marks its head, HAS_NEXT every byte but its last.  The
    abstract form of a table is `live`, a map from the first block of every allocation to its
    length; `Encodes` says that a table is the exact encoding of such a map. */
module HeapTable {
  type Entry = bv8

  const FREE: Entry := 0x00
  const TAKEN: Entry := 0x01
  const HAS_NEXT: Entry := 0x80
  const IS_FIRST: Entry := 0x40

  /** -ENOMEM */
  const NO_MEMORY: int := -3

  /** heap_get_entry_type: only the low four bits decide. */
  predicate IsFree(e: Entry) {
    e & 0x0f == FREE
  }

  predicate HasNext(e: Entry) {
    e & HAS_NEXT != 0
  }

  predicate IsFirst(e: Entry) {
    e & IS_FIRST != 0
  }

  // ---------------------------------------------------------------- finding a run

  ghost predicate FreeRun(t: seq<Entry>, s: int, n: nat) {
    0 <= s && s + n <= |t| && forall i :: s <= i < s + n ==> IsFree(t[i])
  }

  ghost predicate HasRun(t: seq<Entry>, n: nat) {
    exists s :: FreeRun(t, s, n)
  }

  ghost predicate EndsFree(t: seq<Entry>) {
    |t| > 0 && IsFree(t[|t| - 1])
  }

  /** The least start, from `s` on, of `n` consecutive free entries. */
  ghost function LeastRunFrom(t: seq<Entry>, n: nat, s: nat): (r: nat)
    requires exists k :: s <= k && FreeRun(t, k, n)
    ensures s <= r && FreeRun(t, r, n)
    ensures forall k :: s <= k < r ==> !FreeRun(t, k, n)
    decreases |t| - s
  {
    if FreeRun(t, s, n) then s else LeastRunFrom(t, n, s + 1)
  }

  /** The start of the longest free suffix of the first `k` entries. */
  ghost function TrailingStart(t: seq<Entry>, k: nat): (r: nat)
    requires k <= |t|
    ensures r <= k && FreeRun(t, r, k - r)
    ensures r == 0 || !IsFree(t[r - 1])
  {
    if k == 0 || !IsFree(t[k - 1]) then k else TrailingStart(t, k - 1)
  }

  /** What heap_get_start_block answers to a request for `n` blocks.  When no run is long
      enough the scan still holds the start of a trailing free run, and returns it. */
  ghost function StartBlock(t: seq<Entry>, n: nat): int {
    if n >= 1 && HasRun(t, n) then
      assert exists k :: 0 <= k && FreeRun(t, k, n);
      LeastRunFrom(t, n, 0)
    else if EndsFree(t) then
      TrailingStart(t, |t|)
    else
      NO_MEMORY
  }

  /** A request is served by blocks that are inside the table and free exactly when some free
      run is long enough; otherwise the trailing run is returned although it is too short. */
  lemma StartBlockExact(t: seq<Entry>, n: nat)
    requires n >= 1
    ensures var s := StartBlock(t, n);
            && (HasRun(t, n) <==> s >= 0 && s + n <= |t| && FreeRun(t, s, n))
            && (HasRun(t, n) ==> forall k :: 0 <= k < s ==> !FreeRun(t, k, n))
            && (!HasRun(t, n) && EndsFree(t) ==>
                  && 0 <= s < |t| < s + n
                  && FreeRun(t, s, |t| - s) && (s == 0 || !IsFree(t[s - 1])))
            && (!HasRun(t, n) && !EndsFree(t) <==> s == -3)
  {
    if !HasRun(t, n) && EndsFree(t) {
      var s := TrailingStart(t, |t|);
      if s + n <= |t| {
        assert FreeRun(t, s, n);
      }
    }
  }

  /** One of the `n` entries from `k` on has one of its four low bits set. */
  ghost predicate Blocked(t: seq<Entry>, k: nat, n: nat) {
    exists i :: k <= i < k + n && i < |t| && t[i] & 0x0f != 0
  }

  /** The same in terms of the four low bits: the entries of the answered run have them all clear
      as far as the table goes, every earlier start meets an entry that does not, and -ENOMEM
      means that the last entry does not. */
  lemma StartBlockBits(t: seq<Entry>, n: nat)
    requires n >= 1
    ensures var s := StartBlock(t, n);
            && (s >= 0 ==> forall i :: s <= i < s + n && i < |t| ==> t[i] & 0x0f == 0)
            && (s >= 0 && s + n <= |t| ==> forall k :: 0 <= k < s ==> Blocked(t, k, n))
            && (s >= 0 && s + n > |t| ==> s == 0 || t[s - 1] & 0x0f != 0)
            && (s < 0 && t != [] ==> t[|t| - 1] & 0x0f != 0)
  {
    StartBlockExact(t, n);
    var s := StartBlock(t, n);
    if s >= 0 && s + n <= |t| {
      forall k | 0 <= k < s
        ensures Blocked(t, k, n)
      {
        assert !FreeRun(t, k, n);
        var i :| k <= i < k + n && !IsFree(t[i]);
        assert t[i] & 0x0f != 0;
      }
    }
  }

  // ---------------------------------------------------------------- marking and freeing

  /** Byte `k` of a chain of `n` blocks. */
  function ChainByte(n: nat, k: nat): Entry {
    if k == 0 then
      if n > 1 then TAKEN | IS_FIRST | HAS_NEXT else TAKEN | IS_FIRST
    else if k < n - 1 then
      TAKEN | HAS_NEXT
    else
      TAKEN
  }

  lemma ChainBits(n: nat, k: nat)
    requires k < n
    ensures !IsFree(ChainByte(n, k))
    ensures IsFirst(ChainByte(n, k)) <==> k == 0
    ensures HasNext(ChainByte(n, k)) <==> k + 1 < n
    ensures ChainByte(n, k) == (if k == 0 then 0x40 else 0) | (if k + 1 < n then 0x80 else 0) | 0x01
  {
  }

  /** `t` with a chain of `n` blocks written at `s`. */
  function Marked(t: seq<Entry>, s: nat, n: nat): (r: seq<Entry>)
    requires s + n <= |t|
    ensures |r| == |t|
  {
    seq(|t|, i requires 0 <= i < |t| => if s <= i < s + n then ChainByte(n, i - s) else t[i])
  }

  /** `t` with the bytes of a chain of `n` blocks at `s` that lie inside it. */
  function Cut(t: seq<Entry>, s: nat, n: nat): (r: seq<Entry>)
    ensures |r| == |t|
  {
    seq(|t|, i requires 0 <= i < |t| => if s <= i < s + n then ChainByte(n, i - s) else t[i])
  }

  /** The table after a request for `n` blocks.  A chain that does not fit is cut at its end. */
  ghost function Requested(t: seq<Entry>, n: nat): (r: seq<Entry>)
    ensures |r| == |t|
  {
    if StartBlock(t, n) < 0 then t else Cut(t, StartBlock(t, n), n)
  }

  /** `t` after the walk of heap_mark_free_blocks from `b`: every byte is cleared up to and
      including the first one without HAS_NEXT, or up to `end`. */
  function Freed(t: seq<Entry>, b: nat, end: nat): (r: seq<Entry>)
    requires end <= |t|
    ensures |r| == |t|
    decreases end - b
  {
    if b >= end then t
    else if !HasNext(t[b]) then t[b := FREE]
    else Freed(t[b := FREE], b + 1, end)
  }

  /** The number of bytes that walk clears. */
  function WalkLength(t: seq<Entry>, b: nat, end: nat): (n: nat)
    requires end <= |t|
    ensures b < end ==> 1 <= n <= end - b
    decreases end - b
  {
    if b >= end then 0
    else if !HasNext(t[b]) then 1
    else 1 + WalkLength(t, b + 1, end)
  }

  lemma {:induction false} FreedPointwise(t: seq<Entry>, b: nat, end: nat)
    requires end <= |t|
    ensures var n := WalkLength(t, b, end);
            forall i :: 0 <= i < |t| ==>
              Freed(t, b, end)[i] == if b <= i < b + n then FREE else t[i]
    decreases end - b
  {
    if b < end && HasNext(t[b]) {
      WalkIgnoresBelow(t, b, FREE, b + 1, end);
      FreedPointwise(t[b := FREE], b + 1, end);
    }
  }

  lemma {:induction false} WalkIgnoresBelow(t: seq<Entry>, i: nat, e: Entry, b: nat, end: nat)
    requires i < b && i < end <= |t|
    ensures WalkLength(t[i := e], b, end) == WalkLength(t, b, end)
    decreases end - b
  {
    if b < end {
      WalkIgnoresBelow(t, i, e, b + 1, end);
    }
  }

  // ---------------------------------------------------------------- the abstract form

  /** First block -> number of blocks, for every live allocation. */
  type Live = map<nat, nat>

  ghost predicate Covers(live: Live, s: nat, i: int) {
    s in live && s <= i < s + live[s]
  }

  ghost predicate Covered(live: Live, i: int) {
    exists s: nat :: Covers(live, s, i)
  }

  /** `t` is the encoding of `live`, byte for byte. */
  ghost predicate Encodes(t: seq<Entry>, live: Live) {
    && (forall s: nat :: s in live ==> live[s] >= 1 && s + live[s] <= |t|)
    && (forall s: nat, i: int :: Covers(live, s, i) ==> 0 <= i < |t| && t[i] == ChainByte(live[s], i - s))
    && (forall i :: 0 <= i < |t| && !Covered(live, i) ==> t[i] == FREE)
  }

  /** The decoder: read every first block and walk its chain. */
  ghost function Decode(t: seq<Entry>): Live {
    map s: nat | 0 <= s < |t| && IsFirst(t[s]) :: WalkLength(t, s, |t|)
  }

  lemma EncodedDisjoint(t: seq<Entry>, live: Live, s1: nat, s2: nat, i: int)
    requires Encodes(t, live) && Covers(live, s1, i) && Covers(live, s2, i)
    ensures s1 == s2
  {
    if s1 < s2 {
      assert Covers(live, s1, s2) && Covers(live, s2, s2);
    } else if s2 < s1 {
      assert Covers(live, s2, s1) && Covers(live, s1, s1);
    }
  }

  /** Distinct live intervals do not meet, and a block is free exactly when no live interval
      covers it. */
  lemma LiveIntervals(t: seq<Entry>, live: Live)
    requires Encodes(t, live)
    ensures forall s1: nat, s2: nat :: s1 in live && s2 in live && s1 < s2 ==> s1 + live[s1] <= s2
    ensures forall i :: 0 <= i < |t| ==> (IsFree(t[i]) <==> !Covered(live, i))
  {
    forall s1: nat, s2: nat | s1 in live && s2 in live && s1 < s2
      ensures s1 + live[s1] <= s2
    {
      if s2 < s1 + live[s1] {
        assert Covers(live, s1, s2) && Covers(live, s2, s2);
      }
    }
  }

  /** The byte-level law of a well-formed table: HAS_NEXT is followed by a taken block that is
      not first, a first or non-first taken byte carries no other bits, free bytes are 0. */
  lemma ChainLaw(t: seq<Entry>, live: Live, i: nat)
    requires Encodes(t, live) && i < |t|
    ensures HasNext(t[i]) ==> i + 1 < |t| && !IsFree(t[i + 1]) && !IsFirst(t[i + 1])
    ensures IsFree(t[i]) ==> t[i] == FREE
    ensures !IsFree(t[i]) ==> t[i] & !(HAS_NEXT | IS_FIRST) == TAKEN
    ensures !IsFree(t[i]) && !IsFirst(t[i]) ==> i > 0 && HasNext(t[i - 1])
  {
    if Covered(live, i) {
      var s: nat :| Covers(live, s, i);
      if HasNext(t[i]) {
        assert Covers(live, s, i + 1);
      }
      if !IsFirst(t[i]) {
        assert Covers(live, s, i - 1);
      }
    }
  }

  lemma {:induction false} WalkInChain(t: seq<Entry>, live: Live, s: nat, k: nat)
    requires Encodes(t, live) && s in live && k < live[s]
    ensures WalkLength(t, s + k, |t|) == live[s] - k
    decreases live[s] - k
  {
    assert Covers(live, s, s + k);
    if k + 1 < live[s] {
      WalkInChain(t, live, s, k + 1);
    }
  }

  /** Encoding and decoding are inverse: the table determines the live intervals ... */
  lemma DecodeEncoded(t: seq<Entry>, live: Live)
    requires Encodes(t, live)
    ensures Decode(t) == live
  {
    forall s: nat
      ensures s in Decode(t) <==> s in live
      ensures s in live ==> Decode(t)[s] == live[s]
    {
      if s in live {
        assert Covers(live, s, s);
        WalkInChain(t, live, s, 0);
      } else if s < |t| && Covered(live, s) {
        var s0: nat :| Covers(live, s0, s);
      }
    }
  }

  /** ... and the live intervals determine the table. */
  lemma EncodingUnique(t: seq<Entry>, u: seq<Entry>, live: Live)
    requires Encodes(t, live) && Encodes(u, live) && |t| == |u|
    ensures t == u
  {
    forall i | 0 <= i < |t|
      ensures t[i] == u[i]
    {
      if Covered(live, i) {
        var s: nat :| Covers(live, s, i);
      }
    }
  }

  lemma AllFreeEncodesEmpty(t: seq<Entry>)
    ensures Encodes(t, map[]) <==> forall i :: 0 <= i < |t| ==> t[i] == FREE
  {
    forall i | 0 <= i < |t| ensures !Covered(map[], i) {
    }
  }

  lemma AllFreeCount(t: seq<Entry>)
    requires forall i :: 0 <= i < |t| ==> t[i] == FREE
    ensures |FreeBlocks(t)| == |t|
  {
    assert FreeBlocks(t) == Interval(0, |t|);
  }

  /** Marking a free run adds one live interval and keeps the encoding exact. */
  lemma MarkedEncodes(t: seq<Entry>, live: Live, s: nat, n: nat)
    requires Encodes(t, live) && n >= 1 && FreeRun(t, s, n)
    ensures s !in live
    ensures Encodes(Marked(t, s, n), live[s := n])
  {
    LiveIntervals(t, live);
    var live' := live[s := n];
    var t' := Marked(t, s, n);
    assert !Covers(live, s, s);
    forall s0: nat, i: int | Covers(live', s0, i)
      ensures 0 <= i < |t'| && t'[i] == ChainByte(live'[s0], i - s0)
    {
      if s0 != s {
        assert Covers(live, s0, i);
        assert !IsFree(t[i]);
      }
    }
    forall i | 0 <= i < |t'| && !Covered(live', i)
      ensures t'[i] == FREE
    {
      if s <= i < s + n {
        assert Covers(live', s, i);
      }
      if Covered(live, i) {
        var s0: nat :| Covers(live, s0, i);
        assert Covers(live', s0, i);
      }
    }
  }

  /** A request keeps the table well formed exactly when it asks for no block, some run is long
      enough, or the last entry is taken: an overrunning chain leaves a last byte with HAS_NEXT. */
  lemma RequestExact(t: seq<Entry>, live: Live, n: nat)
    requires Encodes(t, live)
    ensures (exists live' :: Encodes(Requested(t, n), live')) <==> n == 0 || HasRun(t, n) || !EndsFree(t)
  {
    var s := StartBlock(t, n);
    if n == 0 || s < 0 {
      assert Requested(t, n) == t;
    } else {
      StartBlockExact(t, n);
      if HasRun(t, n) {
        MarkedEncodes(t, live, s, n);
        assert Requested(t, n) == Marked(t, s, n);
      } else {
        forall live' | Encodes(Requested(t, n), live')
          ensures false
        {
          OverrunBreaks(t, live', s, n);
        }
      }
    }
  }

  lemma OverrunBreaks(t: seq<Entry>, live': Live, s: nat, n: nat)
    requires StartBlock(t, n) == s < |t| < s + n
    ensures !Encodes(Requested(t, n), live')
  {
    if Encodes(Requested(t, n), live') {
      ChainBits(n, |t| - 1 - s);
      ChainLaw(Requested(t, n), live', |t| - 1);
    }
  }

  /** `t` with the `n` blocks from `s` on set free. */
  function Cleared(t: seq<Entry>, s: nat, n: nat): (r: seq<Entry>)
    ensures |r| == |t|
  {
    seq(|t|, i requires 0 <= i < |t| => if s <= i < s + n then FREE else t[i])
  }

  lemma FreedIsCleared(t: seq<Entry>, live: Live, s: nat)
    requires Encodes(t, live) && s in live
    ensures Freed(t, s, |t|) == Cleared(t, s, live[s])
  {
    FreedPointwise(t, s, |t|);
    WalkInChain(t, live, s, 0);
  }

  lemma ClearedEncodes(t: seq<Entry>, live: Live, s: nat)
    requires Encodes(t, live) && s in live
    ensures Encodes(Cleared(t, s, live[s]), live - {s})
  {
    var live' := live - {s};
    var t' := Cleared(t, s, live[s]);
    forall s0: nat, i: int | Covers(live', s0, i)
      ensures 0 <= i < |t'| && t'[i] == ChainByte(live'[s0], i - s0)
    {
      assert Covers(live, s0, i);
      if s <= i < s + live[s] {
        EncodedDisjoint(t, live, s, s0, i);
      }
    }
    forall i | 0 <= i < |t'| && !Covered(live', i)
      ensures t'[i] == FREE
    {
      if Covered(live, i) {
        var s0: nat :| Covers(live, s0, i);
        if s0 != s {
          assert Covers(live', s0, i);
        }
      }
    }
  }

  /** Freeing the first block of a live interval removes that interval and nothing else. */
  lemma FreedEncodes(t: seq<Entry>, live: Live, s: nat)
    requires Encodes(t, live) && s in live
    ensures Encodes(Freed(t, s, |t|), live - {s})
  {
    FreedIsCleared(t, live, s);
    ClearedEncodes(t, live, s);
  }

  // ---------------------------------------------------------------- counting

  ghost function FreeBlocks(t: seq<Entry>): set<nat> {
    set i: nat | 0 <= i < |t| && IsFree(t[i])
  }

  ghost function TakenBlocks(t: seq<Entry>): set<nat> {
    set i: nat | 0 <= i < |t| && !IsFree(t[i])
  }

  ghost function Interval(s: nat, n: nat): (r: set<nat>)
    ensures forall i: nat :: i in r <==> s <= i < s + n
    ensures |r| == n
  {
    if n == 0 then {} else Interval(s, n - 1) + {s + n - 1}
  }

  /** Taking the free blocks `run` moves them from one count to the other. */
  lemma TakeCounts(t: seq<Entry>, t': seq<Entry>, run: set<nat>)
    requires |t| == |t'| && run <= FreeBlocks(t)
    requires forall i: nat :: i < |t| ==> (IsFree(t'[i]) <==> IsFree(t[i]) && i !in run)
    ensures FreeBlocks(t') == FreeBlocks(t) - run
    ensures TakenBlocks(t') == TakenBlocks(t) + run
    ensures |TakenBlocks(t')| == |TakenBlocks(t)| + |run|
    ensures |FreeBlocks(t')| == |FreeBlocks(t)| - |run|
  {
    assert TakenBlocks(t') == TakenBlocks(t) + run;
    assert FreeBlocks(t') == FreeBlocks(t) - run;
    assert FreeBlocks(t) == FreeBlocks(t') + run;
  }

  lemma MarkedCounts(t: seq<Entry>, s: nat, n: nat)
    requires FreeRun(t, s, n)
    ensures |TakenBlocks(Marked(t, s, n))| == |TakenBlocks(t)| + n
    ensures FreeBlocks(Marked(t, s, n)) == FreeBlocks(t) - Interval(s, n)
    ensures |FreeBlocks(Marked(t, s, n))| == |FreeBlocks(t)| - n
  {
    var t', run := Marked(t, s, n), Interval(s, n);
    forall i: nat | i < |t|
      ensures IsFree(t'[i]) <==> IsFree(t[i]) && i !in run
    {
      if i in run {
        ChainBits(n, i - s);
      }
    }
    TakeCounts(t, t', run);
  }

  lemma FreedCounts(t: seq<Entry>, live: Live, s: nat)
    requires Encodes(t, live) && s in live
    ensures |TakenBlocks(Freed(t, s, |t|))| == |TakenBlocks(t)| - live[s]
    ensures |FreeBlocks(Freed(t, s, |t|))| == |FreeBlocks(t)| + live[s]
  {
    var t', run := Cleared(t, s, live[s]), Interval(s, live[s]);
    FreedIsCleared(t, live, s);
    forall i: nat | i in run
      ensures i < |t| && !IsFree(t[i])
    {
      assert Covers(live, s, i);
      ChainBits(live[s], i - s);
    }
    TakeCounts(t', t, run);
  }
}
