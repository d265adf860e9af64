/** The block heap of `src/memory/heap/heap.c`, in place over its table. */
module Heap {
  import opened Words
  import opened HeapTable

  const BLOCK_SIZE: int := 4096

  /** -EINVARG */
  const INVALID_ARGUMENT: int := -2

  /** heap_align_value_to_upper, with its 32-bit wrap-around. */
  function AlignUp(value: Word): Word {
    if value % BLOCK_SIZE == 0 then value
    else ToWord(value - value % BLOCK_SIZE + BLOCK_SIZE)
  }

  /** Rounding gives the least block multiple not below the value, except in the last partial
      block of the address space, where it wraps to 0. */
  lemma AlignUpExact(value: Word)
    ensures AlignUp(value) % BLOCK_SIZE == 0
    ensures value <= AlignUp(value) < value + BLOCK_SIZE <==> value <= 0xffff_f000
    ensures value > 0xffff_f000 ==> AlignUp(value) == 0
  {
  }

  /** The number of blocks asked for by a request of `size` bytes. */
  function BlocksFor(size: Word): (n: nat)
    ensures n <= 0x10_0000
    ensures n == 0 <==> size == 0 || size > 0xffff_f000
  {
    AlignUp(size) / BLOCK_SIZE
  }

  /** The request is for ceil(size / 4096) blocks exactly when rounding does not wrap. */
  lemma BlocksForExact(size: Word)
    ensures 4096 * BlocksFor(size) - 4096 < size <= 4096 * BlocksFor(size) <==> size <= 0xffff_f000
  {
  }

  function BlockAddress(start: Word, block: int): Word {
    ToWord(start + block * BLOCK_SIZE)
  }

  function AddressBlock(start: Word, address: Word): (b: int)
    ensures -0x8_0000 <= b < 0x8_0000
  {
    TruncDiv(ToInt32(address - start), BLOCK_SIZE)
  }

  /** Because the difference of two addresses is read as a signed integer, block and address
      are inverse exactly below 2 GiB of heap. */
  lemma BlockAddressRoundTrip(start: Word, block: nat)
    requires block < 0x10_0000
    ensures AddressBlock(start, BlockAddress(start, block)) == block <==> block < 0x8_0000
  {
    var d := BlockAddress(start, block) - start;
    assert d % WORD_LIMIT == block * BLOCK_SIZE;
  }

  // ---------------------------------------------------------------- steps of the first-fit scan

  lemma RunFound(t: seq<Entry>, n: nat, bs: nat)
    requires n >= 1 && FreeRun(t, bs, n) && (bs == 0 || !IsFree(t[bs - 1]))
    requires forall s {:trigger FreeRun(t, s, n)} :: s + n <= bs + n - 1 ==> !FreeRun(t, s, n)
    ensures StartBlock(t, n) == bs
  {
  }

  lemma RunTooShort(t: seq<Entry>, n: nat, bs: nat, i: nat)
    requires bs <= i < |t| && (bs == 0 || !IsFree(t[bs - 1]))
    requires n == 0 || i + 1 - bs < n
    requires n >= 1 ==> forall s {:trigger FreeRun(t, s, n)} :: s + n <= i ==> !FreeRun(t, s, n)
    ensures n >= 1 ==> forall s {:trigger FreeRun(t, s, n)} :: s + n <= i + 1 ==> !FreeRun(t, s, n)
  {
    forall s | n >= 1 && s + n <= i + 1
      ensures !FreeRun(t, s, n)
    {
      assert 0 <= s ==> s <= bs - 1 < s + n || s + n <= i;
    }
  }

  lemma NoRunFound(t: seq<Entry>, n: nat, bs: int)
    requires bs == -1 ==> |t| == 0 || !IsFree(t[|t| - 1])
    requires bs != -1 ==> 0 <= bs < |t| && FreeRun(t, bs, |t| - bs) && (bs == 0 || !IsFree(t[bs - 1]))
    requires n >= 1 ==> forall s {:trigger FreeRun(t, s, n)} :: s + n <= |t| ==> !FreeRun(t, s, n)
    ensures StartBlock(t, n) == if bs == -1 then NO_MEMORY else bs
  {
    if bs != -1 {
      var r := TrailingStart(t, |t|);
      assert r < bs ==> r <= bs - 1 < |t|;
    }
  }

  lemma StartBlockRange(t: seq<Entry>, n: nat)
    ensures StartBlock(t, n) == NO_MEMORY || 0 <= StartBlock(t, n) < |t|
  {
    if n >= 1 {
      StartBlockExact(t, n);
    }
  }

  /** Inside the table, marking in the surrounding memory is marking the table. */
  lemma MarkedSlice(e: seq<Entry>, origin: nat, total: nat, s: nat, n: nat)
    requires origin + total <= |e| && s + n <= total
    ensures Marked(e, origin + s, n)[origin..origin + total] == Marked(e[origin..origin + total], s, n)
    ensures Marked(e, origin + s, n)[..origin] == e[..origin]
    ensures Marked(e, origin + s, n)[origin + total..] == e[origin + total..]
  {
  }

  /** Marking in the surrounding memory, seen from the table. */
  lemma MarkedTable(e: seq<Entry>, origin: nat, total: nat, s: nat, n: nat)
    requires origin + total + n <= |e| && s < total
    ensures Marked(e, origin + s, n)[origin..origin + total] == Cut(e[origin..origin + total], s, n)
  {
  }

  lemma RequestedIsMarked(t: seq<Entry>, n: nat)
    ensures var s := StartBlock(t, n);
            0 <= s && s + n <= |t| ==> Requested(t, n) == Marked(t, s, n)
  {
  }

  /** A walk that starts inside the table stays inside it. */
  lemma {:induction false} FreedSlice(e: seq<Entry>, origin: nat, total: nat, b: nat)
    requires origin + total <= |e|
    ensures Freed(e, origin + b, origin + total)[origin..origin + total] == Freed(e[origin..origin + total], b, total)
    ensures Freed(e, origin + b, origin + total)[..origin] == e[..origin]
    ensures Freed(e, origin + b, origin + total)[origin + total..] == e[origin + total..]
    decreases total - b
  {
    if b < total {
      var e' := e[origin + b := FREE];
      assert e'[origin..origin + total] == e[origin..origin + total][b := FREE];
      assert e'[..origin] == e[..origin] && e'[origin + total..] == e[origin + total..];
      if HasNext(e[origin + b]) {
        FreedSlice(e', origin, total, b + 1);
      }
    }
  }

  class HeapChunk {
    /** The memory that holds the table: `table->entries[i]` is `entries[origin + i]`.  There is
        room on both sides, because the code can index the table outside its bounds. */
    const entries: array<Entry>
    const origin: nat
    const total: nat
    var start: Word

    ghost predicate Valid() {
      origin >= 0x8_0000 && total < 0x8000_0000 && origin + total + 0x10_0000 <= entries.Length
    }

    ghost function Table(): (t: seq<Entry>)
      requires Valid()
      reads this, entries
      ensures |t| == total
    {
      entries[origin..origin + total]
    }

    /** The memory on both sides of the table. */
    ghost function Outside(): (seq<Entry>, seq<Entry>)
      requires Valid()
      reads entries
    {
      (entries[..origin], entries[origin + total..])
    }

    constructor (memory: array<Entry>, origin: nat, total: nat)
      requires origin >= 0x8_0000 && total < 0x8000_0000 && origin + total + 0x10_0000 <= memory.Length
      ensures Valid() && entries == memory && this.origin == origin && this.total == total
    {
      entries, this.origin, this.total, start := memory, origin, total, 0;
    }

    /** heap_create. */
    method Create(ptr: Word, end: Word) returns (response: int)
      requires Valid()
      modifies this, entries
      ensures response == 0 <==>
              Aligned(ptr) && Aligned(end) && total == ToWord(end - ptr) / BLOCK_SIZE
      ensures response == 0 ==> start == ptr && Encodes(Table(), map[])
      ensures response != 0 ==> response == INVALID_ARGUMENT && entries[..] == old(entries[..])
      ensures Outside() == old(Outside())
    {
      if !Aligned(ptr) || !Aligned(end) {
        return INVALID_ARGUMENT;
      }
      start := ptr;
      if total != ToWord(end - ptr) / BLOCK_SIZE {
        return INVALID_ARGUMENT;
      }
      var i := 0;
      while i < total
        invariant 0 <= i <= total && start == ptr
        invariant forall k :: origin <= k < origin + i ==> entries[k] == FREE
        invariant forall k :: 0 <= k < entries.Length && !(origin <= k < origin + total) ==>
                    entries[k] == old(entries[k])
      {
        entries[origin + i] := FREE;
        i := i + 1;
      }
      AllFreeEncodesEmpty(Table());
      assert entries[..origin] == old(entries[..origin]);
      assert entries[origin + total..] == old(entries[origin + total..]);
      response := 0;
    }

    /** heap_get_start_block: one pass, first fit. */
    method GetStartBlock(totalBlocks: nat) returns (block: int)
      requires Valid()
      ensures block == StartBlock(Table(), totalBlocks)
    {
      var bc, bs, i := 0, -1, 0;
      ghost var t := Table();
      while i < total
        invariant 0 <= i <= total
        invariant bs == -1 ==> bc == 0 && (i == 0 || !IsFree(t[i - 1]))
        invariant bs != -1 ==> 0 <= bs && bc >= 1 && bs + bc == i && FreeRun(t, bs, bc)
        invariant bs != -1 ==> bs == 0 || !IsFree(t[bs - 1])
        invariant totalBlocks == 0 || bc < totalBlocks
        invariant totalBlocks >= 1 ==>
                    forall s {:trigger FreeRun(t, s, totalBlocks)} ::
                      s + totalBlocks <= i ==> !FreeRun(t, s, totalBlocks)
      {
        var entry := entries[origin + i];
        assert entry == t[i];
        if !IsFree(entry) {
          forall s | s + totalBlocks <= i + 1 && totalBlocks >= 1
            ensures !FreeRun(t, s, totalBlocks)
          {
            assert s + totalBlocks == i + 1 && s >= 0 ==> s <= i < s + totalBlocks;
          }
          bc, bs, i := 0, -1, i + 1;
          continue;
        }
        if bs == -1 {
          bs := i;
        }
        bc := bc + 1;
        if bc == totalBlocks {
          RunFound(t, totalBlocks, bs);
          break;
        }
        RunTooShort(t, totalBlocks, bs, i);
        i := i + 1;
      }
      if i == total {
        NoRunFound(t, totalBlocks, bs);
      }
      if bs == -1 {
        return NO_MEMORY;
      }
      return bs;
    }

    /** heap_mark_taken_blocks.  Nothing keeps `block + totalBlocks` inside the table. */
    method MarkTakenBlocks(block: nat, totalBlocks: nat)
      requires Valid() && block < total && totalBlocks <= 0x10_0000
      modifies entries
      ensures entries[..] == Marked(old(entries[..]), origin + block, totalBlocks)
      ensures block + totalBlocks <= total ==>
                Table() == Marked(old(Table()), block, totalBlocks) && Outside() == old(Outside())
    {
      var endBlock := block + totalBlocks - 1;
      var entry := TAKEN | IS_FIRST;
      if totalBlocks > 1 {
        entry := entry | HAS_NEXT;
      }
      var i := block;
      while i <= endBlock
        invariant block <= i <= block + totalBlocks
        invariant i <= endBlock ==> entry == ChainByte(totalBlocks, i - block)
        invariant forall k :: 0 <= k < entries.Length ==>
                    entries[k] == if origin + block <= k < origin + i
                                  then ChainByte(totalBlocks, k - origin - block) else old(entries[k])
      {
        entries[origin + i] := entry;
        entry := TAKEN;
        if i != endBlock - 1 {
          entry := entry | HAS_NEXT;
        }
        i := i + 1;
      }
      if block + totalBlocks <= total {
        MarkedSlice(old(entries[..]), origin, total, block, totalBlocks);
      }
    }

    /** heap_malloc_blocks. */
    method MallocBlocks(totalBlocks: nat) returns (address: Word)
      requires Valid() && totalBlocks <= 0x10_0000
      modifies entries
      ensures var s := StartBlock(old(Table()), totalBlocks);
              if s < 0 then address == 0 && entries[..] == old(entries[..])
              else
                && s < total && address == BlockAddress(start, s)
                && entries[..] == Marked(old(entries[..]), origin + s, totalBlocks)
                && (s + totalBlocks <= total ==> Outside() == old(Outside()))
      ensures Table() == Requested(old(Table()), totalBlocks)
    {
      address := 0;
      var startBlock := GetStartBlock(totalBlocks);
      StartBlockRange(Table(), totalBlocks);
      if startBlock < 0 {
        return;
      }
      address := BlockAddress(start, startBlock);
      ghost var e := entries[..];
      assert Table() == e[origin..origin + total];
      MarkTakenBlocks(startBlock, totalBlocks);
      assert Table() == entries[..][origin..origin + total];
      MarkedTable(e, origin, total, startBlock, totalBlocks);
    }

    /** heap_malloc. */
    method Malloc(size: Word) returns (address: Word)
      requires Valid()
      modifies entries
      ensures var n, s := BlocksFor(size), StartBlock(old(Table()), BlocksFor(size));
              if s < 0 then address == 0 && entries[..] == old(entries[..])
              else
                && s < total && address == BlockAddress(start, s)
                && entries[..] == Marked(old(entries[..]), origin + s, n)
                && (s + n <= total ==> Outside() == old(Outside()))
      ensures Table() == Requested(old(Table()), BlocksFor(size))
    {
      var alignedSize := AlignUp(size);
      address := MallocBlocks(alignedSize / BLOCK_SIZE);
    }

    /** heap_mark_free_blocks; `block` comes from an arbitrary pointer and may be negative. */
    method MarkFreeBlocks(block: int)
      requires Valid() && -0x8_0000 <= block
      modifies entries
      ensures entries[..] == Freed(old(entries[..]), origin + block, origin + total)
    {
      var i := block;
      while i < total
        invariant block <= i
        invariant Freed(entries[..], origin + i, origin + total)
               == Freed(old(entries[..]), origin + block, origin + total)
      {
        var entry := entries[origin + i];
        ghost var before := entries[..];
        entries[origin + i] := FREE;
        assert entries[..] == before[origin + i := FREE];
        if !HasNext(entry) {
          return;
        }
        i := i + 1;
      }
    }

    /** heap_free. */
    method Free(ptr: Word)
      requires Valid()
      modifies entries
      ensures entries[..] == Freed(old(entries[..]), origin + AddressBlock(start, ptr), origin + total)
      ensures var b := AddressBlock(start, ptr);
              b >= 0 ==> Table() == Freed(old(Table()), b, total) && Outside() == old(Outside())
    {
      var b := AddressBlock(start, ptr);
      MarkFreeBlocks(b);
      if b >= 0 {
        FreedSlice(old(entries[..]), origin, total, b);
      }
    }
  }
}
