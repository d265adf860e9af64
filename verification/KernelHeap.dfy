/** `src/memory/heap/kernel_heap.c`: the one kernel heap, and the memory it hands out. */
module KernelHeap {
  import opened Words
  import opened HeapTable
  import opened Heap
  import opened Ram

  const HEAP_ADDRESS: Word := 0x0100_0000
  const HEAP_SIZE_BYTES: Word := 104857600
  const HEAP_BLOCKS: int := 25600

  // ---------------------------------------------------------------- pointers into the heap

  /** The address of a heap block. */
  predicate HeapPage(p: Word) {
    HEAP_ADDRESS <= p < HEAP_ADDRESS + HEAP_SIZE_BYTES && Aligned(p)
  }

  /** The block number of a heap page. */
  function Block(p: Word): nat {
    if p < HEAP_ADDRESS then 0 else (p - HEAP_ADDRESS) / BLOCK_SIZE
  }

  /** `p` is a live allocation of one block. */
  predicate LivePage(live: Live, p: Word) {
    HeapPage(p) && Block(p) in live && live[Block(p)] == 1
  }

  lemma PageAddress(b: nat)
    requires b < HEAP_BLOCKS
    ensures HeapPage(BlockAddress(HEAP_ADDRESS, b)) && Block(BlockAddress(HEAP_ADDRESS, b)) == b
  {
  }

  lemma PageBlock(p: Word)
    requires HeapPage(p)
    ensures 0 <= AddressBlock(HEAP_ADDRESS, p) == Block(p) < HEAP_BLOCKS
    ensures BlockAddress(HEAP_ADDRESS, Block(p)) == p
  {
  }

  /** The word with index `i` lies in the page at `p`. */
  predicate InPage(p: Word, i: int) {
    p / 4 <= i < p / 4 + 1024
  }

  /** What a caller of kzalloc(size), 1 <= size <= 4096, gets when a free block exists: a page
      that was not live, zeroed, with all other memory and all other allocations as before. */
  ghost predicate FreshPage(live: Live, m: Memory, live': Live, m': Memory, p: Word, size: Word) {
    && HeapPage(p) && Block(p) !in live
    && live' == live[Block(p) := 1]
    && Filled(m, m', p, 0, size)
    && (forall i :: 0 <= i < RAM_WORDS && !InPage(p, i) ==> m'[i] == m[i])
    && (forall i :: p / 4 <= i < p / 4 + size / 4 && i < RAM_WORDS ==> m'[i] == 0)
  }

  /** The exact effect of an allocation request on the memory `e` around the table `t`. */
  ghost predicate Served(t: seq<Entry>, e: seq<Entry>, origin: nat, e': seq<Entry>, p: Word, size: Word)
    requires origin + HEAP_BLOCKS + 0x10_0000 <= |e|
  {
    var n, s := BlocksFor(size), StartBlock(t, BlocksFor(size));
    if s < 0 then p == 0 && e' == e
    else s < HEAP_BLOCKS && p == BlockAddress(HEAP_ADDRESS, s) && e' == Marked(e, origin + s, n)
  }

  /** A request for `n` blocks was granted at `p`: the first fit is now one live interval. */
  ghost predicate Granted(t: seq<Entry>, live: Live, n: nat, t': seq<Entry>, live': Live, p: Word) {
    && HeapPage(p) && Block(p) !in live && Block(p) == StartBlock(t, n)
    && live' == live[Block(p) := n]
    && Block(p) + n <= |t| && t' == Marked(t, Block(p), n) && Encodes(t', live')
    && |FreeBlocks(t')| == |FreeBlocks(t)| - n
  }

  lemma TakenIsGranted(t: seq<Entry>, live: Live, n: nat)
    requires |t| == HEAP_BLOCKS && Encodes(t, live) && n >= 1 && HasRun(t, n)
    ensures var s := StartBlock(t, n);
            && 0 <= s && s + n <= HEAP_BLOCKS
            && Granted(t, live, n, Marked(t, s, n), live[s := n], BlockAddress(HEAP_ADDRESS, s))
  {
    StartBlockExact(t, n);
    var s := StartBlock(t, n);
    MarkedEncodes(t, live, s, n);
    MarkedCounts(t, s, n);
    PageAddress(s);
  }

  lemma MarkedNone(e: seq<Entry>, s: nat)
    requires s <= |e|
    ensures Marked(e, s, 0) == e
  {
  }

  lemma Released(t: seq<Entry>, live: Live, b: nat)
    requires Encodes(t, live) && b in live
    ensures var t' := Freed(t, b, |t|);
            && Encodes(t', live - {b})
            && |FreeBlocks(t')| == |FreeBlocks(t)| + live[b]
  {
    FreedEncodes(t, live, b);
    FreedCounts(t, live, b);
  }

  lemma OneFreeBlock(t: seq<Entry>)
    requires |FreeBlocks(t)| > 0
    ensures HasRun(t, 1)
  {
    var i :| i in FreeBlocks(t);
    assert FreeRun(t, i, 1);
  }

  class Kernel {
    const heap: HeapChunk
    const ram: array<Word>
    /** The live allocations; `Intact` says that the table is their exact encoding. */
    ghost var live: Live

    ghost predicate Valid()
      reads heap
    {
      && heap.Valid() && ram.Length == RAM_WORDS && (ram as object) != (heap.entries as object)
      && heap.start == HEAP_ADDRESS && heap.total == HEAP_BLOCKS
    }

    ghost function Table(): (t: seq<Entry>)
      requires Valid()
      reads heap, heap.entries
      ensures |t| == HEAP_BLOCKS
    {
      heap.Table()
    }

    ghost predicate Intact()
      reads this, heap, heap.entries
    {
      Valid() && Encodes(Table(), live)
    }

    ghost function FreeCount(): nat
      requires Valid()
      reads heap, heap.entries
    {
      |FreeBlocks(Table())|
    }

    ghost function Mem(): Memory
      requires Valid()
      reads heap, ram
    {
      ram[..]
    }

    /** kernel_heap_init over a given table memory. */
    constructor (entries: array<Entry>, origin: nat)
      requires origin >= 0x8_0000 && origin + HEAP_BLOCKS + 0x10_0000 <= entries.Length
      modifies entries
      ensures Intact() && live == map[] && FreeCount() == 25600 && heap.start == 0x100_0000
      ensures heap.entries == entries && heap.origin == origin && fresh(heap) && fresh(ram)
    {
      heap := new HeapChunk(entries, origin, HEAP_BLOCKS);
      ram := new Word[RAM_WORDS];
      live := map[];
      new;
      var response := heap.Create(HEAP_ADDRESS, HEAP_ADDRESS + HEAP_SIZE_BYTES);
      AllFreeEncodesEmpty(Table());
      AllFreeCount(Table());
    }

    /** kmalloc. */
    method Kmalloc(size: Word) returns (p: Word)
      requires Valid()
      modifies this`live, heap.entries
      ensures Valid() && Served(old(Table()), old(heap.entries[..]), heap.origin, heap.entries[..], p, size)
      ensures Table() == Requested(old(Table()), BlocksFor(size))
      ensures old(Intact()) && BlocksFor(size) >= 1 && HasRun(old(Table()), BlocksFor(size)) ==>
                && Granted(old(Table()), old(live), BlocksFor(size), Table(), live, p)
                && heap.Outside() == old(heap.Outside())
      ensures p == 0 || BlocksFor(size) == 0 ==> heap.entries[..] == old(heap.entries[..]) && live == old(live)
    {
      ghost var t, n := Table(), BlocksFor(size);
      RequestedIsMarked(t, n);
      p := heap.Malloc(size);
      if 0 <= StartBlock(t, n) < HEAP_BLOCKS {
        PageAddress(StartBlock(t, n));
      }
      if old(Intact()) && n >= 1 && HasRun(t, n) {
        TakenIsGranted(t, live, n);
        live := live[StartBlock(t, n) := n];
      }
      if n == 0 && StartBlock(t, 0) >= 0 {
        MarkedNone(old(heap.entries[..]), heap.origin + StartBlock(t, 0));
      }
    }

    /** kzalloc. */
    method Kzalloc(size: Word) returns (p: Word)
      requires Valid()
      modifies this`live, heap.entries, ram
      ensures Valid() && Served(old(Table()), old(heap.entries[..]), heap.origin, heap.entries[..], p, size)
      ensures Table() == Requested(old(Table()), BlocksFor(size))
      ensures if p == 0 then Mem() == old(Mem()) else Filled(old(Mem()), Mem(), p, 0, size)
      ensures old(Intact()) && BlocksFor(size) >= 1 && HasRun(old(Table()), BlocksFor(size)) ==>
                && Granted(old(Table()), old(live), BlocksFor(size), Table(), live, p)
                && heap.Outside() == old(heap.Outside())
      ensures p == 0 || BlocksFor(size) == 0 ==> heap.entries[..] == old(heap.entries[..]) && live == old(live)
    {
      p := Kmalloc(size);
      if p == 0 {
        return;
      }
      Memset(ram, p, 0, size);
    }

    /** kfree. */
    method Kfree(ptr: Word)
      requires Valid()
      modifies this`live, heap.entries
      ensures Valid()
      ensures heap.entries[..]
           == Freed(old(heap.entries[..]), heap.origin + AddressBlock(HEAP_ADDRESS, ptr), heap.origin + HEAP_BLOCKS)
      ensures var b := AddressBlock(HEAP_ADDRESS, ptr);
              b >= 0 ==> Table() == Freed(old(Table()), b, HEAP_BLOCKS) && heap.Outside() == old(heap.Outside())
      ensures old(Intact()) && HeapPage(ptr) && Block(ptr) in old(live) ==>
                && Intact() && live == old(live) - {Block(ptr)}
                && FreeCount() == old(FreeCount()) + old(live)[Block(ptr)]
                && heap.Outside() == old(heap.Outside())
    {
      heap.Free(ptr);
      if old(Intact()) && HeapPage(ptr) && Block(ptr) in live {
        PageBlock(ptr);
        Released(old(Table()), live, Block(ptr));
        live := live - {Block(ptr)};
      }
    }
  }
}
