/** Lists of one-block allocations: what taking them one by one and giving them back does to
    the live allocations and to memory. */
module PageLists {
  import opened Words
  import opened HeapTable
  import opened Ram
  import opened KernelHeap

  ghost predicate Distinct(pages: seq<Word>) {
    forall i, j :: 0 <= i < j < |pages| ==> pages[i] != pages[j]
  }

  /** None of the pages is live yet, and no two are equal. */
  ghost predicate Fresh(live: Live, pages: seq<Word>) {
    && (forall i :: 0 <= i < |pages| ==> HeapPage(pages[i]) && Block(pages[i]) !in live)
    && Distinct(pages)
  }

  ghost predicate AllLive(live: Live, pages: seq<Word>) {
    forall i :: 0 <= i < |pages| ==> LivePage(live, pages[i])
  }

  /** `live` after the pages were allocated in order. */
  ghost function Extend(live: Live, pages: seq<Word>): Live {
    if pages == [] then live
    else Extend(live, pages[..|pages| - 1])[Block(pages[|pages| - 1]) := 1]
  }

  /** `live` after the pages were freed in order. */
  ghost function Shrink(live: Live, pages: seq<Word>): Live {
    if pages == [] then live
    else Shrink(live, pages[..|pages| - 1]) - {Block(pages[|pages| - 1])}
  }

  lemma BlockInjective(p: Word, q: Word)
    requires HeapPage(p) && HeapPage(q) && Block(p) == Block(q)
    ensures p == q
  {
    PageBlock(p);
    PageBlock(q);
  }

  lemma {:induction false} ExtendAt(live: Live, pages: seq<Word>, b: nat)
    ensures b in Extend(live, pages) <==> b in live || exists i :: 0 <= i < |pages| && Block(pages[i]) == b
    ensures b in Extend(live, pages) ==>
              Extend(live, pages)[b] == if exists i :: 0 <= i < |pages| && Block(pages[i]) == b then 1 else live[b]
  {
    if pages != [] {
      var n := |pages| - 1;
      ExtendAt(live, pages[..n], b);
      if Block(pages[n]) != b && exists i :: 0 <= i < |pages| && Block(pages[i]) == b {
        var i :| 0 <= i < |pages| && Block(pages[i]) == b;
        assert Block(pages[..n][i]) == b;
      }
    }
  }

  lemma {:induction false} ShrinkAt(live: Live, pages: seq<Word>, b: nat)
    ensures b in Shrink(live, pages) <==> b in live && !exists i :: 0 <= i < |pages| && Block(pages[i]) == b
    ensures b in Shrink(live, pages) ==> Shrink(live, pages)[b] == live[b]
  {
    if pages != [] {
      var n := |pages| - 1;
      ShrinkAt(live, pages[..n], b);
      if Block(pages[n]) != b && exists i :: 0 <= i < |pages| && Block(pages[i]) == b {
        var i :| 0 <= i < |pages| && Block(pages[i]) == b;
        assert Block(pages[..n][i]) == b;
      }
    }
  }

  /** A page kzalloc has just returned extends the list. */
  lemma Push(live: Live, pages: seq<Word>, p: Word)
    requires Fresh(live, pages) && HeapPage(p) && Block(p) !in Extend(live, pages)
    ensures Fresh(live, pages + [p])
    ensures Extend(live, pages + [p]) == Extend(live, pages)[Block(p) := 1]
  {
    assert (pages + [p])[..|pages|] == pages;
    ExtendAt(live, pages, Block(p));
  }

  lemma PushFirst(live: Live, p: Word)
    requires HeapPage(p) && Block(p) !in live
    ensures Fresh(live, [p]) && Extend(live, [p]) == live[Block(p) := 1]
  {
    assert [p][..0] == [];
    assert Extend(live, []) == live;
  }

  lemma FreshAreLive(live: Live, pages: seq<Word>)
    requires Fresh(live, pages)
    ensures AllLive(Extend(live, pages), pages)
  {
    forall i | 0 <= i < |pages|
      ensures LivePage(Extend(live, pages), pages[i])
    {
      ExtendAt(live, pages, Block(pages[i]));
    }
  }

  /** Pages live before a fresh list was taken are live after it, and not in the list. */
  lemma OldStaysLive(live: Live, pages: seq<Word>, p: Word)
    requires Fresh(live, pages) && LivePage(live, p)
    ensures LivePage(Extend(live, pages), p) && p !in pages
  {
    ExtendAt(live, pages, Block(p));
  }

  /** Taking fresh pages and giving the same pages back, in any order, restores `live`. */
  lemma ExtendShrink(live: Live, pages: seq<Word>, back: seq<Word>)
    requires Fresh(live, pages)
    requires forall p :: p in back <==> p in pages
    ensures Shrink(Extend(live, pages), back) == live
  {
    var after := Shrink(Extend(live, pages), back);
    forall b: nat
      ensures b in after <==> b in live
      ensures b in live ==> after[b] == live[b]
    {
      ExtendAt(live, pages, b);
      ShrinkAt(Extend(live, pages), back, b);
      if i :| 0 <= i < |pages| && Block(pages[i]) == b {
        assert pages[i] in back;
        var j :| 0 <= j < |back| && back[j] == pages[i];
        assert Block(back[j]) == b;
      }
      if i :| 0 <= i < |back| && Block(back[i]) == b {
        assert back[i] in pages;
      }
    }
  }

  // ---------------------------------------------------------------- single pages

  lemma ZeroedPage(live: Live, m: Memory, m': Memory, p: Word, size: Word)
    requires HeapPage(p) && Block(p) !in live && 1 <= size <= 4096
    requires Filled(m, m', p, 0, size)
    ensures FreshPage(live, m, live[Block(p) := 1], m', p, size)
  {
    FilledWords(m, m', p, size);
  }

  /** kzalloc of at most one block while some block is free. */
  method ZallocPage(k: Kernel, size: Word) returns (p: Word)
    requires k.Intact() && k.FreeCount() > 0 && 1 <= size <= 4096
    modifies k`live, k.heap.entries, k.ram
    ensures k.Intact() && k.FreeCount() == old(k.FreeCount()) - 1
    ensures FreshPage(old(k.live), old(k.Mem()), k.live, k.Mem(), p, size)
    ensures Block(p) == StartBlock(old(k.Table()), 1)
    ensures k.heap.Outside() == old(k.heap.Outside())
  {
    OneFreeBlock(k.Table());
    p := k.Kzalloc(size);
    ZeroedPage(old(k.live), old(k.Mem()), k.Mem(), p, size);
  }

  // ---------------------------------------------------------------- memory

  ghost predicate InSome(pages: seq<Word>, w: int) {
    exists i :: 0 <= i < |pages| && InPage(pages[i], w)
  }

  /** Only words inside the pages differ. */
  ghost predicate Untouched(m: Memory, n: Memory, pages: seq<Word>) {
    forall w :: 0 <= w < RAM_WORDS && !InSome(pages, w) ==> n[w] == m[w]
  }

  ghost predicate SamePage(m: Memory, n: Memory, p: Word) {
    forall w :: 0 <= w < RAM_WORDS && InPage(p, w) ==> n[w] == m[w]
  }

  /** The word of a byte of a page. */
  lemma OffsetInPage(p: Word, j: nat)
    requires HeapPage(p) && j < PAGE_SIZE
    ensures ToWord(p + j) == p + j && InPage(p, (p + j) / 4)
  {
    var q := p / 4096;
    assert p == 4096 * q;
    WordOffset(q, j);
  }

  lemma WordOffset(q: nat, j: nat)
    requires j < 4096
    ensures 4096 * q / 4 == 1024 * q && (4096 * q + j) / 4 == 1024 * q + j / 4
  {
  }

  /** Two different aligned pages have no word in common. */
  lemma PagesApart(p: Word, q: Word, w: int)
    requires Aligned(p) && Aligned(q) && InPage(p, w) && InPage(q, w)
    ensures p == q
  {
    PageWord(p);
    PageWord(q);
  }

  lemma PageWord(p: Word)
    requires Aligned(p)
    ensures p == 4096 * (p / 4096) && p / 4 == 1024 * (p / 4096)
  {
    WordOffset(p / 4096, 0);
  }

  /** Only the page at `p` differs. */
  ghost predicate OnlyPage(m: Memory, n: Memory, p: Word) {
    forall w :: 0 <= w < RAM_WORDS && !InPage(p, w) ==> n[w] == m[w]
  }

  lemma OnlyPageOther(m: Memory, n: Memory, p: Word, q: Word)
    requires OnlyPage(m, n, p) && Aligned(p) && Aligned(q) && p != q
    ensures SamePage(m, n, q)
  {
    forall w | 0 <= w < RAM_WORDS && InPage(q, w)
      ensures n[w] == m[w]
    {
      if InPage(p, w) {
        PagesApart(p, q, w);
      }
    }
  }

  /** A page outside the list keeps its words. */
  lemma UntouchedPage(m: Memory, n: Memory, pages: seq<Word>, p: Word)
    requires Untouched(m, n, pages) && Aligned(p) && p !in pages
    requires forall i :: 0 <= i < |pages| ==> Aligned(pages[i])
    ensures SamePage(m, n, p)
  {
    forall w | 0 <= w < RAM_WORDS && InPage(p, w)
      ensures n[w] == m[w]
    {
      if InSome(pages, w) {
        var i :| 0 <= i < |pages| && InPage(pages[i], w);
        PagesApart(p, pages[i], w);
      }
    }
  }

  lemma UntouchedSingle(m: Memory, n: Memory, p: Word)
    requires OnlyPage(m, n, p)
    ensures Untouched(m, n, [p])
  {
    forall w | 0 <= w < RAM_WORDS && !InSome([p], w)
      ensures n[w] == m[w]
    {
      assert !InPage([p][0], w);
    }
  }

  lemma InSomePush(pages: seq<Word>, p: Word, w: int)
    ensures InSome(pages + [p], w) <==> InSome(pages, w) || InPage(p, w)
  {
    var all := pages + [p];
    if i :| 0 <= i < |pages| && InPage(pages[i], w) {
      assert InPage(all[i], w);
    }
    if InPage(p, w) {
      assert InPage(all[|pages|], w);
    }
  }

  predicate Within(q: Word, p: Word, i: nat) {
    InPage(q, ToWord(p + i) / 4)
  }

  /** None of the `len` bytes from `p` on lies in the page at `q`. */
  ghost predicate Clear(q: Word, p: Word, len: nat) {
    forall i: nat :: i < len ==> !Within(q, p, i)
  }

  ghost predicate ClearOf(pages: seq<Word>, p: Word, len: nat) {
    forall j :: 0 <= j < |pages| ==> Clear(pages[j], p, len)
  }

  lemma ClearByte(q: Word, p: Word, len: nat, a: Word)
    requires Clear(q, p, len) && InPage(q, a / 4)
    ensures ToWord(a - p) >= len
  {
    var i := ToWord(a - p);
    OffsetIs(p, a, i);
    if i < len {
      assert Within(q, p, i);
    }
  }

  /** A page whose bytes are the same has the same words. */
  lemma SameBytesPage(m: Memory, n: Memory, q: Word)
    requires forall a: Word :: InPage(q, a / 4) ==> ByteAt(n, a) == ByteAt(m, a)
    ensures SamePage(m, n, q)
  {
    forall w: nat | w < RAM_WORDS && InPage(q, w)
      ensures n[w] == m[w]
    {
      forall k | 0 <= k < 4
        ensures ByteOf(n[w], k) == ByteOf(m[w], k)
      {
        assert ByteAt(n, ByteAddress(w, k)) == ByteAt(m, ByteAddress(w, k));
      }
      BytesDetermine(n[w], m[w]);
    }
  }

  lemma OnlyBytesPage(m: Memory, n: Memory, p: Word, len: nat, q: Word)
    requires OnlyBytes(m, n, p, len) && Clear(q, p, len)
    ensures SamePage(m, n, q)
  {
    forall a: Word | InPage(q, a / 4)
      ensures ByteAt(n, a) == ByteAt(m, a)
    {
      ClearByte(q, p, len, a);
    }
    SameBytesPage(m, n, q);
  }

  // ---------------------------------------------------------------- giving pages back

  /** Freeing different live pages one by one: the next one is still live. */
  lemma NextStillLive(live: Live, pages: seq<Word>, i: nat)
    requires AllLive(live, pages) && Distinct(pages) && i < |pages|
    ensures LivePage(Shrink(live, pages[..i]), pages[i])
  {
    ShrinkAt(live, pages[..i], Block(pages[i]));
    if j :| 0 <= j < i && Block(pages[..i][j]) == Block(pages[i]) {
      BlockInjective(pages[j], pages[i]);
    }
  }

  lemma ShrinkNext(live: Live, pages: seq<Word>, i: nat)
    requires AllLive(live, pages) && i < |pages|
    ensures Shrink(live, pages[..i + 1]) == Shrink(live, pages[..i]) - {Block(pages[i])}
  {
    assert pages[..i + 1][..i] == pages[..i];
  }

  /** kfree of the next page of such a list. */
  method FreePage(k: Kernel, page: Word, ghost live: Live, ghost pages: seq<Word>, ghost i: nat)
    requires k.Intact() && AllLive(live, pages) && Distinct(pages)
    requires i < |pages| && pages[i] == page && k.live == Shrink(live, pages[..i])
    modifies k`live, k.heap.entries
    ensures k.Intact() && k.live == Shrink(live, pages[..i + 1])
    ensures k.FreeCount() == old(k.FreeCount()) + 1
    ensures k.heap.Outside() == old(k.heap.Outside())
  {
    NextStillLive(live, pages, i);
    ShrinkNext(live, pages, i);
    k.Kfree(page);
  }
}
