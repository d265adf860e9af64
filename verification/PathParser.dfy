/** `src/filesystem/path_parser.c` over the kernel heap: a path becomes a linked list of
    allocated nodes and names, and pathparser_free gives every block back. */
module PathParser {
  import opened Words
  import opened HeapTable
  import opened Ram
  import opened KernelHeap
  import opened PageLists
  import opened PathSpec

  /** sizeof(path_part_t) and sizeof(path_root_t): two words. */
  const NODE_SIZE: Word := 8

  /** One list element: its node, the block of its name, and the name. */
  datatype Part = Part(node: Word, name: Word, text: Text)

  /** The blocks of a list of parts, in allocation order. */
  function PartPages(parts: seq<Part>): (pages: seq<Word>)
    ensures |pages| == 2 * |parts|
  {
    seq(2 * |parts|, i requires 0 <= i < 2 * |parts| => if i % 2 == 0 then parts[i / 2].name else parts[i / 2].node)
  }

  function Texts(parts: seq<Part>): (texts: seq<Text>)
    ensures |texts| == |parts|
  {
    seq(|parts|, i requires 0 <= i < |parts| => parts[i].text)
  }

  /** The zero-terminated string `text` stands in the block at `name`. */
  ghost predicate NameIn(m: Memory, name: Word, text: Text) {
    && HeapPage(name) && |text| < MAX_PATH
    && (forall j: nat :: j < |text| ==> Nth(m, name, j) == text[j])
    && Nth(m, name, |text|) == 0
  }

  /** The node of `part` points to its name and to `next`. */
  ghost predicate PartIn(m: Memory, part: Part, next: Word) {
    && HeapPage(part.node) && m[part.node / 4] == part.name && m[part.node / 4 + 1] == next
    && NameIn(m, part.name, part.text)
  }

  function NodeAt(parts: seq<Part>, i: nat): Word {
    if i < |parts| then parts[i].node else 0
  }

  /** The memory holds `parts` as a list that ends with a null pointer. */
  ghost predicate ListIn(m: Memory, parts: seq<Part>) {
    forall i: nat :: i < |parts| ==> LinkIn(m, parts, i)
  }

  /** Part `i` stands in memory and points to part `i + 1`. */
  ghost predicate LinkIn(m: Memory, parts: seq<Part>, i: nat)
    requires i < |parts|
  {
    PartIn(m, parts[i], NodeAt(parts, i + 1))
  }

  // ---------------------------------------------------------------- framing

  lemma NthInPage(m: Memory, n: Memory, p: Word, j: nat)
    requires HeapPage(p) && j < PAGE_SIZE && SamePage(m, n, p)
    ensures Nth(n, p, j) == Nth(m, p, j)
  {
    OffsetInPage(p, j);
    var w := (p + j) / 4;
    assert n[w] == m[w];
  }

  lemma NameStays(m: Memory, n: Memory, name: Word, text: Text)
    requires NameIn(m, name, text) && SamePage(m, n, name)
    ensures NameIn(n, name, text)
  {
    forall j: nat | j <= |text|
      ensures Nth(n, name, j) == Nth(m, name, j)
    {
      NthInPage(m, n, name, j);
    }
  }

  lemma PartStays(m: Memory, n: Memory, part: Part, next: Word)
    requires PartIn(m, part, next) && SamePage(m, n, part.node) && SamePage(m, n, part.name)
    ensures PartIn(n, part, next)
  {
    assert InPage(part.node, part.node / 4) && InPage(part.node, part.node / 4 + 1);
    NameStays(m, n, part.name, part.text);
  }

  // ---------------------------------------------------------------- pathparser_get_path_part

  /** `i` bytes of `text` are stored in a zeroed block. */
  ghost predicate Stored(m: Memory, name: Word, text: Text, i: nat) {
    forall j: nat :: j < MAX_PATH ==> Nth(m, name, j) == if j < i && j < |text| then text[j] else 0
  }

  lemma StoreMore(m: Memory, name: Word, text: Text, i: nat)
    requires HeapPage(name) && i < |text| && i < MAX_PATH && Stored(m, name, text, i)
    ensures var n := StoreByte(m, ToWord(name + i), text[i]);
            Stored(n, name, text, i + 1) && OnlyPage(m, n, name)
  {
    var n := StoreByte(m, ToWord(name + i), text[i]);
    forall j: nat | j < MAX_PATH
      ensures Nth(n, name, j) == if j < i + 1 && j < |text| then text[j] else 0
    {
      StoreNth(m, name, i, text[i], j);
    }
    assert ToWord(name + i) == name + i && InPage(name, (name + i) / 4);
  }

  lemma ZeroStored(m: Memory, n: Memory, name: Word, text: Text)
    requires HeapPage(name) && Filled(m, n, name, 0, MAX_PATH)
    ensures Stored(n, name, text, 0)
  {
    forall j: nat | j < MAX_PATH
      ensures Nth(n, name, j) == 0
    {
      OffsetIs(name, ToWord(name + j), j);
    }
  }

  /** One round of the copy loop. */
  lemma CopyRound(m0: Memory, m: Memory, part: Word, s: Text, i: nat)
    requires HeapPage(part) && i < |s| && i < MAX_PATH && s[i] != SLASH
    requires SLASH !in s[..i] && Stored(m, part, s, i) && OnlyPage(m0, m, part)
    ensures var n := StoreByte(m, ToWord(part + i), s[i]);
            SLASH !in s[..i + 1] && Stored(n, part, s, i + 1) && OnlyPage(m0, n, part)
  {
    StoreMore(m, part, s, i);
    assert s[..i + 1] == s[..i] + [s[i]];
  }

  /** The copy loop of pathparser_get_path_part, from `cursor` to the next slash or the end. */
  method CopyPart(k: Kernel, part: Word, path: Text, cursor: nat) returns (next: nat)
    requires k.Valid() && HeapPage(part) && 3 <= cursor <= |path| <= MAX_PATH
    requires CString(path) && Stored(k.Mem(), part, path[cursor..], 0)
    modifies k.ram
    ensures next == cursor + PartLength(path[cursor..])
    ensures Stored(k.Mem(), part, path[cursor..], next - cursor)
    ensures OnlyPage(old(k.Mem()), k.Mem(), part)
  {
    ghost var s, m := path[cursor..], k.Mem();
    next := cursor;
    while CharAt(path, next) != SLASH && CharAt(path, next) != 0
      invariant cursor <= next <= |path|
      invariant SLASH !in s[..next - cursor]
      invariant Stored(k.Mem(), part, s, next - cursor)
      invariant OnlyPage(m, k.Mem(), part)
      decreases |path| - next
    {
      CopyRound(m, k.Mem(), part, s, next - cursor);
      StorePathByte(k, ToWord(part + (next - cursor)), path[next]);
      next := next + 1;
    }
    PartLengthIs(s, next - cursor);
  }

  method StorePathByte(k: Kernel, a: Word, b: Byte)
    requires k.Valid()
    modifies k.ram
    ensures k.Mem() == StoreByte(old(k.Mem()), a, b)
  {
    k.ram[a / 4] := SetByte(k.ram[a / 4], a % 4, b);
  }

  lemma StoredName(m: Memory, name: Word, s: Text, n: nat)
    requires HeapPage(name) && n <= |s| && n < MAX_PATH && Stored(m, name, s, n)
    ensures NameIn(m, name, s[..n])
  {
    assert Nth(m, name, n) == 0;
  }

  lemma AfterPartAt(path: Text, cursor: nat, next: nat)
    requires cursor <= next <= |path| && next - cursor == PartLength(path[cursor..])
    ensures if CharAt(path, next) == SLASH then next < |path| && path[next + 1..] == AfterPart(path[cursor..])
            else path[next..] == AfterPart(path[cursor..])
  {
  }

  /** pathparser_get_path_part.  For an empty part the scratch block is already given back. */
  method GetPathPart(k: Kernel, path: Text, cursor: nat) returns (part: Word, next: nat, ghost block: Word)
    requires k.Intact() && k.FreeCount() > 0 && CString(path) && 3 <= cursor <= |path| <= MAX_PATH
    modifies k`live, k.heap.entries, k.ram
    ensures k.Intact() && k.heap.Outside() == old(k.heap.Outside())
    ensures cursor <= next <= |path| && path[next..] == AfterPart(path[cursor..])
    ensures HeapPage(block) && Block(block) !in old(k.live) && OnlyPage(old(k.Mem()), k.Mem(), block)
    ensures var n := PartLength(path[cursor..]);
            if n == 0 then part == 0 && k.live == old(k.live) && k.FreeCount() == old(k.FreeCount())
            else
              && part == block && k.live == old(k.live)[Block(block) := 1]
              && k.FreeCount() == old(k.FreeCount()) - 1
              && NameIn(k.Mem(), part, path[cursor..][..n])
  {
    part := ZallocPage(k, MAX_PATH);
    block := part;
    ghost var s := path[cursor..];
    ZeroStored(old(k.Mem()), k.Mem(), part, s);
    next := CopyPart(k, part, path, cursor);
    var i := next - cursor;
    StoredName(k.Mem(), part, s, i);
    AfterPartAt(path, cursor, next);
    if CharAt(path, next) == SLASH {
      next := next + 1;
    }
    if i == 0 {
      k.Kfree(part);
      RemoveAdded(old(k.live), Block(part));
      part := 0;
    }
  }

  lemma RemoveAdded(live: Live, b: nat)
    requires b !in live
    ensures live[b := 1] - {b} == live
  {
  }

  // ---------------------------------------------------------------- pathparser_parse_path_part

  lemma PagesOfParts(parts: seq<Part>, i: nat)
    requires i < |parts|
    ensures PartPages(parts)[2 * i] == parts[i].name && PartPages(parts)[2 * i + 1] == parts[i].node
  {
    assert 2 * i / 2 == i && (2 * i + 1) / 2 == i && 2 * i % 2 == 0 && (2 * i + 1) % 2 == 1;
  }

  lemma PartPagesPush(parts: seq<Part>, part: Part)
    ensures PartPages(parts + [part]) == PartPages(parts) + [part.name] + [part.node]
  {
    var more, pages := parts + [part], PartPages(parts) + [part.name] + [part.node];
    forall i | 0 <= i < |pages|
      ensures PartPages(more)[i] == pages[i]
    {
      assert i == 2 * (i / 2) + i % 2;
      PagesOfParts(more, i / 2);
      if i / 2 < |parts| {
        PagesOfParts(parts, i / 2);
      }
    }
  }

  /** The blocks of a path: the root, then the name and the node of each part. */
  function PathPages(root: Word, parts: seq<Part>): (pages: seq<Word>) {
    [root] + PartPages(parts)
  }

  lemma PathPagesPush(root: Word, parts: seq<Part>, part: Part)
    ensures PathPages(root, parts + [part]) == PathPages(root, parts) + [part.name] + [part.node]
  {
    PartPagesPush(parts, part);
  }

  /** Since `live` and `m`, exactly the blocks of a path were allocated, the memory holds its
      parts as a list, and no word outside those blocks changed. */
  ghost predicate Building(live: Live, m: Memory, live': Live, m': Memory, root: Word, parts: seq<Part>) {
    && Fresh(live, PathPages(root, parts)) && live' == Extend(live, PathPages(root, parts))
    && ListIn(m', parts)
    && Untouched(m, m', PathPages(root, parts))
  }

  lemma UntouchedPush(m: Memory, n: Memory, n': Memory, pages: seq<Word>, p: Word)
    requires Untouched(m, n, pages) && OnlyPage(n, n', p)
    ensures Untouched(m, n', pages + [p])
  {
    forall w | 0 <= w < RAM_WORDS && !InSome(pages + [p], w)
      ensures n'[w] == m[w]
    {
      InSomePush(pages, p, w);
    }
  }

  lemma UntouchedOne(m: Memory, n: Memory, n': Memory, pages: seq<Word>, i: nat)
    requires Untouched(m, n, pages) && i < |pages| && OnlyPage(n, n', pages[i])
    ensures Untouched(m, n', pages)
  {
  }

  lemma StoreOnlyPage(m: Memory, p: Word, slot: nat, w: Word)
    requires HeapPage(p) && slot < 1024
    ensures OnlyPage(m, m[p / 4 + slot := w], p)
  {
  }

  lemma OnlyPageTrans(m: Memory, n: Memory, n': Memory, p: Word)
    requires OnlyPage(m, n, p) && OnlyPage(n, n', p)
    ensures OnlyPage(m, n', p)
  {
  }

  /** The memory after a new node was filled in. */
  function WithNode(m: Memory, node: Word, name: Word): Memory {
    if node > 0xFFFF_FFF8 then m else m[node / 4 := name][node / 4 + 1 := 0]
  }

  /** The memory after the last node was made to point to the new one. */
  function Linked(m: Memory, last: Word, node: Word): Memory {
    if last == 0 || last > 0xFFFF_FFF8 then m else m[last / 4 + 1 := node]
  }

  lemma WithNodeIs(m: Memory, part: Part)
    requires HeapPage(part.node) && NameIn(m, part.name, part.text) && part.name != part.node
    ensures PartIn(WithNode(m, part.node, part.name), part, 0)
    ensures OnlyPage(m, WithNode(m, part.node, part.name), part.node)
  {
    var n := WithNode(m, part.node, part.name);
    assert InPage(part.node, part.node / 4) && InPage(part.node, part.node / 4 + 1);
    assert OnlyPage(m, n, part.node);
    OnlyPageOther(m, n, part.node, part.name);
    NameStays(m, n, part.name, part.text);
  }

  lemma LinkedIs(m: Memory, part: Part, node: Word)
    requires PartIn(m, part, 0) && part.name != part.node
    ensures PartIn(Linked(m, part.node, node), part, node)
    ensures OnlyPage(m, Linked(m, part.node, node), part.node)
  {
    var n := Linked(m, part.node, node);
    StoreOnlyPage(m, part.node, 1, node);
    OnlyPageOther(m, n, part.node, part.name);
    NameStays(m, n, part.name, part.text);
  }

  /** The pages of two parts of a list are four different pages. */
  lemma PartsApart(root: Word, parts: seq<Part>, i: nat, j: nat)
    requires i < |parts| && j < |parts| && Distinct(PathPages(root, parts))
    ensures parts[i].name != parts[j].node && parts[i].name != root && parts[i].node != root
    ensures i != j ==> parts[i].node != parts[j].node && parts[i].name != parts[j].name
  {
    PagesOfParts(parts, i);
    PagesOfParts(parts, j);
    var pages := PathPages(root, parts);
    assert pages[0] == root;
    assert pages[2 * i + 1] == parts[i].name && pages[2 * i + 2] == parts[i].node;
    assert pages[2 * j + 1] == parts[j].name && pages[2 * j + 2] == parts[j].node;
  }

  function LastNode(parts: seq<Part>): Word {
    if parts == [] then 0 else parts[|parts| - 1].node
  }

  /** Two stores in pages of neither keep a part. */
  lemma PartStaysTwice(m: Memory, n: Memory, n': Memory, p: Word, q: Word, part: Part, next: Word)
    requires PartIn(m, part, next) && OnlyPage(m, n, p) && OnlyPage(n, n', q)
    requires Aligned(p) && Aligned(q) && p != part.node && p != part.name && q != part.node && q != part.name
    ensures PartIn(n', part, next)
  {
    OnlyPageOther(m, n, p, part.node);
    OnlyPageOther(m, n, p, part.name);
    PartStays(m, n, part, next);
    OnlyPageOther(n, n', q, part.node);
    OnlyPageOther(n, n', q, part.name);
    PartStays(n, n', part, next);
  }

  lemma NewNode(m: Memory, n: Memory, part: Part)
    requires HeapPage(part.node) && NameIn(m, part.name, part.text) && part.name != part.node
    requires OnlyPage(m, n, part.node)
    ensures PartIn(WithNode(n, part.node, part.name), part, 0)
    ensures OnlyPage(n, WithNode(n, part.node, part.name), part.node)
  {
    OnlyPageOther(m, n, part.node, part.name);
    NameStays(m, n, part.name, part.text);
    WithNodeIs(n, part);
  }

  /** An older part is untouched by a fresh name and a fresh node. */
  lemma OldPartStays(m: Memory, m1: Memory, m3: Memory, root: Word, more: seq<Part>, i: nat, n: nat, next: Word)
    requires i < n < |more| && Distinct(PathPages(root, more)) && Aligned(more[n].name) && Aligned(more[n].node)
    requires PartIn(m, more[i], next) && OnlyPage(m, m1, more[n].name) && OnlyPage(m1, m3, more[n].node)
    ensures PartIn(m3, more[i], next)
  {
    PartsApart(root, more, i, n);
    PartsApart(root, more, n, i);
    PartStaysTwice(m, m1, m3, more[n].name, more[n].node, more[i], next);
  }

  /** Linking `last` leaves every other part alone. */
  lemma OtherPartStays(m: Memory, n: Memory, root: Word, more: seq<Part>, i: nat, j: nat, next: Word)
    requires i < |more| && j < |more| && i != j && Distinct(PathPages(root, more)) && HeapPage(more[j].node)
    requires PartIn(m, more[i], next) && OnlyPage(m, n, more[j].node)
    ensures PartIn(n, more[i], next)
  {
    PartsApart(root, more, i, j);
    OnlyPageOther(m, n, more[j].node, more[i].node);
    OnlyPageOther(m, n, more[j].node, more[i].name);
    PartStays(m, n, more[i], next);
  }

  /** Linking the new last part into the list. */
  lemma LinkLast(m: Memory, root: Word, parts: seq<Part>, part: Part)
    requires ListIn(m, parts) && PartIn(m, part, 0) && Distinct(PathPages(root, parts + [part]))
    ensures ListIn(Linked(m, LastNode(parts), part.node), parts + [part])
  {
    var more, n := parts + [part], |parts|;
    if n > 0 {
      var m' := Linked(m, LastNode(parts), part.node);
      var last := more[n - 1];
      PartsApart(root, more, n - 1, n - 1);
      assert LinkIn(m, parts, n - 1);
      LinkedIs(m, last, part.node);
      forall i: nat | i < n + 1
        ensures LinkIn(m', more, i)
      {
        if i < n - 1 {
          assert LinkIn(m, parts, i);
          OtherPartStays(m, m', root, more, i, n - 1, NodeAt(parts, i + 1));
        } else if i == n {
          OtherPartStays(m, m', root, more, n, n - 1, 0);
        }
      }
    }
  }

  /** Filling in a new node and linking it keeps the list and appends the part. */
  lemma ListGrows(m: Memory, m1: Memory, m2: Memory, root: Word, parts: seq<Part>, part: Part)
    requires ListIn(m, parts) && Distinct(PathPages(root, parts + [part])) && HeapPage(part.node)
    requires OnlyPage(m, m1, part.name) && NameIn(m1, part.name, part.text) && OnlyPage(m1, m2, part.node)
    ensures ListIn(Linked(WithNode(m2, part.node, part.name), LastNode(parts), part.node), parts + [part])
  {
    var more, n := parts + [part], |parts|;
    var m3 := WithNode(m2, part.node, part.name);
    PartsApart(root, more, n, n);
    NewNode(m1, m2, part);
    OnlyPageTrans(m1, m2, m3, part.node);
    forall i: nat | i < n
      ensures LinkIn(m3, parts, i)
    {
      assert LinkIn(m, parts, i);
      OldPartStays(m, m1, m3, root, more, i, n, NodeAt(parts, i + 1));
    }
    LinkLast(m3, root, parts, part);
  }

  /** A new part touches its own two pages and the node of the last part. */
  lemma UntouchedGrows(m0: Memory, m: Memory, m1: Memory, m2: Memory, root: Word, parts: seq<Part>, part: Part)
    requires ListIn(m, parts) && part.name != part.node && HeapPage(part.node)
    requires OnlyPage(m, m1, part.name) && NameIn(m1, part.name, part.text) && OnlyPage(m1, m2, part.node)
    requires Untouched(m0, m, PathPages(root, parts))
    ensures Untouched(m0, Linked(WithNode(m2, part.node, part.name), LastNode(parts), part.node),
                      PathPages(root, parts) + [part.name] + [part.node])
  {
    var pages := PathPages(root, parts);
    var m3 := WithNode(m2, part.node, part.name);
    NewNode(m1, m2, part);
    OnlyPageTrans(m1, m2, m3, part.node);
    var m4 := Linked(m3, LastNode(parts), part.node);
    UntouchedPush(m0, m, m1, pages, part.name);
    UntouchedPush(m0, m1, m3, pages + [part.name], part.node);
    if parts != [] {
      LinkInPages(m, m3, root, parts, part.node);
      UntouchedOne(m0, m3, m4, pages + [part.name] + [part.node], 2 * |parts|);
    }
  }

  lemma LinkInPages(m: Memory, n: Memory, root: Word, parts: seq<Part>, node: Word)
    requires ListIn(m, parts) && parts != []
    ensures |PathPages(root, parts)| == 2 * |parts| + 1
    ensures OnlyPage(n, Linked(n, LastNode(parts), node), PathPages(root, parts)[2 * |parts|])
  {
    var last := |parts| - 1;
    assert LinkIn(m, parts, last);
    StoreOnlyPage(n, parts[last].node, 1, node);
    PagesOfParts(parts, last);
  }

  /** A new name and a new node extend the path. */
  lemma BuildingGrows(live: Live, m0: Memory, live0: Live, m: Memory, m1: Memory, m2: Memory, root: Word,
                      parts: seq<Part>, part: Part)
    requires Building(live, m0, live0, m, root, parts)
    requires HeapPage(part.name) && Block(part.name) !in live0
    requires HeapPage(part.node) && Block(part.node) !in live0[Block(part.name) := 1]
    requires OnlyPage(m, m1, part.name) && NameIn(m1, part.name, part.text) && OnlyPage(m1, m2, part.node)
    ensures Building(live, m0, live0[Block(part.name) := 1][Block(part.node) := 1],
                     Linked(WithNode(m2, part.node, part.name), LastNode(parts), part.node), root, parts + [part])
  {
    var pages := PathPages(root, parts);
    Push(live, pages, part.name);
    Push(live, pages + [part.name], part.node);
    PathPagesPush(root, parts, part);
    ListGrows(m, m1, m2, root, parts, part);
    PartsApart(root, parts + [part], |parts|, |parts|);
    UntouchedGrows(m0, m, m1, m2, root, parts, part);
  }

  /** The root block is touched by no new part. */
  lemma RootStays(live: Live, root: Word, parts: seq<Part>, part: Part, m: Memory, m1: Memory, m2: Memory)
    requires Fresh(live, PathPages(root, parts + [part])) && ListIn(m, parts)
    requires OnlyPage(m, m1, part.name) && NameIn(m1, part.name, part.text) && OnlyPage(m1, m2, part.node)
    ensures SamePage(m, Linked(WithNode(m2, part.node, part.name), LastNode(parts), part.node), root)
  {
    var more, n := parts + [part], |parts|;
    var m3 := WithNode(m2, part.node, part.name);
    PartsApart(root, more, n, n);
    var pages := PathPages(root, more);
    PathPagesPush(root, parts, part);
    assert pages[0] == root && pages[2 * n + 2] == part.node && HeapPage(pages[0]) && HeapPage(pages[2 * n + 2]);
    NewNode(m1, m2, part);
    OnlyPageOther(m, m1, part.name, root);
    OnlyPageOther(m1, m2, part.node, root);
    OnlyPageOther(m2, m3, part.node, root);
    if n > 0 {
      PartsApart(root, more, n - 1, n);
      assert LinkIn(m, parts, n - 1);
      StoreOnlyPage(m3, parts[n - 1].node, 1, part.node);
      OnlyPageOther(m3, Linked(m3, parts[n - 1].node, part.node), parts[n - 1].node, root);
    }
  }

  lemma TextsPush(parts: seq<Part>, part: Part)
    ensures Texts(parts + [part]) == Texts(parts) + [part.text]
  {
  }

  lemma LastNodeInHeap(m: Memory, parts: seq<Part>)
    requires ListIn(m, parts) && parts != []
    ensures HeapPage(LastNode(parts))
  {
    assert LinkIn(m, parts, |parts| - 1);
  }

  /** The stores of pathparser_parse_path_part. */
  method FillNode(k: Kernel, node: Word, name: Word, last: Word)
    requires k.Valid() && HeapPage(node) && (last == 0 || HeapPage(last))
    modifies k.ram
    ensures k.Mem() == Linked(WithNode(old(k.Mem()), node, name), last, node)
  {
    k.ram[node / 4] := name;
    k.ram[node / 4 + 1] := 0;
    if last != 0 {
      k.ram[last / 4 + 1] := node;
    }
  }

  /** What pathparser_parse_path_part does to a path under construction. */
  ghost predicate PartParsed(live: Live, m: Memory, live0: Live, m0: Memory, live1: Live, m1: Memory, root: Word,
                             parts: seq<Part>, parts': seq<Part>, text: Text, part: Word) {
    && |parts'| == |parts| + 1 && parts'[..|parts|] == parts && Texts(parts') == Texts(parts) + [text]
    && NodeAt(parts', 0) == (if parts == [] then part else NodeAt(parts, 0))
    && part == LastNode(parts') && HeapPage(part)
    && Building(live, m, live1, m1, root, parts')
    && SamePage(m0, m1, root)
  }

  lemma NewPartParsed(live: Live, m: Memory, live0: Live, m0: Memory, m1: Memory, m2: Memory, root: Word,
                      parts: seq<Part>, part: Part)
    requires Building(live, m, live0, m0, root, parts)
    requires HeapPage(part.name) && Block(part.name) !in live0
    requires HeapPage(part.node) && Block(part.node) !in live0[Block(part.name) := 1]
    requires OnlyPage(m0, m1, part.name) && NameIn(m1, part.name, part.text) && OnlyPage(m1, m2, part.node)
    ensures var m3 := Linked(WithNode(m2, part.node, part.name), LastNode(parts), part.node);
            PartParsed(live, m, live0, m0, live0[Block(part.name) := 1][Block(part.node) := 1], m3, root,
                       parts, parts + [part], part.text, part.node)
  {
    BuildingGrows(live, m, live0, m0, m1, m2, root, parts, part);
    RootStays(live, root, parts, part, m0, m1, m2);
    TextsPush(parts, part);
  }

  /** pathparser_parse_path_part. */
  method ParsePathPart(k: Kernel, last: Word, path: Text, cursor: nat, ghost live: Live, ghost m: Memory,
                       ghost root: Word, ghost parts: seq<Part>)
    returns (part: Word, next: nat, ghost parts': seq<Part>, ghost scratch: Word)
    requires k.Intact() && CString(path) && 3 <= cursor <= |path| <= MAX_PATH
    requires k.FreeCount() > if PartLength(path[cursor..]) == 0 then 0 else 1
    requires Building(live, m, k.live, k.Mem(), root, parts) && last == LastNode(parts)
    modifies k`live, k.heap.entries, k.ram
    ensures k.Intact() && k.heap.Outside() == old(k.heap.Outside())
    ensures cursor <= next <= |path| && path[next..] == AfterPart(path[cursor..])
    ensures PartLength(path[cursor..]) == 0 ==>
              && part == 0 && parts' == parts && k.live == old(k.live) && k.FreeCount() == old(k.FreeCount())
              && HeapPage(scratch) && Block(scratch) !in k.live && OnlyPage(old(k.Mem()), k.Mem(), scratch)
    ensures PartLength(path[cursor..]) > 0 ==>
              && PartParsed(live, m, old(k.live), old(k.Mem()), k.live, k.Mem(), root, parts, parts',
                            path[cursor..][..PartLength(path[cursor..])], part)
              && k.FreeCount() == old(k.FreeCount()) - 2
  {
    ghost var live0, m0 := k.live, k.Mem();
    var name: Word;
    name, next, scratch := GetPathPart(k, path, cursor);
    parts' := parts;
    if name == 0 {
      return 0, next, parts, scratch;
    }
    ghost var m1 := k.Mem();
    part := ZallocPage(k, NODE_SIZE);
    ghost var added := Part(part, name, path[cursor..][..PartLength(path[cursor..])]);
    if parts != [] {
      LastNodeInHeap(m0, parts);
    }
    NewPartParsed(live, m, live0, m0, m1, k.Mem(), root, parts, added);
    FillNode(k, part, name, last);
    parts' := parts + [added];
  }

  // ---------------------------------------------------------------- pathparser_parse

  /** The root block holds the drive and a pointer to the first node. */
  ghost predicate RootIn(m: Memory, root: Word, drive: Word, parts: seq<Part>) {
    HeapPage(root) && m[root / 4] == drive && m[root / 4 + 1] == NodeAt(parts, 0)
  }

  /** The parts built so far are what the text before `cursor` means. */
  ghost predicate ReadSoFar(path: Text, cursor: nat, parts: seq<Part>) {
    3 <= cursor <= |path| && Texts(parts) + Components(path[cursor..]) == Components(path[3..])
  }

  /** The parsed path stands in memory: since `live` and `m` exactly its blocks were allocated,
      and only they and one block that was given back again were written. */
  ghost predicate PathBuilt(live: Live, m: Memory, live': Live, m': Memory, root: Word, drive: Word,
                            parts: seq<Part>, scratch: Word) {
    && Fresh(live, PathPages(root, parts)) && live' == Extend(live, PathPages(root, parts))
    && RootIn(m', root, drive, parts) && ListIn(m', parts)
    && HeapPage(scratch) && Block(scratch) !in live' && Untouched(m, m', PathPages(root, parts) + [scratch])
  }

  lemma RootBlock(live: Live, m: Memory, m1: Memory, root: Word, drive: Word)
    requires FreshPage(live, m, live[Block(root) := 1], m1, root, NODE_SIZE)
    ensures var m2 := m1[root / 4 := drive][root / 4 + 1 := 0];
            Building(live, m, live[Block(root) := 1], m2, root, []) && RootIn(m2, root, drive, [])
  {
    var m2 := m1[root / 4 := drive][root / 4 + 1 := 0];
    assert PathPages(root, []) == [root];
    StoreOnlyPage(m1, root, 0, drive);
    StoreOnlyPage(m1[root / 4 := drive], root, 1, 0);
    assert OnlyPage(m, m2, root);
    UntouchedSingle(m, m2, root);
  }

  /** A store into the root block keeps the list. */
  lemma RootStore(live: Live, m: Memory, live0: Live, m0: Memory, m1: Memory, root: Word, parts: seq<Part>)
    requires Building(live, m, live0, m0, root, parts) && HeapPage(root) && OnlyPage(m0, m1, root)
    ensures Building(live, m, live0, m1, root, parts)
  {
    var pages := PathPages(root, parts);
    assert pages[0] == root;
    UntouchedOne(m, m0, m1, pages, 0);
    forall i: nat | i < |parts|
      ensures LinkIn(m1, parts, i)
    {
      assert LinkIn(m0, parts, i);
      PartsApart(root, parts, i, i);
      OnlyPageOther(m0, m1, root, parts[i].node);
      OnlyPageOther(m0, m1, root, parts[i].name);
      PartStays(m0, m1, parts[i], NodeAt(parts, i + 1));
    }
  }

  lemma PartsLive(live: Live, root: Word, parts: seq<Part>, i: nat)
    requires Fresh(live, PathPages(root, parts)) && i < |parts|
    ensures var after := Extend(live, PathPages(root, parts));
            LivePage(after, parts[i].node) && LivePage(after, parts[i].name) && LivePage(after, root)
  {
    var pages := PathPages(root, parts);
    FreshAreLive(live, pages);
    PagesOfParts(parts, i);
    assert pages[0] == root && pages[2 * i + 1] == parts[i].name && pages[2 * i + 2] == parts[i].node;
  }

  /** Writing a block that is not live finishes the path. */
  lemma ScratchKeeps(live: Live, m: Memory, live0: Live, m0: Memory, m1: Memory, root: Word, drive: Word,
                     parts: seq<Part>, scratch: Word)
    requires Building(live, m, live0, m0, root, parts) && RootIn(m0, root, drive, parts)
    requires HeapPage(scratch) && Block(scratch) !in live0 && OnlyPage(m0, m1, scratch)
    ensures PathBuilt(live, m, live0, m1, root, drive, parts, scratch)
  {
    var pages := PathPages(root, parts);
    UntouchedPush(m, m0, m1, pages, scratch);
    forall i: nat | i < |parts|
      ensures LinkIn(m1, parts, i)
    {
      assert LinkIn(m0, parts, i);
      PartsLive(live, root, parts, i);
      OnlyPageOther(m0, m1, scratch, parts[i].node);
      OnlyPageOther(m0, m1, scratch, parts[i].name);
      PartStays(m0, m1, parts[i], NodeAt(parts, i + 1));
    }
    FreshAreLive(live, pages);
    assert pages[0] == root;
    OnlyPageOther(m0, m1, scratch, root);
    assert InPage(root, root / 4) && InPage(root, root / 4 + 1);
  }

  lemma ReadMore(path: Text, cursor: nat, next: nat, parts: seq<Part>, parts': seq<Part>)
    requires ReadSoFar(path, cursor, parts) && cursor <= next <= |path|
    requires path[next..] == AfterPart(path[cursor..])
    requires var n := PartLength(path[cursor..]);
             n > 0 && Texts(parts') == Texts(parts) + [path[cursor..][..n]]
    ensures ReadSoFar(path, next, parts')
  {
    var s := path[cursor..];
    ComponentsStep(s);
    Regrouped(Texts(parts), s[..PartLength(s)], Components(path[next..]));
  }

  lemma ComponentsStep(s: Text)
    requires PartLength(s) > 0
    ensures Components(s) == [s[..PartLength(s)]] + Components(AfterPart(s))
  {
  }

  lemma Regrouped(texts: seq<Text>, text: Text, rest: seq<Text>)
    ensures texts + ([text] + rest) == texts + [text] + rest
  {
  }

  /** What one call of pathparser_parse_path_part leaves: one more part, or the finished path. */
  ghost predicate Continued(k: Kernel, path: Text, live: Live, m: Memory, root: Word, drive: Word, part: Word,
                            next: nat, parts: seq<Part>, scratch: Word, blocks: nat)
    requires k.Valid()
    reads k, k.heap, k.heap.entries, k.ram
  {
    && 3 <= next <= |path| && k.FreeCount() == blocks - 2 * |parts|
    && if part == 0 then
         PathBuilt(live, m, k.live, k.Mem(), root, drive, parts, scratch) && Texts(parts) == Components(path[3..])
       else
         && Building(live, m, k.live, k.Mem(), root, parts) && RootIn(k.Mem(), root, drive, parts)
         && part == LastNode(parts) && parts != [] && ReadSoFar(path, next, parts)
  }

  /** A later round of pathparser_parse. */
  method NextPart(k: Kernel, path: Text, last: Word, cursor: nat, ghost live: Live, ghost m: Memory,
                  ghost root: Word, ghost drive: Word, ghost parts: seq<Part>, ghost blocks: nat)
    returns (part: Word, next: nat, ghost parts': seq<Part>, ghost scratch: Word)
    requires k.Intact() && CString(path) && |path| <= MAX_PATH && last != 0
    requires Continued(k, path, live, m, root, drive, last, cursor, parts, 0, blocks)
    requires blocks > 2 * |Components(path[3..])|
    modifies k`live, k.heap.entries, k.ram
    ensures k.Intact() && k.heap.Outside() == old(k.heap.Outside())
    ensures Continued(k, path, live, m, root, drive, part, next, parts', scratch, blocks)
    ensures part != 0 ==> next > cursor
  {
    ghost var live0, m0 := k.live, k.Mem();
    assert |Texts(parts)| + |Components(path[cursor..])| == |Components(path[3..])|;
    part, next, parts', scratch := ParsePathPart(k, last, path, cursor, live, m, root, parts);
    if part == 0 {
      assert Components(path[cursor..]) == [];
      ScratchKeeps(live, m, live0, m0, k.Mem(), root, drive, parts, scratch);
    } else {
      ReadMore(path, cursor, next, parts, parts');
      assert InPage(root, root / 4) && InPage(root, root / 4 + 1);
    }
  }

  /** The rounds of pathparser_parse after the root was created. */
  method ParseParts(k: Kernel, path: Text, root: Word, ghost live: Live, ghost m: Memory, ghost drive: Word,
                    ghost blocks: nat)
    returns (ghost parts: seq<Part>, ghost scratch: Word)
    requires k.Intact() && CString(path) && 3 <= |path| <= MAX_PATH
    requires Building(live, m, k.live, k.Mem(), root, []) && RootIn(k.Mem(), root, drive, [])
    requires k.FreeCount() == blocks > 2 * |Components(path[3..])|
    modifies k`live, k.heap.entries, k.ram
    ensures k.Intact() && k.heap.Outside() == old(k.heap.Outside())
    ensures PathBuilt(live, m, k.live, k.Mem(), root, drive, parts, scratch)
    ensures Texts(parts) == Components(path[3..]) && k.FreeCount() == blocks - 2 * |parts|
  {
    ghost var live0, m0 := k.live, k.Mem();
    assert ReadSoFar(path, 3, []);
    var part, cursor;
    part, cursor, parts, scratch := ParsePathPart(k, 0, path, 3, live, m, root, []);
    if part == 0 {
      ScratchKeeps(live, m, live0, m0, k.Mem(), root, drive, [], scratch);
      return;
    }
    ReadMore(path, 3, cursor, [], parts);
    assert InPage(root, root / 4) && InPage(root, root / 4 + 1);
    ghost var m1 := k.Mem();
    StoreOnlyPage(m1, root, 1, part);
    RootStore(live, m, k.live, m1, m1[root / 4 + 1 := part], root, parts);
    k.ram[root / 4 + 1] := part;
    part, cursor, parts, scratch := NextPart(k, path, part, cursor, live, m, root, drive, parts, blocks);
    while part != 0
      invariant k.Intact() && k.heap.Outside() == old(k.heap.Outside())
      invariant Continued(k, path, live, m, root, drive, part, cursor, parts, scratch, blocks)
      decreases if part == 0 then 0 else 1 + |path| - cursor
    {
      part, cursor, parts, scratch := NextPart(k, path, part, cursor, live, m, root, drive, parts, blocks);
    }
  }

  /** pathparser_parse: for a bad path a null pointer and nothing changed, and otherwise a root
      whose list in memory is the drive and the components of the path. */
  method Parse(k: Kernel, path: Text) returns (root: Word, ghost parts: seq<Part>, ghost scratch: Word)
    requires k.Intact() && CString(path)
    requires Parsed(path).Some? ==> k.FreeCount() >= 2 * |Parsed(path).value.1| + 2
    modifies k`live, k.heap.entries, k.ram
    ensures k.Intact() && k.heap.Outside() == old(k.heap.Outside())
    ensures root == 0 <==> Parsed(path).None?
    ensures root == 0 ==> k.live == old(k.live) && k.Mem() == old(k.Mem()) && k.Table() == old(k.Table())
    ensures root != 0 ==>
              var (drive, components) := Parsed(path).value;
              && PathBuilt(old(k.live), old(k.Mem()), k.live, k.Mem(), root, drive, parts, scratch)
              && Texts(parts) == components
              && k.FreeCount() == old(k.FreeCount()) - 2 * |components| - 1
  {
    root, parts, scratch := 0, [], 0;
    if |path| > MAX_PATH || !ValidFormat(path) {
      return;
    }
    ghost var live, m := k.live, k.Mem();
    root := ZallocPage(k, NODE_SIZE);
    var drive := path[0] - DIGIT_ZERO;
    RootBlock(live, m, k.Mem(), root, drive);
    k.ram[root / 4] := drive;
    k.ram[root / 4 + 1] := 0;
    parts, scratch := ParseParts(k, path, root, live, m, drive, k.FreeCount());
  }

  // ---------------------------------------------------------------- pathparser_free

  /** The blocks of a path in the order pathparser_free gives them back. */
  function FreePages(root: Word, parts: seq<Part>): (pages: seq<Word>)
    ensures |pages| == 2 * |parts| + 1
  {
    PartPages(parts) + [root]
  }

  lemma FreePagesAre(root: Word, parts: seq<Part>, i: nat)
    requires i < |parts|
    ensures FreePages(root, parts)[2 * i] == parts[i].name && FreePages(root, parts)[2 * i + 1] == parts[i].node
  {
    PagesOfParts(parts, i);
  }

  lemma NodeAtHeap(m: Memory, parts: seq<Part>, i: nat)
    requires ListIn(m, parts)
    ensures if i < |parts| then HeapPage(NodeAt(parts, i)) && LinkIn(m, parts, i) else NodeAt(parts, i) == 0
  {
    if i < |parts| {
      assert LinkIn(m, parts, i);
    }
  }

  /** pathparser_free has given back the first `i` parts; `part` is the next node. */
  ghost predicate Freeing(k: Kernel, live: Live, root: Word, parts: seq<Part>, blocks: nat, i: nat, part: Word)
    requires k.Valid()
    reads k, k.heap, k.heap.entries, k.ram
  {
    && i <= |parts| && part == NodeAt(parts, i) && ListIn(k.Mem(), parts)
    && AllLive(live, FreePages(root, parts)) && Distinct(FreePages(root, parts))
    && k.live == Shrink(live, FreePages(root, parts)[..2 * i])
    && k.FreeCount() == blocks + 2 * i
  }

  /** kfree of two pages that follow each other in a list to be freed. */
  method FreePair(k: Kernel, first: Word, second: Word, ghost live: Live, ghost pages: seq<Word>, ghost j: nat)
    requires k.Intact() && AllLive(live, pages) && Distinct(pages)
    requires j + 1 < |pages| && pages[j] == first && pages[j + 1] == second
    requires k.live == Shrink(live, pages[..j])
    modifies k`live, k.heap.entries
    ensures k.Intact() && k.live == Shrink(live, pages[..j + 2])
    ensures k.FreeCount() == old(k.FreeCount()) + 2
    ensures k.heap.Outside() == old(k.heap.Outside())
  {
    FreePage(k, first, live, pages, j);
    FreePage(k, second, live, pages, j + 1);
  }

  /** One round of pathparser_free. */
  method FreePart(k: Kernel, part: Word, ghost live: Live, ghost root: Word, ghost parts: seq<Part>,
                  ghost blocks: nat, ghost i: nat) returns (next: Word)
    requires k.Intact() && Freeing(k, live, root, parts, blocks, i, part) && part != 0
    modifies k`live, k.heap.entries
    ensures k.Intact() && k.heap.Outside() == old(k.heap.Outside())
    ensures i < |parts| && Freeing(k, live, root, parts, blocks, i + 1, next)
  {
    NodeAtHeap(k.Mem(), parts, i);
    FreePagesAre(root, parts, i);
    assert PartIn(k.Mem(), parts[i], NodeAt(parts, i + 1));
    next := k.ram[part / 4 + 1];
    FreePair(k, k.ram[part / 4], part, live, FreePages(root, parts), 2 * i);
  }

  /** pathparser_free of a root whose list stands in memory: every name, every node and the root
      are given back, each exactly once, and memory is not written. */
  method PathFree(k: Kernel, root: Word, ghost drive: Word, ghost parts: seq<Part>)
    requires k.Intact() && RootIn(k.Mem(), root, drive, parts) && ListIn(k.Mem(), parts)
    requires AllLive(k.live, FreePages(root, parts)) && Distinct(FreePages(root, parts))
    modifies k`live, k.heap.entries
    ensures k.Intact() && k.heap.Outside() == old(k.heap.Outside())
    ensures k.live == Shrink(old(k.live), FreePages(root, parts))
    ensures k.FreeCount() == old(k.FreeCount()) + 2 * |parts| + 1
  {
    ghost var live, i, blocks := k.live, 0, k.FreeCount();
    var part := k.ram[root / 4 + 1];
    while part != 0
      invariant k.Intact() && k.heap.Outside() == old(k.heap.Outside())
      invariant Freeing(k, live, root, parts, blocks, i, part)
      decreases |parts| - i
    {
      part := FreePart(k, part, live, root, parts, blocks, i);
      i := i + 1;
    }
    FreeRoot(k, root, live, parts, blocks, i);
  }

  method FreeRoot(k: Kernel, root: Word, ghost live: Live, ghost parts: seq<Part>, ghost blocks: nat, ghost i: nat)
    requires k.Intact() && Freeing(k, live, root, parts, blocks, i, 0)
    modifies k`live, k.heap.entries
    ensures k.Intact() && k.heap.Outside() == old(k.heap.Outside())
    ensures k.live == Shrink(live, FreePages(root, parts)) && k.FreeCount() == blocks + 2 * |parts| + 1
  {
    ghost var pages := FreePages(root, parts);
    NodeAtHeap(k.Mem(), parts, i);
    FreePage(k, root, live, pages, 2 * |parts|);
    assert pages[..2 * |parts| + 1] == pages;
  }

  lemma SameBlocks(live: Live, root: Word, parts: seq<Part>)
    requires Fresh(live, PathPages(root, parts))
    ensures forall p :: p in FreePages(root, parts) <==> p in PathPages(root, parts)
    ensures Distinct(FreePages(root, parts))
    ensures AllLive(Extend(live, PathPages(root, parts)), FreePages(root, parts))
  {
    var there, back, n := PathPages(root, parts), FreePages(root, parts), 2 * |parts|;
    FreshAreLive(live, there);
    forall i | 0 <= i < |back|
      ensures back[i] == there[if i == n then 0 else i + 1]
    {
    }
    forall p
      ensures p in back <==> p in there
    {
      if p in PartPages(parts) {
        assert p in there;
      }
    }
  }

  /** Parsing a path and freeing the result restores the heap table entry for entry. */
  method ParseThenFree(k: Kernel, path: Text)
    requires k.Intact() && CString(path) && Parsed(path).Some?
    requires k.FreeCount() >= 2 * |Parsed(path).value.1| + 2
    modifies k`live, k.heap.entries, k.ram
    ensures k.Intact() && k.live == old(k.live)
    ensures k.Table() == old(k.Table()) && k.heap.Outside() == old(k.heap.Outside())
  {
    ghost var live, table := k.live, k.Table();
    var root;
    ghost var parts, scratch;
    root, parts, scratch := Parse(k, path);
    ghost var drive: Word := Parsed(path).value.0;
    SameBlocks(live, root, parts);
    PathFree(k, root, drive, parts);
    ExtendShrink(live, PathPages(root, parts), FreePages(root, parts));
    EncodingUnique(k.Table(), table, live);
  }
}
