/** Physical memory: 2^30 words of 32 bits, with little-endian byte access. */
module Ram {
  import opened Words

  const RAM_WORDS: int := 0x4000_0000

  type Byte = x: int | 0 <= x < 256

  type Memory = m: seq<Word> | |m| == RAM_WORDS ghost witness seq(RAM_WORDS, _ => 0)

  /** The word at an address; the code only reads words at multiples of 4. */
  function Load(m: Memory, p: Word): Word {
    m[p / 4]
  }

  function Store(m: Memory, p: Word, w: Word): Memory {
    m[p / 4 := w]
  }

  // ---------------------------------------------------------------- bytes

  function ByteOf(w: Word, k: nat): Byte
    requires k < 4
  {
    if k == 0 then w % 0x100
    else if k == 1 then w / 0x100 % 0x100
    else if k == 2 then w / 0x1_0000 % 0x100
    else w / 0x100_0000
  }

  function FromBytes(b0: Byte, b1: Byte, b2: Byte, b3: Byte): Word {
    b0 + 0x100 * b1 + 0x1_0000 * b2 + 0x100_0000 * b3
  }

  function SetByte(w: Word, k: nat, b: Byte): Word
    requires k < 4
  {
    FromBytes(if k == 0 then b else ByteOf(w, 0), if k == 1 then b else ByteOf(w, 1),
              if k == 2 then b else ByteOf(w, 2), if k == 3 then b else ByteOf(w, 3))
  }

  lemma BytesOfFromBytes(b0: Byte, b1: Byte, b2: Byte, b3: Byte)
    ensures var w := FromBytes(b0, b1, b2, b3);
            ByteOf(w, 0) == b0 && ByteOf(w, 1) == b1 && ByteOf(w, 2) == b2 && ByteOf(w, 3) == b3
  {
    var w := FromBytes(b0, b1, b2, b3);
    assert w / 0x100 == b1 + 0x100 * b2 + 0x1_0000 * b3;
    assert w / 0x1_0000 == b2 + 0x100 * b3;
  }

  lemma SetByteBytes(w: Word, k: nat, b: Byte, j: nat)
    requires k < 4 && j < 4
    ensures ByteOf(SetByte(w, k, b), j) == if j == k then b else ByteOf(w, j)
  {
    BytesOfFromBytes(if k == 0 then b else ByteOf(w, 0), if k == 1 then b else ByteOf(w, 1),
                     if k == 2 then b else ByteOf(w, 2), if k == 3 then b else ByteOf(w, 3));
  }

  lemma WordIsItsBytes(w: Word)
    ensures FromBytes(ByteOf(w, 0), ByteOf(w, 1), ByteOf(w, 2), ByteOf(w, 3)) == w
  {
    assert w / 0x1_0000 == w / 0x100 / 0x100;
    assert w / 0x100_0000 == w / 0x1_0000 / 0x100;
  }

  /** A word is determined by its bytes. */
  lemma BytesDetermine(v: Word, w: Word)
    requires ByteOf(v, 0) == ByteOf(w, 0) && ByteOf(v, 1) == ByteOf(w, 1)
    requires ByteOf(v, 2) == ByteOf(w, 2) && ByteOf(v, 3) == ByteOf(w, 3)
    ensures v == w
  {
    WordIsItsBytes(v);
    WordIsItsBytes(w);
  }

  function ByteAt(m: Memory, a: Word): Byte {
    ByteOf(m[a / 4], a % 4)
  }

  /** The four bytes of a word, the least significant one at the lowest address. */
  lemma LittleEndian(m: Memory, i: nat)
    requires i < RAM_WORDS
    ensures m[i] == ByteAt(m, 4 * i) + 0x100 * ByteAt(m, 4 * i + 1)
                    + 0x1_0000 * ByteAt(m, 4 * i + 2) + 0x100_0000 * ByteAt(m, 4 * i + 3)
  {
    WordIsItsBytes(m[i]);
  }

  function StoreByte(m: Memory, a: Word, b: Byte): Memory {
    m[a / 4 := SetByte(m[a / 4], a % 4, b)]
  }

  lemma StoreByteAt(m: Memory, a: Word, b: Byte, x: Word)
    ensures ByteAt(StoreByte(m, a, b), x) == if x == a then b else ByteAt(m, x)
  {
    SetByteBytes(m[a / 4], a % 4, b, x % 4);
  }

  /** Byte `k` of the word with index `i`. */
  function ByteAddress(i: nat, k: nat): (a: Word)
    requires i < RAM_WORDS && k < 4
    ensures a / 4 == i && a % 4 == k
  {
    4 * i + k
  }

  // ---------------------------------------------------------------- memset

  /** The effect of memset(p, c, size): exactly the `size` bytes from `p` on become `c`. */
  ghost predicate Filled(m: Memory, n: Memory, p: Word, c: Byte, size: Word) {
    forall a: Word :: ByteAt(n, a) == if ToWord(a - p) < size then c else ByteAt(m, a)
  }

  method Memset(ram: array<Word>, p: Word, c: Byte, size: Word)
    requires ram.Length == RAM_WORDS
    modifies ram
    ensures Filled(old(ram[..]), ram[..], p, c, size)
  {
    var i := 0;
    while i < size
      invariant 0 <= i <= size
      invariant Filled(old(ram[..]), ram[..], p, c, i)
    {
      ghost var before: Memory := ram[..];
      var a := ToWord(p + i);
      ram[a / 4] := SetByte(ram[a / 4], a % 4, c);
      assert ram[..] == StoreByte(before, a, c);
      FillStep(old(ram[..]), before, p, c, i);
      i := i + 1;
    }
  }

  lemma FillStep(m: Memory, n: Memory, p: Word, c: Byte, i: nat)
    requires i < WORD_LIMIT - 1 && Filled(m, n, p, c, i)
    ensures Filled(m, StoreByte(n, ToWord(p + i), c), p, c, i + 1)
  {
    var at := ToWord(p + i);
    forall a: Word
      ensures ByteAt(StoreByte(n, at, c), a) == if ToWord(a - p) < i + 1 then c else ByteAt(m, a)
    {
      StoreByteAt(n, at, c, a);
      OffsetIs(p, a, i);
    }
  }

  lemma OffsetIs(p: Word, a: Word, i: Word)
    ensures a == ToWord(p + i) <==> ToWord(a - p) == i
  {
  }

  /** Word view of a fill that starts at a word boundary. */
  lemma FilledWords(m: Memory, n: Memory, p: Word, size: Word)
    requires Filled(m, n, p, 0, size) && p % 4 == 0 && p + size <= WORD_LIMIT
    ensures forall i: nat :: i < RAM_WORDS && !(p / 4 <= i < p / 4 + (size + 3) / 4) ==> n[i] == m[i]
    ensures forall i: nat :: p / 4 <= i < p / 4 + size / 4 ==> n[i] == 0
  {
    forall i: nat | i < RAM_WORDS && !(p / 4 <= i < p / 4 + (size + 3) / 4)
      ensures n[i] == m[i]
    {
      FilledAt(m, n, p, 0, size, i);
      BytesDetermine(n[i], m[i]);
    }
    forall i: nat | p / 4 <= i < p / 4 + size / 4
      ensures n[i] == 0
    {
      FilledAt(m, n, p, 0, size, i);
      BytesDetermine(n[i], 0);
    }
  }

  lemma FilledAt(m: Memory, n: Memory, p: Word, c: Byte, size: Word, i: nat)
    requires Filled(m, n, p, c, size) && i < RAM_WORDS
    ensures forall k :: 0 <= k < 4 ==>
              ByteOf(n[i], k) == if ToWord(4 * i + k - p) < size then c else ByteOf(m[i], k)
  {
    forall k | 0 <= k < 4
      ensures ByteOf(n[i], k) == if ToWord(4 * i + k - p) < size then c else ByteOf(m[i], k)
    {
      var a := ByteAddress(i, k);
      assert ByteAt(n, a) == if ToWord(a - p) < size then c else ByteAt(m, a);
    }
  }

  // ---------------------------------------------------------------- byte ranges

  /** Byte `i` after a physical address. */
  function Nth(m: Memory, p: Word, i: nat): Byte {
    ByteAt(m, ToWord(p + i))
  }

  /** Only the `len` bytes from `p` on may differ. */
  ghost predicate OnlyBytes(m: Memory, n: Memory, p: Word, len: nat) {
    forall a: Word :: ToWord(a - p) >= len ==> ByteAt(n, a) == ByteAt(m, a)
  }

  lemma StoreNth(m: Memory, p: Word, i: nat, b: Byte, j: nat)
    requires i < WORD_LIMIT && j < WORD_LIMIT
    ensures Nth(StoreByte(m, ToWord(p + i), b), p, j) == if j == i then b else Nth(m, p, j)
  {
    StoreByteAt(m, ToWord(p + i), b, ToWord(p + j));
    OffsetIs(p, ToWord(p + j), i);
    OffsetIs(p, ToWord(p + j), j);
  }

  lemma StoreOnlyBytes(m: Memory, n: Memory, p: Word, i: nat, b: Byte, len: nat)
    requires OnlyBytes(m, n, p, len) && i < len < WORD_LIMIT
    ensures OnlyBytes(m, StoreByte(n, ToWord(p + i), b), p, len)
  {
    forall a: Word | ToWord(a - p) >= len
      ensures ByteAt(StoreByte(n, ToWord(p + i), b), a) == ByteAt(m, a)
    {
      StoreByteAt(n, ToWord(p + i), b, a);
      OffsetIs(p, a, i);
    }
  }
}
