/** 32-bit machine integers as the kernel's C code uses them.

    A `Word` is a `uint32_t`, a `size_t` or a pointer.  Wrap-around, signed reads and the
    bitwise operators are written out on mathematical integers, so no precondition is
    needed to keep an operation inside 32 bits. */
module Words {
  const WORD_LIMIT: int := 0x1_0000_0000

  const PAGE_SIZE: int := 4096

  type Word = x: int | 0 <= x < WORD_LIMIT

  /** The low 32 bits of `x`. */
  function ToWord(x: int): Word {
    x % WORD_LIMIT
  }

  /** The signed 32-bit value with the bits of `x` (a cast to `int`). */
  function ToInt32(x: int): (r: int)
    ensures -0x8000_0000 <= r < 0x8000_0000
  {
    var w := x % WORD_LIMIT;
    if w < 0x8000_0000 then w else w - WORD_LIMIT
  }

  lemma SameWord(a: int, b: int, t: int)
    requires a == b + t * WORD_LIMIT
    ensures ToWord(a) == ToWord(b)
  {
  }

  lemma WordSum(a: int, b: int)
    ensures ToWord(ToWord(a) + b) == ToWord(a + b)
  {
    var t := a / WORD_LIMIT;
    assert a == ToWord(a) + t * WORD_LIMIT;
    SameWord(a + b, ToWord(a) + b, t);
  }

  /** The wrapped difference of two integers is that of their words. */
  lemma WordDifference(q: int, p: int)
    ensures ToWord(ToWord(q) - ToWord(p)) == ToWord(q - p)
  {
    var s, t := q / WORD_LIMIT, p / WORD_LIMIT;
    assert q == ToWord(q) + s * WORD_LIMIT && p == ToWord(p) + t * WORD_LIMIT;
    SameWord(q - p, ToWord(q) - ToWord(p), s - t);
  }

  /** C division: the quotient is truncated toward zero. */
  function TruncDiv(a: int, b: int): int
    requires b > 0
  {
    if a >= 0 then a / b else -((-a) / b)
  }

  /** C remainder: it has the sign of the dividend. */
  function TruncMod(a: int, b: int): int
    requires b > 0
  {
    a - TruncDiv(a, b) * b
  }

  predicate Aligned(p: int) {
    p % PAGE_SIZE == 0
  }

  // ---------------------------------------------------------------- bitwise operators

  function Or(a: nat, b: nat): nat {
    if a == 0 then b
    else if b == 0 then a
    else 2 * Or(a / 2, b / 2) + (if a % 2 == 1 || b % 2 == 1 then 1 else 0)
  }

  function And(a: nat, b: nat): nat {
    if a == 0 || b == 0 then 0
    else 2 * And(a / 2, b / 2) + (if a % 2 == 1 && b % 2 == 1 then 1 else 0)
  }

  /** `x << k`, without a width. */
  function Shl(x: nat, k: nat): nat {
    if k == 0 then x else 2 * Shl(x, k - 1)
  }

  /** Or-ing bits below the low end of a shifted value is addition. */
  lemma {:induction false} OrShifted(hi: nat, lo: nat, k: nat)
    requires lo < Shl(1, k)
    ensures Or(Shl(hi, k), lo) == Shl(hi, k) + lo
  {
    if k != 0 {
      OrShifted(hi, lo / 2, k - 1);
    }
  }

  /** Masking by a shifted value drops the low bits and masks the rest. */
  lemma {:induction false} AndShifted(hi: nat, lo: nat, m: nat, k: nat)
    requires lo < Shl(1, k)
    ensures And(Shl(hi, k) + lo, Shl(m, k)) == Shl(And(hi, m), k)
  {
    if k != 0 {
      AndShifted(hi, lo / 2, m, k - 1);
      ShlZero(k);
    }
  }

  lemma {:induction false} ShlZero(k: nat)
    ensures Shl(0, k) == 0
  {
    if k != 0 {
      ShlZero(k - 1);
    }
  }

  lemma {:induction false} AndOnes(x: nat, k: nat)
    requires x < Shl(1, k)
    ensures And(x, Shl(1, k) - 1) == x
  {
    if k != 0 && x != 0 {
      AndOnes(x / 2, k - 1);
    }
  }

  lemma ShlPage(x: nat)
    ensures Shl(x, 12) == 4096 * x
  {
    assert Shl(x, 1) == 2 * x;
    assert Shl(x, 2) == 4 * x;
    assert Shl(x, 4) == 16 * x;
    assert Shl(x, 6) == 64 * x;
    assert Shl(x, 8) == 256 * x;
    assert Shl(x, 10) == 1024 * x;
  }

  /** The frame address in a paging entry: the code writes `entry & 0xfffff000`. */
  function Frame(entry: Word): Word {
    entry - entry % PAGE_SIZE
  }

  lemma FrameIsMask(entry: Word)
    ensures And(entry, 0xffff_f000) == Frame(entry)
  {
    ShlPage(1);
    assert Shl(1, 14) == 0x4000;
    assert Shl(1, 16) == 0x1_0000;
    assert Shl(1, 18) == 0x4_0000;
    ShlPage(0xf_ffff);
    ShlPage(entry / 4096);
    AndShifted(entry / 4096, entry % 4096, 0xf_ffff, 12);
    AndOnes(entry / 4096, 20);
    ShlPage(And(entry / 4096, 0xf_ffff));
  }

  /** The low twelve bits of a paging entry. */
  type Flags = f: int | 0 <= f < 4096

  /** An aligned address beside flag bits: the code writes `address | flags`. */
  function Tagged(p: Word, flags: Flags): (e: Word)
    requires Aligned(p)
    ensures Frame(e) == p && e % PAGE_SIZE == flags
  {
    p + flags
  }

  lemma TaggedIsOr(p: Word, flags: Flags)
    requires Aligned(p)
    ensures Or(p, flags) == Tagged(p, flags)
  {
    ShlPage(1);
    ShlPage(p / 4096);
    OrShifted(p / 4096, flags, 12);
  }

  /** `flags | 2`, setting the writable bit. */
  function WithBitOne(flags: Flags): Flags {
    if flags / 2 % 2 == 1 then flags else flags + 2
  }

  lemma WithBitOneIsOr(flags: Flags)
    ensures Or(flags, 2) == WithBitOne(flags)
  {
    OrTwo(flags);
  }

  /** Setting bit 1 of any word. */
  lemma OrTwo(w: nat)
    ensures Or(w, 2) == if w / 2 % 2 == 1 then w else w + 2
  {
    assert Or(w / 4, 0) == w / 4;
    assert Or(w / 2, 1) == 2 * (w / 4) + 1;
  }

  /** A directory word: the code writes `address | flags | 2`. */
  lemma TaggedWithBitOne(p: Word, flags: Flags)
    requires Aligned(p)
    ensures Or(Or(p, flags), 2) == Tagged(p, WithBitOne(flags))
  {
    TaggedIsOr(p, flags);
    OrTwo(p + flags);
    LowBits(p / 4096, flags);
  }

  lemma HalfOfSum(x: nat, f: nat)
    ensures (2 * x + f) / 2 == x + f / 2 && (2 * x + f) % 2 == f % 2
  {
  }

  lemma QuarterIsHalfTwice(x: nat)
    ensures x / 4 == x / 2 / 2
  {
  }

  /** The low bits of an entry are those of its flags. */
  lemma LowBits(page: nat, flags: Flags)
    ensures (4096 * page + flags) % 2 == flags % 2
    ensures (4096 * page + flags) / 2 % 2 == flags / 2 % 2
    ensures (4096 * page + flags) / 4 % 2 == flags / 4 % 2
  {
    HalfOfSum(2048 * page, flags);
    HalfOfSum(1024 * page, flags / 2);
    HalfOfSum(512 * page, flags / 2 / 2);
    QuarterIsHalfTwice(4096 * page + flags);
    QuarterIsHalfTwice(flags);
  }

  lemma AndOne(w: nat)
    ensures And(w, 1) == w % 2
  {
    assert And(w / 2, 0) == 0;
  }

  lemma AndFour(w: nat)
    ensures And(w, 4) == 4 * (w / 4 % 2)
  {
    AndTwo(w / 2);
    assert And(w / 2, 2) == 2 * (w / 4 % 2);
  }

  lemma AndTwo(w: nat)
    ensures And(w, 2) == 2 * (w / 2 % 2)
  {
    assert And(w / 4, 0) == 0;
    assert And(w / 2, 1) == w / 2 % 2;
  }
}
