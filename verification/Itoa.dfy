/** itoa of `programs/stdlib/src/stdlib.c`: signed decimal printing into a 12-byte buffer. */
module Itoa {
  import opened Words

  const TEXT_SIZE: int := 12

  predicate Int32(x: int) {
    -0x8000_0000 <= x < 0x8000_0000
  }

  function DigitChar(d: nat): (c: char)
    requires d < 10
  {
    '0' + d as char
  }

  lemma DigitCharIs(d: nat)
    requires d < 10
    ensures DigitChar(d) == "0123456789"[d]
  {
  }

  predicate IsDigit(c: char) {
    '0' <= c <= '9'
  }

  function DigitValue(c: char): nat
    requires IsDigit(c)
  {
    (c - '0') as nat
  }

  predicate AllDigits(s: string) {
    forall i :: 0 <= i < |s| ==> IsDigit(s[i])
  }

  /** The decimal digits of a positive number, and no digits for 0. */
  function Digits(n: nat): (s: string)
    ensures n > 0 ==> s != [] && s[0] != '0'
    ensures AllDigits(s)
  {
    if n == 0 then [] else Digits(n / 10) + [DigitChar(n % 10)]
  }

  /** The standard decimal text of an integer. */
  function Decimal(x: int): string {
    if x == 0 then "0" else if x > 0 then Digits(x) else "-" + Digits(-x)
  }

  /** Reading a digit string, the inverse reference. */
  function ReadDigits(s: string): nat
    requires AllDigits(s)
  {
    if s == [] then 0 else 10 * ReadDigits(s[..|s| - 1]) + DigitValue(s[|s| - 1])
  }

  /** The text after an optional minus sign. */
  function Unsigned(s: string): string {
    if s != [] && s[0] == '-' then s[1..] else s
  }

  predicate Readable(s: string) {
    Unsigned(s) != [] && AllDigits(Unsigned(s))
  }

  function Read(s: string): int
    requires Readable(s)
  {
    var d: int := ReadDigits(Unsigned(s));
    if s[0] == '-' then -d else d
  }

  lemma {:induction false} DigitsRead(n: nat)
    ensures ReadDigits(Digits(n)) == n
  {
    if n > 0 {
      DigitsRead(n / 10);
      var s := Digits(n);
      assert s[..|s| - 1] == Digits(n / 10);
    }
  }

  /** The decimal text reads back as the number and has no leading zero. */
  lemma DecimalRead(x: int)
    ensures Readable(Decimal(x)) && Read(Decimal(x)) == x
    ensures x != 0 ==> Unsigned(Decimal(x))[0] != '0'
    ensures x == 0 ==> Decimal(x) == "0"
  {
    if x == 0 {
      assert Unsigned("0") == "0" && ReadDigits("0"[..0]) == 0;
    } else if x > 0 {
      DigitsRead(x);
      assert IsDigit(Digits(x)[0]);
      assert Unsigned(Decimal(x)) == Digits(x);
    } else {
      DigitsRead(-x);
      assert Unsigned(Decimal(x)) == Digits(-x);
    }
  }

  /** A number has at most `k` digits exactly when it is below 10^k. */
  function Power10(k: nat): (p: nat)
    ensures p >= 1
  {
    if k == 0 then 1 else 10 * Power10(k - 1)
  }

  lemma {:induction false} DigitsLength(n: nat, k: nat)
    ensures |Digits(n)| <= k <==> n < Power10(k)
    decreases k
  {
    if n > 0 && k > 0 {
      DigitsLength(n / 10, k - 1);
    }
  }

  lemma Power10Values()
    ensures Power10(9) == 1_000_000_000 && Power10(10) == 10_000_000_000
  {
    assert Power10(3) == 1000;
    assert Power10(6) == 1_000_000;
  }

  /** The digit loop of itoa, on a negated value with truncating `%` and `/`; it neither
      overflows nor runs off the front of the buffer. */
  method PrintNegated(text: array<char>, negated: int) returns (at: nat)
    requires text.Length == TEXT_SIZE && text[11] == '\0'
    requires Int32(negated) && negated <= 0
    modifies text
    ensures text[11] == '\0' && at <= 11
    ensures text[at..11] == Digits(-negated)
  {
    at := 11;
    var v := negated;
    ghost var n := -negated;
    Power10Values();
    DigitsLength(n, 10);
    while v != 0
      invariant negated <= v <= 0 && 1 <= at <= 11 && text[11] == '\0'
      invariant Digits(n) == Digits(-v) + text[at..11]
      decreases -v
    {
      TruncatedDigit(v);
      DigitStep(v, text[at..11]);
      at := at - 1;
      ghost var tail := text[at + 1..11];
      text[at] := DigitChar(-TruncMod(v, 10));
      assert text[at..11] == [text[at]] + tail;
      v := TruncDiv(v, 10);
    }
  }

  /** itoa.  Because the digits are taken from the negated value, the least integer needs no
      special case; only ten-digit negative numbers use the first byte of the buffer. */
  method Itoa(val: int) returns (text: array<char>, loc: nat)
    requires Int32(val)
    ensures fresh(text) && text.Length == TEXT_SIZE && loc < 11 && text[11] == '\0'
    ensures text[loc..11] == Decimal(val)
    ensures loc == 0 <==> val <= -1_000_000_000
  {
    text := new char[TEXT_SIZE](_ => '\0');
    text[11] := '\0';
    var neg := 1;
    var v := val;
    if v >= 0 {
      neg := 0;
      v := -v;
    }
    DecimalLength(val);
    loc := PrintNegated(text, v);
    ghost var digits := text[loc..11];
    if loc == 11 {
      loc := loc - 1;
      text[loc] := '0';
      assert text[loc..11] == ['0'] + digits;
    }
    if neg != 0 {
      loc := loc - 1;
      text[loc] := '-';
      assert text[loc..11] == ['-'] + digits;
    }
    assert text[loc..11] == Decimal(val);
  }

  /** The text of a 32-bit integer has at most eleven characters. */
  lemma DecimalLength(val: int)
    requires Int32(val)
    ensures 1 <= |Decimal(val)| <= 11
    ensures |Decimal(val)| == 11 <==> val <= -1_000_000_000
    ensures Digits(0) == [] && (val != 0 ==> Digits(if val < 0 then -val else val) != [])
  {
    var n := if val < 0 then -val else val;
    Power10Values();
    DigitsLength(n, 10);
    DigitsLength(n, 9);
  }

  lemma DigitStep(v: int, tail: string)
    requires v < 0 && 0 <= -TruncMod(v, 10) < 10 && -TruncMod(v, 10) == -v % 10 && TruncDiv(v, 10) == -(-v / 10)
    ensures Digits(-v) + tail == Digits(-TruncDiv(v, 10)) + ([DigitChar(-TruncMod(v, 10))] + tail)
  {
    assert Digits(-v) == Digits(-v / 10) + [DigitChar(-v % 10)];
  }

  /** One digit of a non-positive number under C's division. */
  lemma TruncatedDigit(v: int)
    requires v < 0
    ensures 0 <= -TruncMod(v, 10) < 10 && -TruncMod(v, 10) == -v % 10
    ensures TruncDiv(v, 10) == -(-v / 10) && v < TruncDiv(v, 10) <= 0
    ensures |Digits(-v)| >= 1
  {
  }
}
