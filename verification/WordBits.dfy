/** The bits of a 32-bit word: read off its number by division, and by shifting. */
module WordBits {

  type Word = bv32

  function Pow2(i: nat): (p: nat)
    ensures p > 0
  {
    if i == 0 then 1 else 2 * Pow2(i - 1)
  }

  predicate DigitSet(n: nat, weight: nat)
    requires weight > 0
  {
    (n / weight) % 2 == 1
  }

  function NumberOf(x: Word): nat {
    x as nat
  }

  /** Bit i of the number that a word is. */
  predicate BitOf(x: Word, i: nat) {
    DigitSet(NumberOf(x), Pow2(i))
  }

  // ----- division and shift --------------------------------------------------

  predicate IsNumber(n: nat, x: Word) {
    n < 0x1_0000_0000 && n as Word == x
  }

  lemma WordOf(x: Word)
    ensures IsNumber(NumberOf(x), x)
  {
  }

  lemma Digit0(x: Word, n: nat)
    requires IsNumber(n, x)
    ensures DigitSet(n, 1) <==> x & 1 != 0
  {
    assert n / 1 == n;
  }

  lemma Digits1(x: Word, n: nat)
    requires IsNumber(n, x)
    ensures DigitSet(n, 0x2) <==> x & 0x2 != 0
    ensures DigitSet(n, 0x4) <==> x & 0x4 != 0
    ensures DigitSet(n, 0x8) <==> x & 0x8 != 0
  {
  }

  lemma Digits4(x: Word, n: nat)
    requires IsNumber(n, x)
    ensures DigitSet(n, 0x10) <==> x & 0x10 != 0
    ensures DigitSet(n, 0x20) <==> x & 0x20 != 0
    ensures DigitSet(n, 0x40) <==> x & 0x40 != 0
    ensures DigitSet(n, 0x80) <==> x & 0x80 != 0
  {
  }

  lemma Digits8(x: Word, n: nat)
    requires IsNumber(n, x)
    ensures DigitSet(n, 0x100) <==> x & 0x100 != 0
    ensures DigitSet(n, 0x200) <==> x & 0x200 != 0
    ensures DigitSet(n, 0x400) <==> x & 0x400 != 0
    ensures DigitSet(n, 0x800) <==> x & 0x800 != 0
  {
  }

  lemma Digits12(x: Word, n: nat)
    requires IsNumber(n, x)
    ensures DigitSet(n, 0x1000) <==> x & 0x1000 != 0
    ensures DigitSet(n, 0x2000) <==> x & 0x2000 != 0
    ensures DigitSet(n, 0x4000) <==> x & 0x4000 != 0
    ensures DigitSet(n, 0x8000) <==> x & 0x8000 != 0
  {
  }

  lemma Digits16(x: Word, n: nat)
    requires IsNumber(n, x)
    ensures DigitSet(n, 0x10000) <==> x & 0x10000 != 0
    ensures DigitSet(n, 0x20000) <==> x & 0x20000 != 0
    ensures DigitSet(n, 0x40000) <==> x & 0x40000 != 0
    ensures DigitSet(n, 0x80000) <==> x & 0x80000 != 0
  {
  }

  lemma Digits20(x: Word, n: nat)
    requires IsNumber(n, x)
    ensures DigitSet(n, 0x100000) <==> x & 0x100000 != 0
    ensures DigitSet(n, 0x200000) <==> x & 0x200000 != 0
    ensures DigitSet(n, 0x400000) <==> x & 0x400000 != 0
    ensures DigitSet(n, 0x800000) <==> x & 0x800000 != 0
  {
  }

  lemma Digits24(x: Word, n: nat)
    requires IsNumber(n, x)
    ensures DigitSet(n, 0x1000000) <==> x & 0x1000000 != 0
    ensures DigitSet(n, 0x2000000) <==> x & 0x2000000 != 0
    ensures DigitSet(n, 0x4000000) <==> x & 0x4000000 != 0
    ensures DigitSet(n, 0x8000000) <==> x & 0x8000000 != 0
  {
  }

  lemma Digits28(x: Word, n: nat)
    requires IsNumber(n, x)
    ensures DigitSet(n, 0x10000000) <==> x & 0x10000000 != 0
    ensures DigitSet(n, 0x20000000) <==> x & 0x20000000 != 0
    ensures DigitSet(n, 0x40000000) <==> x & 0x40000000 != 0
    ensures DigitSet(n, 0x80000000) <==> x & 0x80000000 != 0
  {
  }

  lemma Powers0()
    ensures Pow2(0) == 0x1 && Pow2(1) == 0x2 && Pow2(2) == 0x4 && Pow2(3) == 0x8
  {
  }

  lemma Powers4()
    ensures Pow2(4) == 0x10 && Pow2(5) == 0x20 && Pow2(6) == 0x40 && Pow2(7) == 0x80
  {
    Powers0();
  }

  lemma Powers8()
    ensures Pow2(8) == 0x100 && Pow2(9) == 0x200 && Pow2(10) == 0x400 && Pow2(11) == 0x800
  {
    Powers4();
  }

  lemma Powers12()
    ensures Pow2(12) == 0x1000 && Pow2(13) == 0x2000 && Pow2(14) == 0x4000 && Pow2(15) == 0x8000
  {
    Powers8();
  }

  lemma Powers16()
    ensures Pow2(16) == 0x10000 && Pow2(17) == 0x20000 && Pow2(18) == 0x40000 && Pow2(19) == 0x80000
  {
    Powers12();
  }

  lemma Powers20()
    ensures Pow2(20) == 0x100000 && Pow2(21) == 0x200000 && Pow2(22) == 0x400000 && Pow2(23) == 0x800000
  {
    Powers16();
  }

  lemma Powers24()
    ensures Pow2(24) == 0x1000000 && Pow2(25) == 0x2000000 && Pow2(26) == 0x4000000 && Pow2(27) == 0x8000000
  {
    Powers20();
  }

  lemma Powers28()
    ensures Pow2(28) == 0x10000000 && Pow2(29) == 0x20000000 && Pow2(30) == 0x40000000 && Pow2(31) == 0x80000000
  {
    Powers24();
  }

  lemma Bits0(x: Word)
    ensures BitOf(x, 0) <==> x & 0x1 != 0
    ensures BitOf(x, 1) <==> x & 0x2 != 0
    ensures BitOf(x, 2) <==> x & 0x4 != 0
    ensures BitOf(x, 3) <==> x & 0x8 != 0
  {
    Powers0();
    WordOf(x);
    hide DigitSet, Pow2, NumberOf, IsNumber;
    Digit0(x, NumberOf(x));
    Digits1(x, NumberOf(x));
  }

  lemma Bits4(x: Word)
    ensures BitOf(x, 4) <==> x & 0x10 != 0
    ensures BitOf(x, 5) <==> x & 0x20 != 0
    ensures BitOf(x, 6) <==> x & 0x40 != 0
    ensures BitOf(x, 7) <==> x & 0x80 != 0
  {
    Powers4();
    WordOf(x);
    hide DigitSet, Pow2, NumberOf, IsNumber;
    Digits4(x, NumberOf(x));
  }

  lemma Bits8(x: Word)
    ensures BitOf(x, 8) <==> x & 0x100 != 0
    ensures BitOf(x, 9) <==> x & 0x200 != 0
    ensures BitOf(x, 10) <==> x & 0x400 != 0
    ensures BitOf(x, 11) <==> x & 0x800 != 0
  {
    Powers8();
    WordOf(x);
    hide DigitSet, Pow2, NumberOf, IsNumber;
    Digits8(x, NumberOf(x));
  }

  lemma Bits12(x: Word)
    ensures BitOf(x, 12) <==> x & 0x1000 != 0
    ensures BitOf(x, 13) <==> x & 0x2000 != 0
    ensures BitOf(x, 14) <==> x & 0x4000 != 0
    ensures BitOf(x, 15) <==> x & 0x8000 != 0
  {
    Powers12();
    WordOf(x);
    hide DigitSet, Pow2, NumberOf, IsNumber;
    Digits12(x, NumberOf(x));
  }

  lemma Bits16(x: Word)
    ensures BitOf(x, 16) <==> x & 0x10000 != 0
    ensures BitOf(x, 17) <==> x & 0x20000 != 0
    ensures BitOf(x, 18) <==> x & 0x40000 != 0
    ensures BitOf(x, 19) <==> x & 0x80000 != 0
  {
    Powers16();
    WordOf(x);
    hide DigitSet, Pow2, NumberOf, IsNumber;
    Digits16(x, NumberOf(x));
  }

  lemma Bits20(x: Word)
    ensures BitOf(x, 20) <==> x & 0x100000 != 0
    ensures BitOf(x, 21) <==> x & 0x200000 != 0
    ensures BitOf(x, 22) <==> x & 0x400000 != 0
    ensures BitOf(x, 23) <==> x & 0x800000 != 0
  {
    Powers20();
    WordOf(x);
    hide DigitSet, Pow2, NumberOf, IsNumber;
    Digits20(x, NumberOf(x));
  }

  lemma Bits24(x: Word)
    ensures BitOf(x, 24) <==> x & 0x1000000 != 0
    ensures BitOf(x, 25) <==> x & 0x2000000 != 0
    ensures BitOf(x, 26) <==> x & 0x4000000 != 0
    ensures BitOf(x, 27) <==> x & 0x8000000 != 0
  {
    Powers24();
    WordOf(x);
    hide DigitSet, Pow2, NumberOf, IsNumber;
    Digits24(x, NumberOf(x));
  }

  lemma Bits28(x: Word)
    ensures BitOf(x, 28) <==> x & 0x10000000 != 0
    ensures BitOf(x, 29) <==> x & 0x20000000 != 0
    ensures BitOf(x, 30) <==> x & 0x40000000 != 0
    ensures BitOf(x, 31) <==> x & 0x80000000 != 0
  {
    Powers28();
    WordOf(x);
    hide DigitSet, Pow2, NumberOf, IsNumber;
    Digits28(x, NumberOf(x));
  }

  lemma Shift0(x: Word, y: Word, i: nat)
    requires y == x >> 1 && 0 <= i < 4
    ensures BitOf(y, i) <==> i < 31 && BitOf(x, i + 1)
  {
    hide BitOf;
    Bits0(x);
    Bits0(y);
    Bits4(x);
  }

  lemma Shift4(x: Word, y: Word, i: nat)
    requires y == x >> 1 && 4 <= i < 8
    ensures BitOf(y, i) <==> i < 31 && BitOf(x, i + 1)
  {
    hide BitOf;
    Bits4(x);
    Bits4(y);
    Bits8(x);
  }

  lemma Shift8(x: Word, y: Word, i: nat)
    requires y == x >> 1 && 8 <= i < 12
    ensures BitOf(y, i) <==> i < 31 && BitOf(x, i + 1)
  {
    hide BitOf;
    Bits8(x);
    Bits8(y);
    Bits12(x);
  }

  lemma Shift12(x: Word, y: Word, i: nat)
    requires y == x >> 1 && 12 <= i < 16
    ensures BitOf(y, i) <==> i < 31 && BitOf(x, i + 1)
  {
    hide BitOf;
    Bits12(x);
    Bits12(y);
    Bits16(x);
  }

  lemma Shift16(x: Word, y: Word, i: nat)
    requires y == x >> 1 && 16 <= i < 20
    ensures BitOf(y, i) <==> i < 31 && BitOf(x, i + 1)
  {
    hide BitOf;
    Bits16(x);
    Bits16(y);
    Bits20(x);
  }

  lemma Shift20(x: Word, y: Word, i: nat)
    requires y == x >> 1 && 20 <= i < 24
    ensures BitOf(y, i) <==> i < 31 && BitOf(x, i + 1)
  {
    hide BitOf;
    Bits20(x);
    Bits20(y);
    Bits24(x);
  }

  lemma Shift24(x: Word, y: Word, i: nat)
    requires y == x >> 1 && 24 <= i < 28
    ensures BitOf(y, i) <==> i < 31 && BitOf(x, i + 1)
  {
    hide BitOf;
    Bits24(x);
    Bits24(y);
    Bits28(x);
  }

  lemma Shift28(x: Word, y: Word, i: nat)
    requires y == x >> 1 && 28 <= i < 32
    ensures BitOf(y, i) <==> i < 31 && BitOf(x, i + 1)
  {
    hide BitOf;
    Bits28(x);
    Bits28(y);
  }

  /** Shifting by one place moves every bit one place down. */
  lemma ShiftBits(x: Word, y: Word, i: nat)
    requires y == x >> 1 && i < 32
    ensures BitOf(y, i) <==> i < 31 && BitOf(x, i + 1)
  {
    hide BitOf;
    if i < 4 {
      Shift0(x, y, i);
    } else if i < 8 {
      Shift4(x, y, i);
    } else if i < 12 {
      Shift8(x, y, i);
    } else if i < 16 {
      Shift12(x, y, i);
    } else if i < 20 {
      Shift16(x, y, i);
    } else if i < 24 {
      Shift20(x, y, i);
    } else if i < 28 {
      Shift24(x, y, i);
    } else {
      Shift28(x, y, i);
    }
  }

  function Half(x: Word): Word {
    x >> 1
  }

  predicate Low(x: Word) {
    x & 1 != 0
  }

  /** The same bit, read off by shifting. */
  predicate Bit(x: Word, i: nat)
    decreases i
  {
    if i == 0 then Low(x) else Bit(Half(x), i - 1)
  }

  lemma LowIs(x: Word)
    ensures BitOf(x, 0) <==> Low(x)
  {
    hide BitOf;
    Bits0(x);
  }

  lemma {:induction false} BitIs(x: Word, i: nat)
    requires i < 32
    ensures BitOf(x, i) <==> Bit(x, i)
    decreases i
  {
    hide BitOf, Half, Low;
    if i == 0 {
      LowIs(x);
    } else {
      HalfBits(x, i - 1);
      BitIs(Half(x), i - 1);
    }
  }

  lemma HalfBits(x: Word, i: nat)
    requires i < 32
    ensures BitOf(Half(x), i) <==> i < 31 && BitOf(x, i + 1)
  {
    hide BitOf;
    ShiftBits(x, Half(x), i);
  }
}
