/** What the word functions of section 4.1.2 of FIPS 180-4 do to single bits. */
module Sha256Words {
  import opened Sha256
  import opened WordBits

  // ----- bitwise functions ---------------------------------------------------

  /** An odd number of the three. */
  predicate Odd(a: bool, b: bool, c: bool) {
    (a != b) != c
  }

  function Xor(a: Sha256.Word, b: Sha256.Word, c: Sha256.Word): Sha256.Word {
    a ^ b ^ c
  }

  function Or(a: Sha256.Word, b: Sha256.Word): Sha256.Word {
    a | b
  }

  lemma XorParts(a: Sha256.Word, b: Sha256.Word, c: Sha256.Word)
    ensures Half(Xor(a, b, c)) == Xor(Half(a), Half(b), Half(c))
    ensures Low(Xor(a, b, c)) == Odd(Low(a), Low(b), Low(c))
  {
  }

  lemma ChParts(x: Sha256.Word, y: Sha256.Word, z: Sha256.Word)
    ensures Half(Ch(x, y, z)) == Ch(Half(x), Half(y), Half(z))
    ensures Low(Ch(x, y, z)) == if Low(x) then Low(y) else Low(z)
  {
  }

  /** True in at least two places. */
  predicate Two(a: bool, b: bool, c: bool) {
    (a && b) || (a && c) || (b && c)
  }

  lemma MajParts(x: Sha256.Word, y: Sha256.Word, z: Sha256.Word)
    ensures Half(Maj(x, y, z)) == Maj(Half(x), Half(y), Half(z))
    ensures Low(Maj(x, y, z)) == Two(Low(x), Low(y), Low(z))
  {
  }

  lemma OrParts(x: Sha256.Word, y: Sha256.Word)
    ensures Half(Or(x, y)) == Or(Half(x), Half(y))
    ensures Low(Or(x, y)) == (Low(x) || Low(y))
  {
  }

  lemma {:induction false} XorBit(a: Sha256.Word, b: Sha256.Word, c: Sha256.Word, i: nat)
    ensures Bit(Xor(a, b, c), i) == Odd(Bit(a, i), Bit(b, i), Bit(c, i))
    decreases i
  {
    XorParts(a, b, c);
    hide Xor, Half, Low, Odd;
    if i > 0 {
      XorBit(Half(a), Half(b), Half(c), i - 1);
    }
  }

  lemma {:induction false} ChBit(x: Sha256.Word, y: Sha256.Word, z: Sha256.Word, i: nat)
    ensures Bit(Ch(x, y, z), i) == if Bit(x, i) then Bit(y, i) else Bit(z, i)
    decreases i
  {
    ChParts(x, y, z);
    hide Ch, Half, Low;
    if i > 0 {
      ChBit(Half(x), Half(y), Half(z), i - 1);
    }
  }

  lemma {:induction false} MajBit(x: Sha256.Word, y: Sha256.Word, z: Sha256.Word, i: nat)
    ensures Bit(Maj(x, y, z), i) == Two(Bit(x, i), Bit(y, i), Bit(z, i))
    decreases i
  {
    MajParts(x, y, z);
    hide Maj, Half, Low, Two;
    if i > 0 {
      MajBit(Half(x), Half(y), Half(z), i - 1);
    }
  }

  lemma {:induction false} OrBit(x: Sha256.Word, y: Sha256.Word, i: nat)
    ensures Bit(Or(x, y), i) <==> Bit(x, i) || Bit(y, i)
    decreases i
  {
    OrParts(x, y);
    hide Or, Half, Low;
    if i > 0 {
      OrBit(Half(x), Half(y), i - 1);
    }
  }

  // ----- rotations and shifts ------------------------------------------------

  function Ror1(x: Sha256.Word): Sha256.Word {
    Or(Half(x), x << 31)
  }

  /** Shift and rotation to the right by n places. */
  function Shr(x: Sha256.Word, n: nat): Sha256.Word
    decreases n
  {
    if n == 0 then x else Half(Shr(x, n - 1))
  }

  function Ror(x: Sha256.Word, n: nat): Sha256.Word
    decreases n
  {
    if n == 0 then x else Ror1(Ror(x, n - 1))
  }

  lemma {:induction false} ShrBit(x: Sha256.Word, n: nat, i: nat)
    ensures Bit(Shr(x, n), i) == Bit(x, i + n)
    decreases n
  {
    hide Half, Low;
    if n > 0 {
      ShrBit(x, n - 1, i + 1);
    }
  }

  lemma {:induction false} ZeroBit(i: nat)
    ensures !Bit(0, i)
    decreases i
  {
    assert Half(0) == 0 && !Low(0);
    hide Half, Low;
    if i > 0 {
      ZeroBit(i - 1);
    }
  }

  lemma Shr8(x: Sha256.Word, y: Sha256.Word)
    requires y == x >> 8
    ensures y == Shr(x, 8)
  {
    assert Shr(x, 1) == x >> 1;
    assert Shr(x, 2) == x >> 2;
    assert Shr(x, 3) == x >> 3;
    assert Shr(x, 4) == x >> 4;
    assert Shr(x, 5) == x >> 5;
    assert Shr(x, 6) == x >> 6;
    assert Shr(x, 7) == x >> 7;
  }

  lemma {:induction false} ShrSum(x: Sha256.Word, y: Sha256.Word, m: nat, n: nat)
    requires y == Shr(x, m)
    ensures Shr(x, m + n) == Shr(y, n)
    decreases n
  {
    hide Half;
    if n > 0 {
      ShrSum(x, y, m, n - 1);
    }
  }

  lemma Shifts(x: Sha256.Word, a: Sha256.Word, b: Sha256.Word, c: Sha256.Word)
    requires a == x >> 8 && b == x >> 16 && c == x >> 24
    ensures a >> 8 == b && b >> 8 == c && c >> 8 == 0
  {
  }

  lemma ShrAll(x: Sha256.Word, a: Sha256.Word, b: Sha256.Word, c: Sha256.Word)
    requires a == x >> 8 && b == x >> 16 && c == x >> 24
    ensures Shr(x, 32) == 0
  {
    hide Half, Shr;
    Shifts(x, a, b, c);
    Shr8(x, a);
    Shr8(a, b);
    Shr8(b, c);
    Shr8(c, 0);
    ShrSum(x, a, 8, 8);
    ShrSum(x, b, 16, 8);
    ShrSum(x, c, 24, 8);
  }

  /** A word has no bit past the 31st. */
  lemma NoBit(x: Sha256.Word, i: nat)
    requires 32 <= i
    ensures !Bit(x, i)
  {
    ShrAll(x, x >> 8, x >> 16, x >> 24);
    ShrBit(x, 32, i - 32);
    ZeroBit(i - 32);
  }

  /** The lowest bit, moved to the top. */
  lemma TopBit(x: Sha256.Word, i: nat)
    requires i < 32
    ensures Bit(x << 31, i) <==> i == 31 && Low(x)
  {
    LowShifted(x, x << 31);
    hide Low, Half, Shr;
    if Low(x) {
      OneAtTop(i);
    } else {
      ZeroBit(i);
    }
  }

  lemma LowShifted(x: Sha256.Word, y: Sha256.Word)
    requires y == x << 31
    ensures y == if Low(x) then 0x80000000 else 0
  {
  }

  lemma OneAtTop(i: nat)
    requires i < 32
    ensures Bit(0x80000000, i) <==> i == 31
  {
    BitIs(0x80000000, i);
    TopNumber();
    if i < 31 {
      PowerSplits(30 - i, i);
      Quotient(2 * Pow2(30 - i), Pow2(i));
    } else {
      Quotient(1, Pow2(31));
    }
    hide Bit, Pow2, NumberOf;
  }

  lemma TopNumber()
    ensures NumberOf(0x80000000) == Pow2(31)
  {
    Powers28();
    hide Pow2;
  }

  lemma {:induction false} PowerSplits(m: nat, i: nat)
    ensures 2 * Pow2(m) * Pow2(i) == Pow2(m + i + 1)
  {
    if i > 0 {
      PowerSplits(m, i - 1);
      assert 2 * Pow2(m) * Pow2(i) == 2 * (2 * Pow2(m) * Pow2(i - 1));
    }
  }

  lemma Quotient(a: nat, b: nat)
    requires b > 0
    ensures (a * b) / b == a
  {
    var q := (a * b) / b;
    assert b * q <= a * b < b * q + b;
    Products(b, a + 1, q);
    Products(b, q + 1, a);
  }

  lemma Products(n: nat, x: nat, y: nat)
    ensures x <= y ==> n * x <= n * y
  {
  }

  lemma Ror1Bit(x: Sha256.Word, i: nat)
    requires i < 32
    ensures Bit(Ror1(x), i) == Bit(x, if i == 31 then 0 else i + 1)
  {
    OrBit(Half(x), x << 31, i);
    TopBit(x, i);
    if i == 31 {
      NoBit(x, 32);
    }
    hide Half, Low, Or;
  }

  /** The place n after i, counted around the word. */
  function Around(i: nat, n: nat): nat {
    (i + n) % 32
  }

  lemma AroundNext(i: nat, n: nat)
    requires i < 32
    ensures Around(i, 0) == i
    ensures Around(if i == 31 then 0 else i + 1, n) == Around(i, n + 1)
  {
  }

  lemma {:induction false} RorBit(x: Sha256.Word, n: nat, i: nat)
    requires i < 32
    ensures Bit(Ror(x, n), i) == Bit(x, Around(i, n))
    decreases n
  {
    hide Ror1, Around, Bit;
    if n == 0 {
      AroundNext(i, 0);
    } else {
      Ror1Bit(Ror(x, n - 1), i);
      RorBit(x, n - 1, if i == 31 then 0 else i + 1);
      AroundNext(i, n - 1);
    }
  }

  // ----- the sigma functions, Ch and Maj -------------------------------------

  // One step at a time: what the rotations of the standard are as shifts.

  lemma RorBy1(x: Sha256.Word, y: Sha256.Word)
    requires y == (x >> 1) | (x << 31)
    ensures y == Ror(x, 1)
  {
  }

  lemma RorBy2(x: Sha256.Word, y: Sha256.Word)
    requires y == (x >> 2) | (x << 30)
    ensures y == Ror(x, 2)
  {
    RorBy1(x, (x >> 1) | (x << 31));
  }

  lemma RorBy3(x: Sha256.Word, y: Sha256.Word)
    requires y == (x >> 3) | (x << 29)
    ensures y == Ror(x, 3)
  {
    RorBy2(x, (x >> 2) | (x << 30));
  }

  lemma RorBy4(x: Sha256.Word, y: Sha256.Word)
    requires y == (x >> 4) | (x << 28)
    ensures y == Ror(x, 4)
  {
    RorBy3(x, (x >> 3) | (x << 29));
  }

  lemma RorBy5(x: Sha256.Word, y: Sha256.Word)
    requires y == (x >> 5) | (x << 27)
    ensures y == Ror(x, 5)
  {
    RorBy4(x, (x >> 4) | (x << 28));
  }

  lemma RorBy6(x: Sha256.Word, y: Sha256.Word)
    requires y == (x >> 6) | (x << 26)
    ensures y == Ror(x, 6)
  {
    RorBy5(x, (x >> 5) | (x << 27));
  }

  lemma RorBy7(x: Sha256.Word, y: Sha256.Word)
    requires y == (x >> 7) | (x << 25)
    ensures y == Ror(x, 7)
  {
    RorBy6(x, (x >> 6) | (x << 26));
  }

  lemma RorBy8(x: Sha256.Word, y: Sha256.Word)
    requires y == (x >> 8) | (x << 24)
    ensures y == Ror(x, 8)
  {
    RorBy7(x, (x >> 7) | (x << 25));
  }

  lemma RorBy9(x: Sha256.Word, y: Sha256.Word)
    requires y == (x >> 9) | (x << 23)
    ensures y == Ror(x, 9)
  {
    RorBy8(x, (x >> 8) | (x << 24));
  }

  lemma RorBy10(x: Sha256.Word, y: Sha256.Word)
    requires y == (x >> 10) | (x << 22)
    ensures y == Ror(x, 10)
  {
    RorBy9(x, (x >> 9) | (x << 23));
  }

  lemma RorBy11(x: Sha256.Word, y: Sha256.Word)
    requires y == (x >> 11) | (x << 21)
    ensures y == Ror(x, 11)
  {
    RorBy10(x, (x >> 10) | (x << 22));
  }

  lemma RorBy12(x: Sha256.Word, y: Sha256.Word)
    requires y == (x >> 12) | (x << 20)
    ensures y == Ror(x, 12)
  {
    RorBy11(x, (x >> 11) | (x << 21));
  }

  lemma RorBy13(x: Sha256.Word, y: Sha256.Word)
    requires y == (x >> 13) | (x << 19)
    ensures y == Ror(x, 13)
  {
    RorBy12(x, (x >> 12) | (x << 20));
  }

  lemma RorBy14(x: Sha256.Word, y: Sha256.Word)
    requires y == (x >> 14) | (x << 18)
    ensures y == Ror(x, 14)
  {
    RorBy13(x, (x >> 13) | (x << 19));
  }

  lemma RorBy15(x: Sha256.Word, y: Sha256.Word)
    requires y == (x >> 15) | (x << 17)
    ensures y == Ror(x, 15)
  {
    RorBy14(x, (x >> 14) | (x << 18));
  }

  lemma RorBy16(x: Sha256.Word, y: Sha256.Word)
    requires y == (x >> 16) | (x << 16)
    ensures y == Ror(x, 16)
  {
    RorBy15(x, (x >> 15) | (x << 17));
  }

  lemma RorBy17(x: Sha256.Word, y: Sha256.Word)
    requires y == (x >> 17) | (x << 15)
    ensures y == Ror(x, 17)
  {
    RorBy16(x, (x >> 16) | (x << 16));
  }

  lemma RorBy18(x: Sha256.Word, y: Sha256.Word)
    requires y == (x >> 18) | (x << 14)
    ensures y == Ror(x, 18)
  {
    RorBy17(x, (x >> 17) | (x << 15));
  }

  lemma RorBy19(x: Sha256.Word, y: Sha256.Word)
    requires y == (x >> 19) | (x << 13)
    ensures y == Ror(x, 19)
  {
    RorBy18(x, (x >> 18) | (x << 14));
  }

  lemma RorBy20(x: Sha256.Word, y: Sha256.Word)
    requires y == (x >> 20) | (x << 12)
    ensures y == Ror(x, 20)
  {
    RorBy19(x, (x >> 19) | (x << 13));
  }

  lemma RorBy21(x: Sha256.Word, y: Sha256.Word)
    requires y == (x >> 21) | (x << 11)
    ensures y == Ror(x, 21)
  {
    RorBy20(x, (x >> 20) | (x << 12));
  }

  lemma RorBy22(x: Sha256.Word, y: Sha256.Word)
    requires y == (x >> 22) | (x << 10)
    ensures y == Ror(x, 22)
  {
    RorBy21(x, (x >> 21) | (x << 11));
  }

  lemma RorBy23(x: Sha256.Word, y: Sha256.Word)
    requires y == (x >> 23) | (x << 9)
    ensures y == Ror(x, 23)
  {
    RorBy22(x, (x >> 22) | (x << 10));
  }

  lemma RorBy24(x: Sha256.Word, y: Sha256.Word)
    requires y == (x >> 24) | (x << 8)
    ensures y == Ror(x, 24)
  {
    RorBy23(x, (x >> 23) | (x << 9));
  }

  lemma RorBy25(x: Sha256.Word, y: Sha256.Word)
    requires y == (x >> 25) | (x << 7)
    ensures y == Ror(x, 25)
  {
    RorBy24(x, (x >> 24) | (x << 8));
  }

  lemma ShrBy3(x: Sha256.Word, y: Sha256.Word)
    requires y == x >> 3
    ensures y == Shr(x, 3)
  {
    assert Shr(x, 1) == x >> 1;
    assert Shr(x, 2) == x >> 2;
  }

  lemma ShrBy10(x: Sha256.Word, y: Sha256.Word)
    requires y == x >> 10
    ensures y == Shr(x, 10)
  {
    Shr8(x, x >> 8);
    assert Shr(x, 9) == x >> 9;
  }

  lemma BigS0Is(x: Sha256.Word, y: Sha256.Word)
    requires y == BigS0(x)
    ensures y == Xor(Ror(x, 2), Ror(x, 13), Ror(x, 22))
  {
    var a, b, c := (x >> 2) | (x << 30), (x >> 13) | (x << 19), (x >> 22) | (x << 10);
    assert y == Xor(a, b, c);
    hide BigS0, Xor, Ror, Shr;
    RorBy2(x, a);
    RorBy13(x, b);
    RorBy22(x, c);
  }

  /** Bit i is the parity of bits i + 2 and i + 13, counted around the word, and of bit i + 22, counted around
      it too. */
  lemma BigS0Bits(x: Sha256.Word, i: nat)
    requires i < 32
    ensures BitOf(BigS0(x), i)
            <==> Odd(BitOf(x, (i + 2) % 32), BitOf(x, (i + 13) % 32), BitOf(x, (i + 22) % 32))
  {
    hide BigS0, BitOf, Bit, Ror, Shr, Odd, Xor;
    BigS0Is(x, BigS0(x));
    BitIs(BigS0(x), i);
    XorBit(Ror(x, 2), Ror(x, 13), Ror(x, 22), i);
    RorBit(x, 2, i);
    RorBit(x, 13, i);
    RorBit(x, 22, i);
    BitIs(x, (i + 2) % 32);
    BitIs(x, (i + 13) % 32);
    BitIs(x, (i + 22) % 32);
  }

  lemma BigS1Is(x: Sha256.Word, y: Sha256.Word)
    requires y == BigS1(x)
    ensures y == Xor(Ror(x, 6), Ror(x, 11), Ror(x, 25))
  {
    var a, b, c := (x >> 6) | (x << 26), (x >> 11) | (x << 21), (x >> 25) | (x << 7);
    assert y == Xor(a, b, c);
    hide BigS1, Xor, Ror, Shr;
    RorBy6(x, a);
    RorBy11(x, b);
    RorBy25(x, c);
  }

  /** Bit i is the parity of bits i + 6 and i + 11, counted around the word, and of bit i + 25, counted around
      it too. */
  lemma BigS1Bits(x: Sha256.Word, i: nat)
    requires i < 32
    ensures BitOf(BigS1(x), i)
            <==> Odd(BitOf(x, (i + 6) % 32), BitOf(x, (i + 11) % 32), BitOf(x, (i + 25) % 32))
  {
    hide BigS1, BitOf, Bit, Ror, Shr, Odd, Xor;
    BigS1Is(x, BigS1(x));
    BitIs(BigS1(x), i);
    XorBit(Ror(x, 6), Ror(x, 11), Ror(x, 25), i);
    RorBit(x, 6, i);
    RorBit(x, 11, i);
    RorBit(x, 25, i);
    BitIs(x, (i + 6) % 32);
    BitIs(x, (i + 11) % 32);
    BitIs(x, (i + 25) % 32);
  }

  lemma SmallS0Is(x: Sha256.Word, y: Sha256.Word)
    requires y == SmallS0(x)
    ensures y == Xor(Ror(x, 7), Ror(x, 18), Shr(x, 3))
  {
    var a, b, c := (x >> 7) | (x << 25), (x >> 18) | (x << 14), x >> 3;
    assert y == Xor(a, b, c);
    hide SmallS0, Xor, Ror, Shr;
    RorBy7(x, a);
    RorBy18(x, b);
    ShrBy3(x, c);
  }

  /** Bit i is the parity of bits i + 7 and i + 18, counted around the word, and of bit i + 3, which is zero
      past the end. */
  lemma SmallS0Bits(x: Sha256.Word, i: nat)
    requires i < 32
    ensures BitOf(SmallS0(x), i)
            <==> Odd(BitOf(x, (i + 7) % 32), BitOf(x, (i + 18) % 32), i + 3 < 32 && BitOf(x, i + 3))
  {
    hide SmallS0, BitOf, Bit, Ror, Shr, Odd, Xor;
    SmallS0Is(x, SmallS0(x));
    BitIs(SmallS0(x), i);
    XorBit(Ror(x, 7), Ror(x, 18), Shr(x, 3), i);
    RorBit(x, 7, i);
    RorBit(x, 18, i);
    ShrBit(x, 3, i);
    BitIs(x, (i + 7) % 32);
    BitIs(x, (i + 18) % 32);
    if i + 3 < 32 {
      BitIs(x, i + 3);
    } else {
      NoBit(x, i + 3);
    }
  }

  lemma SmallS1Is(x: Sha256.Word, y: Sha256.Word)
    requires y == SmallS1(x)
    ensures y == Xor(Ror(x, 17), Ror(x, 19), Shr(x, 10))
  {
    var a, b, c := (x >> 17) | (x << 15), (x >> 19) | (x << 13), x >> 10;
    assert y == Xor(a, b, c);
    hide SmallS1, Xor, Ror, Shr;
    RorBy17(x, a);
    RorBy19(x, b);
    ShrBy10(x, c);
  }

  /** Bit i is the parity of bits i + 17 and i + 19, counted around the word, and of bit i + 10, which is zero
      past the end. */
  lemma SmallS1Bits(x: Sha256.Word, i: nat)
    requires i < 32
    ensures BitOf(SmallS1(x), i)
            <==> Odd(BitOf(x, (i + 17) % 32), BitOf(x, (i + 19) % 32), i + 10 < 32 && BitOf(x, i + 10))
  {
    hide SmallS1, BitOf, Bit, Ror, Shr, Odd, Xor;
    SmallS1Is(x, SmallS1(x));
    BitIs(SmallS1(x), i);
    XorBit(Ror(x, 17), Ror(x, 19), Shr(x, 10), i);
    RorBit(x, 17, i);
    RorBit(x, 19, i);
    ShrBit(x, 10, i);
    BitIs(x, (i + 17) % 32);
    BitIs(x, (i + 19) % 32);
    if i + 10 < 32 {
      BitIs(x, i + 10);
    } else {
      NoBit(x, i + 10);
    }
  }

  /** Each bit of the first word chooses between those of the other two. */
  lemma ChBits(x: Sha256.Word, y: Sha256.Word, z: Sha256.Word, i: nat)
    requires i < 32
    ensures BitOf(Ch(x, y, z), i) == if BitOf(x, i) then BitOf(y, i) else BitOf(z, i)
  {
    hide Ch, BitOf, Bit;
    ChBit(x, y, z, i);
    BitIs(Ch(x, y, z), i);
    BitIs(x, i);
    BitIs(y, i);
    BitIs(z, i);
  }

  /** A bit is set exactly when it is set in at least two of the words. */
  lemma MajBits(x: Sha256.Word, y: Sha256.Word, z: Sha256.Word, i: nat)
    requires i < 32
    ensures BitOf(Maj(x, y, z), i)
            <==> (BitOf(x, i) && BitOf(y, i)) || (BitOf(x, i) && BitOf(z, i)) || (BitOf(y, i) && BitOf(z, i))
  {
    hide Maj, BitOf, Bit;
    MajBit(x, y, z, i);
    BitIs(Maj(x, y, z), i);
    BitIs(x, i);
    BitIs(y, i);
    BitIs(z, i);
  }
}
