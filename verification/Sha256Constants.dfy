/** Where the constants of SHA-256 come from: sections 4.2.2 and 5.3.3 of FIPS 180-4. */
module Sha256Constants {
  import opened Sha256

  const TWO32: nat := 0x1_0000_0000

  // ----- the first 64 primes -------------------------------------------------

  ghost predicate Prime(n: nat) {
    2 <= n && forall d :: 2 <= d < n ==> n % d != 0
  }

  /** The t-th prime, counted from 0. */
  function NthPrime(t: nat): nat
    requires t < 64
  {
    match t
    case 0 => 2
    case 1 => 3
    case 2 => 5
    case 3 => 7
    case 4 => 11
    case 5 => 13
    case 6 => 17
    case 7 => 19
    case 8 => 23
    case 9 => 29
    case 10 => 31
    case 11 => 37
    case 12 => 41
    case 13 => 43
    case 14 => 47
    case 15 => 53
    case 16 => 59
    case 17 => 61
    case 18 => 67
    case 19 => 71
    case 20 => 73
    case 21 => 79
    case 22 => 83
    case 23 => 89
    case 24 => 97
    case 25 => 101
    case 26 => 103
    case 27 => 107
    case 28 => 109
    case 29 => 113
    case 30 => 127
    case 31 => 131
    case 32 => 137
    case 33 => 139
    case 34 => 149
    case 35 => 151
    case 36 => 157
    case 37 => 163
    case 38 => 167
    case 39 => 173
    case 40 => 179
    case 41 => 181
    case 42 => 191
    case 43 => 193
    case 44 => 197
    case 45 => 199
    case 46 => 211
    case 47 => 223
    case 48 => 227
    case 49 => 229
    case 50 => 233
    case 51 => 239
    case 52 => 241
    case 53 => 251
    case 54 => 257
    case 55 => 263
    case 56 => 269
    case 57 => 271
    case 58 => 277
    case 59 => 281
    case 60 => 283
    case 61 => 293
    case 62 => 307
    case _ => 311
  }

  /** No prime up to 17 divides n, unless it is n. */
  predicate NoSmallFactor(n: nat) {
    && (n % 2 != 0 || n == 2)
    && (n % 3 != 0 || n == 3)
    && (n % 5 != 0 || n == 5)
    && (n % 7 != 0 || n == 7)
    && (n % 11 != 0 || n == 11)
    && (n % 13 != 0 || n == 13)
    && (n % 17 != 0 || n == 17)
  }

  lemma Factors(n: nat, d: nat, e: nat)
    requires n == d * e && 2 <= d && 2 <= e && n < 324
    ensures d <= 17 || e <= 17
  {
    if 18 <= d && 18 <= e {
      Products(18, e, 18);
      Products(e, d, 18);
    }
  }

  lemma Products(n: nat, x: nat, y: nat)
    requires y <= x
    ensures n * y <= n * x && n * x == x * n
  {
  }

  lemma Multiple(n: nat, p: nat, k: nat)
    requires n == p * k && p > 0
    ensures n % p == 0
  {
    var q := n / p;
    assert p * q <= n < p * q + p && n % p == n - p * q;
    if k < q {
      Products(p, q, k + 1);
    } else if q < k {
      Products(p, k, q + 1);
    }
  }

  lemma Regroup(p: nat, c: nat, e: nat, d: nat)
    requires d == p * c
    ensures d * e == p * (c * e)
  {
  }

  /** A divisor up to 17 is a multiple of a prime up to 17. */
  lemma SmallDivisor(n: nat, d: nat, e: nat)
    requires n == d * e && 2 <= d <= 17 && d < n
    ensures !NoSmallFactor(n)
  {
    var p := if d % 2 == 0 then 2 else if d % 3 == 0 then 3 else if d % 5 == 0 then 5 else d;
    var c := d / p;
    assert d == p * c && 0 < p;
    Regroup(p, c, e, d);
    Multiple(n, p, c * e);
    hide NoSmallFactor;
    FactorRules(n, p);
  }

  lemma FactorRules(n: nat, p: nat)
    requires 0 < p < n && n % p == 0
    requires p == 2 || p == 3 || p == 5 || p == 7 || p == 11 || p == 13 || p == 17
    ensures !NoSmallFactor(n)
  {
  }

  /** Below 324 a number without a small factor is prime, and conversely. */
  lemma PrimeExact(n: nat)
    requires 2 <= n < 324
    ensures Prime(n) <==> NoSmallFactor(n)
  {
    if NoSmallFactor(n) {
      forall d | 2 <= d < n
        ensures n % d != 0
      {
        if n % d == 0 {
          var e := n / d;
          Divides(n, d, e);
          Factors(n, d, e);
          if d <= 17 {
            SmallDivisor(n, d, e);
          } else {
            SmallDivisor(n, e, d);
          }
        }
      }
    }
  }

  lemma Divides(n: nat, d: nat, e: nat)
    requires 2 <= d < n && n % d == 0 && e == n / d
    ensures n == d * e == e * d && 2 <= e < n
  {
    assert n == d * e;
    if e <= 1 {
      Products(d, 1, e);
    } else {
      Products(e, d, 2);
    }
  }

  lemma Primes0(t: nat)
    requires 0 <= t < 16
    ensures NoSmallFactor(NthPrime(t))
  {
  }

  lemma Primes16(t: nat)
    requires 16 <= t < 32
    ensures NoSmallFactor(NthPrime(t))
  {
  }

  lemma Primes32(t: nat)
    requires 32 <= t < 48
    ensures NoSmallFactor(NthPrime(t))
  {
  }

  lemma Primes48(t: nat)
    requires 48 <= t < 64
    ensures NoSmallFactor(NthPrime(t))
  {
  }

  lemma Composites0(n: nat)
    requires 2 < n < 5 && n != 3
    ensures !NoSmallFactor(n)
  {
  }

  lemma Composites2(n: nat)
    requires 5 < n < 11 && n != 7
    ensures !NoSmallFactor(n)
  {
  }

  lemma Composites4(n: nat)
    requires 11 < n < 17 && n != 13
    ensures !NoSmallFactor(n)
  {
  }

  lemma Composites6(n: nat)
    requires 17 < n < 23 && n != 19
    ensures !NoSmallFactor(n)
  {
  }

  lemma Composites8(n: nat)
    requires 23 < n < 31 && n != 29
    ensures !NoSmallFactor(n)
  {
  }

  lemma Composites10(n: nat)
    requires 31 < n < 41 && n != 37
    ensures !NoSmallFactor(n)
  {
  }

  lemma Composites12(n: nat)
    requires 41 < n < 47 && n != 43
    ensures !NoSmallFactor(n)
  {
  }

  lemma Composites14(n: nat)
    requires 47 < n < 59 && n != 53
    ensures !NoSmallFactor(n)
  {
  }

  lemma Composites16(n: nat)
    requires 59 < n < 67 && n != 61
    ensures !NoSmallFactor(n)
  {
  }

  lemma Composites18(n: nat)
    requires 67 < n < 73 && n != 71
    ensures !NoSmallFactor(n)
  {
  }

  lemma Composites20(n: nat)
    requires 73 < n < 83 && n != 79
    ensures !NoSmallFactor(n)
  {
  }

  lemma Composites22(n: nat)
    requires 83 < n < 97 && n != 89
    ensures !NoSmallFactor(n)
  {
  }

  lemma Composites24(n: nat)
    requires 97 < n < 103 && n != 101
    ensures !NoSmallFactor(n)
  {
  }

  lemma Composites26(n: nat)
    requires 103 < n < 109 && n != 107
    ensures !NoSmallFactor(n)
  {
  }

  lemma Composites28(n: nat)
    requires 109 < n < 127 && n != 113
    ensures !NoSmallFactor(n)
  {
  }

  lemma Composites30(n: nat)
    requires 127 < n < 137 && n != 131
    ensures !NoSmallFactor(n)
  {
  }

  lemma Composites32(n: nat)
    requires 137 < n < 149 && n != 139
    ensures !NoSmallFactor(n)
  {
  }

  lemma Composites34(n: nat)
    requires 149 < n < 157 && n != 151
    ensures !NoSmallFactor(n)
  {
  }

  lemma Composites36(n: nat)
    requires 157 < n < 167 && n != 163
    ensures !NoSmallFactor(n)
  {
  }

  lemma Composites38(n: nat)
    requires 167 < n < 179 && n != 173
    ensures !NoSmallFactor(n)
  {
  }

  lemma Composites40(n: nat)
    requires 179 < n < 191 && n != 181
    ensures !NoSmallFactor(n)
  {
  }

  lemma Composites42(n: nat)
    requires 191 < n < 197 && n != 193
    ensures !NoSmallFactor(n)
  {
  }

  lemma Composites44(n: nat)
    requires 197 < n < 211 && n != 199
    ensures !NoSmallFactor(n)
  {
  }

  lemma Composites46(n: nat)
    requires 211 < n < 227 && n != 223
    ensures !NoSmallFactor(n)
  {
  }

  lemma Composites48(n: nat)
    requires 227 < n < 233 && n != 229
    ensures !NoSmallFactor(n)
  {
  }

  lemma Composites50(n: nat)
    requires 233 < n < 241 && n != 239
    ensures !NoSmallFactor(n)
  {
  }

  lemma Composites52(n: nat)
    requires 241 < n < 257 && n != 251
    ensures !NoSmallFactor(n)
  {
  }

  lemma Composites54(n: nat)
    requires 257 < n < 269 && n != 263
    ensures !NoSmallFactor(n)
  {
  }

  lemma Composites56(n: nat)
    requires 269 < n < 277 && n != 271
    ensures !NoSmallFactor(n)
  {
  }

  lemma Composites58(n: nat)
    requires 277 < n < 283 && n != 281
    ensures !NoSmallFactor(n)
  {
  }

  lemma Composites60(n: nat)
    requires 283 < n < 307 && n != 293
    ensures !NoSmallFactor(n)
  {
  }

  lemma Composites62(n: nat)
    requires 307 < n < 311
    ensures !NoSmallFactor(n)
  {
  }

  /** NthPrime lists the primes in order and leaves none out. */
  lemma NthPrimeIsPrime(t: nat)
    requires t < 64
    ensures NthPrime(0) == 2 && Prime(NthPrime(t))
    ensures t < 63 ==> NthPrime(t) < NthPrime(t + 1)
    ensures t < 63 ==> forall n :: NthPrime(t) < n < NthPrime(t + 1) ==> !Prime(n)
  {
    PrimeExact(NthPrime(t));
    if t < 16 {
      Primes0(t);
    } else if t < 32 {
      Primes16(t);
    } else if t < 48 {
      Primes32(t);
    } else {
      Primes48(t);
    }
    hide NoSmallFactor, Prime;
    if t < 63 {
      forall n | NthPrime(t) < n < NthPrime(t + 1)
        ensures !Prime(n)
      {
        PrimeExact(n);
        NoPrimeBetween(t, n);
      }
    }
  }

  lemma NoPrimeBetween(t: nat, n: nat)
    requires t < 63 && NthPrime(t) < n < NthPrime(t + 1)
    ensures !NoSmallFactor(n)
  {
    hide NoSmallFactor;
    match t / 2 {
      case 0 => Composites0(n);
      case 1 => Composites2(n);
      case 2 => Composites4(n);
      case 3 => Composites6(n);
      case 4 => Composites8(n);
      case 5 => Composites10(n);
      case 6 => Composites12(n);
      case 7 => Composites14(n);
      case 8 => Composites16(n);
      case 9 => Composites18(n);
      case 10 => Composites20(n);
      case 11 => Composites22(n);
      case 12 => Composites24(n);
      case 13 => Composites26(n);
      case 14 => Composites28(n);
      case 15 => Composites30(n);
      case 16 => Composites32(n);
      case 17 => Composites34(n);
      case 18 => Composites36(n);
      case 19 => Composites38(n);
      case 20 => Composites40(n);
      case 21 => Composites42(n);
      case 22 => Composites44(n);
      case 23 => Composites46(n);
      case 24 => Composites48(n);
      case 25 => Composites50(n);
      case 26 => Composites52(n);
      case 27 => Composites54(n);
      case 28 => Composites56(n);
      case 29 => Composites58(n);
      case 30 => Composites60(n);
      case _ => Composites62(n);
    }
  }

  // ----- roots ---------------------------------------------------------------

  function Square(x: nat): nat {
    x * x
  }

  function Cube(x: nat): nat {
    x * x * x
  }

  /** The whole part of the cube root. */
  function WholeCubeRoot(p: nat): (n: nat)
    requires 1 <= p < 343
    ensures Cube(n) <= p < Cube(n + 1)
  {
    if p < 8 then 1 else if p < 27 then 2 else if p < 64 then 3 else if p < 125 then 4 else if p < 216 then 5 else 6
  }

  /** The whole part of the square root. */
  function WholeSquareRoot(p: nat): (n: nat)
    requires 1 <= p < 25
    ensures Square(n) <= p < Square(n + 1)
  {
    if p < 4 then 1 else if p < 9 then 2 else if p < 16 then 3 else 4
  }

  /** w is the integer part of 2^32 times the fractional part of the cube root of p: that root lies between
      n + w / 2^32 and n + (w + 1) / 2^32, where n is its whole part. */
  predicate CubeRootFraction(p: nat, w: nat)
    requires 1 <= p < 343
  {
    var n := WholeCubeRoot(p);
    w < TWO32 && Cube(n * TWO32 + w) <= p * Cube(TWO32) < Cube(n * TWO32 + w + 1)
  }

  predicate SquareRootFraction(p: nat, w: nat)
    requires 1 <= p < 25
  {
    var n := WholeSquareRoot(p);
    w < TWO32 && Square(n * TWO32 + w) <= p * Square(TWO32) < Square(n * TWO32 + w + 1)
  }

  lemma Roots0(t: nat)
    requires 0 <= t < 8
    ensures CubeRootFraction(NthPrime(t), RoundConstant(t) as nat)
  {
  }

  lemma Roots8(t: nat)
    requires 8 <= t < 16
    ensures CubeRootFraction(NthPrime(t), RoundConstant(t) as nat)
  {
  }

  lemma Roots16(t: nat)
    requires 16 <= t < 24
    ensures CubeRootFraction(NthPrime(t), RoundConstant(t) as nat)
  {
  }

  lemma Roots24(t: nat)
    requires 24 <= t < 32
    ensures CubeRootFraction(NthPrime(t), RoundConstant(t) as nat)
  {
  }

  lemma Roots32(t: nat)
    requires 32 <= t < 40
    ensures CubeRootFraction(NthPrime(t), RoundConstant(t) as nat)
  {
  }

  lemma Roots40(t: nat)
    requires 40 <= t < 48
    ensures CubeRootFraction(NthPrime(t), RoundConstant(t) as nat)
  {
  }

  lemma Roots48(t: nat)
    requires 48 <= t < 56
    ensures CubeRootFraction(NthPrime(t), RoundConstant(t) as nat)
  {
  }

  lemma Roots56(t: nat)
    requires 56 <= t < 64
    ensures CubeRootFraction(NthPrime(t), RoundConstant(t) as nat)
  {
  }

  /** The round constants are the fractional parts of the cube roots of the first 64 primes. */
  lemma RoundConstantsAreRoots(t: nat)
    requires t < 64
    ensures CubeRootFraction(NthPrime(t), RoundConstant(t) as nat)
  {
    if t < 8 {
      Roots0(t);
    } else if t < 16 {
      Roots8(t);
    } else if t < 24 {
      Roots16(t);
    } else if t < 32 {
      Roots24(t);
    } else if t < 40 {
      Roots32(t);
    } else if t < 48 {
      Roots40(t);
    } else if t < 56 {
      Roots48(t);
    } else {
      Roots56(t);
    }
  }

  /** The initial hash value is the fractional parts of the square roots of the first eight primes. */
  lemma InitialHashIsRoots()
    ensures SquareRootFraction(NthPrime(0), IV.a as nat)
    ensures SquareRootFraction(NthPrime(1), IV.b as nat)
    ensures SquareRootFraction(NthPrime(2), IV.c as nat)
    ensures SquareRootFraction(NthPrime(3), IV.d as nat)
    ensures SquareRootFraction(NthPrime(4), IV.e as nat)
    ensures SquareRootFraction(NthPrime(5), IV.f as nat)
    ensures SquareRootFraction(NthPrime(6), IV.g as nat)
    ensures SquareRootFraction(NthPrime(7), IV.h as nat)
  {
  }
}
