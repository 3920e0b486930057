/** A byte made from a number below 256 is that number. */
module ByteNumbers {

  type Byte = bv8

  predicate Digit(n: nat, weight: nat)
    requires weight > 0
  {
    (n / weight) % 2 == 1
  }

  lemma LowDigits(n: nat, x: Byte)
    requires n < 256 && n as Byte == x
    ensures Digit(n, 1) <==> x & 1 != 0
    ensures Digit(n, 2) <==> x & 2 != 0
    ensures Digit(n, 4) <==> x & 4 != 0
    ensures Digit(n, 8) <==> x & 8 != 0
  {
  }

  lemma HighDigits(n: nat, x: Byte)
    requires n < 256 && n as Byte == x
    ensures Digit(n, 16) <==> x & 16 != 0
    ensures Digit(n, 32) <==> x & 32 != 0
    ensures Digit(n, 64) <==> x & 64 != 0
    ensures Digit(n, 128) <==> x & 128 != 0
  {
  }

  function Worth(n: nat, weight: nat): nat
    requires weight > 0
  {
    if Digit(n, weight) then weight else 0
  }

  lemma WorthIs(n: nat, weight: nat, q: nat)
    requires weight > 0 && q == n / weight
    ensures Worth(n, weight) == if q % 2 == 1 then weight else 0
  {
  }

  lemma Quarters(n: nat)
    ensures n / 4 == n / 2 / 2 && n / 8 == n / 2 / 2 / 2
  {
  }

  lemma FourDigits(n: nat, a: nat, b: nat, c: nat, d: nat, e: nat)
    requires a == n && b == a / 2 && c == b / 2 && d == c / 2 && e == d / 2
    ensures n == 16 * e + (if a % 2 == 1 then 1 else 0) + (if b % 2 == 1 then 2 else 0)
                 + (if c % 2 == 1 then 4 else 0) + (if d % 2 == 1 then 8 else 0)
  {
  }

  lemma LowSum(n: nat)
    ensures n == 16 * (n / 16) + Worth(n, 1) + Worth(n, 2) + Worth(n, 4) + Worth(n, 8)
  {
    Quarters(n);
    Quarters(n / 2);
    assert n / 16 == n / 2 / 8;
    WorthIs(n, 1, n);
    WorthIs(n, 2, n / 2);
    WorthIs(n, 4, n / 4);
    WorthIs(n, 8, n / 8);
    hide Worth;
    FourDigits(n, n, n / 2, n / 4, n / 8, n / 16);
  }

  lemma HighIs(n: nat, q: nat)
    requires q == n / 16
    ensures Worth(n, 16) == 16 * Worth(q, 1) && Worth(n, 32) == 16 * Worth(q, 2)
    ensures Worth(n, 64) == 16 * Worth(q, 4) && Worth(n, 128) == 16 * Worth(q, 8)
  {
    assert n / 32 == q / 2 && n / 64 == q / 4 && n / 128 == q / 8 && q / 1 == q;
  }

  lemma SumOfDigits(n: nat)
    requires n < 256
    ensures n == Worth(n, 1) + Worth(n, 2) + Worth(n, 4) + Worth(n, 8)
                 + Worth(n, 16) + Worth(n, 32) + Worth(n, 64) + Worth(n, 128)
  {
    LowSum(n);
    LowSum(n / 16);
    HighIs(n, n / 16);
    assert n / 16 / 16 == 0;
    hide Worth;
  }

  lemma ByteOfNumber(x: Byte)
    ensures (x as nat) as Byte == x && (x as nat) < 256
  {
  }

  lemma ByteNumber(n: nat)
    requires n < 256
    ensures (n as Byte) as nat == n
  {
    var x := n as Byte;
    ByteOfNumber(x);
    BytesDiffer(n, x as nat, x);
  }

  lemma BytesDiffer(n: nat, m: nat, x: Byte)
    requires n < 256 && m < 256 && n as Byte == x && m as Byte == x
    ensures n == m
  {
    LowDigits(n, x);
    LowDigits(m, x);
    HighDigits(n, x);
    HighDigits(m, x);
    hide Digit;
    SumOfDigits(n);
    SumOfDigits(m);
  }
}
