/** The length field of the padding is the length. */
module Sha256Length {
  import opened BlockStream
  import opened Sha256
  import ByteNumbers

  /** The number that bytes spell, most significant first. */
  function Number(bytes: seq<Byte>): nat {
    if bytes == [] then 0 else 256 * Number(bytes[..|bytes| - 1]) + bytes[|bytes| - 1] as nat
  }

  lemma Nested(x: nat, p: nat)
    requires p > 0
    ensures x / (256 * p) == (x / p) / 256
  {
    var q, r := x / p, x % p;
    assert x == p * q + r;
    var u, v := q / 256, q % 256;
    assert q == 256 * u + v;
    var big := 256 * p;
    Scale(p, 256 * u, v);
    Scale(p, v, 255);
    assert x == big * u + (p * v + r) && 0 <= p * v + r < big by {
      assert p * (256 * u) == big * u;
    }
    Unique(x, big, u, p * v + r);
  }

  lemma Scale(p: nat, a: nat, b: nat)
    ensures p * (a + b) == p * a + p * b
    ensures a <= b ==> p * a <= p * b
  {
  }

  lemma Unique(x: nat, d: nat, q: nat, r: nat)
    requires d > 0 && x == d * q + r && r < d
    ensures x / d == q
  {
    var q' := x / d;
    assert d * q' <= x < d * q' + d;
    if q' < q {
      Scale(d, q' + 1, q);
    } else if q < q' {
      Scale(d, q + 1, q');
    }
  }

  /** The length bytes spell the length, for every length below 2^64. */
  lemma LengthBytesSpell(bits: nat)
    requires bits < U64
    ensures Number(LengthBytes(bits)) == bits
  {
    LengthPrefix(bits, 8);
    assert LengthBytes(bits)[..8] == LengthBytes(bits);
    assert Pow256(0) == 1;
  }

  lemma {:induction false} LengthPrefix(bits: nat, k: nat)
    requires bits < U64 && k <= 8
    ensures Number(LengthBytes(bits)[..k]) == bits / Pow256(8 - k)
  {
    hide LengthByte, LengthBytes, Pow256, Number;
    if k == 0 {
      NoBytes(bits);
    } else {
      LengthPrefix(bits, k - 1);
      NumberNext(LengthBytes(bits), k);
      Nested(bits, Pow256(8 - k));
      LengthByteIs(bits, k - 1);
      Regroup(bits / Pow256(8 - k));
    }
  }

  lemma Regroup(q: nat)
    ensures 256 * (q / 256) + q % 256 == q
  {
  }

  lemma NoBytes(bits: nat)
    requires bits < U64
    ensures Number(LengthBytes(bits)[..0]) == 0 == bits / Pow256(8)
  {
    Pow256Of8();
  }

  lemma NumberNext(l: Bytes, k: nat)
    requires 0 < k <= |l|
    ensures Number(l[..k]) == 256 * Number(l[..k - 1]) + l[k - 1] as nat
  {
    assert l[..k][..k - 1] == l[..k - 1];
  }

  lemma Pow256Of8()
    ensures Pow256(8) == U64
  {
  }

  lemma LengthByteIs(bits: nat, i: nat)
    requires i < 8
    ensures LengthBytes(bits)[i] as nat == (bits / Pow256(7 - i)) % 256
    ensures Pow256(8 - i) == 256 * Pow256(7 - i)
  {
    ByteNumbers.ByteNumber((bits / Pow256(7 - i)) % 256);
  }
}
