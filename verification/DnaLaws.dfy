/** What learning stores in a DNA record, over any number of lessons. */
module DnaLaws {
  import ByteNumbers
  import opened Memory
  import opened Sha256
  import opened BotDna

  const COUNT_AT: nat := 4176

  /** A uint32_t field holds what was encoded, modulo 2^32. */
  lemma FieldRoundTrip(n: nat)
    ensures Field32(Encode32(n), 0) == n % 0x1_0000_0000
  {
    var b := Encode32(n);
    ByteNumbers.ByteNumber(n % 256);
    ByteNumbers.ByteNumber(n / 0x100 % 256);
    ByteNumbers.ByteNumber(n / 0x1_0000 % 256);
    ByteNumbers.ByteNumber(n / 0x100_0000 % 256);
    Digits(n);
  }

  lemma Digits(n: nat)
    ensures n % 256 + 0x100 * (n / 0x100 % 256) + 0x1_0000 * (n / 0x1_0000 % 256)
            + 0x100_0000 * (n / 0x100_0000 % 256) == n % 0x1_0000_0000
  {
    var q1 := n / 0x100;
    var q2 := q1 / 0x100;
    var q3 := q2 / 0x100;
    var q4 := q3 / 0x100;
    assert n / 0x1_0000 == q2 && n / 0x100_0000 == q3 && n / 0x1_0000_0000 == q4;
  }

  lemma FieldAfterPut(image: Bytes, at: nat, data: Bytes)
    requires |data| == 4 && at + 4 <= |image|
    ensures Field32(Put(image, at, data), at) == Field32(data, 0)
  {
  }

  lemma FieldElsewhere(image: Bytes, at: nat, data: Bytes, field: nat)
    requires at + |data| <= |image| && field + 4 <= |image| && (field + 4 <= at || at + |data| <= field)
    ensures Field32(Put(image, at, data), field) == Field32(image, field)
  {
  }

  /** The k-th pattern of the pool. */
  function SlotOf(image: Image, k: nat): Bytes
    requires k < 64
  {
    image[80 + 64 * k..80 + 64 * k + 64]
  }

  lemma SlotAfterPut(image: Image, at: nat, data: Bytes, k: nat)
    requires k < 64 && at + |data| <= SIZE
    ensures at == 80 + 64 * k && |data| == 64 ==> SlotOf(Put(image, at, data), k) == data
    ensures 80 + 64 * k + 64 <= at || at + |data| <= 80 + 64 * k
            ==> SlotOf(Put(image, at, data), k) == SlotOf(image, k)
  {
  }

  /** One lesson: refused, without any change, exactly when 64 patterns are known; otherwise the next slot holds the
      pattern, the count is one higher and all other slots are as they were. */
  lemma LearnExact(image: Image, pattern: Bytes)
    requires |pattern| == 64
    ensures var count := Field32(image, COUNT_AT);
            var (image', ok) := AddPattern(image, pattern);
            && (ok <==> count < 64) && (!ok ==> image' == image)
            && (ok ==>
                  && Field32(image', COUNT_AT) == count + 1
                  && SlotOf(image', count) == pattern
                  && (forall k :: 0 <= k < 64 && k != count ==> SlotOf(image', k) == SlotOf(image, k)))
  {
    hide Field32, Encode32, ComputeHash, Put, SlotOf, Digest;
    var count := Field32(image, COUNT_AT);
    if count < 64 {
      var a: Image := Put(image, 80 + 64 * count, pattern);
      var b: Image := Put(a, COUNT_AT, Encode32(count + 1));
      LessonFields(image, pattern, count, a, b, ComputeHash(b));
    }
  }

  lemma LessonFields(image: Image, pattern: Bytes, count: nat, a: Image, b: Image, hash: Bytes)
    requires |pattern| == 64 && |hash| == 32 && count < 64
    requires a == Put(image, 80 + 64 * count, pattern) && b == Put(a, COUNT_AT, Encode32(count + 1))
    ensures Field32(Put(b, 4228, hash), COUNT_AT) == count + 1
    ensures SlotOf(Put(b, 4228, hash), count) == pattern
    ensures forall k :: 0 <= k < 64 && k != count ==> SlotOf(Put(b, 4228, hash), k) == SlotOf(image, k)
  {
    hide Field32, Encode32, Put, SlotOf;
    FieldAfterPut(a, COUNT_AT, Encode32(count + 1));
    FieldRoundTrip(count + 1);
    FieldElsewhere(b, 4228, hash, COUNT_AT);
    forall k | 0 <= k < 64
      ensures SlotOf(Put(b, 4228, hash), k) == if k == count then pattern else SlotOf(image, k)
    {
      SlotAfterPut(image, 80 + 64 * count, pattern, k);
      SlotAfterPut(a, COUNT_AT, Encode32(count + 1), k);
      SlotAfterPut(b, 4228, hash, k);
    }
  }

  /** A record verifies exactly when it starts with its magic and version and its hash field holds the digest of
      everything in front of it. */
  lemma VerifyExact(image: Image)
    ensures Verify(image)
            <==> && Field32(image, 0) == 0x424F5444 && Field32(image, 4) == 1
                 && image[4228..4260] == Digest(image[..4228])
  {
    hide Digest, Field32;
  }

  /** Learning one pattern after the other. */
  function LearnAll(image: Image, patterns: seq<Bytes>): (image': Image)
    requires forall i :: 0 <= i < |patterns| ==> |patterns[i]| == 64
  {
    if patterns == [] then image
    else AddPattern(LearnAll(image, patterns[..|patterns| - 1]), patterns[|patterns| - 1]).0
  }

  /** A verified record that learns patterns while there is room holds them in order behind those it had, is still
      verified, and counts them all. */
  lemma {:induction false} LearnedInOrder(image: Image, patterns: seq<Bytes>)
    requires forall i :: 0 <= i < |patterns| ==> |patterns[i]| == 64
    requires Verify(image) && Field32(image, COUNT_AT) + |patterns| <= 64
    ensures var count, image' := Field32(image, COUNT_AT), LearnAll(image, patterns);
            && Verify(image') && Field32(image', COUNT_AT) == count + |patterns|
            && (forall i :: 0 <= i < |patterns| ==> SlotOf(image', count + i) == patterns[i])
            && (forall k :: 0 <= k < count ==> SlotOf(image', k) == SlotOf(image, k))
  {
    hide Verify, Field32, AddPattern, SlotOf;
    if patterns != [] {
      var init, last := patterns[..|patterns| - 1], patterns[|patterns| - 1];
      LearnedInOrder(image, init);
      LearnExact(LearnAll(image, init), last);
      LearnKeepsVerified(LearnAll(image, init), last);
    }
  }
}
