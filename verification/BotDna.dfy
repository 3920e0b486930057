/** The seal / verify / serialize cycle of an agent's DNA record
    (bot-baremetal/core/bot_dna.c, 112-122 and 191-232). The record is its byte image, laid
    out as bot_dna.h declares it on x86-64. */
module BotDna {
  import opened Memory
  import opened BlockStream
  import opened Sha256
  import opened Sha256Context

  const MAGIC: nat := 0x424F5444
  const VERSION: nat := 1
  const MAX_PATTERNS: nat := 64
  const PATTERN_SIZE: nat := 64

  const MAGIC_AT: nat := 0
  const VERSION_AT: nat := 4
  const PATTERNS_AT: nat := 80
  const PATTERN_COUNT_AT: nat := 4176
  const HASH_AT: nat := 4228
  const HASH_END: nat := 4260
  const DIRECTIVES_AT: nat := 4261
  const DIRECTIVES_END: nat := 4517
  const SIZE: nat := 4584

  type Image = i: Bytes | |i| == SIZE witness Zeros(SIZE)

  // ----- fields --------------------------------------------------------------

  /** A little-endian uint32_t. */
  function Field32(image: Bytes, at: nat): nat
    requires at + 4 <= |image|
  {
    image[at] as nat + 0x100 * image[at + 1] as nat
    + 0x1_0000 * image[at + 2] as nat + 0x100_0000 * image[at + 3] as nat
  }

  function Encode32(n: nat): (b: Bytes)
    ensures |b| == 4
  {
    [(n % 256) as Byte, (n / 0x100 % 256) as Byte, (n / 0x1_0000 % 256) as Byte, (n / 0x100_0000 % 256) as Byte]
  }

  // ----- operations ----------------------------------------------------------

  function ComputeHash(image: Image): (h: Bytes)
    ensures |h| == 32
  {
    Digest(image[..HASH_AT])
  }

  function Seal(image: Image): Image {
    Put(image, HASH_AT, ComputeHash(image))
  }

  predicate Verify(image: Image) {
    && Field32(image, MAGIC_AT) == MAGIC
    && Field32(image, VERSION_AT) == VERSION
    && ComputeHash(image) == image[HASH_AT..HASH_END]
  }

  function AddPattern(image: Image, pattern: Bytes): (Image, bool)
    requires |pattern| == PATTERN_SIZE
  {
    var count := Field32(image, PATTERN_COUNT_AT);
    if count >= MAX_PATTERNS then (image, false)
    else
      var learned := Put(image, PATTERNS_AT + PATTERN_SIZE * count, pattern);
      (Seal(Put(learned, PATTERN_COUNT_AT, Encode32(count + 1))), true)
  }

  /** None when the buffer is too short. */
  datatype Serialized = TooShort | Written(buffer: Bytes)

  /** Copies the record over the front of the buffer. */
  function Serialize(image: Image, buffer: Bytes): Serialized {
    if |buffer| < SIZE then TooShort else Written(image + buffer[SIZE..])
  }

  /** The record afterwards and whether the call succeeded. */
  function Deserialize(before: Image, buffer: Bytes): (Image, bool) {
    if |buffer| < SIZE then (before, false)
    else if Verify(buffer[..SIZE]) then (buffer[..SIZE], true)
    else (Zeros(SIZE), false)
  }

  // ----- the cycle -----------------------------------------------------------

  lemma SealShape(image: Image)
    ensures Seal(image)[..HASH_AT] == image[..HASH_AT]
    ensures Seal(image)[HASH_AT..HASH_END] == ComputeHash(image)
    ensures Seal(image)[HASH_END..] == image[HASH_END..]
  {
  }

  /** Sealing makes a record verifiable exactly when its header is right. */
  lemma SealedVerifies(image: Image)
    ensures Verify(Seal(image)) <==> Field32(image, 0) == 0x424F5444 && Field32(image, 4) == 1
  {
    hide Digest;
    SealShape(image);
  }

  lemma HeaderKept(image: Image, at: nat, data: Bytes)
    requires 8 <= at && at + |data| <= SIZE
    ensures Field32(Put(image, at, data), MAGIC_AT) == Field32(image, MAGIC_AT)
    ensures Field32(Put(image, at, data), VERSION_AT) == Field32(image, VERSION_AT)
  {
  }

  /** Learning keeps a verified record verified, and fails only when the pool is full. */
  lemma LearnKeepsVerified(image: Image, pattern: Bytes)
    requires |pattern| == PATTERN_SIZE && Verify(image)
    ensures Verify(AddPattern(image, pattern).0)
    ensures AddPattern(image, pattern).1 <==> Field32(image, PATTERN_COUNT_AT) < MAX_PATTERNS
  {
    hide Digest, Encode32, Field32, Put;
    var count := Field32(image, PATTERN_COUNT_AT);
    if count < MAX_PATTERNS {
      var learned := Put(image, PATTERNS_AT + PATTERN_SIZE * count, pattern);
      HeaderKept(image, PATTERNS_AT + PATTERN_SIZE * count, pattern);
      HeaderKept(learned, PATTERN_COUNT_AT, Encode32(count + 1));
      SealedVerifies(Put(learned, PATTERN_COUNT_AT, Encode32(count + 1)));
    }
  }

  /** A record read back from its serialized form is the record itself if it verifies, and is wiped
      if it does not. */
  lemma RoundTrip(image: Image, before: Image, buffer: Bytes)
    requires |buffer| >= SIZE
    ensures Serialize(image, buffer).Written?
    ensures Deserialize(before, Serialize(image, buffer).buffer)
            == if Verify(image) then (image, true) else (Zeros(SIZE), false)
  {
    hide Digest;
    assert (image + buffer[SIZE..])[..SIZE] == image;
  }

  /** What the seal covers ends with the hash itself: the health flag, the prime directives and the
      reserved bytes behind it do not influence verification. */
  lemma VerifyExtent(image: Image, other: Image)
    requires image[..HASH_END] == other[..HASH_END]
    ensures Verify(image) <==> Verify(other)
  {
    hide Digest;
    assert image[..HASH_AT] == image[..HASH_END][..HASH_AT] && other[..HASH_AT] == other[..HASH_END][..HASH_AT];
    assert image[HASH_AT..HASH_END] == image[..HASH_END][HASH_AT..];
    assert other[HASH_AT..HASH_END] == other[..HASH_END][HASH_AT..];
    forall k | 0 <= k < HASH_END
      ensures image[k] == other[k]
    {
      assert image[..HASH_END][k] == other[..HASH_END][k];
    }
  }

  /** Directives can be replaced under an intact seal. */
  lemma DirectivesNotSealed(image: Image, directives: Bytes)
    requires |directives| == DIRECTIVES_END - DIRECTIVES_AT
    ensures Verify(Put(image, DIRECTIVES_AT, directives)) <==> Verify(image)
  {
    hide Digest;
    VerifyExtent(Put(image, DIRECTIVES_AT, directives), image);
  }

  /** What the seal detects, when the fields in front of the hash are as they were in a verified record:
      any change of the hash field. */
  lemma HashChangeDetected(image: Image, other: Image)
    requires Verify(image) && other[..HASH_AT] == image[..HASH_AT]
    ensures Verify(other) <==> other[HASH_AT..HASH_END] == image[HASH_AT..HASH_END]
  {
    hide Digest;
    HeaderOf(image, other);
  }

  lemma HeaderOf(image: Image, other: Image)
    requires other[..HASH_AT] == image[..HASH_AT]
    ensures Field32(other, MAGIC_AT) == Field32(image, MAGIC_AT)
    ensures Field32(other, VERSION_AT) == Field32(image, VERSION_AT)
  {
    assert forall k :: 0 <= k < 8 ==> other[k] == other[..HASH_AT][k] && image[k] == image[..HASH_AT][k];
  }

  /** When the hash field is as it was in a verified record: any change in front of it, unless magic and version
      are kept and the two fronts, each of 4228 bytes, have one digest. */
  lemma AlterationIsCollision(image: Image, other: Image)
    requires Verify(image) && other[HASH_AT..HASH_END] == image[HASH_AT..HASH_END]
    ensures Verify(other) <==>
            && Field32(other, MAGIC_AT) == MAGIC && Field32(other, VERSION_AT) == VERSION
            && Digest(other[..HASH_AT]) == Digest(image[..HASH_AT])
  {
    hide Digest;
  }

  // ----- in place ------------------------------------------------------------

  class Dna {
    const image: array<Byte>

    ghost predicate Valid()
      reads this
    {
      image.Length == SIZE
    }

    /** Lines 112-122. The hashed length leaves 4 bytes in the last block, so the padding fits. */
    method Hash32() returns (digest: Bytes)
      requires Valid()
      ensures digest == ComputeHash(image[..])
    {
      hide Digest, Finish, Represents;
      var ctx := new Sha256Ctx();
      ctx.Update(image[..HASH_AT]);
      assert ctx.message == image[..HASH_AT] == image[..][..HASH_AT];
      CountInBlock(Step, IV, ctx.View(), ctx.message);
      digest := ctx.Final();
    }

    /** Lines 191-200 */
    method VerifyDna() returns (ok: bool)
      requires Valid()
      ensures ok == Verify(image[..])
    {
      hide Digest;
      var header := image[..8];
      if Field32(header, MAGIC_AT) != MAGIC {
        return false;
      }
      if Field32(header, VERSION_AT) != VERSION {
        return false;
      }
      var computed := Hash32();
      assert image[HASH_AT..HASH_END] == image[..][HASH_AT..HASH_END];
      return computed == image[HASH_AT..HASH_END];
    }

    /** Lines 202-213 */
    method Learn(pattern: Bytes) returns (ok: bool)
      requires Valid() && |pattern| == PATTERN_SIZE
      modifies image
      ensures (image[..], ok) == AddPattern(old(image[..]), pattern)
    {
      hide Digest, Encode32, Field32, Put, ComputeHash;
      var count := Field32(image[..], PATTERN_COUNT_AT);
      if count >= MAX_PATTERNS {
        return false;
      }
      CopyAt(PATTERNS_AT + PATTERN_SIZE * count, pattern);
      CopyAt(PATTERN_COUNT_AT, Encode32(count + 1));
      var digest := Hash32();
      CopyAt(HASH_AT, digest);
      return true;
    }

    method CopyAt(at: nat, data: Bytes)
      requires Valid() && at + |data| <= SIZE
      modifies image
      ensures image[..] == Put(old(image[..]), at, data)
    {
      for k := 0 to |data|
        invariant forall j :: 0 <= j < SIZE ==> image[j] == if at <= j < at + k then data[j - at] else old(image[j])
      {
        image[at + k] := data[k];
      }
    }
  }
}
