/** SHA-256 as FIPS 180-4 defines it (sections 4.1.2, 5.1.1, 5.2.1, 5.3.3 and 6.2), and its
    agreement with the streaming form of bot-baremetal/core/bot_dna.c. */
module Sha256 {
  import opened BlockStream

  type Word = bv32
  type Byte = bv8
  type Bytes = seq<bv8>

  /** Section 4.2.2 */
  function RoundConstant(t: nat): Word
    requires t < 64
  {
    match t
    case 0 => 0x428a2f98
    case 1 => 0x71374491
    case 2 => 0xb5c0fbcf
    case 3 => 0xe9b5dba5
    case 4 => 0x3956c25b
    case 5 => 0x59f111f1
    case 6 => 0x923f82a4
    case 7 => 0xab1c5ed5
    case 8 => 0xd807aa98
    case 9 => 0x12835b01
    case 10 => 0x243185be
    case 11 => 0x550c7dc3
    case 12 => 0x72be5d74
    case 13 => 0x80deb1fe
    case 14 => 0x9bdc06a7
    case 15 => 0xc19bf174
    case 16 => 0xe49b69c1
    case 17 => 0xefbe4786
    case 18 => 0x0fc19dc6
    case 19 => 0x240ca1cc
    case 20 => 0x2de92c6f
    case 21 => 0x4a7484aa
    case 22 => 0x5cb0a9dc
    case 23 => 0x76f988da
    case 24 => 0x983e5152
    case 25 => 0xa831c66d
    case 26 => 0xb00327c8
    case 27 => 0xbf597fc7
    case 28 => 0xc6e00bf3
    case 29 => 0xd5a79147
    case 30 => 0x06ca6351
    case 31 => 0x14292967
    case 32 => 0x27b70a85
    case 33 => 0x2e1b2138
    case 34 => 0x4d2c6dfc
    case 35 => 0x53380d13
    case 36 => 0x650a7354
    case 37 => 0x766a0abb
    case 38 => 0x81c2c92e
    case 39 => 0x92722c85
    case 40 => 0xa2bfe8a1
    case 41 => 0xa81a664b
    case 42 => 0xc24b8b70
    case 43 => 0xc76c51a3
    case 44 => 0xd192e819
    case 45 => 0xd6990624
    case 46 => 0xf40e3585
    case 47 => 0x106aa070
    case 48 => 0x19a4c116
    case 49 => 0x1e376c08
    case 50 => 0x2748774c
    case 51 => 0x34b0bcb5
    case 52 => 0x391c0cb3
    case 53 => 0x4ed8aa4a
    case 54 => 0x5b9cca4f
    case 55 => 0x682e6ff3
    case 56 => 0x748f82ee
    case 57 => 0x78a5636f
    case 58 => 0x84c87814
    case 59 => 0x8cc70208
    case 60 => 0x90befffa
    case 61 => 0xa4506ceb
    case 62 => 0xbef9a3f7
    case _ => 0xc67178f2
  }

  datatype Hash = Hash(a: Word, b: Word, c: Word, d: Word, e: Word, f: Word, g: Word, h: Word)

  const IV: Hash := Hash(0x6a09e667, 0xbb67ae85, 0x3c6ef372, 0xa54ff53a, 0x510e527f, 0x9b05688c, 0x1f83d9ab, 0x5be0cd19)

  // ----- section 4.1.2 -------------------------------------------------------

  function BigS0(x: Word): Word {
    ((x >> 2) | (x << 30)) ^ ((x >> 13) | (x << 19)) ^ ((x >> 22) | (x << 10))
  }

  function BigS1(x: Word): Word {
    ((x >> 6) | (x << 26)) ^ ((x >> 11) | (x << 21)) ^ ((x >> 25) | (x << 7))
  }

  function SmallS0(x: Word): Word {
    ((x >> 7) | (x << 25)) ^ ((x >> 18) | (x << 14)) ^ (x >> 3)
  }

  function SmallS1(x: Word): Word {
    ((x >> 17) | (x << 15)) ^ ((x >> 19) | (x << 13)) ^ (x >> 10)
  }

  function Ch(x: Word, y: Word, z: Word): Word {
    (x & y) ^ (!x & z)
  }

  function Maj(x: Word, y: Word, z: Word): Word {
    (x & y) ^ (x & z) ^ (y & z)
  }

  // ----- section 6.2.2: one block --------------------------------------------

  function BlockWord(block: Bytes, t: nat): Word
    requires |block| == 64 && t < 16
  {
    ((block[4 * t] as Word) << 24) | ((block[4 * t + 1] as Word) << 16)
    | ((block[4 * t + 2] as Word) << 8) | (block[4 * t + 3] as Word)
  }

  /** The message schedule. */
  function Schedule(block: Bytes, t: nat): Word
    requires |block| == 64
  {
    if t < 16 then BlockWord(block, t)
    else Extend(Schedule(block, t - 2), Schedule(block, t - 7), Schedule(block, t - 15), Schedule(block, t - 16))
  }

  function Extend(w2: Word, w7: Word, w15: Word, w16: Word): Word {
    SmallS1(w2) + w7 + SmallS0(w15) + w16
  }

  function Temp1(e: Word, f: Word, g: Word, h: Word, k: Word, w: Word): Word {
    h + BigS1(e) + Ch(e, f, g) + k + w
  }

  function Temp2(a: Word, b: Word, c: Word): Word {
    BigS0(a) + Maj(a, b, c)
  }

  function Plus(x: Word, y: Word): Word {
    x + y
  }

  function Round(v: Hash, k: Word, w: Word): Hash {
    var t1 := Temp1(v.e, v.f, v.g, v.h, k, w);
    Hash(Plus(t1, Temp2(v.a, v.b, v.c)), v.a, v.b, v.c, Plus(v.d, t1), v.e, v.f, v.g)
  }

  function Rounds(v: Hash, block: Bytes, n: nat): Hash
    requires |block| == 64 && n <= 64
  {
    if n == 0 then v else Round(Rounds(v, block, n - 1), RoundConstant(n - 1), Schedule(block, n - 1))
  }

  function Add(s: Hash, v: Hash): Hash {
    Hash(Plus(s.a, v.a), Plus(s.b, v.b), Plus(s.c, v.c), Plus(s.d, v.d),
         Plus(s.e, v.e), Plus(s.f, v.f), Plus(s.g, v.g), Plus(s.h, v.h))
  }

  function Compress(s: Hash, block: Bytes): Hash
    requires |block| == 64
  {
    Add(s, Rounds(s, block, 64))
  }

  // ----- padding, blocks and the digest --------------------------------------

  function Zeros(n: nat): (z: Bytes)
    ensures |z| == n && forall i :: 0 <= i < n ==> z[i] == 0
  {
    seq(n, _ => 0)
  }

  function Pow256(n: nat): (p: nat)
    ensures p > 0
  {
    if n == 0 then 1 else 256 * Pow256(n - 1)
  }

  /** The i-th byte of a 64-bit big-endian number. */
  function LengthByte(bits: nat, i: nat): Byte
    requires i < 8
  {
    ((bits / Pow256(7 - i)) % 256) as Byte
  }

  function LengthBytes(bits: nat): (l: Bytes)
    ensures |l| == 8
  {
    seq(8, i requires 0 <= i < 8 => LengthByte(bits, i))
  }

  /** The number of zero bytes: the least one that leaves eight bytes to a block boundary. */
  function ZeroCount(length: nat): (z: nat)
    ensures (length + 1 + z) % 64 == 56
    ensures z < 64
  {
    (55 - length) % 64
  }

  lemma ZeroCountIsLeast(length: nat, y: nat)
    requires (length + 1 + y) % 64 == 56
    ensures ZeroCount(length) <= y
  {
  }

  /** Section 5.1.1 */
  function Pad(message: Bytes): (padded: Bytes)
    ensures |padded| % 64 == 0
  {
    message + [0x80] + Zeros(ZeroCount(|message|)) + LengthBytes(8 * |message|)
  }

  /** Compress as a total function. */
  function Step(s: Hash, block: Bytes): Hash {
    if |block| == 64 then Compress(s, block) else s
  }

  function WordBytes(w: Word): (b: Bytes)
    ensures |b| == 4
  {
    [((w >> 24) & 0xff) as Byte, ((w >> 16) & 0xff) as Byte, ((w >> 8) & 0xff) as Byte, (w & 0xff) as Byte]
  }

  function Output(s: Hash): (d: Bytes)
    ensures |d| == 32
  {
    WordBytes(s.a) + WordBytes(s.b) + WordBytes(s.c) + WordBytes(s.d)
    + WordBytes(s.e) + WordBytes(s.f) + WordBytes(s.g) + WordBytes(s.h)
  }

  function Digest(message: Bytes): (d: Bytes)
    ensures |d| == 32
  {
    Output(Fold(Step, IV, Pad(message)))
  }

  // ----- the streaming form --------------------------------------------------

  type Stream = Context<Hash, Byte>

  /** `plen` of `sha256_final`. */
  function PadLength(count: nat): nat {
    var j := count % 64;
    if j < 56 then 56 - j else 120 - j
  }

  /** The bytes `sha256_final` feeds back: its `pad` array has 64 places for them. */
  function Padding(count: nat): (p: Bytes)
    ensures |p| == PadLength(count) + 8
  {
    [0x80] + Zeros(PadLength(count) - 1) + LengthBytes((count * 8) % U64)
  }

  /** They fit the array exactly when fewer than 56 bytes are buffered. */
  lemma PaddingFitsExact(count: nat)
    ensures |Padding(count)| <= 64 <==> count % 64 < 56
  {
  }

  function Finish(c: Stream): Bytes
    requires |c.buf| == 64
  {
    Output(Update(Step, c, Padding(c.count)).state)
  }

  lemma PadLengthIs(count: nat)
    ensures PadLength(count) - 1 == ZeroCount(count)
  {
  }

  lemma Small(n: nat)
    requires n < U64
    ensures n % U64 == n
  {
  }

  /** Padding by the count is padding by the length of the message. */
  lemma PaddingIsPad(message: Bytes)
    requires 8 * |message| < U64
    ensures message + Padding(|message|) == Pad(message)
  {
    PadLengthIs(|message|);
    Small(8 * |message|);
  }

  lemma FinishIsDigest(c: Stream, message: Bytes)
    requires Represents(Step, IV, c, message) && 8 * |message| < U64
    ensures Finish(c) == Digest(message)
  {
    Small(|message|);
    PaddingIsPad(message);
    UpdateRepresents(Step, IV, c, message, Padding(|message|));
    WholeMessage(Step, IV, Update(Step, c, Padding(|message|)), Pad(message));
  }

  /** However a message is cut into update calls, the streamed digest is the one-shot digest. */
  lemma StreamedIsOneShot(buf: Bytes, chunks: seq<Bytes>)
    requires |buf| == 64 && 8 * |Concat(chunks)| < U64
    ensures Finish(UpdateAll(Step, Context(IV, 0, buf), chunks)) == Digest(Concat(chunks))
  {
    ChunksRepresent(Step, IV, buf, chunks);
    FinishIsDigest(UpdateAll(Step, Context(IV, 0, buf), chunks), Concat(chunks));
  }
}
