/** Feeding a message byte by byte through a 64-byte buffer, for any block function: the
    buffering of sha256_update in bot-baremetal/core/bot_dna.c. */
module BlockStream {

  const U64: int := 0x1_0000_0000_0000_0000

  /** A uint64_t counter. */
  function Wrap(n: nat): nat {
    n % U64
  }

  /** A block function; it is only ever given blocks of 64. */
  type BlockFunction<!S, !T> = (S, seq<T>) -> S

  datatype Context<S, T> = Context(state: S, count: nat, buf: seq<T>)

  /** One byte of `sha256_update`. */
  function Push<S, T>(step: BlockFunction<S, T>, c: Context<S, T>, b: T): Context<S, T>
    requires |c.buf| == 64
  {
    var j := c.count % 64;
    var buf := c.buf[j := b];
    Context(if j == 63 then step(c.state, buf) else c.state, Wrap(c.count + 1), buf)
  }

  function Update<S, T>(step: BlockFunction<S, T>, c: Context<S, T>, data: seq<T>): (c': Context<S, T>)
    requires |c.buf| == 64
    ensures |c'.buf| == 64
  {
    if data == [] then c else Push(step, Update(step, c, data[..|data| - 1]), data[|data| - 1])
  }

  /** The block function over all blocks of a padded message. */
  function Fold<S, T>(step: BlockFunction<S, T>, s: S, blocks: seq<T>): S
    requires |blocks| % 64 == 0
  {
    if blocks == [] then s
    else step(Fold(step, s, blocks[..|blocks| - 64]), blocks[|blocks| - 64..])
  }

  /** Folding one block is one application; folding a division of the blocks is folding on from the first part. */
  lemma FoldOne<S, T>(step: BlockFunction<S, T>, s: S, block: seq<T>)
    requires |block| == 64
    ensures Fold(step, s, []) == s && Fold(step, s, block) == step(s, block)
  {
    assert block[..0] == [] && block[0..] == block;
  }

  lemma {:induction false} FoldConcat<S, T>(step: BlockFunction<S, T>, s: S, a: seq<T>, b: seq<T>)
    requires |a| % 64 == 0 && |b| % 64 == 0
    ensures |a + b| % 64 == 0 && Fold(step, s, a + b) == Fold(step, Fold(step, s, a), b)
  {
    if b == [] {
      assert a + b == a;
    } else {
      assert (a + b)[..|a + b| - 64] == a + b[..|b| - 64] && (a + b)[|a + b| - 64..] == b[|b| - 64..];
      FoldConcat(step, s, a, b[..|b| - 64]);
    }
  }

  /** The length of the complete blocks. */
  function Whole(n: nat): (w: nat)
    ensures w <= n && w % 64 == 0
  {
    n - n % 64
  }

  /** The length of the rest. */
  function Rest(n: nat): (j: nat)
    ensures j < 64 && j <= n
  {
    n % 64
  }

  /** State: the fold over the complete blocks. Buffer: the remainder. Count: the length. */
  ghost predicate Represents<S, T>(step: BlockFunction<S, T>, iv: S, c: Context<S, T>, message: seq<T>) {
    && |c.buf| == 64
    && c.count == Wrap(|message|)
    && c.state == Fold(step, iv, message[..Whole(|message|)])
    && c.buf[..Rest(|message|)] == message[Whole(|message|)..]
  }

  lemma CountMod64(n: nat)
    ensures Wrap(n) % 64 == n % 64
  {
    var q, r := n / U64, n % U64;
    assert n == 64 * (q * 0x400_0000_0000_0000) + r;
    Remainder(r, q * 0x400_0000_0000_0000);
  }

  lemma Remainder(r: nat, k: nat)
    ensures (64 * k + r) % 64 == r % 64
  {
    var x := 64 * k + r;
    assert x == 64 * (k + r / 64) + r % 64 && x == 64 * (x / 64) + x % 64;
    assert 64 * (x / 64 - k - r / 64) == r % 64 - x % 64;
  }

  lemma CountNext(n: nat)
    ensures Wrap(Wrap(n) + 1) == Wrap(n + 1)
  {
  }

  lemma CountSum(m: nat, n: nat)
    ensures Wrap(Wrap(m) + n) == Wrap(m + n)
  {
    var q := m / U64;
    assert m == U64 * q + m % U64;
    assert (m + n) - (m % U64 + n) == U64 * q;
    assert (m + n) / U64 == q + (m % U64 + n) / U64;
  }

  lemma BufferNext<T>(buf: seq<T>, message: seq<T>, b: T)
    requires |buf| == 64 && buf[..Rest(|message|)] == message[Whole(|message|)..]
    ensures var j := Rest(|message|);
            buf[j := b][..j + 1] == (message + [b])[Whole(|message|)..]
  {
    var j := |message| % 64;
    assert buf[j := b][..j + 1] == buf[..j] + [b];
    assert (message + [b])[Whole(|message|)..] == message[Whole(|message|)..] + [b];
  }

  lemma WholeNext(n: nat)
    ensures n % 64 == 63 ==> Whole(n + 1) == n + 1 == Whole(n) + 64
    ensures n % 64 < 63 ==> Whole(n + 1) == Whole(n) && (n + 1) % 64 == n % 64 + 1
  {
  }

  lemma BlockDone<S, T>(step: BlockFunction<S, T>, iv: S, s: S, message: seq<T>, b: T, block: seq<T>)
    requires |message| % 64 == 63 && s == Fold(step, iv, message[..Whole(|message|)])
    requires |block| == 64 && block == (message + [b])[Whole(|message|)..]
    ensures step(s, block) == Fold(step, iv, (message + [b])[..Whole(|message| + 1)])
  {
    WholeNext(|message|);
    var m' := (message + [b])[..|message| + 1];
    assert m' == message + [b];
    assert m'[..|m'| - 64] == message[..Whole(|message|)];
    assert m'[|m'| - 64..] == block;
  }

  lemma PushRepresents<S, T>(step: BlockFunction<S, T>, iv: S, c: Context<S, T>, message: seq<T>, b: T)
    requires Represents(step, iv, c, message)
    ensures Represents(step, iv, Push(step, c, b), message + [b])
  {
    CountMod64(|message|);
    CountNext(|message|);
    hide Wrap, Fold, Whole;
    PushState(step, iv, c, message, b);
    PushBuffer(c.buf, message, b);
  }

  lemma PushState<S, T>(step: BlockFunction<S, T>, iv: S, c: Context<S, T>, message: seq<T>, b: T)
    requires |c.buf| == 64 && c.count % 64 == |message| % 64
    requires c.state == Fold(step, iv, message[..Whole(|message|)])
    requires c.buf[..Rest(|message|)] == message[Whole(|message|)..]
    ensures Push(step, c, b).state == Fold(step, iv, (message + [b])[..Whole(|message + [b]|)])
  {
    WholeNext(|message|);
    var j := |message| % 64;
    var buf := c.buf[j := b];
    if j == 63 {
      BufferNext(c.buf, message, b);
      assert buf[..64] == buf;
      BlockDone(step, iv, c.state, message, b, buf);
    } else {
      assert (message + [b])[..Whole(|message|)] == message[..Whole(|message|)];
    }
  }

  lemma PushBuffer<T>(buf: seq<T>, message: seq<T>, b: T)
    requires |buf| == 64 && buf[..Rest(|message|)] == message[Whole(|message|)..]
    ensures var m' := message + [b];
            buf[Rest(|message|) := b][..Rest(|m'|)] == m'[Whole(|m'|)..]
  {
    WholeNext(|message|);
    BufferNext(buf, message, b);
  }

  lemma {:induction false} UpdateRepresents<S, T>(step: BlockFunction<S, T>, iv: S, c: Context<S, T>,
                                                 message: seq<T>, data: seq<T>)
    requires Represents(step, iv, c, message)
    ensures Represents(step, iv, Update(step, c, data), message + data)
  {
    if data == [] {
      assert message + data == message;
    } else {
      var init, last := data[..|data| - 1], data[|data| - 1];
      UpdateRepresents(step, iv, c, message, init);
      PushRepresents(step, iv, Update(step, c, init), message + init, last);
      assert (message + init) + [last] == message + data;
    }
  }

  lemma CountIsLength<S, T>(step: BlockFunction<S, T>, iv: S, c: Context<S, T>, message: seq<T>)
    requires Represents(step, iv, c, message)
    ensures c.count == Wrap(|message|)
  {
  }

  lemma CountInBlock<S, T>(step: BlockFunction<S, T>, iv: S, c: Context<S, T>, message: seq<T>)
    requires Represents(step, iv, c, message)
    ensures c.count % 64 == |message| % 64
  {
    CountMod64(|message|);
  }

  lemma CountsAdd<S, T>(step: BlockFunction<S, T>, iv: S, c: Context<S, T>, c': Context<S, T>,
                        message: seq<T>, data: seq<T>)
    requires Represents(step, iv, c, message) && Represents(step, iv, c', message + data)
    ensures c'.count == Wrap(c.count + |data|)
  {
    CountIsLength(step, iv, c, message);
    CountIsLength(step, iv, c', message + data);
    assert |message + data| == |message| + |data|;
    hide Wrap, Represents;
    CountSum(|message|, |data|);
  }

  /** An update extends the message and raises the counter by the length of its data. */
  lemma UpdateExtends<S, T>(step: BlockFunction<S, T>, iv: S, c: Context<S, T>, message: seq<T>, data: seq<T>)
    requires Represents(step, iv, c, message)
    ensures Represents(step, iv, Update(step, c, data), message + data)
    ensures Update(step, c, data).count == Wrap(c.count + |data|)
  {
    UpdateRepresents(step, iv, c, message, data);
    CountsAdd(step, iv, c, Update(step, c, data), message, data);
  }

  lemma UpdateNext<S, T>(step: BlockFunction<S, T>, c: Context<S, T>, data: seq<T>, i: nat)
    requires |c.buf| == 64 && i < |data|
    ensures Update(step, c, data[..0]) == c
    ensures Update(step, c, data[..i + 1]) == Push(step, Update(step, c, data[..i]), data[i])
  {
    assert data[..i + 1][..i] == data[..i];
  }

  /** One byte: it goes to the next place of the buffer, and a full buffer is given to the block function. */
  lemma PushAt<S, T>(step: BlockFunction<S, T>, c: Context<S, T>, b: T)
    requires |c.buf| == 64
    ensures var c', j, buf := Push(step, c, b), c.count % 64, c.buf[c.count % 64 := b];
            && c'.state == (if j == 63 then step(c.state, buf) else c.state)
            && c'.buf == buf
            && c'.count % 64 == if j == 63 then 0 else j + 1
  {
    CountMod64(c.count + 1);
    NextInBlock(c.count);
    hide Wrap;
    assert Push(step, c, b).count == Wrap(c.count + 1);
  }

  lemma NextInBlock(n: nat)
    ensures n % 64 < 64 && (n + 1) % 64 == if n % 64 == 63 then 0 else n % 64 + 1
  {
    WholeNext(n);
  }

  function Concat<T>(chunks: seq<seq<T>>): seq<T> {
    if chunks == [] then [] else Concat(chunks[..|chunks| - 1]) + chunks[|chunks| - 1]
  }

  function UpdateAll<S, T>(step: BlockFunction<S, T>, c: Context<S, T>, chunks: seq<seq<T>>): (c': Context<S, T>)
    requires |c.buf| == 64
    ensures |c'.buf| == 64
  {
    if chunks == [] then c
    else Update(step, UpdateAll(step, c, chunks[..|chunks| - 1]), chunks[|chunks| - 1])
  }

  lemma EmptyRepresents<S, T>(step: BlockFunction<S, T>, iv: S, buf: seq<T>)
    requires |buf| == 64
    ensures Represents(step, iv, Context(iv, 0, buf), [])
  {
  }

  /** Any way of cutting a message into update calls leaves a context that represents it. */
  lemma {:induction false} ChunksRepresent<S, T>(step: BlockFunction<S, T>, iv: S, buf: seq<T>, chunks: seq<seq<T>>)
    requires |buf| == 64
    ensures Represents(step, iv, UpdateAll(step, Context(iv, 0, buf), chunks), Concat(chunks))
  {
    if chunks == [] {
      EmptyRepresents(step, iv, buf);
    } else {
      var init := chunks[..|chunks| - 1];
      ChunksRepresent(step, iv, buf, init);
      UpdateRepresents(step, iv, UpdateAll(step, Context(iv, 0, buf), init), Concat(init), chunks[|chunks| - 1]);
    }
  }

  /** Once the length is a multiple of 64 the state is the fold over everything. */
  lemma WholeMessage<S, T>(step: BlockFunction<S, T>, iv: S, c: Context<S, T>, message: seq<T>)
    requires Represents(step, iv, c, message) && |message| % 64 == 0
    ensures c.state == Fold(step, iv, message)
  {
    assert message[..|message|] == message;
  }
}
