/** The streaming context as it runs (bot-baremetal/core/bot_dna.c, 19-104): state, counter and
    buffer updated in place, proved against Sha256 and BlockStream. */
module Sha256Context {
  import opened BlockStream
  import opened Sha256

  class Sha256Ctx {
    /** the eight words of `state` */
    var state: Hash
    const buf: array<Byte>
    var count: nat
    /** everything fed in so far */
    ghost var message: Bytes

    ghost function View(): Stream
      reads this, buf
    {
      Context(state, count, buf[..])
    }

    ghost predicate Valid()
      reads this, buf
    {
      buf.Length == 64 && Represents(Step, IV, View(), message)
    }

    /** Lines 72-78 */
    constructor ()
      ensures Valid() && message == [] && fresh(buf)
    {
      hide Represents, Step;
      state := IV;
      buf := new Byte[64];
      count := 0;
      message := [];
      new;
      EmptyRepresents(Step, IV, buf[..]);
    }

    /** Lines 52-70 */
    method Transform()
      requires buf.Length == 64
      modifies this`state
      ensures state == Compress(old(state), buf[..])
    {
      var block := buf[..];
      var w := ExpandBlock(block);
      hide Rounds, Plus;
      var v := RunRounds(state, w, block);
      state := Hash(Plus(state.a, v.a), Plus(state.b, v.b), Plus(state.c, v.c), Plus(state.d, v.d),
                    Plus(state.e, v.e), Plus(state.f, v.f), Plus(state.g, v.g), Plus(state.h, v.h));
    }

    /** Lines 80-87 */
    method Update(data: Bytes)
      requires Valid()
      modifies this, buf
      ensures Valid() && message == old(message) + data
      ensures View() == BlockStream.Update(Step, old(View()), data)
    {
      hide Represents, Step, BlockStream.Update, Wrap;
      ghost var start := View();
      ghost var end := BlockStream.Update(Step, start, data);
      UpdateExtends(Step, IV, start, message, data);
      var j := count % 64;
      count := Wrap(count + |data|);
      Feed(data, j, start, end);
      message := message + data;
      assert View() == end;
    }

    /** The loop over the bytes, lines 83-86. `c` is the context before the counter was raised. */
    method Feed(data: Bytes, start: nat, ghost c: Stream, ghost end: Stream)
      requires buf.Length == 64 && c.state == state && c.buf == buf[..] && start == c.count % 64
      requires end == BlockStream.Update(Step, c, data)
      modifies this`state, buf
      ensures state == end.state && buf[..] == end.buf
    {
      hide Compress, Step, Push;
      var j := start;
      ghost var fed := c;
      assert data[..0] == [];
      for i := 0 to |data|
        invariant fed == BlockStream.Update(Step, c, data[..i])
        invariant fed.state == state && fed.buf == buf[..] && fed.count % 64 == j
      {
        UpdateNext(Step, c, data, i);
        PushAt(Step, fed, data[i]);
        fed := Push(Step, fed, data[i]);
        ghost var before := buf[..];
        buf[j] := data[i];
        assert buf[..] == before[j := data[i]];
        j := j + 1;
        if j == 64 {
          StepIs(state, buf[..]);
          Transform();
          j := 0;
        }
      }
      assert data[..|data|] == data;
    }

    /** Lines 89-104. The padding needs a buffer of fewer than 56 bytes, see BuildPad. */
    method Final() returns (digest: Bytes)
      requires Valid() && count % 64 < 56
      modifies this, buf
      ensures digest == Finish(old(View()))
      ensures 8 * |old(message)| < U64 ==> digest == Digest(old(message))
    {
      hide Output, Padding;
      if 8 * |message| < U64 {
        FinishIsDigest(View(), message);
      }
      var pad := BuildPad(count);
      Update(pad);
      digest := Output(state);
    }
  }

  // ----- helpers -------------------------------------------------------------

  /** Lines 90-96. The `pad` array has 64 places, which is enough exactly when fewer than 56 bytes
      are buffered (see PaddingFitsExact); up to 72 would be written otherwise. */
  method BuildPad(count: nat) returns (p: Bytes)
    requires count % 64 < 56
    ensures p == Padding(count)
  {
    hide LengthByte;
    var bits := (count * 8) % U64;
    var pad := new Byte[64];
    var j := count % 64;
    pad[0] := 0x80;
    var plen := if j < 56 then 56 - j else 120 - j;
    for i := 1 to plen
      invariant pad[0] == 0x80 && forall k :: 1 <= k < i ==> pad[k] == 0
    {
      pad[i] := 0;
    }
    for i := 0 to 8
      invariant pad[0] == 0x80 && forall k :: 1 <= k < plen ==> pad[k] == 0
      invariant forall k :: 0 <= k < i ==> pad[plen + k] == LengthByte(bits, k)
    {
      pad[plen + i] := LengthByte(bits, i);
    }
    p := pad[..plen + 8];
    forall k | 0 <= k < plen + 8
      ensures p[k] == Padding(count)[k]
    {
      if plen <= k {
        assert pad[plen + (k - plen)] == LengthByte(bits, k - plen);
      }
    }
  }

  /** Lines 55-59 */
  method ExpandBlock(block: Bytes) returns (w: seq<Word>)
    requires |block| == 64
    ensures |w| == 64 && forall t :: 0 <= t < 64 ==> w[t] == Schedule(block, t)
  {
    hide BlockWord, Extend;
    w := [];
    for i := 0 to 16
      invariant |w| == i && forall t :: 0 <= t < i ==> w[t] == Schedule(block, t)
    {
      w := w + [BlockWord(block, i)];
    }
    for i := 16 to 64
      invariant |w| == i && forall t :: 0 <= t < i ==> w[t] == Schedule(block, t)
    {
      w := w + [Extend(w[i - 2], w[i - 7], w[i - 15], w[i - 16])];
    }
  }

  lemma StepIs(s: Hash, block: Bytes)
    requires |block| == 64
    ensures Step(s, block) == Compress(s, block)
  {
    hide Compress;
  }

  /** Lines 60-67 */
  method RunRounds(s: Hash, w: seq<Word>, ghost block: Bytes) returns (v: Hash)
    requires |block| == 64 && |w| == 64 && forall t :: 0 <= t < 64 ==> w[t] == Schedule(block, t)
    ensures v == Rounds(s, block, 64)
  {
    hide Temp1, Temp2, Plus, Schedule, RoundConstant;
    var a, b, c, d, e, f, g, h := s.a, s.b, s.c, s.d, s.e, s.f, s.g, s.h;
    for i := 0 to 64
      invariant Hash(a, b, c, d, e, f, g, h) == Rounds(s, block, i)
    {
      var t1 := Temp1(e, f, g, h, RoundConstant(i), w[i]);
      var t2 := Temp2(a, b, c);
      h := g;
      g := f;
      f := e;
      e := Plus(d, t1);
      d := c;
      c := b;
      b := a;
      a := Plus(t1, t2);
    }
    return Hash(a, b, c, d, e, f, g, h);
  }
}
