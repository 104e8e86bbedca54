/**
 The streaming SHA-256 of ngx_http_brotli_sha256.h: a hash state, a 64-byte block of input still to
 be compressed, and a byte count, all updated in place.
 */
module Sha256 {
  import opened Arith
  import opened Octets
  import opened Sha256Spec

  class Context {
    var state: array<Word>
    var total: nat           // message length so far, a uint64_t
    var block: array<byte>   // pending partial block
    var blockLen: nat

    ghost var message: seq<byte>   // everything given so far

    ghost predicate Shaped()
      reads this
    {
      state.Length == 8 && block.Length == 64 && blockLen <= 64
    }

    /** The state covers the first `done` bytes of `whole`, a number of full blocks. */
    ghost predicate Covers(whole: seq<byte>, done: nat)
      requires state.Length == 8
      reads this`state, state
    {
      hide Blocks;
      done % 64 == 0 && done <= |whole| && state[..] == Blocks(H0, whole[..done])
    }

    /** The state covers every full block of the message; the block holds the tail. */
    ghost predicate Valid()
      reads this, state, block
    {
      && Shaped()
      && total == |message| % TWO64
      && blockLen < 64 && blockLen <= |message|
      && Covers(message, |message| - blockLen)
      && block[..blockLen] == message[|message| - blockLen..]
    }

    constructor ()
      ensures Valid() && message == [] && fresh(state) && fresh(block)
    {
      state := new Word[8];
      block := new byte[64];
      new;
      Init();
    }

    method Init()
      requires state.Length == 8 && block.Length == 64
      modifies this`total, this`blockLen, this`message, state
      ensures Valid() && message == []
    {
      state[0] := 0x6a09e667;
      state[1] := 0xbb67ae85;
      state[2] := 0x3c6ef372;
      state[3] := 0xa54ff53a;
      state[4] := 0x510e527f;
      state[5] := 0x9b05688c;
      state[6] := 0x1f83d9ab;
      state[7] := 0x5be0cd19;
      total := 0;
      blockLen := 0;
      message := [];
      hide Blocks;
      NoBlocks(H0);
      assert state[..] == H0;
      assert message[..0] == [];
    }

    /** One block into the state. */
    method Compress(p: seq<byte>)
      requires state.Length == 8 && |p| == 64
      modifies state
      ensures state[..] == Sha256Spec.Compress(old(state[..]), p)
    {
      hide Rounds, Schedule, Plus;
      ghost var h := state[..];
      var v := RunRounds(p, Vars(state[0], state[1], state[2], state[3], state[4], state[5], state[6], state[7]));
      state[0] := Plus(state[0], v.a);
      state[1] := Plus(state[1], v.b);
      state[2] := Plus(state[2], v.c);
      state[3] := Plus(state[3], v.d);
      state[4] := Plus(state[4], v.e);
      state[5] := Plus(state[5], v.f);
      state[6] := Plus(state[6], v.g);
      state[7] := Plus(state[7], v.h);
      assert state[..] == AddVars(h, v);
    }

    lemma CoversMore(m: seq<byte>, whole: seq<byte>, done: nat)
      requires state.Length == 8 && Covers(m, done) && m <= whole
      ensures Covers(whole, done)
    {
      assert whole[..done] == m[..done];
    }

    /** The next full block of `whole` goes into the state. */
    method Absorb(ghost whole: seq<byte>, ghost done: nat, p: seq<byte>)
      requires state.Length == 8 && Covers(whole, done) && done + 64 <= |whole| && p == whole[done..done + 64]
      modifies state
      ensures Covers(whole, done + 64)
    {
      hide Sha256Spec.Compress, Blocks;
      NextBlock(H0, whole, done);
      Compress(p);
    }

    /** Copies bytes into the pending block at `at`. */
    method Copy(at: nat, data: seq<byte>)
      requires block.Length == 64 && at + |data| <= 64
      modifies block
      ensures block[..at + |data|] == old(block[..at]) + data
    {
      forall k | 0 <= k < |data| {
        block[at + k] := data[k];
      }
    }

    /** Fills the pending block as far as the data goes. */
    method Fill(data: seq<byte>, ghost whole: seq<byte>, ghost done: nat) returns (n: nat)
      requires Shaped() && blockLen < 64 && done + blockLen + |data| == |whole|
      requires block[..blockLen] == whole[done..done + blockLen] && data == whole[done + blockLen..]
      modifies this`blockLen, block
      ensures n <= |data| && blockLen == old(blockLen) + n <= 64 && (blockLen == 64 || n == |data|)
      ensures block[..blockLen] == whole[done..done + blockLen] && data[n..] == whole[done + blockLen..]
    {
      n := 64 - blockLen;
      if n > |data| {
        n := |data|;
      }
      Continued(whole, done + blockLen, done, n);
      Copy(blockLen, data[..n]);
      blockLen := blockLen + n;
    }

    /** Full blocks straight from the data, the rest into the pending block. */
    method Stream(data: seq<byte>, ghost whole: seq<byte>, ghost start: nat)
      requires Shaped() && blockLen == 0 && Covers(whole, start) && data == whole[start..]
      modifies this`blockLen, state, block
      ensures blockLen < 64 && blockLen <= |whole| && Covers(whole, |whole| - blockLen)
      ensures block[..blockLen] == whole[|whole| - blockLen..]
    {
      hide Blocks;
      var rest := data;
      ghost var done: nat := start;
      while |rest| >= 64
        invariant blockLen == 0 && Covers(whole, done) && rest == whole[done..]
      {
        Absorb(whole, done, rest[..64]);
        rest := rest[64..];
        done := done + 64;
      }
      if |rest| != 0 {
        Copy(0, rest);
        blockLen := |rest|;
      }
    }

    /** Brings a partly filled block to its end, if the data goes that far; returns what is left. */
    method TopUp(data: seq<byte>, ghost whole: seq<byte>, ghost done: nat) returns (more: bool, rest: seq<byte>)
      requires Shaped() && 0 < blockLen < 64 && Covers(whole, done) && done + blockLen + |data| == |whole|
      requires block[..blockLen] == whole[done..done + blockLen] && data == whole[done + blockLen..]
      modifies this`blockLen, state, block
      ensures if more then blockLen == 0 && done + 64 <= |whole| && Covers(whole, done + 64) && rest == whole[done + 64..]
              else blockLen < 64 && done + blockLen == |whole| && Covers(whole, done) && block[..blockLen] == whole[done..]
    {
      hide Blocks;
      var n := Fill(data, whole, done);
      if blockLen < 64 {
        return false, [];
      }
      Absorb(whole, done, block[..]);
      blockLen := 0;
      return true, data[n..];
    }

    /** Takes in everything of `whole` after what is covered and pending. */
    method TakeIn(data: seq<byte>, ghost whole: seq<byte>, ghost done: nat)
      requires Shaped() && blockLen < 64 && Covers(whole, done) && done + blockLen + |data| == |whole|
      requires block[..blockLen] == whole[done..done + blockLen] && data == whole[done + blockLen..]
      modifies this`blockLen, state, block
      ensures blockLen < 64 && blockLen <= |whole| && Covers(whole, |whole| - blockLen)
      ensures block[..blockLen] == whole[|whole| - blockLen..]
    {
      hide Covers, Blocks;
      if blockLen != 0 {
        var more, rest := TopUp(data, whole, done);
        if more {
          Stream(rest, whole, done + 64);
        }
      } else {
        Stream(data, whole, done);
      }
    }

    /** More of the message. */
    method Update(data: seq<byte>)
      requires Valid()
      modifies this`total, this`blockLen, this`message, state, block
      ensures Valid() && message == old(message) + data
    {
      hide Covers, Blocks;
      ghost var whole, done := message + data, |message| - blockLen;
      CoversMore(message, whole, done);
      Appended(message, data, done);
      AddCount(|message|, |data|);
      TakeIn(data, whole, done);
      total := (total + |data|) % TWO64;
      message := whole;
    }

    /** Zeros from the end of the pending bytes up to `end`. */
    method Zero(end: nat)
      requires block.Length == 64 && blockLen <= end <= 64
      modifies block
      ensures block[..end] == old(block[..blockLen]) + Zeros(end - blockLen)
    {
      forall k | blockLen <= k < end {
        block[k] := 0;
      }
    }

    /** The bit count into the last eight bytes. */
    method PutLength(bits: nat)
      requires block.Length == 64 && bits < TWO64
      modifies block
      ensures block[..] == old(block[..56]) + BigEndian(bits, 8)
    {
      for i := 0 to 8
        invariant block[..56] == old(block[..56])
        invariant forall k | 0 <= k < i :: block[56 + k] == BigEndian(bits, 8)[k]
      {
        BigEndianByte(bits, 8, i);
        block[56 + i] := bits / Pow256(7 - i) % 256;
      }
    }

    /**
     The 0x80 after the message; where the length would not fit behind it any more, the block goes
     out with zeros first.  Returns where the final block of the padded message starts.
     */
    method Mark(ghost whole: seq<byte>, ghost done: nat) returns (ghost last: nat)
      requires Valid() && whole == Pad(message) && done == |message| - blockLen
      modifies this`blockLen, state, block
      ensures blockLen <= 56 && |whole| == last + 64 && Covers(whole, last)
      ensures whole[last..] == block[..blockLen] + Zeros(56 - blockLen) + BigEndian(8 * |message| % TWO64, 8)
    {
      hide Blocks, BigEndian;
      PadTail(message, done);
      assert whole[..done] == message[..done];
      block[blockLen] := 0x80;
      blockLen := blockLen + 1;
      if blockLen > 56 {
        Zero(64);
        Absorb(whole, done, block[..]);
        blockLen := 0;
        assert Zeros(56) == block[..0] + Zeros(56);
        return done + 64;
      }
      return done;
    }

    /** Pads the message, compresses what that adds, and writes the digest out. */
    method Final(digest: array<byte>)
      requires Valid() && digest.Length == 32 && digest != block
      modifies this`blockLen, state, block, digest
      ensures digest[..] == Digest(message)
    {
      hide BigEndian, Pad, HashBytes, Blocks;
      var bits := total * 8 % TWO64;
      BitCount(|message|);
      ghost var whole := Pad(message);
      ghost var last := Mark(whole, |message| - blockLen);
      Zero(56);
      PutLength(bits);
      Absorb(whole, last, block[..]);
      assert whole[..|whole|] == whole;
      WriteOut(digest);
    }

    method WriteOut(digest: array<byte>)
      requires state.Length == 8 && digest.Length == 32
      modifies digest
      ensures digest[..] == HashBytes(state[..])
    {
      hide WordBytes;
      for i := 0 to 8
        invariant forall k | 0 <= k < 4 * i :: digest[k] == WordBytes(state[k / 4])[k % 4]
      {
        WriteWord(digest, 4 * i, state[i]);
      }
    }
  }

  /** A word, big-endian, at `at`. */
  method WriteWord(digest: array<byte>, at: nat, w: Word)
    requires at + 4 <= digest.Length
    modifies digest
    ensures forall k | 0 <= k < digest.Length :: digest[k] == if at <= k < at + 4 then WordBytes(w)[k - at] else old(digest[k])
  {
    digest[at] := w / 0x100_0000 % 256;
    digest[at + 1] := w / 0x1_0000 % 256;
    digest[at + 2] := w / 0x100 % 256;
    digest[at + 3] := w % 256;
  }

  function Concat(chunks: seq<seq<byte>>): seq<byte> {
    if chunks == [] then [] else Concat(chunks[..|chunks| - 1]) + chunks[|chunks| - 1]
  }

  lemma ConcatSnoc(chunks: seq<seq<byte>>, i: nat)
    requires i < |chunks|
    ensures Concat(chunks[..i + 1]) == Concat(chunks[..i]) + chunks[i]
  {
    assert chunks[..i + 1][..i] == chunks[..i];
  }

  lemma NothingYet()
    ensures Concat([]) == []
  {}

  /** However a message is cut into updates, the digest is that of the whole. */
  method HashChunks(chunks: seq<seq<byte>>) returns (digest: seq<byte>)
    ensures digest == Digest(Concat(chunks))
  {
    hide Digest, Concat, Context.Valid;
    NothingYet();
    var c := new Context();
    for i := 0 to |chunks|
      invariant fresh(c) && fresh(c.state) && fresh(c.block) && c.Valid() && c.message == Concat(chunks[..i])
    {
      ConcatSnoc(chunks, i);
      c.Update(chunks[i]);
    }
    assert chunks[..|chunks|] == chunks;
    var out := new byte[32];
    c.Final(out);
    digest := out[..];
  }

  /** The one-shot form used when a dictionary is loaded. */
  method Hash(data: seq<byte>) returns (digest: seq<byte>)
    ensures digest == Digest(data)
  {
    assert Concat([data]) == data by { assert [data][..0] == []; assert Concat([]) + data == data; }
    digest := HashChunks([data]);
  }

  /** A stretch of `whole` and the next `n` bytes. */
  lemma Continued(whole: seq<byte>, p: nat, start: nat, n: nat)
    requires start <= p && p + n <= |whole|
    ensures whole[start..p] + whole[p..][..n] == whole[start..p + n] && whole[p..][n..] == whole[p + n..]
  {}

  lemma Appended(m: seq<byte>, data: seq<byte>, done: nat)
    requires done <= |m|
    ensures (m + data)[done..|m|] == m[done..] && (m + data)[|m|..] == data
  {}

  lemma AddCount(a: nat, b: nat)
    ensures (a % TWO64 + b) % TWO64 == (a + b) % TWO64
  {}

  lemma BitCount(length: nat)
    ensures (length % TWO64) * 8 % TWO64 == 8 * length % TWO64
  {
    var q, r := length / TWO64, length % TWO64;
    DivUnique(8 * length, TWO64, 8 * q + r * 8 / TWO64, r * 8 % TWO64);
  }

  /** The padded message from the last full block on. */
  lemma PadTail(message: seq<byte>, done: nat)
    requires done % 64 == 0 && done <= |message| < done + 64
    ensures var tail, bits, p := message[done..], BigEndian(8 * |message| % TWO64, 8), Pad(message);
            && |p| >= done && p[..done] == message[..done]
            && if |tail| + 1 <= 56 then p[done..] == tail + [0x80] + Zeros(55 - |tail|) + bits
               else |p| == done + 128 && p[done..done + 64] == tail + [0x80] + Zeros(63 - |tail|)
                    && p[done + 64..] == Zeros(56) + bits
  {
    hide BigEndian;
    var head, tail, bits := message[..done], message[done..], BigEndian(8 * |message| % TWO64, 8);
    var z := ZeroPad(|message|);
    ZeroPadIs(|message|, |tail|);
    assert message == head + tail;
    assert Pad(message) == head + (tail + [0x80] + Zeros(z) + bits);
    hide Pad;
    if |tail| + 1 > 56 {
      var first := tail + [0x80] + Zeros(63 - |tail|);
      assert Zeros(z) == Zeros(63 - |tail|) + Zeros(56);
      assert tail + [0x80] + Zeros(z) + bits == first + (Zeros(56) + bits);
    }
  }

  lemma ZeroPadIs(length: nat, tail: nat)
    requires tail < 64 && tail == length % 64
    ensures ZeroPad(length) == if tail <= 55 then 55 - tail else 119 - tail
  {}

  // ----- the program's rotations, spelled with shifts -----

  function ShiftSum0(x: Word): Word {
    var v := x as bv32;
    Xor3((v >> 2) | (v << 30), (v >> 13) | (v << 19), (v >> 22) | (v << 10))
  }

  function ShiftSum1(x: Word): Word {
    var v := x as bv32;
    Xor3((v >> 6) | (v << 26), (v >> 11) | (v << 21), (v >> 25) | (v << 7))
  }

  function ShiftExpand0(x: Word): Word {
    var v := x as bv32;
    Xor3((v >> 7) | (v << 25), (v >> 18) | (v << 14), v >> 3)
  }

  function ShiftExpand1(x: Word): Word {
    var v := x as bv32;
    Xor3((v >> 17) | (v << 15), (v >> 19) | (v << 13), v >> 10)
  }

  lemma SumsAreRotations(x: Word)
    ensures ShiftSum0(x) == BigSigma0(x)
    ensures ShiftSum1(x) == BigSigma1(x)
  {}

  lemma ExpandsAreRotations(x: Word)
    ensures ShiftExpand0(x) == Sigma0(x)
    ensures ShiftExpand1(x) == Sigma1(x)
  {}

  /** The 64 rounds over a block, from the given working variables. */
  method RunRounds(p: seq<byte>, init: Vars) returns (v: Vars)
    requires |p| == 64
    ensures v == Rounds(init, p, |K|)
  {
    hide Schedule, Ch, Maj, BigSigma0, BigSigma1, ShiftSum0, ShiftSum1, Round, Plus;
    var w := ExpandSchedule(p);
    var a, b, cc, d, e, f, g, h := init.a, init.b, init.c, init.d, init.e, init.f, init.g, init.h;
    for i := 0 to 64
      invariant Vars(a, b, cc, d, e, f, g, h) == Rounds(init, p, i)
    {
      RoundIs(Vars(a, b, cc, d, e, f, g, h), K[i], w[i]);
      var s1 := ShiftSum1(e);
      var ch := Ch(e, f, g);
      var t1 := Plus(Plus(Plus(Plus(h, s1), ch), K[i]), w[i]);
      var s0 := ShiftSum0(a);
      var maj := Maj(a, b, cc);
      h := g;
      g := f;
      f := e;
      e := Plus(d, t1);
      d := cc;
      cc := b;
      b := a;
      a := Plus(Plus(t1, s0), maj);
    }
    v := Vars(a, b, cc, d, e, f, g, h);
  }

  lemma PlusAssociates(x: Word, y: Word, z: Word)
    ensures Plus(Plus(x, y), z) == Plus(x, Plus(y, z))
  {}

  lemma FourInReverse(a: Word, b: Word, c: Word, d: Word)
    ensures Plus(Plus(Plus(a, b), c), d) == Plus(Plus(Plus(d, c), b), a)
  {
    hide Plus;
    PlusAssociates(Plus(a, b), c, d);
    PlusCommutes(Plus(a, b), Plus(c, d));
    PlusCommutes(a, b);
    PlusCommutes(c, d);
    PlusAssociates(Plus(d, c), b, a);
  }

  lemma PlusCommutes(x: Word, y: Word)
    ensures Plus(x, y) == Plus(y, x)
  {}

  /** The program's round, with its rotating variables, is the round of section 6.2.2. */
  lemma RoundIs(v: Vars, k: Word, w: Word)
    ensures var t1 := Plus(Plus(Plus(Plus(v.h, ShiftSum1(v.e)), Ch(v.e, v.f, v.g)), k), w);
            Round(v, k, w) ==
            Vars(Plus(Plus(t1, ShiftSum0(v.a)), Maj(v.a, v.b, v.c)), v.a, v.b, v.c, Plus(v.d, t1), v.e, v.f, v.g)
  {
    hide Ch, Maj, BigSigma0, BigSigma1, ShiftSum0, ShiftSum1, Plus;
    SumsAreRotations(v.e);
    SumsAreRotations(v.a);
    var t1 := Plus(Plus(Plus(Plus(v.h, BigSigma1(v.e)), Ch(v.e, v.f, v.g)), k), w);
    PlusAssociates(t1, BigSigma0(v.a), Maj(v.a, v.b, v.c));
  }

  /** The message schedule of a block. */
  method ExpandSchedule(p: seq<byte>) returns (w: seq<Word>)
    requires |p| == 64
    ensures |w| == 64 && forall j | 0 <= j < 64 :: w[j] == Schedule(p, j)
  {
    hide ShiftExpand0, ShiftExpand1, Sigma0, Sigma1, Plus, Schedule, WordAt;
    var words := new Word[64];
    for i := 0 to 16
      invariant forall j | 0 <= j < i :: words[j] == Schedule(p, j)
    {
      ScheduleHead(p, i);
      words[i] := WordAt(p, i);
    }
    for i := 16 to 64
      invariant forall j | 0 <= j < i :: words[j] == Schedule(p, j)
    {
      ScheduleIs(p, i);
      var s0 := ShiftExpand0(words[i - 15]);
      var s1 := ShiftExpand1(words[i - 2]);
      words[i] := Plus(Plus(Plus(words[i - 16], s0), words[i - 7]), s1);
    }
    w := words[..];
  }

  lemma ScheduleHead(p: seq<byte>, i: nat)
    requires |p| == 64 && i < 16
    ensures Schedule(p, i) == WordAt(p, i)
  {}

  lemma ScheduleIs(p: seq<byte>, i: nat)
    requires |p| == 64 && i >= 16
    ensures Schedule(p, i) ==
            Plus(Plus(Plus(Schedule(p, i - 16), ShiftExpand0(Schedule(p, i - 15))), Schedule(p, i - 7)),
                 ShiftExpand1(Schedule(p, i - 2)))
  {
    hide ShiftExpand0, ShiftExpand1, Sigma0, Sigma1, Plus, WordAt;
    var b, d := Schedule(p, i - 15), Schedule(p, i - 2);
    ExpandsAreRotations(b);
    ExpandsAreRotations(d);
    FourInReverse(Sigma1(d), Schedule(p, i - 7), Sigma0(b), Schedule(p, i - 16));
  }
}
