/**
 Runs of the body filter at its limits, step by step from a fresh stream, in buffers and chunks of
 sizes that occur: a buffer's size fits off_t, a chunk's fits size_t.
 */
module Runs {
  import opened Options
  import opened Octets
  import opened Encoder
  import opened Links
  import opened FilterState
  import opened BodyFilter
  import opened Responses

  const LAST: Link := Link([], true, false)

  predicate FitsOff(l: Link) {
    |l.data| < WORD / 2
  }

  predicate FitsSize(h: Handed) {
    h.Chunk? ==> |h.bytes| < WORD
  }

  // ----- an empty body -----

  /** The compressor when an empty body has been given and `a` made of it. */
  function Begun(a: seq<byte>, work: nat): State {
    State([], a, 0, true, false, work)
  }

  /** The compressor when it finishes with `b` after `a` has been taken. */
  function Done(a: seq<byte>, b: seq<byte>, work: nat): State {
    State([], a + b, |a|, true, true, work)
  }

  predicate MakesEmpty(c: Config, a: seq<byte>, b: seq<byte>) {
    c.Valid() && c.dict == None && a != [] && b != [] && c.decode(a + b) == Some([])
  }

  /** The empty last buffer is given and compressed; the compressor makes `a` and is not finished. */
  function Fed(c: Config, a: seq<byte>, work: nat): Stream {
    AfterCompress(Appended(Fresh(work + 1), [LAST]), c, 0, Begun(a, work))
  }

  lemma FedIs(c: Config, a: seq<byte>, b: seq<byte>, work: nat)
    requires MakesEmpty(c, a, b)
    ensures MayCompress(Appended(Fresh(work + 1), [LAST]), c, 0, Begun(a, work))
    ensures Fed(c, a, work) == Fresh(work + 1).(enc := Begun(a, work), endOfInput := true, appended := [LAST],
                                                    gone := 1, feeds := [Feed(Some(0), FINISH, [], 0)])
    ensures Fed(c, a, work).Valid(c)
  {
    hide Stream.Valid;
    FreshIsValid(c, work + 1);
    AppendedKeeps(Fresh(work + 1), c, [LAST]);
    var t := Appended(Fresh(work + 1), [LAST]);
    assert t.input == [LAST] && t.appended == [LAST];
    BeginsEmpty(c, a, work);
    assert MayCompress(t, c, 0, Begun(a, work));
    AfterCompressKeeps(t, c, 0, Begun(a, work));
    hide MayCompress, Initial;
    assert Compressed(t, 0, Begun(a, work)).input[1..] == [];
  }

  lemma BeginsEmpty(c: Config, a: seq<byte>, work: nat)
    ensures CompressStep(c.decode, Initial(work + 1), FINISH, [], 0, Begun(a, work))
  {}

  /** `a` is taken, handed on and read. */
  function FirstPiece(c: Config, a: seq<byte>, b: seq<byte>, work: nat): Stream
    requires MakesEmpty(c, a, b)
  {
    FedIs(c, a, b, work);
    Pushed(Taken(Fed(c, a, work), a, false, false), |a|)
  }

  lemma FirstPieceRead(c: Config, a: seq<byte>, taken: Stream)
    requires taken.Valid(c) && taken.outputReady && !taken.closed && |a| <= taken.Unread()
    ensures Pushed(taken, |a|).Valid(c)
  {
    hide Stream.Valid, Pushed;
    PushedKeeps(taken, c, |a|);
  }

  lemma FirstPieceMayGo(c: Config, a: seq<byte>, b: seq<byte>, work: nat)
    requires MakesEmpty(c, a, b)
    ensures Fed(c, a, work).enc.Valid() && MayTake(Fed(c, a, work), a)
  {
    FedIs(c, a, b, work);
    hide Stream.Valid, Fed, MayCompress;
    assert Begun(a, work).produced[0..|a|] == a;
  }

  lemma FirstPieceTaken(c: Config, a: seq<byte>, b: seq<byte>, work: nat)
    requires MakesEmpty(c, a, b)
    ensures Fed(c, a, work).enc.Valid() && MayTake(Fed(c, a, work), a)
    ensures var taken := Taken(Fed(c, a, work), a, false, false); taken.Valid(c) && taken.Unread() == |a|
  {
    FirstPieceMayGo(c, a, b, work);
    FedIs(c, a, b, work);
    hide Stream.Valid, Fed, MayCompress, MayTake, MakesEmpty;
    TakenKeeps(Fed(c, a, work), c, a, false, false);
  }

  lemma FirstPieceIs(c: Config, a: seq<byte>, b: seq<byte>, work: nat)
    requires MakesEmpty(c, a, b)
    ensures Fed(c, a, work).enc.Valid() && MayTake(Fed(c, a, work), a)
    ensures var s := FirstPiece(c, a, b, work);
            && s.Valid(c) && !s.closed && !s.outputReady && !s.outputBusy && s.endOfInput
            && s.enc == Begun(a, work).(taken := |a|) && s.log == [Chunk(a, false, false)] && s.appended == [LAST]
  {
    FirstPieceTaken(c, a, b, work);
    FedIs(c, a, b, work);
    hide Stream.Valid, Fed, MayCompress, MayTake, MakesEmpty;
    var taken := Taken(Fed(c, a, work), a, false, false);
    ClosedFacts(taken, c);
    FirstPieceRead(c, a, taken);
    assert Pushed(taken, |a|).log == [Chunk(a, false, false)];
  }

  /** The compressor is asked again, finishes with `b`, and that is taken, handed on and read. */
  function EmptyBody(c: Config, a: seq<byte>, b: seq<byte>, work: nat): Stream
    requires MakesEmpty(c, a, b)
  {
    FirstPieceIs(c, a, b, work);
    SecondPieceIs(c, a, b, work, FirstPiece(c, a, b, work));
    Succeeded(Pushed(Taken(Finished(FirstPiece(c, a, b, work), Done(a, b, work)), b, true, false), |b|))
  }

  lemma SecondPieceIs(c: Config, a: seq<byte>, b: seq<byte>, work: nat, first: Stream)
    requires MakesEmpty(c, a, b)
    requires first.Valid(c) && !first.closed && !first.outputReady && !first.outputBusy && first.endOfInput
    requires first.enc == Begun(a, work).(taken := |a|)
    ensures CompressStep(c.decode, first.enc, FINISH, [], 0, Done(a, b, work))
    ensures var asked := Finished(first, Done(a, b, work));
            asked.Valid(c) && MayTake(asked, b) && Taken(asked, b, true, false).Valid(c)
  {
    assert Done(a, b, work).produced[..|a|] == a && (a + b)[|a|..|a| + |b|] == b;
    FinishedKeeps(first, c, Done(a, b, work));
    hide Stream.Valid;
    TakenKeeps(Finished(first, Done(a, b, work)), c, b, true, false);
  }

  /** Every step is one the filter may take, and the result is a success that handed on `a` and then `b`. */
  lemma EmptyBodySucceeds(c: Config, a: seq<byte>, b: seq<byte>, work: nat)
    requires MakesEmpty(c, a, b)
    ensures MayCompress(Appended(Fresh(work + 1), [LAST]), c, 0, Begun(a, work))
    ensures Fed(c, a, work).enc.Valid() && MayTake(Fed(c, a, work), a)
    ensures CompressStep(c.decode, FirstPiece(c, a, b, work).enc, FINISH, [], 0, Done(a, b, work))
    ensures Finished(FirstPiece(c, a, b, work), Done(a, b, work)).enc.Valid() && MayTake(Finished(FirstPiece(c, a, b, work), Done(a, b, work)), b)
    ensures var s := EmptyBody(c, a, b, work);
            && s.Valid(c) && s.success && s.appended == [LAST]
            && s.log == [Chunk(a, false, false), Chunk(b, true, false)] && s.seen == s.enc.produced == a + b
  {
    hide Stream.Valid, Fed, FirstPiece, MayCompress, AfterCompress, CompressStep, MayTake;
    FedIs(c, a, b, work);
    FirstPieceIs(c, a, b, work);
    var first := FirstPiece(c, a, b, work);
    SecondPieceIs(c, a, b, work, first);
    var taken := Taken(Finished(first, Done(a, b, work)), b, true, false);
    ClosedFacts(taken, c);
    PushedKeeps(taken, c, |b|);
    var s := Pushed(taken, |b|);
    SucceededKeeps(s, c);
    assert s.log == [Chunk(a, false, false)] + [Chunk(b, true, false)];
    SuccessDelivers(Succeeded(s), c);
  }

  function Zeros(n: nat): (z: seq<byte>)
    ensures |z| == n
  {
    seq(n, _ => 0)
  }

  /** A success whose 64-bit response counter is zero: an output of 2^64 bytes, in two chunks of half that. */
  lemma CounterWraps(c: Config, work: nat)
    requires MakesEmpty(c, Zeros(WORD / 2), Zeros(WORD / 2))
    ensures var s := EmptyBody(c, Zeros(WORD / 2), Zeros(WORD / 2), work);
            && s.Valid(c) && s.success && s.bytesOut == 0 && |Delivered(s.log)| == WORD
            && (forall h | h in s.log :: FitsSize(h)) && (forall l | l in s.appended :: FitsOff(l))
  {
    hide Stream.Valid, Zeros, EmptyBody, FirstPiece, Delivered;
    var a := Zeros(WORD / 2);
    var s := EmptyBody(c, a, a, work);
    EmptyBodySucceeds(c, a, a, work);
    SuccessHasOutput(s, c);
    SuccessDelivers(s, c);
  }

  /** There are such configurations. */
  lemma SomeMakesEmpty() returns (c: Config)
    ensures MakesEmpty(c, Zeros(WORD / 2), Zeros(WORD / 2))
  {
    hide Zeros;
    c := Config(bytes => Some([]), None, None);
  }

  // ----- the cap -----

  function Consumes(data: seq<byte>, work: nat): State {
    State(data, [], 0, false, false, work)
  }

  /** The compressor takes all of a first buffer of `n` bytes. */
  function OneIn(c: Config, n: nat, work: nat): Stream {
    AfterCompress(Appended(Fresh(work), [Link(Zeros(n), false, false)]), c, n, Consumes(Zeros(n), work))
  }

  lemma OneInIs(c: Config, n: nat, work: nat)
    requires c.Valid() && c.maxLength.Some? && n <= c.maxLength.value
    ensures MayCompress(Appended(Fresh(work), [Link(Zeros(n), false, false)]), c, n, Consumes(Zeros(n), work))
    ensures var s := OneIn(c, n, work);
            && s.Valid(c) && s.enc == Consumes(Zeros(n), work) && s.bytesIn == n && s.input == [] && !s.closed
            && s == Fresh(work).(enc := s.enc, bytesIn := n, appended := [Link(Zeros(n), false, false)],
                                 gone := 1, feeds := [Feed(Some(0), PROCESS, Zeros(n), n)])
  {
    hide Zeros, Stream.Valid;
    var data, link := Zeros(n), Link(Zeros(n), false, false);
    FreshIsValid(c, work);
    AppendedKeeps(Fresh(work), c, [link]);
    var t := Appended(Fresh(work), [link]);
    assert t.input == [link] && t.appended == [link];
    assert data[..n] == data && [] + data == data;
    AfterCompressKeeps(t, c, n, Consumes(data, work));
    assert Compressed(t, n, Consumes(data, work)).input[1..] == [];
  }

  /** The compressor takes all of a second buffer, of `m` bytes. */
  function TwoIn(c: Config, n: nat, m: nat, work: nat): Stream
    requires c.Valid() && c.maxLength.Some? && n <= c.maxLength.value
  {
    OneInIs(c, n, work);
    AfterCompress(Appended(OneIn(c, n, work), [Link(Zeros(m), false, false)]), c, m, Consumes(Zeros(n) + Zeros(m), work))
  }

  /**
   A first buffer as big as the cap, then one that takes the total to 2^63 bytes: the counter is
   negative, and the cap is passed unseen.  Both buffers' sizes fit off_t as the cap is not zero.
   */
  lemma CapMissed(c: Config, work: nat)
    requires c.Valid() && c.maxLength.Some? && c.maxLength.value > 0
    ensures var n, m := c.maxLength.value, WORD / 2 - c.maxLength.value;
            && MayCompress(Appended(OneIn(c, n, work), [Link(Zeros(m), false, false)]), c, m, Consumes(Zeros(n) + Zeros(m), work))
            && var s := TwoIn(c, n, m, work);
               && s.Valid(c) && !s.closed && |s.enc.fed| == WORD / 2 > c.maxLength.value
               && forall l | l in s.appended :: FitsOff(l)
  {
    hide Zeros, OneIn, Stream.Valid;
    var n, m := c.maxLength.value, WORD / 2 - c.maxLength.value;
    var first, link, e := OneIn(c, n, work), Link(Zeros(m), false, false), Consumes(Zeros(n) + Zeros(m), work);
    OneInIs(c, n, work);
    AppendedKeeps(first, c, [link]);
    var t := Appended(first, [link]);
    assert t.input == [link] && Zeros(m)[..m] == Zeros(m);
    assert MayCompress(t, c, m, e);
    AfterCompressKeeps(t, c, m, e);
    assert Compressed(t, m, e).bytesIn == WORD / 2;
  }

  /** With a cap of zero the first byte of any buffer that fits off_t is seen. */
  lemma ZeroCapHolds(s: Stream, c: Config)
    requires s.Valid(c) && c.maxLength == Some(0) && (forall l | l in s.appended :: FitsOff(l))
    ensures s.Countable(c)
  {
    hide Stream.Valid;
    BiggestBelow(s.appended, WORD / 2);
  }

  lemma {:induction false} BiggestBelow(links: seq<Link>, bound: nat)
    requires bound > 0 && forall l | l in links :: |l.data| < bound
    ensures Biggest(links) < bound
    decreases |links|
  {
    if links != [] { BiggestBelow(links[1..], bound); }
  }

  // ----- after the end -----

  /** A call after a success that brings bytes: they follow the finished stream. */
  lemma BytesAfterSuccess(c: Config, a: seq<byte>, b: seq<byte>, work: nat, data: seq<byte>)
    requires MakesEmpty(c, a, b) && data != []
    ensures var s, calls := EmptyBody(c, a, b, work), [Some([LAST]), Some([Link(data, true, false)])];
            && s.success && s.appended == Given(calls[..1])
            && Downstream(s.log, calls[1..]) == (a + b) + data != HeaderFor(c) + s.enc.produced
            && LastSent(s.log) && HasLast(Given(calls[1..]))
  {
    hide EmptyBody, FirstPiece, Stream.Valid;
    var s, more := EmptyBody(c, a, b, work), [Link(data, true, false)];
    var calls: seq<Option<seq<Link>>> := [Some([LAST]), Some(more)];
    EmptyBodySucceeds(c, a, b, work);
    SuccessDelivers(s, c);
    GivenSnoc(calls, 0);
    assert calls[..0] == [] && calls[1..] == [Some(more)];
    GivenSnoc(calls[1..], 0);
    assert calls[1..][..1] == calls[1..] && calls[1..][..0] == [];
    assert [] + more == more && more[1..] == [] && Bytes(more) == data + Bytes(more[1..]) == data;
    assert more[0].lastBuf;
    assert |(a + b) + data| > |a + b| && HeaderFor(c) + (a + b) == a + b;
  }

  // ----- a kind world -----

  /** A compressor that keeps its input and hands it out at the end behind one byte. */
  function Stores(e: State, op: Operation, input: seq<byte>): State {
    var fed := e.fed + input;
    State(fed, if op == FINISH then [1] + fed else e.produced, e.taken, e.finishing || op == FINISH, op == FINISH, e.work)
  }

  function Unwrap(b: seq<byte>): Option<seq<byte>> {
    if b == [] then None else Some(b[1..])
  }

  predicate Storing(e: State) {
    e.Valid() && if e.finished then e.produced == [1] + e.fed else e.produced == [] && !e.finishing
  }

  function KindWorld(): Env {
    Env((t: nat) => false,
        Storing,
        (t: nat, e: State, op: Operation, input: seq<byte>) => (|input|, Stores(e, op, input)),
        (t: nat) => 0, (t: nat) => false, (t: nat, size: nat) => size)
  }

  /** There is a compressor that honours its contract in a world in which nothing fails or stalls. */
  lemma KindWorldIsKind(work: nat, given: seq<Link>, dict: Option<seq<byte>>)
    ensures KindWorld().Valid(Unwrap, work) && KindWorld().Greedy()
    ensures Kind(KindWorld(), Config(Unwrap, dict, None), given)
  {
    var env := KindWorld();
    forall t: nat, e: State, op: Operation, input: seq<byte> | env.good(e) && Callable(e, op)
      ensures var r := env.run(t, e, op, input); CompressStep(Unwrap, e, op, input, r.0, r.1) && env.good(r.1)
    {
      assert input[..|input|] == input && ([1] + (e.fed + input))[1..] == e.fed + input;
    }
  }
}
