/**
 Whole responses: any number of calls of the body filter, from a fresh context.
 */
module Responses {
  import opened Options
  import opened Octets
  import opened Encoder
  import opened Links
  import opened FilterState
  import opened BodyFilter

  /** All input given over a run of calls. */
  function Given(calls: seq<Option<seq<Link>>>): seq<Link> {
    if calls == [] then []
    else Given(calls[..|calls| - 1]) + match calls[|calls| - 1] case None => [] case Some(more) => more
  }

  lemma GivenSnoc(calls: seq<Option<seq<Link>>>, i: nat)
    requires i < |calls|
    ensures Given(calls[..i + 1]) == Given(calls[..i]) + match calls[i] case None => [] case Some(more) => more
  {
    assert calls[..i + 1][..i] == calls[..i];
  }

  /** A body that is complete stays so whatever is given after it. */
  lemma PayloadOfPrefix(a: seq<Link>, b: seq<Link>)
    requires a <= b && HasLast(a)
    ensures Payload(b) == Payload(a)
  {
    assert b == a + b[|a|..];
    PayloadAppend(a, b[|a|..]);
  }

  /** Everything the next filter gets: what the stream handed on, then the chains passed on untouched. */
  function Downstream(log: seq<Handed>, raws: seq<Option<seq<Link>>>): seq<byte> {
    Delivered(log) + Bytes(Given(raws))
  }

  // ----- the answers -----

  /**
   What the answers to the first `used` calls, those on the open stream, say: an OK with the body
   complete is the success of the stream, and an ERROR its failure.
   */
  predicate Answers(codes: seq<Code>, calls: seq<Option<seq<Link>>>, used: nat, closed: bool, success: bool) {
    && used <= |codes| <= |calls|
    && (forall i | 0 <= i < used && codes[i] == OK && HasLast(Given(calls[..i + 1])) :: success && i == used - 1)
    && (forall i | 0 <= i < used && codes[i] == ERROR :: closed && !success && i == used - 1)
    && (closed && !success ==> used > 0 && codes[used - 1] == ERROR)
  }

  lemma NoAnswers(calls: seq<Option<seq<Link>>>)
    ensures Answers([], calls, 0, false, false)
  {}

  lemma AnswerOpen(codes: seq<Code>, calls: seq<Option<seq<Link>>>, rc: Code, closed: bool, success: bool)
    requires |codes| < |calls| && Answers(codes, calls, |codes|, false, false)
    requires rc == OK && HasLast(Given(calls[..|codes| + 1])) ==> success
    requires rc == ERROR <==> closed && !success
    ensures Answers(codes + [rc], calls, |codes| + 1, closed, success)
  {
    hide HasLast, Given;
    assert forall j | 0 <= j < |codes| :: (codes + [rc])[j] == codes[j];
  }

  lemma AnswerClosed(codes: seq<Code>, calls: seq<Option<seq<Link>>>, used: nat, rc: Code, closed: bool, success: bool)
    requires |codes| < |calls| && Answers(codes, calls, used, closed, success)
    ensures Answers(codes + [rc], calls, used, closed, success)
  {
    hide HasLast, Given;
    assert forall j | 0 <= j < |codes| :: (codes + [rc])[j] == codes[j];
  }

  // ----- why a stream fails -----

  /** Up to call number `ended` of the world, the stream failed only for a cause, and at once. */
  ghost predicate Accounted(ctx: Ctx, ended: nat)
    reads ctx
  {
    && ended <= ctx.now && (!ctx.closed ==> ended == ctx.now)
    && if ctx.closed && !ctx.success then ctx.Cause(0, ended) else !ctx.env.Failed(0, ended) && !ctx.Snap().OverCap(ctx.conf)
  }

  /** Nothing fails, the compressor always takes something, and the input stays below the cap. */
  ghost predicate Kind(env: Env, conf: Config, given: seq<Link>) {
    && (forall t: nat :: !env.fails(t))
    && env.Eager()
    && (conf.maxLength.Some? ==> |Bytes(given)| <= conf.maxLength.value)
  }

  lemma KindHasNoCause(ctx: Ctx, ended: nat, given: seq<Link>)
    requires ctx.Valid() && Kind(ctx.env, ctx.conf, given) && ctx.appended <= given
    ensures !ctx.Cause(0, ended)
  {
    hide Env.Valid;
    if ctx.conf.maxLength.Some? {
      BelowCap(ctx.Snap(), ctx.conf, given);
    }
  }

  lemma BelowCap(s: Stream, c: Config, given: seq<Link>)
    requires s.Valid(c) && s.appended <= given && c.maxLength.Some? && |Bytes(given)| <= c.maxLength.value
    ensures !s.OverCap(c)
  {
    hide Stream.InOrder, Stream.Headed, Stream.Marked, Stream.AllRead, Stream.Finishing, Payload, HasLast;
    assert given == s.appended + given[|s.appended|..];
    BytesAppend(s.appended, given[|s.appended|..]);
    CapTest(s, c);
  }

  // ----- one call after another -----

  /** After the first `i` calls. */
  ghost predicate After(ctx: Ctx, calls: seq<Option<seq<Link>>>, i: nat, codes: seq<Code>, used: nat, ended: nat)
    reads ctx
  {
    && i == |codes| <= |calls| && used <= i
    && !ctx.headerOnly && ctx.Valid()
    && (!ctx.closed ==> used == i && !ctx.success)
    && ctx.raws == calls[used..i]
    && (if ctx.closed then ctx.appended <= Given(calls[..i]) else ctx.appended == Given(calls[..i]))
    && Answers(codes, calls, used, ctx.closed, ctx.success)
    && Accounted(ctx, ended)
    && (ctx.env.Greedy() && !ctx.closed ==> !HasLast(ctx.appended))
    && (!ctx.closed && used > 0 && codes[used - 1] == OK ==> ctx.input == [])
  }

  method OpenCall(ctx: Ctx, calls: seq<Option<seq<Link>>>, codes: seq<Code>, ghost ended: nat) returns (rc: Code)
    requires |codes| < |calls| && After(ctx, calls, |codes|, codes, |codes|, ended) && !ctx.closed
    modifies ctx
    ensures After(ctx, calls, |codes| + 1, codes + [rc], |codes| + 1, ctx.now)
  {
    hide Stream.Valid, HasLast, Answers, Env.Valid, Env.Greedy, Env.Failed, Given;
    var i := |codes|;
    ghost var before := ctx.now;
    GivenSnoc(calls, i);
    assert ctx.raws == [];
    rc := ctx.Filter(calls[i]);
    ClosedFacts(ctx.Snap(), ctx.conf);
    assert !ctx.closed || ctx.success ==> ctx.appended == Given(calls[..i + 1]);
    FailedSplit(ctx.env, 0, before, ctx.now);
    AnswerOpen(codes, calls, rc, ctx.closed, ctx.success);
  }

  method ClosedCall(ctx: Ctx, calls: seq<Option<seq<Link>>>, codes: seq<Code>, ghost used: nat, ghost ended: nat) returns (rc: Code)
    requires |codes| < |calls| && After(ctx, calls, |codes|, codes, used, ended) && ctx.closed
    modifies ctx
    ensures After(ctx, calls, |codes| + 1, codes + [rc], used, ended)
  {
    hide Stream.Valid, HasLast, Answers, Env.Valid, Env.Greedy, Given;
    var i := |codes|;
    ghost var passed := ctx.raws;
    GivenSnoc(calls, i);
    rc := ctx.Filter(calls[i]);
    assert ctx.raws == passed + [calls[i]] == calls[used..i + 1];
    AnswerClosed(codes, calls, used, rc, ctx.closed, ctx.success);
  }

  /**
   A whole response: any number of filter calls, each with or without more input.  The stream is
   open for the first `used` of them, during the first `ended` calls it makes to the world, and the
   chains of all later calls are passed on untouched.

   Whatever the chunking, the compressor and the next filter do, what the open stream hands on is a
   prefix of the header and the compressor's output, and the next filter has read that output
   without a gap, up to what waits in the buffer.  Once the stream succeeds all of it is handed on
   and read, ends with the one chunk marked last, and decodes to the body that was given; what the
   next filter gets is then exactly that if and only if no call after the closing one brings bytes.

   The compressor is given every link with the operation its marks ask for: a flush link that is not
   last leaves the chain only when a FLUSH call has taken what was left of it, be it nothing, so
   after an OK on an open stream all of them were.  FINISH is given for last links and after them.

   An OK to a call on the open stream with the body complete means success.  The stream fails only
   for a cause, and in a kind world never; when the next filter besides reads all it is offered,
   every complete body is a success.
   */
  method Respond(conf: Config, env: Env, work: nat, calls: seq<Option<seq<Link>>>)
    returns (ctx: Ctx, codes: seq<Code>, ghost used: nat, ghost ended: nat)
    requires conf.Valid() && env.Valid(conf.decode, work)
    ensures fresh(ctx) && ctx.conf == conf && ctx.env == env && ctx.Valid() && |codes| == |calls|
    ensures used <= |calls| && (!ctx.closed ==> used == |calls|) && ctx.raws == calls[used..]
    ensures Delivered(ctx.log) <= HeaderFor(conf) + ctx.enc.produced
    ensures ctx.seen <= ctx.enc.produced && |ctx.seen| + ctx.Snap().Unread() == ctx.enc.taken
    ensures ctx.success ==>
              && Delivered(ctx.log) == HeaderFor(conf) + ctx.enc.produced && ctx.seen == ctx.enc.produced
              && conf.decode(ctx.enc.produced) == Some(Payload(Given(calls)))
              && LastSent(ctx.log) && LastIsFinal(ctx.log)
    ensures Bytes(Given(calls[used..])) == [] ==> Downstream(ctx.log, ctx.raws) <= HeaderFor(conf) + ctx.enc.produced
    ensures ctx.success ==>
              (Downstream(ctx.log, ctx.raws) == HeaderFor(conf) + ctx.enc.produced <==> Bytes(Given(calls[used..])) == [])
    ensures Answers(codes, calls, used, ctx.closed, ctx.success) && Accounted(ctx, ended)
    ensures ctx.appended <= Given(calls) && ctx.gone + |ctx.input| == |ctx.appended|
    ensures forall i | 0 <= i < ctx.gone && ctx.appended[i].flush && !ctx.appended[i].lastBuf ::
              exists k | 0 <= k < |ctx.feeds| ::
                ctx.feeds[k].link == Some(i) && ctx.feeds[k].op == FLUSH && ctx.feeds[k].consumed == |ctx.feeds[k].offered|
    ensures forall i | 0 <= i < ctx.gone && ctx.appended[i].lastBuf ::
              exists k | 0 <= k < |ctx.feeds| ::
                ctx.feeds[k].link == Some(i) && ctx.feeds[k].op == FINISH && ctx.feeds[k].consumed == |ctx.feeds[k].offered|
    ensures forall k, i: nat | 0 <= k < |ctx.feeds| && ctx.feeds[k].link == Some(i) ::
              && i < |ctx.appended|
              && (ctx.feeds[k].op == FINISH <==> ctx.appended[i].lastBuf)
              && (ctx.feeds[k].op == FLUSH <==> ctx.appended[i].flush && !ctx.appended[i].lastBuf)
    ensures forall k | 0 <= k < |ctx.feeds| && ctx.feeds[k].link.None? ::
              ctx.feeds[k].op == FINISH && ctx.feeds[k].offered == [] && k > 0 && ctx.feeds[k - 1].op == FINISH
    ensures !ctx.closed && used > 0 && codes[used - 1] == OK ==> ctx.gone == |ctx.appended|
    ensures Kind(env, conf, Given(calls)) ==>
              && !(ctx.closed && !ctx.success)
              && (env.Greedy() && HasLast(Given(calls)) ==> ctx.success)
  {
    hide Stream.Valid, Answers, Env.Valid, Env.Greedy, HasLast;
    NoAnswers(calls);
    ctx := new Ctx(conf, env, false, work);
    codes, used, ended := [], 0, 0;
    FreshFacts(ctx.Snap(), conf, work);
    for i := 0 to |calls|
      invariant fresh(ctx) && ctx.conf == conf && ctx.env == env && After(ctx, calls, i, codes, used, ended)
    {
      var rc;
      if !ctx.closed {
        rc := OpenCall(ctx, calls, codes, ended);
        used, ended := i + 1, ctx.now;
      } else {
        rc := ClosedCall(ctx, calls, codes, used, ended);
      }
      codes := codes + [rc];
    }
    InOrderAtEnd(ctx, calls, codes, used, ended);
    FlushesAreGiven(ctx.Snap(), conf);
    AllOperationsFit(ctx.Snap(), conf);
    assert calls[..|calls|] == calls;
    if Kind(env, conf, Given(calls)) { KindAtEnd(ctx, calls, codes, used, ended); }
  }

  lemma FreshFacts(s: Stream, c: Config, work: nat)
    requires s == Fresh(work) && c.Valid()
    ensures !s.closed && !s.success && s.appended == [] && !HasLast(s.appended) && !s.OverCap(c)
  {}

  lemma InOrderAtEnd(ctx: Ctx, calls: seq<Option<seq<Link>>>, codes: seq<Code>, used: nat, ended: nat)
    requires After(ctx, calls, |calls|, codes, used, ended)
    ensures Delivered(ctx.log) <= HeaderFor(ctx.conf) + ctx.enc.produced
    ensures ctx.seen <= ctx.enc.produced && ctx.Snap().Staged() && |ctx.seen| + ctx.Snap().Unread() == ctx.enc.taken
    ensures ctx.success ==>
              && Delivered(ctx.log) == HeaderFor(ctx.conf) + ctx.enc.produced && ctx.seen == ctx.enc.produced
              && ctx.conf.decode(ctx.enc.produced) == Some(Payload(Given(calls)))
              && LastSent(ctx.log) && LastIsFinal(ctx.log)
  {
    hide Stream.Valid, HasLast, Payload, Bytes, Answers, Env.Valid, Env.Greedy, Accounted;
    assert calls[..|calls|] == calls;
    AlwaysInOrder(ctx.Snap(), ctx.conf);
    ClosedFacts(ctx.Snap(), ctx.conf);
    ReadInOrder(ctx.Snap(), ctx.conf);
    if ctx.success {
      SuccessDelivers(ctx.Snap(), ctx.conf);
      PayloadOfPrefix(ctx.appended, Given(calls));
    }
  }

  lemma KindAtEnd(ctx: Ctx, calls: seq<Option<seq<Link>>>, codes: seq<Code>, used: nat, ended: nat)
    requires After(ctx, calls, |calls|, codes, used, ended) && Kind(ctx.env, ctx.conf, Given(calls))
    ensures !(ctx.closed && !ctx.success)
    ensures ctx.env.Greedy() && HasLast(Given(calls)) ==> ctx.success
  {
    hide Stream.Valid, HasLast, Answers, Env.Valid, Env.Greedy, Kind;
    assert calls[..|calls|] == calls;
    KindHasNoCause(ctx, ended, Given(calls));
  }
}
