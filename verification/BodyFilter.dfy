/**
 The body filter itself: the per-request context, updated in place, and the main loop around it.
 */
module BodyFilter {
  import opened Options
  import opened Octets
  import opened Encoder
  import opened Links
  import opened FilterState

  class Ctx {
    const conf: Config
    const env: Env
    const headerOnly: bool

    var now: nat   // calls made to the world so far
    var enc: State
    var bytesIn: nat
    var bytesOut: nat
    var input: seq<Link>
    var outBuf: Handed
    var outPos: nat
    var initialized: bool
    var closed: bool
    var success: bool
    var outputReady: bool
    var outputBusy: bool
    var endOfInput: bool
    var endOfBlock: bool
    var dcbHeaderSent: bool

    ghost var appended: seq<Link>
    ghost var log: seq<Handed>
    ghost var seen: seq<byte>
    ghost var gone: nat
    ghost var feeds: seq<Feed>
    ghost const work: nat
    ghost var raws: seq<Option<seq<Link>>>   // calls passed on untouched

    ghost function Snap(): Stream
      reads this
    {
      Stream(enc, bytesIn, bytesOut, input, outBuf, outPos, closed, success, outputReady, outputBusy,
             endOfInput, dcbHeaderSent, appended, log, seen, gone, feeds)
    }

    ghost predicate Valid()
      reads this
    {
      && Snap().Valid(conf)
      && env.Valid(conf.decode, work) && env.good(enc)
      && (raws != [] ==> closed || headerOnly)
      && (!initialized ==> log == [] && !outputReady && !outputBusy)
    }

    /** Open, with nothing left for the next filter to read. */
    ghost predicate Idle()
      reads this
    {
      Valid() && initialized && !closed && !outputReady && !outputBusy
    }

    /** A compression before call number `to` consumed nothing of the link that is first in the chain. */
    ghost predicate Stalled(to: nat)
      reads this`enc, this`input
    {
      && input != [] && input[0].data != []
      && exists t: nat, e: State | t < to :: Stalls(env, t, e, OperationFor(input[0]), input[0].data, enc)
    }

    /** Why the calls numbered from `from` up to `to` end in giving up. */
    ghost predicate Cause(from: nat, to: nat)
      reads this
    {
      env.Failed(from, to) || Snap().OverCap(conf) || Stalled(to)
    }

    constructor (conf: Config, env: Env, headerOnly: bool, work: nat)
      requires conf.Valid() && env.Valid(conf.decode, work)
      ensures Valid() && Snap() == Fresh(work) && raws == [] && now == 0
      ensures this.conf == conf && this.env == env && this.headerOnly == headerOnly && this.work == work
    {
      this.conf, this.env, this.headerOnly, this.work, now := conf, env, headerOnly, work, 0;
      enc := Initial(work);
      bytesIn, bytesOut, input, outBuf, outPos := 0, 0, [], Poll, 0;
      initialized, closed, success, outputReady, outputBusy := false, false, false, false, false;
      endOfInput, endOfBlock, dcbHeaderSent := false, false, false;
      appended, log, seen, raws, gone, feeds := [], [], [], [], 0, [];
      new;
      FreshIsValid(conf, work);
    }

    function BufSize(): int
      reads this
    {
      if outBuf.Chunk? then |outBuf.bytes| - outPos else 0
    }

    method Close()
      requires Valid() && !success && initialized
      modifies this`closed
      ensures Valid() && Snap() == Ended(old(Snap()))
    {
      EndedKeeps(Snap(), conf);
      closed := true;
    }

    /** The call of the next filter: it is handed the buffer, or nothing, and reads on in it. */
    method CallNext() returns (rc: Code, ghost read: nat)
      requires Snap().Staged() && (outputReady || outputBusy)
      modifies this`now, this`outPos, this`log, this`seen
      ensures read <= old(Snap().Unread()) && (env.Greedy() ==> read == old(Snap().Unread()))
      ensures outPos == old(outPos) + read && seen == old(seen) + outBuf.bytes[old(outPos)..outPos]
      ensures log == old(log) + [if outputReady then outBuf else Poll]
      ensures now == old(now) + 1 && (rc == ERROR <==> env.fails(old(now)))
    {
      hide Env.Greedy;
      log := log + [if outputReady then outBuf else Poll];
      var n;
      rc, n := NextBodyFilter(env, now, BufSize());
      now := now + 1;
      read := n;
      seen := seen + outBuf.bytes[outPos..outPos + n];
      outPos := outPos + n;
    }

    /** Calls the next filter: the output buffer is handed on once, and read on. */
    method HandOn() returns (rc: Code, ghost read: nat)
      requires Valid() && !closed && (outputReady || outputBusy)
      modifies this`now, this`outputReady, this`outputBusy, this`outPos, this`log, this`seen
      ensures Valid() && read <= old(Snap().Unread()) && Snap() == Pushed(old(Snap()), read)
      ensures now == old(now) + 1 && (rc == ERROR <==> env.fails(old(now)))
      ensures env.Greedy() ==> !outputBusy
    {
      hide Stream.Valid, Env.Valid, Env.Greedy;
      OpenFacts(Snap(), conf);
      rc, read := CallNext();
      PushedKeeps(old(Snap()), conf, read);
      Settle();
    }

    /** After the call the buffer is the next filter's, until it is all read. */
    method Settle()
      requires outputReady || outputBusy
      modifies this`outputReady, this`outputBusy
      ensures !outputReady && outputBusy == (BufSize() != 0)
    {
      if outputReady {
        outputReady := false;
        outputBusy := true;
      }
      if BufSize() == 0 {
        outputBusy := false;
      }
    }

    /** Hands the output buffer on, or lets the next filter go on reading it, and heeds its answer. */
    method PushOutput() returns (stop: bool, rc: Code, ghost read: nat)
      requires Valid() && initialized && !closed && (outputReady || outputBusy)
      modifies this`now, this`closed, this`outputReady, this`outputBusy, this`outPos, this`log, this`seen
      ensures Valid() && read <= old(Snap().Unread()) && now == old(now) + 1 && (closed <==> env.fails(old(now)))
      ensures Snap() == if closed then Ended(Pushed(old(Snap()), read)) else Pushed(old(Snap()), read)
      ensures stop ==> if closed then rc == ERROR else rc == AGAIN && outputBusy
      ensures !stop ==> !closed && (outputBusy ==> old(outputReady) || read > 0)
      ensures env.Greedy() ==> !outputBusy
    {
      hide Stream.Valid, Env.Valid, Env.Greedy;
      OpenFacts(Snap(), conf);
      var busyBefore := if outputBusy then BufSize() else 0;
      rc, read := HandOn();
      if rc == OK {
        if outputBusy && busyBefore == BufSize() {
          return true, AGAIN, read;
        }
        return false, OK, read;
      } else if rc == AGAIN {
        return outputBusy, AGAIN, read;
      } else {
        Close();
        return true, ERROR, read;
      }
    }

    /** Points the output buffer at output just taken, ready to be handed on. */
    method Fill(bytes: seq<byte>, last: bool, flush: bool)
      modifies this`outBuf, this`outPos, this`endOfBlock, this`outputReady
      ensures Snap() == old(Snap()).(out := Chunk(bytes, last, flush), outPos := 0, outputReady := true) && !endOfBlock
    {
      outBuf, outPos := Chunk(bytes, last, flush), 0;
      endOfBlock := false;
      outputReady := true;
    }

    /** Puts output just taken into the output buffer. */
    method Load(bytes: seq<byte>, e: State, last: bool, flush: bool)
      requires Idle() && (conf.dict.Some? ==> dcbHeaderSent)
      requires MayTake(Snap(), bytes) && e == enc.(taken := enc.taken + |bytes|) && env.good(e)
      requires last <==> endOfInput && enc.finished && enc.Pending() == |bytes|
      modifies this`enc, this`bytesOut, this`outBuf, this`outPos, this`endOfBlock, this`outputReady
      ensures Valid() && Snap() == Taken(old(Snap()), bytes, last, flush) && !endOfBlock
    {
      hide Stream.Valid, MayTake, BytesOf, Delivered, Env.Valid;
      TakenKeeps(Snap(), conf, bytes, last, flush);
      Fill(bytes, last, flush);
      enc := e;
      bytesOut := (bytesOut + |bytes|) % WORD;
    }

    /** Takes output from the compressor and makes it ready, marking the end of the stream. */
    method StageOutput() returns (stop: bool, ghost out: seq<byte>, ghost flush: bool)
      requires Idle() && enc.Pending() > 0 && (conf.dict.Some? ==> dcbHeaderSent)
      modifies this`now, this`enc, this`bytesOut, this`outBuf, this`outPos, this`endOfBlock, this`outputReady, this`closed
      ensures Valid() && now == old(now) + 1 && (stop <==> env.fails(old(now)))
      ensures stop ==> Snap() == Ended(old(Snap()))
      ensures !stop ==>
                && MayTake(old(Snap()), out)
                && Snap() == Taken(old(Snap()), out, endOfInput && enc.finished && enc.Pending() == 0, flush)
                && flush == (old(endOfBlock) && !(endOfInput && enc.finished && enc.Pending() == 0)) && !endOfBlock
    {
      hide Stream.Valid, Env.Valid;
      OpenFacts(Snap(), conf);
      IdleFacts(Snap(), conf);
      var bytes, e := TakeOutput(env, now, enc, Snap().Unread());
      now := now + 1;
      GoodTaken(env, conf.decode, work, enc, e);
      out, flush := bytes, false;
      if |bytes| == 0 {
        Close();
        return true, out, flush;
      }
      var last, block := false, false;
      var finished := IsFinished(e);
      if endOfInput && finished && e.Pending() == 0 {
        last := true;
      } else if endOfBlock {
        block := true;
      }
      flush := block;
      Load(bytes, e, last, block);
      return false, out, flush;
    }

    /** A compression call, and its record. */
    method Press(op: Operation, data: seq<byte>, ghost link: Option<nat>) returns (ok: bool, consumed: nat, e: State)
      requires env.Valid(conf.decode, work) && env.good(enc) && Callable(enc, op) && Snap().Staged() && Snap().Unread() == 0
      modifies this`now, this`enc, this`feeds
      ensures now == old(now) + 1 && (ok <==> !env.fails(old(now))) && e == enc
      ensures !ok ==> Snap() == old(Snap())
      ensures ok ==>
                && CompressStep(conf.decode, old(enc), op, data, consumed, enc) && env.good(enc)
                && Snap() == old(Snap()).(enc := enc, feeds := old(feeds) + [Feed(link, op, data, consumed)])
                && (consumed == 0 ==> Stalls(env, old(now), old(enc), op, data, enc))
    {
      hide Env.Valid, CompressStep;
      RunSteps(env, conf.decode, work, now, enc, op, data);
      ok, consumed, e := CompressStream(env, now, enc, op, data, Snap().Unread());
      now := now + 1;
      if ok {
        enc := e;
        feeds := feeds + [Feed(link, op, data, consumed)];
      }
    }

    /** Asks the compressor for what is left, all input having been given. */
    method FinishStream() returns (stop: bool)
      requires Idle() && enc.Pending() == 0 && !enc.finished && endOfInput
      modifies this`now, this`enc, this`closed, this`feeds
      ensures Valid() && now == old(now) + 1 && (stop <==> env.fails(old(now)))
      ensures stop ==> Snap() == Ended(old(Snap()))
      ensures !stop ==> CompressStep(conf.decode, old(enc), FINISH, [], 0, enc) && Snap() == Finished(old(Snap()), enc)
      ensures !stop ==> enc.WorkLeft() < old(enc.WorkLeft())
    {
      hide Stream.Valid, Env.Valid;
      OpenFacts(Snap(), conf);
      IdleFacts(Snap(), conf);
      ghost var before := Snap();
      var ok, consumed, e := Press(FINISH, [], None);
      if !ok {
        Close();
        return true;
      }
      FinishedKeeps(before, conf, enc);
      return false;
    }

    /** Counts what a compression call consumed, and moves on in the first link. */
    method Consumed(n: nat)
      requires input != [] && n <= |input[0].data|
      modifies this`bytesIn, this`input
      ensures Snap() == old(Snap()).(bytesIn := (old(bytesIn) + n) % WORD, input := Consume(old(input), n))
    {
      bytesIn := (bytesIn + n) % WORD;
      input := [input[0].(data := input[0].data[n..])] + input[1..];
    }

    /** Takes the first link, all consumed, off the chain. */
    method DropLink()
      requires input != []
      modifies this`input, this`endOfInput, this`endOfBlock, this`gone
      ensures Snap() == LinkDone(old(Snap()))
      ensures endOfBlock == (old(endOfBlock) || (!old(input)[0].lastBuf && old(input)[0].flush))
    {
      if input[0].lastBuf {
        endOfInput := true;
      } else if input[0].flush {
        endOfBlock := true;
      }
      input := input[1..];
      gone := gone + 1;
    }

    /** Books what the compression call just made on the first link of `before` did. */
    method Account(ghost before: Stream, consumed: nat) returns (stop: bool)
      requires MayCompress(before, conf, consumed, enc) && env.Valid(conf.decode, work) && env.good(enc)
      requires initialized && (raws != [] ==> headerOnly)
      requires Snap() == before.(enc := enc, feeds := before.feeds + [Feed(Some(before.gone), OperationFor(before.input[0]), before.input[0].data, consumed)])
      modifies this`closed, this`bytesIn, this`input, this`endOfInput, this`endOfBlock, this`gone
      ensures Valid() && Snap() == AfterCompress(before, conf, consumed, enc)
      ensures stop == closed
      ensures endOfBlock == (old(endOfBlock)
                             || (!closed && consumed == |old(input)[0].data| && !old(input)[0].lastBuf && old(input)[0].flush))
    {
      hide Stream.Valid, CompressStep, Env.Valid, Consume;
      AfterCompressKeeps(before, conf, consumed, enc);
      OpenFacts(before, conf);
      var size := |input[0].data|;
      Consumed(consumed);
      HeadLeft(old(input), consumed);
      if conf.maxLength.Some? && ToOff(bytesIn) > conf.maxLength.value {
        closed := true;
        return true;
      }
      if consumed == size {
        DropLink();
        return false;
      }
      if consumed == 0 {
        closed := true;
        return true;
      }
      return false;
    }

    /** Gives the first link to the compressor, with the operation its marks ask for. */
    method FeedMarked() returns (stop: bool)
      requires Idle() && enc.Pending() == 0 && !enc.finished && !endOfInput && input != []
      modifies this`now, this`enc, this`closed, this`bytesIn, this`input, this`endOfInput, this`endOfBlock, this`gone, this`feeds
      ensures Valid() && (stop <==> closed) && now == old(now) + 1
      ensures stop ==> Cause(old(now), now)
      ensures !stop ==> !env.fails(old(now)) && Weight(input) < old(Weight(input))
      ensures !stop ==> endOfBlock == (old(endOfBlock) || (gone > old(gone) && old(input)[0].flush && !old(input)[0].lastBuf))
    {
      hide Stream.Valid, CompressStep, AfterCompress, Env.Valid, Env.Failed, Stream.OverCap;
      FailedOne(env, now);
      OpenFacts(Snap(), conf);
      IdleFacts(Snap(), conf);
      FinishingFacts(Snap(), conf);
      ghost var before := Snap();
      var link := input[0];
      var op := if link.lastBuf then FINISH else if link.flush then FLUSH else PROCESS;
      var ok, consumed, e := Press(op, link.data, Some(gone));
      if !ok {
        Close();
        return true;
      }
      StepFacts(conf.decode, before.enc, op, link.data, consumed, e);
      AfterCompressKeeps(before, conf, consumed, e);
      LeftChain(before, conf, consumed, e);
      stop := Account(before, consumed);
      if stop { GaveUp(before, conf, consumed, e); }
    }

    /**
     Gives the first link of the chain to the compressor; one without bytes and marks is dropped.  A
     flush is due once a flush link has left the chain.
     */
    method FeedLink() returns (stop: bool)
      requires Idle() && enc.Pending() == 0 && !enc.finished && !endOfInput && input != []
      modifies this`now, this`enc, this`closed, this`bytesIn, this`input, this`endOfInput, this`endOfBlock, this`gone, this`feeds
      ensures Valid() && (stop <==> closed) && old(now) <= now <= old(now) + 1
      ensures !stop ==> Weight(input) < old(Weight(input)) && !env.Failed(old(now), now)
      ensures stop ==> Cause(old(now), now)
      ensures !stop ==> endOfBlock == (old(endOfBlock) || (gone > old(gone) && old(input)[0].flush && !old(input)[0].lastBuf))
    {
      hide Stream.Valid, Env.Valid, Env.Failed, Stream.OverCap;
      FailedOne(env, now);
      OpenFacts(Snap(), conf);
      if |input[0].data| == 0 && !input[0].lastBuf && !input[0].flush {
        DropKeeps(Snap(), conf);
        DropLink();
        return false;
      }
      stop := FeedMarked();
    }

    /** The call of the next filter with the dcb header. */
    method OfferHeader() returns (rc: Code)
      requires conf.dict.Some?
      modifies this`now, this`log
      ensures Snap() == old(Snap()).(log := old(log) + [DcbHeader(conf.dict.value)])
      ensures now == old(now) + 1 && (rc == ERROR <==> env.fails(old(now)))
    {
      log := log + [DcbHeader(conf.dict.value)];
      var read;
      rc, read := NextBodyFilter(env, now, DCB_HEADER_LEN);
      now := now + 1;
    }

    /** Hands the 36-byte dcb header on, ahead of any compressor output. */
    method EmitDcbHeader() returns (ok: bool)
      requires Idle() && conf.dict.Some? && !dcbHeaderSent
      modifies this`now, this`log, this`bytesOut, this`dcbHeaderSent, this`closed
      ensures Valid() && (ok <==> !closed) && old(now) <= now && (closed <==> env.Failed(old(now), now))
      ensures Snap() == Ended(old(Snap())) || Snap() == Headered(old(Snap()), conf.dict.value, ok)
      ensures ok ==> dcbHeaderSent
    {
      hide Stream.Valid, Env.Valid, Env.Failed;
      OpenFacts(Snap(), conf);
      ghost var before := Snap();
      FailedTwo(env, now);
      var gotBuffer := Allocate(env, now);
      now := now + 1;
      if !gotBuffer {
        Close();
        return false;
      }
      var rc := OfferHeader();
      HeaderedKeeps(before, conf, rc != ERROR);
      if rc == ERROR {
        closed := true;
        return false;
      }
      MarkHeader();
      return true;
    }

    method MarkHeader()
      modifies this`bytesOut, this`dcbHeaderSent
      ensures Snap() == old(Snap()).(headerSent := true, bytesOut := (old(bytesOut) + DCB_HEADER_LEN) % WORD)
    {
      bytesOut := (bytesOut + DCB_HEADER_LEN) % WORD;
      dcbHeaderSent := true;
    }

    /** One turn of the main loop, on a stream with nothing handed on and unread. */
    method Turn() returns (done: bool, rc: Code)
      requires Idle() && !success && (conf.dict.Some? ==> dcbHeaderSent)
      modifies this`now, this`enc, this`closed, this`success, this`bytesIn, this`bytesOut, this`input, this`outBuf, this`outPos,
               this`endOfInput, this`endOfBlock, this`outputReady, this`gone, this`feeds
      ensures Valid() && old(now) <= now
      ensures done ==> if closed then (rc == OK <==> success) && (rc == ERROR <==> !success) else rc == OK && Drained()
      ensures done && rc == ERROR ==> Cause(old(now), now)
      ensures !done || rc == OK ==> !env.Failed(old(now), now)
      ensures !done ==> !closed && !success && Smaller(old(Snap()), Snap())
    {
      hide Stream.Valid, CompressStep, MayTake, HasLast, Payload, Bytes, Env.Valid, Env.Failed;
      FailedOne(env, now);
      OpenFacts(Snap(), conf);
      if enc.Pending() > 0 {
        var stop, out, flush := StageOutput();
        TakenIsSmaller(old(Snap()), conf, out, endOfInput && enc.finished && enc.Pending() == 0, flush);
        return stop, ERROR;
      }
      var finished := IsFinished(enc);
      if finished && enc.Pending() == 0 {
        SucceededKeeps(Snap(), conf);
        success := true;
        closed := true;
        assert Snap() == Succeeded(old(Snap()));
        return true, OK;
      }
      if endOfInput {
        var stop := FinishStream();
        return stop, ERROR;
      }
      if input == [] {
        return true, OK;
      }
      var stop := FeedLink();
      return stop, ERROR;
    }

    /** Nothing is left to do until more input comes. */
    predicate Drained()
      requires enc.Valid()
      reads this
    {
      input == [] && !endOfInput && enc.Pending() == 0 && !enc.finished && !outputReady && !outputBusy
    }

    /** One round of the main loop: the next filter first, if it has output to read, else a turn of work. */
    method Round() returns (done: bool, rc: Code)
      requires Valid() && initialized && !closed && !success && (conf.dict.Some? ==> dcbHeaderSent)
      modifies this`now, this`enc, this`closed, this`success, this`bytesIn, this`bytesOut, this`input, this`outBuf, this`outPos,
               this`endOfInput, this`endOfBlock, this`outputReady, this`outputBusy, this`log, this`seen,
               this`gone, this`feeds
      ensures Valid() && old(now) <= now && old(log) <= log && enc.Valid()
      ensures Result(done, rc, old(now))
      ensures !done ==> !closed && !success && rc != ERROR && Smaller(old(Snap()), Snap())
    {
      hide Stream.Valid, Env.Valid, Env.Failed, Env.Greedy, Smaller, Stream.OverCap;
      FailedOne(env, now);
      ClosedFacts(Snap(), conf);
      ghost var before := Snap();
      if outputBusy || outputReady {
        var stop, code, read := PushOutput();
        ClosedFacts(Snap(), conf);
        if !stop { PushedIsSmaller(before, read); }
        return stop, if stop then code else OK;
      }
      done, rc := Turn();
      ClosedFacts(Snap(), conf);
      return done, if done then rc else OK;
    }

    /** What an answer of the main loop, begun at call number `from`, says; `done` is false while it goes on. */
    ghost predicate Result(done: bool, rc: Code, from: nat)
      requires enc.Valid()
      reads this
    {
      && (rc == ERROR ==> closed && !success && Cause(from, now))
      && (rc != ERROR ==> !env.Failed(from, now) && (closed ==> success))
      && (rc == AGAIN ==> !closed && outputBusy && !env.Greedy())
      && (done && rc == OK ==> if closed then success else Drained())
    }

    /**
     The main loop.  It ends: each round uses up input, finishing work, pending output, a stage of
     the output buffer, or bytes of it.  It returns OK on an open stream only with nothing left to
     do, AGAIN only while the next filter holds unread output, and ERROR only with a cause.
     */
    method Loop() returns (rc: Code)
      requires Valid() && initialized && !closed && (conf.dict.Some? ==> dcbHeaderSent)
      modifies this
      ensures Valid() && appended == old(appended) && raws == old(raws) && old(log) <= log && old(now) <= now
      ensures Result(true, rc, old(now))
      ensures rc == AGAIN ==> Snap().Unread() > 0
    {
      hide Stream.Valid, Env.Valid, Env.Failed, Env.Greedy, Stream.OverCap;
      OpenFacts(Snap(), conf);
      FailedOne(env, now);
      var done := false;
      rc := OK;
      while !done
        invariant Valid() && initialized && appended == old(appended) && raws == old(raws) && old(log) <= log && old(now) <= now
        invariant enc.Valid() && Snap().Staged() && Result(done, rc, old(now))
        invariant !done ==> !closed && !success && (conf.dict.Some? ==> dcbHeaderSent) && rc != ERROR
        decreases !done, Weight(input), enc.WorkLeft(), enc.Pending(), Snap().Stage(), Snap().Unread()
      {
        ghost var t := now;
        done, rc := Round();
        FailedSplit(env, old(now), t, now);
        ClosedFacts(Snap(), conf);
      }
    }

    /** Appends a chain to the input. */
    method Append(more: seq<Link>)
      requires Valid() && initialized && !closed
      modifies this`input, this`appended
      ensures Valid() && Snap() == Appended(old(Snap()), more)
    {
      AppendedKeeps(Snap(), conf, more);
      ghost var before := Snap();
      input := input + more;
      appended := appended + more;
      assert Snap() == Appended(before, more);
    }

    /** Sets the compressor and the output buffer up, on the first call. */
    method EnsureInitialized() returns (ok: bool)
      requires Valid() && !closed && !success
      modifies this`now, this`initialized, this`closed
      ensures Valid() && initialized && old(now) <= now && (closed <==> env.Failed(old(now), now)) && (ok <==> !closed)
    {
      hide Stream.Valid, Env.Valid, Env.Failed;
      FailedOne(env, now);
      if initialized {
        return true;
      }
      initialized := true;
      ok := Allocate(env, now);
      now := now + 1;
      if !ok {
        Close();
      }
    }

    /** Copies a chain and appends it to the input. */
    method AppendCopy(more: seq<Link>) returns (ok: bool)
      requires Valid() && initialized && !closed
      modifies this`now, this`input, this`appended, this`closed
      ensures Valid() && old(now) <= now && (closed <==> env.Failed(old(now), now)) && (ok <==> !closed)
      ensures appended == if ok then old(appended) + more else old(appended)
    {
      hide Stream.Valid, Env.Valid, Env.Failed;
      FailedOne(env, now);
      OpenFacts(Snap(), conf);
      ok := Allocate(env, now);
      now := now + 1;
      if ok {
        Append(more);
      } else {
        Close();
      }
    }

    /**
     What one call does before the main loop: the compressor is set up on the first, the dcb header
     goes out once, the chain is appended.
     */
    method Prepare(more: Option<seq<Link>>) returns (ok: bool)
      requires Valid() && !closed && !success
      modifies this
      ensures Valid() && initialized && !success && raws == old(raws) && old(log) <= log && (ok <==> !closed)
      ensures old(now) <= now && (closed <==> env.Failed(old(now), now))
      ensures ok ==> (conf.dict.Some? ==> dcbHeaderSent)
      ensures appended == if ok && more.Some? then old(appended) + more.value else old(appended)
    {
      hide Stream.Valid, Env.Valid, Env.Failed;
      ok := EnsureInitialized();
      if !ok {
        return false;
      }
      ghost var t := now;
      FailedSplit(env, old(now), t, now);
      if conf.dict.Some? && !dcbHeaderSent {
        HeaderDue(Snap(), conf);
        ok := EmitDcbHeader();
        FailedSplit(env, old(now), t, now);
        if !ok {
          return false;
        }
      }
      if more.Some? {
        ghost var u := now;
        ok := AppendCopy(more.value);
        FailedSplit(env, old(now), u, now);
      }
    }

    /**
     One call of the body filter.  A closed or header-only stream passes the chain on untouched;
     otherwise the main loop runs on what was appended so far.  It answers ERROR exactly when it
     gives the stream up, and then for a cause: a call it made failed, the input passed the cap, or
     the compressor took nothing of a link; a call that failed is always answered by ERROR.
     */
    method Filter(more: Option<seq<Link>>) returns (rc: Code)
      requires Valid()
      modifies this
      ensures Valid() && old(log) <= log && old(now) <= now
      ensures old(closed) || headerOnly ==> Snap() == old(Snap()) && raws == old(raws) + [more]
      ensures !old(closed) && !headerOnly ==>
                && raws == old(raws)
                && (appended == old(appended) || (more.Some? && appended == old(appended) + more.value))
                && (success && more.Some? ==> appended == old(appended) + more.value)
                && (rc == OK && HasLast(appended) ==> success)
                && (closed ==> (rc == OK <==> success) && (rc == ERROR <==> !success))
                && (!closed ==>
                      && (more.Some? ==> appended == old(appended) + more.value)
                      && (rc == OK ==> Drained())
                      && (rc != OK ==> rc == AGAIN && outputBusy && Snap().Unread() > 0))
      ensures !old(closed) && !headerOnly ==>
                && (rc == ERROR ==> Cause(old(now), now))
                && (rc != ERROR ==> !env.Failed(old(now), now) && !Snap().OverCap(conf))
                && (env.Greedy() ==> rc != AGAIN)
    {
      hide Stream.Valid, Env.Valid, Env.Failed;
      ClosedFacts(Snap(), conf);
      if closed || headerOnly {
        var read;
        rc, read := NextBodyFilter(env, now, 0);
        now := now + 1;
        raws := raws + [more];
        return rc;
      }
      var ok := Prepare(more);
      if !ok {
        return ERROR;
      }
      ghost var prepared := now;
      rc := Loop();
      FailedSplit(env, old(now), prepared, now);
      WithinCap(Snap(), conf);
      if !closed && rc == OK { IncompleteFacts(Snap(), conf); }
    }
  }

  /** One compression call that consumes nothing. */
  ghost predicate Stalls(env: Env, t: nat, e: State, op: Operation, input: seq<byte>, e': State) {
    env.good(e) && Callable(e, op) && env.run(t, e, op, input) == (0, e')
  }

  /** What a compression call leaves of the first link. */
  lemma HeadLeft(links: seq<Link>, n: nat)
    requires links != [] && n <= |links[0].data|
    ensures var c := Consume(links, n);
            && c != [] && c[0].lastBuf == links[0].lastBuf && c[0].flush == links[0].flush && c[1..] == links[1..]
  {}

  lemma GoodTaken(env: Env, decode: Decoder, work: nat, e: State, e': State)
    requires env.Valid(decode, work) && env.good(e) && e.Valid() && e'.Valid()
    requires e.taken <= e'.taken && e' == e.(taken := e'.taken)
    ensures env.good(e')
  {}

  lemma IdleFacts(s: Stream, c: Config)
    requires s.Valid(c) && !s.outputReady && !s.outputBusy
    ensures s.Staged() && s.Unread() == 0
  {}

  lemma WithinCap(s: Stream, c: Config)
    requires s.Valid(c)
    ensures !s.closed || s.success ==> !s.OverCap(c)
  {}

  /** The first link has left the chain, of a stream still open, exactly when the call took all that was left of it. */
  lemma LeftChain(s: Stream, c: Config, n: nat, e: State)
    requires s.input != [] && n <= |s.input[0].data|
    ensures var t := AfterCompress(s, c, n, e); !t.closed ==> (t.gone > s.gone <==> n == |s.input[0].data|)
  {
    hide Stream.OverCap;
  }

  /** A compression call after which the stream is closed went over the cap, or took nothing. */
  lemma GaveUp(s: Stream, c: Config, n: nat, e: State)
    requires s.input != [] && n <= |s.input[0].data| && !s.closed && AfterCompress(s, c, n, e).closed
    ensures var t := AfterCompress(s, c, n, e);
            t.OverCap(c) || (n == 0 && t.enc == e && t.input != [] && t.input[0] == s.input[0] && s.input[0].data != [])
  {
    hide Stream.Valid;
    assert s.input[0].data[0..] == s.input[0].data;
  }

  /** With no input left and the end of the input not seen, no last buffer was given. */
  lemma IncompleteFacts(s: Stream, c: Config)
    requires s.Valid(c) && s.input == [] && !s.endOfInput
    ensures !HasLast(s.appended)
  {}

  lemma HeaderDue(s: Stream, c: Config)
    requires s.Valid(c) && !s.closed && c.dict.Some? && !s.headerSent
    ensures !s.outputReady && !s.outputBusy
  {}

  lemma ClosedFacts(s: Stream, c: Config)
    requires s.Valid(c)
    ensures s.enc.Valid() && s.Staged() && (s.success ==> s.closed) && (!s.closed && s.outputBusy ==> s.Unread() > 0)
  {}

  lemma OpenFacts(s: Stream, c: Config)
    requires s.Valid(c) && !s.closed
    ensures s.enc.Valid() && s.Staged() && !s.success
  {}

  lemma FinishingFacts(s: Stream, c: Config)
    requires s.Valid(c) && !s.closed && !s.endOfInput && s.input != []
    ensures s.enc.finishing ==> s.input[0].lastBuf
  {}

  lemma StepFacts(decode: Decoder, e: State, op: Operation, input: seq<byte>, n: nat, e': State)
    requires CompressStep(decode, e, op, input, n, e')
    ensures n <= |input| && e'.Valid()
  {}
}
