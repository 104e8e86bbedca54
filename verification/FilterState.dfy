/**
 The body filter's state and its steps, as values.

 A `Stream` holds the fields of the per-request context together with a record of everything
 appended to the input and everything handed to the next filter while the stream was open, so that
 the invariant `Valid` speaks about whole runs.  The class in BodyFilter.dfy takes these steps in
 place, and records the chains that a closed stream passes on untouched.
 */
module FilterState {
  import opened Options
  import opened Octets
  import opened Encoder
  import opened Links

  const WORD: nat := 0x1_0000_0000_0000_0000
  const DCB_MAGIC: seq<byte> := [0xff, 0x44, 0x43, 0x42]
  const DCB_HEADER_LEN: nat := 36

  /** A 64-bit counter read as off_t. */
  function ToOff(n: nat): int
    requires n < WORD
  {
    if n < WORD / 2 then n else n - WORD
  }

  /** Fixed for the request: the negotiated dictionary's hash (None is plain br) and the input cap. */
  datatype Config = Config(decode: Decoder, dict: Option<seq<byte>>, maxLength: Option<nat>)
  {
    predicate Valid() {
      (dict.Some? ==> |dict.value| == 32) && (maxLength.Some? ==> maxLength.value < WORD / 2)
    }
  }

  // ----- what the next filter is handed -----

  datatype Handed = DcbHeader(hash: seq<byte>) | Chunk(bytes: seq<byte>, last: bool, flush: bool) | Poll

  function BytesOf(h: Handed): seq<byte> {
    match h
    case DcbHeader(hash) => DCB_MAGIC + hash
    case Chunk(bytes, _, _) => bytes
    case Poll => []
  }

  /** All bytes handed on, in order. */
  function Delivered(log: seq<Handed>): seq<byte> {
    if log == [] then [] else Delivered(log[..|log| - 1]) + BytesOf(log[|log| - 1])
  }

  predicate IsLastChunk(h: Handed) {
    h.Chunk? && h.last
  }

  predicate LastSent(log: seq<Handed>) {
    exists i | 0 <= i < |log| :: IsLastChunk(log[i])
  }

  /** A chunk marked last is the final chunk. */
  predicate LastIsFinal(log: seq<Handed>) {
    forall i, j | 0 <= i < j < |log| :: IsLastChunk(log[i]) ==> !log[j].Chunk?
  }

  predicate HeaderFirst(log: seq<Handed>) {
    forall i | 0 < i < |log| :: !log[i].DcbHeader?
  }

  predicate NoChunks(log: seq<Handed>) {
    forall i | 0 <= i < |log| :: !log[i].Chunk?
  }

  function HeaderOf(log: seq<Handed>): seq<byte> {
    if log != [] && log[0].DcbHeader? then BytesOf(log[0]) else []
  }

  lemma DeliveredSnoc(log: seq<Handed>, h: Handed)
    ensures Delivered(log + [h]) == Delivered(log) + BytesOf(h)
  {
    assert (log + [h])[..|log|] == log;
  }

  lemma MarksSnoc(log: seq<Handed>, h: Handed)
    ensures LastSent(log + [h]) <==> LastSent(log) || IsLastChunk(h)
    ensures LastIsFinal(log) && (h.Chunk? ==> !LastSent(log)) ==> LastIsFinal(log + [h])
    ensures HeaderFirst(log) && (log == [] || !h.DcbHeader?) ==> HeaderFirst(log + [h])
    ensures NoChunks(log + [h]) <==> NoChunks(log) && !h.Chunk?
    ensures log != [] || !h.DcbHeader? ==> HeaderOf(log + [h]) == HeaderOf(log)
  {
    var l := log + [h];
    assert l[|log|] == h && forall i | 0 <= i < |log| :: l[i] == log[i];
    if LastSent(log) {
      var i :| 0 <= i < |log| && IsLastChunk(log[i]);
      assert IsLastChunk(l[i]);
    }
    if NoChunks(l) {
      forall i | 0 <= i < |log| ensures !log[i].Chunk? { assert !l[i].Chunk?; }
    }
  }

  // ----- what the compressor is given -----

  /**
   A compression call: on which link of all those ever given (None once the input is over), with
   which operation, the bytes offered and how many of them were consumed.
   */
  datatype Feed = Feed(link: Option<nat>, op: Operation, offered: seq<byte>, consumed: nat)

  /** The call gave what was left of its link, with the operation its marks ask for. */
  predicate FeedFits(f: Feed, links: seq<Link>) {
    match f.link
    case None => f.op == FINISH && f.offered == []
    case Some(i) =>
      && i < |links| && f.consumed <= |f.offered| <= |links[i].data|
      && f.offered == links[i].data[|links[i].data| - |f.offered|..]
      && (f.op == FINISH <==> links[i].lastBuf)
      && (f.op == FLUSH <==> links[i].flush && !links[i].lastBuf)
      && (f.op == PROCESS <==> !links[i].flush && !links[i].lastBuf)
  }

  predicate Empties(f: Feed, i: nat) {
    f.link == Some(i) && f.consumed == |f.offered|
  }

  /** Some call took all that was left of link `i`. */
  predicate WhollyFed(feeds: seq<Feed>, i: nat) {
    exists k | 0 <= k < |feeds| :: Empties(feeds[k], i)
  }

  /** Once FINISH was given there is no other operation. */
  predicate FinishLasts(feeds: seq<Feed>) {
    forall j, k | 0 <= j < k < |feeds| :: feeds[j].op == FINISH ==> feeds[k].op == FINISH
  }

  /** FINISH without a link comes after FINISH on one. */
  predicate FinishStarts(feeds: seq<Feed>) {
    forall k | 0 <= k < |feeds| && feeds[k].link == None :: k > 0 && feeds[k - 1].op == FINISH
  }

  predicate AllFit(feeds: seq<Feed>, links: seq<Link>) {
    forall k | 0 <= k < |feeds| :: FeedFits(feeds[k], links)
  }

  lemma FeedsSnoc(feeds: seq<Feed>, f: Feed, links: seq<Link>)
    requires AllFit(feeds, links) && FinishLasts(feeds) && FinishStarts(feeds) && FeedFits(f, links)
    requires (exists k | 0 <= k < |feeds| :: feeds[k].op == FINISH) ==> f.op == FINISH
    requires f.link == None ==> feeds != [] && feeds[|feeds| - 1].op == FINISH
    ensures var l := feeds + [f]; AllFit(l, links) && FinishLasts(l) && FinishStarts(l)
    ensures forall i: nat | WhollyFed(feeds, i) || Empties(f, i) :: WhollyFed(feeds + [f], i)
  {
    var l := feeds + [f];
    assert l[|feeds|] == f && forall k | 0 <= k < |feeds| :: l[k] == feeds[k];
    forall i: nat | WhollyFed(feeds, i) || Empties(f, i) ensures WhollyFed(l, i) {
      if WhollyFed(feeds, i) {
        var k :| 0 <= k < |feeds| && Empties(feeds[k], i);
        assert Empties(l[k], i);
      } else {
        assert Empties(l[|feeds|], i);
      }
    }
  }

  // ----- the state -----

  datatype Stream = Stream(
    enc: State,
    bytesIn: nat, bytesOut: nat,
    input: seq<Link>,
    out: Handed, outPos: nat,            // the output buffer and how much of it is read
    closed: bool, success: bool,
    outputReady: bool, outputBusy: bool,
    endOfInput: bool,
    headerSent: bool,
    appended: seq<Link>,                 // every link ever given
    log: seq<Handed>,                    // everything handed on while open
    seen: seq<byte>,                     // compressor output that the next filter has read
    gone: nat,                           // how many of the links given have left the chain
    feeds: seq<Feed>)                    // every compression call
  {
    /** 64-bit counters of what was consumed and what was taken, the dcb header included. */
    predicate Counted() {
      && bytesIn == |enc.fed| % WORD
      && bytesOut == ((if headerSent then DCB_HEADER_LEN else 0) + enc.taken) % WORD
    }

    /** Every byte appended is consumed or still in the chain; the compressor sees the payload. */
    predicate Conserved() {
      && Bytes(appended) == enc.fed + Bytes(input)
      && (if endOfInput then HasLast(appended) && enc.fed == Payload(appended)
          else Payload(appended) == enc.fed + Payload(input) && (HasLast(appended) <==> HasLast(input)))
      && (forall l | l in input :: |l.data| <= Biggest(appended))
    }

    /** FINISH is given only for the last buffer, and finishes with everything decodable. */
    predicate Finishing(c: Config) {
      && (enc.finished ==> c.decode(enc.produced) == Some(enc.fed))
      && (!closed ==>
            && (enc.finishing ==> endOfInput || (input != [] && input[0].lastBuf))
            && (enc.finished ==> endOfInput))
    }

    /** Output taken from the compressor and not handed on yet. */
    function Waiting(): seq<byte> {
      if outputReady then BytesOf(out) else []
    }

    /** What was handed on is the header and then the compressor's output, in order, once. */
    predicate InOrder()
      requires enc.Valid()
    {
      Delivered(log) + Waiting() == HeaderOf(log) + enc.produced[..enc.taken]
    }

    /** The bytes of the output buffer that are still to be read. */
    function Held(): seq<byte>
      requires Staged()
    {
      if out.Chunk? then out.bytes[outPos..] else []
    }

    /** What was read and what is left in the buffer are the output taken so far: no byte is overwritten unread. */
    predicate AllRead()
      requires enc.Valid() && Staged()
    {
      seen + Held() == enc.produced[..enc.taken]
    }

    /** The chain is what was given but for the links gone and what was consumed of the next. */
    predicate Chained() {
      && gone + |input| == |appended|
      && (input != [] ==>
            && input[1..] == appended[gone + 1..]
            && input[0].lastBuf == appended[gone].lastBuf && input[0].flush == appended[gone].flush
            && |input[0].data| <= |appended[gone].data|
            && input[0].data == appended[gone].data[|appended[gone].data| - |input[0].data|..])
    }

    /** An empty link at the head of an open chain was empty when it was given. */
    predicate EmptyAsGiven()
      requires Chained()
    {
      !closed && input != [] && input[0].data == [] ==> appended[gone].data == []
    }

    /** Every link that is gone was given to the compressor to its end, unless it had no bytes and no marks. */
    predicate GoneFed() {
      gone <= |appended| &&
      forall i | 0 <= i < gone :: appended[i] == Link([], false, false) || WhollyFed(feeds, i)
    }

    /** The operations are those that the links ask for, in an order that the compressor allows. */
    predicate Fed() {
      && Chained() && GoneFed()
      && AllFit(feeds, appended) && FinishLasts(feeds) && FinishStarts(feeds)
      && ((exists k | 0 <= k < |feeds| :: feeds[k].op == FINISH) ==> enc.finishing)
      && (enc.finishing ==> feeds != [] && feeds[|feeds| - 1].op == FINISH)
      && (endOfInput ==> enc.finishing)
    }

    /** The header comes first, when there is a dictionary, and before any output. */
    predicate Headed(c: Config) {
      && HeaderFirst(log)
      && (headerSent ==> HeaderOf(log) != [])
      && (HeaderOf(log) != [] ==> c.dict.Some? && HeaderOf(log) == DCB_MAGIC + c.dict.value && (headerSent || closed))
      && (c.dict.Some? && !headerSent ==>
            enc.taken == 0 && !outputReady && !outputBusy && NoChunks(log) && (!closed ==> log == []))
    }

    /** The last mark is on the final chunk, and there exactly when the stream is all taken. */
    predicate Marked()
      requires enc.Valid()
    {
      && LastIsFinal(log)
      && (outputReady ==> !LastSent(log))
      && (LastSent(log) || (outputReady && IsLastChunk(out)) <==> enc.finished && enc.Pending() == 0)
      && (success ==> closed && endOfInput && !outputReady && !outputBusy && LastSent(log))
    }

    /** The stages of the output buffer: ready to hand on, being read, or all read. */
    predicate Staged() {
      && !(outputReady && outputBusy)
      && (outputReady || outputBusy ==> out.Chunk?)
      && (out.Chunk? ==> outPos <= |out.bytes|)
      && (outputReady ==> outPos == 0 && out.bytes != [])
      && (outputBusy ==> out in log && outPos < |out.bytes|)
      && (!outputReady && !outputBusy && out.Chunk? ==> outPos == |out.bytes|)
    }

    /** The sizes are such that no overrun reaches the sign bit of the counter. */
    predicate Countable(c: Config) {
      c.maxLength.Some? && (|Bytes(appended)| < WORD / 2 || c.maxLength.value + Biggest(appended) < WORD / 2)
    }

    /** The input cap. */
    predicate Capped(c: Config) {
      && (!closed || success ==> !OverCap(c))
      && (Countable(c) ==>
            && (!closed ==> |enc.fed| <= c.maxLength.value)
            && |enc.fed| <= c.maxLength.value + Biggest(appended))
    }

    /** The cap as the program tests it, on the 64-bit counter read as a signed size. */
    predicate OverCap(c: Config) {
      c.maxLength.Some? && bytesIn < WORD && ToOff(bytesIn) > c.maxLength.value
    }

    predicate Valid(c: Config) {
      && c.Valid() && enc.Valid()
      && Counted() && Conserved() && Finishing(c) && InOrder() && Headed(c) && Marked() && Staged() && AllRead() && Capped(c) && Fed() && EmptyAsGiven()
    }

    function Stage(): nat {
      if outputReady then 2 else if outputBusy then 1 else 0
    }

    /** Bytes of the output buffer the next filter has not read. */
    function Unread(): nat
      requires Staged()
    {
      if out.Chunk? then |out.bytes| - outPos else 0
    }
  }

  function Fresh(work: nat): Stream {
    Stream(Initial(work), 0, 0, [], Poll, 0, false, false, false, false, false, false, [], [], [], 0, [])
  }

  lemma FreshIsValid(c: Config, work: nat)
    requires c.Valid()
    ensures Fresh(work).Valid(c)
  {}

  // ----- the steps -----

  /** One call of the next filter, which reads `read` more bytes of the output buffer. */
  function Pushed(s: Stream, read: nat): Stream
    requires s.Staged() && (s.outputReady || s.outputBusy) && read <= s.Unread()
  {
    s.(log := s.log + [if s.outputReady then s.out else Poll],
       outPos := s.outPos + read,
       seen := s.seen + s.out.bytes[s.outPos..s.outPos + read],
       outputReady := false,
       outputBusy := s.Unread() != read)
  }

  /** A step that leaves input, counter and what the compressor did alone keeps what is said about them. */
  lemma InputSame(s: Stream, t: Stream, c: Config)
    requires s.Conserved() && s.Finishing(c) && s.Capped(c) && s.Fed()
    requires t.gone == s.gone && t.feeds == s.feeds
    requires t.enc == s.enc.(taken := t.enc.taken) && t.bytesIn == s.bytesIn
    requires t.input == s.input && t.appended == s.appended && t.endOfInput == s.endOfInput
    requires (s.closed ==> t.closed) && (t.success ==> s.success || !s.closed)
    ensures t.Conserved() && t.Finishing(c) && t.Capped(c) && t.Fed() && (s.EmptyAsGiven() ==> t.EmptyAsGiven())
  {
    hide Bytes, Payload, HasLast, Biggest, Stream.OverCap, AllFit, FinishLasts, FinishStarts, WhollyFed;
    assert t.OverCap(c) == s.OverCap(c) by { OverCapSame(s, t, c); }
  }

  lemma OverCapSame(s: Stream, t: Stream, c: Config)
    requires s.bytesIn == t.bytesIn
    ensures s.OverCap(c) == t.OverCap(c)
  {}

  lemma PushedKeeps(s: Stream, c: Config, read: nat)
    requires s.Valid(c) && !s.closed && (s.outputReady || s.outputBusy) && read <= s.Unread()
    ensures Pushed(s, read).Valid(c)
  {
    hide Stream.Conserved, Stream.Finishing, Stream.Capped, Stream.InOrder, Stream.Headed, Stream.Marked, Stream.AllRead, Stream.Staged;
    InputSame(s, Pushed(s, read), c);
    PushedOrder(s, c, read);
    PushedMarks(s, read);
    PushedRead(s, read);
  }

  lemma PushedOrder(s: Stream, c: Config, read: nat)
    requires s.enc.Valid() && s.Staged() && (s.outputReady || s.outputBusy) && read <= s.Unread()
    requires s.InOrder() && s.Headed(c) && !s.closed
    ensures Pushed(s, read).InOrder() && Pushed(s, read).Headed(c)
  {
    hide Delivered, HeaderFirst, NoChunks, HeaderOf, LastIsFinal, LastSent;
    var h := if s.outputReady then s.out else Poll;
    DeliveredSnoc(s.log, h);
    MarksSnoc(s.log, h);
    assert s.Waiting() + [] == s.Waiting();
  }

  lemma PushedMarks(s: Stream, read: nat)
    requires s.enc.Valid() && s.Staged() && (s.outputReady || s.outputBusy) && read <= s.Unread() && s.Marked() && !s.closed
    ensures Pushed(s, read).Marked()
  {
    hide HeaderFirst, NoChunks, HeaderOf, LastIsFinal, LastSent;
    MarksSnoc(s.log, if s.outputReady then s.out else Poll);
  }

  lemma PushedRead(s: Stream, read: nat)
    requires s.enc.Valid() && s.Staged() && (s.outputReady || s.outputBusy) && read <= s.Unread() && s.AllRead()
    ensures Pushed(s, read).Staged() && Pushed(s, read).AllRead()
  {
    var b, p := s.out.bytes, s.outPos;
    assert b[p..] == b[p..p + read] + b[p + read..];
    assert s.seen + b[p..] == (s.seen + b[p..p + read]) + b[p + read..];
  }

  function Ended(s: Stream): Stream {
    s.(closed := true)
  }

  lemma EndedKeeps(s: Stream, c: Config)
    requires s.Valid(c) && !s.success
    ensures Ended(s).Valid(c)
  {
    hide Bytes, Payload, HasLast, Biggest, Delivered, LastIsFinal, HeaderFirst, NoChunks, LastSent, HeaderOf, Stream.OverCap;
    OverCapSame(s, Ended(s), c);
  }

  /** Output `out` taken from the compressor into the output buffer. */
  function Taken(s: Stream, out: seq<byte>, last: bool, flush: bool): Stream {
    s.(enc := s.enc.(taken := s.enc.taken + |out|),
       bytesOut := (s.bytesOut + |out|) % WORD,
       out := Chunk(out, last, flush),
       outPos := 0,
       outputReady := true)
  }

  predicate MayTake(s: Stream, out: seq<byte>)
    requires s.enc.Valid()
  {
    out != [] && |out| <= s.enc.Pending() && out == s.enc.produced[s.enc.taken..s.enc.taken + |out|]
  }

  lemma TakenInOrder(s: Stream, out: seq<byte>, last: bool, flush: bool)
    requires s.enc.Valid() && s.InOrder() && !s.outputReady && MayTake(s, out)
    ensures Taken(s, out, last, flush).enc.Valid() && Taken(s, out, last, flush).InOrder()
  {
    hide Delivered, HeaderOf;
    var n := s.enc.taken;
    assert s.enc.produced[..n + |out|] == s.enc.produced[..n] + out;
    assert Delivered(s.log) + [] == Delivered(s.log);
    assert HeaderOf(s.log) + (s.enc.produced[..n] + out) == (HeaderOf(s.log) + s.enc.produced[..n]) + out;
  }

  /** Nothing unread is lost: the buffer is all read before it is loaded again. */
  lemma TakenRead(s: Stream, out: seq<byte>, last: bool, flush: bool)
    requires s.enc.Valid() && s.Staged() && s.AllRead() && s.Unread() == 0 && !s.outputBusy && MayTake(s, out)
    ensures var t := Taken(s, out, last, flush); t.enc.Valid() && t.Staged() && t.AllRead()
  {
    var n := s.enc.taken;
    assert s.enc.produced[..n + |out|] == s.enc.produced[..n] + out;
    assert s.seen + [] == s.seen && out[0..] == out;
  }

  lemma TakenMarks(s: Stream, c: Config, out: seq<byte>, last: bool, flush: bool)
    requires s.enc.Valid() && s.Counted() && s.Headed(c) && s.Marked() && !s.closed
    requires !s.outputReady && !s.outputBusy && (c.dict.Some? ==> s.headerSent) && MayTake(s, out)
    requires last <==> s.endOfInput && s.enc.finished && s.enc.Pending() == |out|
    requires s.enc.finished ==> s.endOfInput
    ensures var t := Taken(s, out, last, flush); t.enc.Valid() && t.Counted() && t.Headed(c) && t.Marked()
  {
    hide LastSent, LastIsFinal, HeaderFirst, NoChunks, HeaderOf;
  }

  lemma TakenKeeps(s: Stream, c: Config, out: seq<byte>, last: bool, flush: bool)
    requires s.Valid(c) && !s.closed && !s.outputReady && !s.outputBusy && (c.dict.Some? ==> s.headerSent)
    requires MayTake(s, out) && (last <==> s.endOfInput && s.enc.finished && s.enc.Pending() == |out|)
    ensures Taken(s, out, last, flush).Valid(c)
  {
    hide Stream.Conserved, Stream.Capped, Stream.InOrder, Stream.Headed, Stream.Marked, Stream.AllRead;
    TakenInOrder(s, out, last, flush);
    TakenRead(s, out, last, flush);
    TakenMarks(s, c, out, last, flush);
    InputSame(s, Taken(s, out, last, flush), c);
  }

  /** The state after a compression call that gives no input. */
  function Finished(s: Stream, e: State): Stream {
    s.(enc := e, feeds := s.feeds + [Feed(None, FINISH, [], 0)])
  }

  lemma FinishedKeeps(s: Stream, c: Config, e: State)
    requires s.Valid(c) && !s.closed && s.endOfInput && s.enc.Pending() == 0 && !s.enc.finished
    requires !s.outputReady && !s.outputBusy && CompressStep(c.decode, s.enc, FINISH, [], 0, e)
    ensures Finished(s, e).Valid(c)
  {
    hide Delivered, LastSent, LastIsFinal, HeaderFirst, NoChunks, HeaderOf, Bytes, Payload, HasLast, Biggest;
    assert s.enc.finishing && e.finishing && s.Fed() && s.EmptyAsGiven();
    hide Stream.Fed;
    assert e.fed == s.enc.fed;
    assert e.produced[..e.taken] == s.enc.produced[..s.enc.taken];
    FinishedFed(s, e);
  }

  lemma FinishedFed(s: Stream, e: State)
    requires s.Fed() && s.enc.finishing && e.finishing
    ensures Finished(s, e).Fed() && (s.EmptyAsGiven() ==> Finished(s, e).EmptyAsGiven())
  {
    hide AllFit, FinishLasts, FinishStarts, WhollyFed;
    FeedsSnoc(s.feeds, Feed(None, FINISH, [], 0), s.appended);
  }

  /** The state after a compression call that consumed `n` bytes of the first link. */
  function Compressed(s: Stream, n: nat, e: State): Stream
    requires s.input != [] && n <= |s.input[0].data|
  {
    s.(enc := e, bytesIn := (s.bytesIn + n) % WORD, input := Consume(s.input, n),
       feeds := s.feeds + [Feed(Some(s.gone), OperationFor(s.input[0]), s.input[0].data, n)])
  }

  /** The first link, all consumed, leaves the chain; a last buffer ends the input. */
  function LinkDone(s: Stream): Stream
    requires s.input != []
  {
    s.(input := s.input[1..], gone := s.gone + 1, endOfInput := s.endOfInput || s.input[0].lastBuf)
  }

  function OperationFor(l: Link): Operation {
    if l.lastBuf then FINISH else if l.flush then FLUSH else PROCESS
  }

  /** A compression call on the first link is in order here, and gave this. */
  predicate MayCompress(s: Stream, c: Config, n: nat, e: State) {
    && s.Valid(c) && !s.closed && !s.outputReady && !s.outputBusy && !s.endOfInput && s.input != []
    && s.enc.Pending() == 0 && !s.enc.finished
    && n <= |s.input[0].data|
    && CompressStep(c.decode, s.enc, OperationFor(s.input[0]), s.input[0].data, n, e)
  }

  /** A compression call on the first link gives what is left of it, as its marks ask. */
  lemma CompressedFed(s: Stream, c: Config, n: nat, e: State)
    requires MayCompress(s, c, n, e)
    ensures Compressed(s, n, e).Fed() && WholeIfDone(s, n, e)
  {
    hide AllFit, FinishLasts, FinishStarts, WhollyFed, Stream.InOrder, Stream.Headed, Stream.Marked, Stream.Staged, Stream.AllRead,
         Stream.Capped, Stream.Conserved, Stream.Counted;
    var l, f := s.appended[s.gone], Feed(Some(s.gone), OperationFor(s.input[0]), s.input[0].data, n);
    FeedsSnoc(s.feeds, f, s.appended);
    var t := Compressed(s, n, e);
    assert t.input[1..] == s.input[1..];
    assert t.Chained() && t.GoneFed();
  }

  /** A call that took the rest of its link is on record. */
  predicate WholeIfDone(s: Stream, n: nat, e: State)
    requires s.input != [] && n <= |s.input[0].data|
  {
    n == |s.input[0].data| ==> WhollyFed(Compressed(s, n, e).feeds, s.gone)
  }

  lemma LinkDoneChained(t: Stream)
    requires t.Chained() && t.input != [] && (t.input[0].data == [])
    ensures LinkDone(t).Chained() && LinkDone(t).EmptyAsGiven()
  {
    var u := LinkDone(t);
    assert u.input == t.appended[u.gone..];
  }

  lemma LinkDoneFed(t: Stream)
    requires t.Fed() && t.input != [] && t.input[0].data == [] && (t.input[0].lastBuf ==> t.enc.finishing)
    requires t.appended[t.gone] == Link([], false, false) || WhollyFed(t.feeds, t.gone)
    ensures LinkDone(t).Fed() && LinkDone(t).EmptyAsGiven()
  {
    LinkDoneChained(t);
    hide AllFit, FinishLasts, FinishStarts, WhollyFed, Stream.EmptyAsGiven;
    assert t.gone < |t.appended|;
    hide Stream.Chained;
    assert LinkDone(t).GoneFed();
  }

  lemma AppendedGone(s: Stream, more: seq<Link>)
    requires s.GoneFed()
    ensures Appended(s, more).GoneFed()
  {
    hide WhollyFed;
    var all := s.appended + more;
    assert forall i | 0 <= i < s.gone :: all[i] == s.appended[i];
  }

  lemma AppendedFed(s: Stream, more: seq<Link>)
    requires s.Fed() && s.EmptyAsGiven()
    ensures Appended(s, more).Fed() && Appended(s, more).EmptyAsGiven()
  {
    hide AllFit, FinishLasts, FinishStarts, WhollyFed, Stream.Chained, Stream.EmptyAsGiven, Stream.GoneFed;
    assert s.Chained();
    AppendedChained(s, more);
    AppendedGone(s, more);
    FitsMore(s.feeds, s.appended, more);
  }

  lemma TailJoin<T>(a: seq<T>, b: seq<T>, k: nat)
    requires k <= |a|
    ensures (a + b)[k..] == a[k..] + b && forall i | 0 <= i < |a| :: (a + b)[i] == a[i]
  {}

  lemma AppendedChained(s: Stream, more: seq<Link>)
    requires s.Chained() && s.EmptyAsGiven()
    ensures Appended(s, more).Chained() && Appended(s, more).EmptyAsGiven() && s.gone <= |s.appended|
  {
    if s.input == [] {
      AppendedToNone(s, more);
    } else {
      TailJoin(s.input, more, 1);
      TailJoin(s.appended, more, s.gone + 1);
    }
  }

  lemma AppendedToNone(s: Stream, more: seq<Link>)
    requires s.Chained() && s.input == []
    ensures Appended(s, more).Chained() && Appended(s, more).EmptyAsGiven()
  {
    var t := Appended(s, more);
    assert t.input == more;
    if more != [] {
      TailJoin(s.appended, more, s.gone);
      TailJoin(s.appended + [more[0]], more[1..], s.gone + 1);
      assert more == [more[0]] + more[1..] && t.appended == (s.appended + [more[0]]) + more[1..];
      assert t.appended[s.gone] == more[0];
    }
  }

  lemma FitsMore(feeds: seq<Feed>, links: seq<Link>, more: seq<Link>)
    requires AllFit(feeds, links)
    ensures AllFit(feeds, links + more)
  {
    forall k | 0 <= k < |feeds| ensures FeedFits(feeds[k], links + more) {
      assert FeedFits(feeds[k], links);
    }
  }

  /** What every outcome of a compression call keeps. */
  lemma CompressedCore(s: Stream, c: Config, n: nat, e: State)
    requires MayCompress(s, c, n, e)
    ensures var t := Compressed(s, n, e);
            t.Counted() && t.Conserved() && t.InOrder() && t.Headed(c) && t.Marked() && t.Staged() && t.AllRead()
    ensures s.Countable(c) ==> |e.fed| <= c.maxLength.value + Biggest(s.appended)
    ensures |e.fed| <= |Bytes(s.appended)|
  {
    hide Delivered, LastSent, LastIsFinal, HeaderFirst, NoChunks, HeaderOf, Bytes, Payload, HasLast, Biggest, Consume;
    var l := s.input[0];
    assert e.produced[..e.taken] == s.enc.produced[..s.enc.taken];
    ConsumeFacts(s.input, n);
    ConsumeMarks(s.input, n, Biggest(s.appended));
    assert e.fed == s.enc.fed + l.data[..n];
    var t := Compressed(s, n, e);
    assert s.enc.fed + (l.data[..n] + Bytes(t.input)) == e.fed + Bytes(t.input);
    assert s.enc.fed + (l.data[..n] + Payload(t.input)) == e.fed + Payload(t.input);
    assert |l.data| <= Biggest(s.appended);
    assert t.Counted() && t.Conserved() && t.Headed(c) && t.Staged();
  }

  /** When the test fires: it sees the size modulo 2^64, and not at all in the upper half. */
  lemma CapTest(s: Stream, c: Config)
    requires s.Counted() && c.maxLength.Some?
    ensures s.OverCap(c) <==> c.maxLength.value < |s.enc.fed| % 0x1_0000_0000_0000_0000 < 0x8000_0000_0000_0000
  {}

  /** The call took the rest of the first link. */
  lemma LinkDoneKeeps(s: Stream, c: Config, e: State)
    requires s.input != [] && MayCompress(s, c, |s.input[0].data|, e)
    requires !Compressed(s, |s.input[0].data|, e).OverCap(c)
    ensures LinkDone(Compressed(s, |s.input[0].data|, e)).Valid(c)
  {
    hide Stream.InOrder, Stream.Headed, Stream.Marked, Stream.Staged, Stream.Counted, Stream.Conserved, Stream.OverCap, Stream.Capped,
         Stream.Fed, Stream.AllRead;
    var n := |s.input[0].data|;
    CompressedCore(s, c, n, e);
    CompressedFed(s, c, n, e);
    var t := Compressed(s, n, e);
    assert t.input[0] == s.input[0].(data := []);
    LinkDoneConserves(t);
    LinkDoneSame(t);
    UnderCap(s, c, n, e);
    LinkDoneFinishing(s, c, e);
    LinkDoneFed(t);
  }

  /** Below the test, the cap holds after the call. */
  lemma UnderCap(s: Stream, c: Config, n: nat, e: State)
    requires MayCompress(s, c, n, e) && !Compressed(s, n, e).OverCap(c)
    requires |e.fed| <= |Bytes(s.appended)| && Compressed(s, n, e).Counted()
    requires s.Countable(c) ==> |e.fed| <= c.maxLength.value + Biggest(s.appended)
    ensures LinkDone(Compressed(s, n, e)).Capped(c) && Compressed(s, n, e).Capped(c)
  {
    hide Delivered, LastSent, LastIsFinal, HeaderFirst, NoChunks, HeaderOf, Biggest, Bytes, Payload, HasLast, Consume, CompressStep;
    if s.Countable(c) { CapTest(Compressed(s, n, e), c); }
  }

  lemma LinkDoneSame(t: Stream)
    requires t.input != [] && t.enc.Valid()
    requires t.Counted() && t.InOrder() && t.Marked() && t.Staged() && t.AllRead()
    ensures var u := LinkDone(t); u.Counted() && u.InOrder() && u.Marked() && u.Staged() && u.AllRead()
    ensures forall c: Config :: t.Headed(c) ==> LinkDone(t).Headed(c)
  {
    hide Delivered, LastSent, LastIsFinal, HeaderFirst, NoChunks, HeaderOf;
  }

  lemma LinkDoneFinishing(s: Stream, c: Config, e: State)
    requires s.input != [] && MayCompress(s, c, |s.input[0].data|, e)
    ensures LinkDone(Compressed(s, |s.input[0].data|, e)).Finishing(c)
  {
    hide Delivered, LastSent, LastIsFinal, HeaderFirst, NoChunks, HeaderOf, Biggest, Bytes, Payload, HasLast;
  }

  lemma LinkDoneConserves(t: Stream)
    requires t.Conserved() && t.input != [] && t.input[0].data == [] && !t.endOfInput
    ensures LinkDone(t).Conserved()
  {
    hide Bytes, Payload, HasLast, Biggest;
    EmptyHead(t.input);
    assert t.enc.fed + [] == t.enc.fed;
    assert forall l | l in t.input[1..] :: l in t.input;
  }

  lemma EmptyHead(links: seq<Link>)
    requires links != [] && links[0].data == []
    ensures Bytes(links) == Bytes(links[1..])
    ensures Payload(links) == if links[0].lastBuf then [] else Payload(links[1..])
    ensures HasLast(links) <==> links[0].lastBuf || HasLast(links[1..])
  {
    assert [] + Bytes(links[1..]) == Bytes(links[1..]) && [] + Payload(links[1..]) == Payload(links[1..]);
    HasLastSplit(links);
  }

  /** The call took some of the first link. */
  lemma PartialKeeps(s: Stream, c: Config, n: nat, e: State)
    requires MayCompress(s, c, n, e) && n < |s.input[0].data| && !Compressed(s, n, e).OverCap(c)
    ensures Compressed(s, n, e).Valid(c)
  {
    hide Delivered, LastSent, LastIsFinal, HeaderFirst, NoChunks, HeaderOf, Biggest, Bytes, Payload, HasLast;
    CompressedCore(s, c, n, e);
    var t := Compressed(s, n, e);
    UnderCap(s, c, n, e);
    CompressedFed(s, c, n, e);
    hide Stream.Fed, Stream.Conserved, Stream.InOrder, Stream.Headed, Stream.Marked, Stream.AllRead, Stream.Capped;
    assert t.input[0].lastBuf == s.input[0].lastBuf;
  }

  /** The call went over the cap, and the stream is aborted. */
  lemma AbortKeeps(s: Stream, c: Config, n: nat, e: State)
    requires MayCompress(s, c, n, e)
    ensures Ended(Compressed(s, n, e)).Valid(c)
  {
    hide Delivered, LastSent, LastIsFinal, HeaderFirst, NoChunks, HeaderOf, Biggest, Bytes, Payload, HasLast;
    CompressedCore(s, c, n, e);
    CompressedFed(s, c, n, e);
    hide Stream.Fed, Stream.Conserved, Stream.InOrder, Stream.Headed, Stream.Marked, Stream.AllRead, Stream.Staged, Stream.Counted;
  }

  /** The program's choice after a call: abort over the cap, finish the link, give up, or go on. */
  function AfterCompress(s: Stream, c: Config, n: nat, e: State): Stream
    requires s.input != [] && n <= |s.input[0].data|
  {
    var t := Compressed(s, n, e);
    if t.OverCap(c) then Ended(t)
    else if n == |s.input[0].data| then LinkDone(t)
    else if n == 0 then Ended(t)
    else t
  }

  lemma AfterCompressKeeps(s: Stream, c: Config, n: nat, e: State)
    requires MayCompress(s, c, n, e)
    ensures var t := AfterCompress(s, c, n, e);
            t.Valid(c) && (t.closed || Weight(t.input) < Weight(s.input))
  {
    var t := Compressed(s, n, e);
    ConsumeFacts(s.input, n);
    hide MayCompress, Stream.OverCap, Stream.Valid, Consume;
    if t.OverCap(c) {
      AbortKeeps(s, c, n, e);
    } else if n == |s.input[0].data| {
      LinkDoneKeeps(s, c, e);
    } else if n == 0 {
      AbortKeeps(s, c, n, e);
    } else {
      PartialKeeps(s, c, n, e);
    }
  }

  /** A link with no bytes and no marks is dropped unread. */
  lemma DropKeeps(s: Stream, c: Config)
    requires s.Valid(c) && !s.closed && !s.endOfInput && s.input != []
    requires s.input[0] == Link([], false, false)
    ensures LinkDone(s).Valid(c)
  {
    assert s.Finishing(c) && !s.enc.finishing;
    LinkDoneFed(s);
    hide Stream.Conserved, Stream.InOrder, Stream.Headed, Stream.Marked, Stream.AllRead, Stream.Counted, Stream.Staged,
         Stream.Capped, Stream.Finishing, Stream.Fed, Stream.EmptyAsGiven;
    LinkDoneConserves(s);
    LinkDoneSame(s);
    CappedSame(s, LinkDone(s), c);
    NotFinishing(LinkDone(s), c);
  }

  lemma NotFinishing(t: Stream, c: Config)
    requires t.enc.Valid() && !t.enc.finishing
    ensures t.Finishing(c)
  {}

  lemma CappedSame(s: Stream, t: Stream, c: Config)
    requires s.Capped(c) && t.bytesIn == s.bytesIn && t.enc.fed == s.enc.fed && t.appended == s.appended
    requires t.closed == s.closed && t.success == s.success
    ensures t.Capped(c)
  {
    hide Bytes, Biggest, ToOff;
  }

  /** More input. */
  function Appended(s: Stream, more: seq<Link>): Stream {
    s.(input := s.input + more, appended := s.appended + more)
  }

  lemma AppendedKeeps(s: Stream, c: Config, more: seq<Link>)
    requires s.Valid(c) && !s.closed
    ensures Appended(s, more).Valid(c)
  {
    AppendedSame(s, c, more);
    AppendedFed(s, more);
    AppendedInput(s, c, more);
    hide Stream.Conserved, Stream.InOrder, Stream.Headed, Stream.Marked, Stream.AllRead, Stream.Staged, Stream.Counted, Stream.Capped,
         Stream.Finishing, Stream.Fed, Stream.EmptyAsGiven;
  }

  lemma AppendedInput(s: Stream, c: Config, more: seq<Link>)
    requires s.Conserved() && s.Finishing(c) && s.Capped(c) && !s.closed
    ensures var t := Appended(s, more); t.Conserved() && t.Finishing(c) && t.Capped(c)
  {
    hide Biggest, Bytes, Payload, HasLast, Stream.OverCap;
    var t := Appended(s, more);
    BytesAppend(s.appended, more);
    BytesAppend(s.input, more);
    PayloadAppend(s.appended, more);
    PayloadAppend(s.input, more);
    BiggestAppend(s.appended, more);
    BiggestBounds(more);
    OverCapSame(s, t, c);
    assert t.Conserved();
    assert t.Finishing(c) && t.Capped(c);
  }

  /** What new input leaves alone. */
  lemma AppendedSame(s: Stream, c: Config, more: seq<Link>)
    requires s.Valid(c)
    ensures var t := Appended(s, more);
            && t.Counted() && t.InOrder() && t.Headed(c) && t.Marked() && t.Staged() && t.AllRead()
            && t.OverCap(c) == s.OverCap(c)
  {
    hide Delivered, LastSent, LastIsFinal, HeaderFirst, NoChunks, HeaderOf, Biggest, Bytes, Payload, HasLast;
  }

  /** The dcb header, handed on as a chain of its own. */
  function Headered(s: Stream, hash: seq<byte>, accepted: bool): Stream {
    var t := s.(log := s.log + [DcbHeader(hash)]);
    if accepted then t.(headerSent := true, bytesOut := (s.bytesOut + DCB_HEADER_LEN) % WORD)
    else t.(closed := true)
  }

  lemma HeaderedKeeps(s: Stream, c: Config, accepted: bool)
    requires s.Valid(c) && !s.closed && c.dict.Some? && !s.headerSent
    ensures Headered(s, c.dict.value, accepted).Valid(c)
  {
    HeaderedOutput(s, c, accepted);
    var t := Headered(s, c.dict.value, accepted);
    assert s.Headed(c) && t.Staged() by { assert s.log == []; }
    hide Stream.InOrder, Stream.Headed, Stream.Marked, Stream.Counted, Stream.Conserved, Stream.Finishing, Stream.Capped, Stream.Fed;
    InputSame(s, t, c);
  }

  lemma HeaderedOutput(s: Stream, c: Config, accepted: bool)
    requires s.enc.Valid() && s.Counted() && s.InOrder() && s.Headed(c) && s.Marked()
    requires c.Valid() && !s.closed && c.dict.Some? && !s.headerSent
    ensures var t := Headered(s, c.dict.value, accepted); t.Counted() && t.InOrder() && t.Headed(c) && t.Marked()
  {
    hide Delivered, LastIsFinal, HeaderFirst, NoChunks, LastSent;
    var t, h := Headered(s, c.dict.value, accepted), DcbHeader(c.dict.value);
    DeliveredSnoc(s.log, h);
    MarksSnoc(s.log, h);
    assert s.log == [] && t.log[0] == h;
    assert s.enc.produced[..0] == [];
    assert t.InOrder();
    hide HeaderOf;
    assert t.Headed(c);
    assert t.Marked();
  }

  function Succeeded(s: Stream): Stream {
    s.(success := true, closed := true)
  }

  lemma SucceededKeeps(s: Stream, c: Config)
    requires s.Valid(c) && !s.closed && !s.outputReady && !s.outputBusy && s.enc.finished && s.enc.Pending() == 0
    ensures Succeeded(s).Valid(c)
  {
    hide Delivered, LastIsFinal, HeaderFirst, NoChunks, HeaderOf, Biggest, Bytes, Payload, HasLast;
  }

  // ----- what the invariant says about whole runs -----

  function HeaderFor(c: Config): seq<byte> {
    if c.dict.Some? then DCB_MAGIC + c.dict.value else []
  }

  /**
   A successful run handed on the header and then exactly the compressor's output, ending with the
   only chunk marked last, and that output decodes to the body: all input up to and including the
   last buffer.  The next filter has read exactly that output, byte for byte.
   */
  lemma SuccessDelivers(s: Stream, c: Config)
    requires s.Valid(c) && s.success
    ensures Delivered(s.log) == HeaderFor(c) + s.enc.produced
    ensures HasLast(s.appended) && c.decode(s.enc.produced) == Some(Payload(s.appended))
    ensures LastSent(s.log) && LastIsFinal(s.log) && s.Unread() == 0 && s.seen == s.enc.produced
    ensures c.dict.Some? ==> Delivered(s.log)[..36] == [255, 68, 67, 66] + c.dict.value && |c.dict.value| == 32
  {
    hide Delivered, LastIsFinal, HeaderFirst, NoChunks, LastSent;
    assert s.seen + [] == s.seen;
    assert s.enc.produced[..s.enc.taken] == s.enc.produced;
    assert Delivered(s.log) + [] == Delivered(s.log);
    assert s.enc.produced != [];
    if c.dict.Some? { assert s.headerSent; }
  }

  /** At every moment the bytes handed on by the open stream are a prefix of the header and the output made so far. */
  lemma AlwaysInOrder(s: Stream, c: Config)
    requires s.Valid(c)
    ensures Delivered(s.log) <= HeaderFor(c) + s.enc.produced
  {
    hide Stream.Conserved, Stream.Finishing, Stream.Counted, Stream.Marked, Stream.Staged, Stream.AllRead, Stream.Capped;
    hide Delivered, HeaderFirst, NoChunks, HeaderOf;
    var d, h, n := Delivered(s.log), HeaderOf(s.log), s.enc.taken;
    PrefixOf(d, s.Waiting(), h, s.enc.produced, n);
    if h == [] && c.dict.Some? { assert n == 0 && h + s.enc.produced[..0] == []; }
  }

  lemma PrefixOf(d: seq<byte>, w: seq<byte>, h: seq<byte>, p: seq<byte>, n: nat)
    requires n <= |p| && d + w == h + p[..n]
    ensures d <= h + p
  {
    assert h + p == (h + p[..n]) + p[n..];
    assert d == (d + w + p[n..])[..|d|];
  }

  /** At every moment the next filter has read a prefix of the output, and the rest of what was taken waits in the buffer. */
  lemma ReadInOrder(s: Stream, c: Config)
    requires s.Valid(c)
    ensures s.seen <= s.enc.produced && |s.seen| + s.Unread() == s.enc.taken
  {
    assert s.seen == (s.seen + s.Held())[..|s.seen|];
  }

  /** A link marked flush and not last leaves the chain only when a FLUSH call has taken all that was left of it, be it nothing. */
  lemma FlushIsGiven(s: Stream, c: Config, i: nat)
    requires s.Valid(c) && i < s.gone
    ensures i < |s.appended|
    ensures s.appended[i].flush && !s.appended[i].lastBuf ==>
              exists k | 0 <= k < |s.feeds| :: s.feeds[k].link == Some(i) && s.feeds[k].op == FLUSH && s.feeds[k].consumed == |s.feeds[k].offered|
    ensures s.appended[i].lastBuf ==>
              exists k | 0 <= k < |s.feeds| :: s.feeds[k].link == Some(i) && s.feeds[k].op == FINISH && s.feeds[k].consumed == |s.feeds[k].offered|
  {
    hide Stream.Conserved, Stream.InOrder, Stream.Headed, Stream.Marked, Stream.AllRead, Stream.Counted, Stream.Staged, Stream.Capped,
         Stream.Finishing, FinishLasts, FinishStarts;
    assert s.GoneFed();
    if s.appended[i].flush || s.appended[i].lastBuf {
      var k :| 0 <= k < |s.feeds| && Empties(s.feeds[k], i);
      assert FeedFits(s.feeds[k], s.appended);
    }
  }

  /** FINISH is given exactly on last links and after them, FLUSH exactly on flush links that are not last, PROCESS on unmarked ones. */
  lemma OperationsFit(s: Stream, c: Config, k: nat)
    requires s.Valid(c) && k < |s.feeds|
    ensures var f := s.feeds[k];
            match f.link
            case None => f.op == FINISH && f.offered == [] && k > 0 && s.feeds[k - 1].op == FINISH
            case Some(i) =>
              && i < |s.appended|
              && (f.op == FINISH <==> s.appended[i].lastBuf)
              && (f.op == FLUSH <==> s.appended[i].flush && !s.appended[i].lastBuf)
              && (f.op == PROCESS <==> !s.appended[i].flush && !s.appended[i].lastBuf)
    ensures forall j | k < j < |s.feeds| && s.feeds[k].op == FINISH :: s.feeds[j].op == FINISH
  {
    hide Stream.Conserved, Stream.InOrder, Stream.Headed, Stream.Marked, Stream.AllRead, Stream.Counted, Stream.Staged, Stream.Capped,
         Stream.Finishing;
    assert FeedFits(s.feeds[k], s.appended);
  }

  /** So for all links that are gone. */
  lemma FlushesAreGiven(s: Stream, c: Config)
    requires s.Valid(c)
    ensures s.gone + |s.input| == |s.appended|
    ensures forall i | 0 <= i < s.gone && s.appended[i].flush && !s.appended[i].lastBuf ::
              exists k | 0 <= k < |s.feeds| :: s.feeds[k].link == Some(i) && s.feeds[k].op == FLUSH && s.feeds[k].consumed == |s.feeds[k].offered|
    ensures forall i | 0 <= i < s.gone && s.appended[i].lastBuf ::
              exists k | 0 <= k < |s.feeds| :: s.feeds[k].link == Some(i) && s.feeds[k].op == FINISH && s.feeds[k].consumed == |s.feeds[k].offered|
  {
    assert s.Fed();
    hide Stream.Valid;
    forall i: nat | i < s.gone
      ensures s.appended[i].flush && !s.appended[i].lastBuf ==>
                exists k | 0 <= k < |s.feeds| :: s.feeds[k].link == Some(i) && s.feeds[k].op == FLUSH && s.feeds[k].consumed == |s.feeds[k].offered|
      ensures s.appended[i].lastBuf ==>
                exists k | 0 <= k < |s.feeds| :: s.feeds[k].link == Some(i) && s.feeds[k].op == FINISH && s.feeds[k].consumed == |s.feeds[k].offered|
    {
      FlushIsGiven(s, c, i);
    }
  }

  /** And for all calls. */
  lemma AllOperationsFit(s: Stream, c: Config)
    requires s.Valid(c)
    ensures forall k, i: nat | 0 <= k < |s.feeds| && s.feeds[k].link == Some(i) ::
              && i < |s.appended|
              && (s.feeds[k].op == FINISH <==> s.appended[i].lastBuf)
              && (s.feeds[k].op == FLUSH <==> s.appended[i].flush && !s.appended[i].lastBuf)
    ensures forall k | 0 <= k < |s.feeds| && s.feeds[k].link.None? ::
              s.feeds[k].op == FINISH && s.feeds[k].offered == [] && k > 0 && s.feeds[k - 1].op == FINISH
  {
    assert AllFit(s.feeds, s.appended) && FinishStarts(s.feeds);
    hide Stream.Valid;
    forall k: nat | k < |s.feeds|
      ensures forall i: nat | s.feeds[k].link == Some(i) ::
                i < |s.appended| && (s.feeds[k].op == FINISH <==> s.appended[i].lastBuf)
                && (s.feeds[k].op == FLUSH <==> s.appended[i].flush && !s.appended[i].lastBuf)
    {
      OperationsFit(s, c, k);
    }
    forall k | 0 <= k < |s.feeds| && s.feeds[k].link.None?
      ensures s.feeds[k].op == FINISH && s.feeds[k].offered == [] && k > 0 && s.feeds[k - 1].op == FINISH
    {
      assert FeedFits(s.feeds[k], s.appended);
    }
  }

  /**
   The counters of a success are the body's and the response's sizes modulo 2^64; the response is
   not empty, so its counter is zero for a multiple of 2^64 bytes only.
   */
  lemma SuccessHasOutput(s: Stream, c: Config)
    requires s.Valid(c) && s.success
    ensures |Delivered(s.log)| > 0 && s.bytesOut == |Delivered(s.log)| % 0x1_0000_0000_0000_0000
    ensures s.bytesIn == |Payload(s.appended)| % 0x1_0000_0000_0000_0000
  {
    hide Delivered, LastIsFinal, HeaderFirst, NoChunks, LastSent, HeaderOf;
    SuccessDelivers(s, c);
    if c.dict.Some? { assert s.headerSent by { assert s.enc.taken > 0; } }
    else { assert !s.headerSent; }
  }

  /** The counter a success divides by is zero exactly for a response of a multiple of 2^64 bytes. */
  lemma CounterNonzero(s: Stream, c: Config)
    requires s.Valid(c) && s.success
    ensures s.bytesOut > 0 <==> |Delivered(s.log)| % 0x1_0000_0000_0000_0000 != 0
  {
    hide Stream.Valid, Delivered;
    SuccessHasOutput(s, c);
  }

  /**
   The cap: never passed while open, and passed by at most one buffer at the abort, provided the cap
   and one buffer, or else all input, stay below 2^63 bytes.
   */
  lemma CapHolds(s: Stream, c: Config)
    requires s.Valid(c) && s.Countable(c)
    ensures s.bytesIn == |s.enc.fed|
    ensures !s.closed ==> s.bytesIn <= c.maxLength.value
    ensures s.bytesIn <= c.maxLength.value + Biggest(s.appended)
    ensures s.bytesIn + |Bytes(s.input)| == |Bytes(s.appended)|
  {
    hide Delivered, LastIsFinal, HeaderFirst, NoChunks, LastSent, HeaderOf, Biggest, Payload;
  }

  // ----- why the main loop ends -----

  /** `t` has less left to do than `s`: input, finishing work, pending output, stage, unread bytes. */
  predicate Smaller(s: Stream, t: Stream)
    requires s.enc.Valid() && s.Staged() && t.enc.Valid() && t.Staged()
  {
    || Weight(t.input) < Weight(s.input)
    || (t.input == s.input
        && (|| t.enc.WorkLeft() < s.enc.WorkLeft()
            || (t.enc.WorkLeft() == s.enc.WorkLeft()
                && (|| t.enc.Pending() < s.enc.Pending()
                    || (t.enc.Pending() == s.enc.Pending()
                        && (t.Stage() < s.Stage() || (t.Stage() == s.Stage() && t.Unread() < s.Unread())))))))
  }

  lemma TakenIsSmaller(s: Stream, c: Config, out: seq<byte>, last: bool, flush: bool)
    requires s.Valid(c)
    ensures MayTake(s, out) && Taken(s, out, last, flush).Valid(c) ==> Smaller(s, Taken(s, out, last, flush))
  {
    hide Delivered, LastIsFinal, HeaderFirst, NoChunks, LastSent, HeaderOf, Biggest, Payload, HasLast, Bytes;
  }

  lemma PushedIsSmaller(s: Stream, read: nat)
    requires s.enc.Valid() && s.Staged() && (s.outputReady || s.outputBusy) && read <= s.Unread()
    requires var t := Pushed(s, read); t.Staged() && (t.outputBusy ==> s.outputReady || read > 0)
    ensures Smaller(s, Pushed(s, read))
  {}
}
