/**
 The compressor and the next filter as the body filter sees them.

 Neither is part of this repository.  The compressor is any state machine that honours the contract
 `CompressStep`, the next filter any consumer that reads some of the bytes it is offered and
 answers as it likes.
 */
module Encoder {
  import opened Octets
  import opened Options

  type Decoder = seq<byte> -> Option<seq<byte>>

  datatype Operation = PROCESS | FLUSH | FINISH

  /**
   `fed` is the input consumed so far and `produced` the output made so far, of which the first
   `taken` bytes have been handed out; `work` bounds the empty FINISH calls still needed.
   */
  datatype State = State(fed: seq<byte>, produced: seq<byte>, taken: nat, finishing: bool, finished: bool, work: nat)
  {
    predicate Valid() {
      taken <= |produced| && (finished ==> finishing && produced != [])
    }

    /** Output made but not handed out yet. */
    function Pending(): nat
      requires Valid()
    {
      |produced| - taken
    }

    /** How much finishing is left; 0 once finished. */
    function WorkLeft(): nat {
      if finished then 0 else work + 1
    }
  }

  /** The contract of one compression call that reports success. */
  predicate CompressStep(decode: Decoder, e: State, op: Operation, input: seq<byte>, consumed: nat, e': State) {
    && consumed <= |input|
    && e.Valid() && e'.Valid()
    && e'.fed == e.fed + input[..consumed]
    && e.produced <= e'.produced
    && e'.taken == e.taken
    && e'.finishing == (e.finishing || op == FINISH)
    && (e'.finished ==>
          // only FINISH finishes, with all input consumed, leaving output that decodes to the input
          && op == FINISH && consumed == |input|
          && e'.Pending() > 0
          && decode(e'.produced) == Some(e'.fed))
    && (op == FINISH && input == [] && !e'.finished ==> e'.work < e.work)
  }

  /** A compression call is in order: earlier output handed out, the stream not finished, FINISH kept to. */
  predicate Callable(e: State, op: Operation) {
    e.Valid() && !e.finished && e.Pending() == 0 && (e.finishing ==> op == FINISH)
  }

  function Initial(work: nat): State {
    State([], [], 0, false, false, work)
  }

  /**
   The world around the filter.  Its calls are numbered in the order in which they are made: call
   number `t` - an allocation, a compression, a taking of output, a hand-over - fails exactly if
   `fails(t)`.  The compressor moves between its `good` states by `run`.
   */
  datatype Env = Env(
    fails: nat -> bool,
    good: State -> bool,
    run: (nat, State, Operation, seq<byte>) -> (nat, State),   // bytes consumed, new state
    hands: nat -> nat,                                         // output handed out, besides one byte
    again: nat -> bool,                                        // the next filter says AGAIN
    takes: (nat, nat) -> nat)                                  // what it reads when offered a size
  {
    /** The compressor honours its contract. */
    ghost predicate Valid(decode: Decoder, work: nat) {
      && good(Initial(work))
      && (forall t: nat, e: State, op: Operation, input: seq<byte> | good(e) && Callable(e, op) ::
            var r := run(t, e, op, input); CompressStep(decode, e, op, input, r.0, r.1) && good(r.1))
      && (forall e: State, e': State | good(e) && e.Valid() && e'.Valid() && e.taken <= e'.taken && e' == e.(taken := e'.taken) ::
            good(e'))
    }

    /** No compression call consumes nothing of a non-empty input. */
    ghost predicate Eager() {
      forall t: nat, e: State, op: Operation, input: seq<byte> | good(e) && Callable(e, op) && input != [] ::
        run(t, e, op, input).0 > 0
    }

    /** One of the calls from number `from` on, up to `to`, failed. */
    ghost predicate Failed(from: nat, to: nat) {
      exists t: nat | from <= t < to :: fails(t)
    }

    /** The next filter always reads all it is offered. */
    ghost predicate Greedy() {
      forall t: nat, size: nat :: takes(t, size) >= size
    }
  }

  lemma FailedSplit(env: Env, from: nat, middle: nat, to: nat)
    requires from <= middle <= to
    ensures env.Failed(from, to) <==> env.Failed(from, middle) || env.Failed(middle, to)
  {
    if t: nat :| from <= t < to && env.fails(t) { assert t < middle || middle <= t; }
  }

  lemma FailedOne(env: Env, t: nat)
    ensures !env.Failed(t, t) && (env.Failed(t, t + 1) <==> env.fails(t))
  {}

  lemma FailedTwo(env: Env, t: nat)
    ensures (env.Failed(t, t + 1) <==> env.fails(t)) && (env.Failed(t, t + 2) <==> env.fails(t) || env.fails(t + 1))
  {}

  lemma RunSteps(env: Env, decode: Decoder, work: nat, t: nat, e: State, op: Operation, input: seq<byte>)
    requires env.Valid(decode, work) && env.good(e) && Callable(e, op)
    ensures var r := env.run(t, e, op, input); CompressStep(decode, e, op, input, r.0, r.1) && env.good(r.1)
  {}

  /** One compression call; the filter makes it only when all output handed out has been read. */
  method CompressStream(env: Env, t: nat, e: State, op: Operation, input: seq<byte>, ghost unread: nat)
    returns (ok: bool, consumed: nat, e': State)
    requires env.good(e) && Callable(e, op) && unread == 0
    ensures ok == !env.fails(t)
    ensures (consumed, e') == if ok then env.run(t, e, op, input) else (0, e)
  {
    ok := !env.fails(t);
    consumed, e' := 0, e;
    if ok {
      var r := env.run(t, e, op, input);
      consumed, e' := r.0, r.1;
    }
  }

  /** Hands out output: the first pending bytes, possibly fewer than all, none when the call fails. */
  method TakeOutput(env: Env, t: nat, e: State, ghost unread: nat) returns (out: seq<byte>, e': State)
    requires e.Valid() && e.Pending() > 0 && unread == 0
    ensures e'.Valid() && e' == e.(taken := e.taken + |out|)
    ensures out == e.produced[e.taken..e'.taken] && (out == [] <==> env.fails(t))
  {
    var n := if env.fails(t) then 0 else if env.hands(t) < e.Pending() then env.hands(t) + 1 else e.Pending();
    out, e' := e.produced[e.taken..e.taken + n], e.(taken := e.taken + n);
  }

  /** Whether the stream is over; with output still pending it may say either. */
  method IsFinished(e: State) returns (b: bool)
    requires e.Valid()
    ensures b ==> e.finished
    ensures e.finished && e.Pending() == 0 ==> b
  {
    var early: bool := *;
    b := e.finished && (e.Pending() == 0 || early);
  }

  method Allocate(env: Env, t: nat) returns (ok: bool)
    ensures ok == !env.fails(t)
  {
    ok := !env.fails(t);
  }

  datatype Code = OK | AGAIN | ERROR

  /** The next body filter: reads some of the `size` bytes it holds, and answers anything. */
  method NextBodyFilter(env: Env, t: nat, size: nat) returns (rc: Code, read: nat)
    ensures rc == if env.fails(t) then ERROR else if env.again(t) then AGAIN else OK
    ensures read <= size && (env.Greedy() ==> read == size)
  {
    rc := if env.fails(t) then ERROR else if env.again(t) then AGAIN else OK;
    read := if env.takes(t, size) < size then env.takes(t, size) else size;
  }
}
