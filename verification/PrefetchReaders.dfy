/**
 The prefetching reader: a producer goroutine reads chunks ahead into a bounded queue, one
 consumer takes bytes out of it, and Close may come at any time. Every select statement and
 every access to the channel is one step, and steps interleave freely.
 */
module PrefetchReaders {
  import opened Basics

  datatype Error = EOF | Failure(code: int)

  /** One result of the underlying reader; data and an error may come together. */
  datatype ReadResult = ReadResult(data: bytes, err: Option<Error>)

  datatype Chunk = Data(data: bytes) | Fault(err: Error)

  /** What the producer goroutine is about to do. `after` is the error that came with the chunk being sent. */
  datatype Producer =
    | Reading
    | Sending(chunk: Chunk, after: Option<Error>)
    | Stopped(dropped: bool) // returned, which closes the channel; dropped if a send gave way to Close

  datatype State = State(
    script: seq<ReadResult>, producer: Producer, queue: seq<Chunk>, closed: bool,
    current: bytes, pos: nat, readErr: Option<Error>)

  /** What a call of Read returns. */
  datatype Output = Output(data: bytes, err: Option<Error>)

  datatype Step =
    | Produce                          // the underlying reader returns its next result
    | Send                             // a queue slot is free and the select takes it
    | GiveUp                           // the reader is closed and the select takes that
    | Read(size: nat, sawClosed: bool) // one call of Read by the consumer
    | Close

  // ---------------------------------------------------------------- steps

  function AfterSend(after: Option<Error>): Producer {
    match after
    case None => Reading
    case Some(e) => if e.EOF? then Stopped(false) else Sending(Fault(e), None)
  }

  function DoProduce(s: State): State {
    if !s.producer.Reading? || s.script == [] then s
    else
      var r := s.script[0];
      s.(script := s.script[1..], producer := if r.data != [] then Sending(Data(r.data), r.err) else AfterSend(r.err))
  }

  function DoSend(bound: nat, s: State): State {
    if !s.producer.Sending? || |s.queue| >= bound then s
    else
      s.(queue := s.queue + [s.producer.chunk],
         producer := if s.producer.chunk.Fault? then Stopped(false) else AfterSend(s.producer.after))
  }

  function DoGiveUp(s: State): State {
    if !s.producer.Sending? || !s.closed then s else s.(producer := Stopped(true))
  }

  /** Whether a call of Read can return now; otherwise it waits. */
  predicate Ready(s: State, sawClosed: bool) {
    || (sawClosed && s.closed)
    || (!sawClosed && (s.pos < |s.current| || s.readErr.Some? || s.queue != [] || s.producer.Stopped?))
  }

  /** `sawClosed` says whether one of the selects in Read noticed Close; it cannot before Close. */
  function DoRead(s: State, size: nat, sawClosed: bool): (State, Output)
    requires s.pos <= |s.current| && Ready(s, sawClosed)
  {
    if sawClosed then (s, Output([], Some(EOF)))
    else if s.pos < |s.current| then
      var n := Min(size, |s.current| - s.pos);
      (s.(pos := s.pos + n), Output(s.current[s.pos..s.pos + n], None))
    else if s.readErr.Some? then (s, Output([], s.readErr))
    else if s.queue == [] then (s, Output([], Some(EOF)))
    else
      match s.queue[0]
      case Fault(e) => (s.(queue := s.queue[1..], readErr := Some(e)), Output([], Some(e)))
      case Data(d) =>
        var n := Min(size, |d|);
        (s.(queue := s.queue[1..], current := d, pos := n), Output(d[..n], None))
  }

  /** A run: the state and everything that Read has returned so far. */
  datatype Run = Run(s: State, delivered: bytes)

  predicate Enabled(r: Run, step: Step) {
    step.Read? ==> r.s.pos <= |r.s.current| && Ready(r.s, step.sawClosed)
  }

  function Apply(bound: nat, r: Run, step: Step): Run {
    if !Enabled(r, step) then r
    else
      match step
      case Produce => r.(s := DoProduce(r.s))
      case Send => r.(s := DoSend(bound, r.s))
      case GiveUp => r.(s := DoGiveUp(r.s))
      case Close => r.(s := r.s.(closed := true))
      case Read(size, sawClosed) =>
        var (n, o) := DoRead(r.s, size, sawClosed);
        Run(n, r.delivered + o.data)
  }

  function Steps(bound: nat, r: Run, steps: seq<Step>): Run
    decreases |steps|
  {
    if steps == [] then r else Steps(bound, Apply(bound, r, steps[0]), steps[1..])
  }

  function Start(script: seq<ReadResult>): Run {
    Run(State(script, Reading, [], false, [], 0, None), [])
  }

  // ---------------------------------------------------------------- the underlying stream

  /** The bytes of the underlying stream, up to and with its first error. */
  function Content(script: seq<ReadResult>): bytes {
    if script == [] then []
    else if script[0].err.Some? then script[0].data
    else script[0].data + Content(script[1..])
  }

  /** The error that ends the underlying stream, if it has ended. */
  function Ending(script: seq<ReadResult>): Option<Error> {
    if script == [] then None else if script[0].err.Some? then script[0].err else Ending(script[1..])
  }

  // ---------------------------------------------------------------- invariant

  function QueueData(q: seq<Chunk>): bytes {
    if q == [] then [] else (if q[0].Data? then q[0].data else []) + QueueData(q[1..])
  }

  /** The bytes that the producer will still send unless it is stopped by Close. */
  function ToCome(s: State): bytes {
    match s.producer
    case Reading => Content(s.script)
    case Sending(chunk, after) =>
      (if chunk.Data? then chunk.data else []) + (if chunk.Fault? || after.Some? then [] else Content(s.script))
    case Stopped(_) => []
  }

  /** The error that the consumer will find at the end of the channel; the channel's own end means EOF. */
  function ErrorToCome(s: State): Option<Error> {
    if s.readErr.Some? then s.readErr
    else if s.queue != [] && s.queue[|s.queue| - 1].Fault? then Some(s.queue[|s.queue| - 1].err)
    else
      match s.producer
      case Reading => Ending(s.script)
      case Sending(chunk, after) =>
        if chunk.Fault? then Some(chunk.err) else if after.Some? then after else Ending(s.script)
      case Stopped(_) => Some(EOF)
  }

  /** Everything between the underlying stream and the consumer. */
  function Pipeline(s: State): bytes
    requires s.pos <= |s.current|
  {
    s.current[s.pos..] + QueueData(s.queue) + ToCome(s)
  }

  ghost predicate Shape(s: State) {
    && s.pos <= |s.current|
    && (forall i :: 0 <= i < |s.queue| && s.queue[i].Fault? ==>
          i == |s.queue| - 1 && s.producer == Stopped(false) && s.queue[i].err.Failure?)
    && (s.readErr.Some? ==>
          s.queue == [] && s.producer == Stopped(false) && s.pos == |s.current| && s.readErr.value.Failure?)
    && (s.producer.Sending? && s.producer.chunk.Fault? ==> s.producer.chunk.err.Failure? && s.producer.after.None?)
    && (s.producer == Stopped(true) ==> s.closed)
  }

  ghost predicate Inv(script: seq<ReadResult>, bound: nat, r: Run) {
    && Shape(r.s) && |r.s.queue| <= bound
    && (r.s.producer != Stopped(true) ==>
          r.delivered + Pipeline(r.s) == Content(script) && ErrorToCome(r.s) == Ending(script))
    && (r.s.producer == Stopped(true) ==> r.delivered + Pipeline(r.s) <= Content(script))
  }

  lemma {:induction false} QueueDataAppend(q: seq<Chunk>, c: Chunk)
    ensures QueueData(q + [c]) == QueueData(q) + (if c.Data? then c.data else [])
  {
    if q == [] {
      assert q + [c] == [c];
      assert [c][1..] == [];
    } else {
      assert (q + [c])[1..] == q[1..] + [c];
      QueueDataAppend(q[1..], c);
    }
  }

  lemma ProduceInv(script: seq<ReadResult>, bound: nat, r: Run)
    requires Inv(script, bound, r)
    ensures Inv(script, bound, Apply(bound, r, Produce))
  {
    if r.s.producer.Reading? && r.s.script != [] {
      hide DoProduce, ToCome, ErrorToCome, QueueData, Content, Ending;
      ProduceMoves(r.s);
    }
  }

  /** Producing changes neither what is to come nor how it ends. */
  lemma ProduceMoves(s: State)
    requires Shape(s) && s.producer.Reading? && s.script != []
    ensures var n := DoProduce(s);
            && ToCome(n) == ToCome(s) && ErrorToCome(n) == ErrorToCome(s) && Shape(n) && n.producer != Stopped(true)
            && n.queue == s.queue && n.current == s.current && n.pos == s.pos
  {
    var x := s.script[0];
    assert Content(s.script) == x.data + (if x.err.Some? then [] else Content(s.script[1..]));
    assert x.data == [] ==> x.data + Content(s.script[1..]) == Content(s.script[1..]);
  }

  lemma SendInv(script: seq<ReadResult>, bound: nat, r: Run)
    requires Inv(script, bound, r)
    ensures Inv(script, bound, Apply(bound, r, Send))
  {
    if r.s.producer.Sending? && |r.s.queue| < bound {
      var n := DoSend(bound, r.s);
      var c := r.s.producer.chunk;
      QueueDataAppend(r.s.queue, c);
      var d := if c.Data? then c.data else [];
      assert ToCome(r.s) == d + ToCome(n);
      assert r.s.current[r.s.pos..] + QueueData(r.s.queue) + (d + ToCome(n))
          == r.s.current[r.s.pos..] + (QueueData(r.s.queue) + d) + ToCome(n);
    }
  }

  lemma GiveUpInv(script: seq<ReadResult>, bound: nat, r: Run)
    requires Inv(script, bound, r)
    ensures Inv(script, bound, Apply(bound, r, GiveUp))
  {
    if r.s.producer.Sending? && r.s.closed {
      var n := DoGiveUp(r.s);
      assert Pipeline(n) == r.s.current[r.s.pos..] + QueueData(r.s.queue);
      assert r.delivered + Pipeline(r.s) == (r.delivered + Pipeline(n)) + ToCome(r.s);
    }
  }

  lemma Regroup(o: bytes, c: bytes, q: bytes, t: bytes)
    ensures (o + c) + q + t == o + (c + q + t)
  {
  }

  lemma CutAt(b: bytes, at: nat, q: bytes)
    requires at <= |b|
    ensures b + q == b[..at] + b[at..] + q
  {
    assert b[..at] + b[at..] == b;
  }

  /** What a call of Read returns comes off the front of what the consumer's side holds. */
  lemma ReadTakesHeld(s: State, size: nat, sawClosed: bool)
    requires Shape(s) && Ready(s, sawClosed)
    ensures var (n, o) := DoRead(s, size, sawClosed);
            && n.pos <= |n.current| && n.producer == s.producer && n.script == s.script
            && s.current[s.pos..] + QueueData(s.queue) == o.data + n.current[n.pos..] + QueueData(n.queue)
  {
    var (n, o) := DoRead(s, size, sawClosed);
    if !sawClosed && s.pos < |s.current| {
      var held := s.current[s.pos..];
      CutAt(held, Min(size, |held|), QueueData(s.queue));
      assert held[..Min(size, |held|)] == o.data && held[Min(size, |held|)..] == n.current[n.pos..];
    } else if !sawClosed && s.readErr.None? && s.queue != [] && s.queue[0].Data? {
      var d := s.queue[0].data;
      CutAt(d, Min(size, |d|), QueueData(n.queue));
      assert s.current[s.pos..] == [];
    } else {
      assert o.data == [];
    }
  }

  /** What a call of Read returns comes off the front of the pipeline. */
  lemma ReadTakesFront(s: State, size: nat, sawClosed: bool)
    requires Shape(s) && Ready(s, sawClosed)
    ensures var (n, o) := DoRead(s, size, sawClosed);
            n.pos <= |n.current| && Pipeline(s) == o.data + Pipeline(n)
  {
    hide ToCome, Ready, DoRead, QueueData;
    var (n, o) := DoRead(s, size, sawClosed);
    ReadTakesHeld(s, size, sawClosed);
    SameToCome(s, n);
    Regroup(o.data, n.current[n.pos..], QueueData(n.queue), ToCome(s));
  }

  lemma SameToCome(s: State, n: State)
    requires n.producer == s.producer && n.script == s.script
    ensures ToCome(n) == ToCome(s)
  {
  }

  lemma ReadKeepsShape(s: State, size: nat, sawClosed: bool)
    requires Shape(s) && Ready(s, sawClosed)
    ensures var n := DoRead(s, size, sawClosed).0;
            Shape(n) && |n.queue| <= |s.queue| && n.producer == s.producer && ErrorToCome(n) == ErrorToCome(s)
  {
    if s.queue != [] {
      assert |s.queue| > 1 ==> s.queue[1..][|s.queue| - 2] == s.queue[|s.queue| - 1];
      assert forall i :: 0 <= i < |s.queue[1..]| ==> s.queue[1..][i] == s.queue[i + 1];
    }
  }

  lemma ReadInv(script: seq<ReadResult>, bound: nat, r: Run, size: nat, sawClosed: bool)
    requires Inv(script, bound, r) && Ready(r.s, sawClosed)
    ensures Inv(script, bound, Apply(bound, r, Read(size, sawClosed)))
  {
    hide DoRead, Pipeline, ErrorToCome;
    ReadTakesFront(r.s, size, sawClosed);
    ReadKeepsShape(r.s, size, sawClosed);
    var (n, o) := DoRead(r.s, size, sawClosed);
    assert r.delivered + (o.data + Pipeline(n)) == (r.delivered + o.data) + Pipeline(n);
  }

  lemma StepInv(script: seq<ReadResult>, bound: nat, r: Run, step: Step)
    requires Inv(script, bound, r)
    ensures Inv(script, bound, Apply(bound, r, step))
  {
    if Enabled(r, step) {
      match step {
        case Produce => ProduceInv(script, bound, r);
        case Send => SendInv(script, bound, r);
        case GiveUp => GiveUpInv(script, bound, r);
        case Close =>
        case Read(size, sawClosed) => ReadInv(script, bound, r, size, sawClosed);
      }
    }
  }

  lemma {:induction false} RunInv(script: seq<ReadResult>, bound: nat, r: Run, steps: seq<Step>)
    requires Inv(script, bound, r)
    ensures Inv(script, bound, Steps(bound, r, steps))
    decreases |steps|
  {
    if steps != [] {
      StepInv(script, bound, r, steps[0]);
      RunInv(script, bound, Apply(bound, r, steps[0]), steps[1..]);
    }
  }

  /**
   Main result. In every interleaving of producer, consumer and Close, what Read has delivered is
   a prefix of the underlying stream and the queue never exceeds its bound. A call that returns
   an error without the reader being closed returns the error that ended the stream, and only
   after every byte before it was delivered.
   */
  lemma PrefetchIsTransparent(script: seq<ReadResult>, bound: nat, steps: seq<Step>)
    ensures var r := Steps(bound, Start(script), steps);
            && r.delivered <= Content(script)
            && |r.s.queue| <= bound
            && r.s.pos <= |r.s.current|
            && (forall size :: !r.s.closed && Ready(r.s, false) && DoRead(r.s, size, false).1.err.Some? ==>
                  r.delivered == Content(script) && DoRead(r.s, size, false).1.err == Ending(script))
  {
    var r := Steps(bound, Start(script), steps);
    assert Pipeline(Start(script).s) == Content(script);
    RunInv(script, bound, Start(script), steps);
    assert r.delivered <= r.delivered + Pipeline(r.s);
    forall size | !r.s.closed && Ready(r.s, false) && DoRead(r.s, size, false).1.err.Some?
      ensures r.delivered == Content(script) && DoRead(r.s, size, false).1.err == Ending(script)
    {
      assert QueueData(r.s.queue) == [];
      assert Pipeline(r.s) == [];
    }
  }

  /** A read fills what it was given from one chunk, and stops short only at the chunk's end. */
  lemma ReadFills(s: State, size: nat)
    requires Shape(s) && Ready(s, false)
    ensures var (n, o) := DoRead(s, size, false);
            && |o.data| <= size && (o.err.Some? ==> o.data == [])
            && (o.err.None? ==> |o.data| == size || n.pos == |n.current|)
            && (o.err.Some? <==> s.pos == |s.current| && (s.queue == [] || s.queue[0].Fault?))
  {
  }

  /** A read that notices Close returns the end of data and takes nothing. */
  lemma ClosedReads(s: State, size: nat)
    requires Shape(s) && s.closed
    ensures Ready(s, true) && DoRead(s, size, true) == (s, Output([], Some(EOF)))
  {
  }

  // ---------------------------------------------------------------- progress

  /** Steps that do something: the producer moves, or a read that asks for bytes takes some or finds the failure. */
  predicate Moves(bound: nat, s: State, step: Step) {
    match step
    case Produce => s.producer.Reading? && s.script != []
    case Send => s.producer.Sending? && |s.queue| < bound
    case Read(size, sawClosed) =>
      size > 0 && !sawClosed && (s.pos < |s.current| || (s.pos == |s.current| && s.readErr.None? && s.queue != []))
    case _ => false
  }

  function ChunkWork(c: Chunk): nat {
    if c.Data? then 1 + |c.data| else 1
  }

  function ProducerWork(p: Producer): nat {
    match p
    case Reading => 0
    case Sending(chunk, after) =>
      1 + ChunkWork(chunk) + (if after.Some? && after.value.Failure? then 2 else 0)
    case Stopped(_) => 0
  }

  function ScriptWork(script: seq<ReadResult>): nat {
    if script == [] then 0
    else
      var r := script[0];
      1 + (if r.data != [] then ProducerWork(Sending(Data(r.data), r.err)) else ProducerWork(AfterSend(r.err)))
      + ScriptWork(script[1..])
  }

  function QueueWork(q: seq<Chunk>): nat {
    if q == [] then 0 else ChunkWork(q[0]) + QueueWork(q[1..])
  }

  /** How many more steps can move at most: every byte is produced, sent and taken. */
  function Work(s: State): nat
    requires s.pos <= |s.current|
  {
    ScriptWork(s.script) + ProducerWork(s.producer) + QueueWork(s.queue) + (|s.current| - s.pos)
  }

  lemma {:induction false} QueueWorkAppend(q: seq<Chunk>, c: Chunk)
    ensures QueueWork(q + [c]) == QueueWork(q) + ChunkWork(c)
  {
    if q == [] {
      assert q + [c] == [c];
      assert [c][1..] == [];
    } else {
      assert (q + [c])[1..] == q[1..] + [c];
      QueueWorkAppend(q[1..], c);
    }
  }

  lemma MoveWorks(bound: nat, r: Run, step: Step)
    requires Shape(r.s) && Moves(bound, r.s, step)
    ensures Enabled(r, step) && Apply(bound, r, step).s.pos <= |Apply(bound, r, step).s.current|
    ensures Work(Apply(bound, r, step).s) < Work(r.s)
    ensures Apply(bound, r, step).s.closed == r.s.closed
  {
    if step.Send? {
      QueueWorkAppend(r.s.queue, r.s.producer.chunk);
    }
  }

  lemma PipelineEnds(s: State)
    requires s.pos <= |s.current|
    ensures s.producer.Stopped? && s.queue == [] && s.pos == |s.current| ==> Pipeline(s) == []
  {
  }

  /** Until everything was delivered some step can move, whoever's turn it is not. */
  lemma SomethingMoves(script: seq<ReadResult>, bound: nat, r: Run) returns (step: Step)
    requires Inv(script, bound, r) && bound >= 1 && Ending(script).Some? && !r.s.closed
    requires r.delivered != Content(script) || !Ready(r.s, false) || r.s.queue != []
    ensures Moves(bound, r.s, step)
  {
    PipelineEnds(r.s);
    if r.s.pos < |r.s.current| || r.s.queue != [] {
      step := Read(1, false);
    } else if r.s.producer.Reading? {
      step := Produce;
    } else if r.s.producer.Sending? {
      step := Send;
    } else {
      assert false;
    }
  }

  /** A consumer never waits for ever: it can return now, or the producer can move. */
  lemma NeverStuck(script: seq<ReadResult>, bound: nat, r: Run)
    requires Inv(script, bound, r) && bound >= 1 && Ending(script).Some? && !r.s.closed
    ensures Ready(r.s, false) || Moves(bound, r.s, Produce) || Moves(bound, r.s, Send)
  {
    if !Ready(r.s, false) {
      var step := SomethingMoves(script, bound, r);
    }
  }

  /** Every step of the schedule moves. */
  predicate AllMove(bound: nat, r: Run, steps: seq<Step>)
    decreases |steps|
  {
    steps != [] ==> Moves(bound, r.s, steps[0]) && AllMove(bound, Apply(bound, r, steps[0]), steps[1..])
  }

  ghost predicate NothingMoves(bound: nat, s: State) {
    forall step :: !Moves(bound, s, step)
  }

  lemma {:induction false} MovesEnd(script: seq<ReadResult>, bound: nat, r: Run, steps: seq<Step>)
    requires Inv(script, bound, r) && AllMove(bound, r, steps) && !r.s.closed
    ensures |steps| <= Work(r.s) && !Steps(bound, r, steps).s.closed
    decreases |steps|
  {
    hide Work, Inv, Moves;
    if steps != [] {
      InvShape(script, bound, r);
      MoveWorks(bound, r, steps[0]);
      StepInv(script, bound, r, steps[0]);
      MovesEnd(script, bound, Apply(bound, r, steps[0]), steps[1..]);
    }
  }

  lemma InvShape(script: seq<ReadResult>, bound: nat, r: Run)
    requires Inv(script, bound, r)
    ensures Shape(r.s)
  {
  }

  /**
   Progress. As long as nobody closes the reader, however producer and consumer take turns, there
   are at most so many moves as the stream's length allows, and when none is left the consumer
   has every byte and reads the error that ended the stream.
   */
  lemma EverythingArrives(script: seq<ReadResult>, bound: nat, steps: seq<Step>, size: nat)
    requires bound >= 1 && Ending(script).Some? && AllMove(bound, Start(script), steps)
    ensures |steps| <= ScriptWork(script)
    ensures var r := Steps(bound, Start(script), steps);
            NothingMoves(bound, r.s) ==>
              && r.delivered == Content(script) && r.s.pos <= |r.s.current| && Ready(r.s, false)
              && DoRead(r.s, size, false).1 == Output([], Ending(script))
  {
    var r0 := Start(script);
    assert Pipeline(r0.s) == Content(script);
    MovesEnd(script, bound, r0, steps);
    RunInv(script, bound, r0, steps);
    var r := Steps(bound, r0, steps);
    if NothingMoves(bound, r.s) {
      EndOfMoves(script, bound, r, size);
    }
  }

  lemma EndOfMoves(script: seq<ReadResult>, bound: nat, r: Run, size: nat)
    requires Inv(script, bound, r) && bound >= 1 && Ending(script).Some? && !r.s.closed && NothingMoves(bound, r.s)
    ensures r.delivered == Content(script) && r.s.pos <= |r.s.current| && Ready(r.s, false)
    ensures DoRead(r.s, size, false).1 == Output([], Ending(script))
  {
    if r.delivered != Content(script) || !Ready(r.s, false) || r.s.queue != [] {
      var step := SomethingMoves(script, bound, r);
      assert false;
    }
    assert !Moves(bound, r.s, Read(1, false));
    assert Pipeline(r.s) == ToCome(r.s);
  }

  /** Once Read has returned the stream's failure, it returns that failure again until Close. */
  lemma {:induction false} FailureIsSticky(bound: nat, r: Run, steps: seq<Step>, size: nat)
    requires Shape(r.s) && r.s.readErr.Some?
    ensures var n := Steps(bound, r, steps);
            n.s.readErr == r.s.readErr && n.delivered == r.delivered
            && n.s.pos == |n.s.current| && Ready(n.s, false) && DoRead(n.s, size, false).1 == Output([], r.s.readErr)
    decreases |steps|
  {
    if steps != [] {
      var n := Apply(bound, r, steps[0]);
      assert n.delivered == r.delivered + [] == r.delivered;
      FailureIsSticky(bound, n, steps[1..], size);
    }
  }

  // ---------------------------------------------------------------- the class

  class PrefetchReader {
    const bound: nat
    var script: seq<ReadResult>
    var producer: Producer
    var chunksCh: seq<Chunk>
    var closed: bool
    var current: bytes
    var pos: nat
    var readErr: Option<Error>

    ghost function View(): State
      reads this
    {
      State(script, producer, chunksCh, closed, current, pos, readErr)
    }

    constructor (underlying: seq<ReadResult>, bufferCount: int)
      ensures View() == Start(underlying).s && bound == if bufferCount <= 0 then 2 else bufferCount
    {
      bound := if bufferCount <= 0 then 2 else bufferCount;
      script, producer, chunksCh, closed := underlying, Reading, [], false;
      current, pos, readErr := [], 0, None;
    }

    /** The producer's loop up to its next send. */
    method PrefetchOnce()
      modifies this
      ensures View() == old(DoProduce(View()))
    {
      if !producer.Reading? || script == [] {
        return;
      }
      var r := script[0];
      script := script[1..];
      if |r.data| > 0 {
        producer := Sending(Data(r.data), r.err);
      } else if r.err.Some? {
        producer := if r.err.value.EOF? then Stopped(false) else Sending(Fault(r.err.value), None);
      }
    }

    /** The select in sendChunk; `takeClosed` is its choice when both cases are ready. */
    method SendChunk(takeClosed: bool)
      modifies this
      ensures View() == old(if takeClosed then DoGiveUp(View()) else DoSend(bound, View()))
    {
      if !producer.Sending? {
        return;
      }
      if takeClosed {
        if closed {
          producer := Stopped(true);
        }
        return;
      }
      if |chunksCh| < bound {
        chunksCh := chunksCh + [producer.chunk];
        producer := if producer.chunk.Fault? then Stopped(false) else AfterSend(producer.after);
      }
    }

    method Read(size: nat, sawClosed: bool) returns (data: bytes, err: Option<Error>)
      requires pos <= |current| && Ready(View(), sawClosed)
      modifies this
      ensures (View(), Output(data, err)) == old(DoRead(View(), size, sawClosed))
    {
      if sawClosed {
        return [], Some(EOF);
      }
      if pos < |current| {
        var n := if size < |current| - pos then size else |current| - pos;
        data, err := current[pos..pos + n], None;
        pos := pos + n;
        return;
      }
      if readErr.Some? {
        return [], readErr;
      }
      data, err := ReadNextChunk(size);
    }

    method ReadNextChunk(size: nat) returns (data: bytes, err: Option<Error>)
      requires pos == |current| && readErr.None? && Ready(View(), false)
      modifies this
      ensures (View(), Output(data, err)) == old(DoRead(View(), size, false))
    {
      if chunksCh == [] {
        return [], Some(EOF);
      }
      var c := chunksCh[0];
      chunksCh := chunksCh[1..];
      if c.Fault? {
        readErr := Some(c.err);
        return [], Some(c.err);
      }
      current := c.data;
      pos := if size < |current| then size else |current|;
      return current[..pos], None;
    }

    method Close()
      modifies this
      ensures View() == old(View()).(closed := true)
    {
      closed := true;
    }
  }
}
