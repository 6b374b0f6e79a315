/**
 Delivery of the records of one stream by any number of workers, in any interleaving.

 A state is the list of workers, left to right, and the start offsets of the records they
 delivered, in order. A step is one atomic action of one worker, or a split of its tracker by
 the runner. A worker that starts past byte 0 always discards up to the next record end, and
 its left neighbour stops before its own end, so a record that begins exactly on a cut is
 read by nobody. What is delivered is first characterised for all cuts and all quote bytes, in
 terms of what the workers read; the delivery theorems then compare it with the records of
 the stream.
 */
module Delivery {
  import opened Basics
  import opened RangeTrackers
  import opened RecordScanner
  import opened ByteStream

  datatype Phase =
    | Idle
    | Reading(pos: nat, snapEnd: int) // snapEnd is the end that the worker read from its tracker on entry
    | Drained                         // the feed loop has ended, MarkDone is still to come
    | Finished
    | Cancelled                       // the context was cancelled: ProcessElement returns an error

  datatype Worker = Worker(t: Tracker, phase: Phase)

  datatype System = System(ws: seq<Worker>, delivered: seq<nat>)

  datatype Step =
    | Begin(i: nat)
    | Feed(i: nat)
    | Cancel(i: nat)
    | Leave(i: nat)
    | Split(i: nat, fraction: real, rounded: int)

  function BeginWorker(data: bytes, m: Mode, w: Worker): Worker
    requires 0 <= w.t.rest.start <= |data|
  {
    var pos := First(data, m, w.t.rest.start);
    if w.t.rest.start > 0 && pos >= w.t.rest.end then w.(phase := Drained)
    else w.(phase := Reading(pos, w.t.rest.end))
  }

  predicate Reads(w: Worker) {
    w.phase.Reading? && w.phase.pos < w.phase.snapEnd && Accepts(w.t, w.phase.pos)
  }

  function FeedWorker(data: bytes, m: Mode, w: Worker): Worker
    requires w.phase.Reading? && w.phase.pos <= |data|
  {
    var pos := w.phase.pos;
    if pos >= w.phase.snapEnd then w.(phase := Drained)
    else if !Accepts(w.t, pos) then Worker(Claim(w.t, pos), Drained)
    else Worker(Claim(w.t, pos),
                if ReaderStep(data, m, pos).1 then Drained else Reading(ReadEnd(data, m, pos), w.phase.snapEnd))
  }

  function DivideWorkers(ws: seq<Worker>, i: nat, at: int): seq<Worker>
    requires i < |ws|
  {
    var w := ws[i];
    ws[..i] + [w.(t := w.t.(rest := Range(w.t.rest.start, at))), Worker(Fresh(Range(at, w.t.rest.end)), Idle)]
    + ws[i + 1..]
  }

  /** A step that is not enabled changes nothing. */
  function Apply(data: bytes, m: Mode, s: System, step: Step): System {
    if step.i >= |s.ws| then s
    else
      var w := s.ws[step.i];
      match step
      case Begin(i) =>
        if w.phase.Idle? && 0 <= w.t.rest.start <= |data| then s.(ws := s.ws[i := BeginWorker(data, m, w)]) else s
      case Feed(i) =>
        if w.phase.Reading? && w.phase.pos <= |data| then
          System(s.ws[i := FeedWorker(data, m, w)], if Reads(w) then s.delivered + [w.phase.pos] else s.delivered)
        else s
      case Cancel(i) =>
        if w.phase.Idle? || w.phase.Reading? then s.(ws := s.ws[i := Worker(Stop(w.t), Cancelled)]) else s
      case Leave(i) =>
        if w.phase.Drained? then s.(ws := s.ws[i := Worker(Stop(w.t), Finished)]) else s
      case Split(i, fraction, rounded) =>
        match SplitPoint(ByteOffset, w.t, fraction, rounded)
        case None => s
        case Some(at) => s.(ws := DivideWorkers(s.ws, i, at))
  }

  function Run(data: bytes, m: Mode, s: System, steps: seq<Step>): System
    decreases |steps|
  {
    if steps == [] then s else Run(data, m, Apply(data, m, s, steps[0]), steps[1..])
  }

  function Start(tiles: seq<Range>): System {
    System(seq(|tiles|, i requires 0 <= i < |tiles| => Worker(Fresh(tiles[i]), Idle)), [])
  }

  // ---------------------------------------------------------------- invariant

  function Restrictions(ws: seq<Worker>): (rs: seq<Range>)
    ensures |rs| == |ws|
    ensures forall i :: 0 <= i < |ws| ==> rs[i] == ws[i].t.rest
  {
    seq(|ws|, i requires 0 <= i < |ws| => ws[i].t.rest)
  }

  /** A worker whose restriction starts at s meets a record at p if it gets that far. */
  predicate IsRead(data: bytes, m: Mode, s: int, p: int)
    requires 0 <= s <= |data|
  {
    0 <= p < |data| && ReachesNext(data, m, First(data, m, s), p)
  }

  /** Of the positions in a restriction, those delivered so far are the ones that its worker meets before pos. */
  ghost predicate DeliveredUpTo(data: bytes, m: Mode, rest: Range, delivered: seq<nat>, pos: int)
    requires 0 <= rest.start <= |data|
  {
    forall p :: Within(p, rest) ==> (p in delivered <==> p < pos && IsRead(data, m, rest.start, p))
  }

  ghost predicate InBounds(data: bytes, t: Tracker) {
    && 0 <= t.rest.start <= t.rest.end <= |data|
    && (t.rest.start < t.rest.end || t.rest.start == 0)
    && t.rest.start - 1 <= t.claimed < t.rest.end
  }

  ghost predicate PhaseOk(data: bytes, m: Mode, w: Worker, delivered: seq<nat>)
    requires InBounds(data, w.t)
  {
    match w.phase
    case Idle => w.t.claimed == w.t.rest.start - 1 && !w.t.stopped
    case Reading(pos, snapEnd) =>
      && !w.t.stopped && w.t.rest.end <= snapEnd <= |data| && pos <= |data|
      && ReachesNext(data, m, First(data, m, w.t.rest.start), pos) && w.t.claimed < pos
      && (forall p :: p < pos && IsRead(data, m, w.t.rest.start, p) ==> p <= w.t.claimed)
      && DeliveredUpTo(data, m, w.t.rest, delivered, pos)
    case Drained => DeliveredUpTo(data, m, w.t.rest, delivered, w.t.rest.end)
    case Finished => DeliveredUpTo(data, m, w.t.rest, delivered, w.t.rest.end)
    case Cancelled => forall p :: Within(p, w.t.rest) && p in delivered ==> IsRead(data, m, w.t.rest.start, p)
  }

  ghost predicate WorkerOk(data: bytes, m: Mode, w: Worker, delivered: seq<nat>) {
    && InBounds(data, w.t)
    && (forall k :: 0 <= k < |delivered| && Within(delivered[k], w.t.rest) ==> delivered[k] <= w.t.claimed)
    && PhaseOk(data, m, w, delivered)
  }

  ghost predicate SystemOk(data: bytes, m: Mode, s: System) {
    && Tiling(Restrictions(s.ws), Range(0, |data|))
    && (forall i :: 0 <= i < |s.ws| ==> WorkerOk(data, m, s.ws[i], s.delivered))
    && NoDuplicates(s.delivered)
    && (forall k :: 0 <= k < |s.delivered| ==> s.delivered[k] < |data|)
  }

  // ---------------------------------------------------------------- steps keep the invariant

  /** Replacing one worker by one with the same restriction, with the deliveries unchanged. */
  lemma ReplaceWorker(data: bytes, m: Mode, s: System, i: nat, w: Worker)
    requires SystemOk(data, m, s) && i < |s.ws|
    requires w.t.rest == s.ws[i].t.rest && WorkerOk(data, m, w, s.delivered)
    ensures SystemOk(data, m, s.(ws := s.ws[i := w]))
  {
    assert Restrictions(s.ws[i := w]) == Restrictions(s.ws);
  }

  lemma BeginOk(data: bytes, m: Mode, w: Worker, delivered: seq<nat>)
    requires WorkerOk(data, m, w, delivered) && w.phase.Idle?
    ensures WorkerOk(data, m, BeginWorker(data, m, w), delivered)
  {
    var t, from := w.t, First(data, m, w.t.rest.start);
    forall p | Within(p, t.rest) ensures p !in delivered {
    }
    forall p | IsRead(data, m, t.rest.start, p) ensures p >= from {
      ReachesForward(data, m, from, p);
    }
  }

  lemma FeedEndsOk(data: bytes, m: Mode, w: Worker, delivered: seq<nat>)
    requires WorkerOk(data, m, w, delivered) && w.phase.Reading? && !Reads(w)
    ensures WorkerOk(data, m, FeedWorker(data, m, w), delivered)
  {
  }

  lemma CancelOk(data: bytes, m: Mode, w: Worker, delivered: seq<nat>)
    requires WorkerOk(data, m, w, delivered) && (w.phase.Idle? || w.phase.Reading?)
    ensures WorkerOk(data, m, Worker(Stop(w.t), Cancelled), delivered)
  {
  }

  /** A delivery changes nothing for workers whose restriction does not contain it. */
  lemma OthersUnaffected(data: bytes, m: Mode, w: Worker, delivered: seq<nat>, p: nat)
    requires WorkerOk(data, m, w, delivered) && !Within(p, w.t.rest)
    ensures WorkerOk(data, m, w, delivered + [p])
  {
    assert forall q :: Within(q, w.t.rest) ==> (q in delivered + [p] <==> q in delivered);
  }

  /** One more read: the positions met before the next one are those met before this one, and this one. */
  lemma ReadOneMore(data: bytes, m: Mode, s: int, pos: nat, p: int)
    requires 0 <= s <= |data| && pos < |data| && ReachesNext(data, m, First(data, m, s), pos)
    ensures p < ReadEnd(data, m, pos) && IsRead(data, m, s, p) <==> (p < pos && IsRead(data, m, s, p)) || p == pos
    ensures ReachesNext(data, m, First(data, m, s), ReadEnd(data, m, pos))
  {
    var from := First(data, m, s);
    ReachesForward(data, m, from, pos);
    ReadsExtend(data, m, from, pos);
    if pos < p && IsRead(data, m, s, p) {
      ReachesOnwards(data, m, from, pos, p);
    }
  }

  lemma FeedOneOk(data: bytes, m: Mode, w: Worker, delivered: seq<nat>)
    requires WorkerOk(data, m, w, delivered) && Reads(w)
    ensures w.phase.pos < |data| && w.phase.pos !in delivered && Within(w.phase.pos, w.t.rest)
    ensures WorkerOk(data, m, FeedWorker(data, m, w), delivered + [w.phase.pos])
  {
    var pos, del := w.phase.pos, delivered + [w.phase.pos];
    var next, rest := ReadEnd(data, m, pos), w.t.rest;
    forall p
      ensures p < next && IsRead(data, m, rest.start, p) <==> (p < pos && IsRead(data, m, rest.start, p)) || p == pos
    {
      ReadOneMore(data, m, rest.start, pos, p);
    }
    ReadOneMore(data, m, rest.start, pos, pos);
    assert DeliveredUpTo(data, m, rest, del, next) by {
      forall p | Within(p, rest) ensures p in del <==> p < next && IsRead(data, m, rest.start, p) {
        assert p in del <==> p in delivered || p == pos;
      }
    }
  }

  lemma FeedOk(data: bytes, m: Mode, s: System, i: nat)
    requires SystemOk(data, m, s) && i < |s.ws| && Reads(s.ws[i])
    ensures SystemOk(data, m, Apply(data, m, s, Feed(i)))
  {
    var w := s.ws[i];
    FeedOneOk(data, m, w, s.delivered);
    var n := Apply(data, m, s, Feed(i));
    assert Restrictions(n.ws) == Restrictions(s.ws);
    forall k | 0 <= k < |n.ws| ensures WorkerOk(data, m, n.ws[k], n.delivered) {
      if k != i {
        if Within(w.phase.pos, s.ws[k].t.rest) {
          TilingDisjoint(Restrictions(s.ws), Range(0, |data|), i, k, w.phase.pos);
        }
        OthersUnaffected(data, m, s.ws[k], s.delivered, w.phase.pos);
      }
    }
  }

  lemma PrimaryOk(data: bytes, m: Mode, w: Worker, delivered: seq<nat>, at: int)
    requires WorkerOk(data, m, w, delivered)
    requires w.t.claimed < at && w.t.rest.start < at < w.t.rest.end
    ensures WorkerOk(data, m, w.(t := w.t.(rest := Range(w.t.rest.start, at))), delivered)
  {
    var r := Range(w.t.rest.start, at);
    assert forall p :: Within(p, r) ==> Within(p, w.t.rest);
  }

  lemma ResidualOk(data: bytes, m: Mode, w: Worker, delivered: seq<nat>, at: int)
    requires WorkerOk(data, m, w, delivered)
    requires w.t.claimed < at && w.t.rest.start < at < w.t.rest.end
    ensures WorkerOk(data, m, Worker(Fresh(Range(at, w.t.rest.end)), Idle), delivered)
  {
    assert forall p :: Within(p, Range(at, w.t.rest.end)) ==> Within(p, w.t.rest);
  }

  lemma DivideTiling(data: bytes, ws: seq<Worker>, i: nat, at: int)
    requires Tiling(Restrictions(ws), Range(0, |data|)) && i < |ws|
    requires ws[i].t.rest.start < at < ws[i].t.rest.end
    ensures Tiling(Restrictions(DivideWorkers(ws, i, at)), Range(0, |data|))
  {
    var rs, n := Restrictions(ws), Restrictions(DivideWorkers(ws, i, at));
    TilingSplit(rs, Range(0, |data|), i, at);
    assert n == rs[..i] + [Range(rs[i].start, at), Range(at, rs[i].end)] + rs[i + 1..];
  }

  lemma DivideOk(data: bytes, m: Mode, s: System, i: nat, at: int)
    requires SystemOk(data, m, s) && i < |s.ws|
    requires s.ws[i].t.claimed < at && s.ws[i].t.rest.start < at < s.ws[i].t.rest.end
    ensures SystemOk(data, m, s.(ws := DivideWorkers(s.ws, i, at)))
  {
    var n := DivideWorkers(s.ws, i, at);
    DivideTiling(data, s.ws, i, at);
    PrimaryOk(data, m, s.ws[i], s.delivered, at);
    ResidualOk(data, m, s.ws[i], s.delivered, at);
    forall k | 0 <= k < |n| ensures WorkerOk(data, m, n[k], s.delivered) {
      if k < i {
        assert n[k] == s.ws[k];
      } else if k > i + 1 {
        assert n[k] == s.ws[k - 1];
      }
    }
  }

  lemma StepOk(data: bytes, m: Mode, s: System, step: Step)
    requires SystemOk(data, m, s)
    ensures SystemOk(data, m, Apply(data, m, s, step))
  {
    hide Tiling, DivideWorkers, DeliveredUpTo;
    if step.i < |s.ws| {
      var w := s.ws[step.i];
      assert WorkerOk(data, m, w, s.delivered);
      match step {
        case Begin(i) =>
          if w.phase.Idle? {
            BeginOk(data, m, w, s.delivered);
            ReplaceWorker(data, m, s, i, BeginWorker(data, m, w));
          }
        case Feed(i) =>
          if Reads(w) {
            FeedOk(data, m, s, i);
          } else if w.phase.Reading? {
            FeedEndsOk(data, m, w, s.delivered);
            ReplaceWorker(data, m, s, i, FeedWorker(data, m, w));
          }
        case Cancel(i) =>
          if w.phase.Idle? || w.phase.Reading? {
            CancelOk(data, m, w, s.delivered);
            ReplaceWorker(data, m, s, i, Worker(Stop(w.t), Cancelled));
          }
        case Leave(i) =>
          if w.phase.Drained? {
            ReplaceWorker(data, m, s, i, Worker(Stop(w.t), Finished));
          }
        case Split(i, fraction, rounded) =>
          SplitPointIsSafe(ByteOffset, w.t, fraction, rounded);
          var split := SplitPoint(ByteOffset, w.t, fraction, rounded);
          if split.Some? {
            DivideOk(data, m, s, i, split.value);
          }
      }
    }
  }

  /** Cuts are only ever added: a worker's start is still some worker's start after any run. */
  lemma {:induction false} CutsPersist(data: bytes, m: Mode, s: System, steps: seq<Step>, i: nat) returns (j: nat)
    requires i < |s.ws|
    ensures j < |Run(data, m, s, steps).ws|
    ensures Run(data, m, s, steps).ws[j].t.rest.start == s.ws[i].t.rest.start
    decreases |steps|
  {
    if steps == [] {
      j := i;
    } else {
      var step := steps[0];
      var n := Apply(data, m, s, step);
      var next := if i < |n.ws| && n.ws[i].t.rest.start == s.ws[i].t.rest.start then i else i + 1;
      j := CutsPersist(data, m, n, steps[1..], next);
    }
  }

  lemma {:induction false} RunOk(data: bytes, m: Mode, s: System, steps: seq<Step>)
    requires SystemOk(data, m, s)
    ensures SystemOk(data, m, Run(data, m, s, steps))
    decreases |steps|
  {
    if steps != [] {
      StepOk(data, m, s, steps[0]);
      RunOk(data, m, Apply(data, m, s, steps[0]), steps[1..]);
    }
  }

  lemma StartOk(data: bytes, m: Mode, tiles: seq<Range>)
    requires Tiling(tiles, Range(0, |data|))
    requires data != [] ==> forall i :: 0 <= i < |tiles| ==> tiles[i].start < tiles[i].end
    ensures SystemOk(data, m, Start(tiles))
  {
    var s := Start(tiles);
    assert Restrictions(s.ws) == tiles;
    forall i | 0 <= i < |s.ws| ensures WorkerOk(data, m, s.ws[i], []) {
      TilingInside(tiles, Range(0, |data|), i);
    }
  }

  // ---------------------------------------------------------------- the delivery theorem

  ghost predicate AllFinished(s: System) {
    forall i :: 0 <= i < |s.ws| ==> s.ws[i].phase.Finished?
  }

  /** Some worker's restriction starts at p. */
  ghost predicate IsCut(s: System, p: int) {
    exists i :: 0 <= i < |s.ws| && s.ws[i].t.rest.start == p
  }

  /** The tilings that SplitRestriction makes of a stream. */
  ghost predicate StreamTiling(data: bytes, tiles: seq<Range>) {
    && Tiling(tiles, Range(0, |data|))
    && (data != [] ==> forall i :: 0 <= i < |tiles| ==> tiles[i].start < tiles[i].end)
  }

  /** Worker w's restriction, read to its end from where w would start, has a record at p. */
  predicate ReadsAt(data: bytes, m: Mode, w: Worker, p: int)
    requires 0 <= w.t.rest.start <= |data|
  {
    p in ReadsBefore(data, m, First(data, m, w.t.rest.start), w.t.rest.end)
  }

  lemma DeliveredInside(data: bytes, m: Mode, s: System, p: int) returns (i: nat)
    requires SystemOk(data, m, s) && 0 <= p < |data|
    ensures i < |s.ws| && Within(p, s.ws[i].t.rest) && 0 <= s.ws[i].t.rest.start <= |data|
    ensures p in s.delivered ==> ReadsAt(data, m, s.ws[i], p)
    ensures AllFinished(s) && ReadsAt(data, m, s.ws[i], p) ==> p in s.delivered
    ensures forall j :: 0 <= j < |s.ws| && Within(p, s.ws[j].t.rest) ==> j == i
  {
    i := TilingCovers(Restrictions(s.ws), Range(0, |data|), p);
    var w := s.ws[i];
    assert WorkerOk(data, m, w, s.delivered);
    ReadsBeforeIff(data, m, First(data, m, w.t.rest.start), w.t.rest.end, p);
    forall j | 0 <= j < |s.ws| && Within(p, s.ws[j].t.rest) ensures j == i {
      assert Within(p, Restrictions(s.ws)[j]);
    }
  }

  lemma ReadsInside(data: bytes, m: Mode, w: Worker, p: int)
    requires 0 <= w.t.rest.start <= |data| && ReadsAt(data, m, w, p)
    ensures Within(p, w.t.rest) && 0 <= p < |data|
  {
  }

  lemma StartsInBounds(data: bytes, m: Mode, s: System, i: nat)
    requires SystemOk(data, m, s) && i < |s.ws|
    ensures 0 <= s.ws[i].t.rest.start <= s.ws[i].t.rest.end <= |data|
  {
    assert WorkerOk(data, m, s.ws[i], s.delivered);
  }

  ghost predicate ReadBySome(data: bytes, m: Mode, s: System, p: int) {
    exists i :: 0 <= i < |s.ws| && 0 <= s.ws[i].t.rest.start <= |data| && ReadsAt(data, m, s.ws[i], p)
  }

  /**
   What is delivered, for all cuts and all quote bytes. From any tiling of the stream, through
   any interleaving of the workers' steps, splits and cancellations, nothing is delivered
   twice, and only what some restriction's reader meets inside it. Once all workers have
   finished, everything is delivered that the readers of the final restrictions meet.
   */
  lemma DeliveredIsWhatIsRead(data: bytes, m: Mode, tiles: seq<Range>, steps: seq<Step>)
    requires StreamTiling(data, tiles)
    ensures var s := Run(data, m, Start(tiles), steps);
            && Tiling(Restrictions(s.ws), Range(0, |data|)) && NoDuplicates(s.delivered)
            && (forall p :: p in s.delivered ==> ReadBySome(data, m, s, p))
            && (AllFinished(s) ==> forall p :: p in s.delivered <==> ReadBySome(data, m, s, p))
  {
    hide Run, Start, ReadsAt, WorkerOk;
    var s := Run(data, m, Start(tiles), steps);
    StartOk(data, m, tiles);
    RunOk(data, m, Start(tiles), steps);
    forall p | p in s.delivered ensures ReadBySome(data, m, s, p) {
      var i := DeliveredInside(data, m, s, p);
    }
    if AllFinished(s) {
      forall p | ReadBySome(data, m, s, p) ensures p in s.delivered {
        var j :| 0 <= j < |s.ws| && 0 <= s.ws[j].t.rest.start <= |data| && ReadsAt(data, m, s.ws[j], p);
        ReadsInside(data, m, s.ws[j], p);
        var i := DeliveredInside(data, m, s, p);
      }
    }
  }

  // ---------------------------------------------------------------- every run can finish

  lemma {:induction false} RunConcat(data: bytes, m: Mode, s: System, a: seq<Step>, b: seq<Step>)
    ensures Run(data, m, s, a + b) == Run(data, m, Run(data, m, s, a), b)
    decreases |a|
  {
    if a == [] {
      assert a + b == b;
    } else {
      assert (a + b)[1..] == a[1..] + b;
      RunConcat(data, m, Apply(data, m, s, a[0]), a[1..], b);
    }
  }

  /** The workers' own steps, without splits and cancellations. */
  ghost predicate OwnSteps(steps: seq<Step>) {
    forall k :: 0 <= k < |steps| ==> steps[k].Begin? || steps[k].Feed? || steps[k].Leave?
  }

  /** The next step of a worker that has not finished. */
  function NextStep(w: Worker, i: nat): Step {
    match w.phase
    case Idle => Begin(i)
    case Reading(_, _) => Feed(i)
    case _ => Leave(i)
  }

  /** At most so many own steps are left to a worker. */
  function StepsLeft(data: bytes, w: Worker): nat {
    match w.phase
    case Idle => |data| + 3
    case Reading(pos, _) => 2 + (if pos <= |data| then |data| - pos else 0)
    case Drained => 1
    case _ => 0
  }

  /** A worker's own step brings it nearer to its end and moves no other worker. */
  lemma OwnStepAdvances(data: bytes, m: Mode, s: System, i: nat)
    requires SystemOk(data, m, s) && i < |s.ws| && !s.ws[i].phase.Cancelled? && !s.ws[i].phase.Finished?
    ensures var n := Apply(data, m, s, NextStep(s.ws[i], i));
            && |n.ws| == |s.ws| && (forall j :: 0 <= j < |s.ws| && j != i ==> n.ws[j] == s.ws[j])
            && StepsLeft(data, n.ws[i]) < StepsLeft(data, s.ws[i]) && !n.ws[i].phase.Cancelled?
  {
    assert WorkerOk(data, m, s.ws[i], s.delivered);
  }

  lemma {:induction false} FinishWorker(data: bytes, m: Mode, s: System, i: nat) returns (steps: seq<Step>)
    requires SystemOk(data, m, s) && i < |s.ws| && !s.ws[i].phase.Cancelled?
    ensures OwnSteps(steps) && |steps| <= StepsLeft(data, s.ws[i])
    ensures var n := Run(data, m, s, steps);
            && SystemOk(data, m, n) && |n.ws| == |s.ws| && n.ws[i].phase.Finished?
            && forall j :: 0 <= j < |s.ws| && j != i ==> n.ws[j] == s.ws[j]
    decreases StepsLeft(data, s.ws[i])
  {
    hide SystemOk, Apply;
    if s.ws[i].phase.Finished? {
      steps := [];
    } else {
      var step := NextStep(s.ws[i], i);
      OwnStepAdvances(data, m, s, i);
      StepOk(data, m, s, step);
      var more := FinishWorker(data, m, Apply(data, m, s, step), i);
      steps := [step] + more;
      assert steps[1..] == more;
    }
  }

  ghost predicate NoneCancelled(s: System) {
    forall i :: 0 <= i < |s.ws| ==> !s.ws[i].phase.Cancelled?
  }

  ghost predicate FinishedBelow(s: System, k: nat) {
    NoneCancelled(s) && (forall j :: 0 <= j < k && j < |s.ws| ==> s.ws[j].phase.Finished?)
  }

  lemma {:induction false} FinishFrom(data: bytes, m: Mode, s: System, k: nat) returns (steps: seq<Step>)
    requires SystemOk(data, m, s) && k <= |s.ws| && FinishedBelow(s, k)
    ensures OwnSteps(steps) && AllFinished(Run(data, m, s, steps))
    decreases |s.ws| - k
  {
    hide SystemOk, Run, Apply;
    if k == |s.ws| {
      steps := [];
      NoSteps(data, m, s);
    } else {
      var first := FinishWorker(data, m, s, k);
      var more := FinishFrom(data, m, Run(data, m, s, first), k + 1);
      steps := first + more;
      RunConcat(data, m, s, first, more);
    }
  }

  lemma NoSteps(data: bytes, m: Mode, s: System)
    ensures Run(data, m, s, []) == s
  {
  }

  /**
   No run is caught: from every reachable state in which no worker was cancelled, the workers' own
   steps lead to one in which all have finished.
   */
  lemma CanFinish(data: bytes, m: Mode, tiles: seq<Range>, steps: seq<Step>) returns (more: seq<Step>)
    requires StreamTiling(data, tiles)
    requires NoneCancelled(Run(data, m, Start(tiles), steps))
    ensures OwnSteps(more) && AllFinished(Run(data, m, Start(tiles), steps + more))
  {
    hide SystemOk, Apply;
    StartOk(data, m, tiles);
    RunOk(data, m, Start(tiles), steps);
    var s := Run(data, m, Start(tiles), steps);
    more := FinishFrom(data, m, s, 0);
    RunConcat(data, m, Start(tiles), steps, more);
  }

  // ---------------------------------------------------------------- against the records

  /** The worker skips to the next record that begins after its start, or both lie beyond its end. */
  predicate InStepWithin(data: bytes, m: Mode, rest: Range) {
    0 < rest.start < |data| ==>
      var from, b := First(data, m, rest.start), FollowingBoundary(data, m, rest.start);
      from == b || (from >= rest.end && b >= rest.end)
  }

  /** Every worker is in step with the records inside its restriction. */
  ghost predicate Aligned(data: bytes, m: Mode, ws: seq<Worker>) {
    forall i :: 0 <= i < |ws| ==> InStepWithin(data, m, ws[i].t.rest)
  }

  lemma CleanIsInStep(data: bytes, m: Mode, rest: Range)
    requires Usable(m) && (0 < rest.start < |data| ==> Clean(data, m, rest.start))
    ensures InStepWithin(data, m, rest)
  {
    if 0 < rest.start < |data| {
      ReaderFollowsMode(data, m, rest.start);
    }
  }

  /** The positions met from a boundary are the records from there on. */
  lemma {:induction false} ReachesRecords(data: bytes, m: Mode, from: nat, p: int)
    requires Usable(m) && IsBoundary(data, m, from) && p >= 0
    ensures p < |data| && ReachesNext(data, m, from, p) <==> from <= p && IsRecordStart(data, m, p)
    decreases |data| - from
  {
    if from < |data| {
      ReaderFollowsMode(data, m, from);
      BoundaryIsClean(data, m, from);
      ReachesRecords(data, m, ReadEnd(data, m, from), p);
    }
  }

  /** A worker in step meets exactly the records of its restriction, but for one at its positive start. */
  lemma ReadsAreRecords(data: bytes, m: Mode, w: Worker, p: int)
    requires Usable(m) && InStepWithin(data, m, w.t.rest)
    requires 0 <= w.t.rest.start <= w.t.rest.end <= |data| && Within(p, w.t.rest)
    ensures ReadsAt(data, m, w, p) <==> IsRecordStart(data, m, p) && !(p > 0 && p == w.t.rest.start)
  {
    var rest := w.t.rest;
    var from := First(data, m, rest.start);
    ReadsBeforeIff(data, m, from, rest.end, p);
    if ReachesNext(data, m, from, p) {
      ReachesForward(data, m, from, p);
    }
    if rest.start == 0 || from == FollowingBoundary(data, m, rest.start) {
      ReachesRecords(data, m, from, p);
    }
  }

  /** A worker out of step meets something else than a record, or misses one, inside its restriction. */
  lemma OutOfStepShows(data: bytes, m: Mode, w: Worker) returns (p: int)
    requires Usable(m) && !InStepWithin(data, m, w.t.rest) && w.t.rest.end <= |data|
    ensures 0 < w.t.rest.start < p && Within(p, w.t.rest)
    ensures ReadsAt(data, m, w, p) <==> !IsRecordStart(data, m, p)
  {
    var rest := w.t.rest;
    var from, b := First(data, m, rest.start), FollowingBoundary(data, m, rest.start);
    p := Min(from, b);
    ReadsBeforeIff(data, m, from, rest.end, p);
  }

  /** The records that the cuts leave: all but those at a positive start of a restriction. */
  ghost predicate IsKept(data: bytes, m: Mode, s: System, p: int) {
    IsRecordStart(data, m, p) && !(p > 0 && IsCut(s, p))
  }

  lemma KeptInside(data: bytes, m: Mode, s: System, p: int, i: nat)
    requires SystemOk(data, m, s) && i < |s.ws| && Within(p, s.ws[i].t.rest)
    ensures IsCut(s, p) <==> p == s.ws[i].t.rest.start
  {
    if IsCut(s, p) {
      var j :| 0 <= j < |s.ws| && s.ws[j].t.rest.start == p;
      StartsInBounds(data, m, s, i);
      assert WorkerOk(data, m, s.ws[j], s.delivered);
      if p < s.ws[j].t.rest.end {
        TilingDisjoint(Restrictions(s.ws), Range(0, |data|), i, j, p);
      }
    }
  }

  lemma AlignedDelivery(data: bytes, m: Mode, s: System, p: int)
    requires Usable(m) && SystemOk(data, m, s) && Aligned(data, m, s.ws)
    ensures p in s.delivered ==> IsKept(data, m, s, p)
    ensures AllFinished(s) && IsKept(data, m, s, p) ==> p in s.delivered
  {
    if 0 <= p < |data| {
      var i := DeliveredInside(data, m, s, p);
      StartsInBounds(data, m, s, i);
      ReadsAreRecords(data, m, s.ws[i], p);
      KeptInside(data, m, s, p, i);
    }
  }

  /**
   The delivery theorem. When the final cuts leave every worker in step, nothing but records is
   delivered, none of them twice and none that begins at the positive start of some
   restriction. Once all workers have finished, all the others are delivered.
   */
  lemma DeliveryTheorem(data: bytes, m: Mode, tiles: seq<Range>, steps: seq<Step>)
    requires Usable(m) && StreamTiling(data, tiles)
    requires Aligned(data, m, Run(data, m, Start(tiles), steps).ws)
    ensures var s := Run(data, m, Start(tiles), steps);
            && NoDuplicates(s.delivered)
            && (forall p :: p in s.delivered ==> p in RecordStarts(data, m, 0))
            && (AllFinished(s) ==>
                  forall p :: p in RecordStarts(data, m, 0) ==> (p in s.delivered <==> !(p > 0 && IsCut(s, p))))
  {
    var s := Run(data, m, Start(tiles), steps);
    StartOk(data, m, tiles);
    RunOk(data, m, Start(tiles), steps);
    forall p: int ensures p in RecordStarts(data, m, 0) <==> 0 <= p && IsRecordStart(data, m, p) {
      StartsAreBoundaries(data, m, 0, p);
    }
    forall p: int ensures p in s.delivered ==> IsKept(data, m, s, p)
                  ensures AllFinished(s) && IsKept(data, m, s, p) ==> p in s.delivered
    {
      AlignedDelivery(data, m, s, p);
    }
  }

  lemma MisalignedDelivery(data: bytes, m: Mode, s: System) returns (p: int)
    requires Usable(m) && SystemOk(data, m, s) && AllFinished(s) && !Aligned(data, m, s.ws)
    ensures 0 <= p < |data| && !IsCut(s, p) && (p in s.delivered <==> !IsRecordStart(data, m, p))
  {
    var i :| 0 <= i < |s.ws| && !InStepWithin(data, m, s.ws[i].t.rest);
    StartsInBounds(data, m, s, i);
    p := OutOfStepShows(data, m, s.ws[i]);
    KeptInside(data, m, s, p, i);
    var j := DeliveredInside(data, m, s, p);
  }

  /**
   Exactly which cuts do: a finished run delivers the records that do not begin on a positive
   cut, and nothing else, if and only if every worker is in step inside its restriction.
   */
  lemma DeliveryIff(data: bytes, m: Mode, tiles: seq<Range>, steps: seq<Step>)
    requires Usable(m) && StreamTiling(data, tiles) && AllFinished(Run(data, m, Start(tiles), steps))
    ensures var s := Run(data, m, Start(tiles), steps);
            (forall p :: p in s.delivered <==> IsKept(data, m, s, p)) <==> Aligned(data, m, s.ws)
  {
    var s := Run(data, m, Start(tiles), steps);
    StartOk(data, m, tiles);
    RunOk(data, m, Start(tiles), steps);
    if Aligned(data, m, s.ws) {
      forall p ensures p in s.delivered <==> IsKept(data, m, s, p) {
        AlignedDelivery(data, m, s, p);
      }
    } else {
      var p := MisalignedDelivery(data, m, s);
      assert p in s.delivered <==> !IsKept(data, m, s, p);
    }
  }

  /**
   Exactly once. A finished run delivers exactly the records, each once, if and only if every
   worker is in step inside its restriction and no positive cut is a record start.
   */
  lemma ExactlyOnceIff(data: bytes, m: Mode, tiles: seq<Range>, steps: seq<Step>)
    requires Usable(m) && StreamTiling(data, tiles) && AllFinished(Run(data, m, Start(tiles), steps))
    ensures var s := Run(data, m, Start(tiles), steps);
            NoDuplicates(s.delivered) &&
            ((forall p :: p in s.delivered <==> IsRecordStart(data, m, p))
             <==> Aligned(data, m, s.ws) && forall p :: p > 0 && IsCut(s, p) ==> !IsRecordStart(data, m, p))
  {
    var s := Run(data, m, Start(tiles), steps);
    StartOk(data, m, tiles);
    RunOk(data, m, Start(tiles), steps);
    if Aligned(data, m, s.ws) {
      forall p: int ensures p in s.delivered <==> IsKept(data, m, s, p) {
        AlignedDelivery(data, m, s, p);
      }
    } else {
      var p := MisalignedDelivery(data, m, s);
    }
  }

  /** In single-line mode every worker is in step, whatever the cuts. */
  lemma SingleLineDelivery(data: bytes, tiles: seq<Range>, steps: seq<Step>)
    requires StreamTiling(data, tiles)
    ensures var s := Run(data, SingleLine, Start(tiles), steps);
            && NoDuplicates(s.delivered)
            && (forall p :: p in s.delivered ==> p in RecordStarts(data, SingleLine, 0))
            && (AllFinished(s) ==>
                  forall p :: p in RecordStarts(data, SingleLine, 0) ==>
                    (p in s.delivered <==> !(p > 0 && IsCut(s, p))))
  {
    var s := Run(data, SingleLine, Start(tiles), steps);
    forall i | 0 <= i < |s.ws| ensures InStepWithin(data, SingleLine, s.ws[i].t.rest) {
      if 0 < s.ws[i].t.rest.start < |data| {
        SingleLineClean(data, s.ws[i].t.rest.start);
      }
      CleanIsInStep(data, SingleLine, s.ws[i].t.rest);
    }
    DeliveryTheorem(data, SingleLine, tiles, steps);
  }

  ghost predicate CutsOutside(data: bytes, quote: byte, p: int) {
    0 < p < |data| ==> StateAt(data, quote, 0, p) == OUTSIDE && data[p - 1] != BACKSLASH
  }

  /** In multiline mode every worker is in step when every cut falls outside quotes and not just after a backslash. */
  lemma MultiLineDelivery(data: bytes, quote: byte, tiles: seq<Range>, steps: seq<Step>)
    requires quote != NEWLINE && StreamTiling(data, tiles)
    requires forall p :: IsCut(Run(data, MultiLine(quote), Start(tiles), steps), p) ==> CutsOutside(data, quote, p)
    ensures var m := MultiLine(quote);
            var s := Run(data, m, Start(tiles), steps);
            && NoDuplicates(s.delivered)
            && (forall p :: p in s.delivered ==> p in RecordStarts(data, m, 0))
            && (AllFinished(s) ==>
                  forall p :: p in RecordStarts(data, m, 0) ==> (p in s.delivered <==> !(p > 0 && IsCut(s, p))))
  {
    var m := MultiLine(quote);
    var s := Run(data, m, Start(tiles), steps);
    forall i | 0 <= i < |s.ws| ensures InStepWithin(data, m, s.ws[i].t.rest) {
      assert IsCut(s, s.ws[i].t.rest.start);
      if 0 < s.ws[i].t.rest.start < |data| {
        OutsideIsClean(data, m, s.ws[i].t.rest.start);
      }
      CleanIsInStep(data, m, s.ws[i].t.rest);
    }
    DeliveryTheorem(data, m, tiles, steps);
  }

  lemma TwoLines()
    ensures var data: bytes := [97, 10, 98, 10];
            && ReadEnd(data, SingleLine, 0) == 2 && ReadEnd(data, SingleLine, 2) == 4
            && !ReaderStep(data, SingleLine, 0).1
            && RecordStarts(data, SingleLine, 0) == [0, 2]
  {
    var data: bytes, m := [97, 10, 98, 10], SingleLine;
    assert NextEnd(data, m, 0) == 2 && NextEnd(data, m, 2) == 4;
    assert RecordStarts(data, m, 4) == [] && RecordStarts(data, m, 2) == [2];
  }

  lemma BothBegin() returns (s: System)
    ensures var data: bytes, s0 := [97, 10, 98, 10], Start([Range(0, 2), Range(2, 4)]);
            s == Apply(data, SingleLine, Apply(data, SingleLine, s0, Begin(0)), Begin(1))
    ensures s == System([Worker(Fresh(Range(0, 2)), Reading(0, 2)), Worker(Fresh(Range(2, 4)), Drained)], [])
  {
    TwoLines();
    hide ReaderStep, ReadEnd, RecordStarts;
    var data: bytes, m := [97, 10, 98, 10], SingleLine;
    var s1 := Apply(data, m, Start([Range(0, 2), Range(2, 4)]), Begin(0));
    assert s1.ws == [Worker(Fresh(Range(0, 2)), Reading(0, 2)), Worker(Fresh(Range(2, 4)), Idle)];
    s := Apply(data, m, s1, Begin(1));
  }

  lemma FirstFeeds()
    ensures var data: bytes := [97, 10, 98, 10];
            var w := Worker(Fresh(Range(2, 4)), Drained);
            Apply(data, SingleLine, Apply(data, SingleLine,
              System([Worker(Fresh(Range(0, 2)), Reading(0, 2)), w], []), Feed(0)), Feed(0))
            == System([Worker(Claim(Fresh(Range(0, 2)), 0), Drained), w], [0])
  {
    TwoLines();
    hide ReaderStep, ReadEnd, RecordStarts;
    var data: bytes, m := [97, 10, 98, 10], SingleLine;
    var s2 := System([Worker(Fresh(Range(0, 2)), Reading(0, 2)), Worker(Fresh(Range(2, 4)), Drained)], []);
    var s3 := Apply(data, m, s2, Feed(0));
    assert s3.delivered == [0] && s3.ws[0].phase == Reading(2, 2);
  }

  /** Two lines of two bytes each, cut in chunks of two bytes: the second line is delivered by nobody. */
  lemma RecordOnACutIsLost()
    ensures var data: bytes := [97, 10, 98, 10]; // a, newline, b, newline
            var tiles := [Range(0, 2), Range(2, 4)];
            var s := Run(data, SingleLine, Start(tiles), [Begin(0), Begin(1), Feed(0), Feed(0), Leave(0), Leave(1)]);
            && StreamTiling(data, tiles) && AllFinished(s)
            && RecordStarts(data, SingleLine, 0) == [0, 2] && s.delivered == [0]
  {
    var data: bytes, m := [97, 10, 98, 10], SingleLine;
    TwoLines();
    hide ReaderStep, ReadEnd, RecordStarts;
    var s0 := Start([Range(0, 2), Range(2, 4)]);
    var s2 := BothBegin();
    FirstFeeds();
    RunSix(data, m, s0, Begin(0), Begin(1), Feed(0), Feed(0), Leave(0), Leave(1));
  }

  lemma RunSix(data: bytes, m: Mode, s: System, a: Step, b: Step, c: Step, d: Step, e: Step, f: Step)
    ensures Run(data, m, s, [a, b, c, d, e, f])
         == Apply(data, m, Apply(data, m, Apply(data, m,
              Apply(data, m, Apply(data, m, Apply(data, m, s, a), b), c), d), e), f)
  {
    var s1 := Apply(data, m, s, a);
    var s2 := Apply(data, m, s1, b);
    var s3 := Apply(data, m, s2, c);
    var s4 := Apply(data, m, s3, d);
    var s5 := Apply(data, m, s4, e);
    var s6 := Apply(data, m, s5, f);
    assert Run(data, m, s6, []) == s6;
    assert [f][1..] == [] && [e, f][1..] == [f] && [d, e, f][1..] == [e, f];
    assert Run(data, m, s3, [d, e, f]) == Run(data, m, s4, [e, f]) == Run(data, m, s5, [f]) == s6;
    assert [c, d, e, f][1..] == [d, e, f] && [b, c, d, e, f][1..] == [c, d, e, f];
    assert [a, b, c, d, e, f][1..] == [b, c, d, e, f];
    assert Run(data, m, s1, [b, c, d, e, f]) == Run(data, m, s2, [c, d, e, f]) == Run(data, m, s3, [d, e, f]);
  }
}
