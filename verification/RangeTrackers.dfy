/**
 The restriction trackers of the three splittable sources.

 A tracker owns a half-open range, remembers the last claimed position and can give away
 the tail of its range while it is being worked on. ByteOffsetTracker works on byte
 offsets; PartitionRangeTracker and PageRangeTracker are one and the same machine over
 indices. Each mutex-held method is one step.

 In TrySplit the source rounds a floating-point product to an integer. Here that integer
 is an argument (`rounded`) about which nothing is assumed, so that every result below
 holds whatever the rounding does.
 */
module RangeTrackers {
  import opened Basics

  datatype Range = Range(start: int, end: int)

  datatype Tracker = Tracker(rest: Range, claimed: int, stopped: bool, failed: bool)

  /** The dynamic type of the argument of TryClaim. */
  datatype RawPosition = Int64(v: int) | Int(v: int) | OtherType

  /** Which of the two machines: byte offsets, or partition and page indices. */
  datatype Grain = ByteOffset | Index

  // ---------------------------------------------------------------- one tracker

  function Fresh(r: Range): Tracker {
    Tracker(r, r.start - 1, false, false)
  }

  predicate Accepts(t: Tracker, pos: int) {
    !t.stopped && t.rest.start <= pos < t.rest.end && t.claimed < pos
  }

  function Claim(t: Tracker, pos: int): Tracker {
    if t.stopped then t
    else if Accepts(t, pos) then t.(claimed := pos)
    else t.(stopped := true)
  }

  /** Byte trackers record the error of a wrongly typed claim even when already stopped; index trackers do not. */
  function ClaimRaw(g: Grain, t: Tracker, raw: RawPosition): Tracker {
    if raw.OtherType? then
      if g.Index? && t.stopped then t else t.(stopped := true, failed := true)
    else
      Claim(t, raw.v)
  }

  predicate AcceptsRaw(t: Tracker, raw: RawPosition) {
    !raw.OtherType? && Accepts(t, raw.v)
  }

  function SplitPoint(g: Grain, t: Tracker, fraction: real, rounded: int): Option<int> {
    if t.stopped || fraction <= 0.0 || fraction >= 1.0 then
      None
    else if g.ByteOffset? then
      var current := Max(t.claimed, t.rest.start);
      var at := current + rounded;
      if t.rest.end - current < 2 || at <= current || at >= t.rest.end then None else Some(at)
    else
      var at := t.claimed + 1 + rounded;
      if at <= t.claimed + 1 || at >= t.rest.end then None else Some(at)
  }

  function Stop(t: Tracker): Tracker {
    t.(stopped := true)
  }

  predicate Done(t: Tracker) {
    t.stopped || t.claimed >= t.rest.end - 1
  }

  function Progress(t: Tracker): (int, int) {
    (t.claimed - t.rest.start + 1, Max(t.rest.end - t.claimed - 1, 0))
  }

  predicate Sane(t: Tracker) {
    t.rest.start <= t.rest.end && t.rest.start - 1 <= t.claimed < t.rest.end
  }

  /** Whatever the rounding, a split point leaves every claim in the primary and both parts non-empty. */
  lemma SplitPointIsSafe(g: Grain, t: Tracker, fraction: real, rounded: int)
    requires Sane(t)
    ensures SplitPoint(g, t, fraction, rounded).Some? ==>
              var at := SplitPoint(g, t, fraction, rounded).value;
              t.claimed < at && t.rest.start < at < t.rest.end && !Done(t)
  {
  }

  /** What a split divides: byte trackers count the claimed position, index trackers begin after it. */
  function ToDivide(g: Grain, t: Tracker): int {
    if g.Index? then t.rest.end - t.claimed - 1
    else if t.claimed < t.rest.start then t.rest.end - t.rest.start
    else t.rest.end - t.claimed
  }

  /** Exactly when a split is accepted: by a tracker at work, for a proper fraction that rounds to a proper part. */
  lemma SplitAcceptedIff(g: Grain, t: Tracker, fraction: real, rounded: int)
    requires Sane(t)
    ensures SplitPoint(g, t, fraction, rounded).Some?
       <==> !t.stopped && 0.0 < fraction < 1.0 && 0 < rounded < ToDivide(g, t)
  {
  }

  /** The residual gets its share: with rounding to the nearest, 1 - fraction of the work to within one half. */
  lemma SplitIsFair(g: Grain, t: Tracker, fraction: real, rounded: int)
    requires Sane(t) && SplitPoint(g, t, fraction, rounded).Some?
    requires -0.5 <= rounded as real - fraction * ToDivide(g, t) as real <= 0.5
    ensures var residual := t.rest.end - SplitPoint(g, t, fraction, rounded).value;
            -0.5 <= residual as real - (1.0 - fraction) * ToDivide(g, t) as real <= 0.5
  {
    var n := ToDivide(g, t);
    assert t.rest.end - SplitPoint(g, t, fraction, rounded).value == n - rounded;
    assert (1.0 - fraction) * n as real == n as real - fraction * n as real;
  }

  /** A claim that succeeds is remembered; one that fails, for its position or its type, is the last that is heard. */
  lemma ClaimsEnd(g: Grain, t: Tracker, raw: RawPosition)
    ensures var n := ClaimRaw(g, t, raw);
            && n.rest == t.rest
            && (AcceptsRaw(t, raw) ==> n.claimed == raw.v && !n.stopped && n.failed == t.failed)
            && (!AcceptsRaw(t, raw) ==> n.stopped && n.claimed == t.claimed && forall p :: !Accepts(n, p))
            && (n.failed <==> t.failed || (raw.OtherType? && !(g.Index? && t.stopped)))
  {
  }

  /** A tracker is done exactly when no further claim can succeed. */
  lemma DoneIff(t: Tracker)
    requires Sane(t)
    ensures Done(t) <==> forall p :: !Accepts(t, p)
  {
    if !Done(t) {
      assert Accepts(t, Max(t.claimed + 1, t.rest.start));
    }
  }

  /** Work done and work remaining always add up to the length of the range. */
  lemma ProgressAddsUp(t: Tracker)
    requires Sane(t)
    ensures Progress(t).0 >= 0 && Progress(t).1 >= 0
    ensures Progress(t).0 + Progress(t).1 == t.rest.end - t.rest.start
    ensures Progress(t).1 == 0 <==> t.claimed >= t.rest.end - 1
  {
  }

  class ByteOffsetTracker {
    var rest: Range
    var claimed: int
    var stopped: bool
    var err: bool

    ghost function State(): Tracker
      reads this
    {
      Tracker(rest, claimed, stopped, err)
    }

    constructor (r: Range)
      ensures State() == Fresh(r)
    {
      rest, claimed, stopped, err := r, r.start - 1, false, false;
    }

    method ClaimOffset(pos: int) returns (ok: bool)
      modifies this
      ensures ok == old(Accepts(State(), pos))
      ensures State() == old(Claim(State(), pos))
    {
      if stopped {
        return false;
      }
      if pos < rest.start || pos >= rest.end || pos <= claimed {
        stopped := true;
        return false;
      }
      claimed := pos;
      return true;
    }

    method TryClaim(raw: RawPosition) returns (ok: bool)
      modifies this
      ensures ok == old(AcceptsRaw(State(), raw))
      ensures State() == old(ClaimRaw(ByteOffset, State(), raw))
    {
      match raw {
        case Int64(p) => ok := ClaimOffset(p);
        case Int(p) => ok := ClaimOffset(p);
        case OtherType =>
          err := true;
          stopped := true;
          return false;
      }
    }

    /** Returns the primary and the residual, and keeps the primary. */
    method TrySplit(fraction: real, rounded: int) returns (parts: Option<(Range, Range)>)
      modifies this
      ensures match old(SplitPoint(ByteOffset, State(), fraction, rounded))
              case None => parts == None && State() == old(State())
              case Some(at) =>
                && parts == Some((Range(old(rest.start), at), Range(at, old(rest.end))))
                && State() == old(State()).(rest := Range(old(rest.start), at))
    {
      if stopped || fraction <= 0.0 || fraction >= 1.0 {
        return None;
      }
      var current := claimed;
      if current < rest.start {
        current := rest.start;
      }
      var remaining := rest.end - current;
      if remaining < 2 {
        return None;
      }
      var splitPoint := current + rounded;
      if splitPoint <= current || splitPoint >= rest.end {
        return None;
      }
      var primary := Range(rest.start, splitPoint);
      var residual := Range(splitPoint, rest.end);
      rest := rest.(end := splitPoint);
      return Some((primary, residual));
    }

    method GetProgress() returns (done: int, remaining: int)
      ensures (done, remaining) == Progress(State())
    {
      done := claimed - rest.start + 1;
      remaining := rest.end - claimed - 1;
      if remaining < 0 {
        remaining := 0;
      }
    }

    method MarkDone()
      modifies this
      ensures State() == old(Stop(State()))
    {
      stopped := true;
    }

    method IsDone() returns (done: bool)
      ensures done == Done(State())
    {
      return stopped || claimed >= rest.end - 1;
    }
  }

  /** PartitionRangeTracker and PageRangeTracker, which differ in name only. */
  class IndexRangeTracker {
    var rest: Range
    var claimed: int
    var stopped: bool
    var err: bool

    ghost function State(): Tracker
      reads this
    {
      Tracker(rest, claimed, stopped, err)
    }

    constructor (r: Range)
      ensures State() == Fresh(r)
    {
      rest, claimed, stopped, err := r, r.start - 1, false, false;
    }

    method TryClaim(raw: RawPosition) returns (ok: bool)
      modifies this
      ensures ok == old(AcceptsRaw(State(), raw))
      ensures State() == old(ClaimRaw(Index, State(), raw))
    {
      if stopped {
        return false;
      }
      var index;
      match raw {
        case Int64(i) => index := i;
        case Int(i) => index := i;
        case OtherType =>
          err := true;
          stopped := true;
          return false;
      }
      if index < rest.start || index >= rest.end || index <= claimed {
        stopped := true;
        return false;
      }
      claimed := index;
      return true;
    }

    method TrySplit(fraction: real, rounded: int) returns (parts: Option<(Range, Range)>)
      modifies this
      ensures match old(SplitPoint(Index, State(), fraction, rounded))
              case None => parts == None && State() == old(State())
              case Some(at) =>
                && parts == Some((Range(old(rest.start), at), Range(at, old(rest.end))))
                && State() == old(State()).(rest := Range(old(rest.start), at))
    {
      if stopped || fraction <= 0.0 || fraction >= 1.0 {
        return None;
      }
      var splitPoint := claimed + 1 + rounded;
      if splitPoint <= claimed + 1 || splitPoint >= rest.end {
        return None;
      }
      var primary := Range(rest.start, splitPoint);
      var residual := Range(splitPoint, rest.end);
      rest := rest.(end := splitPoint);
      return Some((primary, residual));
    }

    method IsDone() returns (done: bool)
      ensures done == Done(State())
    {
      return stopped || claimed >= rest.end - 1;
    }
  }

  // ---------------------------------------------------------------- tilings

  /** The ranges are ordered, adjacent, and cover r exactly. */
  ghost predicate Tiling(rs: seq<Range>, r: Range) {
    && |rs| > 0
    && rs[0].start == r.start
    && rs[|rs| - 1].end == r.end
    && (forall i :: 0 <= i < |rs| ==> rs[i].start <= rs[i].end)
    && (forall i :: 0 <= i < |rs| - 1 ==> rs[i].end == rs[i + 1].start)
  }

  ghost predicate Within(p: int, r: Range) {
    r.start <= p < r.end
  }

  lemma {:induction false} TilingOrdered(rs: seq<Range>, r: Range, i: nat, j: nat)
    requires Tiling(rs, r) && i < j < |rs|
    ensures rs[i].end <= rs[j].start
    decreases j
  {
    if i + 1 < j {
      TilingOrdered(rs, r, i, j - 1);
    }
  }

  lemma {:induction false} TilingInside(rs: seq<Range>, r: Range, i: nat)
    requires Tiling(rs, r) && i < |rs|
    ensures r.start <= rs[i].start && rs[i].end <= r.end
  {
    if i > 0 {
      TilingOrdered(rs, r, 0, i);
    }
    if i < |rs| - 1 {
      TilingOrdered(rs, r, i, |rs| - 1);
    }
  }

  lemma TilingDisjoint(rs: seq<Range>, r: Range, i: nat, j: nat, p: int)
    requires Tiling(rs, r) && i < |rs| && j < |rs| && Within(p, rs[i]) && Within(p, rs[j])
    ensures i == j
  {
    if i < j {
      TilingOrdered(rs, r, i, j);
    } else if j < i {
      TilingOrdered(rs, r, j, i);
    }
  }

  /** Every position of the tiled range has exactly one owner. */
  lemma TilingCovers(rs: seq<Range>, r: Range, p: int) returns (owner: nat)
    requires Tiling(rs, r) && Within(p, r)
    ensures owner < |rs| && Within(p, rs[owner])
    ensures forall j :: 0 <= j < |rs| && Within(p, rs[j]) ==> j == owner
  {
    owner := 0;
    while p >= rs[owner].end
      invariant owner < |rs| && rs[owner].start <= p
      decreases |rs| - owner
    {
      owner := owner + 1;
    }
    forall j | 0 <= j < |rs| && Within(p, rs[j]) ensures j == owner {
      TilingDisjoint(rs, r, owner, j, p);
    }
  }

  lemma TilingSplit(rs: seq<Range>, r: Range, i: nat, at: int)
    requires Tiling(rs, r) && i < |rs| && rs[i].start <= at <= rs[i].end
    ensures Tiling(rs[..i] + [Range(rs[i].start, at), Range(at, rs[i].end)] + rs[i + 1..], r)
  {
    var n := rs[..i] + [Range(rs[i].start, at), Range(at, rs[i].end)] + rs[i + 1..];
    assert forall k :: i + 1 < k < |n| ==> n[k] == rs[k - 1];
  }

  // ---------------------------------------------------------------- trees of splits

  /** All trackers that descend from one restriction, left to right, and every accepted claim in order. */
  datatype Forest = Forest(ts: seq<Tracker>, log: seq<int>)

  datatype Op =
    | OpClaim(i: nat, raw: RawPosition)
    | OpSplit(i: nat, fraction: real, rounded: int)
    | OpDone(i: nat)

  function Ranges(ts: seq<Tracker>): (rs: seq<Range>)
    ensures |rs| == |ts|
    ensures forall i :: 0 <= i < |ts| ==> rs[i] == ts[i].rest
  {
    seq(|ts|, i requires 0 <= i < |ts| => ts[i].rest)
  }

  /** Carries out a successful split: the residual becomes a new tracker right after the primary. */
  function Divide(ts: seq<Tracker>, i: nat, at: int): seq<Tracker>
    requires i < |ts|
  {
    var t := ts[i];
    ts[..i] + [t.(rest := Range(t.rest.start, at)), Fresh(Range(at, t.rest.end))] + ts[i + 1..]
  }

  function Apply(g: Grain, f: Forest, op: Op): Forest {
    if op.i >= |f.ts| then f
    else
      var t := f.ts[op.i];
      match op
      case OpClaim(i, raw) =>
        Forest(f.ts[i := ClaimRaw(g, t, raw)], if AcceptsRaw(t, raw) then f.log + [raw.v] else f.log)
      case OpSplit(i, fraction, rounded) =>
        (match SplitPoint(g, t, fraction, rounded)
         case None => f
         case Some(at) => f.(ts := Divide(f.ts, i, at)))
      case OpDone(i) => f.(ts := f.ts[i := Stop(t)])
  }

  function Run(g: Grain, f: Forest, ops: seq<Op>): Forest
    decreases |ops|
  {
    if ops == [] then f else Run(g, Apply(g, f, ops[0]), ops[1..])
  }

  /** Claims inside one restriction strictly increase and never pass its tracker's last claim. */
  ghost predicate ClaimsOrdered(f: Forest) {
    && (forall k, i :: 0 <= k < |f.ts| && 0 <= i < |f.log| && Within(f.log[i], f.ts[k].rest) ==>
          f.log[i] <= f.ts[k].claimed)
    && (forall k, i, j :: 0 <= k < |f.ts| && 0 <= i < j < |f.log|
                          && Within(f.log[i], f.ts[k].rest) && Within(f.log[j], f.ts[k].rest) ==>
          f.log[i] < f.log[j])
  }

  ghost predicate ForestOk(f: Forest, r: Range) {
    && Tiling(Ranges(f.ts), r)
    && (forall k :: 0 <= k < |f.ts| ==> Sane(f.ts[k]))
    && (forall i :: 0 <= i < |f.log| ==> Within(f.log[i], r))
    && ClaimsOrdered(f)
  }

  lemma ClaimKeepsForest(g: Grain, f: Forest, r: Range, i: nat, raw: RawPosition)
    requires ForestOk(f, r) && i < |f.ts|
    ensures ForestOk(Apply(g, f, OpClaim(i, raw)), r)
  {
    hide Tiling;
    var n := Apply(g, f, OpClaim(i, raw));
    assert Ranges(n.ts) == Ranges(f.ts);
    if AcceptsRaw(f.ts[i], raw) {
      TilingInside(Ranges(f.ts), r, i);
      forall k | 0 <= k < |f.ts| && Within(raw.v, f.ts[k].rest) ensures k == i {
        TilingDisjoint(Ranges(f.ts), r, i, k, raw.v);
      }
      ClaimKeepsOrder(f, i, n.ts[i], raw.v);
    }
  }

  lemma ClaimKeepsOrder(f: Forest, i: nat, t: Tracker, p: int)
    requires i < |f.ts| && ClaimsOrdered(f)
    requires f.ts[i].claimed < p == t.claimed && t.rest == f.ts[i].rest
    requires forall k :: 0 <= k < |f.ts| && Within(p, f.ts[k].rest) ==> k == i
    ensures ClaimsOrdered(Forest(f.ts[i := t], f.log + [p]))
  {
    var ts, log := f.ts[i := t], f.log + [p];
    forall k, a, b | 0 <= k < |ts| && 0 <= a < b < |log| && Within(log[a], ts[k].rest) && Within(log[b], ts[k].rest)
      ensures log[a] < log[b]
    {
      assert Within(f.log[a], f.ts[k].rest);
    }
  }

  /** The tracker of the undivided forest whose range contains that of tracker k after a split of tracker i. */
  function Parent(i: nat, k: nat): nat {
    if k <= i then k else k - 1
  }

  lemma DivideParts(ts: seq<Tracker>, i: nat, at: int, k: nat)
    requires i < |ts| && ts[i].rest.start <= at <= ts[i].rest.end && k <= |ts|
    ensures var n := Divide(ts, i, at);
            && |n| == |ts| + 1
            && (k < i || k > i + 1 ==> n[k] == ts[Parent(i, k)])
            && n[i] == ts[i].(rest := Range(ts[i].rest.start, at))
            && n[i + 1] == Fresh(Range(at, ts[i].rest.end))
            && (forall p :: Within(p, n[k].rest) ==> Within(p, ts[Parent(i, k)].rest))
  {
  }

  lemma DivideKeepsClaims(f: Forest, i: nat, at: int)
    requires i < |f.ts| && ClaimsOrdered(f)
    requires f.ts[i].claimed < at && f.ts[i].rest.start < at < f.ts[i].rest.end
    ensures ClaimsOrdered(f.(ts := Divide(f.ts, i, at)))
  {
    var n := Divide(f.ts, i, at);
    forall k, a | 0 <= k < |n| && 0 <= a < |f.log| && Within(f.log[a], n[k].rest)
      ensures f.log[a] <= n[k].claimed
      ensures forall b :: a < b < |f.log| && Within(f.log[b], n[k].rest) ==> f.log[a] < f.log[b]
    {
      DivideParts(f.ts, i, at, k);
    }
  }

  lemma DivideKeepsTiling(ts: seq<Tracker>, r: Range, i: nat, at: int)
    requires i < |ts| && Tiling(Ranges(ts), r) && ts[i].rest.start <= at <= ts[i].rest.end
    ensures Tiling(Ranges(Divide(ts, i, at)), r)
  {
    var rs, n := Ranges(ts), Ranges(Divide(ts, i, at));
    TilingSplit(rs, r, i, at);
    assert n == rs[..i] + [Range(rs[i].start, at), Range(at, rs[i].end)] + rs[i + 1..];
  }

  lemma DivideKeepsSanity(ts: seq<Tracker>, i: nat, at: int)
    requires i < |ts| && (forall k :: 0 <= k < |ts| ==> Sane(ts[k]))
    requires ts[i].claimed < at && ts[i].rest.start < at < ts[i].rest.end
    ensures forall k :: 0 <= k < |Divide(ts, i, at)| ==> Sane(Divide(ts, i, at)[k])
  {
    forall k | 0 <= k < |Divide(ts, i, at)| ensures Sane(Divide(ts, i, at)[k]) {
      DivideParts(ts, i, at, k);
    }
  }

  lemma SplitKeepsForest(g: Grain, f: Forest, r: Range, i: nat, fraction: real, rounded: int)
    requires ForestOk(f, r) && i < |f.ts|
    ensures ForestOk(Apply(g, f, OpSplit(i, fraction, rounded)), r)
  {
    SplitPointIsSafe(g, f.ts[i], fraction, rounded);
    match SplitPoint(g, f.ts[i], fraction, rounded) {
      case None =>
      case Some(at) =>
        DivideKeepsTiling(f.ts, r, i, at);
        DivideKeepsSanity(f.ts, i, at);
        DivideKeepsClaims(f, i, at);
    }
  }

  lemma StopKeepsForest(g: Grain, f: Forest, r: Range, i: nat)
    requires ForestOk(f, r) && i < |f.ts|
    ensures ForestOk(Apply(g, f, OpDone(i)), r)
  {
    assert Ranges(Apply(g, f, OpDone(i)).ts) == Ranges(f.ts);
  }

  lemma StepKeepsForest(g: Grain, f: Forest, r: Range, op: Op)
    requires ForestOk(f, r)
    ensures ForestOk(Apply(g, f, op), r)
  {
    if op.i < |f.ts| {
      match op {
        case OpClaim(i, raw) => ClaimKeepsForest(g, f, r, i, raw);
        case OpSplit(i, fraction, rounded) => SplitKeepsForest(g, f, r, i, fraction, rounded);
        case OpDone(i) => StopKeepsForest(g, f, r, i);
      }
    }
  }

  lemma {:induction false} RunKeepsForest(g: Grain, f: Forest, r: Range, ops: seq<Op>)
    requires ForestOk(f, r)
    ensures ForestOk(Run(g, f, ops), r)
    decreases |ops|
  {
    if ops != [] {
      StepKeepsForest(g, f, r, ops[0]);
      RunKeepsForest(g, Apply(g, f, ops[0]), r, ops[1..]);
    }
  }

  /**
   Main result for trackers. Start from one restriction and let any claims, splits and stops
   happen in any order on any descendant. The restrictions always tile the original range,
   no position is ever claimed twice anywhere, claims inside a restriction only grow, and
   the last claim stays below the end.
   */
  lemma SplitTreeSafety(g: Grain, r: Range, ops: seq<Op>)
    requires r.start <= r.end
    ensures var f := Run(g, Forest([Fresh(r)], []), ops);
            && Tiling(Ranges(f.ts), r)
            && (forall t :: t in f.ts ==> t.rest.start - 1 <= t.claimed < t.rest.end)
            && (forall i :: 0 <= i < |f.log| ==> Within(f.log[i], r))
            && NoDuplicates(f.log)
            && ClaimsOrdered(f)
  {
    var f := Run(g, Forest([Fresh(r)], []), ops);
    RunKeepsForest(g, Forest([Fresh(r)], []), r, ops);
    forall i, j | 0 <= i < j < |f.log| ensures f.log[i] != f.log[j] {
      var owner := TilingCovers(Ranges(f.ts), r, f.log[i]);
      assert Within(f.log[i], f.ts[owner].rest);
    }
  }

  /** One step leaves a done tracker done; `MovesTo` says where a split to its left shifts it. */
  function MovesTo(g: Grain, f: Forest, op: Op, k: nat): nat {
    if op.OpSplit? && op.i < k && op.i < |f.ts| && SplitPoint(g, f.ts[op.i], op.fraction, op.rounded).Some?
    then k + 1 else k
  }

  lemma DoneStep(g: Grain, f: Forest, op: Op, k: nat)
    requires k < |f.ts| && (forall j :: 0 <= j < |f.ts| ==> Sane(f.ts[j])) && Done(f.ts[k])
    ensures var f', k' := Apply(g, f, op), MovesTo(g, f, op, k);
            k' < |f'.ts| && f'.ts[k'].rest == f.ts[k].rest && f'.ts[k'].claimed == f.ts[k].claimed && Done(f'.ts[k'])
  {
    if op.i < |f.ts| {
      match op {
        case OpClaim(i, raw) =>
        case OpSplit(i, fraction, rounded) =>
          SplitPointIsSafe(g, f.ts[i], fraction, rounded);
          var split := SplitPoint(g, f.ts[i], fraction, rounded);
          if split.Some? {
            DivideParts(f.ts, i, split.value, MovesTo(g, f, op, k));
          }
        case OpDone(i) =>
      }
    }
  }

  /** Once a tracker is done it stays done, with the same restriction, through every later run. */
  lemma {:induction false} DoneIsForever(g: Grain, f: Forest, r: Range, ops: seq<Op>, k: nat) returns (k': nat)
    requires ForestOk(f, r) && k < |f.ts| && Done(f.ts[k])
    ensures var f' := Run(g, f, ops);
            k' < |f'.ts| && f'.ts[k'].rest == f.ts[k].rest && f'.ts[k'].claimed == f.ts[k].claimed && Done(f'.ts[k'])
    decreases |ops|
  {
    if ops == [] {
      k' := k;
    } else {
      DoneStep(g, f, ops[0], k);
      StepKeepsForest(g, f, r, ops[0]);
      k' := DoneIsForever(g, Apply(g, f, ops[0]), r, ops[1..], MovesTo(g, f, ops[0], k));
    }
  }
}
