/**
 The circuit breaker. A guarded call is two critical sections, one before and one after the
 call itself, so calls in flight can end in any state. Runs are sequences of such sections;
 every clock reading is part of the event that makes it.
 */
module CircuitBreakers {
  import opened Basics
  import opened Bits

  datatype State = Closed | HalfOpen | Open

  datatype Settings = Settings(maxFailures: uint32, halfOpenLimit: uint32, timeout: int)

  datatype Breaker = Breaker(state: State, failures: uint32, successes: uint32, lastStateChange: int)

  const ONE_SECOND := 1_000_000_000

  /** Negative timeouts are refused, zero values replaced by defaults. */
  function Effective(st: Settings): Option<Settings> {
    if st.timeout < 0 then None
    else Some(Settings(if st.maxFailures == 0 then 1 else st.maxFailures,
                       if st.halfOpenLimit == 0 then 1 else st.halfOpenLimit,
                       if st.timeout == 0 then ONE_SECOND else st.timeout))
  }

  predicate Usable(st: Settings) {
    st.maxFailures >= 1 && st.halfOpenLimit >= 1 && st.timeout > 0
  }

  function New(now: int): Breaker {
    Breaker(Closed, 0, 0, now)
  }

  /** checkStateTransition: the clock is read once for the comparison and once for the stamp. */
  function Check(st: Settings, b: Breaker, since: int, stamp: int): Breaker {
    if b.state.Open? && since - b.lastStateChange > st.timeout then Breaker(HalfOpen, 0, 0, stamp) else b
  }

  /** The section after a call; counters are 32-bit words. */
  function Settle(st: Settings, b: Breaker, failed: bool, stamp: int): Breaker {
    if failed then
      var f := b.(failures := ToUint32(b.failures + 1));
      if f.state.HalfOpen? || f.failures >= st.maxFailures then f.(state := Open, lastStateChange := stamp) else f
    else if b.state.HalfOpen? then
      var s := b.(successes := ToUint32(b.successes + 1));
      if s.successes >= st.halfOpenLimit then Breaker(Closed, 0, 0, stamp) else s
    else b
  }

  // ---------------------------------------------------------------- runs

  datatype Event =
    | Enter(since: int, stamp: int)
    | Exit(failed: bool, stamp: int)
    | Query(since: int, stamp: int)

  /** A breaker and the number of admitted calls that have not ended. */
  datatype System = System(b: Breaker, inFlight: nat)

  predicate Admits(st: Settings, s: System, e: Event) {
    e.Enter? && !Check(st, s.b, e.since, e.stamp).state.Open?
  }

  /** An exit without a call in flight does not happen. */
  function Apply(st: Settings, s: System, e: Event): System {
    match e
    case Enter(since, stamp) =>
      System(Check(st, s.b, since, stamp), if Admits(st, s, e) then s.inFlight + 1 else s.inFlight)
    case Exit(failed, stamp) => if s.inFlight == 0 then s else System(Settle(st, s.b, failed, stamp), s.inFlight - 1)
    case Query(since, stamp) => s.(b := Check(st, s.b, since, stamp))
  }

  /** The states before, between and after the events. */
  function After(st: Settings, s: System, es: seq<Event>, n: nat): System
    requires n <= |es|
  {
    if n == 0 then s else Apply(st, After(st, s, es, n - 1), es[n - 1])
  }

  function First(e: Event): int {
    if e.Exit? then e.stamp else e.since
  }

  /** Clock readings never go back, within an event or from one to the next. */
  ghost predicate Forward(start: int, es: seq<Event>) {
    && (es != [] ==> start <= First(es[0]))
    && (forall i :: 0 <= i < |es| ==> First(es[i]) <= es[i].stamp)
    && (forall i, j :: 0 <= i < j < |es| ==> es[i].stamp <= First(es[j]))
  }

  predicate Sane(st: Settings, b: Breaker) {
    && (b.state.Closed? ==> b.failures < st.maxFailures)
    && (b.state.HalfOpen? ==> b.failures == 0)
    && b.successes < st.halfOpenLimit
  }

  lemma StepSane(st: Settings, s: System, e: Event)
    requires Usable(st) && Sane(st, s.b)
    ensures Sane(st, Apply(st, s, e).b)
  {
  }

  /**
   In every state of every run with calls in flight: closed means fewer failures than the
   maximum, half-open means no failure and fewer successes than the limit.
   */
  lemma {:induction false} RunSane(st: Settings, start: int, es: seq<Event>, n: nat)
    requires Usable(st) && n <= |es|
    ensures Sane(st, After(st, System(New(start), 0), es, n).b)
  {
    if n > 0 {
      RunSane(st, start, es, n - 1);
      StepSane(st, After(st, System(New(start), 0), es, n - 1), es[n - 1]);
    }
  }

  // ---------------------------------------------------------------- closing again

  /** Event i ends a call with the given outcome. */
  predicate Ends(st: Settings, s: System, es: seq<Event>, i: nat, failed: bool)
    requires i < |es|
  {
    es[i].Exit? && es[i].failed == failed && After(st, s, es, i).inFlight > 0
  }

  function Successes(st: Settings, s: System, es: seq<Event>, from: nat, to: nat): nat
    requires from <= to <= |es|
  {
    if from == to then 0
    else Successes(st, s, es, from, to - 1) + (if Ends(st, s, es, to - 1, false) then 1 else 0)
  }

  /** From the state after event j on, up to n events, the breaker was half-open and saw no failure. */
  ghost predicate Probing(st: Settings, s: System, es: seq<Event>, j: nat, n: nat)
    requires j < n <= |es|
  {
    && After(st, s, es, j).b.state.Open? && After(st, s, es, j + 1).b.state.HalfOpen?
    && (forall i :: j < i <= n ==> After(st, s, es, i).b.state.HalfOpen?)
    && (forall i :: j < i < n ==> !Ends(st, s, es, i, true))
  }

  /** A step that leaves the breaker half-open found it open, or half-open with no failure. */
  lemma HalfOpenStep(st: Settings, s: System, e: Event)
    requires Usable(st) && Sane(st, s.b) && Apply(st, s, e).b.state.HalfOpen?
    ensures var success := e.Exit? && !e.failed && s.inFlight > 0;
            && !(e.Exit? && e.failed && s.inFlight > 0 && s.b.state.HalfOpen?)
            && (s.b.state.HalfOpen? ==> Apply(st, s, e).b.successes == s.b.successes + (if success then 1 else 0))
            && (!s.b.state.HalfOpen? ==> s.b.state.Open? && Apply(st, s, e).b.successes == 0)
  {
  }

  /** Where the current half-open period began; its successes are exactly those counted. */
  lemma {:induction false} HalfOpenHistory(st: Settings, start: int, es: seq<Event>, n: nat) returns (j: nat)
    requires Usable(st) && n <= |es| && After(st, System(New(start), 0), es, n).b.state.HalfOpen?
    ensures j < n && Probing(st, System(New(start), 0), es, j, n)
    ensures After(st, System(New(start), 0), es, n).b.successes == Successes(st, System(New(start), 0), es, j + 1, n)
  {
    hide Apply;
    var s := System(New(start), 0);
    var before, e := After(st, s, es, n - 1), es[n - 1];
    RunSane(st, start, es, n - 1);
    HalfOpenStep(st, before, e);
    if before.b.state.HalfOpen? {
      j := HalfOpenHistory(st, start, es, n - 1);
    } else {
      j := n - 1;
    }
  }

  /**
   The breaker closes again only from a half-open period in which no call failed and exactly
   `halfOpenLimit` calls succeeded, the last of them closing it.
   */
  lemma ClosesOnlyAfterProbes(st: Settings, start: int, es: seq<Event>, k: nat) returns (j: nat)
    requires Usable(st) && k < |es|
    requires !After(st, System(New(start), 0), es, k).b.state.Closed?
    requires After(st, System(New(start), 0), es, k + 1).b.state.Closed?
    ensures j < k && Probing(st, System(New(start), 0), es, j, k)
    ensures Ends(st, System(New(start), 0), es, k, false)
    ensures Successes(st, System(New(start), 0), es, j + 1, k + 1) == st.halfOpenLimit
  {
    var s := System(New(start), 0);
    RunSane(st, start, es, k);
    j := HalfOpenHistory(st, start, es, k);
  }

  // ---------------------------------------------------------------- staying open

  /** After an opening at event i, the breaker is open with a stamp no older, or the timeout is over. */
  lemma {:induction false} OpenUntilTimeout(st: Settings, start: int, es: seq<Event>, i: nat, n: nat)
    requires Usable(st) && Forward(start, es) && i < n <= |es|
    requires var a := After(st, System(New(start), 0), es, i + 1).b; a.state.Open? && a.lastStateChange == es[i].stamp
    ensures var b := After(st, System(New(start), 0), es, n).b;
            (b.state.Open? && b.lastStateChange >= es[i].stamp) || First(es[n - 1]) > es[i].stamp + st.timeout
    decreases n
  {
    if n > i + 1 {
      OpenUntilTimeout(st, start, es, i, n - 1);
    }
  }

  /** No call is admitted within the timeout after an opening, or after a late failure that renews it. */
  lemma NoAdmissionWithinTimeout(st: Settings, start: int, es: seq<Event>, i: nat, k: nat)
    requires Usable(st) && Forward(start, es) && i < k < |es|
    requires var a := After(st, System(New(start), 0), es, i + 1).b; a.state.Open? && a.lastStateChange == es[i].stamp
    requires Admits(st, After(st, System(New(start), 0), es, k), es[k])
    ensures First(es[k]) > es[i].stamp + st.timeout
  {
    OpenUntilTimeout(st, start, es, i, k);
  }

  /** Event i ends a failed call and leaves the breaker open, opened or renewed at that moment. */
  ghost predicate OpensAt(st: Settings, s: System, es: seq<Event>, i: nat)
    requires i < |es|
  {
    var a := After(st, s, es, i + 1).b;
    Ends(st, s, es, i, true) && a.state.Open? && a.lastStateChange == es[i].stamp
  }

  /** A step that leaves the breaker open found it so with the same stamp, or is the end of a failed call. */
  lemma OpenStep(st: Settings, s: System, e: Event)
    requires Apply(st, s, e).b.state.Open?
    ensures || (s.b.state.Open? && Apply(st, s, e).b.lastStateChange == s.b.lastStateChange)
            || (e.Exit? && e.failed && s.inFlight > 0 && Apply(st, s, e).b.lastStateChange == e.stamp)
  {
  }

  /** An open breaker was opened, or last renewed, by some event whose stamp it bears. */
  lemma {:induction false} OpenHistory(st: Settings, start: int, es: seq<Event>, n: nat) returns (i: nat)
    requires Usable(st) && n <= |es| && After(st, System(New(start), 0), es, n).b.state.Open?
    ensures i < n && OpensAt(st, System(New(start), 0), es, i)
    ensures After(st, System(New(start), 0), es, n).b.lastStateChange == es[i].stamp
  {
    hide Apply;
    var s := System(New(start), 0);
    var before, e := After(st, s, es, n - 1), es[n - 1];
    OpenStep(st, before, e);
    if e.Exit? && e.failed && before.inFlight > 0 && After(st, s, es, n).b.lastStateChange == e.stamp {
      i := n - 1;
    } else {
      i := OpenHistory(st, start, es, n - 1);
    }
  }

  /** Some opening before event k is not longer ago than the timeout. */
  ghost predicate WithinTimeout(st: Settings, s: System, es: seq<Event>, k: nat)
    requires k < |es|
  {
    exists i :: 0 <= i < k && OpensAt(st, s, es, i) && First(es[k]) <= es[i].stamp + st.timeout
  }

  /**
   Exactly when a call is refused, in any run: when the breaker was opened, or its opening renewed,
   not longer ago than the timeout. Once that has passed, the next call is admitted.
   */
  lemma RefusedIff(st: Settings, start: int, es: seq<Event>, k: nat)
    requires Usable(st) && Forward(start, es) && k < |es| && es[k].Enter?
    ensures !Admits(st, After(st, System(New(start), 0), es, k), es[k])
       <==> WithinTimeout(st, System(New(start), 0), es, k)
  {
    var s := System(New(start), 0);
    if !Admits(st, After(st, s, es, k), es[k]) {
      var i := OpenHistory(st, start, es, k);
    }
    if WithinTimeout(st, s, es, k) {
      var i :| 0 <= i < k && OpensAt(st, s, es, i) && First(es[k]) <= es[i].stamp + st.timeout;
      OpenUntilTimeout(st, start, es, i, k);
    }
  }

  /** The settings in force: what was asked for, with 1, 1 and one second for what was left at zero. */
  lemma SettingsInForce(st: Settings)
    requires st.timeout >= 0
    ensures Effective(st).Some? && Usable(Effective(st).value)
    ensures var e := Effective(st).value;
            && (st.maxFailures > 0 ==> e.maxFailures == st.maxFailures) && (st.maxFailures == 0 ==> e.maxFailures == 1)
            && (st.halfOpenLimit > 0 ==> e.halfOpenLimit == st.halfOpenLimit)
            && (st.halfOpenLimit == 0 ==> e.halfOpenLimit == 1)
            && (st.timeout > 0 ==> e.timeout == st.timeout) && (st.timeout == 0 ==> e.timeout == 1_000_000_000)
  {
  }

  /** Every opening stamps the clock, so the result above applies to every opening. */
  lemma OpeningStamps(st: Settings, s: System, e: Event)
    requires !s.b.state.Open? && Apply(st, s, e).b.state.Open?
    ensures Apply(st, s, e).b.lastStateChange == e.stamp
  {
  }

  /** The half-open limit bounds the successes that are needed, not the probes: every call that arrives is admitted. */
  lemma {:induction false} ProbesAreNotLimited(st: Settings, s: System, es: seq<Event>, n: nat)
    requires s.b.state.HalfOpen? && n <= |es| && forall i :: 0 <= i < n ==> es[i].Enter?
    ensures After(st, s, es, n) == System(s.b, s.inFlight + n)
  {
    if n > 0 {
      ProbesAreNotLimited(st, s, es, n - 1);
    }
  }

  /** The calls that arrive among events from..to. */
  function Arrivals(es: seq<Event>, from: nat, to: nat): nat
    requires from <= to <= |es|
  {
    if from == to then 0 else Arrivals(es, from, to - 1) + (if es[to - 1].Enter? then 1 else 0)
  }

  /** The calls that are admitted among events from..to. */
  function Admitted(st: Settings, s: System, es: seq<Event>, from: nat, to: nat): nat
    requires from <= to <= |es|
  {
    if from == to then 0
    else Admitted(st, s, es, from, to - 1) + (if Admits(st, After(st, s, es, to - 1), es[to - 1]) then 1 else 0)
  }

  /** The first step of a half-open period: an arrival, which is admitted, or a query. */
  lemma PeriodBegins(st: Settings, s: System, e: Event)
    requires s.b.state.Open? && Apply(st, s, e).b.state.HalfOpen?
    ensures !e.Exit? && (Admits(st, s, e) <==> e.Enter?)
    ensures Apply(st, s, e).inFlight == s.inFlight + (if e.Enter? then 1 else 0)
  {
  }

  /** A later step of the period: arrivals are admitted, and the calls that end succeed. */
  lemma PeriodGoesOn(st: Settings, s: System, e: Event)
    requires s.b.state.HalfOpen? && !(e.Exit? && e.failed && s.inFlight > 0)
    ensures Admits(st, s, e) <==> e.Enter?
    ensures var success := e.Exit? && !e.failed && s.inFlight > 0;
            Apply(st, s, e).inFlight + (if success then 1 else 0) == s.inFlight + (if e.Enter? then 1 else 0)
  {
  }

  /**
   A half-open period admits every call that arrives in it, and each of them is still in flight
   or has succeeded, as calls admitted before it may also do.
   */
  lemma {:induction false} PeriodAdmits(st: Settings, s: System, es: seq<Event>, j: nat, n: nat)
    requires j < n <= |es| && Probing(st, s, es, j, n)
    ensures Admitted(st, s, es, j, n) == Arrivals(es, j, n)
    ensures Admitted(st, s, es, j, n) + After(st, s, es, j).inFlight
         == Successes(st, s, es, j + 1, n) + After(st, s, es, n).inFlight
    decreases n
  {
    hide Apply, Admits;
    var before, e := After(st, s, es, n - 1), es[n - 1];
    if n == j + 1 {
      PeriodBegins(st, before, e);
    } else {
      assert Probing(st, s, es, j, n - 1);
      PeriodAdmits(st, s, es, j, n - 1);
      assert !Ends(st, s, es, n - 1, true);
      PeriodGoesOn(st, before, e);
    }
  }

  /** A half-open state belongs to one period. */
  lemma ProbingUnique(st: Settings, s: System, es: seq<Event>, j: nat, k: nat, n: nat)
    requires j < n <= |es| && k < n && Probing(st, s, es, j, n) && Probing(st, s, es, k, n)
    ensures j == k
  {
  }

  /** The success counter of a half-open state counts the successes of its period, and is below the limit. */
  lemma PeriodSuccesses(st: Settings, start: int, es: seq<Event>, j: nat, n: nat)
    requires Usable(st) && j < n <= |es| && Probing(st, System(New(start), 0), es, j, n)
    ensures After(st, System(New(start), 0), es, n).b.successes == Successes(st, System(New(start), 0), es, j + 1, n)
    ensures Successes(st, System(New(start), 0), es, j + 1, n) < st.halfOpenLimit
  {
    var j' := HalfOpenHistory(st, start, es, n);
    ProbingUnique(st, System(New(start), 0), es, j, j', n);
    RunSane(st, start, es, n);
  }

  /**
   Exactly when the limit bounds the trials of a half-open period, as it is documented to do: when
   no more calls arrive in it than that. Put by the state: when the calls that are in flight
   beyond those at its beginning, and the successes counted, together stay within the limit.
   */
  lemma TrialsWithinLimitIff(st: Settings, start: int, es: seq<Event>, j: nat, n: nat)
    requires Usable(st) && j < n <= |es| && Probing(st, System(New(start), 0), es, j, n)
    ensures var s := System(New(start), 0);
            var before, now := After(st, s, es, j), After(st, s, es, n);
            && (Admitted(st, s, es, j, n) <= st.halfOpenLimit <==> Arrivals(es, j, n) <= st.halfOpenLimit)
            && (Admitted(st, s, es, j, n) <= st.halfOpenLimit
                <==> now.b.successes + now.inFlight <= st.halfOpenLimit + before.inFlight)
  {
    PeriodAdmits(st, System(New(start), 0), es, j, n);
    PeriodSuccesses(st, start, es, j, n);
  }

  /** Callers that do not overlap keep the limit: at most one trial in flight at a time. */
  lemma OneTrialAtATime(st: Settings, start: int, es: seq<Event>, j: nat, n: nat)
    requires Usable(st) && j < n <= |es| && Probing(st, System(New(start), 0), es, j, n)
    requires var s := System(New(start), 0);
             After(st, s, es, n).inFlight <= After(st, s, es, j).inFlight + 1
    ensures Admitted(st, System(New(start), 0), es, j, n) <= st.halfOpenLimit
  {
    PeriodAdmits(st, System(New(start), 0), es, j, n);
    PeriodSuccesses(st, start, es, j, n);
  }

  // ---------------------------------------------------------------- opening

  /** The failed calls among events from..to. */
  function Failures(st: Settings, s: System, es: seq<Event>, from: nat, to: nat): nat
    requires from <= to <= |es|
  {
    if from == to then 0
    else Failures(st, s, es, from, to - 1) + (if Ends(st, s, es, to - 1, true) then 1 else 0)
  }

  /** The closed period that lasts until n began at j, with the first state or with a closing. */
  ghost predicate ClosedSince(st: Settings, s: System, es: seq<Event>, j: nat, n: nat)
    requires j <= n <= |es|
  {
    && (j > 0 ==> !After(st, s, es, j - 1).b.state.Closed?)
    && (forall i :: j <= i <= n ==> After(st, s, es, i).b.state.Closed?)
  }

  /** A step out of a closed state counts failures, ignores successes, and opens at the maximum. */
  lemma ClosedStep(st: Settings, s: System, e: Event)
    requires Usable(st) && Sane(st, s.b) && s.b.state.Closed?
    ensures var failure, n := e.Exit? && e.failed && s.inFlight > 0, Apply(st, s, e).b;
            && n.failures == s.b.failures + (if failure then 1 else 0)
            && (n.state.Open? <==> failure && n.failures == st.maxFailures)
            && !n.state.HalfOpen?
  {
  }

  lemma ClosingStep(st: Settings, s: System, e: Event)
    requires !s.b.state.Closed? && Apply(st, s, e).b.state.Closed?
    ensures Apply(st, s, e).b.failures == 0
  {
  }

  /** In a closed state the failure counter is the number of calls that failed since the breaker last closed. */
  lemma {:induction false} ClosedHistory(st: Settings, start: int, es: seq<Event>, n: nat) returns (j: nat)
    requires Usable(st) && n <= |es| && After(st, System(New(start), 0), es, n).b.state.Closed?
    ensures j <= n && ClosedSince(st, System(New(start), 0), es, j, n)
    ensures After(st, System(New(start), 0), es, n).b.failures == Failures(st, System(New(start), 0), es, j, n)
  {
    hide Apply;
    var s := System(New(start), 0);
    if n == 0 {
      j := 0;
    } else {
      var before, e := After(st, s, es, n - 1), es[n - 1];
      RunSane(st, start, es, n - 1);
      if before.b.state.Closed? {
        j := ClosedHistory(st, start, es, n - 1);
        ClosedStep(st, before, e);
      } else {
        j := n;
        ClosingStep(st, before, e);
      }
    }
  }

  lemma PeriodUnique(st: Settings, s: System, es: seq<Event>, j: nat, k: nat, n: nat)
    requires j <= n <= |es| && k <= n && ClosedSince(st, s, es, j, n) && ClosedSince(st, s, es, k, n)
    ensures j == k
  {
  }

  /** Exactly when a closed breaker opens: at the call that makes the failures since it last closed the maximum. */
  lemma OpensIff(st: Settings, start: int, es: seq<Event>, j: nat, k: nat)
    requires Usable(st) && j <= k < |es| && ClosedSince(st, System(New(start), 0), es, j, k)
    ensures After(st, System(New(start), 0), es, k + 1).b.state.Open?
       <==> && Ends(st, System(New(start), 0), es, k, true)
            && Failures(st, System(New(start), 0), es, j, k + 1) == st.maxFailures
  {
    var s := System(New(start), 0);
    var j' := ClosedHistory(st, start, es, k);
    PeriodUnique(st, s, es, j, j', k);
    RunSane(st, start, es, k);
    ClosedStep(st, After(st, s, es, k), es[k]);
  }

  /** The failed calls since the last success among events from..to: the count of a breaker of consecutive failures. */
  function Streak(st: Settings, s: System, es: seq<Event>, from: nat, to: nat): nat
    requires from <= to <= |es|
  {
    if from == to || Ends(st, s, es, to - 1, false) then 0
    else Streak(st, s, es, from, to - 1) + (if Ends(st, s, es, to - 1, true) then 1 else 0)
  }

  /** Some call succeeds among events from..to after another one failed. */
  ghost predicate SuccessAfterFailure(st: Settings, s: System, es: seq<Event>, from: nat, to: nat)
    requires from <= to <= |es|
  {
    exists b :: from <= b < to && Ends(st, s, es, b, false) && Failures(st, s, es, from, b) > 0
  }

  lemma {:induction false} FailuresGrow(st: Settings, s: System, es: seq<Event>, from: nat, mid: nat, to: nat)
    requires from <= mid <= to <= |es|
    ensures Failures(st, s, es, from, mid) <= Failures(st, s, es, from, to)
  {
    if mid < to {
      FailuresGrow(st, s, es, from, mid, to - 1);
    }
  }

  lemma {:induction false} StreakIff(st: Settings, s: System, es: seq<Event>, from: nat, to: nat)
    requires from <= to <= |es|
    ensures Streak(st, s, es, from, to) <= Failures(st, s, es, from, to)
    ensures Streak(st, s, es, from, to) == Failures(st, s, es, from, to) <==> !SuccessAfterFailure(st, s, es, from, to)
  {
    if from < to {
      StreakIff(st, s, es, from, to - 1);
      if SuccessAfterFailure(st, s, es, from, to - 1) {
        var b :| from <= b < to - 1 && Ends(st, s, es, b, false) && Failures(st, s, es, from, b) > 0;
        FailuresGrow(st, s, es, from, b, to - 1);
        assert SuccessAfterFailure(st, s, es, from, to);
      } else if Ends(st, s, es, to - 1, false) && Failures(st, s, es, from, to - 1) > 0 {
        assert SuccessAfterFailure(st, s, es, from, to);
      }
    }
  }

  /**
   Exactly when an opening is the documented one, by that many consecutive failures: when no
   call succeeded after a failed one since the breaker last closed.
   */
  lemma OpensByConsecutiveIff(st: Settings, start: int, es: seq<Event>, j: nat, k: nat)
    requires Usable(st) && j <= k < |es| && ClosedSince(st, System(New(start), 0), es, j, k)
    requires After(st, System(New(start), 0), es, k + 1).b.state.Open?
    ensures Streak(st, System(New(start), 0), es, j, k + 1) == st.maxFailures
       <==> !SuccessAfterFailure(st, System(New(start), 0), es, j, k + 1)
  {
    OpensIff(st, start, es, j, k);
    StreakIff(st, System(New(start), 0), es, j, k + 1);
  }

  /** Consecutive failures do open it: the documented rule never opens a breaker that the code keeps closed. */
  lemma ConsecutiveFailuresOpen(st: Settings, start: int, es: seq<Event>, j: nat, k: nat)
    requires Usable(st) && j <= k < |es| && ClosedSince(st, System(New(start), 0), es, j, k)
    requires Streak(st, System(New(start), 0), es, j, k + 1) >= st.maxFailures
    ensures After(st, System(New(start), 0), es, k + 1).b.state.Open?
  {
    var s := System(New(start), 0);
    OpensIff(st, start, es, j, k);
    StreakIff(st, s, es, j, k + 1);
    var j' := ClosedHistory(st, start, es, k);
    PeriodUnique(st, s, es, j, j', k);
    RunSane(st, start, es, k);
  }

  /** The last event before n at which the counters were cleared, or the start. */
  ghost predicate ClearedAt(st: Settings, s: System, es: seq<Event>, j: nat, n: nat)
    requires j <= n <= |es|
  {
    && (j > 0 ==> Clears(st, s, es, j - 1))
    && (forall i :: j <= i < n ==> !Clears(st, s, es, i))
  }

  /** Event i makes an open breaker half-open or a half-open one closed. */
  predicate Clears(st: Settings, s: System, es: seq<Event>, i: nat)
    requires i < |es|
  {
    var before, after := After(st, s, es, i).b.state, After(st, s, es, i + 1).b.state;
    (before.Open? && after.HalfOpen?) || (before.HalfOpen? && after.Closed?)
  }

  lemma CountStep(st: Settings, s: System, e: Event)
    requires Usable(st)
    ensures var n := Apply(st, s, e).b;
            if (s.b.state.Open? && n.state.HalfOpen?) || (s.b.state.HalfOpen? && n.state.Closed?) then n.failures == 0
            else n.failures == ToUint32(s.b.failures + (if e.Exit? && e.failed && s.inFlight > 0 then 1 else 0))
  {
  }

  /** In every state the failure counter is the 32-bit count of the failures since the counters were cleared. */
  lemma {:induction false} FailureCount(st: Settings, start: int, es: seq<Event>, n: nat) returns (j: nat)
    requires Usable(st) && n <= |es|
    ensures j <= n && ClearedAt(st, System(New(start), 0), es, j, n)
    ensures After(st, System(New(start), 0), es, n).b.failures
         == ToUint32(Failures(st, System(New(start), 0), es, j, n))
  {
    hide Apply;
    var s := System(New(start), 0);
    if n == 0 {
      j := 0;
    } else {
      CountStep(st, After(st, s, es, n - 1), es[n - 1]);
      if Clears(st, s, es, n - 1) {
        j := n;
      } else {
        j := FailureCount(st, start, es, n - 1);
        assert Ends(st, s, es, n - 1, true) <==>
               es[n - 1].Exit? && es[n - 1].failed && After(st, s, es, n - 1).inFlight > 0;
      }
    }
  }

  /**
   Exactly when a call that fails late, with the breaker already open, renews the opening: when
   the failures since the counters were cleared have reached the maximum.
   */
  lemma RenewsIff(st: Settings, start: int, es: seq<Event>, k: nat) returns (j: nat)
    requires Usable(st) && k < |es| && Ends(st, System(New(start), 0), es, k, true)
    requires After(st, System(New(start), 0), es, k).b.state.Open?
    ensures j <= k && ClearedAt(st, System(New(start), 0), es, j, k)
    ensures var s := System(New(start), 0);
            var before, after := After(st, s, es, k).b, After(st, s, es, k + 1).b;
            && after.state.Open?
            && after.lastStateChange
               == if ToUint32(Failures(st, s, es, j, k + 1)) >= st.maxFailures then es[k].stamp
                  else before.lastStateChange
  {
    j := FailureCount(st, start, es, k);
    var s := System(New(start), 0);
    CountStep(st, After(st, s, es, k), es[k]);
    assert ToUint32(ToUint32(Failures(st, s, es, j, k)) + 1) == ToUint32(Failures(st, s, es, j, k) + 1);
  }

  /** One failed trial opens a half-open breaker. */
  lemma FailedTrialOpens(st: Settings, start: int, es: seq<Event>, k: nat)
    requires Usable(st) && k < |es| && Ends(st, System(New(start), 0), es, k, true)
    requires After(st, System(New(start), 0), es, k).b.state.HalfOpen?
    ensures OpensAt(st, System(New(start), 0), es, k)
  {
  }

  /** Failures need not be consecutive to open the breaker: a success in between forgives nothing. */
  lemma SuccessForgivesNothing(start: int, t: int)
    ensures var st := Settings(2, 1, ONE_SECOND);
            var es := [Enter(t, t), Exit(true, t), Enter(t, t), Exit(false, t), Enter(t, t), Exit(true, t)];
            After(st, System(New(start), 0), es, 6).b.state.Open?
  {
    var st := Settings(2, 1, ONE_SECOND);
    var es := [Enter(t, t), Exit(true, t), Enter(t, t), Exit(false, t), Enter(t, t), Exit(true, t)];
    var s := System(New(start), 0);
    assert After(st, s, es, 1) == System(Breaker(Closed, 0, 0, start), 1);
    assert After(st, s, es, 2) == System(Breaker(Closed, 1, 0, start), 0);
    assert After(st, s, es, 3) == System(Breaker(Closed, 1, 0, start), 1);
    assert After(st, s, es, 4) == System(Breaker(Closed, 1, 0, start), 0);
    assert After(st, s, es, 5) == System(Breaker(Closed, 1, 0, start), 1);
    assert es[5] == Exit(true, t);
  }

  // ---------------------------------------------------------------- the class

  class CircuitBreaker {
    const maxFailures: uint32
    const halfOpenLimit: uint32
    const timeout: int
    var state: State
    var failures: uint32
    var successes: uint32
    var lastStateChg: int

    ghost function Config(): Settings {
      Settings(maxFailures, halfOpenLimit, timeout)
    }

    ghost function View(): Breaker
      reads this
    {
      Breaker(state, failures, successes, lastStateChg)
    }

    constructor (st: Settings, now: int)
      requires st.timeout >= 0
      ensures Some(Config()) == Effective(st) && Usable(Config()) && View() == New(now)
    {
      maxFailures := if st.maxFailures == 0 then 1 else st.maxFailures;
      halfOpenLimit := if st.halfOpenLimit == 0 then 1 else st.halfOpenLimit;
      timeout := if st.timeout == 0 then ONE_SECOND else st.timeout;
      state, failures, successes, lastStateChg := Closed, 0, 0, now;
    }

    method CheckStateTransition(since: int, stamp: int)
      modifies this
      ensures View() == old(Check(Config(), View(), since, stamp))
    {
      if state.Open? && since - lastStateChg > timeout {
        state := HalfOpen;
        failures := 0;
        successes := 0;
        lastStateChg := stamp;
      }
    }

    /** The first critical section of Execute; the call is admitted unless the breaker is open. */
    method Before(since: int, stamp: int) returns (admitted: bool)
      modifies this
      ensures View() == old(Check(Config(), View(), since, stamp))
      ensures admitted == !View().state.Open?
    {
      CheckStateTransition(since, stamp);
      return !state.Open?;
    }

    /** The second critical section of Execute, once the call has returned. */
    method Settled(failed: bool, stamp: int)
      modifies this
      ensures View() == old(Settle(Config(), View(), failed, stamp))
    {
      if failed {
        failures := ToUint32(failures + 1);
        if state.HalfOpen? || failures >= maxFailures {
          state := Open;
          lastStateChg := stamp;
        }
        return;
      }
      if state.HalfOpen? {
        successes := ToUint32(successes + 1);
        if successes >= halfOpenLimit {
          state := Closed;
          failures := 0;
          successes := 0;
          lastStateChg := stamp;
        }
      }
    }

    /**
     Execute. `during` is what other callers do while this call runs and `flying` how many calls
     were in flight before it.
     */
    method Execute(since: int, stamp: int, failed: bool, end: int, during: seq<Event>, flying: nat) returns (ran: bool)
      requires Admits(Config(), System(View(), flying), Enter(since, stamp)) ==>
                 var entered := Apply(Config(), System(View(), flying), Enter(since, stamp));
                 After(Config(), entered, during, |during|).inFlight > 0
      modifies this
      ensures ran == Admits(Config(), System(old(View()), flying), Enter(since, stamp))
      ensures var entered := Apply(Config(), System(old(View()), flying), Enter(since, stamp));
              View() == if ran then Apply(Config(), After(Config(), entered, during, |during|), Exit(failed, end)).b
                        else entered.b
    {
      ran := Before(since, stamp);
      if !ran {
        return;
      }
      ghost var entered := Apply(Config(), System(old(View()), flying), Enter(since, stamp));
      var inFlight: nat := flying + 1;
      for i := 0 to |during|
        invariant System(View(), inFlight) == After(Config(), entered, during, i)
      {
        match during[i] {
          case Enter(s, t) =>
            var admitted := Before(s, t);
            inFlight := if admitted then inFlight + 1 else inFlight;
          case Exit(f, t) =>
            if inFlight > 0 {
              Settled(f, t);
              inFlight := inFlight - 1;
            }
          case Query(s, t) =>
            CheckStateTransition(s, t);
        }
      }
      Settled(failed, end);
    }
  }
}
