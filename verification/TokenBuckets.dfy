/**
 The token-bucket rate limiter. Everything that callers do to it is a sequence of attempts, each
 one critical section at one clock reading; interleaved callers only make longer sequences.
 Time is in seconds and tokens are real numbers.
 */
module TokenBuckets {
  import opened Basics

  const CAPACITY := 1.0

  datatype Bucket = Bucket(rate: real, tokens: real, lastRefill: real)

  function New(rps: real, now: real): Option<Bucket> {
    if rps <= 0.0 then None else Some(Bucket(rps, CAPACITY, now))
  }

  /** What flows in at the given rate between two clock readings. */
  function Inflow(rate: real, from: real, to: real): real {
    (to - from) * rate
  }

  lemma InflowAdds(rate: real, a: real, b: real, c: real)
    ensures Inflow(rate, a, c) == Inflow(rate, a, b) + Inflow(rate, b, c)
    ensures rate > 0.0 && a <= b ==> Inflow(rate, a, b) >= 0.0
  {
  }

  function Refilled(b: Bucket, now: real): Bucket {
    var tokens := b.tokens + Inflow(b.rate, b.lastRefill, now);
    Bucket(b.rate, if tokens > CAPACITY then CAPACITY else tokens, now)
  }

  predicate Grants(b: Bucket, now: real) {
    Refilled(b, now).tokens >= 1.0
  }

  function Attempt(b: Bucket, now: real): Bucket {
    var r := Refilled(b, now);
    if Grants(b, now) then r.(tokens := r.tokens - 1.0) else r
  }

  /** The bucket after attempts at the given clock readings. */
  function Attempts(b: Bucket, nows: seq<real>): Bucket
    decreases |nows|
  {
    if nows == [] then b else Attempts(Attempt(b, nows[0]), nows[1..])
  }

  function GrantCount(b: Bucket, nows: seq<real>): nat
    decreases |nows|
  {
    if nows == [] then 0 else (if Grants(b, nows[0]) then 1 else 0) + GrantCount(Attempt(b, nows[0]), nows[1..])
  }

  /** The clock never runs backwards. */
  ghost predicate Forward(from: real, nows: seq<real>) {
    (nows != [] ==> from <= nows[0]) && forall i, j :: 0 <= i < j < |nows| ==> nows[i] <= nows[j]
  }

  ghost predicate Sane(b: Bucket) {
    b.rate > 0.0 && 0.0 <= b.tokens <= CAPACITY
  }

  lemma AttemptSane(b: Bucket, now: real)
    requires Sane(b) && b.lastRefill <= now
    ensures Sane(Attempt(b, now)) && Attempt(b, now).lastRefill == now && Attempt(b, now).rate == b.rate
  {
    hide Inflow;
    InflowAdds(b.rate, b.lastRefill, now, now);
  }

  /** Tokens stay between zero and the capacity in every reachable state. */
  lemma {:induction false} ReachableSane(b: Bucket, nows: seq<real>)
    requires Sane(b) && Forward(b.lastRefill, nows)
    ensures Sane(Attempts(b, nows))
    ensures Attempts(b, nows).lastRefill == if nows == [] then b.lastRefill else nows[|nows| - 1]
    decreases |nows|
  {
    hide Inflow;
    if nows != [] {
      AttemptSane(b, nows[0]);
      ReachableSane(Attempt(b, nows[0]), nows[1..]);
    }
  }

  /** What is granted plus what is left never exceeds what was there plus what has flowed in. */
  lemma {:induction false} FlowBound(b: Bucket, nows: seq<real>)
    requires Sane(b) && Forward(b.lastRefill, nows)
    ensures GrantCount(b, nows) as real + Attempts(b, nows).tokens
         <= b.tokens + Inflow(b.rate, b.lastRefill, Attempts(b, nows).lastRefill)
    decreases |nows|
  {
    hide Inflow;
    if nows == [] {
      InflowAdds(b.rate, b.lastRefill, b.lastRefill, b.lastRefill);
    } else {
      AttemptSane(b, nows[0]);
      FlowBound(Attempt(b, nows[0]), nows[1..]);
      InflowAdds(b.rate, b.lastRefill, nows[0], Attempts(b, nows).lastRefill);
    }
  }

  /**
   Rate limit. From any reachable state, attempts of any number of callers that span d seconds
   are granted at most 1 + rate * d times.
   */
  lemma RateLimit(b: Bucket, nows: seq<real>)
    requires Sane(b) && Forward(b.lastRefill, nows) && nows != []
    ensures GrantCount(b, nows) as real <= 1.0 + Inflow(b.rate, nows[0], nows[|nows| - 1])
  {
    hide Inflow;
    var b' := Attempt(b, nows[0]);
    AttemptSane(b, nows[0]);
    FlowBound(b', nows[1..]);
    ReachableSane(b', nows[1..]);
  }

  lemma ForwardParts(from: real, before: seq<real>, window: seq<real>)
    requires Forward(from, before + window)
    ensures Forward(from, before)
    ensures Forward(if before == [] then from else before[|before| - 1], window)
  {
    var all := before + window;
    assert forall i :: 0 <= i < |before| ==> before[i] == all[i];
    assert forall i :: 0 <= i < |window| ==> window[i] == all[|before| + i];
  }

  /** Over a whole run, a window in the middle obeys the limit too: its start is a reachable state. */
  lemma WindowLimit(b: Bucket, before: seq<real>, window: seq<real>)
    requires Sane(b) && window != [] && Forward(b.lastRefill, before + window)
    ensures GrantCount(Attempts(b, before), window) as real <= 1.0 + Inflow(b.rate, window[0], window[|window| - 1])
  {
    hide Attempts, GrantCount, Inflow;
    ForwardParts(b.lastRefill, before, window);
    ReachableSane(b, before);
    SameRate(b, before);
    RateLimit(Attempts(b, before), window);
  }

  lemma {:induction false} SameRate(b: Bucket, nows: seq<real>)
    ensures Attempts(b, nows).rate == b.rate
    decreases |nows|
  {
    if nows != [] {
      SameRate(Attempt(b, nows[0]), nows[1..]);
    }
  }

  lemma InflowTakesTime(rate: real, from: real, to: real, g: real)
    requires rate > 0.0 && g <= Inflow(rate, from, to)
    ensures g / rate <= to - from
  {
    var d, x := to - from, g / rate;
    assert x * rate == g;
    if d < x {
      assert x * rate - d * rate == (x - d) * rate;
      assert (x - d) * rate > 0.0;
    }
  }

  /** n grants span at least (n - 1) / rate seconds. */
  lemma GrantsTakeTime(b: Bucket, nows: seq<real>)
    requires Sane(b) && Forward(b.lastRefill, nows) && nows != []
    ensures nows[|nows| - 1] - nows[0] >= (GrantCount(b, nows) as real - 1.0) / b.rate
  {
    hide Inflow, GrantCount;
    RateLimit(b, nows);
    InflowTakesTime(b.rate, nows[0], nows[|nows| - 1], GrantCount(b, nows) as real - 1.0);
  }

  /** The limit is attained: attempts one period apart are all granted. */
  lemma {:induction false} SteadyCallersAreServed(b: Bucket, nows: seq<real>)
    requires Sane(b) && nows != []
    requires nows[0] - b.lastRefill >= 1.0 / b.rate
    requires forall i :: 0 <= i < |nows| - 1 ==> nows[i + 1] - nows[i] >= 1.0 / b.rate
    ensures GrantCount(b, nows) == |nows|
    decreases |nows|
  {
    PeriodFillsBucket(b, nows[0]);
    if |nows| > 1 {
      assert nows[1..][0] == nows[1];
      assert forall i :: 0 <= i < |nows[1..]| ==> nows[1..][i] == nows[i + 1];
      SteadyCallersAreServed(Attempt(b, nows[0]), nows[1..]);
    }
  }

  lemma PeriodFillsBucket(b: Bucket, now: real)
    requires Sane(b) && now - b.lastRefill >= 1.0 / b.rate
    ensures Grants(b, now) && Sane(Attempt(b, now)) && Attempt(b, now).lastRefill == now
  {
    var d, p := now - b.lastRefill, 1.0 / b.rate;
    assert p * b.rate == 1.0;
    assert (d - p) * b.rate >= 0.0;
    assert d * b.rate == (d - p) * b.rate + p * b.rate;
  }

  /** How long a refused caller sleeps. */
  function WaitTime(b: Bucket): real
    requires b.rate > 0.0
  {
    (1.0 - b.tokens) / b.rate
  }

  /** A refused caller that sleeps that long, with no other caller in between, is granted at its next attempt. */
  lemma SleepSuffices(b: Bucket, now: real, later: real)
    requires Sane(b) && b.lastRefill <= now && !Grants(b, now)
    requires later - now >= WaitTime(Attempt(b, now))
    ensures Grants(Attempt(b, now), later)
  {
    var a := Attempt(b, now);
    var d, w := later - now, WaitTime(Attempt(b, now));
    assert w * a.rate == 1.0 - a.tokens;
    assert (d - w) * a.rate >= 0.0;
    assert d * a.rate == (d - w) * a.rate + w * a.rate;
  }

  /** A new bucket is full: the first attempt is granted, and of two at the same moment only the first. */
  lemma FirstAttemptIsGranted(rps: real, created: real, now: real)
    requires rps > 0.0 && created <= now
    ensures New(rps, created).Some? && Sane(New(rps, created).value)
    ensures var b := New(rps, created).value; Grants(b, now) && !Grants(Attempt(b, now), now)
  {
    hide Inflow;
    InflowAdds(rps, created, now, now);
    InflowAdds(rps, now, now, now);
  }

  lemma ShorterInflow(rate: real, long: real, short: real)
    requires rate > 0.0 && short < long
    ensures short * rate < long * rate
  {
  }

  /** No shorter sleep would do. */
  lemma SleepIsNeeded(b: Bucket, now: real, later: real)
    requires Sane(b) && b.lastRefill <= now <= later && !Grants(b, now)
    ensures Grants(Attempt(b, now), later) <==> later - now >= WaitTime(Attempt(b, now))
  {
    var a := Attempt(b, now);
    AttemptSane(b, now);
    if later - now < WaitTime(a) {
      WaitFills(a);
      ShorterInflow(b.rate, WaitTime(a), later - now);
      assert Inflow(a.rate, a.lastRefill, later) < 1.0 - a.tokens;
    } else {
      SleepSuffices(b, now, later);
    }
  }

  lemma WaitFills(a: Bucket)
    requires Sane(a)
    ensures WaitTime(a) * a.rate == 1.0 - a.tokens
  {
  }

  class TokenBucket {
    const rate: real
    const capacity: real
    var tokens: real
    var lastRefill: real

    ghost function State(): Bucket
      reads this
    {
      Bucket(rate, tokens, lastRefill)
    }

    constructor (rps: real, now: real)
      requires rps > 0.0
      ensures Some(State()) == New(rps, now) && capacity == CAPACITY
    {
      rate, capacity, tokens, lastRefill := rps, 1.0, 1.0, now;
    }

    /** One pass of the loop in Wait, under the lock. */
    method TryTake(now: real) returns (granted: bool, waitTime: real)
      requires capacity == CAPACITY && rate > 0.0
      modifies this
      ensures granted == old(Grants(State(), now)) && State() == old(Attempt(State(), now))
      ensures !granted ==> waitTime == WaitTime(State())
    {
      var elapsed := now - lastRefill;
      tokens := tokens + elapsed * rate;
      if tokens > capacity {
        tokens := capacity;
      }
      lastRefill := now;
      if tokens >= 1.0 {
        tokens := tokens - 1.0;
        return true, 0.0;
      }
      var missing := 1.0 - tokens;
      return false, missing / rate;
    }

    /**
     Wait: attempts at successive clock readings until one is granted. When the readings end
     the context has been cancelled. Only a granted call takes a token.
     */
    method Wait(clock: seq<real>) returns (granted: bool, tries: nat)
      requires capacity == CAPACITY && rate > 0.0
      modifies this
      ensures tries <= |clock| && State() == Attempts(old(State()), clock[..tries])
      ensures granted <==> tries > 0 && GrantCount(old(State()), clock[..tries]) == 1
      ensures !granted ==> tries == |clock| && GrantCount(old(State()), clock) == 0
    {
      tries := 0;
      ghost var b := State();
      while tries < |clock|
        invariant tries <= |clock| && State() == Attempts(b, clock[..tries])
        invariant GrantCount(b, clock[..tries]) == 0
      {
        AttemptsAppend(b, clock[..tries], clock[tries]);
        assert clock[..tries + 1] == clock[..tries] + [clock[tries]];
        var ok, wait := TryTake(clock[tries]);
        tries := tries + 1;
        if ok {
          return true, tries;
        }
      }
      assert clock[..tries] == clock;
      return false, tries;
    }
  }

  lemma {:induction false} AttemptsAppend(b: Bucket, nows: seq<real>, t: real)
    ensures Attempts(b, nows + [t]) == Attempt(Attempts(b, nows), t)
    ensures GrantCount(b, nows + [t]) == GrantCount(b, nows) + (if Grants(Attempts(b, nows), t) then 1 else 0)
    decreases |nows|
  {
    hide Inflow;
    if nows == [] {
      assert [] + [t] == [t];
      assert [t][1..] == [];
    } else {
      assert (nows + [t])[1..] == nows[1..] + [t];
      AttemptsAppend(Attempt(b, nows[0]), nows[1..], t);
    }
  }
}
