/**
 ObjectID range slicing of a MongoDB collection. The first four bytes of an id are its creation
 second; the interval between the least and the greatest id is cut into time slices, and each
 slice becomes a filter on `_id`. Ids are compared as byte strings.
 */
module MongoRanges {
  import opened Basics
  import opened Bits
  import opened Wire
  import opened ByteOrder

  type ObjectID = id: bytes | |id| == 12 witness [0, 0, 0, 0, 0, 0, 0, 0, 0, 0, 0, 0]

  datatype PartitionSlice = PartitionSlice(
    index: nat, lower: Option<ObjectID>, upper: Option<ObjectID>, isFirst: bool, isLast: bool)

  datatype IdFilter = Unfiltered | AtMost(hi: ObjectID) | AtLeast(lo: ObjectID) | Between(lo: ObjectID, hi: ObjectID)

  // ---------------------------------------------------------------- ids as numbers

  function Value(b: bytes): nat {
    FromBigEndian(b)
  }

  lemma {:induction false} LeadingByte(b: bytes)
    requires b != []
    ensures Value(b) == b[0] * Pow256(|b| - 1) + Value(b[1..])
  {
    if |b| > 1 {
      var init := b[..|b| - 1];
      LeadingByte(init);
      assert init[1..] == b[1..][..|b| - 2];
      assert Value(b) == (b[0] * Pow256(|b| - 2) + Value(init[1..])) * 0x100 + b[|b| - 1];
      assert Pow256(|b| - 1) == 0x100 * Pow256(|b| - 2);
      assert b[0] * Pow256(|b| - 2) * 0x100 == b[0] * Pow256(|b| - 1);
    }
  }

  lemma HeadDecides(x: nat, y: nat, p: nat, u: nat, v: nat)
    requires u < p && v < p
    ensures x < y ==> x * p + u < y * p + v
  {
    if x < y {
      ProductGrows(x, y, p);
    }
  }

  /** The byte order on ids is the order of the numbers they spell. */
  lemma {:induction false} OrderIsNumeric(a: bytes, b: bytes)
    requires |a| == |b|
    ensures Less(a, b) <==> Value(a) < Value(b)
    ensures Value(a) == Value(b) ==> a == b
  {
    if a != [] {
      OrderIsNumeric(a[1..], b[1..]);
      LeadingByte(a);
      LeadingByte(b);
      var p := Pow256(|a| - 1);
      assert Value(a[1..]) < p && Value(b[1..]) < p;
      hide Value;
      HeadDecides(a[0], b[0], p, Value(a[1..]), Value(b[1..]));
      HeadDecides(b[0], a[0], p, Value(b[1..]), Value(a[1..]));
      assert a == [a[0]] + a[1..] && b == [b[0]] + b[1..];
    }
  }

  // ---------------------------------------------------------------- slicing

  const SECONDS := 0x1_0000_0000
  const TAIL := 0x1_0000_0000_0000_0000 // one second's worth of ids

  function Timestamp(id: ObjectID): (sec: nat)
    ensures sec < SECONDS
  {
    Pow256Values();
    FromBigEndian(id[..4])
  }

  function CalculateStep(minSec: nat, maxSec: nat, n: nat): (step: nat)
    requires minSec <= maxSec && n >= 1
    ensures step >= 1
  {
    var step := (maxSec - minSec) / n;
    if step < 1 then 1 else step
  }

  /** The least id of a second; the second is truncated to 32 bits. */
  function FirstIdOf(sec: nat): ObjectID {
    BigEndian(ToUint32(sec), 4) + [0, 0, 0, 0, 0, 0, 0, 0]
  }

  /** Bound i of the slices of minID..maxID: the lower bound of slice i and the upper one of slice i - 1. */
  function BoundAt(minID: ObjectID, maxID: ObjectID, minSec: nat, step: nat, n: nat, i: nat): ObjectID {
    if i == 0 then minID else if i >= n then maxID else FirstIdOf(minSec + i * step)
  }

  function SliceAt(minID: ObjectID, maxID: ObjectID, minSec: nat, step: nat, n: nat, i: nat): PartitionSlice
    requires i < n
  {
    PartitionSlice(i, Some(BoundAt(minID, maxID, minSec, step, n, i)),
                   Some(BoundAt(minID, maxID, minSec, step, n, i + 1)), i == 0, i == n - 1)
  }

  method CalculateNextBound(minSec: nat, secStep: nat, idx: nat, isLast: bool, maxID: ObjectID)
    returns (bound: ObjectID)
    ensures bound == if isLast then maxID else FirstIdOf(minSec + (idx + 1) * secStep)
  {
    if isLast {
      return maxID;
    }
    var targetSec := minSec + (idx + 1) * secStep;
    return FirstIdOf(targetSec);
  }

  method GenerateSlices(minID: ObjectID, maxID: ObjectID, minSec: nat, secStep: nat, numPartitions: nat)
    returns (slices: seq<PartitionSlice>)
    ensures |slices| == numPartitions
    ensures forall i :: 0 <= i < numPartitions ==>
              slices[i] == SliceAt(minID, maxID, minSec, secStep, numPartitions, i)
  {
    slices := [];
    var currentMin := minID;
    for i := 0 to numPartitions
      invariant |slices| == i
      invariant i < numPartitions ==> currentMin == BoundAt(minID, maxID, minSec, secStep, numPartitions, i)
      invariant forall k :: 0 <= k < i ==> slices[k] == SliceAt(minID, maxID, minSec, secStep, numPartitions, k)
    {
      var isLast := i == numPartitions - 1;
      var nextBound := CalculateNextBound(minSec, secStep, i, isLast, maxID);
      slices := slices + [PartitionSlice(i, Some(currentMin), Some(nextBound), i == 0, isLast)];
      currentMin := nextBound;
    }
  }

  function Single(minID: ObjectID, maxID: ObjectID): PartitionSlice {
    PartitionSlice(0, Some(minID), Some(maxID), true, true)
  }

  /** numPartitions may be anything; the seconds of both ids decide whether there is something to cut. */
  predicate Splits(minID: ObjectID, maxID: ObjectID, numPartitions: int) {
    numPartitions >= 2 && Timestamp(minID) < Timestamp(maxID)
  }

  function Slices(minID: ObjectID, maxID: ObjectID, numPartitions: int): (slices: seq<PartitionSlice>)
    ensures |slices| == if Splits(minID, maxID, numPartitions) then numPartitions else 1
  {
    if !Splits(minID, maxID, numPartitions) then [Single(minID, maxID)]
    else
      var minSec := Timestamp(minID);
      var step := CalculateStep(minSec, Timestamp(maxID), numPartitions);
      seq(numPartitions, i requires 0 <= i < numPartitions => SliceAt(minID, maxID, minSec, step, numPartitions, i))
  }

  method BuildObjectIDRanges(minID: ObjectID, maxID: ObjectID, numPartitions: int) returns (slices: seq<PartitionSlice>)
    ensures slices == Slices(minID, maxID, numPartitions)
  {
    if numPartitions <= 1 {
      return [Single(minID, maxID)];
    }
    var minSec, maxSec := Timestamp(minID), Timestamp(maxID);
    if maxSec <= minSec {
      return [Single(minID, maxID)];
    }
    var secStep := CalculateStep(minSec, maxSec, numPartitions);
    slices := GenerateSlices(minID, maxID, minSec, secStep, numPartitions);
  }

  // ---------------------------------------------------------------- filters

  function BoundsFilter(s: PartitionSlice): IdFilter {
    if s.lower == None || s.upper == None then Unfiltered
    else if s.isFirst then AtMost(s.upper.value)
    else if s.isLast then AtLeast(s.lower.value)
    else Between(s.lower.value, s.upper.value)
  }

  predicate Matches(f: IdFilter, id: ObjectID) {
    match f
    case Unfiltered => true
    case AtMost(hi) => !Less(hi, id)
    case AtLeast(lo) => !Less(id, lo)
    case Between(lo, hi) => !Less(id, lo) && Less(id, hi)
  }

  /** How many of the slices' filters match an id. */
  function MatchCount(slices: seq<PartitionSlice>, id: ObjectID): nat {
    if slices == [] then 0
    else (if Matches(BoundsFilter(slices[0]), id) then 1 else 0) + MatchCount(slices[1..], id)
  }

  // ---------------------------------------------------------------- every id once, one id twice

  lemma FirstIdValue(sec: nat)
    ensures Value(FirstIdOf(sec)) == ToUint32(sec) * TAIL
  {
    Pow256Values();
    BigEndianRoundTrip(ToUint32(sec), 4);
    ZeroTail(BigEndian(ToUint32(sec), 4), 8);
    assert FirstIdOf(sec) == BigEndian(ToUint32(sec), 4) + ZeroBytes(8);
  }

  function ZeroBytes(n: nat): (z: bytes)
    ensures |z| == n && forall i :: 0 <= i < n ==> z[i] == 0
  {
    seq(n, _ => 0)
  }

  lemma {:induction false} ZeroTail(b: bytes, n: nat)
    ensures Value(b + ZeroBytes(n)) == Value(b) * Pow256(n)
  {
    if n == 0 {
      assert b + ZeroBytes(0) == b;
    } else {
      ZeroTail(b, n - 1);
      var s := b + ZeroBytes(n);
      assert s[..|s| - 1] == b + ZeroBytes(n - 1);
      assert Value(b) * Pow256(n - 1) * 0x100 == Value(b) * Pow256(n);
    }
  }

  /** No bound needs more than 32 bits. */
  predicate BoundsFit(minID: ObjectID, maxID: ObjectID, n: nat)
    requires Splits(minID, maxID, n)
  {
    Timestamp(minID) + (n - 1) * CalculateStep(Timestamp(minID), Timestamp(maxID), n) < SECONDS
  }

  function InteriorBound(minID: ObjectID, maxID: ObjectID, n: nat, i: nat): ObjectID
    requires Splits(minID, maxID, n)
  {
    FirstIdOf(Timestamp(minID) + i * CalculateStep(Timestamp(minID), Timestamp(maxID), n))
  }

  lemma SecondsIncrease(minSec: nat, step: nat, n: nat, i: nat, j: nat)
    requires step >= 1 && i < j < n && minSec + (n - 1) * step < SECONDS
    ensures minSec + i * step < minSec + j * step < SECONDS
  {
    ProductGrows(i, j, step);
    if j < n - 1 {
      ProductGrows(j, n - 1, step);
    }
  }

  /** Interior bounds strictly increase in byte order. */
  lemma BoundsIncrease(minID: ObjectID, maxID: ObjectID, n: nat, i: nat, j: nat)
    requires Splits(minID, maxID, n) && BoundsFit(minID, maxID, n) && 1 <= i < j < n
    ensures Value(InteriorBound(minID, maxID, n, i)) < Value(InteriorBound(minID, maxID, n, j))
    ensures Less(InteriorBound(minID, maxID, n, i), InteriorBound(minID, maxID, n, j))
  {
    hide Less, Value, Timestamp, FirstIdOf, CalculateStep;
    var minSec := Timestamp(minID);
    var step := CalculateStep(minSec, Timestamp(maxID), n);
    SecondsIncrease(minSec, step, n, i, j);
    FirstIdValue(minSec + i * step);
    FirstIdValue(minSec + j * step);
    OrderIsNumeric(InteriorBound(minID, maxID, n, i), InteriorBound(minID, maxID, n, j));
  }

  /**
   Slices are as wide as they can be: n of the step reach at most the last second, and n of one
   second more do not. Only when there are more slices than seconds is the step one second.
   */
  lemma StepIsWidest(minSec: nat, maxSec: nat, n: nat)
    requires minSec < maxSec && n >= 1
    ensures var step := CalculateStep(minSec, maxSec, n);
            && minSec + n * (step + 1) > maxSec
            && (n <= maxSec - minSec ==> minSec + n * step <= maxSec)
            && (n > maxSec - minSec ==> step == 1)
  {
    var d := maxSec - minSec;
    var q := d / n;
    assert d == q * n + d % n;
    assert n * (q + 1) == q * n + n;
    if q < 1 {
      assert d == d % n < n;
    } else {
      ProductAtLeast(q, n);
    }
  }

  /** Slices are numbered, marked at both ends, reach from the least to the greatest id, and leave no gap. */
  lemma SlicesAreContiguous(minID: ObjectID, maxID: ObjectID, n: int, i: nat)
    requires i < |Slices(minID, maxID, n)|
    ensures var s := Slices(minID, maxID, n);
            && s[i].index == i && (s[i].isFirst <==> i == 0) && (s[i].isLast <==> i == |s| - 1)
            && s[0].lower == Some(minID) && s[|s| - 1].upper == Some(maxID)
            && (i > 0 ==> s[i].lower.Some? && s[i].lower == s[i - 1].upper)
  {
  }

  lemma InteriorValue(minID: ObjectID, maxID: ObjectID, n: nat, i: nat)
    requires Splits(minID, maxID, n) && BoundsFit(minID, maxID, n) && 1 <= i < n
    ensures var step := CalculateStep(Timestamp(minID), Timestamp(maxID), n);
            Value(InteriorBound(minID, maxID, n, i)) == (Timestamp(minID) + i * step) * TAIL
  {
    hide Value, FirstIdOf, CalculateStep;
    var minSec := Timestamp(minID);
    var step := CalculateStep(minSec, Timestamp(maxID), n);
    SecondsIncrease(minSec, step, n, 0, i);
    FirstIdValue(minSec + i * step);
  }

  /** All slices but the first and the last span the same number of whole seconds. */
  lemma SlicesAreEven(minID: ObjectID, maxID: ObjectID, n: nat, i: nat)
    requires Splits(minID, maxID, n) && BoundsFit(minID, maxID, n) && 1 <= i < n - 1
    ensures Value(InteriorBound(minID, maxID, n, i + 1))
         == Value(InteriorBound(minID, maxID, n, i)) + CalculateStep(Timestamp(minID), Timestamp(maxID), n) * TAIL
  {
    hide Value, InteriorBound, CalculateStep, BoundsFit;
    InteriorValue(minID, maxID, n, i);
    InteriorValue(minID, maxID, n, i + 1);
    OneStepOn(Timestamp(minID), i, CalculateStep(Timestamp(minID), Timestamp(maxID), n));
  }

  lemma OneStepOn(minSec: nat, i: nat, step: nat)
    ensures (minSec + (i + 1) * step) * TAIL == (minSec + i * step) * TAIL + step * TAIL
  {
    assert (i + 1) * step == i * step + step;
  }

  /** Interior bounds lie above the least id, and below the greatest unless there are more slices than seconds. */
  lemma BoundsInside(minID: ObjectID, maxID: ObjectID, n: nat, i: nat)
    requires Splits(minID, maxID, n) && BoundsFit(minID, maxID, n) && 1 <= i < n
    ensures Value(minID) < Value(InteriorBound(minID, maxID, n, i))
    ensures n <= Timestamp(maxID) - Timestamp(minID) ==> Value(InteriorBound(minID, maxID, n, i)) <= Value(maxID)
  {
    hide Value, InteriorBound, CalculateStep;
    var minSec, maxSec := Timestamp(minID), Timestamp(maxID);
    var step := CalculateStep(minSec, maxSec, n);
    InteriorValue(minID, maxID, n, i);
    SecondOf(minID);
    SecondOf(maxID);
    StepIsWidest(minSec, maxSec, n);
    ProductGrows(0, i, step);
    ProductGrows(i, n, step);
  }

  /** An id lies within its second. */
  lemma SecondOf(id: ObjectID)
    ensures Timestamp(id) * TAIL <= Value(id) < (Timestamp(id) + 1) * TAIL
  {
    Pow256Values();
    ValueConcat(id[..4], id[4..]);
    assert id == id[..4] + id[4..];
  }

  lemma {:induction false} ValueConcat(a: bytes, b: bytes)
    ensures Value(a + b) == Value(a) * Pow256(|b|) + Value(b) && Value(b) < Pow256(|b|)
    decreases |b|
  {
    if b == [] {
      assert a + b == a;
    } else {
      hide Value, Pow256;
      var init := b[..|b| - 1];
      ValueConcat(a, init);
      LastByteValue(b);
      LastByteValue(a + b);
      assert (a + b)[..|a + b| - 1] == a + init;
      TimesByte(Value(a), Pow256(|init|));
    }
  }

  lemma LastByteValue(b: bytes)
    requires b != []
    ensures Value(b) == 0x100 * Value(b[..|b| - 1]) + b[|b| - 1] && Pow256(|b|) == 0x100 * Pow256(|b| - 1)
  {
  }

  lemma TimesByte(x: nat, p: nat)
    ensures 0x100 * (x * p) == x * (0x100 * p)
  {
  }

  lemma {:induction false} SuffixCount(minID: ObjectID, maxID: ObjectID, n: nat, i: nat, id: ObjectID)
    requires Splits(minID, maxID, n) && BoundsFit(minID, maxID, n) && 1 <= i < n
    ensures MatchCount(Slices(minID, maxID, n)[i..], id)
         == if Less(id, InteriorBound(minID, maxID, n, i)) then 0 else 1
    decreases n - i
  {
    hide Less, Timestamp, CalculateStep, FirstIdOf;
    var slices, b := Slices(minID, maxID, n), InteriorBound(minID, maxID, n, i);
    assert slices[i..][1..] == slices[i + 1..];
    assert BoundsFilter(slices[i]) ==
           if i == n - 1 then AtLeast(b) else Between(b, InteriorBound(minID, maxID, n, i + 1));
    if i == n - 1 {
      assert slices[i + 1..] == [];
    } else {
      SuffixCount(minID, maxID, n, i + 1, id);
      BoundsIncrease(minID, maxID, n, i, i + 1);
      if Less(id, b) {
        LessTransitive(id, b, InteriorBound(minID, maxID, n, i + 1));
      }
    }
  }

  /** Every id is matched by exactly one slice, except the first interior bound, which two slices match. */
  lemma MatchedOnce(minID: ObjectID, maxID: ObjectID, n: nat, id: ObjectID)
    requires Splits(minID, maxID, n) && BoundsFit(minID, maxID, n)
    ensures MatchCount(Slices(minID, maxID, n), id) == if id == InteriorBound(minID, maxID, n, 1) then 2 else 1
  {
    hide Less, Timestamp, CalculateStep, FirstIdOf;
    var slices, b := Slices(minID, maxID, n), InteriorBound(minID, maxID, n, 1);
    SuffixCount(minID, maxID, n, 1, id);
    assert BoundsFilter(slices[0]) == AtMost(b);
    LessTotal(id, b);
  }

  lemma {:induction false} TwoMatches(slices: seq<PartitionSlice>, i: nat, j: nat, id: ObjectID)
    requires i < j < |slices| && Matches(BoundsFilter(slices[i]), id) && Matches(BoundsFilter(slices[j]), id)
    ensures MatchCount(slices, id) >= 2
    decreases j
  {
    if i == 0 {
      OneMatch(slices[1..], j - 1, id);
    } else {
      TwoMatches(slices[1..], i - 1, j - 1, id);
    }
  }

  lemma {:induction false} OneMatch(slices: seq<PartitionSlice>, j: nat, id: ObjectID)
    requires j < |slices| && Matches(BoundsFilter(slices[j]), id)
    ensures MatchCount(slices, id) >= 1
    decreases j
  {
    if j > 0 {
      OneMatch(slices[1..], j - 1, id);
    }
  }

  /** A step that was not rounded up to one second never leads past the greatest id. */
  lemma WideStepsFit(d: nat, n: nat)
    requires n >= 1
    ensures (n - 1) * (d / n) <= d
  {
    var step := d / n;
    assert d == step * n + d % n;
    assert step * n == (n - 1) * step + step;
  }

  /** If a bound overflows, the step is one second and some interior bound wraps round to the zero id. */
  lemma OverflowWraps(minID: ObjectID, maxID: ObjectID, n: nat) returns (j: nat)
    requires Splits(minID, maxID, n) && !BoundsFit(minID, maxID, n)
    ensures 2 <= j < n && CalculateStep(Timestamp(minID), Timestamp(maxID), n) == 1
    ensures Timestamp(minID) + j == SECONDS
  {
    hide Timestamp;
    WideStepsFit(Timestamp(maxID) - Timestamp(minID), n);
    j := SECONDS - Timestamp(minID);
  }

  lemma ZeroIdValue()
    ensures Value(ZeroBytes(12)) == 0
  {
    ZeroTail([], 12);
    assert [] + ZeroBytes(12) == ZeroBytes(12);
  }

  /** The zero id against the first id of a second. */
  lemma ZeroAgainst(sec: nat)
    ensures !Less(FirstIdOf(sec), ZeroBytes(12))
    ensures Less(ZeroBytes(12), FirstIdOf(sec)) <==> ToUint32(sec) > 0
  {
    hide Value, Less;
    ZeroIdValue();
    FirstIdValue(sec);
    OrderIsNumeric(FirstIdOf(sec), ZeroBytes(12));
    OrderIsNumeric(ZeroBytes(12), FirstIdOf(sec));
  }

  /** On overflow the zero id is matched by the first slice and by the one whose bound wrapped. */
  lemma OverflowDuplicates(minID: ObjectID, maxID: ObjectID, n: nat)
    requires Splits(minID, maxID, n) && !BoundsFit(minID, maxID, n)
    ensures MatchCount(Slices(minID, maxID, n), ZeroBytes(12)) >= 2
    ensures ZeroBytes(12) != InteriorBound(minID, maxID, n, 1)
  {
    hide Less, Timestamp, FirstIdOf, MatchCount, ZeroBytes;
    var j := OverflowWraps(minID, maxID, n);
    var zero: ObjectID, slices, minSec := ZeroBytes(12), Slices(minID, maxID, n), Timestamp(minID);
    ZeroAgainst(minSec + 1);
    ZeroAgainst(minSec + j);
    ZeroAgainst(minSec + j + 1);
    LessTotal(zero, zero);
    assert slices[0].upper == Some(FirstIdOf(minSec + 1));
    assert slices[j].lower == Some(FirstIdOf(minSec + j));
    assert j < n - 1 ==> slices[j].upper == Some(FirstIdOf(minSec + j + 1));
    TwoMatches(slices, 0, j, zero);
  }

  /**
   Main result: when there is something to cut, every id is matched by exactly one slice but
   for the first interior bound, matched by exactly two, if and only if no bound overflows
   32 bits.
   */
  lemma MatchedOnceIff(minID: ObjectID, maxID: ObjectID, n: nat)
    requires Splits(minID, maxID, n)
    ensures BoundsFit(minID, maxID, n) <==>
            forall id: ObjectID ::
              MatchCount(Slices(minID, maxID, n), id) == if id == InteriorBound(minID, maxID, n, 1) then 2 else 1
  {
    if BoundsFit(minID, maxID, n) {
      forall id: ObjectID
        ensures MatchCount(Slices(minID, maxID, n), id) == if id == InteriorBound(minID, maxID, n, 1) then 2 else 1
      {
        MatchedOnce(minID, maxID, n, id);
      }
    } else {
      OverflowDuplicates(minID, maxID, n);
      var zero: ObjectID := ZeroBytes(12);
      assert MatchCount(Slices(minID, maxID, n), zero) >= 2;
    }
  }

  /** A single slice reads the ids up to the greatest one seen, and nothing inserted above it later. */
  lemma SingleSliceMatches(minID: ObjectID, maxID: ObjectID, n: int, id: ObjectID)
    requires !Splits(minID, maxID, n)
    ensures MatchCount(Slices(minID, maxID, n), id) == if Value(id) <= Value(maxID) then 1 else 0
  {
    OrderIsNumeric(maxID, id);
  }
}
