/**
 Range slicing of a relational table. Rows are ranked by key and cut into buckets of equal
 size; the buckets' lower bounds become contiguous slices; each slice becomes the predicate of
 one worker's query. A table is modelled by the keys of its rows in key order, and a query by
 the rows it selects.
 */
module SqlSlices {
  import opened Basics

  type Key = int

  datatype RawBucket = RawBucket(lower: Key, upper: Key)

  datatype SQLSlice = SQLSlice(index: nat, lower: Option<Key>, upper: Option<Key>, isFirst: bool, isLast: bool)

  /** The WHERE clause of a worker's query. */
  datatype Predicate = FullScan | AtLeast(lower: Option<Key>) | Between(lower: Option<Key>, upper: Option<Key>)

  // ---------------------------------------------------------------- buckets

  ghost predicate Sorted(t: seq<Key>) {
    forall i, j :: 0 <= i < j < |t| ==> t[i] <= t[j]
  }

  /** CEIL(ROW_NUMBER() / batch), with row numbers from 1. */
  function BucketID(rowNumber: nat, batch: nat): nat
    requires batch >= 1
  {
    (rowNumber + batch - 1) / batch
  }

  /** Row i (from 0) of the ranked table belongs to the bucket with id j + 1. */
  ghost predicate InBucket(i: nat, j: nat, batch: nat)
    requires batch >= 1
  {
    BucketID(i + 1, batch) == j + 1
  }

  ghost predicate Attained(t: seq<Key>, j: nat, batch: nat, k: Key)
    requires batch >= 1
  {
    exists i :: 0 <= i < |t| && InBucket(i, j, batch) && t[i] == k
  }

  /** GROUP BY bucket_id ORDER BY bucket_id, with MIN and MAX of the key. */
  ghost predicate IsBucketing(t: seq<Key>, batch: nat, buckets: seq<RawBucket>)
    requires batch >= 1
  {
    && |buckets| == BucketID(|t|, batch)
    && forall j :: 0 <= j < |buckets| ==>
         && Attained(t, j, batch, buckets[j].lower) && Attained(t, j, batch, buckets[j].upper)
         && (forall i :: 0 <= i < |t| && InBucket(i, j, batch) ==> buckets[j].lower <= t[i] <= buckets[j].upper)
  }

  lemma BucketIDOf(i: nat, batch: nat)
    requires batch >= 1
    ensures BucketID(i + 1, batch) == i / batch + 1
  {
    var q, r := i / batch, i % batch;
    assert i == q * batch + r;
    assert i + batch == (q + 1) * batch + r;
    DivideExactly(q + 1, batch, r);
  }

  /** Bucket ids grow with the rank, so lower bounds grow with the bucket. */
  lemma BucketIDMonotone(i: nat, k: nat, batch: nat)
    requires batch >= 1 && BucketID(i + 1, batch) < BucketID(k + 1, batch)
    ensures i < k
  {
    BucketIDOf(i, batch);
    BucketIDOf(k, batch);
    if k <= i {
      DivideMonotone(k, i, batch);
    }
  }

  lemma LowersAscend(t: seq<Key>, batch: nat, buckets: seq<RawBucket>, j: nat)
    requires batch >= 1 && Sorted(t) && IsBucketing(t, batch, buckets) && j + 1 < |buckets|
    ensures buckets[j].lower <= buckets[j + 1].lower
  {
    assert Attained(t, j, batch, buckets[j].lower) && Attained(t, j + 1, batch, buckets[j + 1].lower);
    var i :| 0 <= i < |t| && InBucket(i, j, batch) && t[i] == buckets[j].lower;
    var k :| 0 <= k < |t| && InBucket(k, j + 1, batch) && t[k] == buckets[j + 1].lower;
    BucketIDMonotone(i, k, batch);
  }

  /** The first bucket's lower bound is the least key of the table. */
  lemma FirstLowerIsLeast(t: seq<Key>, batch: nat, buckets: seq<RawBucket>)
    requires batch >= 1 && Sorted(t) && IsBucketing(t, batch, buckets)
    ensures t != [] ==> |buckets| > 0 && buckets[0].lower == t[0]
    ensures t == [] ==> buckets == []
  {
    if t == [] {
      DivideExactly(0, batch, batch - 1);
    } else {
      BucketIDOf(|t| - 1, batch);
      BucketIDOf(0, batch);
      DivideExactly(0, batch, 0);
      assert InBucket(0, 0, batch);
    }
  }

  // ---------------------------------------------------------------- slices and their queries

  method ConstructContiguousSlices(buckets: seq<RawBucket>) returns (slices: seq<SQLSlice>)
    ensures slices == Slices(buckets)
  {
    if |buckets| == 0 {
      return [SQLSlice(0, None, None, true, true)];
    }
    var arr := new SQLSlice[|buckets|];
    for i := 0 to |buckets|
      invariant forall k :: 0 <= k < i ==> arr[k] == SliceOf(buckets, k)
    {
      var isFirst := i == 0;
      var isLast := i == |buckets| - 1;
      var lower := buckets[i].lower;
      var upper;
      if isLast {
        upper := buckets[i].upper;
      } else {
        upper := buckets[i + 1].lower;
      }
      arr[i] := SQLSlice(i, Some(lower), Some(upper), isFirst, isLast);
    }
    slices := arr[..];
  }

  function SliceOf(buckets: seq<RawBucket>, i: nat): SQLSlice
    requires i < |buckets|
  {
    var last := i == |buckets| - 1;
    SQLSlice(i, Some(buckets[i].lower), Some(if last then buckets[i].upper else buckets[i + 1].lower), i == 0, last)
  }

  function Slices(buckets: seq<RawBucket>): (slices: seq<SQLSlice>)
    ensures |slices| == if buckets == [] then 1 else |buckets|
  {
    if buckets == [] then [SQLSlice(0, None, None, true, true)]
    else seq(|buckets|, i requires 0 <= i < |buckets| => SliceOf(buckets, i))
  }

  /** Slices are numbered, marked at both ends, and each begins where the one before it ends. */
  lemma SlicesAreContiguous(buckets: seq<RawBucket>, i: nat)
    requires i < |Slices(buckets)|
    ensures var s := Slices(buckets);
            && s[i].index == i && (s[i].isFirst <==> i == 0) && (s[i].isLast <==> i == |s| - 1)
            && (i > 0 ==> s[i].lower.Some? && s[i].lower == s[i - 1].upper)
            && (buckets != [] ==> s[i].lower == Some(buckets[i].lower))
            && (buckets != [] ==> s[|s| - 1].upper == Some(buckets[|buckets| - 1].upper))
  {
  }

  function BuildWorkerSliceQuery(s: SQLSlice): Predicate {
    if (s.isFirst && s.isLast) || (s.lower == None && s.upper == None) then FullScan
    else if s.isLast then AtLeast(s.lower)
    else Between(s.lower, s.upper)
  }

  /** Comparisons with a null argument select nothing. */
  predicate Selects(q: Predicate, k: Key) {
    match q
    case FullScan => true
    case AtLeast(lower) => lower.Some? && lower.value <= k
    case Between(lower, upper) => lower.Some? && upper.Some? && lower.value <= k < upper.value
  }

  /** The rows a query returns, in key order. */
  function Select(t: seq<Key>, q: Predicate): seq<Key> {
    if t == [] then []
    else (if Selects(q, t[0]) then [t[0]] else []) + Select(t[1..], q)
  }

  function ReadFrom(t: seq<Key>, slices: seq<SQLSlice>): seq<Key> {
    if slices == [] then [] else Select(t, BuildWorkerSliceQuery(slices[0])) + ReadFrom(t, slices[1..])
  }

  // ---------------------------------------------------------------- nothing lost, nothing twice

  lemma {:induction false} SelectNone(t: seq<Key>, q: Predicate)
    requires forall k :: k in t ==> !Selects(q, k)
    ensures Select(t, q) == []
  {
    if t != [] {
      SelectNone(t[1..], q);
    }
  }

  lemma {:induction false} SelectAll(t: seq<Key>, q: Predicate)
    requires forall k :: k in t ==> Selects(q, k)
    ensures Select(t, q) == t
  {
    if t != [] {
      SelectAll(t[1..], q);
    }
  }

  /** In a sorted table a half-open interval and what lies above it are read one after the other. */
  lemma {:induction false} AdjacentSelections(t: seq<Key>, low: Key, mid: Key)
    requires Sorted(t) && low <= mid
    ensures Select(t, Between(Some(low), Some(mid))) + Select(t, AtLeast(Some(mid))) == Select(t, AtLeast(Some(low)))
  {
    if t != [] {
      AdjacentSelections(t[1..], low, mid);
      if t[0] >= mid {
        forall k | k in t ensures !Selects(Between(Some(low), Some(mid)), k) {
        }
        SelectNone(t, Between(Some(low), Some(mid)));
        SelectNone(t[1..], Between(Some(low), Some(mid)));
      }
    }
  }

  ghost predicate Ascending(buckets: seq<RawBucket>) {
    forall j :: 0 <= j < |buckets| - 1 ==> buckets[j].lower <= buckets[j + 1].lower
  }

  /** With at least two slices, those from i on read exactly the rows at or above slice i's lower bound. */
  lemma {:induction false} SuffixReads(t: seq<Key>, buckets: seq<RawBucket>, i: nat)
    requires Sorted(t) && Ascending(buckets) && i < |buckets| && |buckets| >= 2
    ensures ReadFrom(t, Slices(buckets)[i..]) == Select(t, AtLeast(Some(buckets[i].lower)))
    decreases |buckets| - i
  {
    var rest := Slices(buckets)[i..];
    assert rest[1..] == Slices(buckets)[i + 1..];
    if i == |buckets| - 1 {
      assert rest[1..] == [];
    } else {
      SuffixReads(t, buckets, i + 1);
      AdjacentSelections(t, buckets[i].lower, buckets[i + 1].lower);
    }
  }

  /**
   What the workers read of a table t at the time they run, when the slices were made of a
   table t0. With one slice, everything. With two or more, the rows at or above the least key
   of t0, each once and in key order: later rows below that key are read by nobody.
   */
  lemma SlicesReadTable(t0: seq<Key>, t: seq<Key>, batch: nat, buckets: seq<RawBucket>)
    requires batch >= 1 && Sorted(t0) && Sorted(t) && IsBucketing(t0, batch, buckets)
    ensures |buckets| <= 1 ==> ReadFrom(t, Slices(buckets)) == t
    ensures |buckets| >= 2 ==> t0 != [] && ReadFrom(t, Slices(buckets)) == Select(t, AtLeast(Some(t0[0])))
  {
    FirstLowerIsLeast(t0, batch, buckets);
    forall j | 0 <= j < |buckets| - 1 ensures buckets[j].lower <= buckets[j + 1].lower {
      LowersAscend(t0, batch, buckets, j);
    }
    if |buckets| <= 1 {
      SelectAll(t, FullScan);
      var slices := Slices(buckets);
      assert BuildWorkerSliceQuery(slices[0]) == FullScan;
      assert slices[1..] == [];
      assert ReadFrom(t, slices) == Select(t, FullScan) + [];
    } else {
      SuffixReads(t, buckets, 0);
      assert Slices(buckets)[0..] == Slices(buckets);
    }
  }

  /** Partition: every row of the sliced table is read exactly once, ties across bucket edges included. */
  lemma SlicesPartitionTable(t: seq<Key>, batch: nat, buckets: seq<RawBucket>)
    requires batch >= 1 && Sorted(t) && IsBucketing(t, batch, buckets)
    ensures ReadFrom(t, Slices(buckets)) == t
  {
    SlicesReadTable(t, t, batch, buckets);
    if |buckets| >= 2 {
      SelectAll(t, AtLeast(Some(t[0])));
    }
  }

  /** Exactly which tables are read completely at run time: those with no row below the least key at discovery. */
  lemma CompleteIff(t0: seq<Key>, t: seq<Key>, batch: nat, buckets: seq<RawBucket>)
    requires batch >= 1 && Sorted(t0) && Sorted(t) && IsBucketing(t0, batch, buckets) && |buckets| >= 2
    ensures t0 != [] && (ReadFrom(t, Slices(buckets)) == t <==> forall k :: k in t ==> k >= t0[0])
  {
    SlicesReadTable(t0, t, batch, buckets);
    var q := AtLeast(Some(t0[0]));
    if forall k :: k in t ==> k >= t0[0] {
      SelectAll(t, q);
    } else {
      var k :| k in t && k < t0[0];
      SelectedOnly(t, q, k);
    }
  }

  lemma {:induction false} SelectedOnly(t: seq<Key>, q: Predicate, k: Key)
    requires !Selects(q, k)
    ensures k !in Select(t, q)
  {
    if t != [] {
      SelectedOnly(t[1..], q, k);
    }
  }
}
