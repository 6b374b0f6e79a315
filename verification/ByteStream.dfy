/**
 Splittable reading of one byte stream by many workers.

 Every worker owns one restriction through a byte-offset tracker. It discards up to the next
 record end when its restriction does not start at byte 0, then claims and reads record after
 record. While it works its tracker can be split at any time, and the residual goes to a new
 worker. Claiming and reading are one step here: reading touches nothing shared.
 */
module ByteStream {
  import opened Basics
  import opened RangeTrackers
  import opened RecordScanner

  const DEFAULT_CHUNK_SIZE_BYTES := 64 * 1024 * 1024

  // ---------------------------------------------------------------- tiling the stream

  /** Compressed streams cannot be cut and stay one restriction. */
  method SplitRestriction(compressed: bool, chunkSizeBytes: int, rest: Range) returns (splits: seq<Range>)
    requires rest.start <= rest.end
    ensures Tiling(splits, rest)
    ensures compressed ==> splits == [rest]
    ensures var chunk := if chunkSizeBytes <= 0 then 67108864 else chunkSizeBytes;
            !compressed ==>
              && (forall i :: 0 <= i < |splits| - 1 ==> splits[i].end - splits[i].start == chunk)
              && splits[|splits| - 1].end - splits[|splits| - 1].start <= chunk
    ensures rest.start < rest.end ==> forall i :: 0 <= i < |splits| ==> splits[i].start < splits[i].end
  {
    if compressed {
      return [rest];
    }
    var chunkSize := chunkSizeBytes;
    if chunkSize <= 0 {
      chunkSize := DEFAULT_CHUNK_SIZE_BYTES;
    }
    if rest.end - rest.start <= chunkSize {
      return [rest];
    }
    splits := [];
    var start := rest.start;
    while start < rest.end
      invariant splits == [] ==> start == rest.start
      invariant splits != [] ==> Tiling(splits, Range(rest.start, Min(start, rest.end)))
      invariant forall i :: 0 <= i < |splits| ==> 0 < splits[i].end - splits[i].start <= chunkSize
      invariant forall i :: 0 <= i < |splits| && (i < |splits| - 1 || start < rest.end) ==>
                              splits[i].end - splits[i].start == chunkSize
      invariant |splits| == 0 ==> start < rest.end
      decreases rest.end - start
    {
      var end := start + chunkSize;
      if end > rest.end {
        end := rest.end;
      }
      if splits != [] {
        TilingAppend(splits, rest.start, start, end);
      }
      splits := splits + [Range(start, end)];
      start := start + chunkSize;
    }
  }

  lemma TilingAppend(rs: seq<Range>, from: int, mid: int, end: int)
    requires Tiling(rs, Range(from, mid)) && mid <= end
    ensures Tiling(rs + [Range(mid, end)], Range(from, end))
  {
  }

  // ---------------------------------------------------------------- one worker

  /** Where a worker whose restriction starts at s reads its first record. */
  function First(data: bytes, m: Mode, s: int): (pos: nat)
    requires 0 <= s <= |data|
    ensures s <= pos <= |data|
  {
    if s == 0 then 0 else ReadEnd(data, m, s)
  }

  /** The successive reader positions from pos that lie before end. */
  function ReadsBefore(data: bytes, m: Mode, pos: nat, end: int): (starts: seq<nat>)
    requires pos <= |data|
    ensures forall k :: 0 <= k < |starts| ==> pos <= starts[k] < |data| && starts[k] < end
    decreases |data| - pos
  {
    if pos >= end || pos == |data| then [] else [pos] + ReadsBefore(data, m, ReadEnd(data, m, pos), end)
  }

  /** Reading one more record extends the reads. */
  lemma {:induction false} ReadsExtend(data: bytes, m: Mode, from: nat, pos: nat)
    requires from <= pos < |data|
    requires ReachesNext(data, m, from, pos)
    ensures ReadsBefore(data, m, from, ReadEnd(data, m, pos)) == ReadsBefore(data, m, from, pos) + [pos]
    ensures ReachesNext(data, m, from, ReadEnd(data, m, pos))
    decreases |data| - from
  {
    if pos > from {
      ReadsExtend(data, m, ReadEnd(data, m, from), pos);
      assert ReadsBefore(data, m, from, ReadEnd(data, m, pos))
          == [from] + ReadsBefore(data, m, ReadEnd(data, m, from), ReadEnd(data, m, pos));
    } else {
      assert ReadsBefore(data, m, from, from) == [];
      assert ReadsBefore(data, m, ReadEnd(data, m, from), ReadEnd(data, m, from)) == [];
    }
  }

  /** Position pos is met when reading record after record from `from`. */
  predicate ReachesNext(data: bytes, m: Mode, from: nat, pos: nat)
    requires from <= |data|
    decreases |data| - from
  {
    from == pos || (from < |data| && from < pos && ReachesNext(data, m, ReadEnd(data, m, from), pos))
  }

  /** Reads do not change when the bound moves within the gap after the last one. */
  lemma {:induction false} ReadsBound(data: bytes, m: Mode, from: nat, pos: int, end: int)
    requires from <= |data| && end <= pos
    requires forall k :: 0 <= k < |ReadsBefore(data, m, from, pos)| ==> ReadsBefore(data, m, from, pos)[k] < end
    ensures ReadsBefore(data, m, from, end) == ReadsBefore(data, m, from, pos)
    decreases |data| - from
  {
    if from < pos && from < |data| {
      var got, next := ReadsBefore(data, m, from, pos), ReadEnd(data, m, from);
      assert got[0] == from;
      assert got[1..] == ReadsBefore(data, m, next, pos);
      assert forall k :: 0 <= k < |got[1..]| ==> got[1..][k] == got[k + 1];
      ReadsBound(data, m, next, pos, end);
    }
  }

  lemma {:induction false} ReachesForward(data: bytes, m: Mode, from: nat, pos: nat)
    requires from <= |data| && ReachesNext(data, m, from, pos)
    ensures from <= pos <= |data|
    decreases |data| - from
  {
    if from < pos {
      ReachesForward(data, m, ReadEnd(data, m, from), pos);
    }
  }

  /** Between two successive positions nothing is met. */
  lemma {:induction false} ReachesOnwards(data: bytes, m: Mode, from: nat, pos: nat, p: nat)
    requires from <= |data| && ReachesNext(data, m, from, pos) && ReachesNext(data, m, from, p) && pos < p
    ensures pos < |data| && ReadEnd(data, m, pos) <= p
    decreases |data| - from
  {
    ReachesForward(data, m, from, pos);
    if from < pos {
      ReachesOnwards(data, m, ReadEnd(data, m, from), pos, p);
    } else {
      ReachesForward(data, m, ReadEnd(data, m, from), p);
    }
  }

  /** The positions read before a bound are the positions met before it. */
  lemma {:induction false} ReadsBeforeIff(data: bytes, m: Mode, from: nat, end: int, p: nat)
    requires from <= |data|
    ensures p in ReadsBefore(data, m, from, end) <==> p < end && p < |data| && ReachesNext(data, m, from, p)
    decreases |data| - from
  {
    if ReachesNext(data, m, from, p) {
      ReachesForward(data, m, from, p);
    }
    if from < end && from < |data| {
      var next := ReadEnd(data, m, from);
      ReadsBeforeIff(data, m, next, end, p);
      assert ReadsBefore(data, m, from, end) == [from] + ReadsBefore(data, m, next, end);
    }
  }

  /** Splits tried by the runner never take back a claim, whatever fractions it asks for. */
  method Interfere(tracker: ByteOffsetTracker, splits: seq<(real, int)>)
    requires Sane(tracker.State())
    modifies tracker
    ensures Sane(tracker.State())
    ensures tracker.claimed == old(tracker.claimed) && tracker.stopped == old(tracker.stopped)
    ensures tracker.rest.start == old(tracker.rest.start) && tracker.rest.end <= old(tracker.rest.end)
  {
    for k := 0 to |splits|
      invariant Sane(tracker.State())
      invariant tracker.claimed == old(tracker.claimed) && tracker.stopped == old(tracker.stopped)
      invariant tracker.rest.start == old(tracker.rest.start) && tracker.rest.end <= old(tracker.rest.end)
    {
      SplitPointIsSafe(ByteOffset, tracker.State(), splits[k].0, splits[k].1);
      var parts := tracker.TrySplit(splits[k].0, splits[k].1);
    }
  }

  /** The state of the feed loop: everything before currPos was read, everything read was claimed. */
  ghost predicate Feeding(data: bytes, m: Mode, t: Tracker, from: nat, currPos: nat, starts: seq<nat>)
    requires from <= |data|
  {
    && Sane(t) && !t.stopped && from <= currPos <= |data| && t.claimed < currPos
    && ReachesNext(data, m, from, currPos)
    && starts == ReadsBefore(data, m, from, currPos)
    && (forall k :: 0 <= k < |starts| ==> starts[k] <= t.claimed)
  }

  lemma FeedOne(data: bytes, m: Mode, t: Tracker, from: nat, currPos: nat, starts: seq<nat>, fed: seq<bytes>)
    requires from <= |data| && Feeding(data, m, t, from, currPos, starts) && fed == Slices(data, m, starts)
    requires Accepts(t, currPos) && currPos < |data|
    ensures Feeding(data, m, Claim(t, currPos), from, ReadEnd(data, m, currPos), starts + [currPos])
    ensures fed + [data[currPos..ReadEnd(data, m, currPos)]] == Slices(data, m, starts + [currPos])
  {
    ReadsExtend(data, m, from, currPos);
  }

  /** A split between two passes leaves the feed loop where it is. */
  lemma FeedingKept(data: bytes, m: Mode, t: Tracker, t': Tracker, from: nat, currPos: nat, starts: seq<nat>)
    requires from <= |data| && Feeding(data, m, t, from, currPos, starts)
    requires Sane(t') && t'.claimed == t.claimed && t'.stopped == t.stopped
    ensures Feeding(data, m, t', from, currPos, starts)
  {
  }

  lemma FeedingFacts(data: bytes, m: Mode, t: Tracker, from: nat, currPos: nat, starts: seq<nat>)
    requires from <= |data| && Feeding(data, m, t, from, currPos, starts)
    ensures Sane(t) && !t.stopped && from <= currPos <= |data| && t.claimed < currPos
  {
  }

  lemma FeedStarts(data: bytes, m: Mode, rest: Range)
    requires 0 <= rest.start <= rest.end <= |data|
    ensures var from := First(data, m, rest.start);
            && (from < rest.end || rest.start == 0 ==> Feeding(data, m, Fresh(rest), from, from, []))
            && (from >= rest.end ==> ReadsBefore(data, m, from, rest.end) == [])
            && Slices(data, m, []) == []
  {
  }

  lemma FeedEnds(data: bytes, m: Mode, t: Tracker, from: nat, currPos: nat, starts: seq<nat>)
    requires from <= |data| && Feeding(data, m, t, from, currPos, starts)
    requires t.rest.end <= currPos
    ensures starts == ReadsBefore(data, m, from, t.rest.end)
  {
    ReadsBound(data, m, from, currPos, t.rest.end);
  }

  /**
   ProcessElement up to the decoder: the byte slices fed to the pipe. `interference[k]` are
   the splits that the runner tries on the tracker before the k-th pass of the feed loop.
   Whatever they are, the worker feeds exactly the records that begin inside the restriction
   that is finally left to it.
   */
  method ProcessElement(data: bytes, tracker: ByteOffsetTracker, quoteChar: byte, multiline: bool,
                        interference: seq<seq<(real, int)>>)
    returns (fed: seq<bytes>, ghost starts: seq<nat>)
    requires tracker.State() == Fresh(tracker.rest)
    requires 0 <= tracker.rest.start <= tracker.rest.end <= |data|
    modifies tracker
    ensures tracker.stopped
    ensures tracker.rest.start == old(tracker.rest.start) && tracker.rest.end <= old(tracker.rest.end)
    ensures var m := ModeOf(quoteChar, multiline);
            && starts == ReadsBefore(data, m, First(data, m, tracker.rest.start), tracker.rest.end)
            && fed == Slices(data, m, starts)
  {
    hide Feeding, ReadsBefore, Slices, ReachesNext, ReaderStep;
    ghost var m := ModeOf(quoteChar, multiline);
    var rest := tracker.rest;
    var currPos: nat := rest.start;
    fed, starts := [], [];
    FeedStarts(data, m, rest);
    if rest.start > 0 {
      var line, stop, eof := ReadRecordBytes(data, currPos, quoteChar, multiline);
      currPos := currPos + |line|;
      if currPos >= rest.end {
        tracker.MarkDone();
        return;
      }
    }
    ghost var from := First(data, m, rest.start);
    var pass := 0;
    while true
      invariant Feeding(data, m, tracker.State(), from, currPos, starts)
      invariant tracker.rest.start == rest.start && tracker.rest.end <= rest.end
      invariant (forall k :: 0 <= k < |starts| ==> starts[k] <= |data|) && fed == Slices(data, m, starts)
      decreases |data| - currPos
    {
      ghost var t0 := tracker.State();
      FeedingFacts(data, m, t0, from, currPos, starts);
      if pass < |interference| {
        Interfere(tracker, interference[pass]);
      }
      pass := pass + 1;
      FeedingKept(data, m, t0, tracker.State(), from, currPos, starts);
      if currPos >= rest.end {
        FeedEnds(data, m, tracker.State(), from, currPos, starts);
        break;
      }
      ghost var t := tracker.State();
      var ok := tracker.ClaimOffset(currPos);
      if !ok {
        FeedEnds(data, m, t, from, currPos, starts);
        break;
      }
      var line, stop, eof := ReadRecordBytes(data, currPos, quoteChar, multiline);
      FeedOne(data, m, t, from, currPos, starts, fed);
      if |line| > 0 {
        fed, starts := fed + [line], starts + [currPos];
        currPos := currPos + |line|;
      }
      if eof {
        FeedEnds(data, m, tracker.State(), from, currPos, starts);
        break;
      }
    }
    tracker.MarkDone();
  }
}
