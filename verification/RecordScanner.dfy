/**
 Where records begin and end in a byte stream.

 In single-line mode a record ends after every newline. In multiline mode it ends after a
 newline outside quotes, where a doubled quote inside quotes (rules 6 and 7 of section 2
 of RFC 4180) and a quote after a backslash do not toggle. The repository implements this
 automaton twice: readRecordBytes works line by line from where it stands, and
 SyncToNextRecordBoundary makes one pass from byte 0. Both are proved to compute the same
 boundaries, and the cuts from which a fresh reader falls into step with the pass from
 byte 0 are characterised exactly.
 */
module RecordScanner {
  import opened Basics

  const NEWLINE: byte := 10
  const BACKSLASH: byte := 92
  const DOUBLE_QUOTE: byte := 34

  datatype Mode = SingleLine | MultiLine(quote: byte)

  // ---------------------------------------------------------------- the automaton

  /** `skip` says that the next byte is the second half of a doubled quote. */
  datatype Quoting = Quoting(inside: bool, skip: bool)

  const OUTSIDE := Quoting(false, false)

  /** The effect of byte i for a scan that began at lo. */
  function Advance(data: bytes, quote: byte, lo: nat, i: nat, q: Quoting): Quoting
    requires lo <= i < |data|
  {
    if q.skip then
      Quoting(q.inside, false)
    else if data[i] == quote then
      if q.inside && i + 1 < |data| && data[i + 1] == quote then Quoting(true, true)
      else if i > lo && data[i - 1] == BACKSLASH then q
      else Quoting(!q.inside, false)
    else
      q
  }

  /** The state of a scan that began at lo, outside quotes, just before byte i. */
  function StateAt(data: bytes, quote: byte, lo: nat, i: nat): Quoting
    requires lo <= i <= |data|
  {
    if i == lo then OUTSIDE else Advance(data, quote, lo, i - 1, StateAt(data, quote, lo, i - 1))
  }

  predicate EndsAt(data: bytes, m: Mode, lo: nat, i: nat)
    requires lo <= i < |data|
  {
    data[i] == NEWLINE && (m.MultiLine? ==> data[i] != m.quote && !StateAt(data, m.quote, lo, i).inside)
  }

  function FindEnd(data: bytes, m: Mode, lo: nat, i: nat): (end: nat)
    requires lo <= i <= |data|
    ensures i <= end <= |data|
    ensures forall k :: i <= k < |data| && k + 1 < end ==> !EndsAt(data, m, lo, k)
    ensures end < |data| ==> i < end && EndsAt(data, m, lo, end - 1)
    ensures i < |data| ==> i < end
    decreases |data| - i
  {
    if i == |data| then i else if EndsAt(data, m, lo, i) then i + 1 else FindEnd(data, m, lo, i + 1)
  }

  /** The end of the first record that a fresh reader standing at lo delivers. */
  function NextEnd(data: bytes, m: Mode, lo: nat): (end: nat)
    requires lo <= |data|
    ensures lo <= end <= |data| && (lo < |data| ==> lo < end)
  {
    FindEnd(data, m, lo, lo)
  }

  /** The positions met by iterating the reader from byte 0: the records of the whole stream. */
  function RecordStarts(data: bytes, m: Mode, from: nat): (starts: seq<nat>)
    requires from <= |data|
    ensures from < |data| ==> starts != [] && starts[0] == from
    ensures forall k :: 0 <= k < |starts| ==> from <= starts[k] < |data|
    decreases |data| - from
  {
    if from == |data| then [] else [from] + RecordStarts(data, m, ReadEnd(data, m, from))
  }

  predicate IsBoundary(data: bytes, m: Mode, p: int) {
    0 <= p <= |data| && (p == 0 || p == |data| || EndsAt(data, m, 0, p - 1))
  }

  predicate IsRecordStart(data: bytes, m: Mode, p: int) {
    p < |data| && IsBoundary(data, m, p)
  }

  predicate Usable(m: Mode) {
    m.MultiLine? ==> m.quote != NEWLINE
  }

  // ---------------------------------------------------------------- restarting at a cut

  /** Both scans agree from j on. */
  ghost predicate InStep(data: bytes, quote: byte, lo: nat, lo': nat, j: nat)
    requires lo <= j && lo' <= j && j <= |data|
  {
    forall i :: j <= i <= |data| ==> StateAt(data, quote, lo, i) == StateAt(data, quote, lo', i)
  }

  /** A scan may be restarted wherever the old one is outside quotes and the byte before is not a backslash. */
  lemma RestartInStep(data: bytes, quote: byte, lo: nat, s: nat)
    requires lo <= s <= |data| && StateAt(data, quote, lo, s) == OUTSIDE
    requires s > lo ==> data[s - 1] != BACKSLASH
    ensures InStep(data, quote, lo, s, s)
  {
    forall i | s <= i <= |data| ensures StateAt(data, quote, lo, i) == StateAt(data, quote, s, i) {
      RestartAt(data, quote, lo, s, i);
    }
  }

  lemma {:induction false} RestartAt(data: bytes, quote: byte, lo: nat, s: nat, i: nat)
    requires lo <= s <= i <= |data| && StateAt(data, quote, lo, s) == OUTSIDE
    requires s > lo ==> data[s - 1] != BACKSLASH
    ensures StateAt(data, quote, lo, i) == StateAt(data, quote, s, i)
  {
    if i > s {
      RestartAt(data, quote, lo, s, i - 1);
    }
  }

  /** Scans that agree once beyond both of their origins agree for ever. */
  lemma {:induction false} MergedAt(data: bytes, quote: byte, lo: nat, lo': nat, j: nat, i: nat)
    requires lo < j && lo' < j && j <= i <= |data|
    requires StateAt(data, quote, lo, j) == StateAt(data, quote, lo', j)
    ensures StateAt(data, quote, lo, i) == StateAt(data, quote, lo', i)
  {
    if i > j {
      MergedAt(data, quote, lo, lo', j, i - 1);
    }
  }

  /** No skip is pending at a newline, because the byte skipped is a quote. */
  lemma NoSkipAtNewline(data: bytes, quote: byte, lo: nat, i: nat)
    requires lo <= i < |data| && data[i] == NEWLINE && quote != NEWLINE
    ensures !StateAt(data, quote, lo, i).skip
    ensures StateAt(data, quote, lo, i + 1) == StateAt(data, quote, lo, i)
  {
  }

  /** Two scans with the same newline verdicts from i on find the same end. */
  lemma {:induction false} SameEnd(data: bytes, m: Mode, lo: nat, lo': nat, i: nat)
    requires lo <= i && lo' <= i && i <= |data|
    requires forall k :: i <= k < |data| ==> EndsAt(data, m, lo, k) == EndsAt(data, m, lo', k)
    ensures FindEnd(data, m, lo, i) == FindEnd(data, m, lo', i)
    decreases |data| - i
  {
    if i < |data| {
      SameEnd(data, m, lo, lo', i + 1);
    }
  }

  /** The first boundary of the pass from byte 0 strictly after s. */
  function FollowingBoundary(data: bytes, m: Mode, s: nat): (b: nat)
    requires s < |data|
    ensures s < b <= |data| && IsBoundary(data, m, b)
    ensures forall p :: s < p < b ==> !IsBoundary(data, m, p)
  {
    FindEnd(data, m, 0, s)
  }

  /** A reader that starts at s gets in step with the records: what it discards ends at the next true boundary. */
  predicate Clean(data: bytes, m: Mode, s: nat)
    requires s < |data|
  {
    NextEnd(data, m, s) == FollowingBoundary(data, m, s)
  }

  /** In single-line mode every cut is clean. */
  lemma SingleLineClean(data: bytes, s: nat)
    requires s < |data|
    ensures Clean(data, SingleLine, s)
  {
    SameEnd(data, SingleLine, s, 0, s);
  }

  /** In multiline mode a cut is clean when it falls outside quotes and not just after a backslash. */
  lemma OutsideIsClean(data: bytes, m: Mode, s: nat)
    requires m.MultiLine? && s < |data|
    requires StateAt(data, m.quote, 0, s) == OUTSIDE
    requires s > 0 ==> data[s - 1] != BACKSLASH
    ensures Clean(data, m, s)
  {
    RestartInStep(data, m.quote, 0, s);
    SameEnd(data, m, s, 0, s);
  }

  /** Record boundaries are clean, so iterating the reader follows the pass from byte 0. */
  lemma BoundaryIsClean(data: bytes, m: Mode, p: nat)
    requires Usable(m) && IsRecordStart(data, m, p)
    ensures Clean(data, m, p)
  {
    if m.SingleLine? {
      SingleLineClean(data, p);
    } else {
      if p > 0 {
        NoSkipAtNewline(data, m.quote, 0, p - 1);
      }
      OutsideIsClean(data, m, p);
    }
  }

  /** The index of the first newline at or after s, or |data|. */
  function FirstNewline(data: bytes, s: nat): (j: nat)
    requires s <= |data|
    ensures s <= j <= |data| && (j < |data| ==> data[j] == NEWLINE)
    ensures forall k :: s <= k < j ==> data[k] != NEWLINE
    decreases |data| - s
  {
    if s == |data| || data[s] == NEWLINE then s else FirstNewline(data, s + 1)
  }

  lemma {:induction false} FindEndSkips(data: bytes, m: Mode, lo: nat, i: nat, j: nat)
    requires lo <= i <= j <= |data| && (forall k :: i <= k < j ==> data[k] != NEWLINE)
    ensures FindEnd(data, m, lo, i) == FindEnd(data, m, lo, j)
    decreases j - i
  {
    if i < j {
      FindEndSkips(data, m, lo, i + 1, j);
    }
  }

  /**
   Exactly which cuts are clean in multiline mode: those after which no newline follows, or
   only one as the last byte, or at whose first following newline the reader and the pass
   from byte 0 agree on being inside quotes.
   */
  lemma CleanCharacterised(data: bytes, m: Mode, s: nat)
    requires m.MultiLine? && Usable(m) && s < |data|
    ensures var j := FirstNewline(data, s);
            Clean(data, m, s) <==>
            (j + 1 >= |data| || StateAt(data, m.quote, s, j).inside == StateAt(data, m.quote, 0, j).inside)
  {
    var j := FirstNewline(data, s);
    FindEndSkips(data, m, s, s, j);
    FindEndSkips(data, m, 0, s, j);
    if j + 1 < |data| {
      NoSkipAtNewline(data, m.quote, s, j);
      NoSkipAtNewline(data, m.quote, 0, j);
      if StateAt(data, m.quote, s, j) == StateAt(data, m.quote, 0, j) {
        forall k | j <= k < |data| ensures EndsAt(data, m, s, k) == EndsAt(data, m, 0, k) {
          if k > j {
            MergedAt(data, m.quote, s, 0, j + 1, k);
          }
        }
        SameEnd(data, m, s, 0, j);
      }
    }
  }

  /** A cut inside quotes can make a worker skip to a newline that ends no record. */
  lemma CutInsideQuotesIsNotClean()
    ensures var data: bytes := [34, 97, 10, 98, 34, 10]; // "a\nb"\n
            !Clean(data, MultiLine(DOUBLE_QUOTE), 1)
  {
    var data: bytes := [34, 97, 10, 98, 34, 10];
    var m := MultiLine(DOUBLE_QUOTE);
    assert StateAt(data, 34, 1, 2) == OUTSIDE;
    assert StateAt(data, 34, 0, 1) == Quoting(true, false);
    assert StateAt(data, 34, 0, 2) == Quoting(true, false);
    assert FirstNewline(data, 1) == 2;
    CleanCharacterised(data, m, 1);
  }

  // ---------------------------------------------------------------- records by iteration

  /** Iterating the reader from a boundary visits exactly the boundaries that follow, in order. */
  lemma {:induction false} StartsAreBoundaries(data: bytes, m: Mode, from: nat, p: int)
    requires Usable(m) && IsBoundary(data, m, from)
    ensures from <= p && IsRecordStart(data, m, p) <==> p in RecordStarts(data, m, from)
    decreases |data| - from
  {
    if from < |data| {
      BoundaryIsClean(data, m, from);
      ReaderFollowsMode(data, m, from);
      var next := ReadEnd(data, m, from);
      StartsAreBoundaries(data, m, next, p);
      assert RecordStarts(data, m, from) == [from] + RecordStarts(data, m, next);
    }
  }

  function Slices(data: bytes, m: Mode, starts: seq<nat>): (out: seq<bytes>)
    requires forall k :: 0 <= k < |starts| ==> starts[k] <= |data|
    ensures |out| == |starts|
    ensures forall k :: 0 <= k < |out| ==> out[k] == data[starts[k]..ReadEnd(data, m, starts[k])]
  {
    seq(|starts|, k requires 0 <= k < |starts| => data[starts[k]..ReadEnd(data, m, starts[k])])
  }

  function Concat(parts: seq<bytes>): bytes {
    if parts == [] then [] else parts[0] + Concat(parts[1..])
  }

  /** The records put end to end are the stream. */
  lemma {:induction false} RecordsConcatenate(data: bytes, m: Mode, from: nat)
    requires from <= |data|
    ensures Concat(Slices(data, m, RecordStarts(data, m, from))) == data[from..]
    decreases |data| - from
  {
    if from < |data| {
      var next := ReadEnd(data, m, from);
      var starts := RecordStarts(data, m, from);
      assert starts[1..] == RecordStarts(data, m, next);
      assert Slices(data, m, starts)[1..] == Slices(data, m, starts[1..]);
      RecordsConcatenate(data, m, next);
      assert data[from..next] + data[next..] == data[from..];
    }
  }

  // ---------------------------------------------------------------- the two implementations

  /** bytes.IndexByte and the ReadBytes of a buffered reader: up to and including the newline. */
  method ReadLine(data: bytes, pos: nat) returns (end: nat, eof: bool)
    requires pos <= |data|
    ensures var j := FirstNewline(data, pos);
            eof == (j == |data|) && end == (if j < |data| then j + 1 else j)
  {
    end := pos;
    while end < |data| && data[end] != NEWLINE
      invariant pos <= end <= |data|
      invariant FirstNewline(data, pos) == FirstNewline(data, end)
    {
      end := end + 1;
    }
    if end == |data| {
      return end, true;
    }
    return end + 1, false;
  }

  /** The quote parity after the bytes of one line, seen only through that line. */
  function LineParity(line: bytes, quote: byte, i: nat, inside: bool): bool
    requires i <= |line|
    decreases |line| - i
  {
    if i == |line| then inside
    else if line[i] == quote then
      if inside && i + 1 < |line| && line[i + 1] == quote then LineParity(line, quote, i + 2, inside)
      else if i > 0 && line[i - 1] == BACKSLASH then LineParity(line, quote, i + 1, inside)
      else LineParity(line, quote, i + 1, !inside)
    else LineParity(line, quote, i + 1, inside)
  }

  /** What readRecordBytes computes in multiline mode, for any quote byte: the end, and whether it ran out of data. */
  function LinewiseRead(data: bytes, quote: byte, pos: nat, inside: bool): (r: (nat, bool))
    requires pos <= |data|
    ensures pos <= r.0 <= |data| && (pos < |data| ==> pos < r.0)
    ensures r.1 ==> r.0 == |data|
    decreases |data| - pos
  {
    if pos == |data| then (pos, true)
    else
      var j := FirstNewline(data, pos);
      var end := if j < |data| then j + 1 else j;
      var after := LineParity(data[pos..end], quote, 0, inside);
      if !after || j == |data| then (end, j == |data|) else LinewiseRead(data, quote, end, after)
  }

  function ModeOf(quoteChar: byte, multiline: bool): Mode {
    if multiline then MultiLine(if quoteChar == 0 then DOUBLE_QUOTE else quoteChar) else SingleLine
  }

  /** Where readRecordBytes stops when it stands at pos, and whether it runs out of data, for every quote byte. */
  function ReaderStep(data: bytes, m: Mode, pos: nat): (r: (nat, bool))
    requires pos <= |data|
    ensures pos <= r.0 <= |data| && (pos < |data| ==> pos < r.0)
    ensures r.1 ==> r.0 == |data|
  {
    match m
    case SingleLine => (NextEnd(data, m, pos), RunsOut(data, m, pos))
    case MultiLine(quote) => LinewiseRead(data, quote, pos, false)
  }

  function ReadEnd(data: bytes, m: Mode, pos: nat): (end: nat)
    requires pos <= |data|
    ensures pos <= end <= |data| && (pos < |data| ==> pos < end)
  {
    ReaderStep(data, m, pos).0
  }

  /** A reader standing at pos runs out of data exactly when what it returns is not closed by a record end. */
  predicate RunsOut(data: bytes, m: Mode, pos: nat)
    requires pos <= |data|
  {
    Unclosed(data, m, pos, NextEnd(data, m, pos))
  }

  predicate Unclosed(data: bytes, m: Mode, lo: nat, end: nat)
    requires lo <= end <= |data|
  {
    end == lo || !EndsAt(data, m, lo, end - 1)
  }

  /** The loop over the bytes of one line. */
  method ScanQuotes(line: bytes, quote: byte, before: bool) returns (inQuotes: bool)
    ensures inQuotes == LineParity(line, quote, 0, before)
  {
    inQuotes := before;
    var i := 0;
    while i < |line|
      invariant 0 <= i <= |line|
      invariant LineParity(line, quote, 0, before) == LineParity(line, quote, i, inQuotes)
    {
      if line[i] == quote {
        if inQuotes && i + 1 < |line| && line[i + 1] == quote {
          i := i + 2;
          continue;
        }
        if i > 0 && line[i - 1] == BACKSLASH {
          i := i + 1;
          continue;
        }
        inQuotes := !inQuotes;
      }
      i := i + 1;
    }
  }

  lemma LinewiseStep(data: bytes, quote: byte, pos: nat, inside: bool)
    requires pos <= |data|
    ensures LinewiseRead(data, quote, pos, inside)
         == if pos == |data| then (pos, true)
            else
              var j := FirstNewline(data, pos);
              var end := if j < |data| then j + 1 else j;
              var after := LineParity(data[pos..end], quote, 0, inside);
              if !after || j == |data| then (end, j == |data|) else LinewiseRead(data, quote, end, after)
  {
  }

  method ReadRecordBytes(data: bytes, pos: nat, quoteChar: byte, multiline: bool)
    returns (full: bytes, end: nat, eof: bool)
    requires pos <= |data|
    ensures pos <= end <= |data| && full == data[pos..end]
    ensures (end, eof) == ReaderStep(data, ModeOf(quoteChar, multiline), pos)
  {
    hide LinewiseRead;
    if !multiline {
      end, eof := ReadLine(data, pos);
      FindEndSkips(data, SingleLine, pos, pos, FirstNewline(data, pos));
      return data[pos..end], end, eof;
    }
    var quote := quoteChar;
    if quote == 0 {
      quote := DOUBLE_QUOTE;
    }
    full, end, eof := ReadQuotedLines(data, pos, quote);
  }

  /** The loop over the lines of one record. */
  method ReadQuotedLines(data: bytes, pos: nat, quote: byte) returns (full: bytes, end: nat, eof: bool)
    requires pos <= |data|
    ensures pos <= end <= |data| && full == data[pos..end]
    ensures (end, eof) == LinewiseRead(data, quote, pos, false)
  {
    hide LinewiseRead, LineParity;
    full := [];
    end := pos;
    var inQuotes := false;
    while true
      invariant pos <= end <= |data| && full == data[pos..end]
      invariant LinewiseRead(data, quote, pos, false) == LinewiseRead(data, quote, end, inQuotes)
      decreases |data| - end
    {
      var stop, err := ReadLine(data, end);
      var line := data[end..stop];
      LinewiseStep(data, quote, end, inQuotes);
      if |line| == 0 {
        return full, end, err;
      }
      full := full + line;
      inQuotes := ScanQuotes(line, quote, inQuotes);
      end := stop;
      if !inQuotes || err {
        return full, end, err;
      }
    }
  }

  /** Within one line the line-wise parity is the automaton's state. */
  lemma {:induction false} LineParityIsState(data: bytes, quote: byte, lo: nat, pos: nat, end: nat, i: nat)
    requires quote != NEWLINE && lo <= pos <= i <= end <= |data|
    requires end < |data| ==> pos < end && data[end - 1] == NEWLINE
    requires pos > lo ==> data[pos - 1] == NEWLINE
    requires !StateAt(data, quote, lo, i).skip
    ensures LineParity(data[pos..end], quote, i - pos, StateAt(data, quote, lo, i).inside)
         == StateAt(data, quote, lo, end).inside
    ensures !StateAt(data, quote, lo, end).skip
    decreases end - i
  {
    if i < end {
      var q := StateAt(data, quote, lo, i);
      assert data[pos..end][i - pos] == data[i];
      if data[i] == quote && q.inside && i + 1 < |data| && data[i + 1] == quote {
        assert i + 1 < end;
        assert StateAt(data, quote, lo, i + 2) == Advance(data, quote, lo, i + 1, StateAt(data, quote, lo, i + 1));
        LineParityIsState(data, quote, lo, pos, end, i + 2);
      } else {
        LineParityIsState(data, quote, lo, pos, end, i + 1);
      }
    }
  }

  /** One line of the pass: where it ends, the automaton either stops or goes on to the next line. */
  lemma AutomatonByLine(data: bytes, quote: byte, lo: nat, pos: nat, j: nat)
    requires quote != NEWLINE && lo <= pos <= j <= |data| && j == FirstNewline(data, pos)
    ensures var m := MultiLine(quote);
            if j == |data| then FindEnd(data, m, lo, pos) == j && (pos < j ==> Unclosed(data, m, lo, j))
            else if StateAt(data, quote, lo, j + 1).inside then FindEnd(data, m, lo, pos) == FindEnd(data, m, lo, j + 1)
            else FindEnd(data, m, lo, pos) == j + 1 && !Unclosed(data, m, lo, j + 1)
  {
    FindEndSkips(data, MultiLine(quote), lo, pos, j);
    if j < |data| {
      NoSkipAtNewline(data, quote, lo, j);
    }
  }

  /** The automaton carried on from the middle of a record: its end and whether that end is open. */
  function ScanFrom(data: bytes, m: Mode, lo: nat, pos: nat): (nat, bool)
    requires lo <= pos <= |data|
  {
    var end := FindEnd(data, m, lo, pos);
    (end, Unclosed(data, m, lo, end))
  }

  /** The line-wise reader finds the same end as the automaton, provided the quote byte is not the newline. */
  lemma {:induction false} LinewiseIsAutomaton(data: bytes, quote: byte, lo: nat, pos: nat, inside: bool)
    requires quote != NEWLINE && lo <= pos <= |data|
    requires StateAt(data, quote, lo, pos) == Quoting(inside, false)
    requires pos > lo ==> data[pos - 1] == NEWLINE && inside
    ensures LinewiseRead(data, quote, pos, inside) == ScanFrom(data, MultiLine(quote), lo, pos)
    decreases |data| - pos
  {
    var j := FirstNewline(data, pos);
    if pos == |data| {
      if pos > lo {
        NoSkipAtNewline(data, quote, lo, pos - 1);
      }
    } else if j == |data| {
      AutomatonByLine(data, quote, lo, pos, j);
    } else {
      LineParityIsState(data, quote, lo, pos, j + 1, pos);
      AutomatonByLine(data, quote, lo, pos, j);
      if StateAt(data, quote, lo, j + 1).inside {
        LinewiseIsAutomaton(data, quote, lo, j + 1, true);
      }
    }
  }

  lemma ReaderFollowsAutomaton(data: bytes, quote: byte, pos: nat)
    requires quote != NEWLINE && pos <= |data|
    ensures LinewiseRead(data, quote, pos, false)
         == (NextEnd(data, MultiLine(quote), pos), RunsOut(data, MultiLine(quote), pos))
  {
    LinewiseIsAutomaton(data, quote, pos, pos, false);
  }

  /** In a usable mode the reader is the automaton. */
  lemma ReaderFollowsMode(data: bytes, m: Mode, pos: nat)
    requires Usable(m) && pos <= |data|
    ensures ReaderStep(data, m, pos) == (NextEnd(data, m, pos), RunsOut(data, m, pos))
  {
    if m.MultiLine? {
      ReaderFollowsAutomaton(data, m.quote, pos);
    }
  }

  /** The two implementations agree on all streams and positions exactly for the quote bytes that are not newline. */
  lemma QuoteIff(quote: byte)
    ensures (forall data: bytes, pos: nat :: pos <= |data| ==> ReadersAgree(data, quote, pos)) <==> quote != NEWLINE
  {
    if quote == NEWLINE {
      NewlineQuoteDisagrees();
      var data: bytes := [10, 98, 10, 97];
      assert !ReadersAgree(data, quote, 0);
    } else {
      forall data: bytes, pos: nat | pos <= |data| ensures ReadersAgree(data, quote, pos) {
        ReaderFollowsAutomaton(data, quote, pos);
      }
    }
  }

  /** The line-by-line reader at pos stops where the byte automaton does. */
  predicate ReadersAgree(data: bytes, quote: byte, pos: nat)
    requires pos <= |data|
  {
    LinewiseRead(data, quote, pos, false).0 == NextEnd(data, MultiLine(quote), pos)
  }

  /** With the newline itself as quote byte the two implementations disagree. */
  lemma NewlineQuoteDisagrees()
    ensures LinewiseRead([10, 98, 10, 97], NEWLINE, 0, false) == (3, false)
    ensures NextEnd([10, 98, 10, 97], MultiLine(NEWLINE), 0) == 4
  {
    var d: bytes := [10, 98, 10, 97];
    assert FirstNewline(d, 0) == 0 && d[0..1] == [10];
    assert LineParity([10], NEWLINE, 0, false) == LineParity([10], NEWLINE, 1, true) == true;
    assert FirstNewline(d, 1) == 2 && d[1..3] == [98, 10];
    assert LineParity([98, 10], NEWLINE, 0, true) == LineParity([98, 10], NEWLINE, 1, true)
        == LineParity([98, 10], NEWLINE, 2, false) == false;
  }

  /**
   The pass from byte 0. Strictly inside the data it returns the least record boundary at or
   after startOffset in multiline mode, and the least one strictly after it on the
   single-line fast path.
   */
  method SyncToNextRecordBoundary(data: bytes, startOffset: int, quoteChar: byte, multiline: bool)
    returns (next: int)
    ensures startOffset <= 0 || startOffset >= |data| ==> next == startOffset
    ensures 0 < startOffset < |data| && multiline ==>
              var m := ModeOf(quoteChar, multiline);
              startOffset <= next && IsBoundary(data, m, next)
              && forall p :: startOffset <= p < next ==> !IsBoundary(data, m, p)
    ensures 0 < startOffset < |data| && !multiline ==> next == FollowingBoundary(data, SingleLine, startOffset)
  {
    if startOffset <= 0 || startOffset >= |data| {
      return startOffset;
    }
    if !multiline {
      var end, eof := ReadLine(data, startOffset);
      FindEndSkips(data, SingleLine, startOffset, startOffset, FirstNewline(data, startOffset));
      SingleLineClean(data, startOffset);
      return end;
    }
    var quote := quoteChar;
    if quote == 0 {
      quote := DOUBLE_QUOTE;
    }
    ghost var m := MultiLine(quote);
    var inQuotes, i := false, 0;
    while i < |data|
      invariant 0 <= i <= |data|
      invariant StateAt(data, quote, 0, i) == Quoting(inQuotes, false)
      invariant forall p :: startOffset <= p <= i && p < |data| ==> !IsBoundary(data, m, p)
    {
      var b := data[i];
      ghost var j := i;
      if b == quote {
        if inQuotes && i + 1 < |data| && data[i + 1] == quote {
          assert StateAt(data, quote, 0, i + 1) == Quoting(true, true);
          assert !EndsAt(data, m, 0, i) && !EndsAt(data, m, 0, i + 1);
          i := i + 2;
          continue;
        }
        if i > 0 && data[i - 1] == BACKSLASH {
          i := i + 1;
          continue;
        }
        inQuotes := !inQuotes;
      } else if b == NEWLINE && !inQuotes {
        var nextStart := i + 1;
        if nextStart >= startOffset {
          return nextStart;
        }
      }
      i := i + 1;
    }
    return |data|;
  }

  /**
   The single-line fast path returns the least boundary at or after the offset, which is what
   its comment promises, exactly when the byte before the offset is not a newline.
   */
  lemma AtOrAfterIff(data: bytes, s: nat)
    requires 0 < s < |data|
    ensures (forall p :: s <= p < FollowingBoundary(data, SingleLine, s) ==> !IsBoundary(data, SingleLine, p))
            <==> data[s - 1] != NEWLINE
  {
    assert IsBoundary(data, SingleLine, s) <==> data[s - 1] == NEWLINE;
  }

  /** Iterating readRecordBytes from byte 0 meets the value the pass returns, unless that is the end of data. */
  lemma SyncedOffsetIsRecordStart(data: bytes, m: Mode, next: int)
    requires Usable(m) && IsBoundary(data, m, next)
    ensures next == |data| || next in RecordStarts(data, m, 0)
  {
    StartsAreBoundaries(data, m, 0, next);
  }
}
