/**
 Incremental watermarks with an integer key. A run reads the rows above the incoming watermark,
 writes some of them, and emits the watermark with which the next run starts: as text, so that
 what a run emits is worth only what the next one parses.
 */
module Watermarks {
  import opened Basics
  import opened Bits
  import opened Decimal

  datatype WatermarkError = InvalidInteger | InvalidOffset | ColumnNotFound

  // ---------------------------------------------------------------- the scalar

  /** strconv.FormatInt in base ten. */
  function Canonical(v: int64): (s: string)
    ensures s != ""
  {
    if v < 0 then "-" + Digits(-(v as int)) else Digits(v)
  }

  /** strconv.ParseInt in base ten for 64 bits. */
  function ParseInt(s: string): Result<int64, WatermarkError> {
    var digits := Body(s);
    if digits == "" || !AllDigits(digits) then Err(InvalidInteger)
    else
      var n: int := NumberOf(digits);
      var v := if Negative(s) then -n else n;
      if -0x8000_0000_0000_0000 <= v < 0x8000_0000_0000_0000 then Ok(v) else Err(InvalidInteger)
  }

  function ParseWatermarkValue(raw: string): Result<int64, WatermarkError> {
    ParseInt(TrimSpace(raw))
  }

  /** A watermark survives printing and parsing, and its text has nothing to trim. */
  lemma CanonicalRoundTrip(v: int64)
    ensures TrimSpace(Canonical(v)) == Canonical(v)
    ensures ParseInt(Canonical(v)) == Ok(v) && ParseWatermarkValue(Canonical(v)) == Ok(v)
  {
    hide Digits, NumberOf, TrimSpace;
    var n := if v < 0 then -(v as int) else v;
    var s := Canonical(v);
    DigitsDenote(n);
    assert v < 0 ==> s[1..] == Digits(n);
    assert IsDigit(Digits(n)[0]) && IsDigit(s[|s| - 1]);
    NothingToTrim(s);
    assert Body(s) == Digits(n);
  }

  /** The text is the decimal one of scale 0: a minus sign for negatives only and no leading zeros. */
  lemma CanonicalIsFormatted(v: int64)
    ensures Canonical(v) == Formatted(v, 0)
  {
  }

  /** Which texts are read, and as what: digits with an optional sign, within 64 bits. */
  lemma NumbersAreRead(d: string)
    requires d != "" && AllDigits(d)
    ensures ParseInt(d) == ParseInt("+" + d)
    ensures ParseInt(d) == if NumberOf(d) <= 0x7FFF_FFFF_FFFF_FFFF then Ok(NumberOf(d)) else Err(InvalidInteger)
    ensures ParseInt("-" + d)
         == if NumberOf(d) <= 0x8000_0000_0000_0000 then Ok(0 - NumberOf(d)) else Err(InvalidInteger)
  {
    hide NumberOf;
    assert IsDigit(d[0]);
    assert ("+" + d)[1..] == d && ("-" + d)[1..] == d;
  }

  /** No other text is read. */
  lemma OnlyNumbersAreRead(s: string) returns (d: string)
    requires ParseInt(s).Ok?
    ensures d != "" && AllDigits(d) && (s == d || s == "+" + d || s == "-" + d)
  {
    d := Body(s);
    assert s == d || s == [s[0]] + d;
  }

  lemma {:induction false} RightTrimmed(s: string)
    ensures |TrimRight(s)| <= |s| && TrimRight(s) == s[..|TrimRight(s)|]
    ensures TrimRight(s) == "" || !IsSpace(TrimRight(s)[|TrimRight(s)| - 1])
    ensures TrimRight(TrimRight(s)) == TrimRight(s)
  {
    if s != "" && IsSpace(s[|s| - 1]) {
      RightTrimmed(s[..|s| - 1]);
    }
  }

  lemma {:induction false} LeftTrimmed(s: string)
    ensures TrimLeft(s) == "" || !IsSpace(TrimLeft(s)[0])
  {
    if s != "" && IsSpace(s[0]) {
      LeftTrimmed(s[1..]);
    }
  }

  /** Trimming takes white space off both ends and nothing else. */
  lemma TrimmedIs(s: string) returns (a: nat, b: nat)
    ensures a <= b <= |s| && TrimSpace(s) == s[a..b]
    ensures forall i :: 0 <= i < a || b <= i < |s| ==> IsSpace(s[i])
    ensures a < b ==> !IsSpace(s[a]) && !IsSpace(s[b - 1])
  {
    a := LeftIs(s);
    var l := TrimLeft(s);
    LeftTrimmed(s);
    RightTrimmed(l);
    var k := RightIs(l);
    b := a + k;
    assert forall i :: b <= i < |s| ==> s[i] == l[i - a];
    assert TrimSpace(s) == s[a..b];
  }

  lemma {:induction false} LeftIs(s: string) returns (a: nat)
    ensures a <= |s| && TrimLeft(s) == s[a..] && forall i :: 0 <= i < a ==> IsSpace(s[i])
  {
    if s != "" && IsSpace(s[0]) {
      var k := LeftIs(s[1..]);
      a := k + 1;
      assert forall i :: 1 <= i < a ==> s[i] == s[1..][i - 1];
    } else {
      a := 0;
    }
  }

  lemma {:induction false} RightIs(s: string) returns (k: nat)
    ensures k <= |s| && TrimRight(s) == s[..k] && forall i :: k <= i < |s| ==> IsSpace(s[i])
  {
    if s != "" && IsSpace(s[|s| - 1]) {
      k := RightIs(s[..|s| - 1]);
      assert forall i :: k <= i < |s| - 1 ==> s[i] == s[..|s| - 1][i];
    } else {
      k := |s|;
    }
  }

  lemma TrimmedStays(s: string)
    ensures TrimSpace(TrimSpace(s)) == TrimSpace(s)
  {
    var l := TrimLeft(s);
    LeftTrimmed(s);
    RightTrimmed(l);
    assert TrimRight(l) != "" ==> TrimRight(l)[0] == l[0];
  }

  // ---------------------------------------------------------------- the largest key of the output

  function Higher(a: Option<int64>, b: Option<int64>): Option<int64> {
    if a == None || (b.Some? && b.value > a.value) then b else a
  }

  predicate AtLeast(a: Option<int64>, b: Option<int64>) {
    b.Some? ==> a.Some? && a.value >= b.value
  }

  /** The maximum of the cells that are not null: absent exactly when all are null. */
  ghost predicate IsHighest(m: Option<int64>, cells: seq<Option<int64>>) {
    && (forall i :: 0 <= i < |cells| ==> AtLeast(m, cells[i]))
    && (m.Some? ==> m in cells)
  }

  function HighestOf(cells: seq<Option<int64>>): (m: Option<int64>)
    ensures IsHighest(m, cells)
  {
    if cells == [] then None else
      var init := cells[..|cells| - 1];
      assert forall i :: 0 <= i < |init| ==> cells[i] == init[i];
      Higher(HighestOf(init), cells[|cells| - 1])
  }

  /** The cells of the watermark column of one Parquet file, if the file has that column. */
  type ParquetFile = Option<seq<Option<int64>>>

  function Cells(files: seq<ParquetFile>): seq<Option<int64>>
    requires forall i :: 0 <= i < |files| ==> files[i].Some?
  {
    if files == [] then []
    else Cells(files[..|files| - 1]) + files[|files| - 1].value
  }

  lemma HighestStep(cells: seq<Option<int64>>, c: Option<int64>)
    ensures HighestOf(cells + [c]) == Higher(HighestOf(cells), c)
  {
    assert (cells + [c])[..|cells|] == cells;
  }

  method MaxParquetColumn(files: seq<ParquetFile>) returns (r: Result<Option<int64>, WatermarkError>)
    ensures r.Ok? <==> forall i :: 0 <= i < |files| ==> files[i].Some?
    ensures r.Ok? ==> IsHighest(r.value, Cells(files)) && r.value == HighestOf(Cells(files))
    ensures r.Err? ==> r.error == ColumnNotFound
  {
    hide IsHighest;
    var maxVal: Option<int64> := None;
    for f := 0 to |files|
      invariant forall i :: 0 <= i < f ==> files[i].Some?
      invariant maxVal == HighestOf(Cells(files[..f]))
    {
      if files[f].None? {
        return Err(ColumnNotFound);
      }
      assert files[..f + 1][..f] == files[..f];
      maxVal := MaxOfColumn(files[f].value, maxVal, Cells(files[..f]));
    }
    assert files[..|files|] == files;
    return Ok(maxVal);
  }

  /** The loop over the values of one column. */
  method MaxOfColumn(column: seq<Option<int64>>, soFar: Option<int64>, ghost before: seq<Option<int64>>)
    returns (maxVal: Option<int64>)
    requires soFar == HighestOf(before)
    ensures maxVal == HighestOf(before + column)
  {
    hide HighestOf, IsHighest, ParseInt, TrimSpace, Canonical;
    maxVal := soFar;
    assert before + column[..0] == before;
    for i := 0 to |column|
      invariant maxVal == HighestOf(before + column[..i])
    {
      HighestStep(before + column[..i], column[i]);
      assert before + column[..i + 1] == before + column[..i] + [column[i]];
      if column[i].None? {
        continue;
      }
      CanonicalRoundTrip(column[i].value);
      var parsed := ParseWatermarkValue(Canonical(column[i].value));
      if maxVal.None? || parsed.value > maxVal.value {
        maxVal := Some(parsed.value);
      }
    }
    assert column[..|column|] == column;
  }

  // ---------------------------------------------------------------- the emitted watermark

  /** The incoming watermark: none on a first run, when the text is absent or blank. */
  function Incoming(value: Option<string>): Result<Option<int64>, WatermarkError> {
    if value.None? || TrimSpace(value.value) == "" then Ok(None)
    else
      var v := ParseWatermarkValue(value.value);
      if v.Ok? then Ok(Some(v.value)) else Err(v.error)
  }

  function Carried(value: Option<string>): Option<string> {
    if value.Some? && TrimSpace(value.value) != "" then Some(TrimSpace(value.value)) else None
  }

  /** The text a run emits, from the incoming one and the largest key it wrote. */
  function Emitted(value: Option<string>, highest: Option<int64>): Option<string> {
    if highest.None? then Carried(value)
    else
      var incoming := Incoming(value);
      Some(Canonical(if incoming.Ok? && incoming.value.Some? && incoming.value.value > highest.value
                     then incoming.value.value else highest.value))
  }

  method ResolveWatermarkOutput(isOffset: bool, value: Option<string>, totalRead: int64, rowsWritten: int64,
                                files: seq<ParquetFile>)
    returns (r: Result<Option<string>, WatermarkError>)
    ensures isOffset && Carried(value).None? ==> r == Ok(Some(Canonical(totalRead)))
    ensures isOffset && Carried(value).Some? ==>
              var start := ParseInt(Carried(value).value);
              && (start.Err? ==> r == Err(InvalidOffset))
              && (start.Ok? ==> r == Ok(Some(Canonical(ToInt64(start.value + totalRead)))))
    ensures !isOffset && rowsWritten == 0 ==> r == Ok(Emitted(value, None))
    ensures !isOffset && rowsWritten != 0 ==>
              if forall i :: 0 <= i < |files| ==> files[i].Some?
              then r == Ok(Emitted(value, HighestOf(Cells(files))))
              else r == Err(ColumnNotFound)
  {
    hide Canonical, ParseInt, TrimSpace;
    if isOffset {
      var startOffset: int64 := 0;
      if value.Some? && TrimSpace(value.value) != "" {
        var parsed := ParseInt(TrimSpace(value.value));
        if parsed.Err? {
          return Err(InvalidOffset);
        }
        startOffset := parsed.value;
      }
      return Ok(Some(Canonical(ToInt64(startOffset + totalRead))));
    }
    if rowsWritten == 0 {
      return Ok(Carried(value));
    }
    var maxVal := MaxParquetColumn(files);
    if maxVal.Err? {
      return Err(maxVal.error);
    }
    if maxVal.value.None? {
      assert Carried(value) == Emitted(value, maxVal.value);
      return Ok(Carried(value));
    }
    var finalVal := maxVal.value.value;
    var incoming := Incoming(value);
    if incoming.Ok? && incoming.value.Some? {
      if incoming.value.value > finalVal {
        finalVal := incoming.value.value;
      }
    }
    assert Some(Canonical(finalVal)) == Emitted(value, maxVal.value);
    return Ok(Some(Canonical(finalVal)));
  }

  /** A run that wrote no key passes the incoming text on, trimmed; an absent or blank one becomes none. */
  lemma CarriedText(value: Option<string>)
    ensures Emitted(value, None) == Carried(value)
    ensures Carried(value).None? <==> value.None? || TrimSpace(value.value) == ""
    ensures Carried(value).Some? ==> value.Some? && Carried(value).value == TrimSpace(value.value)
  {
  }

  /** What a run emits is read back by the next run as the larger of the incoming watermark and the largest key. */
  lemma EmittedLevel(value: Option<string>, highest: Option<int64>)
    requires Incoming(value).Ok?
    ensures Incoming(Emitted(value, highest)) == Ok(Higher(Incoming(value).value, highest))
  {
    hide Canonical, ParseInt, TrimSpace;
    if highest.None? {
      if value.Some? {
        TrimmedStays(value.value);
      }
    } else {
      CanonicalRoundTrip(highest.value);
      if Incoming(value).value.Some? {
        CanonicalRoundTrip(Incoming(value).value.value);
      }
    }
  }

  /** An incoming text that does not parse is passed over when a key was written, and passed on when none was. */
  lemma UnreadableIncoming(value: Option<string>, highest: Option<int64>)
    requires Incoming(value).Err?
    ensures highest.Some? ==> Emitted(value, highest) == Some(Canonical(highest.value))
    ensures highest.None? ==> value.Some? && Emitted(value, highest) == Some(TrimSpace(value.value))
  {
  }

  /** An offset watermark resumes at the records read so far, as long as the sum is a machine integer. */
  lemma OffsetCarries(start: int64, totalRead: int64)
    requires start + totalRead < 0x8000_0000_0000_0000 && start >= 0 && totalRead >= 0
    ensures ParseWatermarkValue(Canonical(ToInt64(start + totalRead))) == Ok(start + totalRead)
  {
    CanonicalRoundTrip(start + totalRead);
    ExactWhenItFits(start + totalRead);
  }

  // ---------------------------------------------------------------- sequences of runs

  datatype Row = Row(id: nat, key: Option<int64>)

  /** The predicate of the query: no watermark reads everything; `key > watermark` is never true of a null key. */
  predicate Reads(level: Option<int64>, r: Row) {
    level.Some? ==> r.key.Some? && r.key.value > level.value
  }

  /** One run: the table it found and the rows it wrote, the others being dead letters. */
  datatype IncrementalRun = IncrementalRun(table: set<Row>, written: seq<Row>)

  function Keys(rows: seq<Row>): (keys: seq<Option<int64>>)
    ensures |keys| == |rows| && forall i :: 0 <= i < |rows| ==> keys[i] == rows[i].key
  {
    seq(|rows|, i requires 0 <= i < |rows| => rows[i].key)
  }

  predicate Legal(value: Option<string>, run: IncrementalRun) {
    && Incoming(value).Ok?
    && forall r :: r in run.written ==> r in run.table && Reads(Incoming(value).value, r)
  }

  /** The watermark text with which the run number i starts. */
  function TextAt(initial: Option<string>, runs: seq<IncrementalRun>, i: nat): Option<string>
    requires i <= |runs|
  {
    if i == 0 then initial
    else Emitted(TextAt(initial, runs, i - 1), HighestOf(Keys(runs[i - 1].written)))
  }

  /** Every run wrote only rows that its watermark let it read. Later tables may hold any rows at all. */
  ghost predicate History(initial: Option<string>, runs: seq<IncrementalRun>) {
    Incoming(initial).Ok? && forall i :: 0 <= i < |runs| ==> Legal(TextAt(initial, runs, i), runs[i])
  }

  function LevelAt(initial: Option<string>, runs: seq<IncrementalRun>, i: nat): Option<int64>
    requires i <= |runs| && Incoming(TextAt(initial, runs, i)).Ok?
  {
    Incoming(TextAt(initial, runs, i)).value
  }

  function WrittenBefore(runs: seq<IncrementalRun>, i: nat): seq<Row>
    requires i <= |runs|
  {
    if i == 0 then [] else WrittenBefore(runs, i - 1) + runs[i - 1].written
  }

  lemma SingleHighest(a: Option<int64>)
    ensures IsHighest(a, [a])
  {
  }

  lemma HigherOfHighest(a: Option<int64>, xs: seq<Option<int64>>, b: Option<int64>, ys: seq<Option<int64>>)
    requires IsHighest(a, xs) && IsHighest(b, ys)
    ensures IsHighest(Higher(a, b), xs + ys)
  {
  }

  /**
   Every watermark along the way parses, and is the maximum of the initial one and of all the keys
   written so far: nothing else enters it and nothing written is forgotten.
   */
  lemma {:induction false} LevelIsHighestWritten(initial: Option<string>, runs: seq<IncrementalRun>, i: nat)
    requires History(initial, runs) && i <= |runs|
    ensures Incoming(TextAt(initial, runs, i)).Ok?
    ensures IsHighest(LevelAt(initial, runs, i), [Incoming(initial).value] + Keys(WrittenBefore(runs, i)))
  {
    hide Emitted, Incoming, IsHighest, HighestOf, Higher, Keys, Legal;
    var start := [Incoming(initial).value];
    if i == 0 {
      SingleHighest(start[0]);
      assert start + Keys([]) == start;
    } else {
      LevelIsHighestWritten(initial, runs, i - 1);
      var rows := WrittenBefore(runs, i - 1);
      var before, keys := Keys(rows), Keys(runs[i - 1].written);
      EmittedLevel(TextAt(initial, runs, i - 1), HighestOf(keys));
      HighestIsHighest(keys);
      HigherOfHighest(LevelAt(initial, runs, i - 1), start + before, HighestOf(keys), keys);
      KeysConcat(rows, runs[i - 1].written);
      assert start + before + keys == start + (before + keys);
    }
  }

  lemma KeysConcat(a: seq<Row>, b: seq<Row>)
    ensures Keys(a + b) == Keys(a) + Keys(b)
  {
  }

  lemma HighestIsHighest(cells: seq<Option<int64>>)
    ensures IsHighest(HighestOf(cells), cells)
  {
  }

  lemma {:induction false} WrittenBeforeHolds(runs: seq<IncrementalRun>, i: nat, r: Row)
    requires i <= |runs|
    ensures r in WrittenBefore(runs, i) <==> exists j :: 0 <= j < i && r in runs[j].written
  {
    if i > 0 {
      WrittenBeforeHolds(runs, i - 1, r);
    }
  }

  /** The watermark never decreases, and is at least every key written before. */
  lemma WatermarkNeverDecreases(initial: Option<string>, runs: seq<IncrementalRun>, i: nat, j: nat)
    requires History(initial, runs) && i <= j <= |runs|
    ensures Incoming(TextAt(initial, runs, i)).Ok? && Incoming(TextAt(initial, runs, j)).Ok?
    ensures AtLeast(LevelAt(initial, runs, j), LevelAt(initial, runs, i))
    ensures i < j ==> forall r :: r in runs[i].written ==> AtLeast(LevelAt(initial, runs, j), r.key)
  {
    hide Emitted, Incoming, HighestOf, TextAt;
    LevelIsAttained(initial, runs, i);
    KeysBelowLevel(initial, runs, j);
    var level := LevelAt(initial, runs, i);
    if level.Some? && level != Incoming(initial).value {
      var r :| r in WrittenBefore(runs, i) && r.key == level;
      WrittenBeforeHolds(runs, i, r);
      WrittenBeforeHolds(runs, j, r);
    }
    if i < j {
      forall r | r in runs[i].written ensures AtLeast(LevelAt(initial, runs, j), r.key) {
        WrittenBeforeHolds(runs, j, r);
      }
    }
  }

  /** The watermark of run i is at least the initial one and every key written before. */
  lemma KeysBelowLevel(initial: Option<string>, runs: seq<IncrementalRun>, i: nat)
    requires History(initial, runs) && i <= |runs|
    ensures Incoming(TextAt(initial, runs, i)).Ok?
    ensures AtLeast(LevelAt(initial, runs, i), Incoming(initial).value)
    ensures forall r :: r in WrittenBefore(runs, i) ==> AtLeast(LevelAt(initial, runs, i), r.key)
  {
    hide Emitted, Incoming, TextAt, WrittenBefore;
    LevelIsHighestWritten(initial, runs, i);
    var rows := WrittenBefore(runs, i);
    var cells := [Incoming(initial).value] + Keys(rows);
    assert cells[0] == Incoming(initial).value;
    forall r | r in rows ensures AtLeast(LevelAt(initial, runs, i), r.key) {
      var k :| 0 <= k < |rows| && rows[k] == r;
      assert cells[k + 1] == r.key;
    }
  }

  /** It is one of them. */
  lemma LevelIsAttained(initial: Option<string>, runs: seq<IncrementalRun>, i: nat)
    requires History(initial, runs) && i <= |runs|
    ensures Incoming(TextAt(initial, runs, i)).Ok?
    ensures var level := LevelAt(initial, runs, i);
            || level.None? || level == Incoming(initial).value
            || exists r :: r in WrittenBefore(runs, i) && r.key == level
  {
    hide Emitted, Incoming, TextAt, WrittenBefore;
    LevelIsHighestWritten(initial, runs, i);
    var level, rows := LevelAt(initial, runs, i), WrittenBefore(runs, i);
    var cells := [Incoming(initial).value] + Keys(rows);
    if level.Some? {
      var k :| 0 <= k < |cells| && cells[k] == level;
      assert k > 0 ==> rows[k - 1] in rows && rows[k - 1].key == level;
    }
  }

  /** Exactly which rows run i can still read: those with a key above the initial watermark and every key written. */
  lemma ReadIff(initial: Option<string>, runs: seq<IncrementalRun>, i: nat, r: Row)
    requires History(initial, runs) && i <= |runs| && r.key.Some?
    ensures Incoming(TextAt(initial, runs, i)).Ok?
    ensures Reads(LevelAt(initial, runs, i), r)
       <==> && Reads(Incoming(initial).value, r)
            && forall x :: x in WrittenBefore(runs, i) && x.key.Some? ==> x.key.value < r.key.value
  {
    hide Emitted, Incoming, TextAt;
    KeysBelowLevel(initial, runs, i);
    LevelIsAttained(initial, runs, i);
  }

  /** No row with a key is read again after it was written, so it is written by one run only. */
  lemma WrittenByOneRun(initial: Option<string>, runs: seq<IncrementalRun>, i: nat, j: nat, r: Row)
    requires History(initial, runs) && i < j <= |runs| && r in runs[i].written && r.key.Some?
    ensures Incoming(TextAt(initial, runs, j)).Ok? && !Reads(LevelAt(initial, runs, j), r)
    ensures j < |runs| ==> r !in runs[j].written
  {
    hide Emitted, Incoming, TextAt;
    WatermarkNeverDecreases(initial, runs, i, j);
  }

  /** A row with a null key is read again by a later run exactly while no watermark was given and no key was written. */
  lemma NullKeyReadAgainIff(initial: Option<string>, runs: seq<IncrementalRun>, i: nat, r: Row)
    requires History(initial, runs) && i <= |runs| && r.key.None?
    ensures Incoming(TextAt(initial, runs, i)).Ok?
    ensures Reads(LevelAt(initial, runs, i), r)
       <==> Incoming(initial).value.None? && forall x :: x in WrittenBefore(runs, i) ==> x.key.None?
  {
    hide Emitted, Incoming, TextAt;
    KeysBelowLevel(initial, runs, i);
    LevelIsAttained(initial, runs, i);
  }
}
