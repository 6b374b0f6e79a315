/**
 The binary coders of dead letters and of pipeline metrics. Counter maps are written in the
 byte order of their keys, so that the bytes depend on the metrics alone and not on the order
 in which a map happens to be enumerated.
 */
module MetricsCoder {
  import opened Basics
  import opened Bits
  import opened Wire
  import opened ByteOrder

  // ---------------------------------------------------------------- dead letters

  datatype DeadLetter = DeadLetter(
    rawPayload: bytes, errorMessage: bytes, failedColumn: bytes, sourceFile: bytes, failedAtNanos: int64)

  predicate DeadLetterEncodable(d: DeadLetter) {
    && |d.rawPayload| <= MAX_INT64 && |d.errorMessage| <= MAX_INT64
    && |d.failedColumn| <= MAX_INT64 && |d.sourceFile| <= MAX_INT64
  }

  /** The limits of the decoder. */
  predicate DeadLetterFits(d: DeadLetter) {
    && |d.rawPayload| <= MAX_BYTES_LENGTH && |d.errorMessage| <= MAX_BYTES_LENGTH
    && |d.failedColumn| <= MAX_BYTES_LENGTH && |d.sourceFile| <= MAX_BYTES_LENGTH
  }

  function EncodeDeadLetter(d: Option<DeadLetter>): bytes
    requires d.Some? ==> DeadLetterEncodable(d.value)
  {
    match d
    case None => NIL_TOKEN
    case Some(v) =>
      LengthPrefixed(v.rawPayload)
      + (LengthPrefixed(v.errorMessage)
         + (LengthPrefixed(v.failedColumn) + (LengthPrefixed(v.sourceFile) + Varint(v.failedAtNanos))))
  }

  function ParseDeadLetter(s: bytes): Parsed<Option<DeadLetter>> {
    match ParseBytes(s)
    case Err(e) =>
      (if e != NilToken then Err(e)
       else
         match ParseVarint(s)
         case Err(e) => Err(e)
         case Ok(v) => Ok((None, v.1)))
    case Ok(raw) =>
      match ParseBytes(raw.1)
      case Err(e) => Err(e)
      case Ok(msg) =>
        match ParseBytes(msg.1)
        case Err(e) => Err(e)
        case Ok(col) =>
          match ParseBytes(col.1)
          case Err(e) => Err(e)
          case Ok(file) =>
            match ParseVarint(file.1)
            case Err(e) => Err(e)
            case Ok(at) => Ok((Some(DeadLetter(raw.0, msg.0, col.0, file.0, at.0)), at.1))
  }

  lemma DeadLetterRoundTrip(d: Option<DeadLetter>, rest: bytes)
    requires d.Some? ==> DeadLetterEncodable(d.value) && DeadLetterFits(d.value)
    ensures ParseDeadLetter(EncodeDeadLetter(d) + rest) == Ok((d, rest))
  {
    hide ParseBytes, ParseVarint, LengthPrefixed, Varint;
    match d {
      case None =>
        NilTokenParses(rest);
        VarintRoundTrip(-1, rest);
      case Some(v) =>
        var s4 := Varint(v.failedAtNanos) + rest;
        var s3 := LengthPrefixed(v.sourceFile) + s4;
        var s2 := LengthPrefixed(v.failedColumn) + s3;
        var s1 := LengthPrefixed(v.errorMessage) + s2;
        assert EncodeDeadLetter(d) + rest == LengthPrefixed(v.rawPayload) + s1;
        BytesRoundTrip(v.rawPayload, s1);
        BytesRoundTrip(v.errorMessage, s2);
        BytesRoundTrip(v.failedColumn, s3);
        BytesRoundTrip(v.sourceFile, s4);
        VarintRoundTrip(v.failedAtNanos, rest);
    }
  }

  /** What the decoder makes of a byte string of any length. */
  lemma BytesEither(b: bytes, rest: bytes)
    requires |b| <= MAX_INT64
    ensures ParseBytes(LengthPrefixed(b) + rest)
         == if |b| <= MAX_BYTES_LENGTH then Ok((b, rest)) else Err(InvalidLength)
  {
    if |b| <= MAX_BYTES_LENGTH {
      BytesRoundTrip(b, rest);
    } else {
      LongBytesAreRefused(b, rest);
    }
  }

  /** Exactly which dead letters survive: those within the decoder's limits. The others are written and then refused. */
  lemma DeadLetterRoundTripIff(v: DeadLetter, rest: bytes)
    requires DeadLetterEncodable(v)
    ensures var p := ParseDeadLetter(EncodeDeadLetter(Some(v)) + rest);
            && (p == Ok((Some(v), rest)) <==> DeadLetterFits(v))
            && (p.Err? <==> !DeadLetterFits(v))
  {
    hide ParseBytes, ParseVarint, LengthPrefixed, Varint;
    if DeadLetterFits(v) {
      DeadLetterRoundTrip(Some(v), rest);
    } else {
      var s4 := Varint(v.failedAtNanos) + rest;
      var s3 := LengthPrefixed(v.sourceFile) + s4;
      var s2 := LengthPrefixed(v.failedColumn) + s3;
      var s1 := LengthPrefixed(v.errorMessage) + s2;
      assert EncodeDeadLetter(Some(v)) + rest == LengthPrefixed(v.rawPayload) + s1;
      BytesEither(v.rawPayload, s1);
      BytesEither(v.errorMessage, s2);
      BytesEither(v.failedColumn, s3);
      BytesEither(v.sourceFile, s4);
    }
  }

  // ---------------------------------------------------------------- sorted maps

  /** A value coder that reads back what it writes. */
  ghost predicate Inverse<V(!new)>(enc: V -> bytes, parse: bytes -> Parsed<V>) {
    forall v: V, rest: bytes :: parse(enc(v) + rest) == Ok((v, rest))
  }

  ghost predicate MapEncodable<V>(m: map<bytes, V>) {
    (forall k :: k in m ==> |k| <= MAX_INT64) && |m| <= MAX_INT64
  }

  /** The limits of the decoder. */
  ghost predicate MapFits<V>(m: map<bytes, V>) {
    forall k :: k in m ==> |k| <= MAX_BYTES_LENGTH
  }

  function EncodeEntries<V>(m: map<bytes, V>, keys: seq<bytes>, enc: V -> bytes): bytes
    requires forall k :: k in keys ==> k in m && |k| <= MAX_INT64
  {
    if keys == [] then []
    else LengthPrefixed(keys[0]) + (enc(m[keys[0]]) + EncodeEntries(m, keys[1..], enc))
  }

  function ParseEntries<V>(s: bytes, n: int, acc: map<bytes, V>, parse: bytes -> Parsed<V>): Parsed<map<bytes, V>>
    decreases n
  {
    if n <= 0 then Ok((acc, s))
    else
      match ParseBytes(s)
      case Err(e) => Err(e)
      case Ok(k) =>
        match parse(k.1)
        case Err(e) => Err(e)
        case Ok(v) => ParseEntries(v.1, n - 1, acc[k.0 := v.0], parse)
  }

  function ParseMap<V>(s: bytes, parse: bytes -> Parsed<V>): Parsed<map<bytes, V>> {
    match ParseVarint(s)
    case Err(e) => Err(e)
    case Ok(n) => ParseEntries(n.1, n.0, map[], parse)
  }

  lemma InverseAt<V(!new)>(enc: V -> bytes, parse: bytes -> Parsed<V>, v: V, rest: bytes)
    requires Inverse(enc, parse)
    ensures parse(enc(v) + rest) == Ok((v, rest))
  {
  }

  lemma EntriesEnd<V>(s: bytes, acc: map<bytes, V>, parse: bytes -> Parsed<V>)
    ensures ParseEntries(s, 0, acc, parse) == Ok((acc, s))
  {
  }

  lemma OneEntry<V>(s: bytes, n: int, acc: map<bytes, V>, parse: bytes -> Parsed<V>,
                    key: bytes, afterKey: bytes, value: V, afterValue: bytes)
    requires n > 0 && ParseBytes(s) == Ok((key, afterKey)) && parse(afterKey) == Ok((value, afterValue))
    ensures ParseEntries(s, n, acc, parse) == ParseEntries(afterValue, n - 1, acc[key := value], parse)
  {
  }

  lemma {:induction false} EntriesRoundTrip<V(!new)>(
      m: map<bytes, V>, keys: seq<bytes>, enc: V -> bytes, parse: bytes -> Parsed<V>, rest: bytes, acc: map<bytes, V>)
    requires Inverse(enc, parse) && (forall k :: k in keys ==> k in m && |k| <= MAX_BYTES_LENGTH)
    ensures ParseEntries(EncodeEntries(m, keys, enc) + rest, |keys|, acc, parse) == Ok((Overwrite(m, keys, acc), rest))
    decreases |keys|
  {
    hide LengthPrefixed, ParseBytes, Inverse, ParseEntries;
    if keys == [] {
      EntriesEnd(rest, acc, parse);
      assert EncodeEntries(m, keys, enc) + rest == rest;
    } else {
      var k, tail := keys[0], EncodeEntries(m, keys[1..], enc) + rest;
      assert EncodeEntries(m, keys, enc) + rest == LengthPrefixed(k) + (enc(m[k]) + tail);
      BytesRoundTrip(k, enc(m[k]) + tail);
      InverseAt(enc, parse, m[k], tail);
      EntriesRoundTrip(m, keys[1..], enc, parse, rest, acc[k := m[k]]);
      OneEntry(EncodeEntries(m, keys, enc) + rest, |keys|, acc, parse, k, enc(m[k]) + tail, m[k], tail);
    }
  }

  /** The bytes of a map, given one order in which its keys may be met: the order leaves no trace. */
  function EncodeMap<V>(m: map<bytes, V>, order: seq<bytes>, enc: V -> bytes): bytes
    requires MapEncodable(m) && Enumerates(order, m)
  {
    SortedKeysAreUnique(order, order, m);
    Varint(|m|) + EncodeEntries(m, Sort(order), enc)
  }

  lemma MapEncodingIsCanonical<V>(m: map<bytes, V>, a: seq<bytes>, b: seq<bytes>, enc: V -> bytes)
    requires MapEncodable(m) && Enumerates(a, m) && Enumerates(b, m)
    ensures EncodeMap(m, a, enc) == EncodeMap(m, b, enc)
  {
    SortedKeysAreUnique(a, b, m);
  }

  lemma {:induction false} LongEntriesAreRefused<V(!new)>(
      m: map<bytes, V>, keys: seq<bytes>, enc: V -> bytes, parse: bytes -> Parsed<V>, rest: bytes, acc: map<bytes, V>)
    requires Inverse(enc, parse) && (forall k :: k in keys ==> k in m && |k| <= MAX_INT64)
    requires exists k :: k in keys && |k| > MAX_BYTES_LENGTH
    ensures ParseEntries(EncodeEntries(m, keys, enc) + rest, |keys|, acc, parse).Err?
    decreases |keys|
  {
    hide LengthPrefixed, ParseBytes, Inverse, ParseEntries;
    var k, tail := keys[0], EncodeEntries(m, keys[1..], enc) + rest;
    var s := EncodeEntries(m, keys, enc) + rest;
    assert s == LengthPrefixed(k) + (enc(m[k]) + tail);
    BytesEither(k, enc(m[k]) + tail);
    if |k| > MAX_BYTES_LENGTH {
      EntryRefused(s, |keys|, acc, parse);
    } else {
      InverseAt(enc, parse, m[k], tail);
      LongEntriesAreRefused(m, keys[1..], enc, parse, rest, acc[k := m[k]]);
      OneEntry(s, |keys|, acc, parse, k, enc(m[k]) + tail, m[k], tail);
    }
  }

  lemma EntryRefused<V>(s: bytes, n: int, acc: map<bytes, V>, parse: bytes -> Parsed<V>)
    requires n > 0 && ParseBytes(s).Err?
    ensures ParseEntries(s, n, acc, parse).Err?
  {
  }

  /** A map with a key beyond the decoder's limit is written and then refused. */
  lemma LongKeysAreRefused<V(!new)>(
      m: map<bytes, V>, order: seq<bytes>, enc: V -> bytes, parse: bytes -> Parsed<V>, rest: bytes)
    requires MapEncodable(m) && !MapFits(m) && Enumerates(order, m) && Inverse(enc, parse)
    ensures ParseMap(EncodeMap(m, order, enc) + rest, parse).Err?
  {
    hide Varint, ParseVarint, ParseEntries, EncodeEntries, Sort, Overwrite;
    SortedKeysAreUnique(order, order, m);
    var keys := Sort(order);
    EnumerationLength(keys, m);
    var tail := EncodeEntries(m, keys, enc) + rest;
    assert EncodeMap(m, order, enc) + rest == Varint(|m|) + tail;
    VarintRoundTrip(|m|, tail);
    LongEntriesAreRefused(m, keys, enc, parse, rest, map[]);
  }

  lemma MapRoundTrip<V(!new)>(
      m: map<bytes, V>, order: seq<bytes>, enc: V -> bytes, parse: bytes -> Parsed<V>, rest: bytes)
    requires MapEncodable(m) && MapFits(m) && Enumerates(order, m) && Inverse(enc, parse)
    ensures ParseMap(EncodeMap(m, order, enc) + rest, parse) == Ok((m, rest))
  {
    hide Varint, ParseVarint, ParseEntries, EncodeEntries, Sort, Overwrite;
    SortedKeysAreUnique(order, order, m);
    var keys := Sort(order);
    EnumerationLength(keys, m);
    var tail := EncodeEntries(m, keys, enc) + rest;
    assert EncodeMap(m, order, enc) + rest == Varint(|m|) + tail;
    VarintRoundTrip(|m|, tail);
    EntriesRoundTrip(m, keys, enc, parse, rest, map[]);
    OverwriteAll(m, keys);
  }

  lemma EntriesStep<V>(m: map<bytes, V>, keys: seq<bytes>, i: nat, enc: V -> bytes, out: bytes)
    requires i < |keys| && (forall k :: k in keys ==> k in m && |k| <= MAX_INT64)
    ensures out + EncodeEntries(m, keys[i..], enc)
         == out + LengthPrefixed(keys[i]) + enc(m[keys[i]]) + EncodeEntries(m, keys[i + 1..], enc)
  {
    assert keys[i..][1..] == keys[i + 1..];
    var a, b, c := LengthPrefixed(keys[i]), enc(m[keys[i]]), EncodeEntries(m, keys[i + 1..], enc);
    assert out + (a + (b + c)) == out + a + b + c;
  }

  method WriteSortedMap<V>(w: Sink, m: map<bytes, V>, order: seq<bytes>, enc: V -> bytes)
    requires MapEncodable(m) && Enumerates(order, m)
    modifies w
    ensures w.out == old(w.out) + EncodeMap(m, order, enc)
  {
    hide LengthPrefixed, Varint, Sort, EncodeEntries;
    WriteVarint(w, |m|);
    SortedKeysAreUnique(order, order, m);
    var keys := Sort(order);
    ghost var head := w.out;
    assert keys[0..] == keys;
    for i := 0 to |keys|
      invariant w.out + EncodeEntries(m, keys[i..], enc) == head + EncodeEntries(m, keys, enc)
    {
      EntriesStep(m, keys, i, enc, w.out);
      WriteBytes(w, keys[i]);
      w.Write(enc(m[keys[i]]));
    }
    NoEntries(m, keys[|keys|..], enc);
    assert w.out + [] == w.out;
    assert head + EncodeEntries(m, keys, enc) == old(w.out) + (Varint(|m|) + EncodeEntries(m, keys, enc));
  }

  lemma NoEntries<V>(m: map<bytes, V>, keys: seq<bytes>, enc: V -> bytes)
    requires keys == []
    ensures EncodeEntries(m, keys, enc) == []
  {
  }

  // ---------------------------------------------------------------- pipeline metrics

  datatype OriginMetric = OriginMetric(totalRead: int64, valid: int64, dlq: int64)

  datatype PipelineMetrics = PipelineMetrics(
    pipelineID: bytes, runID: bytes,
    totalRecordsRead: int64, rowCount: int64, rowsWritten: int64, deadLetterCount: int64,
    bytesWritten: int64, filesWritten: int64, apiCallsMade: int64, executionDurationMs: int64,
    checksum: bytes,
    columnNullCounts: map<bytes, int64>, invalidValueCounts: map<bytes, int64>,
    originMetrics: map<bytes, OriginMetric>)

  /** One order of the keys for each of the three maps. */
  datatype Orders = Orders(nulls: seq<bytes>, invalid: seq<bytes>, origins: seq<bytes>)

  ghost predicate MetricsEncodable(m: PipelineMetrics, o: Orders) {
    && |m.pipelineID| <= MAX_INT64 && |m.runID| <= MAX_INT64 && |m.checksum| <= MAX_INT64
    && MapEncodable(m.columnNullCounts) && MapEncodable(m.invalidValueCounts) && MapEncodable(m.originMetrics)
    && Enumerates(o.nulls, m.columnNullCounts) && Enumerates(o.invalid, m.invalidValueCounts)
    && Enumerates(o.origins, m.originMetrics)
  }

  ghost predicate HeadFits(m: PipelineMetrics) {
    |m.pipelineID| <= MAX_BYTES_LENGTH && |m.runID| <= MAX_BYTES_LENGTH && |m.checksum| <= MAX_BYTES_LENGTH
  }

  ghost predicate MapsFit(m: PipelineMetrics) {
    MapFits(m.columnNullCounts) && MapFits(m.invalidValueCounts) && MapFits(m.originMetrics)
  }

  /** The limits of the decoder. */
  ghost predicate MetricsFit(m: PipelineMetrics) {
    HeadFits(m) && MapsFit(m)
  }

  function EncodeCount(v: int64): bytes {
    Varint(v)
  }

  function ParseCount(s: bytes): Parsed<int64> {
    ParseVarint(s)
  }

  function EncodeOrigin(v: OriginMetric): bytes {
    Varint(v.totalRead) + (Varint(v.valid) + Varint(v.dlq))
  }

  function ParseOrigin(s: bytes): Parsed<OriginMetric> {
    match ParseVarint(s)
    case Err(e) => Err(e)
    case Ok(t) =>
      match ParseVarint(t.1)
      case Err(e) => Err(e)
      case Ok(v) =>
        match ParseVarint(v.1)
        case Err(e) => Err(e)
        case Ok(d) => Ok((OriginMetric(t.0, v.0, d.0), d.1))
  }

  lemma CountersRoundTrip()
    ensures Inverse(EncodeCount, ParseCount) && Inverse(EncodeOrigin, ParseOrigin)
  {
    hide Varint, ParseVarint;
    forall v: int64, rest: bytes ensures ParseCount(EncodeCount(v) + rest) == Ok((v, rest)) {
      VarintRoundTrip(v, rest);
    }
    forall v: OriginMetric, rest: bytes ensures ParseOrigin(EncodeOrigin(v) + rest) == Ok((v, rest)) {
      var tail := Varint(v.valid) + (Varint(v.dlq) + rest);
      assert EncodeOrigin(v) + rest == Varint(v.totalRead) + tail;
      VarintRoundTrip(v.totalRead, tail);
      VarintRoundTrip(v.valid, Varint(v.dlq) + rest);
      VarintRoundTrip(v.dlq, rest);
    }
  }

  function Counters(m: PipelineMetrics): seq<int64> {
    [m.totalRecordsRead, m.rowCount, m.rowsWritten, m.deadLetterCount,
     m.bytesWritten, m.filesWritten, m.apiCallsMade, m.executionDurationMs]
  }

  function EncodeCounters(vs: seq<int64>): bytes {
    if vs == [] then [] else Varint(vs[0]) + EncodeCounters(vs[1..])
  }

  function ParseCounters(s: bytes, n: nat): (p: Parsed<seq<int64>>)
    ensures p.Ok? ==> |p.value.0| == n
  {
    if n == 0 then Ok(([], s))
    else
      match ParseVarint(s)
      case Err(e) => Err(e)
      case Ok(v) =>
        match ParseCounters(v.1, n - 1)
        case Err(e) => Err(e)
        case Ok(vs) => Ok(([v.0] + vs.0, vs.1))
  }

  lemma {:induction false} CounterListRoundTrip(vs: seq<int64>, rest: bytes)
    ensures ParseCounters(EncodeCounters(vs) + rest, |vs|) == Ok((vs, rest))
    decreases |vs|
  {
    hide Varint, ParseVarint;
    if vs == [] {
      assert EncodeCounters(vs) + rest == rest;
    } else {
      var tail := EncodeCounters(vs[1..]) + rest;
      assert EncodeCounters(vs) + rest == Varint(vs[0]) + tail;
      VarintRoundTrip(vs[0], tail);
      CounterListRoundTrip(vs[1..], rest);
      assert [vs[0]] + vs[1..] == vs;
    }
  }

  function EncodeMetrics(m: PipelineMetrics, o: Orders): bytes
    requires MetricsEncodable(m, o)
  {
    LengthPrefixed(m.pipelineID)
    + (LengthPrefixed(m.runID)
       + (EncodeCounters(Counters(m))
          + (LengthPrefixed(m.checksum)
             + (EncodeMap(m.columnNullCounts, o.nulls, EncodeCount)
                + (EncodeMap(m.invalidValueCounts, o.invalid, EncodeCount)
                   + EncodeMap(m.originMetrics, o.origins, EncodeOrigin))))))
  }

  function ParseHead(s: bytes): Parsed<(bytes, bytes, seq<int64>, bytes)> {
    match ParseBytes(s)
    case Err(e) => Err(e)
    case Ok(id) =>
      match ParseBytes(id.1)
      case Err(e) => Err(e)
      case Ok(run) =>
        match ParseCounters(run.1, 8)
        case Err(e) => Err(e)
        case Ok(vals) =>
          match ParseBytes(vals.1)
          case Err(e) => Err(e)
          case Ok(sum) => Ok(((id.0, run.0, vals.0, sum.0), sum.1))
  }

  function ParseMaps(s: bytes): Parsed<(map<bytes, int64>, map<bytes, int64>, map<bytes, OriginMetric>)> {
    match ParseMap(s, ParseCount)
    case Err(e) => Err(e)
    case Ok(nulls) =>
      match ParseMap(nulls.1, ParseCount)
      case Err(e) => Err(e)
      case Ok(invalid) =>
        match ParseMap(invalid.1, ParseOrigin)
        case Err(e) => Err(e)
        case Ok(origins) => Ok(((nulls.0, invalid.0, origins.0), origins.1))
  }

  function ParseMetrics(s: bytes): Parsed<PipelineMetrics> {
    match ParseHead(s)
    case Err(e) => Err(e)
    case Ok(h) =>
      match ParseMaps(h.1)
      case Err(e) => Err(e)
      case Ok(maps) =>
        var v := h.0.2;
        assert |v| == 8;
        Ok((PipelineMetrics(h.0.0, h.0.1, v[0], v[1], v[2], v[3], v[4], v[5], v[6], v[7], h.0.3,
                            maps.0.0, maps.0.1, maps.0.2), maps.1))
  }

  lemma HeadEither(m: PipelineMetrics, o: Orders, rest: bytes)
    requires MetricsEncodable(m, o)
    ensures var p := ParseHead(
              LengthPrefixed(m.pipelineID)
              + (LengthPrefixed(m.runID) + (EncodeCounters(Counters(m)) + (LengthPrefixed(m.checksum) + rest))));
            && (HeadFits(m) ==> p == Ok(((m.pipelineID, m.runID, Counters(m), m.checksum), rest)))
            && (!HeadFits(m) ==> p.Err?)
  {
    hide ParseBytes, ParseVarint, LengthPrefixed, Varint, EncodeCounters, ParseCounters;
    var s2 := LengthPrefixed(m.checksum) + rest;
    var s1 := EncodeCounters(Counters(m)) + s2;
    BytesEither(m.pipelineID, LengthPrefixed(m.runID) + s1);
    BytesEither(m.runID, s1);
    CounterListRoundTrip(Counters(m), s2);
    BytesEither(m.checksum, rest);
  }

  lemma MapEither<V(!new)>(
      m: map<bytes, V>, order: seq<bytes>, enc: V -> bytes, parse: bytes -> Parsed<V>, rest: bytes)
    requires MapEncodable(m) && Enumerates(order, m) && Inverse(enc, parse)
    ensures var p := ParseMap(EncodeMap(m, order, enc) + rest, parse);
            (MapFits(m) ==> p == Ok((m, rest))) && (!MapFits(m) ==> p.Err?)
  {
    if MapFits(m) {
      MapRoundTrip(m, order, enc, parse, rest);
    } else {
      LongKeysAreRefused(m, order, enc, parse, rest);
    }
  }

  lemma MapsEither(m: PipelineMetrics, o: Orders, rest: bytes)
    requires MetricsEncodable(m, o)
    ensures var p := ParseMaps(
              EncodeMap(m.columnNullCounts, o.nulls, EncodeCount)
              + (EncodeMap(m.invalidValueCounts, o.invalid, EncodeCount)
                 + (EncodeMap(m.originMetrics, o.origins, EncodeOrigin) + rest)));
            && (MapsFit(m) ==> p == Ok(((m.columnNullCounts, m.invalidValueCounts, m.originMetrics), rest)))
            && (!MapsFit(m) ==> p.Err?)
  {
    hide ParseMap, EncodeMap, MapFits;
    CountersRoundTrip();
    var s2 := EncodeMap(m.originMetrics, o.origins, EncodeOrigin) + rest;
    var s1 := EncodeMap(m.invalidValueCounts, o.invalid, EncodeCount) + s2;
    MapEither(m.columnNullCounts, o.nulls, EncodeCount, ParseCount, s1);
    MapEither(m.invalidValueCounts, o.invalid, EncodeCount, ParseCount, s2);
    MapEither(m.originMetrics, o.origins, EncodeOrigin, ParseOrigin, rest);
  }

  /**
   Exactly which metrics survive, for any three iteration orders: those within the decoder's
   limits come back in every encoded field, with what followed left; the others are refused.
   */
  lemma MetricsRoundTripIff(m: PipelineMetrics, o: Orders, rest: bytes)
    requires MetricsEncodable(m, o)
    ensures var p := ParseMetrics(EncodeMetrics(m, o) + rest);
            && (p == Ok((m, rest)) <==> MetricsFit(m))
            && (p.Err? <==> !MetricsFit(m))
  {
    hide ParseHead, ParseMaps, EncodeMap, LengthPrefixed, EncodeCounters, HeadFits, MapsFit;
    var maps := EncodeMap(m.columnNullCounts, o.nulls, EncodeCount)
                + (EncodeMap(m.invalidValueCounts, o.invalid, EncodeCount)
                   + (EncodeMap(m.originMetrics, o.origins, EncodeOrigin) + rest));
    assert EncodeMetrics(m, o) + rest
        == LengthPrefixed(m.pipelineID)
           + (LengthPrefixed(m.runID) + (EncodeCounters(Counters(m)) + (LengthPrefixed(m.checksum) + maps)));
    HeadEither(m, o, maps);
    MapsEither(m, o, rest);
  }

  /** Every encoded field of the metrics comes back, for any three iteration orders, and `rest` is left. */
  lemma MetricsRoundTrip(m: PipelineMetrics, o: Orders, rest: bytes)
    requires MetricsEncodable(m, o) && MetricsFit(m)
    ensures ParseMetrics(EncodeMetrics(m, o) + rest) == Ok((m, rest))
  {
    MetricsRoundTripIff(m, o, rest);
  }

  // ---------------------------------------------------------------- in figures

  lemma ShortText(b: byte)
    ensures LengthPrefixed([b]) == [2, b]
  {
    assert Varint(1) == [2];
  }

  lemma DeadLetterInFigures()
    ensures EncodeDeadLetter(Some(DeadLetter([1], [2], [3], [4], 5))) == [2, 1, 2, 2, 2, 3, 2, 4, 10]
    ensures EncodeDeadLetter(None) == [1]
  {
    hide LengthPrefixed;
    ShortText(1);
    ShortText(2);
    ShortText(3);
    ShortText(4);
    assert Varint(5) == [10];
  }

  lemma OriginInFigures()
    ensures EncodeOrigin(OriginMetric(1, 2, 3)) == [2, 4, 6]
  {
    assert Varint(1) == [2] && Varint(2) == [4] && Varint(3) == [6];
  }

  lemma CountersInFigures(m: PipelineMetrics)
    requires m.totalRecordsRead == 1 && m.rowCount == 2 && m.rowsWritten == 3 && m.deadLetterCount == 4
    requires m.bytesWritten == 5 && m.filesWritten == 6 && m.apiCallsMade == 7 && m.executionDurationMs == 8
    ensures EncodeCounters(Counters(m)) == [2, 4, 6, 8, 10, 12, 14, 16]
  {
    hide Varint, EncodeCounters;
    SmallCounters();
    FirstCounter(1, [2, 3, 4, 5, 6, 7, 8]);
    FirstCounter(2, [3, 4, 5, 6, 7, 8]);
    FirstCounter(3, [4, 5, 6, 7, 8]);
    FirstCounter(4, [5, 6, 7, 8]);
    FirstCounter(5, [6, 7, 8]);
    FirstCounter(6, [7, 8]);
    FirstCounter(7, [8]);
    FirstCounter(8, []);
    NoCounters();
    assert [8] + [] == [8] && [7] + [8] == [7, 8] && [6] + [7, 8] == [6, 7, 8] && [5] + [6, 7, 8] == [5, 6, 7, 8];
    assert [4] + [5, 6, 7, 8] == [4, 5, 6, 7, 8] && [3] + [4, 5, 6, 7, 8] == [3, 4, 5, 6, 7, 8];
    assert [2] + [3, 4, 5, 6, 7, 8] == [2, 3, 4, 5, 6, 7, 8];
    assert Counters(m) == [1] + [2, 3, 4, 5, 6, 7, 8];
    assert EncodeCounters([6, 7, 8]) == [12, 14, 16];
    assert EncodeCounters([3, 4, 5, 6, 7, 8]) == [6, 8, 10, 12, 14, 16];
  }

  lemma SmallCounters()
    ensures Varint(1) == [2] && Varint(2) == [4] && Varint(3) == [6] && Varint(4) == [8]
    ensures Varint(5) == [10] && Varint(6) == [12] && Varint(7) == [14] && Varint(8) == [16]
  {
  }

  lemma FirstCounter(v: int64, more: seq<int64>)
    ensures EncodeCounters([v] + more) == Varint(v) + EncodeCounters(more)
  {
    assert ([v] + more)[1..] == more;
  }

  lemma NoCounters()
    ensures EncodeCounters([]) == []
  {
  }
}
