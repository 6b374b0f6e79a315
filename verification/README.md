# Verified model of the ingestion engine

This project models the parts of the Beam ingestion engine that cut work up, encode it and count
it, and proves what they promise. Code that changes objects step by step is modelled by classes
and methods with loops; each such method is proved against a specification function, and the
properties are lemmas about those functions and about whole runs.

| module | what it models |
|---|---|
| RangeTrackers | the three restriction trackers and trees of dynamic splits |
| RecordScanner, RecordGrammar | the two quote-aware record scanners, and the grammar of records (rules 6 and 7 of section 2 of RFC 4180, with backslash escapes) |
| ByteStream, Delivery | splittable reading of a byte stream, one worker and all workers |
| Bits, Wire, ByteOrder, Records | machine words, varints ("Base 128 Varints" and "Signed Integers" in the Protocol Buffers encoding guide), sorted keys, records |
| RecordCoder, MetricsCoder | binary coders of records, dead letters and metrics |
| RecordBatches, RecordBatchCoder | the columnar batch, its iterator and its binary coder |
| Decimal | the fixed-point decimal parser and printer |
| SqlSlices, MongoRanges | partitioning of SQL tables and MongoDB collections |
| Routing, Metrics | casting and routing of records, two-stage metric combining |
| ParquetRows | the row mapper against the direct row encoder |
| TokenBuckets, CircuitBreakers, PrefetchReaders | the rate limiter, the breaker and the prefetching reader under interleaving |
| Watermarks, PageWindows | incremental watermarks and page windows over sequences of runs |

`dafny verify dfyconfig.toml` checks everything.

## Where the code differs from its documentation

The model follows the code. Each of these points is stated by a lemma, with the exact condition where the documented property fails.

- A record that begins exactly on a cut is read by nobody: the worker on the right discards it as a
  partial line and the one on the left stops before it. docs/architecture-adapters-and-sinks.md:123
  promises no omissions. `Delivery.ExactlyOnceIff` gives the exact condition and
  `Delivery.RecordOnACutIsLost` a stream.
- In single-line mode SyncToNextRecordBoundary returns the first boundary strictly after the offset,
  although internal/beam/streams/byte_offset_tracker.go:145 says at or after. `RecordScanner.AtOrAfterIff`
  says when the two are the same.
- In multiline mode a cut inside quotes can put a worker out of step (`RecordScanner.CleanCharacterised`,
  `Delivery.DeliveryIff`), and a quote byte that is the newline makes the two scanners disagree
  (`RecordScanner.QuoteIff`).
- The breaker counts failures since it last closed, not consecutive ones as
  internal/domain/defaults.go:33 has it. `CircuitBreakers.OpensIff` says when it opens and
  `CircuitBreakers.OpensByConsecutiveIff` when that is the documented rule. Its half-open limit does
  not bound trial requests, as the configuration table of the documentation has it
  (`CircuitBreakers.ProbesAreNotLimited`); `CircuitBreakers.TrialsWithinLimitIff` says when it does, and
  `CircuitBreakers.OneTrialAtATime` that callers who do not overlap keep it.
- ObjectID bounds are truncated to 32 bits. When the number of partitions pushes a bound past the last
  second, ids are read twice (`MongoRanges.OverflowDuplicates`); `MongoRanges.MatchedOnceIff` is exact.
  Without overflow the id equal to the first interior bound is still matched by two slices.
- With two or more SQL slices, a row inserted below the first lower bound after discovery is read by
  no slice (`SqlSlices.CompleteIff`).
- An int64 value in a decimal field is taken over with scale 0 (`Routing.DecimalScaleIff`), and a second
  cast then changes it (`Routing.CastIsIdempotent`).
- The direct Parquet encoder writes the source file into any column of that name, the row mapper only
  when asked to. With a field named _source_file and the flag off they disagree
  (`ParquetRows.SourceFieldExample`), as they do on fields of one name. `ParquetRows.EncodersAgreeIff` is exact.
- A record with fewer values than the schema has fields leaves cells of the previous row in the
  reused Parquet buffer (`ParquetRows.IndependentIff`); the row mapper leaves those columns null.
- Without a probed total a first run in offset mode asks for the configured initial page, so with a
  positive one it can pass over records and emit an offset that does not fit what it read
  (`PageWindows.RunsReadOnceIff`).
- The encoders of records, dead letters and metrics write what their decoders refuse
  (`RecordCoder.RoundTripIff`, `MetricsCoder.DeadLetterRoundTripIff`, `MetricsCoder.MetricsRoundTripIff`), and
  the batch encoder cuts lengths that do not fit their width (`RecordBatchCoder.BatchRoundTripIff`).
- A row with a null key is written again by every run until some key is written (`Watermarks.NullKeyReadAgainIff`).

## Parameters

Clock readings, the order in which a map is enumerated, the integer to which a split fraction is
rounded, the content of pooled buffers, the choice of a select with several ready cases, the column
numbering of the Parquet library and the conversions of the standard library are parameters, so the
results hold for all of them. A database, a collection or an API is the rows it holds, filtered by
the predicate that the code builds. Reading a stream is reading a fixed byte sequence.

## Model

| member | source | states |
|---|---|---|
| RangeTrackers.ByteOffsetTracker.ClaimOffset | internal/beam/streams/byte_offset_tracker.go:41-55 | a claim succeeds exactly on an unstopped tracker for a position inside the range and past the last claim; any refusal stops the tracker |
| RangeTrackers.ByteOffsetTracker.TryClaim | internal/beam/streams/byte_offset_tracker.go:58-73 | both integer types claim alike; any other type records an error and stops the tracker |
| RangeTrackers.ByteOffsetTracker.TrySplit | internal/beam/streams/byte_offset_tracker.go:76-103 | a split cuts the range in two at one point and keeps the left part; a refused split changes nothing |
| RangeTrackers.ByteOffsetTracker.GetProgress | internal/beam/streams/byte_offset_tracker.go:113-122 | the two numbers of the progress report |
| RangeTrackers.ByteOffsetTracker.MarkDone | internal/beam/streams/byte_offset_tracker.go:132-136 | stops the tracker and changes nothing else |
| RangeTrackers.ByteOffsetTracker.IsDone | internal/beam/streams/byte_offset_tracker.go:139-143 | stopped, or the last position claimed |
| RangeTrackers.IndexRangeTracker.TryClaim | internal/beam/partitions/partition_tracker.go:40-66 | the index trackers claim by the same rule, but record no error once stopped |
| RangeTrackers.IndexRangeTracker.TrySplit | internal/beam/paged_api/page_tracker.go:69-87 | the index trackers split by the same rule |
| RangeTrackers.IndexRangeTracker.IsDone | internal/beam/partitions/partition_tracker.go:123-127 | stopped, or the last index claimed |
| RangeTrackers.SplitPointIsSafe | internal/beam/streams/byte_offset_tracker.go:76-103 | whatever integer the rounding gives, an accepted split leaves every claim in the primary and both parts non-empty |
| RangeTrackers.SplitAcceptedIff | internal/beam/streams/byte_offset_tracker.go:76-103 | a split is accepted if and only if the tracker is at work, the fraction is proper and the rounded part is neither nothing nor everything |
| RangeTrackers.SplitIsFair | internal/beam/streams/byte_offset_tracker.go:94-97 | rounded to the nearest, the residual gets its share of the work to within one half |
| RangeTrackers.ClaimsEnd | internal/beam/streams/byte_offset_tracker.go:41-73 | an accepted claim is remembered; after a refused one, for its position or its type, none is accepted any more |
| RangeTrackers.DoneIff | internal/beam/streams/byte_offset_tracker.go:139-143 | a tracker is done if and only if no further claim can succeed |
| RangeTrackers.ProgressAddsUp | internal/beam/streams/byte_offset_tracker.go:113-122 | done plus remaining is the length of the range, neither is negative, and remaining is zero exactly when the last position is claimed |
| RangeTrackers.TilingCovers | internal/beam/streams/byte_stream_sdf.go:96-119 | in a tiling every position of the range has exactly one owner |
| RangeTrackers.SplitTreeSafety | internal/beam/streams/byte_offset_tracker.go:41-143 | over any claims, splits and stops on all descendants of one restriction, for all three trackers: ranges stay adjacent and cover the original exactly, claimed stays below the end, no position is claimed twice anywhere, claims inside one range increase |
| RangeTrackers.DoneStep | internal/beam/paged_api/page_tracker.go:40-127 | one step anywhere leaves a done tracker done, with its restriction and last claim |
| RangeTrackers.DoneIsForever | internal/beam/streams/byte_offset_tracker.go:139-143 | IsDone never becomes false again through any later run |
| RecordScanner.ReadRecordBytes | internal/beam/streams/byte_stream_sdf.go:274-312 | the reader returns the bytes up to the end that the line-wise scan finds, and whether it ran out of data, for every quote byte |
| RecordScanner.ScanQuotes | internal/beam/streams/byte_stream_sdf.go:292-304 | the loop over one line leaves the quote parity of that line |
| RecordScanner.ReaderFollowsAutomaton | internal/beam/streams/byte_stream_sdf.go:274-312 | for every quote byte but newline the line-wise reader finds the same record end, from any position, as the byte automaton |
| RecordScanner.LinewiseIsAutomaton | internal/beam/streams/byte_stream_sdf.go:288-311 | the same in the middle of a record, by induction over its lines |
| RecordScanner.NewlineQuoteDisagrees | internal/beam/streams/byte_stream_sdf.go:288-311 | with newline as quote byte the two scanners find different ends |
| RecordScanner.QuoteIff | internal/beam/streams/byte_stream_sdf.go:274-312 | the two scanners agree on all streams and positions if and only if the quote byte is not newline |
| RecordScanner.SyncToNextRecordBoundary | internal/beam/streams/byte_offset_tracker.go:148-190 | multiline: the least boundary of the pass from byte 0 at or after the offset, for every quote byte; single-line: the first one strictly after it; offsets outside the data are returned unchanged |
| RecordScanner.AtOrAfterIff | internal/beam/streams/byte_offset_tracker.go:145-164 | the single-line result is the least boundary at or after the offset if and only if the byte before the offset is not a newline |
| RecordScanner.SyncedOffsetIsRecordStart | internal/beam/streams/byte_offset_tracker.go:166-189 | a boundary of the one-pass scan is the end of data or a record start met by iterating the reader from byte 0 |
| RecordScanner.StartsAreBoundaries | internal/beam/streams/byte_stream_sdf.go:274-312 | iterating the reader from a boundary visits exactly the boundaries of the one-pass automaton that follow it, in order |
| RecordScanner.RecordsConcatenate | internal/beam/streams/byte_stream_sdf.go:274-312 | the records read from any position put end to end are the rest of the stream, for every quote byte |
| RecordScanner.SingleLineClean | internal/beam/streams/byte_stream_sdf.go:181-191 | in single-line mode a worker that skips from any offset gets in step with the records |
| RecordScanner.OutsideIsClean | internal/beam/streams/byte_stream_sdf.go:181-191 | in multiline mode it does from an offset outside quotes and not just after a backslash |
| RecordScanner.CleanCharacterised | internal/beam/streams/byte_stream_sdf.go:181-191 | in multiline mode it does if and only if no newline but the last byte follows, or both scans have the same quote state at the first newline |
| RecordScanner.CutInsideQuotesIsNotClean | internal/beam/streams/byte_stream_sdf.go:181-191 | a concrete stream and cut inside quotes from which the skip lands in the middle of a record |
| RecordGrammar.RecordTextIsRead | internal/beam/streams/byte_stream_sdf.go:274-312 | standing before any text of the record grammar (bare text, and quoted runs with newlines, doubled quotes and quotes after byte 92), whatever follows, the reader stops right behind it, for every quote byte but newline and backslash |
| RecordGrammar.LineIsRead | internal/beam/streams/byte_stream_sdf.go:279-281 | in single-line mode it stops behind the first newline |
| RecordGrammar.StreamIsReadBack | internal/beam/streams/byte_stream_sdf.go:274-312 | a stream that spells record texts one after the other is read as exactly those texts in order |
| RecordGrammar.EscapedQuoteExample | internal/beam/streams/byte_stream_sdf.go:292-304 | a quote after a backslash leaves the quoted run open, so a newline in it ends no record |
| ByteStream.SplitRestriction | internal/beam/streams/byte_stream_sdf.go:96-119 | the chunks are adjacent, cover the restriction exactly, and are non-empty when it is |
| ByteStream.ReadsExtend | internal/beam/streams/byte_stream_sdf.go:208-224 | one more pass of the feed loop reads exactly the next record and nothing else |
| ByteStream.ReadsBeforeIff | internal/beam/streams/byte_stream_sdf.go:208-224 | what is read before a bound is what reading record after record meets before it |
| ByteStream.Interfere | internal/beam/streams/byte_offset_tracker.go:76-103 | splits tried by the runner while a worker runs take back no claim, move no start and only shorten the end |
| ByteStream.ProcessElement | internal/beam/streams/byte_stream_sdf.go:137-232 | whatever splits the runner tries between passes of the loop, and for every quote byte, the worker feeds exactly the records that its reader meets inside the restriction finally left to it, after the skipped partial one, and marks its tracker done |
| Delivery.StepOk | internal/beam/streams/byte_stream_sdf.go:181-232 | every step of the system of workers (begin and skip, claim and read, split, cancel, finish) keeps its invariant, for all cuts and quote bytes |
| Delivery.CanFinish | internal/beam/streams/byte_stream_sdf.go:137-232 | from every reachable state without a cancelled worker the workers' own steps lead to one in which all have finished |
| Delivery.CutsPersist | internal/beam/streams/byte_offset_tracker.go:76-103 | a cut once made stays a cut in every later state |
| Delivery.DeliveredIsWhatIsRead | internal/beam/streams/byte_stream_sdf.go:181-232 | for every tiling, interleaving, quote byte and all cuts: nothing is delivered twice, only what a restriction's reader meets inside it is delivered, and once all have finished all of that is |
| Delivery.DeliveryTheorem | internal/beam/streams/byte_stream_sdf.go:181-232 | when the final cuts leave every worker in step: nothing is delivered twice, only records are delivered, and once all have finished a record is delivered if and only if its start is not the positive start of some restriction |
| Delivery.DeliveryIff | internal/beam/streams/byte_stream_sdf.go:181-232 | a finished run delivers the records that are not on a positive cut, and nothing else, if and only if every worker is in step inside its restriction: its skip ends at the next record, or both lie beyond its end |
| Delivery.OutOfStepShows | internal/beam/streams/byte_stream_sdf.go:181-191 | a worker out of step reads a position that is no record, or misses a record, inside its restriction |
| Delivery.SingleLineDelivery | internal/beam/streams/byte_stream_sdf.go:181-232 | in single-line mode the theorem holds for all cuts |
| Delivery.MultiLineDelivery | internal/beam/streams/byte_stream_sdf.go:181-232 | in multiline mode the theorem holds when every cut is outside quotes and not just after a backslash |
| Delivery.ExactlyOnceIff | internal/beam/streams/byte_stream_sdf.go:181-232 | a finished run delivers exactly the records, each once, if and only if every worker is in step and no positive cut is a record start |
| Delivery.RecordOnACutIsLost | internal/beam/streams/byte_stream_sdf.go:96-119 | two two-byte lines in chunks of two bytes: the second line is delivered by nobody |
| Wire.VarintRoundTrip | internal/beam/core/coders_helpers.go:263-285 | every int64 comes back from its zig-zag varint, and what follows is left |
| Wire.UvarintLength | internal/beam/core/coders_helpers.go:263-268 | a varint takes between one and ten bytes |
| Wire.VarintsInFigures | internal/beam/core/coders_helpers.go:263-285 | the bytes of some varints, the guide's example among them |
| Wire.VarintExtends | internal/beam/core/coders_helpers.go:280-285 | input after a varint changes nothing but what is left |
| Wire.WriteVarint | internal/beam/core/coders_helpers.go:263-268 | appends the varint |
| Wire.ReadVarint | internal/beam/core/coders_helpers.go:280-285 | reads what the parser says, with the same errors, and leaves the rest |
| Wire.BytesRoundTrip | internal/beam/core/coders_helpers.go:296-323 | length-prefixed bytes up to 64 MiB come back, and what follows is left |
| Wire.NilTokenParses | internal/beam/core/coders_helpers.go:304-323 | the nil token is not the beginning of any byte string |
| Wire.LongBytesAreRefused | internal/beam/core/coders_helpers.go:296-323 | longer byte strings are written and then refused by the reader |
| Wire.BytesLimit | internal/beam/core/coders_helpers.go:304-323 | byte strings of up to 67108864 bytes come back and longer ones are refused |
| Wire.NegativeLengths | internal/beam/core/coders_helpers.go:304-314 | a negative length is the nil token or refused |
| Wire.ReadBytes | internal/beam/core/coders_helpers.go:304-323 | reads what the parser says; after a nil token the reader stands just behind its varint |
| RecordCoder.WriteNullMask | internal/beam/core/coders_helpers.go:22-50 | the bytes depend on the null flags alone, whatever the pooled buffer held before |
| RecordCoder.NullMaskBits | internal/beam/core/coders_helpers.go:85-89 | bit i of the mask is the null flag of field i |
| RecordCoder.WriteFieldValue | internal/beam/core/coders_helpers.go:181-209 | appends the storage of the value by its type |
| RecordCoder.ReadFieldValue | internal/beam/core/coders_helpers.go:211-261 | reads what the parser says of the type byte |
| RecordCoder.FieldValueRoundTrip | internal/beam/core/coders_helpers.go:101-261 | a non-null value comes back with the storage of its type; unknown types come back as strings |
| RecordCoder.FieldsRoundTrip | internal/beam/core/coders_helpers.go:66-99 | all fields come back in normal form; nulls come back without their type |
| RecordCoder.AuditRoundTrip | internal/beam/core/coders_helpers.go:147-179 | the audit map comes back whatever order it was enumerated in |
| RecordCoder.EncodeGenericRecord | internal/beam/core/coders.go:16-34 | the method writes the bytes of the record, whatever the pooled buffer held |
| RecordCoder.DecodeGenericRecord | internal/beam/core/coders.go:37-70 | the method returns and leaves what the parser says, on every input including malformed ones |
| RecordCoder.RecordRoundTrip | internal/beam/core/coders.go:16-70 | decoding an encoding followed by anything gives the normal form and leaves exactly what followed; nil gives nil and only nil does |
| RecordCoder.RefusedBeyondLimits | internal/beam/core/coders.go:16-70 | a record with more fields or longer texts than the decoder allows is encoded and then refused, never read as something else |
| RecordCoder.RoundTripIff | internal/beam/core/coders.go:16-70 | an encoded record comes back in normal form if and only if it is within the limits of the decoder |
| RecordCoder.LimitsAre | internal/beam/core/coders.go:54-56 | the limits in figures: 10000 fields and 67108864 bytes |
| RecordCoder.RecordsComeBack | internal/beam/core/coders.go:16-70 | a record of values without nulls that keep to their types' storage comes back as it was |
| RecordCoder.TruncatedIsRefused | internal/beam/core/coders.go:37-70 | no strict prefix of an encoded record decodes to anything |
| RecordCoder.FieldCounts | internal/beam/core/coders.go:44-56 | a field count of -1 means no record, and other negative counts and those beyond the limit are refused |
| RecordCoder.RecordInFigures | internal/beam/core/coders.go:16-34 | the bytes of one whole record |
| RecordCoder.TypesInFigures | internal/beam/core/coders_helpers.go:101-122 | the byte of each type |
| RecordCoder.StorageInFigures | internal/beam/core/coders_helpers.go:181-209 | the bytes of a decimal, a time, a bool and a float |
| RecordCoder.NormalFormIsStable | internal/beam/core/coders.go:37-70 | normalising twice is normalising once, and null flags are kept |
| MetricsCoder.DeadLetterRoundTrip | internal/beam/core/coders.go:73-105 | a dead letter or nil comes back, and what follows is left |
| MetricsCoder.DeadLetterRoundTripIff | internal/beam/core/coders.go:73-105 | a dead letter comes back if and only if its texts are within the limit of the decoder, and is refused otherwise |
| MetricsCoder.DeadLetterInFigures | internal/beam/core/coders.go:73-83 | the bytes of one dead letter |
| MetricsCoder.CountersInFigures | internal/beam/core/coders.go:108-139 | the order of the eight counters |
| MetricsCoder.OriginInFigures | internal/beam/core/coders.go:141-166 | the order of an origin's three counters |
| MetricsCoder.WriteSortedMap | internal/beam/core/coders.go:141-186 | the sorted map writers write the canonical encoding for any enumeration order |
| MetricsCoder.MapEncodingIsCanonical | internal/beam/core/coders.go:141-186 | two enumeration orders of the same map give the same bytes |
| MetricsCoder.MapRoundTrip | internal/beam/core/coders.go:241-291 | a map comes back entry for entry, for every value coder that reads back what it writes |
| MetricsCoder.LongKeysAreRefused | internal/beam/core/coders.go:141-291 | a map with a key beyond the limit of the decoder is written and then refused |
| MetricsCoder.MetricsRoundTrip | internal/beam/core/coders.go:108-239 | every encoded field of the metrics comes back, for any enumeration orders of its three maps |
| MetricsCoder.MetricsRoundTripIff | internal/beam/core/coders.go:108-239 | metrics come back if and only if their texts and keys are within the limit of the decoder, and are refused otherwise |
| RecordBatches.AppendOk | internal/domain/record_batch.go:123-164 | an append adds one schema-normalised valid row at the end, keeps the invariant on unused slots and changes no other row; on a full batch nothing changes |
| RecordBatches.RowsComeBack | internal/domain/record_batch.go:123-164 | a record of the schema's types with room in the batch is read back as it was appended: number, scale, text, nulls and audit map |
| RecordBatches.CapacityAsked | internal/domain/record_batch.go:77-82 | the capacity of a new batch in figures |
| RecordBatches.SetValidOk | internal/domain/record_batch.go:167-178 | setting a flag changes that flag of that row only; out of range nothing changes |
| RecordBatches.BatchRefinesRows | internal/domain/record_batch.go:77-225 | any sequence of appends, flag changes and resets does to the batch what it does to a plain sequence of rows |
| RecordBatches.RecordBatch.AppendRow | internal/domain/record_batch.go:123-164 | succeeds exactly when there is room, and moves the object to the state that the append lemmas describe |
| RecordBatches.RecordBatch.AppendField | internal/domain/record_batch.go:131-154 | one field goes into its own column and no other |
| RecordBatches.RecordBatch.SetRowValid | internal/domain/record_batch.go:167-178 | sets one validity bit |
| RecordBatches.RecordBatch.IsRowValid | internal/domain/record_batch.go:181-188 | true exactly for a row in range whose flag is set |
| RecordBatches.RecordBatch.ValidRowCount | internal/domain/record_batch.go:191-199 | the number of valid rows |
| RecordBatches.RecordBatch.Reset | internal/domain/record_batch.go:202-225 | afterwards the batch is in the state of a new one of its schema and capacity and stands for no rows |
| RecordBatches.RecordBatchIterator.Next | internal/domain/record_batch.go:248-254 | stops at the next valid row and skips none |
| RecordBatches.RecordBatchIterator.Record | internal/domain/record_batch.go:257-295 | the reused record shows the current row, whatever it held before |
| RecordBatches.Drain | internal/domain/record_batch.go:236-295 | a loop over the iterator sees exactly the valid rows in order |
| RecordBatchCoder.Encode | internal/beam/core/record_batch_coder.go:35-129 | the method writes the bytes of the batch, with lengths cut to their width |
| RecordBatchCoder.Decode | internal/beam/core/record_batch_coder.go:142-247 | the method returns a new batch in the state that the parser describes, or its error, on every input |
| RecordBatchCoder.BatchParsesBack | internal/beam/core/record_batch_coder.go:35-247 | an encoded batch parses back to the same contents in the decoder's capacity, and what follows is left |
| RecordBatchCoder.RebuiltSameRows | internal/beam/core/record_batch_coder.go:142-247 | the decoded batch keeps the representation invariant and stands for the same rows |
| RecordBatchCoder.BatchRoundTrip | internal/beam/core/record_batch_coder.go:35-247 | row count, rows, null flags, validity flags and audit maps survive encoding and decoding |
| RecordBatchCoder.BatchRoundTripIff | internal/beam/core/record_batch_coder.go:35-247 | an encoded batch parses back to its contents if and only if its lengths fit the fixed widths of the format |
| RecordBatchCoder.BatchInFigures | internal/beam/core/record_batch_coder.go:35-129 | the bytes of a word, a scale, a text and an audit entry |
| RecordBatchCoder.ParsedFits | internal/beam/core/record_batch_coder.go:142-247 | whatever the decoder accepts is within those widths |
| RecordBatchCoder.RunAfterRoundTrip | internal/beam/core/record_batch_coder.go:142-247 | whatever is done to the decoded batch is what would be done to the encoded rows |
| Decimal.CoerceDecimalFast | internal/domain/coercion.go:66-140 | accepts exactly the well-formed texts (in "fail" mode those with at most `scale` fractional digits), returns the 64-bit word of the number denoted at the target scale, and otherwise the first error of the text |
| Decimal.ClearIff | internal/domain/coercion.go:93-124 | scanning meets no error if and only if the text is well formed and, in "fail" mode, has at most `scale` fractional digits |
| Decimal.RoundByFirstDigit | internal/domain/coercion.go:107-129 | rounding up by the first dropped digit is rounding to nearest |
| Decimal.RescaledIsNearest | internal/domain/coercion.go:66-140 | the scaled magnitude is the nearest integer, ties away from zero |
| Decimal.SignedWord | internal/domain/coercion.go:135-139 | the sign applied in machine words is the sign applied to the number, modulo 2^64 |
| Decimal.ExactWhenItFits | internal/domain/coercion.go:135-139 | the returned word is the number itself if and only if it fits int64 |
| Decimal.FormatDecimal | internal/domain/record.go:130-166 | the loop and the slicing print the digits with the point placed `scale` from the right, for the least int64 too |
| Decimal.PrintParseRoundTrip | internal/domain/record.go:130-166 | parsing a printed mantissa at the same scale, in any mode, gives the mantissa back, for every int64 |
| Decimal.PrintingIsInjective | internal/domain/record.go:130-166 | different mantissas have different texts at one scale |
| Decimal.PrintedShape | internal/domain/record.go:130-166 | the printed text: a minus for negatives only, no leading zeros, exactly `scale` digits after the point, and without its point it spells the magnitude |
| Decimal.Examples | internal/domain/coercion.go:66-140 | 1.25 at one place is 13 tenths, -0.5 at none is -1 |
| SqlSlices.ConstructContiguousSlices | internal/adapters/partitions/sql/range_slicer.go:63-92 | the loop fills one slice per bucket, or the single full slice |
| SqlSlices.SlicesAreContiguous | internal/adapters/partitions/sql/range_slicer.go:63-92 | slices are numbered, marked at both ends, and each begins where the one before it ends |
| SqlSlices.LowersAscend | internal/adapters/partitions/sql/range_slicer.go:20-26 | ranked buckets have non-decreasing lower bounds |
| SqlSlices.SlicesReadTable | internal/adapters/partitions/sql/range_slicer.go:31-92 | with two or more slices the queries read, in key order and each row once, exactly the rows at or above the first lower bound, whatever was inserted since; with fewer they read all |
| SqlSlices.SlicesPartitionTable | internal/adapters/partitions/sql/range_slicer.go:31-92 | every row of the sliced table is read exactly once, ties across bucket edges included, in order |
| SqlSlices.CompleteIff | internal/adapters/partitions/sql/range_slicer.go:28-59 | a table that changed since discovery is read completely if and only if it has no row below the least key seen then |
| MongoRanges.OrderIsNumeric | internal/adapters/partitions/mongo/partitioner.go:47-79 | byte order on ids is numeric order |
| MongoRanges.GenerateSlices | internal/adapters/partitions/mongo/partitioner.go:47-67 | the loop produces the slices between consecutive bounds |
| MongoRanges.CalculateNextBound | internal/adapters/partitions/mongo/partitioner.go:69-79 | the last bound is the greatest id, every other the first id of a 32-bit second |
| MongoRanges.BuildObjectIDRanges | internal/adapters/partitions/mongo/partitioner.go:12-25 | cuts exactly when there are at least two partitions and the seconds differ |
| MongoRanges.BoundsIncrease | internal/adapters/partitions/mongo/partitioner.go:47-79 | interior bounds strictly increase when no bound overflows 32 bits |
| MongoRanges.StepIsWidest | internal/adapters/partitions/mongo/partitioner.go:39-45 | the step is the widest of which all slices together reach at most the last second, and one second when there are more slices than seconds |
| MongoRanges.SlicesAreEven | internal/adapters/partitions/mongo/partitioner.go:47-79 | all slices but the first and the last span the same number of whole seconds |
| MongoRanges.BoundsInside | internal/adapters/partitions/mongo/partitioner.go:47-79 | interior bounds lie above the least id, and below the greatest unless there are more slices than seconds |
| MongoRanges.SlicesAreContiguous | internal/adapters/partitions/mongo/partitioner.go:47-67 | slices are numbered, marked at both ends, reach from the least to the greatest id and leave no gap |
| MongoRanges.MatchedOnce | internal/adapters/partitions/mongo/mongo_source.go:163-183 | without overflow every id is matched by exactly one filter, except the first interior bound, which two filters match |
| MongoRanges.MatchedOnceIff | internal/adapters/partitions/mongo/mongo_source.go:163-183 | that holds for all ids if and only if no bound overflows 32 bits |
| MongoRanges.OverflowDuplicates | internal/adapters/partitions/mongo/partitioner.go:69-79 | on overflow the zero id is matched twice |
| MongoRanges.SingleSliceMatches | internal/adapters/partitions/mongo/partitioner.go:27-37 | a single slice matches exactly the ids up to the greatest one seen |
| Routing.CastConforms | internal/beam/core/cast_and_validate.go:64-252 | a successful cast respects nullability and the field's storage type |
| Routing.TextPassesThrough | internal/beam/core/cast_and_validate.go:232-250 | a text field takes what the value prints as; strings and byte strings keep their bytes |
| Routing.OwnTypePassesThrough | internal/beam/core/cast_and_validate.go:64-230 | a value of the field's own numeric type goes through unchanged |
| Routing.PrintedValueComesBack | internal/beam/core/cast_and_validate.go:64-230 | a number cast from its own text denotes the same number, whenever parsing inverts printing at it |
| Routing.OtherInputs | internal/beam/core/cast_and_validate.go:64-230 | numbers of the other kind are converted; an empty text is null, and one that does not parse fails |
| Routing.MissingIsNull | internal/beam/core/cast_and_validate.go:64-252 | a missing or null value is a null of the field's type, or refused where none is allowed |
| Routing.DecimalScaleIff | internal/beam/core/cast_and_validate.go:64-252 | a non-null decimal output has its field's scale if and only if the input is not an int64 value in a field whose scale is not 0 |
| Routing.CastIsIdempotent | internal/beam/core/cast_and_validate.go:64-252 | casting a cast value changes nothing if and only if the input is not an int64 value in a decimal field whose scale is not 0 |
| Routing.IntegersKeepScaleZero | internal/beam/core/cast_and_validate.go:64-252 | an int64 value in a decimal field becomes the mantissa as it stands, with scale 0 |
| Routing.FirstFailureMeaning | internal/beam/core/fused_enrich_and_validate.go:147-155 | the early exit is at the first field whose cast fails |
| Routing.EmitWarnings | internal/beam/core/fused_enrich_and_validate.go:157-172 | soft rules emit one warning per matching null field and send nothing to the dead letters |
| Routing.WarningsMean | internal/beam/core/fused_enrich_and_validate.go:157-172 | there is a warning for a field if and only if a not-null rule names it and its value is null |
| Routing.ProcessElement | internal/beam/core/fused_enrich_and_validate.go:70-177 | nil emits nothing; any other record goes to exactly one of the two outputs |
| Routing.RoutedOnce | internal/beam/core/fused_enrich_and_validate.go:70-177 | a record is valid if and only if Setup ran and every field casts; a valid output has each field's cast value, conforming to its type and nullability, keeps the schema id and all audit entries but the job and execution ids, and has an ingestion time |
| Routing.AuditOfValid | internal/beam/core/fused_enrich_and_validate.go:95-113 | which audit entries a valid output has, and their values |
| Routing.AuditNames | internal/beam/core/fused_enrich_and_validate.go:102-113 | the names of the audit entries, byte for byte |
| Routing.NothingBeforeSetup | internal/beam/core/fused_enrich_and_validate.go:80-92 | before Setup every record is a dead letter of the column "_setup" |
| Routing.DeadLetterNamesFirstFailure | internal/beam/core/fused_enrich_and_validate.go:124-155 | a dead letter names the first field whose cast fails, its error, and the source file of the record |
| Metrics.OriginCounts | internal/beam/core/metrics_combiner.go:79-110 | for every bundling and merge tree the first stage counts its inputs: total, valid, dead |
| Metrics.TotalsAreSums | internal/beam/core/metrics_combiner.go:132-161 | for every merge tree the totals are the sums of the summaries |
| Metrics.MapKeepsInputs | internal/beam/core/metrics_combiner.go:132-161 | with distinct origins the per-origin map holds exactly the summaries put in |
| Metrics.Conservation | internal/beam/core/graph_builder.go:113-121 | through both stages, for every merge tree: total = items = written + dead letters, and each origin's metric counts its own items |
| Metrics.RepeatedOriginForgets | internal/beam/core/metrics_combiner.go:132-141 | with a repeated origin the map forgets one summary while the totals keep both |
| Metrics.ProcessAll | internal/beam/core/fused_enrich_and_validate.go:70-177 | over a whole collection the outputs are as many as the items that the metrics count, and together as many as the non-nil inputs |
| Metrics.NoRecordUncounted | internal/beam/core/graph_builder.go:53-121 | total = written + dead letters = non-nil inputs, end to end |
| Metrics.Accounts | internal/beam/core/graph_builder.go:53-69 | whose account an outcome is counted on |
| ParquetRows.MapRow | internal/beam/streams/parquet_schema.go:56-125 | the row mapper builds the map of the record |
| ParquetRows.EncodeRow | internal/beam/streams/parquet_schema.go:138-239 | the direct encoder writes into the buffer, or into a new one when that is too short |
| ParquetRows.FieldColumn | internal/beam/streams/parquet_schema.go:138-239 | the column of a field that shares its name with nothing is the physical form of its map entry, null where the map has no key |
| ParquetRows.ValuesAreKept | internal/beam/streams/parquet_schema.go:56-239 | both rows hold the value itself: of a time the whole microseconds, rounded down, a bool exactly when its number is 1, all others their storage, at the column's own level |
| ParquetRows.ReservedTexts | internal/beam/streams/parquet_schema.go:209-236 | the texts of the reserved columns |
| ParquetRows.EncodersAgree | internal/beam/streams/parquet_schema.go:56-239 | for records with a value for every field both encoders agree in every column, whatever the buffer held, and a column is null exactly where the map has no key |
| ParquetRows.EncodersAgreeIff | internal/beam/streams/parquet_schema.go:56-239 | the encoders agree on every full record if and only if no field is named _source_file while the flag is off and no two fields share a name that is not overwritten |
| ParquetRows.SourceFieldOverwritten | internal/beam/streams/parquet_schema.go:206-236 | with the flag off the direct encoder overwrites a field named _source_file, whatever its value, and the map keeps the value |
| ParquetRows.SourceFieldExample | internal/beam/streams/parquet_schema.go:206-236 | a concrete schema and record: "unknown" in the row, the value in the map |
| ParquetRows.RepeatedNameDisagrees | internal/beam/streams/parquet_schema.go:56-239 | two fields of one name: a record of which the encoders make different things |
| ParquetRows.IndependentIff | internal/beam/streams/parquet_schema.go:138-239 | the direct row is independent of the old buffer if and only if every field without a value shares its column with _ingested_at, _source_file or a field that has one |
| ParquetRows.StaleCellShows | internal/beam/streams/parquet_schema.go:138-239 | any other column without a value shows the old cell |
| TokenBuckets.TokenBucket.TryTake | internal/adapters/paged_api/source/token_bucket.go:39-57 | one pass under the lock grants exactly when a full token is there, and otherwise returns how long to sleep |
| TokenBuckets.TokenBucket.Wait | internal/adapters/paged_api/source/token_bucket.go:32-65 | a call makes attempts until the first grant or until it is cancelled, and takes at most one token |
| TokenBuckets.ReachableSane | internal/adapters/paged_api/source/token_bucket.go:32-65 | tokens stay between zero and the capacity in every reachable state |
| TokenBuckets.FlowBound | internal/adapters/paged_api/source/token_bucket.go:32-65 | grants plus tokens left never exceed tokens at the start plus inflow |
| TokenBuckets.RateLimit | internal/adapters/paged_api/source/token_bucket.go:32-65 | from any reachable state at most 1 + rate * d grants in d seconds, whoever calls |
| TokenBuckets.WindowLimit | internal/adapters/paged_api/source/token_bucket.go:32-65 | the same for every window inside a longer run |
| TokenBuckets.GrantsTakeTime | internal/adapters/paged_api/source/token_bucket.go:32-65 | n grants span at least (n - 1) / rate seconds |
| TokenBuckets.SteadyCallersAreServed | internal/adapters/paged_api/source/token_bucket.go:32-65 | the limit is attained: attempts one period apart are all granted |
| TokenBuckets.SleepSuffices | internal/adapters/paged_api/source/token_bucket.go:55-62 | a caller that sleeps the computed time undisturbed is granted at its next attempt |
| TokenBuckets.SleepIsNeeded | internal/adapters/paged_api/source/token_bucket.go:55-62 | a refused caller is granted at its next attempt if and only if it slept at least the computed time |
| TokenBuckets.FirstAttemptIsGranted | internal/adapters/paged_api/source/token_bucket.go:19-29 | a new bucket grants its first attempt at any time, and not a second one at the same moment |
| CircuitBreakers.CircuitBreaker.CheckStateTransition | pkg/resilience/circuit_breaker.go:88-95 | an open breaker becomes half-open exactly when more than the timeout has passed, with both counters cleared |
| CircuitBreakers.CircuitBreaker.Execute | pkg/resilience/circuit_breaker.go:98-130 | one call is its two critical sections, with any events of other calls between them |
| CircuitBreakers.RunSane | pkg/resilience/circuit_breaker.go:88-130 | in every state of every run: closed implies failures below the maximum, half-open implies no failure and fewer successes than the limit |
| CircuitBreakers.HalfOpenHistory | pkg/resilience/circuit_breaker.go:88-130 | a half-open breaker came from open, saw no failure since, and counts exactly the successes since |
| CircuitBreakers.ClosesOnlyAfterProbes | pkg/resilience/circuit_breaker.go:120-129 | closed is entered again only by a success, after exactly halfOpenLimit successes and no failure since the breaker became half-open |
| CircuitBreakers.OpenUntilTimeout | pkg/resilience/circuit_breaker.go:88-130 | after an opening the breaker is open until the clock has passed the timeout |
| CircuitBreakers.NoAdmissionWithinTimeout | pkg/resilience/circuit_breaker.go:98-105 | no call is admitted within the timeout after an opening |
| CircuitBreakers.RefusedIff | pkg/resilience/circuit_breaker.go:88-105 | in any run a call is refused if and only if the breaker was opened, or its opening renewed, not longer ago than the timeout |
| CircuitBreakers.OpenHistory | pkg/resilience/circuit_breaker.go:107-117 | an open breaker bears the stamp of the failed call that opened or last renewed it |
| CircuitBreakers.RenewsIff | pkg/resilience/circuit_breaker.go:111-117 | a call that fails while the breaker is open renews the opening if and only if the failures since the counters were cleared reach the maximum |
| CircuitBreakers.FailedTrialOpens | pkg/resilience/circuit_breaker.go:111-117 | one failed trial opens a half-open breaker |
| CircuitBreakers.FailureCount | pkg/resilience/circuit_breaker.go:88-130 | in every state the failure counter is the 32-bit count of the failures since the counters were cleared |
| CircuitBreakers.SettingsInForce | pkg/resilience/circuit_breaker.go:57-78 | given settings are kept and zero ones replaced by 1, 1 and one second |
| CircuitBreakers.OpeningStamps | pkg/resilience/circuit_breaker.go:111-117 | every opening stamps the clock |
| CircuitBreakers.ProbesAreNotLimited | pkg/resilience/circuit_breaker.go:98-105 | a half-open breaker admits every call that arrives before one ends, whatever the limit |
| CircuitBreakers.PeriodAdmits | pkg/resilience/circuit_breaker.go:98-130 | a half-open period admits every call that arrives in it, and each admitted call is still in flight or has succeeded, as earlier calls may too |
| CircuitBreakers.TrialsWithinLimitIff | pkg/resilience/circuit_breaker.go:98-130 | the limit bounds the trials of a half-open period if and only if no more calls arrive in it, that is, if and only if the calls in flight beyond those at its beginning and the successes together stay within the limit |
| CircuitBreakers.OneTrialAtATime | pkg/resilience/circuit_breaker.go:98-130 | with at most one trial in flight beyond those at its beginning, a half-open period admits at most the limit |
| CircuitBreakers.ClosedHistory | pkg/resilience/circuit_breaker.go:107-129 | in a closed state the counter is the number of calls that failed since the breaker last closed |
| CircuitBreakers.OpensIff | pkg/resilience/circuit_breaker.go:107-117 | a closed breaker opens at an event if and only if it is the end of a failed call that brings the failures since it last closed to the maximum |
| CircuitBreakers.OpensByConsecutiveIff | pkg/resilience/circuit_breaker.go:107-129 | an opening is by the maximum of consecutive failures if and only if no call succeeded after a failed one since the breaker last closed |
| CircuitBreakers.ConsecutiveFailuresOpen | pkg/resilience/circuit_breaker.go:107-117 | that many consecutive failures always open a closed breaker |
| CircuitBreakers.SuccessForgivesNothing | pkg/resilience/circuit_breaker.go:107-129 | a run with a success between two failures that opens a breaker of two |
| PrefetchReaders.PrefetchReader.PrefetchOnce | pkg/ioutils/prefetch_reader.go:56-73 | one pass of the producer: the chunk read becomes the next to send, an error ends the loop after it |
| PrefetchReaders.PrefetchReader.SendChunk | pkg/ioutils/prefetch_reader.go:75-82 | a chunk is queued, or dropped with the loop ended once closed |
| PrefetchReaders.PrefetchReader.Read | pkg/ioutils/prefetch_reader.go:85-100 | what one call returns, from the current chunk or the queue |
| PrefetchReaders.PrefetchReader.ReadNextChunk | pkg/ioutils/prefetch_reader.go:102-118 | takes the next chunk off the queue, or its error, or EOF at the end of the channel |
| PrefetchReaders.StepInv | pkg/ioutils/prefetch_reader.go:56-127 | every step of producer, consumer and close keeps: delivered bytes followed by all that is under way are the stream's bytes, unless closed |
| PrefetchReaders.PrefetchIsTransparent | pkg/ioutils/prefetch_reader.go:56-127 | in every interleaving delivered bytes are a prefix of the stream and the queue keeps its bound; without a close, an error or EOF is the stream's own and comes only after its last byte |
| PrefetchReaders.NeverStuck | pkg/ioutils/prefetch_reader.go:56-118 | without a close, a read of an ending stream can return or the producer can move |
| PrefetchReaders.EverythingArrives | pkg/ioutils/prefetch_reader.go:56-118 | without a close, every schedule of producer and consumer has boundedly many moves, and when none is left the consumer has every byte and reads the stream's own ending |
| PrefetchReaders.FailureIsSticky | pkg/ioutils/prefetch_reader.go:85-118 | once a failure was returned every later read returns it again |
| PrefetchReaders.ReadFills | pkg/ioutils/prefetch_reader.go:85-118 | a read fills what it was given from one chunk, stops short only at the chunk's end, and returns an error only without data |
| PrefetchReaders.ClosedReads | pkg/ioutils/prefetch_reader.go:85-92 | a read that notices Close returns the end of data and takes nothing |
| Watermarks.MaxParquetColumn | cmd/pipeline/watermark_output.go:17-104 | the maximum non-null cell of all files, absent exactly when all are null; an error exactly when a file lacks the column |
| Watermarks.ResolveWatermarkOutput | cmd/pipeline/watermark_output.go:156-251 | the emitted value in each branch: offset, no rows, no key, key |
| Watermarks.CanonicalRoundTrip | internal/domain/watermark_value.go:48-55 | every int64 survives printing and parsing and its text has nothing to trim |
| Watermarks.CanonicalIsFormatted | internal/domain/watermark_value.go:130-133 | the text has a minus sign for negatives only and no leading zeros |
| Watermarks.NumbersAreRead | internal/domain/watermark_value.go:50-55 | digits with an optional sign are read as their number when it fits 64 bits |
| Watermarks.OnlyNumbersAreRead | internal/domain/watermark_value.go:50-55 | no other text is read |
| Watermarks.TrimmedIs | internal/domain/watermark_value.go:44 | trimming takes white space off both ends and nothing else |
| Watermarks.EmittedLevel | cmd/pipeline/watermark_output.go:190-250 | the next run reads back the larger of the incoming watermark and the greatest key, from whatever text the incoming one had |
| Watermarks.CarriedText | cmd/pipeline/watermark_output.go:190-206 | a run that wrote no key passes the incoming text on, trimmed |
| Watermarks.UnreadableIncoming | cmd/pipeline/watermark_output.go:222-250 | an incoming text that does not parse is passed over when a key was written and passed on when none was |
| Watermarks.OffsetCarries | cmd/pipeline/watermark_output.go:172-188 | an offset watermark reads back as start plus records read |
| Watermarks.LevelIsHighestWritten | cmd/pipeline/watermark_output.go:190-250 | over any sequence of runs the watermark always parses and is exactly the maximum of the initial one and all keys written |
| Watermarks.WatermarkNeverDecreases | cmd/pipeline/watermark_output.go:190-250 | the watermark never decreases and is at least every key written |
| Watermarks.ReadIff | internal/domain/config_database.go:86-102 | a later run can read a row if and only if its key is above the initial watermark and above every key written before |
| Watermarks.WrittenByOneRun | internal/domain/config_database.go:86-102 | a row with a key, once written, is read by no later run, so it is written by one run only |
| Watermarks.NullKeyReadAgainIff | internal/domain/config_database.go:98-102 | a row with a null key is read again if and only if there is still no watermark |
| PageWindows.EstimatePages | internal/adapters/paged_api/source/rest_reader.go:36-168 | the pages in each branch: hint, probed total, offset past the total, fallback |
| PageWindows.WindowsCover | internal/adapters/paged_api/source/rest_reader.go:112-145 | for an offset below the total the windows are contiguous from the offset, none begins past the total, and they reach it |
| PageWindows.EachIndexOnce | internal/adapters/paged_api/source/rest_reader.go:112-145 | every record index from the offset up to the total lies in exactly one window |
| PageWindows.RunReadsRange | cmd/pipeline/watermark_output.go:172-188 | a run over an append-only source that asks from its offset on reads one unbroken range from it, at least all that the probe saw |
| PageWindows.RunReadsRangeIff | internal/adapters/paged_api/source/rest_reader.go:149-157 | a run reads an unbroken range from its offset if and only if it is not a first run without a total that begins at a positive initial page and finds records beyond it |
| PageWindows.FirstRecordSkipped | internal/adapters/paged_api/source/rest_reader.go:149-157 | a source that was empty when probed: its first record is never read and the next offset is wrong |
| PageWindows.RunsReadOnceIff | cmd/pipeline/watermark_output.go:172-188 | over any sequence of runs, each resuming at the offset emitted last, each index is read exactly once and in order if and only if no run skips records that way |
| PageWindows.RunsReadOnce | cmd/pipeline/watermark_output.go:172-188 | so they are whenever the initial page is 0 or the first offset is positive |

## Left out

- Delivery.DeliveryTheorem: counts record start offsets; decoding the fed bytes into fields, the per-chunk CSV header skip and read errors of the underlying file are not part of this model, and a cancelled worker counts as not finished.
- ByteStream.ProcessElement: the pipe, the decoder goroutine and cancellation are not in the method; cancellation is a step in Delivery.
- RangeTrackers.ByteOffsetTracker.TrySplit: the float product is not computed; the point it is rounded to is an arbitrary integer, which the guards after it make safe.
- RangeTrackers.IndexRangeTracker.TryClaim: the conversion of an int64 index to int is the identity, as on 64-bit machines.
- RecordCoder.RoundTripIff: lengths and counts are machine integers, so they are below 2^63.
- RecordBatchCoder.BatchRoundTripIff: what a batch beyond the limits decodes to, if it decodes at all, is not described beyond being different.
- RecordBatches.RecordBatch.AppendRow: the audit map is stored by value; sharing one map object between the record and the batch is not modelled. SetRowCount from outside is not modelled.
- MetricsCoder.DeadLetterRoundTrip: stated on the functions of the encoding; the sequential writers and readers of dead letters and metrics around the sorted maps are not methods here. Metrics fields that the coder does not write are not in the model.
- Decimal.CoerceDecimalFast: error texts are reduced to their kind; digit counters beyond 2^31 are not modelled.
- SqlSlices.SlicesReadTable: keys are non-null integers standing for any total order; the text of the query and its bind markers are not modelled.
- ParquetRows.EncodeRow: values of a type that does not fit its column, as fields of one name can have, are written as they are; what the Parquet library then does is left out.
- Routing.DecimalScaleIff: that the decimal parser returns the scale it is asked for is a hypothesis on the conversions here and proved in Decimal.CoerceDecimalFast.
- MongoRanges.BuildObjectIDRanges: ids are their twelve bytes; the hexadecimal text that carries them between the two stages is not modelled.
- Routing.ProcessElement: the redacted payload, the message and the time of a dead letter, and the text of audit events, are left out.
- Metrics.Conservation: counters are unbounded integers; the value the combiners hold for fields they never change is left out.
- TokenBuckets.RateLimit: rates and tokens are real numbers; float rounding and the truncation of a sleep to whole nanoseconds are left out.
- CircuitBreakers.CircuitBreaker.Execute: the panic of a guarded call and the name in the error are left out; the state query is an event of the runs.
- PrefetchReaders.PrefetchReader.Read: memory reuse of chunks is not modelled.
- Watermarks.ResolveWatermarkOutput: the integer type and offsets only; timestamp, date, float and string watermarks lose information when printed or trimmed. Files and row groups are sequences of cells. An addition that overflows wraps.
- PageWindows.EstimatePages: the probed total is a real number; the probe request, cursor and link pagination, and pages served out of a source that deletes records are left out. RunsReadOnceIff is about offset mode without a page hint and with an initial page that is not negative.
- Compression, charsets, CSV and JSON parsing, Parquet file layout, telemetry, configuration and its defaults, secrets, HTTP and database access, the Beam runner and the wiring of the pipeline.
- The coder of MetricItem values, the pools of reused batches, the reading of a single API page, adaptive batch sizing and the staging of local files are not modelled.
