/**
 Enrichment, casting and validation of one record in one step: every record goes either to the
 valid output or to the dead letters. Conversions that the standard library does (printing a
 value, parsing numbers, booleans and times, floats to and from integers) are parameters.
 */
module Routing {
  import opened Basics
  import opened Bits
  import opened Records

  datatype Conversions = Conversions(
    text: FieldValue -> bytes,
    parseInt: bytes -> Option<int64>,
    parseFloat: bytes -> Option<uint64>,
    parseBool: bytes -> Option<bool>,
    parseTime: bytes -> Option<int64>,
    parseDecimal: (bytes, int32, bytes) -> Option<(int64, int32)>,
    floatToInt: uint64 -> int64,
    intToFloat: int64 -> uint64)

  datatype FieldError = NullConstraint | TypeCastFailed

  // ---------------------------------------------------------------- one field

  function Int64Value(v: int64): FieldValue {
    FieldValue(TypeInt64, false, 0, ToUint64(v), [])
  }

  function Float64Value(bits: uint64): FieldValue {
    FieldValue(TypeFloat64, false, 0, bits, [])
  }

  function BoolValue(v: bool): FieldValue {
    FieldValue(TypeBool, false, 0, if v then 1 else 0, [])
  }

  function TimeValue(nanos: int64): FieldValue {
    FieldValue(TypeTimestamp, false, 0, ToUint64(nanos), [])
  }

  function DecimalValue(mantissa: int64, scale: int32): FieldValue {
    FieldValue(TypeDecimal, false, scale, ToUint64(mantissa), [])
  }

  /** The type that a valid value of a field is stored as: dates, JSON and unknown types become strings. */
  function StorageType(t: DataType): DataType {
    if IsNumericDataType(t) || t.TypeBytes? then t else TypeString
  }

  function NullResult(f: Field): Result<FieldValue, FieldError> {
    if f.nullable then Ok(NullOf(StorageType(f.typ))) else Err(NullConstraint)
  }

  /** Values that need no parsing. */
  function Direct(c: Conversions, f: Field, v: FieldValue): Option<FieldValue> {
    match f.typ
    case TypeInt64 =>
      if v.typ.TypeInt64? then Some(v)
      else if v.typ.TypeFloat64? then Some(Int64Value(c.floatToInt(v.num)))
      else None
    case TypeDecimal =>
      if v.typ.TypeDecimal? && v.scale == f.scale then Some(v)
      else if v.typ.TypeInt64? then Some(DecimalValue(ToInt64(v.num), 0))
      else None
    case TypeFloat64 =>
      if v.typ.TypeFloat64? then Some(v)
      else if v.typ.TypeInt64? then Some(Float64Value(c.intToFloat(ToInt64(v.num))))
      else None
    case TypeBool => if v.typ.TypeBool? then Some(v) else None
    case TypeTimestamp => if v.typ.TypeTimestamp? then Some(v) else None
    case TypeBytes => Some(FieldValue(TypeBytes, false, 0, 0, c.text(v)))
    case _ => Some(FieldValue(TypeString, false, 0, 0, c.text(v)))
  }

  function Parse(c: Conversions, f: Field, s: bytes): Option<FieldValue> {
    match f.typ
    case TypeInt64 => (match c.parseInt(s) case Some(v) => Some(Int64Value(v)) case None => None)
    case TypeDecimal =>
      (match c.parseDecimal(s, f.scale, f.onOverflow) case Some(d) => Some(DecimalValue(d.0, d.1)) case None => None)
    case TypeFloat64 => (match c.parseFloat(s) case Some(v) => Some(Float64Value(v)) case None => None)
    case TypeBool => (match c.parseBool(s) case Some(v) => Some(BoolValue(v)) case None => None)
    case TypeTimestamp => (match c.parseTime(s) case Some(v) => Some(TimeValue(v)) case None => None)
    case _ => None
  }

  /** The compiled plan of a field, applied to the raw value, which is missing when the record is too short. */
  function Cast(c: Conversions, f: Field, raw: Option<FieldValue>): Result<FieldValue, FieldError> {
    if raw.None? || raw.value.isNull then NullResult(f)
    else
      match Direct(c, f, raw.value)
      case Some(v) => Ok(v)
      case None =>
        var s := c.text(raw.value);
        if s == [] then NullResult(f)
        else
          match Parse(c, f, s)
          case Some(v) => Ok(v)
          case None => Err(TypeCastFailed)
  }

  /** What the valid output promises of a value. */
  predicate Conforms(f: Field, v: FieldValue) {
    v.typ == StorageType(f.typ) && (v.isNull ==> f.nullable)
  }

  lemma CastConforms(c: Conversions, f: Field, raw: Option<FieldValue>)
    ensures Cast(c, f, raw).Ok? ==> Conforms(f, Cast(c, f, raw).value)
    ensures Cast(c, f, raw) == Err(NullConstraint) ==> !f.nullable
  {
  }

  /** Strings and byte strings print as themselves. */
  ghost predicate PrintsStrings(c: Conversions) {
    forall v: FieldValue :: !v.isNull && (v.typ.TypeString? || v.typ.TypeBytes?) ==> c.text(v) == v.str
  }

  /** Text fields take what a value prints as; a string or a byte string goes through with its bytes. */
  lemma TextPassesThrough(c: Conversions, f: Field, v: FieldValue)
    requires !v.isNull && !f.typ.TypeInt64? && !f.typ.TypeFloat64?
    requires !f.typ.TypeBool? && !f.typ.TypeTimestamp? && !f.typ.TypeDecimal?
    ensures var r := Cast(c, f, Some(v));
            && r == Ok(FieldValue(if f.typ.TypeBytes? then TypeBytes else TypeString, false, 0, 0, c.text(v)))
            && (PrintsStrings(c) && (v.typ.TypeString? || v.typ.TypeBytes?) ==> r.value.str == v.str)
  {
  }

  /** A value of the field's own numeric type goes through unchanged, a decimal when it has the field's scale. */
  lemma OwnTypePassesThrough(c: Conversions, f: Field, v: FieldValue)
    requires !v.isNull && v.typ == f.typ
    requires f.typ.TypeInt64? || f.typ.TypeFloat64? || f.typ.TypeBool? || f.typ.TypeTimestamp? || f.typ.TypeDecimal?
    requires f.typ.TypeDecimal? ==> v.scale == f.scale
    ensures Cast(c, f, Some(v)) == Ok(v)
  {
  }

  /** The text of v is not empty, and parsing it gives back what v is. */
  ghost predicate ParsesBack(c: Conversions, v: FieldValue) {
    && c.text(v) != []
    && match v.typ
       case TypeInt64 => c.parseInt(c.text(v)) == Some(ToInt64(v.num))
       case TypeFloat64 => c.parseFloat(c.text(v)) == Some(v.num)
       case TypeBool => c.parseBool(c.text(v)) == Some(v.num == 1)
       case TypeTimestamp => c.parseTime(c.text(v)) == Some(ToInt64(v.num))
       case TypeDecimal =>
         forall mode: bytes :: c.parseDecimal(c.text(v), v.scale, mode) == Some((ToInt64(v.num), v.scale))
       case _ => false
  }

  /** A number that was printed and is cast from its text denotes the same number again. */
  lemma PrintedValueComesBack(c: Conversions, f: Field, v: FieldValue)
    requires PrintsStrings(c) && ParsesBack(c, v) && v.typ == f.typ && (f.typ.TypeDecimal? ==> v.scale == f.scale)
    ensures var r := Cast(c, f, Some(FieldValue(TypeString, false, 0, 0, c.text(v))));
            && r.Ok? && r.value.typ == v.typ && !r.value.isNull
            && (if v.typ.TypeBool? then r.value.num == (if v.num == 1 then 1 else 0) else r.value.num == v.num)
            && (v.typ.TypeDecimal? ==> r.value.scale == v.scale)
  {
    WordsRoundTrip(v.num, 0, 0, 0);
  }

  /** Numbers of the other kind are converted, and a text is null when empty and fails when it does not parse. */
  lemma OtherInputs(c: Conversions, f: Field, v: FieldValue)
    requires !v.isNull
    ensures f.typ.TypeInt64? && v.typ.TypeFloat64? ==>
              Cast(c, f, Some(v)) == Ok(FieldValue(TypeInt64, false, 0, ToUint64(c.floatToInt(v.num)), []))
    ensures f.typ.TypeFloat64? && v.typ.TypeInt64? ==>
              Cast(c, f, Some(v)) == Ok(FieldValue(TypeFloat64, false, 0, c.intToFloat(ToInt64(v.num)), []))
    ensures PrintsStrings(c) && v.typ.TypeString? && v.str == [] && IsNumericDataType(f.typ) ==>
              Cast(c, f, Some(v)) == (if f.nullable then Ok(NullOf(f.typ)) else Err(NullConstraint))
    ensures PrintsStrings(c) && v.typ.TypeString? && v.str != [] && f.typ.TypeInt64? ==>
              (Cast(c, f, Some(v)) == Err(TypeCastFailed) <==> c.parseInt(v.str) == None)
  {
  }

  /** A missing value is a null, and a null is one of the field's own type, or refused where none is allowed. */
  lemma MissingIsNull(c: Conversions, f: Field, raw: Option<FieldValue>)
    requires raw.None? || raw.value.isNull
    ensures !f.nullable ==> Cast(c, f, raw) == Err(NullConstraint)
    ensures f.nullable ==>
              Cast(c, f, raw) == Ok(FieldValue(match f.typ
                                               case TypeDate => TypeString
                                               case TypeJSON => TypeString
                                               case OtherType(_) => TypeString
                                               case _ => f.typ, true, 0, 0, []))
  {
  }

  /** The decimal parser returns the scale it is asked for, as Decimal.CoerceDecimalFast is proved to do. */
  ghost predicate ParsesToScale(c: Conversions) {
    forall s: bytes, scale: int32, mode: bytes ::
      c.parseDecimal(s, scale, mode).Some? ==> c.parseDecimal(s, scale, mode).value.1 == scale
  }

  /** An integer taken over into a decimal field whose scale is not zero. */
  predicate UnscaledInteger(f: Field, raw: Option<FieldValue>) {
    f.typ.TypeDecimal? && raw.Some? && !raw.value.isNull && raw.value.typ.TypeInt64? && f.scale != 0
  }

  /** Exactly when a decimal output has its field's scale: unless an integer was taken over into a scaled field. */
  lemma DecimalScaleIff(c: Conversions, f: Field, raw: Option<FieldValue>)
    requires ParsesToScale(c) && f.typ.TypeDecimal? && Cast(c, f, raw).Ok? && !Cast(c, f, raw).value.isNull
    ensures Cast(c, f, raw).value.scale == f.scale <==> !UnscaledInteger(f, raw)
  {
  }

  /** Exactly when casting is idempotent: a cast value passes the same cast unchanged under the same condition. */
  lemma CastIsIdempotent(c: Conversions, f: Field, raw: Option<FieldValue>)
    requires PrintsStrings(c) && ParsesToScale(c) && Cast(c, f, raw).Ok?
    ensures Cast(c, f, Some(Cast(c, f, raw).value)) == Cast(c, f, raw) <==> !UnscaledInteger(f, raw)
  {
  }

  /** What the exception does: the integer becomes the mantissa as it stands, with scale 0. */
  lemma IntegersKeepScaleZero(c: Conversions, f: Field, v: FieldValue)
    requires f.typ.TypeDecimal? && v.typ.TypeInt64? && !v.isNull
    ensures Cast(c, f, Some(v)) == Ok(DecimalValue(ToInt64(v.num), 0))
    ensures Cast(c, f, Some(v)).value.num == v.num
  {
    WordsRoundTrip(v.num, 0, 0, 0);
  }

  // ---------------------------------------------------------------- one record

  const INGESTED_AT: bytes := [95, 105, 110, 103, 101, 115, 116, 101, 100, 95, 97, 116]
  const JOB_ID: bytes := [95, 106, 111, 98, 95, 105, 100]
  const EXECUTION_ID: bytes := [95, 101, 120, 101, 99, 117, 116, 105, 111, 110, 95, 105, 100]
  const SOURCE_FILE: bytes := [95, 115, 111, 117, 114, 99, 101, 95, 102, 105, 108, 101]
  const SETUP_COLUMN: bytes := [95, 115, 101, 116, 117, 112]

  datatype Reason = CannotCast(error: FieldError) | NotSetUp

  datatype DeadLetter = DeadLetter(failedColumn: bytes, reason: Reason, sourceFile: bytes)

  datatype AuditEvent = CastFailure(column: bytes) | LifecycleViolation | QualityWarning(column: bytes)

  datatype Rule = Rule(notNull: bool, column: bytes)

  /** The configuration of the function object; `compiled` is false before Setup. */
  datatype Config = Config(
    schema: Schema, rules: seq<Rule>, jobID: bytes, executionID: bytes, compiled: bool, conv: Conversions)

  /** `now` is the clock's reading, already printed. */
  function Enrich(cfg: Config, audit: map<bytes, bytes>, now: bytes): map<bytes, bytes> {
    var a := if INGESTED_AT in audit then audit else audit[INGESTED_AT := now];
    var b := if cfg.jobID != [] then a[JOB_ID := cfg.jobID] else a;
    if cfg.executionID != [] then b[EXECUTION_ID := cfg.executionID] else b
  }

  function RawAt(rec: GenericRecord, i: nat): Option<FieldValue> {
    if i < |rec.values| then Some(rec.values[i]) else None
  }

  /** The first field from i on whose cast fails. */
  function FirstFailure(cfg: Config, rec: GenericRecord, i: nat): Option<nat>
    requires i <= |cfg.schema|
    decreases |cfg.schema| - i
  {
    if i == |cfg.schema| then None
    else if Cast(cfg.conv, cfg.schema[i], RawAt(rec, i)).Err? then Some(i)
    else FirstFailure(cfg, rec, i + 1)
  }

  lemma {:induction false} FirstFailureMeaning(cfg: Config, rec: GenericRecord, i: nat)
    requires i <= |cfg.schema|
    ensures match FirstFailure(cfg, rec, i)
            case None => forall k :: i <= k < |cfg.schema| ==> Cast(cfg.conv, cfg.schema[k], RawAt(rec, k)).Ok?
            case Some(j) =>
              && i <= j < |cfg.schema| && Cast(cfg.conv, cfg.schema[j], RawAt(rec, j)).Err?
              && (forall k :: i <= k < j ==> Cast(cfg.conv, cfg.schema[k], RawAt(rec, k)).Ok?)
    decreases |cfg.schema| - i
  {
    if i < |cfg.schema| {
      FirstFailureMeaning(cfg, rec, i + 1);
    }
  }

  /** The outputs of the fused function, in emission order. */
  class Outputs {
    var valid: seq<GenericRecord>
    var dlq: seq<DeadLetter>
    var audit: seq<AuditEvent>

    constructor ()
      ensures valid == [] && dlq == [] && audit == []
    {
      valid, dlq, audit := [], [], [];
    }
  }

  /** The events of the soft not-null rules; they never send a record to the dead letters. */
  function Warnings(cfg: Config, values: seq<FieldValue>, r: nat, i: nat): seq<AuditEvent>
    requires |values| == |cfg.schema| && r <= |cfg.rules| && i <= |cfg.schema|
    decreases |cfg.rules| - r, |cfg.schema| - i
  {
    if r == |cfg.rules| then []
    else if i == |cfg.schema| then Warnings(cfg, values, r + 1, 0)
    else
      Warning(cfg, values, r, i) + Warnings(cfg, values, r, i + 1)
  }

  function Warning(cfg: Config, values: seq<FieldValue>, r: nat, i: nat): seq<AuditEvent>
    requires |values| == |cfg.schema| && r < |cfg.rules| && i < |cfg.schema|
  {
    var rule := cfg.rules[r];
    if rule.notNull && rule.column != [] && cfg.schema[i].name == rule.column && values[i].isNull
    then [QualityWarning(cfg.schema[i].name)] else []
  }

  lemma NoMoreWarnings(cfg: Config, values: seq<FieldValue>)
    requires |values| == |cfg.schema|
    ensures Warnings(cfg, values, |cfg.rules|, 0) == []
  {
  }

  lemma WarningsStep(cfg: Config, values: seq<FieldValue>, r: nat, i: nat)
    requires |values| == |cfg.schema| && r < |cfg.rules| && i <= |cfg.schema|
    ensures i == |cfg.schema| ==> Warnings(cfg, values, r, i) == Warnings(cfg, values, r + 1, 0)
    ensures i < |cfg.schema| ==>
              Warnings(cfg, values, r, i) == Warning(cfg, values, r, i) + Warnings(cfg, values, r, i + 1)
  {
  }

  /** A not-null rule names the field, and its value is null. */
  predicate Violated(cfg: Config, values: seq<FieldValue>, r: nat, i: nat)
    requires |values| == |cfg.schema| && r < |cfg.rules| && i < |cfg.schema|
  {
    cfg.rules[r].notNull && cfg.rules[r].column != [] && cfg.schema[i].name == cfg.rules[r].column && values[i].isNull
  }

  ghost predicate ViolatedFrom(cfg: Config, values: seq<FieldValue>, r: nat, i: nat, e: AuditEvent)
    requires |values| == |cfg.schema|
  {
    exists q, k :: 0 <= q < |cfg.rules| && 0 <= k < |cfg.schema| && (q > r || (q == r && k >= i))
                   && Violated(cfg, values, q, k) && e == QualityWarning(cfg.schema[k].name)
  }

  /** There is a warning for every violated rule and for nothing else. */
  lemma {:induction false} WarningsMean(cfg: Config, values: seq<FieldValue>, r: nat, i: nat, e: AuditEvent)
    requires |values| == |cfg.schema| && r <= |cfg.rules| && i <= |cfg.schema|
    ensures e in Warnings(cfg, values, r, i) <==> ViolatedFrom(cfg, values, r, i, e)
    decreases |cfg.rules| - r, |cfg.schema| - i
  {
    if r < |cfg.rules| {
      if i == |cfg.schema| {
        WarningsMean(cfg, values, r + 1, 0, e);
      } else {
        WarningsMean(cfg, values, r, i + 1, e);
        if Violated(cfg, values, r, i) && e == QualityWarning(cfg.schema[i].name) {
          assert ViolatedFrom(cfg, values, r, i, e);
        }
      }
    }
  }

  method EmitWarnings(cfg: Config, values: seq<FieldValue>, out: Outputs)
    requires |values| == |cfg.schema|
    modifies out`audit
    ensures out.audit == old(out.audit) + Warnings(cfg, values, 0, 0)
  {
    hide Warnings;
    for r := 0 to |cfg.rules|
      invariant out.audit + Warnings(cfg, values, r, 0) == old(out.audit) + Warnings(cfg, values, 0, 0)
    {
      for i := 0 to |cfg.schema|
        invariant out.audit + Warnings(cfg, values, r, i) == old(out.audit) + Warnings(cfg, values, 0, 0)
      {
        WarningsStep(cfg, values, r, i);
        ghost var before := out.audit;
        if cfg.rules[r].notNull && cfg.rules[r].column != [] {
          if cfg.schema[i].name == cfg.rules[r].column && values[i].isNull {
            out.audit := out.audit + [QualityWarning(cfg.schema[i].name)];
          }
        }
        assert out.audit == before + Warning(cfg, values, r, i);
      }
      WarningsStep(cfg, values, r, |cfg.schema|);
    }
    NoMoreWarnings(cfg, values);
  }

  function SourceOf(audit: map<bytes, bytes>): bytes {
    if SOURCE_FILE in audit then audit[SOURCE_FILE] else []
  }

  /** All fields cast; meaningful when no cast fails. */
  function CastAll(cfg: Config, rec: GenericRecord): (values: seq<FieldValue>)
    requires FirstFailure(cfg, rec, 0).None?
    ensures |values| == |cfg.schema|
    ensures forall i :: 0 <= i < |values| ==> Conforms(cfg.schema[i], values[i])
  {
    FirstFailureMeaning(cfg, rec, 0);
    seq(|cfg.schema|, i requires 0 <= i < |cfg.schema| =>
      CastConforms(cfg.conv, cfg.schema[i], RawAt(rec, i));
      Cast(cfg.conv, cfg.schema[i], RawAt(rec, i)).value)
  }

  datatype Outcome = Valid(rec: GenericRecord) | Dead(letter: DeadLetter)

  /** Where a record goes. */
  function Route(cfg: Config, rec: GenericRecord, now: bytes): Outcome {
    if !cfg.compiled then Dead(DeadLetter(SETUP_COLUMN, NotSetUp, []))
    else
      match FirstFailure(cfg, rec, 0)
      case None => Valid(GenericRecord(rec.schemaID, CastAll(cfg, rec), Enrich(cfg, rec.audit, now)))
      case Some(i) =>
        FirstFailureMeaning(cfg, rec, 0);
        Dead(DeadLetter(cfg.schema[i].name, CannotCast(Cast(cfg.conv, cfg.schema[i], RawAt(rec, i)).error),
                        SourceOf(Enrich(cfg, rec.audit, now))))
  }

  method ProcessElement(cfg: Config, rec: Option<GenericRecord>, now: bytes, out: Outputs)
    modifies out
    ensures rec.None? ==> unchanged(out)
    ensures rec.Some? ==>
              match Route(cfg, rec.value, now)
              case Valid(v) => out.valid == old(out.valid) + [v] && out.dlq == old(out.dlq)
                               && out.audit == old(out.audit) + Warnings(cfg, v.values, 0, 0)
              case Dead(d) => out.valid == old(out.valid) && out.dlq == old(out.dlq) + [d]
                              && out.audit == old(out.audit)
                                 + [if d.reason.NotSetUp? then LifecycleViolation else CastFailure(d.failedColumn)]
  {
    if rec.None? {
      return;
    }
    if !cfg.compiled {
      out.dlq := out.dlq + [DeadLetter(SETUP_COLUMN, NotSetUp, [])];
      out.audit := out.audit + [LifecycleViolation];
      return;
    }
    var audit := rec.value.audit;
    if INGESTED_AT !in audit {
      audit := audit[INGESTED_AT := now];
    }
    if cfg.jobID != [] {
      audit := audit[JOB_ID := cfg.jobID];
    }
    if cfg.executionID != [] {
      audit := audit[EXECUTION_ID := cfg.executionID];
    }
    var validated := seq(|cfg.schema|, _ => ZERO_VALUE);
    for i := 0 to |cfg.schema|
      invariant unchanged(out) && |validated| == |cfg.schema|
      invariant FirstFailure(cfg, rec.value, 0) == FirstFailure(cfg, rec.value, i)
      invariant forall k :: 0 <= k < i ==> Cast(cfg.conv, cfg.schema[k], RawAt(rec.value, k)) == Ok(validated[k])
    {
      var f := cfg.schema[i];
      var raw := if i < |rec.value.values| then Some(rec.value.values[i]) else None;
      var cast := Cast(cfg.conv, f, raw);
      if cast.Err? {
        var source := if SOURCE_FILE in audit then audit[SOURCE_FILE] else [];
        out.dlq := out.dlq + [DeadLetter(f.name, CannotCast(cast.error), source)];
        out.audit := out.audit + [CastFailure(f.name)];
        return;
      }
      validated := validated[i := cast.value];
    }
    assert validated == CastAll(cfg, rec.value);
    EmitWarnings(cfg, validated, out);
    out.valid := out.valid + [GenericRecord(rec.value.schemaID, validated, audit)];
  }

  /** Exactly one output per record, and what a valid one promises. */
  lemma RoutedOnce(cfg: Config, rec: GenericRecord, now: bytes)
    ensures var o := Route(cfg, rec, now);
            && (o.Valid? <==> cfg.compiled
                              && forall i :: 0 <= i < |cfg.schema| ==> Cast(cfg.conv, cfg.schema[i], RawAt(rec, i)).Ok?)
            && (o.Valid? ==>
                  && o.rec.schemaID == rec.schemaID && |o.rec.values| == |cfg.schema|
                  && (forall i :: 0 <= i < |cfg.schema| ==>
                        Cast(cfg.conv, cfg.schema[i], RawAt(rec, i)) == Ok(o.rec.values[i])
                        && Conforms(cfg.schema[i], o.rec.values[i]))
                  && INGESTED_AT in o.rec.audit
                  && (forall k :: k in rec.audit && k != JOB_ID && k != EXECUTION_ID ==>
                        k in o.rec.audit && o.rec.audit[k] == rec.audit[k]))
  {
    FirstFailureMeaning(cfg, rec, 0);
  }

  /** The audit map of a valid output: what the record brought, the time unless it had one, the ids that are set. */
  lemma AuditOfValid(cfg: Config, rec: GenericRecord, now: bytes, k: bytes)
    requires Route(cfg, rec, now).Valid?
    ensures var audit := Route(cfg, rec, now).rec.audit;
            && (k == JOB_ID && cfg.jobID != [] ==> k in audit && audit[k] == cfg.jobID)
            && (k == EXECUTION_ID && cfg.executionID != [] ==> k in audit && audit[k] == cfg.executionID)
            && (k == INGESTED_AT && k !in rec.audit ==> k in audit && audit[k] == now)
            && (k in rec.audit && (k == JOB_ID ==> cfg.jobID == []) && (k == EXECUTION_ID ==> cfg.executionID == []) ==>
                  k in audit && audit[k] == rec.audit[k])
            && (k in audit ==> k in rec.audit || k == INGESTED_AT || (k == JOB_ID && cfg.jobID != [])
                               || (k == EXECUTION_ID && cfg.executionID != []))
  {
    assert JOB_ID[1] != EXECUTION_ID[1] && JOB_ID[1] != INGESTED_AT[1] && EXECUTION_ID[1] != INGESTED_AT[1];
  }

  /** Before Setup every record is a dead letter of the column "_setup". */
  lemma NothingBeforeSetup(cfg: Config, rec: GenericRecord, now: bytes)
    requires !cfg.compiled
    ensures Route(cfg, rec, now) == Dead(DeadLetter(Ascii("_setup"), NotSetUp, []))
  {
  }

  /** The names of the audit columns, byte for byte. */
  lemma AuditNames()
    ensures INGESTED_AT == Ascii("_ingested_at") && JOB_ID == Ascii("_job_id")
    ensures EXECUTION_ID == Ascii("_execution_id") && SOURCE_FILE == Ascii("_source_file")
  {
  }

  function Ascii(s: string): bytes {
    seq(|s|, i requires 0 <= i < |s| => s[i] as int % 0x100)
  }

  /** A dead letter names the first field that cannot be cast, why, and the file that the record came from. */
  lemma DeadLetterNamesFirstFailure(cfg: Config, rec: GenericRecord, now: bytes) returns (j: nat)
    requires cfg.compiled && Route(cfg, rec, now).Dead?
    ensures j < |cfg.schema| && (forall k :: 0 <= k < j ==> Cast(cfg.conv, cfg.schema[k], RawAt(rec, k)).Ok?)
    ensures var cast, d := Cast(cfg.conv, cfg.schema[j], RawAt(rec, j)), Route(cfg, rec, now).letter;
            && cast.Err? && d.reason == CannotCast(cast.error)
            && d.failedColumn == cfg.schema[j].name && d.sourceFile == SourceOf(rec.audit)
  {
    FirstFailureMeaning(cfg, rec, 0);
    j := FirstFailure(cfg, rec, 0).value;
    assert SOURCE_FILE[1] != JOB_ID[1] && SOURCE_FILE[1] != EXECUTION_ID[1] && SOURCE_FILE[1] != INGESTED_AT[1];
  }
}
