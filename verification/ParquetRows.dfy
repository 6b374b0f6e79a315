/**
 Two ways to make a Parquet row of a record: a map from column names to values, and a direct
 encoder that writes physical cells into a reused buffer by column index. It is proved exactly
 for which schemas they agree column by column, and for which records the direct encoder does
 not depend on what the buffer held before.
 */
module ParquetRows {
  import opened Basics
  import opened Bits
  import opened Records
  import Routing

  /** A value of the row map. */
  datatype RowValue =
    | IntVal(i: int64)
    | FloatVal(bits: uint64)
    | BoolVal(b: bool)
    | BytesVal(bytes: bytes)
    | StringVal(s: bytes)

  /** A physical value; strings and byte strings are the same there. */
  datatype Physical = Missing | Int64(i: int64) | Double(bits: uint64) | Boolean(b: bool) | ByteArray(bytes: bytes)

  datatype Cell = Cell(value: Physical, definition: nat, column: nat)

  /** How the row writer turns a value of the row map into a physical one. */
  function ToPhysical(v: RowValue): Physical {
    match v
    case IntVal(i) => Int64(i)
    case FloatVal(bits) => Double(bits)
    case BoolVal(b) => Boolean(b)
    case BytesVal(s) => ByteArray(s)
    case StringVal(s) => ByteArray(s)
  }

  /** Nanoseconds to microseconds, rounding towards minus infinity. */
  function UnixMicro(nanos: int64): int64 {
    nanos / 1000
  }

  // ---------------------------------------------------------------- schema

  const UNKNOWN: bytes := [117, 110, 107, 110, 111, 119, 110]

  function Reserved(withSourceFile: bool): seq<bytes> {
    if withSourceFile then [Routing.INGESTED_AT, Routing.SOURCE_FILE] else [Routing.INGESTED_AT]
  }

  /** Where the schema library puts each named column: any one-to-one numbering of the names. */
  ghost predicate Layout(schema: Schema, withSourceFile: bool, cols: map<bytes, nat>, numCols: nat) {
    && (forall n :: n in cols <==>
          (exists i :: 0 <= i < |schema| && schema[i].name == n) || n in Reserved(withSourceFile))
    && (forall n :: n in cols ==> cols[n] < numCols)
    && (forall n, k :: n in cols && k in cols && cols[n] == cols[k] ==> n == k)
    && (forall c :: 0 <= c < numCols ==> Named(cols, c))
  }

  ghost predicate Named(cols: map<bytes, nat>, c: nat) {
    exists n :: n in cols && cols[n] == c
  }

  /** Some field of the schema has this name. */
  ghost predicate HasField(schema: Schema, name: bytes) {
    exists i :: 0 <= i < |schema| && schema[i].name == name
  }

  /** Fields of one name share a column, which is as optional as the last of them. */
  function LastNullable(schema: Schema, name: bytes): bool {
    if schema == [] then false
    else if schema[|schema| - 1].name == name then schema[|schema| - 1].nullable
    else LastNullable(schema[..|schema| - 1], name)
  }

  /** The maximum definition level of a column: reserved columns are required. */
  function MaxLevel(schema: Schema, withSourceFile: bool, name: bytes): nat {
    if name !in Reserved(withSourceFile) && LastNullable(schema, name) then 1 else 0
  }

  /**
   Every column is written from one place: without the flag no field is named as the source
   file column, and fields of one name are overwritten by a reserved column.
   */
  ghost predicate Unambiguous(schema: Schema, withSourceFile: bool) {
    && (withSourceFile || !HasField(schema, Routing.SOURCE_FILE))
    && (forall i, j :: 0 <= i < j < |schema| && schema[i].name == schema[j].name ==>
          schema[i].name in Reserved(withSourceFile))
  }

  // ---------------------------------------------------------------- the map

  function Extract(f: Field, v: FieldValue): RowValue {
    match f.typ
    case TypeInt64 => IntVal(ToInt64(v.num))
    case TypeDecimal => IntVal(ToInt64(v.num))
    case TypeFloat64 => FloatVal(v.num)
    case TypeBool => BoolVal(v.num == 1)
    case TypeTimestamp => IntVal(UnixMicro(ToInt64(v.num)))
    case TypeBytes => BytesVal(v.str)
    case _ => StringVal(v.str)
  }

  function FieldEntries(schema: Schema, values: seq<FieldValue>, i: nat, row: map<bytes, RowValue>)
    : map<bytes, RowValue>
    requires i <= |schema|
    decreases |schema| - i
  {
    if i == |schema| then row
    else if i < |values| && !values[i].isNull
    then FieldEntries(schema, values, i + 1, row[schema[i].name := Extract(schema[i], values[i])])
    else FieldEntries(schema, values, i + 1, row)
  }

  function AuditOr(audit: map<bytes, bytes>, key: bytes, fallback: bytes): bytes {
    if key in audit && audit[key] != [] then audit[key] else fallback
  }

  function RowMap(schema: Schema, withSourceFile: bool, rec: GenericRecord, now: bytes): map<bytes, RowValue> {
    var row := FieldEntries(schema, rec.values, 0, map[])
               [Routing.INGESTED_AT := StringVal(AuditOr(rec.audit, Routing.INGESTED_AT, now))];
    if withSourceFile then row[Routing.SOURCE_FILE := StringVal(AuditOr(rec.audit, Routing.SOURCE_FILE, UNKNOWN))]
    else row
  }

  method MapRow(schema: Schema, withSourceFile: bool, rec: GenericRecord, now: bytes)
    returns (row: map<bytes, RowValue>)
    ensures row == RowMap(schema, withSourceFile, rec, now)
  {
    row := map[];
    for i := 0 to |schema|
      invariant FieldEntries(schema, rec.values, 0, map[]) == FieldEntries(schema, rec.values, i, row)
    {
      if i < |rec.values| {
        if !rec.values[i].isNull {
          row := row[schema[i].name := Extract(schema[i], rec.values[i])];
        }
      }
    }
    if Routing.INGESTED_AT in rec.audit && rec.audit[Routing.INGESTED_AT] != [] {
      row := row[Routing.INGESTED_AT := StringVal(rec.audit[Routing.INGESTED_AT])];
    } else {
      row := row[Routing.INGESTED_AT := StringVal(now)];
    }
    if withSourceFile {
      if Routing.SOURCE_FILE in rec.audit && rec.audit[Routing.SOURCE_FILE] != [] {
        row := row[Routing.SOURCE_FILE := StringVal(rec.audit[Routing.SOURCE_FILE])];
      } else {
        row := row[Routing.SOURCE_FILE := StringVal(UNKNOWN)];
      }
    }
  }

  lemma {:induction false} FieldEntriesAt(
      schema: Schema, values: seq<FieldValue>, i: nat, row: map<bytes, RowValue>, n: bytes)
    requires i <= |schema|
    requires forall k :: i <= k < |schema| ==> schema[k].name != n
    ensures var r := FieldEntries(schema, values, i, row);
            (n in r <==> n in row) && (n in r ==> r[n] == row[n])
    decreases |schema| - i
  {
    if i < |schema| {
      FieldEntriesAt(schema, values, i + 1,
                     if i < |values| && !values[i].isNull then row[schema[i].name := Extract(schema[i], values[i])]
                     else row, n);
    }
  }

  /** A field has a key in the map exactly when it has a value that is not null. */
  lemma {:induction false} FieldEntry(
      schema: Schema, values: seq<FieldValue>, i: nat, row: map<bytes, RowValue>, j: nat)
    requires i <= j < |schema| && schema[j].name !in row
    requires forall k :: 0 <= k < |schema| && k != j ==> schema[k].name != schema[j].name
    ensures var r := FieldEntries(schema, values, i, row);
            && (schema[j].name in r <==> j < |values| && !values[j].isNull)
            && (schema[j].name in r ==> r[schema[j].name] == Extract(schema[j], values[j]))
    decreases |schema| - i
  {
    var next := if i < |values| && !values[i].isNull then row[schema[i].name := Extract(schema[i], values[i])] else row;
    if i < j {
      FieldEntry(schema, values, i + 1, next, j);
    } else {
      FieldEntriesAt(schema, values, i + 1, next, schema[j].name);
    }
  }

  // ---------------------------------------------------------------- the direct encoder

  function EncodeCell(f: Field, v: FieldValue, column: nat, maxLevel: nat): Cell {
    if v.isNull then Cell(Missing, 0, column)
    else
      match f.typ
      case TypeInt64 => Cell(Int64(ToInt64(v.num)), maxLevel, column)
      case TypeDecimal => Cell(Int64(ToInt64(v.num)), maxLevel, column)
      case TypeFloat64 => Cell(Double(v.num), maxLevel, column)
      case TypeBool => Cell(Boolean(v.num == 1), maxLevel, column)
      case TypeTimestamp => Cell(Int64(UnixMicro(ToInt64(v.num))), maxLevel, column)
      case TypeBytes => Cell(ByteArray(v.str), maxLevel, column)
      case _ => Cell(ByteArray(v.str), maxLevel, column)
  }

  /** Where the direct encoder writes: the columns and levels it has looked up. */
  datatype Target = Target(schema: Schema, withSourceFile: bool, cols: map<bytes, nat>, numCols: nat)

  ghost predicate Usable(t: Target) {
    Layout(t.schema, t.withSourceFile, t.cols, t.numCols)
  }

  predicate InRange(t: Target, width: nat) {
    && (forall k :: 0 <= k < |t.schema| ==> t.schema[k].name in t.cols && t.cols[t.schema[k].name] < width)
    && Routing.INGESTED_AT in t.cols && t.cols[Routing.INGESTED_AT] < width
    && (Routing.SOURCE_FILE in t.cols ==> t.cols[Routing.SOURCE_FILE] < width)
  }

  lemma UsableInRange(t: Target)
    requires Usable(t)
    ensures InRange(t, t.numCols)
  {
    assert Reserved(t.withSourceFile)[0] == Routing.INGESTED_AT;
  }

  function FieldCell(t: Target, values: seq<FieldValue>, i: nat): Cell
    requires i < |t.schema| && i < |values| && t.schema[i].name in t.cols
  {
    var name := t.schema[i].name;
    EncodeCell(t.schema[i], values[i], t.cols[name], MaxLevel(t.schema, t.withSourceFile, name))
  }

  function WriteFields(t: Target, values: seq<FieldValue>, i: nat, row: seq<Cell>): (out: seq<Cell>)
    requires i <= |t.schema| && InRange(t, |row|)
    ensures |out| == |row|
    decreases |t.schema| - i
  {
    if i == |t.schema| then row
    else if i < |values| then WriteFields(t, values, i + 1, row[t.cols[t.schema[i].name] := FieldCell(t, values, i)])
    else WriteFields(t, values, i + 1, row)
  }

  function IngestedCell(t: Target, rec: GenericRecord, now: bytes): Cell
    requires Routing.INGESTED_AT in t.cols
  {
    Cell(ByteArray(AuditOr(rec.audit, Routing.INGESTED_AT, now)), 0, t.cols[Routing.INGESTED_AT])
  }

  function SourceCell(t: Target, rec: GenericRecord): Cell
    requires Routing.SOURCE_FILE in t.cols
  {
    Cell(ByteArray(AuditOr(rec.audit, Routing.SOURCE_FILE, UNKNOWN)),
         MaxLevel(t.schema, t.withSourceFile, Routing.SOURCE_FILE), t.cols[Routing.SOURCE_FILE])
  }

  /**
   The row written over a buffer that held `stale`. The source file goes into any column of
   that name, be it reserved or a field's own.
   */
  function DirectRow(t: Target, rec: GenericRecord, now: bytes, stale: seq<Cell>): (out: seq<Cell>)
    requires InRange(t, |stale|)
    ensures |out| == |stale|
  {
    var row := WriteFields(t, rec.values, 0, stale)[t.cols[Routing.INGESTED_AT] := IngestedCell(t, rec, now)];
    if Routing.SOURCE_FILE in t.cols then row[t.cols[Routing.SOURCE_FILE] := SourceCell(t, rec)] else row
  }

  const ZERO_CELL := Cell(Missing, 0, 0)

  /** The buffer is reused when it is long enough and replaced by a new one otherwise. */
  method EncodeRow(t: Target, rec: GenericRecord, now: bytes, dest: array<Cell>) returns (row: array<Cell>)
    requires Usable(t)
    modifies dest
    ensures row.Length >= t.numCols && (row == dest || fresh(row))
    ensures InRange(t, t.numCols)
    ensures row[..t.numCols] == DirectRow(t, rec, now,
                if dest.Length < t.numCols then seq(t.numCols, _ => ZERO_CELL) else old(dest[..t.numCols]))
  {
    hide Usable, FieldCell;
    UsableInRange(t);
    var schema, cols, numCols := t.schema, t.cols, t.numCols;
    row := dest;
    if dest.Length < numCols {
      row := new Cell[numCols](_ => ZERO_CELL);
      assert row[..numCols] == seq(numCols, _ => ZERO_CELL);
    }
    ghost var stale := row[..numCols];
    for i := 0 to |schema|
      invariant WriteFields(t, rec.values, 0, stale) == WriteFields(t, rec.values, i, row[..numCols])
    {
      if i < |rec.values| {
        var c := cols[schema[i].name];
        ghost var before := row[..numCols];
        row[c] := FieldCell(t, rec.values, i);
        assert row[..numCols] == before[c := FieldCell(t, rec.values, i)];
      }
    }
    var ingestedAt := [];
    if Routing.INGESTED_AT in rec.audit && rec.audit[Routing.INGESTED_AT] != [] {
      ingestedAt := rec.audit[Routing.INGESTED_AT];
    } else {
      ingestedAt := now;
    }
    ghost var written := row[..numCols];
    var c := cols[Routing.INGESTED_AT];
    row[c] := Cell(ByteArray(ingestedAt), 0, c);
    assert row[..numCols] == written[c := IngestedCell(t, rec, now)];
    if Routing.SOURCE_FILE in cols {
      var sourceFile := UNKNOWN;
      if Routing.SOURCE_FILE in rec.audit && rec.audit[Routing.SOURCE_FILE] != [] {
        sourceFile := rec.audit[Routing.SOURCE_FILE];
      }
      written := row[..numCols];
      var d := cols[Routing.SOURCE_FILE];
      row[d] := Cell(ByteArray(sourceFile), MaxLevel(schema, t.withSourceFile, Routing.SOURCE_FILE), d);
      assert row[..numCols] == written[d := SourceCell(t, rec)];
    }
  }

  // ---------------------------------------------------------------- what is written

  lemma {:induction false} Untouched(t: Target, values: seq<FieldValue>, i: nat, row: seq<Cell>, c: nat)
    requires i <= |t.schema| && c < |row| && InRange(t, |row|)
    requires forall k :: i <= k < |t.schema| && k < |values| ==> t.cols[t.schema[k].name] != c
    ensures WriteFields(t, values, i, row)[c] == row[c]
    decreases |t.schema| - i
  {
    if i < |t.schema| {
      if i < |values| {
        Untouched(t, values, i + 1, row[t.cols[t.schema[i].name] := FieldCell(t, values, i)], c);
      } else {
        Untouched(t, values, i + 1, row, c);
      }
    }
  }

  lemma {:induction false} WrittenField(t: Target, values: seq<FieldValue>, i: nat, row: seq<Cell>, j: nat)
    requires i <= j < |t.schema| && j < |values| && InRange(t, |row|)
    requires forall k :: j < k < |t.schema| && k < |values| ==> t.cols[t.schema[k].name] != t.cols[t.schema[j].name]
    ensures WriteFields(t, values, i, row)[t.cols[t.schema[j].name]] == FieldCell(t, values, j)
    decreases |t.schema| - i
  {
    var at := t.cols[t.schema[i].name];
    var next := row[at := FieldCell(t, values, i)];
    if i < j {
      WrittenField(t, values, i + 1, next, j);
    } else {
      Untouched(t, values, i + 1, next, at);
    }
  }

  /** A column that some field with a value is written to no longer shows the old buffer. */
  lemma {:induction false} SameAfterWrite(
      t: Target, values: seq<FieldValue>, i: nat, a: seq<Cell>, b: seq<Cell>, c: nat)
    requires i <= |t.schema| && c < |a| == |b| && InRange(t, |a|)
    requires a[c] == b[c] || exists k :: i <= k < |t.schema| && k < |values| && t.cols[t.schema[k].name] == c
    ensures WriteFields(t, values, i, a)[c] == WriteFields(t, values, i, b)[c]
    decreases |t.schema| - i
  {
    if i < |t.schema| {
      if i < |values| {
        var at, cell := t.cols[t.schema[i].name], FieldCell(t, values, i);
        SameAfterWrite(t, values, i + 1, a[at := cell], b[at := cell], c);
      } else {
        SameAfterWrite(t, values, i + 1, a, b, c);
      }
    }
  }

  // ---------------------------------------------------------------- agreement

  lemma CellMatches(f: Field, v: FieldValue, c: nat, maxLevel: nat)
    ensures EncodeCell(f, v, c, maxLevel).value == if v.isNull then Missing else ToPhysical(Extract(f, v))
    ensures EncodeCell(f, v, c, maxLevel).column == c
    ensures !v.isNull ==> EncodeCell(f, v, c, maxLevel).value != Missing
  {
  }

  /** The direct row has in column n the physical form of the map's entry, and null where the map has no key. */
  ghost predicate AgreeAt(t: Target, rec: GenericRecord, now: bytes, stale: seq<Cell>, n: bytes)
    requires InRange(t, |stale|) && n in t.cols && t.cols[n] < |stale|
  {
    var row, m := DirectRow(t, rec, now, stale), RowMap(t.schema, t.withSourceFile, rec, now);
    && row[t.cols[n]].value == (if n in m then ToPhysical(m[n]) else Missing)
    && (row[t.cols[n]].value == Missing <==> n !in m)
    && row[t.cols[n]].column == t.cols[n]
  }

  lemma NamesApart(withSourceFile: bool)
    ensures Routing.INGESTED_AT != Routing.SOURCE_FILE
    ensures Routing.INGESTED_AT in Reserved(withSourceFile)
    ensures Routing.SOURCE_FILE in Reserved(withSourceFile) <==> withSourceFile
    ensures forall n :: n in Reserved(withSourceFile) ==> n == Routing.INGESTED_AT || n == Routing.SOURCE_FILE
  {
    assert Routing.INGESTED_AT[1] != Routing.SOURCE_FILE[1];
    assert withSourceFile ==> Reserved(withSourceFile)[1] == Routing.SOURCE_FILE;
    assert Reserved(withSourceFile)[0] == Routing.INGESTED_AT;
  }

  /** A field that shares its name with no other and with no reserved column. */
  lemma FieldColumn(t: Target, rec: GenericRecord, now: bytes, stale: seq<Cell>, j: nat)
    requires Usable(t) && |stale| == t.numCols && j < |t.schema| && j < |rec.values|
    requires t.schema[j].name != Routing.INGESTED_AT && t.schema[j].name != Routing.SOURCE_FILE
    requires forall k :: 0 <= k < |t.schema| && k != j ==> t.schema[k].name != t.schema[j].name
    ensures InRange(t, |stale|) && t.schema[j].name in t.cols && t.cols[t.schema[j].name] < |stale|
    ensures DirectRow(t, rec, now, stale)[t.cols[t.schema[j].name]] == FieldCell(t, rec.values, j)
    ensures AgreeAt(t, rec, now, stale, t.schema[j].name)
  {
    hide WriteFields, FieldEntries, EncodeCell, Extract, ToPhysical, MaxLevel;
    UsableInRange(t);
    var n := t.schema[j].name;
    NamesApart(t.withSourceFile);
    FieldEntry(t.schema, rec.values, 0, map[], j);
    CellMatches(t.schema[j], rec.values[j], t.cols[n], MaxLevel(t.schema, t.withSourceFile, n));
    WrittenField(t, rec.values, 0, stale, j);
  }

  /** What a column of the row is worth: the storage of the value, and of a time its whole microseconds. */
  predicate Denotes(typ: DataType, v: FieldValue, p: Physical) {
    match typ
    case TypeInt64 => p.Int64? && p.i == ToInt64(v.num)
    case TypeDecimal => p.Int64? && p.i == ToInt64(v.num)
    case TypeTimestamp => p.Int64? && 1000 * p.i <= ToInt64(v.num) < 1000 * p.i + 1000
    case TypeFloat64 => p == Double(v.num)
    case TypeBool => p.Boolean? && (p.b <==> v.num == 1)
    case _ => p == ByteArray(v.str)
  }

  lemma EntryDenotes(f: Field, v: FieldValue, c: nat, maxLevel: nat)
    requires !v.isNull
    ensures Denotes(f.typ, v, ToPhysical(Extract(f, v)))
    ensures Denotes(f.typ, v, EncodeCell(f, v, c, maxLevel).value)
    ensures EncodeCell(f, v, c, maxLevel).definition == maxLevel
  {
  }

  /** Both rows hold the value: the map its entry, the direct row its cell, at the column's own level. */
  lemma ValuesAreKept(t: Target, rec: GenericRecord, now: bytes, stale: seq<Cell>, j: nat)
    requires Usable(t) && |stale| == t.numCols && j < |t.schema| && j < |rec.values| && !rec.values[j].isNull
    requires t.schema[j].name != Routing.INGESTED_AT && t.schema[j].name != Routing.SOURCE_FILE
    requires forall k :: 0 <= k < |t.schema| && k != j ==> t.schema[k].name != t.schema[j].name
    ensures InRange(t, |stale|) && t.schema[j].name in t.cols && t.cols[t.schema[j].name] < |stale|
    ensures var f, m := t.schema[j], RowMap(t.schema, t.withSourceFile, rec, now);
            f.name in m && Denotes(f.typ, rec.values[j], ToPhysical(m[f.name]))
    ensures var f := t.schema[j];
            var cell := DirectRow(t, rec, now, stale)[t.cols[f.name]];
            Denotes(f.typ, rec.values[j], cell.value) && cell.definition == (if f.nullable then 1 else 0)
  {
    hide WriteFields, FieldEntries, EncodeCell, Extract, ToPhysical, Denotes;
    var f := t.schema[j];
    UsableInRange(t);
    NamesApart(t.withSourceFile);
    LastNullableOf(t.schema, j);
    FieldEntry(t.schema, rec.values, 0, map[], j);
    FieldColumn(t, rec, now, stale, j);
    EntryDenotes(f, rec.values[j], t.cols[f.name], MaxLevel(t.schema, t.withSourceFile, f.name));
  }

  lemma {:induction false} LastNullableOf(schema: Schema, j: nat)
    requires j < |schema| && forall k :: 0 <= k < |schema| && k != j ==> schema[k].name != schema[j].name
    ensures LastNullable(schema, schema[j].name) == schema[j].nullable
  {
    if j < |schema| - 1 {
      LastNullableOf(schema[..|schema| - 1], j);
    }
  }

  /** The text of a reserved column: the record's own if it has any, and else the time or "unknown". */
  lemma ReservedTexts(t: Target, rec: GenericRecord, now: bytes, stale: seq<Cell>)
    requires Usable(t) && |stale| == t.numCols
    ensures InRange(t, |stale|)
    ensures DirectRow(t, rec, now, stale)[t.cols[Routing.INGESTED_AT]].value
         == ByteArray(if Own(rec, Routing.INGESTED_AT) then rec.audit[Routing.INGESTED_AT] else now)
    ensures t.withSourceFile ==>
              && Routing.SOURCE_FILE in t.cols
              && DirectRow(t, rec, now, stale)[t.cols[Routing.SOURCE_FILE]].value
                 == ByteArray(if Own(rec, Routing.SOURCE_FILE) then rec.audit[Routing.SOURCE_FILE]
                              else [117, 110, 107, 110, 111, 119, 110])
  {
    hide WriteFields;
    UsableInRange(t);
    NamesApart(t.withSourceFile);
  }

  predicate Own(rec: GenericRecord, key: bytes) {
    key in rec.audit && rec.audit[key] != []
  }

  lemma ReservedColumns(t: Target, rec: GenericRecord, now: bytes, stale: seq<Cell>, n: bytes)
    requires Usable(t) && |stale| == t.numCols && n in Reserved(t.withSourceFile)
    ensures InRange(t, |stale|) && n in t.cols && t.cols[n] < |stale| && AgreeAt(t, rec, now, stale, n)
  {
    hide WriteFields, FieldEntries;
    UsableInRange(t);
    NamesApart(t.withSourceFile);
  }

  /**
   Agreement. For a record with a value for every field, the direct row has, in every column, the
   physical form of the map's entry for that column, and null exactly where the map has no key,
   whatever the reused buffer held.
   */
  lemma EncodersAgree(t: Target, rec: GenericRecord, now: bytes, stale: seq<Cell>, n: bytes)
    requires Usable(t) && |stale| == t.numCols && Unambiguous(t.schema, t.withSourceFile)
    requires |rec.values| >= |t.schema| && n in t.cols
    ensures InRange(t, |stale|) && t.cols[n] < |stale| && AgreeAt(t, rec, now, stale, n)
  {
    NamesApart(t.withSourceFile);
    if n in Reserved(t.withSourceFile) {
      ReservedColumns(t, rec, now, stale, n);
    } else {
      var j :| 0 <= j < |t.schema| && t.schema[j].name == n;
      assert !t.withSourceFile ==> n != Routing.SOURCE_FILE;
      FieldColumn(t, rec, now, stale, j);
    }
  }

  /** All full records agree in all columns, whatever the buffer held. */
  ghost predicate AgreeOnAll(t: Target, now: bytes) {
    forall rec: GenericRecord, stale: seq<Cell>, n: bytes ::
      && |rec.values| >= |t.schema| && |stale| == t.numCols
      && n in t.cols && InRange(t, |stale|) && t.cols[n] < |stale| ==>
        AgreeAt(t, rec, now, stale, n)
  }

  /** Without the flag a field's own source file column is overwritten by the direct encoder, and by it alone. */
  lemma SourceFieldOverwritten(t: Target, rec: GenericRecord, now: bytes, stale: seq<Cell>, j: nat)
    requires Usable(t) && |stale| == t.numCols && !t.withSourceFile
    requires j < |t.schema| && t.schema[j].name == Routing.SOURCE_FILE && j < |rec.values|
    requires forall k :: 0 <= k < |t.schema| && k != j ==> t.schema[k].name != Routing.SOURCE_FILE
    ensures InRange(t, |stale|) && Routing.SOURCE_FILE in t.cols && t.cols[Routing.SOURCE_FILE] < |stale|
    ensures DirectRow(t, rec, now, stale)[t.cols[Routing.SOURCE_FILE]].value
         == ByteArray(AuditOr(rec.audit, Routing.SOURCE_FILE, UNKNOWN))
    ensures var m := RowMap(t.schema, false, rec, now);
            if rec.values[j].isNull then Routing.SOURCE_FILE !in m
            else Routing.SOURCE_FILE in m && m[Routing.SOURCE_FILE] == Extract(t.schema[j], rec.values[j])
  {
    hide WriteFields, FieldEntries, Extract;
    UsableInRange(t);
    NamesApart(false);
    FieldEntry(t.schema, rec.values, 0, map[], j);
  }

  /** A concrete schema and record: the row says that the source is unknown, the map says "a". */
  lemma SourceFieldExample(now: bytes)
    ensures var schema := [Field(Routing.SOURCE_FILE, TypeString, false, 0, [])];
            var t := Target(schema, false, map[Routing.SOURCE_FILE := 1, Routing.INGESTED_AT := 0], 2);
            var rec := GenericRecord([], [FieldValue(TypeString, false, 0, 0, [97])], map[]);
            var stale := [ZERO_CELL, ZERO_CELL];
            && Usable(t) && InRange(t, 2)
            && DirectRow(t, rec, now, stale)[1].value == ByteArray(UNKNOWN)
            && Routing.SOURCE_FILE in RowMap(schema, false, rec, now)
            && RowMap(schema, false, rec, now)[Routing.SOURCE_FILE] == StringVal([97])
  {
    var schema := [Field(Routing.SOURCE_FILE, TypeString, false, 0, [])];
    var cols := map[Routing.SOURCE_FILE := 1, Routing.INGESTED_AT := 0];
    var t := Target(schema, false, cols, 2);
    var rec := GenericRecord([], [FieldValue(TypeString, false, 0, 0, [97])], map[]);
    NamesApart(false);
    assert schema[0].name == Routing.SOURCE_FILE;
    assert Named(cols, 0) by {
      assert cols[Routing.INGESTED_AT] == 0;
    }
    assert Named(cols, 1) by {
      assert cols[Routing.SOURCE_FILE] == 1;
    }
    SourceFieldOverwritten(t, rec, now, [ZERO_CELL, ZERO_CELL], 0);
  }

  function NullRecord(n: nat): (rec: GenericRecord)
    ensures |rec.values| == n && forall i :: 0 <= i < n ==> rec.values[i].isNull
    ensures rec.audit == map[]
  {
    GenericRecord([], seq(n, _ => ZERO_VALUE.(isNull := true)), map[])
  }

  /** A record of nulls leaves no field entry in the map. */
  lemma {:induction false} NoEntries(schema: Schema, values: seq<FieldValue>, i: nat, row: map<bytes, RowValue>)
    requires i <= |schema| && forall k :: i <= k < |schema| && k < |values| ==> values[k].isNull
    ensures FieldEntries(schema, values, i, row) == row
    decreases |schema| - i
  {
    if i < |schema| {
      NoEntries(schema, values, i + 1, row);
    }
  }

  /** With a field of the source file's name and no flag, the record of nulls is a disagreement. */
  lemma SourceFieldDisagrees(t: Target, now: bytes, stale: seq<Cell>)
    requires Usable(t) && |stale| == t.numCols && !t.withSourceFile && HasField(t.schema, Routing.SOURCE_FILE)
    ensures InRange(t, |stale|) && Routing.SOURCE_FILE in t.cols && t.cols[Routing.SOURCE_FILE] < |stale|
    ensures !AgreeAt(t, NullRecord(|t.schema|), now, stale, Routing.SOURCE_FILE)
  {
    hide WriteFields, FieldEntries;
    UsableInRange(t);
    NamesApart(false);
    NoEntries(t.schema, NullRecord(|t.schema|).values, 0, map[]);
  }

  /** Two fields of one name: a null in the later one blanks the column and leaves the map entry. */
  lemma RepeatedNameDisagrees(t: Target, now: bytes, stale: seq<Cell>, i: nat, j: nat)
    requires Usable(t) && |stale| == t.numCols && i < j < |t.schema| && t.schema[i].name == t.schema[j].name
    requires t.schema[i].name != Routing.INGESTED_AT && t.schema[i].name != Routing.SOURCE_FILE
    ensures InRange(t, |stale|) && t.schema[i].name in t.cols && t.cols[t.schema[i].name] < |stale|
    ensures var nulls := NullRecord(|t.schema|);
            !AgreeAt(t, nulls.(values := nulls.values[i := ZERO_VALUE]), now, stale, t.schema[i].name)
  {
    hide WriteFields, EncodeCell, Extract, ToPhysical, MaxLevel;
    UsableInRange(t);
    NamesApart(t.withSourceFile);
    var n := t.schema[i].name;
    var nulls := NullRecord(|t.schema|);
    var rec := nulls.(values := nulls.values[i := ZERO_VALUE]);
    EntryOfOne(t.schema, rec.values, 0, map[], i);
    var last := LastOf(t.schema, n, j);
    WrittenField(t, rec.values, 0, stale, last);
    CellMatches(t.schema[last], rec.values[last], t.cols[n], MaxLevel(t.schema, t.withSourceFile, n));
  }

  /** The last field of a name. */
  lemma LastOf(schema: Schema, n: bytes, j: nat) returns (last: nat)
    requires j < |schema| && schema[j].name == n
    ensures j <= last < |schema| && schema[last].name == n && forall k :: last < k < |schema| ==> schema[k].name != n
  {
    last := |schema| - 1;
    while schema[last].name != n
      invariant j <= last < |schema| && forall k :: last < k < |schema| ==> schema[k].name != n
      decreases last
    {
      last := last - 1;
    }
  }

  /** The one value that is not null has a map entry. */
  lemma {:induction false} EntryOfOne(
      schema: Schema, values: seq<FieldValue>, i: nat, row: map<bytes, RowValue>, j: nat)
    requires i <= j < |schema| && j < |values| && !values[j].isNull
    requires forall k :: i <= k < |schema| && k < |values| && k != j ==> values[k].isNull
    ensures schema[j].name in FieldEntries(schema, values, i, row)
    decreases |schema| - i
  {
    if i < j {
      EntryOfOne(schema, values, i + 1, row, j);
    } else {
      NoEntries(schema, values, i + 1, row[schema[i].name := Extract(schema[i], values[i])]);
    }
  }

  /**
   Exactly for which schemas the two encoders agree on every full record: those that with the
   flag off have no field named as the source file column, and in which no two fields share a
   name that is not overwritten.
   */
  lemma EncodersAgreeIff(t: Target, now: bytes)
    requires Usable(t)
    ensures AgreeOnAll(t, now) <==> Unambiguous(t.schema, t.withSourceFile)
  {
    hide AgreeAt, InRange, Usable;
    UsableInRange(t);
    NamesApart(t.withSourceFile);
    if Unambiguous(t.schema, t.withSourceFile) {
      forall rec: GenericRecord, stale: seq<Cell>, n: bytes
        | && |rec.values| >= |t.schema| && |stale| == t.numCols
          && n in t.cols && InRange(t, |stale|) && t.cols[n] < |stale|
        ensures AgreeAt(t, rec, now, stale, n)
      {
        EncodersAgree(t, rec, now, stale, n);
      }
    } else {
      AmbiguousDisagrees(t, now);
    }
  }

  lemma AmbiguousDisagrees(t: Target, now: bytes)
    requires Usable(t) && !Unambiguous(t.schema, t.withSourceFile)
    ensures !AgreeOnAll(t, now)
  {
    hide AgreeAt;
    NamesApart(t.withSourceFile);
    var stale := seq(t.numCols, _ => ZERO_CELL);
    if !t.withSourceFile && HasField(t.schema, Routing.SOURCE_FILE) {
      SourceFieldDisagrees(t, now, stale);
    } else {
      var i, j :| 0 <= i < j < |t.schema| && t.schema[i].name == t.schema[j].name
                  && t.schema[i].name !in Reserved(t.withSourceFile);
      assert t.schema[i].name != Routing.SOURCE_FILE;
      RepeatedNameDisagrees(t, now, stale, i, j);
    }
  }

  // ---------------------------------------------------------------- the reused buffer

  /** Column n is written for every record with this many values. */
  ghost predicate AlwaysWritten(t: Target, count: nat, n: bytes) {
    || n == Routing.INGESTED_AT || n == Routing.SOURCE_FILE
    || exists k :: 0 <= k < |t.schema| && k < count && t.schema[k].name == n
  }

  /** Exactly when the row does not depend on the old buffer: when every field's column is written. */
  lemma IndependentIff(t: Target, rec: GenericRecord, now: bytes)
    requires Usable(t)
    ensures InRange(t, t.numCols)
    ensures (forall a: seq<Cell>, b: seq<Cell> :: |a| == t.numCols && |b| == t.numCols ==>
               DirectRow(t, rec, now, a) == DirectRow(t, rec, now, b))
            <==> forall k :: |rec.values| <= k < |t.schema| ==> AlwaysWritten(t, |rec.values|, t.schema[k].name)
  {
    hide DirectRow;
    UsableInRange(t);
    if forall k :: |rec.values| <= k < |t.schema| ==> AlwaysWritten(t, |rec.values|, t.schema[k].name) {
      forall a: seq<Cell>, b: seq<Cell> | |a| == t.numCols && |b| == t.numCols
        ensures DirectRow(t, rec, now, a) == DirectRow(t, rec, now, b)
      {
        SameRow(t, rec, now, a, b);
      }
    } else {
      var k :| |rec.values| <= k < |t.schema| && !AlwaysWritten(t, |rec.values|, t.schema[k].name);
      StaleCellShows(t, rec, now, Cell(Missing, 0, 0), k);
      StaleCellShows(t, rec, now, Cell(Missing, 1, 0), k);
      var a, b := seq(t.numCols, _ => Cell(Missing, 0, 0)), seq(t.numCols, _ => Cell(Missing, 1, 0));
      assert DirectRow(t, rec, now, a) != DirectRow(t, rec, now, b);
    }
  }

  lemma SameRow(t: Target, rec: GenericRecord, now: bytes, a: seq<Cell>, b: seq<Cell>)
    requires Usable(t) && |a| == t.numCols && |b| == t.numCols
    requires forall k :: |rec.values| <= k < |t.schema| ==> AlwaysWritten(t, |rec.values|, t.schema[k].name)
    ensures InRange(t, t.numCols) && DirectRow(t, rec, now, a) == DirectRow(t, rec, now, b)
  {
    hide WriteFields;
    UsableInRange(t);
    NamesApart(t.withSourceFile);
    var ra, rb := DirectRow(t, rec, now, a), DirectRow(t, rec, now, b);
    forall c | 0 <= c < t.numCols ensures ra[c] == rb[c] {
      assert Named(t.cols, c);
      var n :| n in t.cols && t.cols[n] == c;
      if n != Routing.INGESTED_AT && n != Routing.SOURCE_FILE {
        var j :| 0 <= j < |t.schema| && t.schema[j].name == n;
        assert j < |rec.values| || AlwaysWritten(t, |rec.values|, n);
        SameAfterWrite(t, rec.values, 0, a, b, c);
      }
    }
  }

  /** The column of a field without a value, that nothing else writes, shows the old cell. */
  lemma StaleCellShows(t: Target, rec: GenericRecord, now: bytes, old_: Cell, k: nat)
    requires Usable(t) && |rec.values| <= k < |t.schema| && !AlwaysWritten(t, |rec.values|, t.schema[k].name)
    ensures InRange(t, t.numCols) && t.schema[k].name in t.cols
    ensures DirectRow(t, rec, now, seq(t.numCols, _ => old_))[t.cols[t.schema[k].name]] == old_
  {
    hide WriteFields;
    UsableInRange(t);
    Untouched(t, rec.values, 0, seq(t.numCols, _ => old_), t.cols[t.schema[k].name]);
  }
}
