/**
 The columnar record batch: parallel column vectors, one null bit per cell and one validity bit
 per row, 64 to a word. The batch is proved to be a faithful stand-in for a plain sequence of
 rows under every sequence of appends, quarantine flags and resets.
 */
module RecordBatches {
  import opened Basics
  import opened Bits
  import opened Records

  const DEFAULT_CAPACITY := 5000
  const MIN_CAPACITY := 64
  const ALL_ONES: uint64 := 0xFFFF_FFFF_FFFF_FFFF

  // ---------------------------------------------------------------- bitmaps

  function Words(n: nat): nat {
    (n + 63) / 64
  }

  predicate BitAt(words: seq<uint64>, r: nat)
    requires r < 64 * |words|
  {
    Bit(words[r / 64], r % 64)
  }

  function Raise(words: seq<uint64>, r: nat): (out: seq<uint64>)
    requires r < 64 * |words|
    ensures |out| == |words|
  {
    Pow2Values();
    BitsStayInWord(words[r / 64], r % 64, 64);
    words[r / 64 := SetBit(words[r / 64], r % 64)]
  }

  function Lower(words: seq<uint64>, r: nat): (out: seq<uint64>)
    requires r < 64 * |words|
    ensures |out| == |words|
  {
    Pow2Values();
    BitsStayInWord(words[r / 64], r % 64, 64);
    words[r / 64 := ClearBit(words[r / 64], r % 64)]
  }

  lemma RaiseBits(words: seq<uint64>, r: nat, q: nat)
    requires r < 64 * |words| && q < 64 * |words|
    ensures BitAt(Raise(words, r), q) == (q == r || BitAt(words, q))
  {
    SetBitBits(words[r / 64], r % 64, q % 64);
  }

  lemma LowerBits(words: seq<uint64>, r: nat, q: nat)
    requires r < 64 * |words| && q < 64 * |words|
    ensures BitAt(Lower(words, r), q) == (q != r && BitAt(words, q))
  {
    ClearBitBits(words[r / 64], r % 64, q % 64);
  }

  lemma ConstantBits(words: seq<uint64>, r: nat)
    requires r < 64 * |words|
    ensures words[r / 64] == 0 ==> !BitAt(words, r)
    ensures words[r / 64] == ALL_ONES ==> BitAt(words, r)
  {
    ZeroHasNoBits(r % 64);
    Pow2Values();
    OnesHaveAllBits(64, r % 64);
  }

  // ---------------------------------------------------------------- columns

  /** Only the vectors that the field's type uses are filled. */
  datatype Column = Column(num: seq<uint64>, str: seq<bytes>, scale: seq<int32>, nulls: seq<uint64>)

  ghost predicate ColumnOk(f: Field, c: Column, n: nat, words: nat) {
    && |c.nulls| == words && n <= 64 * words
    && |c.num| == (if IsNumericDataType(f.typ) then n else 0)
    && |c.scale| == (if f.typ.TypeDecimal? then n else 0)
    && |c.str| == (if IsNumericDataType(f.typ) then 0 else n)
    && (forall r :: n <= r < 64 * words ==> !BitAt(c.nulls, r))
  }

  /** The cell that the iterator shows for row r. */
  function CellAt(f: Field, c: Column, n: nat, words: nat, r: nat): FieldValue
    requires ColumnOk(f, c, n, words) && r < n
  {
    if BitAt(c.nulls, r) then NullOf(f.typ)
    else if IsNumericDataType(f.typ) then
      FieldValue(f.typ, false, if f.typ.TypeDecimal? then c.scale[r] else 0, c.num[r], [])
    else FieldValue(f.typ, false, 0, 0, c.str[r])
  }

  /** The value that a record contributes to a column: a missing one is null, and only the column's storage is kept. */
  function NormalCell(f: Field, rec: Option<GenericRecord>, i: nat): FieldValue {
    if rec.None? || i >= |rec.value.values| || rec.value.values[i].isNull then NullOf(f.typ)
    else
      var v := rec.value.values[i];
      if IsNumericDataType(f.typ) then FieldValue(f.typ, false, if f.typ.TypeDecimal? then v.scale else 0, v.num, [])
      else FieldValue(f.typ, false, 0, 0, v.str)
  }

  function AppendCell(f: Field, c: Column, n: nat, v: FieldValue): Column
    requires n < 64 * |c.nulls|
  {
    Column(
      if IsNumericDataType(f.typ) then c.num + [v.num] else c.num,
      if IsNumericDataType(f.typ) then c.str else c.str + [v.str],
      if f.typ.TypeDecimal? then c.scale + [v.scale] else c.scale,
      if v.isNull then Raise(c.nulls, n) else c.nulls)
  }

  lemma AppendCellOk(f: Field, c: Column, n: nat, words: nat, rec: Option<GenericRecord>, i: nat)
    requires ColumnOk(f, c, n, words) && n < 64 * words
    ensures var c' := AppendCell(f, c, n, NormalCell(f, rec, i));
            && ColumnOk(f, c', n + 1, words)
            && CellAt(f, c', n + 1, words, n) == NormalCell(f, rec, i)
            && (forall r :: 0 <= r < n ==> CellAt(f, c', n + 1, words, r) == CellAt(f, c, n, words, r))
  {
    forall q | 0 <= q < 64 * words ensures BitAt(Raise(c.nulls, n), q) == (q == n || BitAt(c.nulls, q)) {
      RaiseBits(c.nulls, n, q);
    }
  }

  // ---------------------------------------------------------------- batches as values

  datatype Batch = Batch(
    schema: Schema, capacity: nat, rowCount: nat,
    cols: seq<Column>, validMask: seq<uint64>, audits: seq<map<bytes, bytes>>)

  datatype Row = Row(cells: seq<FieldValue>, valid: bool, audit: map<bytes, bytes>)

  ghost predicate Valid(b: Batch) {
    && b.rowCount <= b.capacity
    && |b.cols| == |b.schema|
    && (forall i :: 0 <= i < |b.cols| ==> ColumnOk(b.schema[i], b.cols[i], b.rowCount, Words(b.capacity)))
    && |b.validMask| == Words(b.capacity)
    && (forall r :: b.rowCount <= r < 64 * |b.validMask| ==> BitAt(b.validMask, r))
    && |b.audits| == b.rowCount
  }

  function Cells(b: Batch, r: nat): (cells: seq<FieldValue>)
    requires Valid(b) && r < b.rowCount
    ensures |cells| == |b.schema|
  {
    seq(|b.schema|, i requires 0 <= i < |b.schema| => CellAt(b.schema[i], b.cols[i], b.rowCount, Words(b.capacity), r))
  }

  /** The plain sequence of rows that the batch stands for. */
  function Rows(b: Batch): (rows: seq<Row>)
    requires Valid(b)
    ensures |rows| == b.rowCount
  {
    seq(b.rowCount, r requires 0 <= r < b.rowCount => Row(Cells(b, r), BitAt(b.validMask, r), b.audits[r]))
  }

  function EffectiveCapacity(capacity: int): nat {
    var c := if capacity == 0 then DEFAULT_CAPACITY else capacity;
    if c < MIN_CAPACITY then MIN_CAPACITY else c
  }

  function Repeat<T>(x: T, n: nat): (s: seq<T>)
    ensures |s| == n && forall i :: 0 <= i < n ==> s[i] == x
  {
    seq(n, _ => x)
  }

  function Fresh(schema: Schema, capacity: nat): Batch {
    Batch(schema, capacity, 0, Repeat(Column([], [], [], Repeat(0, Words(capacity))), |schema|),
          Repeat(ALL_ONES, Words(capacity)), [])
  }

  function NormalCells(schema: Schema, rec: Option<GenericRecord>): (cells: seq<FieldValue>)
    ensures |cells| == |schema| && forall i :: 0 <= i < |schema| ==> cells[i] == NormalCell(schema[i], rec, i)
  {
    seq(|schema|, i requires 0 <= i < |schema| => NormalCell(schema[i], rec, i))
  }

  function AuditOf(rec: Option<GenericRecord>): map<bytes, bytes> {
    if rec.Some? then rec.value.audit else map[]
  }

  function Append(b: Batch, rec: Option<GenericRecord>): Batch
    requires Valid(b)
  {
    if b.rowCount >= b.capacity then b
    else
      b.(rowCount := b.rowCount + 1,
         cols := seq(|b.schema|, i requires 0 <= i < |b.schema| =>
           AppendCell(b.schema[i], b.cols[i], b.rowCount, NormalCell(b.schema[i], rec, i))),
         audits := b.audits + [AuditOf(rec)])
  }

  function SetValid(b: Batch, idx: int, valid: bool): Batch
    requires Valid(b)
  {
    if idx < 0 || idx >= b.rowCount then b
    else b.(validMask := if valid then Raise(b.validMask, idx) else Lower(b.validMask, idx))
  }

  // ---------------------------------------------------------------- refinement of a sequence of rows

  lemma FreshOk(schema: Schema, capacity: nat)
    ensures Valid(Fresh(schema, capacity)) && Rows(Fresh(schema, capacity)) == []
  {
    var b := Fresh(schema, capacity);
    forall r | 0 <= r < 64 * Words(capacity)
      ensures BitAt(b.validMask, r)
      ensures !BitAt(Repeat(0, Words(capacity)), r)
    {
      ConstantBits(b.validMask, r);
      ConstantBits(Repeat(0, Words(capacity)), r);
    }
  }

  /** An append adds one row in normal form, valid, at the end and touches no other row. */
  lemma AppendOk(b: Batch, rec: Option<GenericRecord>)
    requires Valid(b)
    ensures Valid(Append(b, rec))
    ensures Rows(Append(b, rec)) ==
            if b.rowCount >= b.capacity then Rows(b)
            else Rows(b) + [Row(NormalCells(b.schema, rec), true, AuditOf(rec))]
  {
    if b.rowCount < b.capacity {
      var n := Append(b, rec);
      forall i | 0 <= i < |b.schema|
        ensures ColumnOk(b.schema[i], n.cols[i], n.rowCount, Words(b.capacity))
        ensures CellAt(b.schema[i], n.cols[i], n.rowCount, Words(b.capacity), b.rowCount)
             == NormalCell(b.schema[i], rec, i)
        ensures forall r :: 0 <= r < b.rowCount ==>
                  CellAt(b.schema[i], n.cols[i], n.rowCount, Words(b.capacity), r)
                  == CellAt(b.schema[i], b.cols[i], b.rowCount, Words(b.capacity), r)
      {
        AppendCellOk(b.schema[i], b.cols[i], b.rowCount, Words(b.capacity), rec, i);
      }
      assert Cells(n, b.rowCount) == NormalCells(b.schema, rec);
      forall r | 0 <= r < b.rowCount ensures Cells(n, r) == Cells(b, r) {
      }
    }
  }

  /** Rows come back: values of their fields' types are read as they were appended, number, scale and text. */
  lemma RowsComeBack(b: Batch, rec: GenericRecord)
    requires Valid(b) && b.rowCount < b.capacity && |rec.values| == |b.schema|
    requires forall i :: 0 <= i < |b.schema| ==> OwnStorage(b.schema[i].typ, rec.values[i])
    ensures Valid(Append(b, Some(rec)))
    ensures Rows(Append(b, Some(rec))) == Rows(b) + [Row(rec.values, true, rec.audit)]
  {
    AppendOk(b, Some(rec));
    assert NormalCells(b.schema, Some(rec)) == rec.values;
  }

  /** Asked for nothing a batch holds 5000 rows, asked for little it holds 64, and else what it was asked for. */
  lemma CapacityAsked(capacity: int)
    ensures var c := EffectiveCapacity(capacity);
            && 64 <= c && capacity <= c && (capacity == 0 <==> c == 5000 && capacity != 5000)
            && (capacity >= 64 ==> c == capacity) && (capacity < 64 && capacity != 0 ==> c == 64)
  {
  }

  lemma SetValidOk(b: Batch, idx: int, valid: bool)
    requires Valid(b)
    ensures Valid(SetValid(b, idx, valid))
    ensures Rows(SetValid(b, idx, valid)) ==
            if 0 <= idx < b.rowCount then Rows(b)[idx := Rows(b)[idx].(valid := valid)] else Rows(b)
  {
    if 0 <= idx < b.rowCount {
      var n := SetValid(b, idx, valid);
      forall q | 0 <= q < 64 * |b.validMask|
        ensures BitAt(n.validMask, q) == if q == idx then valid else BitAt(b.validMask, q)
      {
        RaiseBits(b.validMask, idx, q);
        LowerBits(b.validMask, idx, q);
      }
      forall r | 0 <= r < b.rowCount ensures Cells(n, r) == Cells(b, r) {
      }
    }
  }

  datatype Op = AppendOp(rec: Option<GenericRecord>) | SetValidOp(idx: int, valid: bool) | ResetOp

  function Apply(b: Batch, op: Op): Batch
    requires Valid(b)
  {
    match op
    case AppendOp(rec) => Append(b, rec)
    case SetValidOp(idx, valid) => SetValid(b, idx, valid)
    case ResetOp => Fresh(b.schema, b.capacity)
  }

  /** The same operations on a plain sequence of rows. */
  function ApplyToRows(schema: Schema, capacity: nat, rows: seq<Row>, op: Op): seq<Row> {
    match op
    case AppendOp(rec) =>
      if |rows| >= capacity then rows else rows + [Row(NormalCells(schema, rec), true, AuditOf(rec))]
    case SetValidOp(idx, valid) =>
      if 0 <= idx < |rows| then rows[idx := rows[idx].(valid := valid)] else rows
    case ResetOp => []
  }

  function RunRows(schema: Schema, capacity: nat, rows: seq<Row>, ops: seq<Op>): seq<Row>
    decreases |ops|
  {
    if ops == [] then rows else RunRows(schema, capacity, ApplyToRows(schema, capacity, rows, ops[0]), ops[1..])
  }

  lemma ApplyOk(b: Batch, op: Op)
    requires Valid(b)
    ensures var n := Apply(b, op);
            Valid(n) && n.schema == b.schema && n.capacity == b.capacity
            && Rows(n) == ApplyToRows(b.schema, b.capacity, Rows(b), op)
  {
    match op {
      case AppendOp(rec) => AppendOk(b, rec);
      case SetValidOp(idx, valid) => SetValidOk(b, idx, valid);
      case ResetOp => FreshOk(b.schema, b.capacity);
    }
  }

  /** The batch after a run; meaningful because every operation keeps the invariant. */
  ghost function Run(b: Batch, ops: seq<Op>): Batch
    requires Valid(b)
    decreases |ops|
  {
    if ops == [] then b
    else
      ApplyOk(b, ops[0]);
      Run(Apply(b, ops[0]), ops[1..])
  }

  /** Every run of the batch is a run of the plain sequence, step for step. */
  lemma {:induction false} BatchRefinesRows(b: Batch, ops: seq<Op>)
    requires Valid(b)
    ensures Valid(Run(b, ops))
    ensures Rows(Run(b, ops)) == RunRows(b.schema, b.capacity, Rows(b), ops)
    decreases |ops|
  {
    if ops != [] {
      ApplyOk(b, ops[0]);
      BatchRefinesRows(Apply(b, ops[0]), ops[1..]);
    }
  }

  // ---------------------------------------------------------------- the class

  function ValidRows(rows: seq<Row>): seq<Row> {
    if rows == [] then []
    else ValidRows(rows[..|rows| - 1]) + (if rows[|rows| - 1].valid then [rows[|rows| - 1]] else [])
  }

  class RecordBatch {
    const schema: Schema
    const capacity: nat
    var rowCount: nat
    var numCols: seq<seq<uint64>>
    var strCols: seq<seq<bytes>>
    var scaleCols: seq<seq<int32>>
    var nullBitmaps: seq<seq<uint64>>
    var validMask: seq<uint64>
    var auditValues: seq<map<bytes, bytes>>

    ghost predicate Shaped()
      reads this
    {
      |numCols| == |strCols| == |scaleCols| == |nullBitmaps| == |schema|
    }

    ghost function ColumnAt(i: nat): Column
      reads this
      requires Shaped() && i < |schema|
    {
      Column(numCols[i], strCols[i], scaleCols[i], nullBitmaps[i])
    }

    ghost function State(): (b: Batch)
      reads this
      requires Shaped()
      ensures |b.cols| == |schema|
      ensures forall i :: 0 <= i < |schema| ==> b.cols[i] == ColumnAt(i)
    {
      Batch(schema, capacity, rowCount,
            seq(|schema|, i requires 0 <= i < |schema| && Shaped() reads this => ColumnAt(i)),
            validMask, auditValues)
    }

    ghost predicate Invariant()
      reads this
    {
      Shaped() && Valid(State())
    }

    constructor (schema: Schema, capacity: int)
      ensures Invariant()
      ensures State() == Fresh(schema, EffectiveCapacity(capacity))
    {
      var cap := if capacity == 0 then DEFAULT_CAPACITY else capacity;
      if cap < MIN_CAPACITY {
        cap := MIN_CAPACITY;
      }
      var numWords := (cap + 63) / 64;
      this.schema := schema;
      this.capacity := cap;
      rowCount := 0;
      numCols := Repeat([], |schema|);
      strCols := Repeat([], |schema|);
      scaleCols := Repeat([], |schema|);
      nullBitmaps := Repeat(Repeat(0, numWords), |schema|);
      validMask := Repeat(ALL_ONES, numWords);
      auditValues := [];
      new;
      FreshOk(schema, this.capacity);
      assert State().cols == Fresh(schema, this.capacity).cols;
    }

    /** The body of AppendRow's loop: one field of the record into column i. */
    method AppendField(i: nat, rec: Option<GenericRecord>)
      requires Shaped() && i < |schema| && rowCount < 64 * |nullBitmaps[i]|
      modifies this`numCols, this`strCols, this`scaleCols, this`nullBitmaps
      ensures Shaped()
      ensures ColumnAt(i) == AppendCell(schema[i], old(ColumnAt(i)), rowCount, NormalCell(schema[i], rec, i))
      ensures forall k :: 0 <= k < |schema| && k != i ==> ColumnAt(k) == old(ColumnAt(k))
    {
      var f := schema[i];
      if rec.None? || i >= |rec.value.values| || rec.value.values[i].isNull {
        nullBitmaps := nullBitmaps[i := Raise(nullBitmaps[i], rowCount)];
        if IsNumericDataType(f.typ) {
          numCols := numCols[i := numCols[i] + [0]];
          if f.typ.TypeDecimal? {
            scaleCols := scaleCols[i := scaleCols[i] + [0]];
          }
        } else {
          strCols := strCols[i := strCols[i] + [[]]];
        }
        return;
      }
      var val := rec.value.values[i];
      if IsNumericDataType(f.typ) {
        numCols := numCols[i := numCols[i] + [val.num]];
        if f.typ.TypeDecimal? {
          scaleCols := scaleCols[i := scaleCols[i] + [val.scale]];
        }
      } else {
        strCols := strCols[i := strCols[i] + [val.str]];
      }
    }

    /** Fails, changing nothing, when the batch is full. */
    method AppendRow(rec: Option<GenericRecord>) returns (ok: bool)
      requires Invariant()
      modifies this
      ensures Invariant()
      ensures ok == (old(rowCount) < capacity)
      ensures State() == Append(old(State()), rec)
    {
      if rowCount >= capacity {
        return false;
      }
      ghost var b := State();
      hide AppendCell, NormalCell;
      for i := 0 to |schema|
        invariant Shaped() && rowCount == b.rowCount && validMask == b.validMask && auditValues == b.audits
        invariant forall k :: 0 <= k < i ==>
                    ColumnAt(k) == AppendCell(schema[k], b.cols[k], rowCount, NormalCell(schema[k], rec, k))
        invariant forall k :: i <= k < |schema| ==> ColumnAt(k) == b.cols[k]
      {
        assert ColumnOk(schema[i], b.cols[i], rowCount, Words(capacity));
        AppendField(i, rec);
      }
      auditValues := auditValues + [if rec.Some? then rec.value.audit else map[]];
      rowCount := rowCount + 1;
      AppendOk(b, rec);
      assert State().cols == Append(b, rec).cols;
      return true;
    }

    method Columns() returns (cols: seq<Column>)
      requires Shaped()
      ensures cols == State().cols
    {
      cols := [];
      for i := 0 to |schema|
        invariant |cols| == i && forall k :: 0 <= k < i ==> cols[k] == ColumnAt(k)
      {
        cols := cols + [Column(numCols[i], strCols[i], scaleCols[i], nullBitmaps[i])];
      }
    }

    /** What the decoder does to a new batch: it fills the vectors and sets the row count last. */
    method Fill(n: nat, mask: seq<uint64>, cols: seq<Column>, audits: seq<map<bytes, bytes>>)
      requires |cols| == |schema|
      modifies this
      ensures Shaped()
      ensures State() == Batch(schema, capacity, n, cols, mask, audits)
    {
      validMask := mask;
      numCols, strCols, scaleCols, nullBitmaps := [], [], [], [];
      for i := 0 to |schema|
        invariant |numCols| == |strCols| == |scaleCols| == |nullBitmaps| == i && validMask == mask
        invariant forall k :: 0 <= k < i ==> cols[k] == Column(numCols[k], strCols[k], scaleCols[k], nullBitmaps[k])
      {
        numCols := numCols + [cols[i].num];
        strCols := strCols + [cols[i].str];
        scaleCols := scaleCols + [cols[i].scale];
        nullBitmaps := nullBitmaps + [cols[i].nulls];
      }
      auditValues := audits;
      rowCount := n;
      assert State().cols == cols;
    }

    method SetRowValid(idx: int, valid: bool)
      requires Invariant()
      modifies this`validMask
      ensures Invariant()
      ensures State() == SetValid(old(State()), idx, valid)
    {
      if idx < 0 || idx >= rowCount {
        return;
      }
      SetValidOk(State(), idx, valid);
      ghost var b := State();
      validMask := if valid then Raise(validMask, idx) else Lower(validMask, idx);
      assert State() == SetValid(b, idx, valid);
    }

    method IsRowValid(idx: int) returns (valid: bool)
      requires Invariant()
      ensures valid == (0 <= idx < rowCount && Rows(State())[idx].valid)
    {
      if idx < 0 || idx >= rowCount {
        return false;
      }
      return BitAt(validMask, idx);
    }

    method ValidRowCount() returns (valid: nat)
      requires Invariant()
      ensures valid == |ValidRows(Rows(State()))|
    {
      valid := 0;
      var i := 0;
      while i < rowCount
        invariant 0 <= i <= rowCount
        invariant valid == |ValidRows(Rows(State())[..i])|
      {
        assert Rows(State())[..i + 1][..i] == Rows(State())[..i];
        var v := IsRowValid(i);
        if v {
          valid := valid + 1;
        }
        i := i + 1;
      }
      assert Rows(State())[..i] == Rows(State());
    }

    /** The body of Reset's loop over the fields. */
    method ClearColumn(i: nat, numWords: nat)
      requires Shaped() && i < |schema| && |nullBitmaps[i]| == numWords
      requires IsNumericDataType(schema[i].typ) ==> strCols[i] == []
      requires !IsNumericDataType(schema[i].typ) ==> numCols[i] == []
      requires !schema[i].typ.TypeDecimal? ==> scaleCols[i] == []
      modifies this`numCols, this`strCols, this`scaleCols, this`nullBitmaps
      ensures Shaped()
      ensures ColumnAt(i) == Column([], [], [], Repeat(0, numWords))
      ensures forall k :: 0 <= k < |schema| && k != i ==> ColumnAt(k) == old(ColumnAt(k))
    {
      for w := 0 to numWords
        invariant |nullBitmaps| == |schema| && |nullBitmaps[i]| == numWords
        invariant numCols == old(numCols) && strCols == old(strCols) && scaleCols == old(scaleCols)
        invariant forall k :: 0 <= k < |schema| && k != i ==> nullBitmaps[k] == old(nullBitmaps)[k]
        invariant forall k :: 0 <= k < w ==> nullBitmaps[i][k] == 0
      {
        nullBitmaps := nullBitmaps[i := nullBitmaps[i][w := 0]];
      }
      assert nullBitmaps[i] == Repeat(0, numWords);
      if IsNumericDataType(schema[i].typ) {
        numCols := numCols[i := []];
        if schema[i].typ.TypeDecimal? {
          scaleCols := scaleCols[i := []];
        }
      } else {
        strCols := strCols[i := []];
      }
    }

    /** Afterwards the batch is indistinguishable from a new one of the same schema and capacity. */
    method Reset()
      requires Invariant()
      modifies this
      ensures Invariant()
      ensures State() == Fresh(schema, capacity)
      ensures Rows(State()) == []
    {
      ghost var b := State();
      rowCount := 0;
      var numWords := (capacity + 63) / 64;
      for i := 0 to numWords
        invariant Shaped() && rowCount == 0 && |validMask| == numWords
        invariant forall k :: 0 <= k < |schema| ==> ColumnAt(k) == b.cols[k]
        invariant forall k :: 0 <= k < i ==> validMask[k] == ALL_ONES
      {
        validMask := validMask[i := ALL_ONES];
      }
      assert validMask == Repeat(ALL_ONES, numWords);
      for i := 0 to |schema|
        invariant Shaped() && rowCount == 0 && validMask == Repeat(ALL_ONES, numWords)
        invariant forall k :: 0 <= k < i ==> ColumnAt(k) == Column([], [], [], Repeat(0, numWords))
        invariant forall k :: i <= k < |schema| ==> ColumnAt(k) == b.cols[k]
      {
        assert ColumnOk(schema[i], b.cols[i], b.rowCount, Words(capacity));
        assert ColumnAt(i) == b.cols[i];
        ClearColumn(i, numWords);
      }
      assert State().cols == Fresh(schema, capacity).cols;
      label Cleared:
      auditValues := [];
      assert forall k :: 0 <= k < |schema| ==> ColumnAt(k) == old@Cleared(ColumnAt(k));
      FreshOk(schema, capacity);
      assert State().cols == Fresh(schema, capacity).cols;
    }
  }

  // ---------------------------------------------------------------- the iterator

  /** The record that the iterator shows for a row. The schema id of its cached record is never set. */
  function Shown(row: Row): GenericRecord {
    GenericRecord([], row.cells, row.audit)
  }

  class RecordBatchIterator {
    const batch: RecordBatch
    var curr: int
    var cached: GenericRecord

    constructor (batch: RecordBatch)
      ensures this.batch == batch && curr == -1
      ensures cached == GenericRecord([], Repeat(ZERO_VALUE, |batch.schema|), map[])
    {
      this.batch := batch;
      curr := -1;
      cached := GenericRecord([], Repeat(ZERO_VALUE, |batch.schema|), map[]);
    }

    /** Moves to the next valid row: no valid row lies between the old and the new position. */
    method Next() returns (more: bool)
      requires batch.Invariant() && -1 <= curr
      modifies this`curr
      ensures old(curr) < curr && more == (curr < batch.rowCount)
      ensures old(curr) < batch.rowCount ==> curr <= batch.rowCount
      ensures more ==> Rows(batch.State())[curr].valid
      ensures forall r :: old(curr) < r < curr && r < batch.rowCount ==> !Rows(batch.State())[r].valid
    {
      curr := curr + 1;
      while curr < batch.rowCount
        invariant old(curr) < curr && (old(curr) < batch.rowCount ==> curr <= batch.rowCount)
        invariant forall r :: old(curr) < r < curr && r < batch.rowCount ==> !Rows(batch.State())[r].valid
        decreases batch.rowCount - curr
      {
        var v := batch.IsRowValid(curr);
        if v {
          break;
        }
        curr := curr + 1;
      }
      return curr < batch.rowCount;
    }

    /** Fills the reused record with the current row, whatever it held before. */
    method Record() returns (rec: GenericRecord)
      requires batch.Invariant() && 0 <= curr < batch.rowCount && |cached.values| == |batch.schema|
      modifies this`cached
      ensures rec == cached == Shown(Rows(batch.State())[curr]).(schemaID := old(cached).schemaID)
      ensures |cached.values| == |batch.schema|
    {
      ghost var b := batch.State();
      var values := cached.values;
      for i := 0 to |batch.schema|
        invariant |values| == |batch.schema|
        invariant forall k :: 0 <= k < i ==> values[k] == Cells(b, curr)[k]
      {
        var f := batch.schema[i];
        assert ColumnOk(f, b.cols[i], b.rowCount, Words(b.capacity));
        var isNull := BitAt(batch.nullBitmaps[i], curr);
        var v := values[i].(isNull := isNull, typ := f.typ);
        if isNull {
          v := v.(num := 0, str := [], scale := 0);
        } else if IsNumericDataType(f.typ) {
          v := v.(num := batch.numCols[i][curr]);
          if f.typ.TypeDecimal? {
            v := v.(scale := batch.scaleCols[i][curr]);
          } else {
            v := v.(scale := 0);
          }
          v := v.(str := []);
        } else {
          v := v.(str := batch.strCols[i][curr], num := 0, scale := 0);
        }
        values := values[i := v];
      }
      assert values == Cells(b, curr);
      cached := cached.(values := values, audit := batch.auditValues[curr]);
      return cached;
    }
  }

  function Map<A, B>(f: A -> B, s: seq<A>): (out: seq<B>)
    ensures |out| == |s| && forall i :: 0 <= i < |s| ==> out[i] == f(s[i])
  {
    seq(|s|, i requires 0 <= i < |s| => f(s[i]))
  }

  /** Rows that are not valid add nothing to the valid ones. */
  lemma {:induction false} SkipInvalid(rows: seq<Row>, from: nat, to: nat)
    requires from <= to <= |rows| && (forall r :: from <= r < to ==> !rows[r].valid)
    ensures ValidRows(rows[..to]) == ValidRows(rows[..from])
  {
    if from < to {
      SkipInvalid(rows, from, to - 1);
      assert rows[..to][..to - 1] == rows[..to - 1];
    }
  }

  lemma KeepValid(rows: seq<Row>, at: nat)
    requires at < |rows| && rows[at].valid
    ensures Map(Shown, ValidRows(rows[..at + 1])) == Map(Shown, ValidRows(rows[..at])) + [Shown(rows[at])]
  {
    assert rows[..at + 1][..at] == rows[..at];
  }

  /** The loop over an iterator sees exactly the valid rows, in order, as many as ValidRowCount says. */
  method Drain(batch: RecordBatch) returns (seen: seq<GenericRecord>)
    requires batch.Invariant()
    ensures seen == Map(Shown, ValidRows(Rows(batch.State())))
    ensures var rows := ValidRows(Rows(batch.State()));
            |seen| == |rows|
            && forall k :: 0 <= k < |rows| ==> seen[k].values == rows[k].cells && seen[k].audit == rows[k].audit
  {
    hide Rows, Valid, ValidRows, Map;
    var it := new RecordBatchIterator(batch);
    ghost var rows := Rows(batch.State());
    seen := [];
    var more := it.Next();
    NothingSeen(rows[..0]);
    assert Rows(batch.State()) == rows && |rows| == batch.rowCount;
    forall r | 0 <= r < it.curr ensures !rows[r].valid {
      assert !Rows(batch.State())[r].valid;
    }
    SkipInvalid(rows, 0, it.curr);
    while more
      invariant it.batch == batch && batch.Invariant() && Rows(batch.State()) == rows
      invariant 0 <= it.curr <= |rows| && more == (it.curr < |rows|)
      invariant more ==> rows[it.curr].valid
      invariant |it.cached.values| == |batch.schema| && it.cached.schemaID == []
      invariant seen == Map(Shown, ValidRows(rows[..it.curr]))
      decreases |rows| - it.curr
    {
      ghost var at := it.curr;
      KeepValid(rows, at);
      var rec := it.Record();
      seen := seen + [rec];
      more := it.Next();
      assert Rows(batch.State()) == rows && |rows| == batch.rowCount;
      forall r | at + 1 <= r < it.curr ensures !rows[r].valid {
        assert !Rows(batch.State())[r].valid;
      }
      SkipInvalid(rows, at + 1, it.curr);
    }
    assert rows[..it.curr] == rows;
  }

  lemma NothingSeen(rows: seq<Row>)
    requires rows == []
    ensures Map(Shown, ValidRows(rows)) == []
  {
  }
}
