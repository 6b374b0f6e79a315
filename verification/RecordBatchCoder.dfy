/**
 The binary coder of columnar batches. Only the bitmap words that rows occupy are written; the
 decoder starts from a fresh batch and so must find the unused slots as a fresh batch has them.
 Round trip: the decoded batch stands for the same rows and keeps the representation
 invariant, so it can be appended to.
 */
module RecordBatchCoder {
  import opened Basics
  import opened Bits
  import opened Wire
  import opened Records
  import opened ByteOrder
  import opened RecordBatches

  // ---------------------------------------------------------------- lists

  function EncodeList<T>(xs: seq<T>, enc: T --> bytes): bytes
    requires forall k :: 0 <= k < |xs| ==> enc.requires(xs[k])
  {
    if xs == [] then [] else enc(xs[0]) + EncodeList(xs[1..], enc)
  }

  function ParseList<T>(s: bytes, n: nat, parse: bytes -> Parsed<T>): (p: Parsed<seq<T>>)
    ensures p.Ok? ==> |p.value.0| == n
    decreases n
  {
    if n == 0 then Ok(([], s))
    else
      match parse(s)
      case Err(e) => Err(e)
      case Ok(x) =>
        match ParseList(x.1, n - 1, parse)
        case Err(e) => Err(e)
        case Ok(xs) => Ok(([x.0] + xs.0, xs.1))
  }

  /** The parser reads back every element of xs, whatever follows it. */
  ghost predicate ReadsBack<T(!new)>(xs: seq<T>, enc: T --> bytes, parse: bytes -> Parsed<T>)
    requires forall k :: 0 <= k < |xs| ==> enc.requires(xs[k])
  {
    forall k, rest: bytes :: 0 <= k < |xs| ==> parse(enc(xs[k]) + rest) == Ok((xs[k], rest))
  }

  lemma {:induction false} ListRoundTrip<T(!new)>(xs: seq<T>, enc: T --> bytes, parse: bytes -> Parsed<T>, rest: bytes)
    requires forall k :: 0 <= k < |xs| ==> enc.requires(xs[k])
    requires ReadsBack(xs, enc, parse)
    ensures ParseList(EncodeList(xs, enc) + rest, |xs|, parse) == Ok((xs, rest))
    decreases |xs|
  {
    if xs == [] {
      assert EncodeList(xs, enc) + rest == rest;
    } else {
      var tail := EncodeList(xs[1..], enc) + rest;
      assert EncodeList(xs, enc) + rest == enc(xs[0]) + tail;
      assert parse(enc(xs[0]) + tail) == Ok((xs[0], tail));
      assert forall k :: 0 <= k < |xs[1..]| ==> xs[1..][k] == xs[k + 1];
      ListRoundTrip(xs[1..], enc, parse, rest);
      assert [xs[0]] + xs[1..] == xs;
    }
  }

  // ---------------------------------------------------------------- elements

  function EncodeWord(u: uint64): bytes {
    LittleEndian(u, 8)
  }

  function ParseWord(s: bytes): Parsed<uint64> {
    match Take(s, 8)
    case Err(e) => Err(e)
    case Ok(v) => Pow256Values(); Ok((FromLittleEndian(v.0), v.1))
  }

  function EncodeScale(s: int32): bytes {
    LittleEndian(ToUint32(s), 4)
  }

  function ParseScale(s: bytes): Parsed<int32> {
    match Take(s, 4)
    case Err(e) => Err(e)
    case Ok(v) => Ok((ToInt32(FromLittleEndian(v.0)), v.1))
  }

  predicate StringFits(s: bytes) {
    |s| < 0x1_0000_0000
  }

  /** The length is cut to 32 bits, as all lengths of the format are cut to their width. */
  function EncodeString(s: bytes): bytes {
    LittleEndian(|s|, 4) + s
  }

  function ParseString(s: bytes): Parsed<bytes> {
    match Take(s, 4)
    case Err(e) => Err(e)
    case Ok(v) => Take(v.1, FromLittleEndian(v.0))
  }

  lemma FixedWidthRoundTrip(u: nat, n: nat, rest: bytes)
    requires u < Pow256(n)
    ensures Take(LittleEndian(u, n) + rest, n) == Ok((LittleEndian(u, n), rest))
    ensures FromLittleEndian(LittleEndian(u, n)) == u
  {
    LittleEndianRoundTrip(u, n);
    assert (LittleEndian(u, n) + rest)[..n] == LittleEndian(u, n) && (LittleEndian(u, n) + rest)[n..] == rest;
  }

  lemma WordsReadBack(xs: seq<uint64>)
    ensures ReadsBack(xs, EncodeWord, ParseWord)
  {
    hide LittleEndian, FromLittleEndian, Take;
    Pow256Values();
    forall k, rest: bytes | 0 <= k < |xs| ensures ParseWord(EncodeWord(xs[k]) + rest) == Ok((xs[k], rest)) {
      FixedWidthRoundTrip(xs[k], 8, rest);
    }
  }

  lemma ScalesReadBack(xs: seq<int32>)
    ensures ReadsBack(xs, EncodeScale, ParseScale)
  {
    hide LittleEndian, FromLittleEndian, Take;
    Pow256Values();
    forall k, rest: bytes | 0 <= k < |xs| ensures ParseScale(EncodeScale(xs[k]) + rest) == Ok((xs[k], rest)) {
      FixedWidthRoundTrip(ToUint32(xs[k]), 4, rest);
      WordsRoundTrip(0, 0, 0, xs[k]);
    }
  }

  lemma StringsReadBack(xs: seq<bytes>)
    requires forall k :: 0 <= k < |xs| ==> StringFits(xs[k])
    ensures ReadsBack(xs, EncodeString, ParseString)
  {
    hide LittleEndian, FromLittleEndian;
    Pow256Values();
    forall k, rest: bytes | 0 <= k < |xs| ensures ParseString(EncodeString(xs[k]) + rest) == Ok((xs[k], rest)) {
      assert EncodeString(xs[k]) + rest == LittleEndian(|xs[k]|, 4) + (xs[k] + rest);
      FixedWidthRoundTrip(|xs[k]|, 4, xs[k] + rest);
      assert (xs[k] + rest)[..|xs[k]|] == xs[k] && (xs[k] + rest)[|xs[k]|..] == rest;
    }
  }

  // ---------------------------------------------------------------- audit rows

  ghost predicate AuditFits(m: map<bytes, bytes>) {
    |m| < 0x1_0000 && forall k :: k in m ==> |k| < 0x1_0000 && |m[k]| < 0x1_0000
  }

  function EncodeEntry(k: bytes, v: bytes): bytes {
    LittleEndian(|k|, 2) + (LittleEndian(|v|, 2) + (k + v))
  }

  function ParseEntry(s: bytes): Parsed<(bytes, bytes)> {
    match Take(s, 2)
    case Err(e) => Err(e)
    case Ok(kLen) =>
      match Take(kLen.1, 2)
      case Err(e) => Err(e)
      case Ok(vLen) =>
        match Take(vLen.1, FromLittleEndian(kLen.0))
        case Err(e) => Err(e)
        case Ok(k) =>
          match Take(k.1, FromLittleEndian(vLen.0))
          case Err(e) => Err(e)
          case Ok(v) => Ok(((k.0, v.0), v.1))
  }

  lemma EntryRoundTrip(k: bytes, v: bytes, rest: bytes)
    requires |k| < 0x1_0000 && |v| < 0x1_0000
    ensures ParseEntry(EncodeEntry(k, v) + rest) == Ok(((k, v), rest))
  {
    hide LittleEndian, FromLittleEndian;
    Pow256Values();
    var tail := LittleEndian(|v|, 2) + (k + (v + rest));
    assert EncodeEntry(k, v) + rest == LittleEndian(|k|, 2) + tail;
    FixedWidthRoundTrip(|k|, 2, tail);
    FixedWidthRoundTrip(|v|, 2, k + (v + rest));
    assert (k + (v + rest))[..|k|] == k && (k + (v + rest))[|k|..] == v + rest;
    assert (v + rest)[..|v|] == v && (v + rest)[|v|..] == rest;
  }

  function EncodeEntries(m: map<bytes, bytes>, order: seq<bytes>): bytes
    requires forall k :: k in order ==> k in m
  {
    if order == [] then [] else EncodeEntry(order[0], m[order[0]]) + EncodeEntries(m, order[1..])
  }

  function ParseEntries(s: bytes, n: nat, acc: map<bytes, bytes>): Parsed<map<bytes, bytes>> {
    if n == 0 then Ok((acc, s))
    else
      match ParseEntry(s)
      case Err(e) => Err(e)
      case Ok(kv) => ParseEntries(kv.1, n - 1, acc[kv.0.0 := kv.0.1])
  }

  lemma {:induction false} EntriesRoundTrip(
      m: map<bytes, bytes>, order: seq<bytes>, rest: bytes, acc: map<bytes, bytes>)
    requires AuditFits(m) && (forall k :: k in order ==> k in m)
    ensures ParseEntries(EncodeEntries(m, order) + rest, |order|, acc) == Ok((Overwrite(m, order, acc), rest))
    decreases |order|
  {
    hide ParseEntry, EncodeEntry;
    if order == [] {
      assert EncodeEntries(m, order) + rest == rest;
    } else {
      var k, tail := order[0], EncodeEntries(m, order[1..]) + rest;
      assert EncodeEntries(m, order) + rest == EncodeEntry(k, m[k]) + tail;
      EntryRoundTrip(k, m[k], tail);
      EntriesRoundTrip(m, order[1..], rest, acc[k := m[k]]);
    }
  }

  function EncodeAudit(m: map<bytes, bytes>, order: seq<bytes>): bytes
    requires Enumerates(order, m)
  {
    LittleEndian(|m|, 2) + EncodeEntries(m, order)
  }

  function ParseAudit(s: bytes): Parsed<map<bytes, bytes>> {
    match Take(s, 2)
    case Err(e) => Err(e)
    case Ok(n) => ParseEntries(n.1, FromLittleEndian(n.0), map[])
  }

  lemma AuditRoundTrip(m: map<bytes, bytes>, order: seq<bytes>, rest: bytes)
    requires AuditFits(m) && Enumerates(order, m)
    ensures ParseAudit(EncodeAudit(m, order) + rest) == Ok((m, rest))
  {
    hide LittleEndian, FromLittleEndian, EncodeEntries, ParseEntries, Take, Overwrite;
    Pow256Values();
    EnumerationLength(order, m);
    assert EncodeAudit(m, order) + rest == LittleEndian(|m|, 2) + (EncodeEntries(m, order) + rest);
    FixedWidthRoundTrip(|m|, 2, EncodeEntries(m, order) + rest);
    EntriesRoundTrip(m, order, rest, map[]);
    OverwriteAll(m, order);
  }

  /** One enumeration order for each audit map. */
  ghost predicate Orders(audits: seq<map<bytes, bytes>>, orders: seq<seq<bytes>>) {
    |orders| == |audits| && forall r :: 0 <= r < |audits| ==> Enumerates(orders[r], audits[r])
  }

  ghost predicate AuditsFit(audits: seq<map<bytes, bytes>>) {
    forall r :: 0 <= r < |audits| ==> AuditFits(audits[r])
  }

  function EncodeAudits(audits: seq<map<bytes, bytes>>, orders: seq<seq<bytes>>): bytes
    requires Orders(audits, orders)
  {
    if audits == [] then [] else EncodeAudit(audits[0], orders[0]) + EncodeAudits(audits[1..], orders[1..])
  }

  lemma {:induction false} AuditsRoundTrip(audits: seq<map<bytes, bytes>>, orders: seq<seq<bytes>>, rest: bytes)
    requires Orders(audits, orders) && AuditsFit(audits)
    ensures ParseList(EncodeAudits(audits, orders) + rest, |audits|, ParseAudit) == Ok((audits, rest))
    decreases |audits|
  {
    hide ParseAudit, EncodeAudit;
    if audits == [] {
      assert EncodeAudits(audits, orders) + rest == rest;
    } else {
      var tail := EncodeAudits(audits[1..], orders[1..]) + rest;
      assert EncodeAudits(audits, orders) + rest == EncodeAudit(audits[0], orders[0]) + tail;
      AuditRoundTrip(audits[0], orders[0], tail);
      AuditsRoundTrip(audits[1..], orders[1..], rest);
      assert [audits[0]] + audits[1..] == audits;
    }
  }

  // ---------------------------------------------------------------- columns

  ghost predicate ColumnFits(c: Column) {
    forall k :: 0 <= k < |c.str| ==> StringFits(c.str[k])
  }

  function EncodeVectors(f: Field, c: Column): bytes {
    if IsNumericDataType(f.typ) then
      EncodeList(c.num, EncodeWord) + (if f.typ.TypeDecimal? then EncodeList(c.scale, EncodeScale) else [])
    else EncodeList(c.str, EncodeString)
  }

  /** w is the number of bitmap words that rows occupy. */
  function EncodeColumn(f: Field, c: Column, w: nat): bytes
    requires w <= |c.nulls|
  {
    EncodeList(c.nulls[..w], EncodeWord) + EncodeVectors(f, c)
  }

  function ParseVectors(s: bytes, f: Field, n: nat, nulls: seq<uint64>): Parsed<Column> {
    if IsNumericDataType(f.typ) then
      match ParseList(s, n, ParseWord)
      case Err(e) => Err(e)
      case Ok(num) =>
        if f.typ.TypeDecimal? then
          match ParseList(num.1, n, ParseScale)
          case Err(e) => Err(e)
          case Ok(scale) => Ok((Column(num.0, [], scale.0, nulls), scale.1))
        else Ok((Column(num.0, [], [], nulls), num.1))
    else
      match ParseList(s, n, ParseString)
      case Err(e) => Err(e)
      case Ok(str) => Ok((Column([], str.0, [], nulls), str.1))
  }

  /** The bitmap of a fresh batch of `words` words with its first ones replaced. */
  function Padded(read: seq<uint64>, words: nat, fill: uint64): (out: seq<uint64>)
    requires |read| <= words
    ensures |out| == words
  {
    read + Repeat(fill, words - |read|)
  }

  function ParseColumn(s: bytes, f: Field, n: nat, words: nat): Parsed<Column>
    requires Words(n) <= words
  {
    match ParseList(s, Words(n), ParseWord)
    case Err(e) => Err(e)
    case Ok(nulls) => ParseVectors(nulls.1, f, n, Padded(nulls.0, words, 0))
  }

  lemma VectorsRoundTrip(f: Field, c: Column, n: nat, words: nat, nulls: seq<uint64>, rest: bytes)
    requires ColumnOk(f, c, n, words) && ColumnFits(c)
    ensures ParseVectors(EncodeVectors(f, c) + rest, f, n, nulls) == Ok((c.(nulls := nulls), rest))
  {
    hide EncodeList, ParseList, BitAt, ReadsBack;
    WordsReadBack(c.num);
    ScalesReadBack(c.scale);
    StringsReadBack(c.str);
    if f.typ.TypeDecimal? {
      assert EncodeVectors(f, c) + rest == EncodeList(c.num, EncodeWord) + (EncodeList(c.scale, EncodeScale) + rest);
      ListRoundTrip(c.num, EncodeWord, ParseWord, EncodeList(c.scale, EncodeScale) + rest);
      ListRoundTrip(c.scale, EncodeScale, ParseScale, rest);
    } else if IsNumericDataType(f.typ) {
      assert EncodeVectors(f, c) == EncodeList(c.num, EncodeWord);
      ListRoundTrip(c.num, EncodeWord, ParseWord, rest);
    } else {
      ListRoundTrip(c.str, EncodeString, ParseString, rest);
    }
  }

  lemma ColumnRoundTrip(f: Field, c: Column, n: nat, words: nat, words': nat, rest: bytes)
    requires ColumnOk(f, c, n, words) && ColumnFits(c) && Words(n) <= words'
    ensures ParseColumn(EncodeColumn(f, c, Words(n)) + rest, f, n, words')
         == Ok((c.(nulls := Padded(c.nulls[..Words(n)], words', 0)), rest))
  {
    hide EncodeList, ParseList, BitAt, EncodeVectors, ParseVectors, ReadsBack;
    var head := c.nulls[..Words(n)];
    var tail := EncodeVectors(f, c) + rest;
    assert EncodeColumn(f, c, Words(n)) + rest == EncodeList(head, EncodeWord) + tail;
    WordsReadBack(head);
    ListRoundTrip(head, EncodeWord, ParseWord, tail);
    VectorsRoundTrip(f, c, n, words, Padded(head, words', 0), rest);
  }

  function EncodeColumns(schema: Schema, cols: seq<Column>, w: nat): bytes
    requires |cols| == |schema| && forall i :: 0 <= i < |cols| ==> w <= |cols[i].nulls|
  {
    if cols == [] then [] else EncodeColumn(schema[0], cols[0], w) + EncodeColumns(schema[1..], cols[1..], w)
  }

  function ParseColumns(s: bytes, schema: Schema, n: nat, words: nat): Parsed<seq<Column>>
    requires Words(n) <= words
    decreases |schema|
  {
    if schema == [] then Ok(([], s))
    else
      match ParseColumn(s, schema[0], n, words)
      case Err(e) => Err(e)
      case Ok(c) =>
        match ParseColumns(c.1, schema[1..], n, words)
        case Err(e) => Err(e)
        case Ok(cs) => Ok(([c.0] + cs.0, cs.1))
  }

  function PadColumns(cols: seq<Column>, w: nat, words: nat): (out: seq<Column>)
    requires w <= words && forall i :: 0 <= i < |cols| ==> w <= |cols[i].nulls|
    ensures |out| == |cols|
    ensures forall i :: 0 <= i < |cols| ==> out[i] == cols[i].(nulls := Padded(cols[i].nulls[..w], words, 0))
  {
    seq(|cols|, i requires 0 <= i < |cols| => cols[i].(nulls := Padded(cols[i].nulls[..w], words, 0)))
  }

  lemma {:induction false} ColumnsRoundTrip(
      schema: Schema, cols: seq<Column>, n: nat, words: nat, words': nat, rest: bytes)
    requires |cols| == |schema| && Words(n) <= words' && Words(n) <= words
    requires forall i :: 0 <= i < |cols| ==> ColumnFits(cols[i]) && Words(n) <= |cols[i].nulls|
    requires forall i :: 0 <= i < |cols| ==> ColumnOk(schema[i], cols[i], n, words)
    ensures ParseColumns(EncodeColumns(schema, cols, Words(n)) + rest, schema, n, words')
         == Ok((PadColumns(cols, Words(n), words'), rest))
    decreases |cols|
  {
    hide EncodeColumn, ParseColumn, BitAt;
    if cols == [] {
      assert EncodeColumns(schema, cols, Words(n)) + rest == rest;
    } else {
      var tail := EncodeColumns(schema[1..], cols[1..], Words(n)) + rest;
      assert EncodeColumns(schema, cols, Words(n)) + rest == EncodeColumn(schema[0], cols[0], Words(n)) + tail;
      ColumnRoundTrip(schema[0], cols[0], n, words, words', tail);
      ColumnsRoundTrip(schema[1..], cols[1..], n, words, words', rest);
      assert PadColumns(cols, Words(n), words')
          == [cols[0].(nulls := Padded(cols[0].nulls[..Words(n)], words', 0))]
             + PadColumns(cols[1..], Words(n), words');
    }
  }

  // ---------------------------------------------------------------- batches

  /** The limits of the format's fixed-width lengths. */
  ghost predicate Fits(b: Batch) {
    && b.rowCount < 0x1_0000_0000 && |b.schema| < 0x1_0000_0000
    && (forall i :: 0 <= i < |b.cols| ==> ColumnFits(b.cols[i]))
    && AuditsFit(b.audits)
  }

  function EncodeBatch(b: Batch, orders: seq<seq<bytes>>): bytes
    requires Valid(b) && Orders(b.audits, orders)
  {
    LittleEndian(b.rowCount, 4)
    + (LittleEndian(|b.schema|, 4)
       + (EncodeList(b.validMask[..Words(b.rowCount)], EncodeWord)
          + (EncodeColumns(b.schema, b.cols, Words(b.rowCount)) + EncodeAudits(b.audits, orders))))
  }

  function ParseBody(s: bytes, schema: Schema, n: nat): Parsed<Batch> {
    var capacity := EffectiveCapacity(n);
    match ParseList(s, Words(n), ParseWord)
    case Err(e) => Err(e)
    case Ok(mask) =>
      match ParseColumns(mask.1, schema, n, Words(capacity))
      case Err(e) => Err(e)
      case Ok(cols) =>
        match ParseList(cols.1, n, ParseAudit)
        case Err(e) => Err(e)
        case Ok(audits) =>
          Ok((Batch(schema, capacity, n, cols.0, Padded(mask.0, Words(capacity), ALL_ONES), audits.0), audits.1))
  }

  function ParseBatch(s: bytes, schema: Schema): Parsed<Batch> {
    match Take(s, 4)
    case Err(e) => Err(e)
    case Ok(n) =>
      match Take(n.1, 4)
      case Err(e) => Err(e)
      case Ok(f) =>
        if FromLittleEndian(f.0) != |schema| then Err(FieldCountMismatch)
        else ParseBody(f.1, schema, FromLittleEndian(n.0))
  }

  /** What decoding makes of a batch: the same contents in a batch of the decoder's capacity. */
  function Rebuilt(b: Batch): Batch
    requires Valid(b)
  {
    var w := Words(b.rowCount);
    var capacity := EffectiveCapacity(b.rowCount);
    Batch(b.schema, capacity, b.rowCount, PadColumns(b.cols, w, Words(capacity)),
          Padded(b.validMask[..w], Words(capacity), ALL_ONES), b.audits)
  }

  lemma BodyRoundTrip(b: Batch, orders: seq<seq<bytes>>, rest: bytes)
    requires Valid(b) && Orders(b.audits, orders) && Fits(b)
    ensures ParseBody(EncodeList(b.validMask[..Words(b.rowCount)], EncodeWord)
                      + (EncodeColumns(b.schema, b.cols, Words(b.rowCount)) + (EncodeAudits(b.audits, orders) + rest)),
                      b.schema, b.rowCount)
         == Ok((Rebuilt(b), rest))
  {
    hide EncodeList, ParseList, BitAt, EncodeColumns, ParseColumns, EncodeAudits, ReadsBack;
    var mask, w := b.validMask[..Words(b.rowCount)], Words(EffectiveCapacity(b.rowCount));
    var s2 := EncodeAudits(b.audits, orders) + rest;
    var s1 := EncodeColumns(b.schema, b.cols, Words(b.rowCount)) + s2;
    WordsReadBack(mask);
    ListRoundTrip(mask, EncodeWord, ParseWord, s1);
    ColumnsRoundTrip(b.schema, b.cols, b.rowCount, Words(b.capacity), w, s2);
    AuditsRoundTrip(b.audits, orders, rest);
  }

  lemma BatchParsesBack(b: Batch, orders: seq<seq<bytes>>, rest: bytes)
    requires Valid(b) && Orders(b.audits, orders) && Fits(b)
    ensures ParseBatch(EncodeBatch(b, orders) + rest, b.schema) == Ok((Rebuilt(b), rest))
  {
    hide LittleEndian, FromLittleEndian, EncodeList, BitAt, EncodeColumns, EncodeAudits, ParseBody, Take, Rebuilt;
    Pow256Values();
    var body := EncodeList(b.validMask[..Words(b.rowCount)], EncodeWord)
                + (EncodeColumns(b.schema, b.cols, Words(b.rowCount)) + (EncodeAudits(b.audits, orders) + rest));
    assert EncodeBatch(b, orders) + rest == LittleEndian(b.rowCount, 4) + (LittleEndian(|b.schema|, 4) + body);
    FixedWidthRoundTrip(b.rowCount, 4, LittleEndian(|b.schema|, 4) + body);
    FixedWidthRoundTrip(|b.schema|, 4, body);
    BodyRoundTrip(b, orders, rest);
  }

  /** Bits of occupied words are kept, bits of later words are those of a fresh batch. */
  lemma PaddedBits(words: seq<uint64>, w: nat, n: nat, fill: uint64, r: nat)
    requires w <= |words| && w <= n && r < 64 * n && (fill == 0 || fill == ALL_ONES)
    ensures r < 64 * w ==> BitAt(Padded(words[..w], n, fill), r) == BitAt(words, r)
    ensures r >= 64 * w ==> BitAt(Padded(words[..w], n, fill), r) == (fill == ALL_ONES)
  {
    if r >= 64 * w {
      ConstantBits(Padded(words[..w], n, fill), r);
    }
  }

  lemma RebuiltColumn(f: Field, c: Column, n: nat, words: nat, words': nat)
    requires ColumnOk(f, c, n, words) && Words(n) <= words'
    ensures var c' := c.(nulls := Padded(c.nulls[..Words(n)], words', 0));
            && ColumnOk(f, c', n, words')
            && (forall r :: 0 <= r < n ==> CellAt(f, c', n, words', r) == CellAt(f, c, n, words, r))
  {
    forall r | 0 <= r < 64 * words'
      ensures BitAt(Padded(c.nulls[..Words(n)], words', 0), r) == (r < 64 * Words(n) && BitAt(c.nulls, r))
    {
      PaddedBits(c.nulls, Words(n), words', 0, r);
    }
  }

  /** A rebuilt batch keeps the representation invariant and stands for the same rows. */
  lemma RebuiltSameRows(b: Batch)
    requires Valid(b)
    ensures Valid(Rebuilt(b)) && Rows(Rebuilt(b)) == Rows(b)
  {
    var n := Rebuilt(b);
    var w, words' := Words(b.rowCount), Words(n.capacity);
    forall i | 0 <= i < |b.cols|
      ensures ColumnOk(b.schema[i], n.cols[i], b.rowCount, words')
      ensures forall r :: 0 <= r < b.rowCount ==>
                CellAt(b.schema[i], n.cols[i], b.rowCount, words', r)
                == CellAt(b.schema[i], b.cols[i], b.rowCount, Words(b.capacity), r)
    {
      RebuiltColumn(b.schema[i], b.cols[i], b.rowCount, Words(b.capacity), words');
    }
    forall r | 0 <= r < 64 * words'
      ensures BitAt(n.validMask, r) == (r >= 64 * w || BitAt(b.validMask, r))
    {
      PaddedBits(b.validMask, w, words', ALL_ONES, r);
    }
    forall r | 0 <= r < b.rowCount ensures Cells(n, r) == Cells(b, r) {
    }
  }

  /**
   Round trip of batches: for every valid batch within the format's length limits, in whatever
   orders its audit maps are enumerated, decoding under the same schema yields a valid batch
   of the same rows (flags and audit maps included) and leaves what followed. Since it is
   valid, everything proved of runs from a valid batch holds from here on.
   */
  lemma BatchRoundTrip(b: Batch, orders: seq<seq<bytes>>, rest: bytes)
    requires Valid(b) && Orders(b.audits, orders) && Fits(b)
    ensures var p := ParseBatch(EncodeBatch(b, orders) + rest, b.schema);
            && p.Ok? && p.value.1 == rest
            && Valid(p.value.0) && p.value.0.schema == b.schema && p.value.0.rowCount == b.rowCount
            && Rows(p.value.0) == Rows(b)
  {
    hide ParseBatch, EncodeBatch, Rows, Fits;
    BatchParsesBack(b, orders, rest);
    RebuiltSameRows(b);
  }

  // ---------------------------------------------------------------- beyond the limits

  lemma ParsedWidth(b: bytes)
    ensures |b| == 2 ==> FromLittleEndian(b) < 0x1_0000
    ensures |b| == 4 ==> FromLittleEndian(b) < 0x1_0000_0000
  {
    Pow256Values();
  }

  lemma {:induction false} ParsedStringsFit(s: bytes, n: nat)
    ensures var p := ParseList(s, n, ParseString);
            p.Ok? ==> forall k :: 0 <= k < |p.value.0| ==> StringFits(p.value.0[k])
    decreases n
  {
    if n > 0 && ParseString(s).Ok? {
      ParsedWidth(Take(s, 4).value.0);
      ParsedStringsFit(ParseString(s).value.1, n - 1);
    }
  }

  lemma ParsedEntryFits(s: bytes)
    ensures var p := ParseEntry(s); p.Ok? ==> |p.value.0.0| < 0x1_0000 && |p.value.0.1| < 0x1_0000
  {
    if ParseEntry(s).Ok? {
      var kLen := Take(s, 2).value;
      ParsedWidth(kLen.0);
      ParsedWidth(Take(kLen.1, 2).value.0);
    }
  }

  ghost predicate ShortEntries(m: map<bytes, bytes>, size: nat) {
    |m| <= size && forall k :: k in m ==> |k| < 0x1_0000 && |m[k]| < 0x1_0000
  }

  lemma {:induction false} ParsedEntriesFit(s: bytes, n: nat, acc: map<bytes, bytes>, size: nat)
    requires ShortEntries(acc, size)
    ensures var p := ParseEntries(s, n, acc); p.Ok? ==> ShortEntries(p.value.0, size + n)
    decreases n
  {
    hide ParseEntry;
    if n > 0 && ParseEntry(s).Ok? {
      var kv := ParseEntry(s).value;
      ParsedEntryFits(s);
      var next := acc[kv.0.0 := kv.0.1];
      assert next.Keys == acc.Keys + {kv.0.0};
      assert |next.Keys| <= |acc.Keys| + 1;
      ParsedEntriesFit(kv.1, n - 1, next, size + 1);
    }
  }

  lemma {:induction false} ParsedAuditsFit(s: bytes, n: nat)
    ensures var p := ParseList(s, n, ParseAudit); p.Ok? ==> AuditsFit(p.value.0)
    decreases n
  {
    hide ParseEntries, FromLittleEndian;
    if n > 0 && ParseAudit(s).Ok? {
      var count := Take(s, 2).value;
      ParsedWidth(count.0);
      ParsedEntriesFit(count.1, FromLittleEndian(count.0), map[], 0);
      ParsedAuditsFit(ParseAudit(s).value.1, n - 1);
    }
  }

  lemma {:induction false} ParsedColumnsFit(s: bytes, schema: Schema, n: nat, words: nat)
    requires Words(n) <= words
    ensures var p := ParseColumns(s, schema, n, words);
            p.Ok? ==> forall i :: 0 <= i < |p.value.0| ==> ColumnFits(p.value.0[i])
    decreases |schema|
  {
    hide ParseColumn, ColumnFits;
    if schema != [] && ParseColumn(s, schema[0], n, words).Ok? {
      ParsedColumnFits(s, schema[0], n, words);
      var c := ParseColumn(s, schema[0], n, words).value;
      ParsedColumnsFit(c.1, schema[1..], n, words);
      ColumnsBegin(s, schema, n, words);
      var more := ParseColumns(c.1, schema[1..], n, words);
      if more.Ok? {
        assert forall i :: 0 < i < |schema| ==> ([c.0] + more.value.0)[i] == more.value.0[i - 1];
      }
    }
  }

  lemma ColumnsBegin(s: bytes, schema: Schema, n: nat, words: nat)
    requires Words(n) <= words && schema != [] && ParseColumn(s, schema[0], n, words).Ok?
    ensures var c := ParseColumn(s, schema[0], n, words).value;
            var more := ParseColumns(c.1, schema[1..], n, words);
            && (more.Err? ==> ParseColumns(s, schema, n, words).Err?)
            && (more.Ok? ==> ParseColumns(s, schema, n, words) == Ok(([c.0] + more.value.0, more.value.1)))
            && (more.Ok? ==> |more.value.0| == |schema| - 1)
  {
    hide ParseColumn;
    ColumnsLength(ParseColumn(s, schema[0], n, words).value.1, schema[1..], n, words);
  }

  lemma {:induction false} ColumnsLength(s: bytes, schema: Schema, n: nat, words: nat)
    requires Words(n) <= words
    ensures var p := ParseColumns(s, schema, n, words); p.Ok? ==> |p.value.0| == |schema|
    decreases |schema|
  {
    hide ParseColumn;
    if schema != [] && ParseColumn(s, schema[0], n, words).Ok? {
      ColumnsLength(ParseColumn(s, schema[0], n, words).value.1, schema[1..], n, words);
    }
  }

  lemma ParsedColumnFits(s: bytes, f: Field, n: nat, words: nat)
    requires Words(n) <= words
    ensures ParseColumn(s, f, n, words).Ok? ==> ColumnFits(ParseColumn(s, f, n, words).value.0)
  {
    hide ParseList;
    if ParseColumn(s, f, n, words).Ok? {
      var after := ParseList(s, Words(n), ParseWord).value.1;
      ParsedStringsFit(after, n);
      var c := ParseColumn(s, f, n, words).value.0;
      if !IsNumericDataType(f.typ) {
        assert c.str == ParseList(after, n, ParseString).value.0;
      } else {
        assert c.str == [];
      }
    }
  }

  /** Whatever the decoder accepts is within the limits. */
  lemma ParsedFits(s: bytes, schema: Schema)
    ensures ParseBatch(s, schema).Ok? ==> Fits(ParseBatch(s, schema).value.0)
  {
    hide ParseList, ParseColumns, FromLittleEndian, ColumnFits, AuditsFit;
    if ParseBatch(s, schema).Ok? {
      var rows := Take(s, 4).value;
      var fields := Take(rows.1, 4).value;
      ParsedWidth(rows.0);
      ParsedWidth(fields.0);
      var n := FromLittleEndian(rows.0);
      var words := Words(EffectiveCapacity(n));
      var mask := ParseList(fields.1, Words(n), ParseWord).value;
      ParsedColumnsFit(mask.1, schema, n, words);
      ParsedAuditsFit(ParseColumns(mask.1, schema, n, words).value.1, n);
    }
  }

  lemma RebuiltFits(b: Batch)
    requires Valid(b)
    ensures Fits(Rebuilt(b)) <==> Fits(b)
  {
    forall i | 0 <= i < |b.cols| ensures ColumnFits(Rebuilt(b).cols[i]) <==> ColumnFits(b.cols[i]) {
    }
  }

  /**
   Exactly which batches survive: those within the limits. Beyond them a length is cut on the way
   out, and what is decoded, if anything, is something else.
   */
  lemma BatchRoundTripIff(b: Batch, orders: seq<seq<bytes>>, rest: bytes)
    requires Valid(b) && Orders(b.audits, orders)
    ensures ParseBatch(EncodeBatch(b, orders) + rest, b.schema) == Ok((Rebuilt(b), rest)) <==> Fits(b)
  {
    hide ParseBatch, EncodeBatch, Fits, Rebuilt;
    if Fits(b) {
      BatchParsesBack(b, orders, rest);
    } else {
      ParsedFits(EncodeBatch(b, orders) + rest, b.schema);
      RebuiltFits(b);
    }
  }

  /** Whatever is done to the decoded batch is what would be done to the rows that were encoded. */
  lemma RunAfterRoundTrip(b: Batch, orders: seq<seq<bytes>>, rest: bytes, ops: seq<Op>)
    requires Valid(b) && Orders(b.audits, orders) && Fits(b)
    ensures var p := ParseBatch(EncodeBatch(b, orders) + rest, b.schema);
            && p.Ok? && Valid(p.value.0) && Valid(Run(p.value.0, ops))
            && Rows(Run(p.value.0, ops)) == RunRows(b.schema, EffectiveCapacity(b.rowCount), Rows(b), ops)
  {
    hide ParseBatch, EncodeBatch, Rows, Fits, Run, RunRows;
    BatchParsesBack(b, orders, rest);
    RebuiltSameRows(b);
    BatchRefinesRows(Rebuilt(b), ops);
  }

  // ---------------------------------------------------------------- encoder and decoder

  method WriteList<T>(w: Sink, xs: seq<T>, enc: T --> bytes)
    requires forall k :: 0 <= k < |xs| ==> enc.requires(xs[k])
    modifies w
    ensures w.out == old(w.out) + EncodeList(xs, enc)
  {
    for k := 0 to |xs|
      invariant w.out + EncodeList(xs[k..], enc) == old(w.out) + EncodeList(xs, enc)
    {
      assert xs[k..][1..] == xs[k + 1..];
      w.Write(enc(xs[k]));
    }
  }

  /** `whole` is `done` followed by what p still yields. */
  ghost predicate Extends<T>(whole: Parsed<seq<T>>, done: seq<T>, p: Parsed<seq<T>>) {
    match p
    case Ok(v) => whole == Ok((done + v.0, v.1))
    case Err(e) => whole == Err(e)
  }

  lemma ListStep<T>(whole: Parsed<seq<T>>, done: seq<T>, s: bytes, n: nat, parse: bytes -> Parsed<T>)
    requires n > 0 && Extends(whole, done, ParseList(s, n, parse))
    ensures match parse(s)
            case Err(e) => whole == Err(e)
            case Ok(x) => Extends(whole, done + [x.0], ParseList(x.1, n - 1, parse))
  {
    match parse(s) {
      case Err(e) =>
      case Ok(x) =>
        var tail := ParseList(x.1, n - 1, parse);
        if tail.Ok? {
          assert done + ([x.0] + tail.value.0) == done + [x.0] + tail.value.0;
        }
    }
  }

  lemma ListEnd<T>(whole: Parsed<seq<T>>, done: seq<T>, s: bytes, parse: bytes -> Parsed<T>)
    ensures Extends(whole, done, ParseList(s, 0, parse)) ==> whole == Ok((done, s))
  {
    assert done + [] == done;
  }

  lemma ExtendsStart<T>(p: Parsed<seq<T>>)
    ensures Extends(p, [], p)
  {
    if p.Ok? {
      assert [] + p.value.0 == p.value.0;
    }
  }

  method ReadList<T>(r: Source, n: nat, parse: bytes -> Parsed<T>) returns (res: Result<seq<T>, WireError>)
    modifies r
    ensures Yields(res, ParseList(old(r.rest), n, parse), r.rest)
  {
    hide ParseList, Extends;
    var xs := [];
    ghost var whole := ParseList(r.rest, n, parse);
    ExtendsStart(whole);
    for k := 0 to n
      invariant Extends(whole, xs, ParseList(r.rest, n - k, parse))
    {
      ListStep(whole, xs, r.rest, n - k, parse);
      match parse(r.rest) {
        case Err(e) => return Err(e);
        case Ok(x) =>
          xs := xs + [x.0];
          r.rest := x.1;
      }
    }
    ListEnd(whole, xs, r.rest, parse);
    return Ok(xs);
  }

  method WriteColumn(w: Sink, f: Field, c: Column, words: nat)
    requires words <= |c.nulls|
    modifies w
    ensures w.out == old(w.out) + EncodeColumn(f, c, words)
  {
    hide EncodeList;
    WriteList(w, c.nulls[..words], EncodeWord);
    if IsNumericDataType(f.typ) {
      WriteList(w, c.num, EncodeWord);
      if f.typ.TypeDecimal? {
        WriteList(w, c.scale, EncodeScale);
      }
    } else {
      WriteList(w, c.str, EncodeString);
    }
  }

  method WriteColumns(w: Sink, schema: Schema, cols: seq<Column>, words: nat)
    requires |cols| == |schema| && forall i :: 0 <= i < |cols| ==> words <= |cols[i].nulls|
    modifies w
    ensures w.out == old(w.out) + EncodeColumns(schema, cols, words)
  {
    hide EncodeColumn;
    for i := 0 to |cols|
      invariant w.out + EncodeColumns(schema[i..], cols[i..], words) == old(w.out) + EncodeColumns(schema, cols, words)
    {
      assert schema[i..][1..] == schema[i + 1..] && cols[i..][1..] == cols[i + 1..];
      WriteColumn(w, schema[i], cols[i], words);
    }
  }

  method WriteAudits(w: Sink, audits: seq<map<bytes, bytes>>, orders: seq<seq<bytes>>)
    requires Orders(audits, orders)
    modifies w
    ensures w.out == old(w.out) + EncodeAudits(audits, orders)
  {
    hide EncodeAudit;
    for k := 0 to |audits|
      invariant w.out + EncodeAudits(audits[k..], orders[k..]) == old(w.out) + EncodeAudits(audits, orders)
    {
      assert audits[k..][1..] == audits[k + 1..] && orders[k..][1..] == orders[k + 1..];
      w.Write(EncodeAudit(audits[k], orders[k]));
    }
  }

  method Encode(w: Sink, b: RecordBatch, orders: seq<seq<bytes>>)
    requires b.Invariant() && Orders(b.State().audits, orders)
    modifies w
    ensures w.out == old(w.out) + EncodeBatch(b.State(), orders)
  {
    hide LittleEndian, EncodeList, EncodeColumns, EncodeAudits, ColumnOk;
    var rowCount := b.rowCount;
    w.Write(LittleEndian(rowCount, 4));
    w.Write(LittleEndian(|b.schema|, 4));
    var numWords := (rowCount + 63) / 64;
    WriteList(w, b.validMask[..numWords], EncodeWord);
    var cols := b.Columns();
    ColumnsLongEnough(b.State());
    WriteColumns(w, b.schema, cols, numWords);
    WriteAudits(w, b.auditValues, orders);
    Reassociate(old(w.out), LittleEndian(rowCount, 4), LittleEndian(|b.schema|, 4),
                EncodeList(b.validMask[..numWords], EncodeWord), EncodeColumns(b.schema, cols, numWords),
                EncodeAudits(b.auditValues, orders));
  }

  lemma ColumnsLongEnough(b: Batch)
    requires Valid(b)
    ensures forall i :: 0 <= i < |b.cols| ==> Words(b.rowCount) <= |b.cols[i].nulls|
  {
  }

  lemma Reassociate(o: bytes, a: bytes, b: bytes, c: bytes, d: bytes, e: bytes)
    ensures o + a + b + c + d + e == o + (a + (b + (c + (d + e))))
  {
    assert o + a + b == o + (a + b);
    assert o + (a + b) + c == o + (a + (b + c));
    assert o + (a + (b + c)) + d + e == o + (a + (b + (c + (d + e))));
  }

  method ReadColumn(r: Source, f: Field, n: nat, blank: Column) returns (res: Result<Column, WireError>)
    requires Words(n) <= |blank.nulls| && blank == Column([], [], [], Repeat(0, |blank.nulls|))
    modifies r
    ensures Yields(res, ParseColumn(old(r.rest), f, n, |blank.nulls|), r.rest)
  {
    hide ParseList;
    var c := blank;
    var nulls := ReadList(r, (n + 63) / 64, ParseWord);
    if nulls.Err? {
      return Err(nulls.error);
    }
    c := c.(nulls := nulls.value + c.nulls[|nulls.value|..]);
    assert c.nulls == Padded(nulls.value, |blank.nulls|, 0);
    if IsNumericDataType(f.typ) {
      var num := ReadList(r, n, ParseWord);
      if num.Err? {
        return Err(num.error);
      }
      c := c.(num := num.value);
      if f.typ.TypeDecimal? {
        var scale := ReadList(r, n, ParseScale);
        if scale.Err? {
          return Err(scale.error);
        }
        c := c.(scale := scale.value);
      }
    } else {
      var str := ReadList(r, n, ParseString);
      if str.Err? {
        return Err(str.error);
      }
      c := c.(str := str.value);
    }
    return Ok(c);
  }

  method ReadColumns(r: Source, schema: Schema, n: nat, words: nat) returns (res: Result<seq<Column>, WireError>)
    requires Words(n) <= words
    modifies r
    ensures Yields(res, ParseColumns(old(r.rest), schema, n, words), r.rest)
    ensures res.Ok? ==> |res.value| == |schema|
  {
    hide ParseColumn, Extends;
    var cols := [];
    ghost var whole := ParseColumns(r.rest, schema, n, words);
    ExtendsStart(whole);
    for i := 0 to |schema|
      invariant |cols| == i
      invariant Extends(whole, cols, ParseColumns(r.rest, schema[i..], n, words))
    {
      ColumnsStep(whole, cols, r.rest, schema, i, n, words);
      var c := ReadColumn(r, schema[i], n, Column([], [], [], Repeat(0, words)));
      if c.Err? {
        return Err(c.error);
      }
      cols := cols + [c.value];
    }
    ColumnsEnd(whole, cols, r.rest, n, words);
    return Ok(cols);
  }

  lemma ColumnsStep(whole: Parsed<seq<Column>>, done: seq<Column>, s: bytes, schema: Schema, i: nat, n: nat, words: nat)
    requires Words(n) <= words && i < |schema| && Extends(whole, done, ParseColumns(s, schema[i..], n, words))
    ensures match ParseColumn(s, schema[i], n, words)
            case Err(e) => whole == Err(e)
            case Ok(c) => Extends(whole, done + [c.0], ParseColumns(c.1, schema[i + 1..], n, words))
  {
    hide ParseColumn;
    assert schema[i..][1..] == schema[i + 1..];
    var c := ParseColumn(s, schema[i], n, words);
    if c.Ok? {
      var tail := ParseColumns(c.value.1, schema[i + 1..], n, words);
      if tail.Ok? {
        assert done + ([c.value.0] + tail.value.0) == done + [c.value.0] + tail.value.0;
      }
    }
  }

  lemma ColumnsEnd(whole: Parsed<seq<Column>>, done: seq<Column>, s: bytes, n: nat, words: nat)
    requires Words(n) <= words && Extends(whole, done, ParseColumns(s, [], n, words))
    ensures whole == Ok((done, s))
  {
    assert done + [] == done;
  }

  /** The decoded batch is a new object in exactly the state that the parser describes. */
  method Decode(r: Source, schema: Schema) returns (res: Result<RecordBatch, WireError>)
    modifies r
    ensures match ParseBatch(old(r.rest), schema)
            case Err(e) => res == Err(e)
            case Ok(v) =>
              && res.Ok? && fresh(res.value) && res.value.Shaped()
              && res.value.State() == v.0 && r.rest == v.1
  {
    hide ParseList, ParseColumns, FromLittleEndian;
    var n := r.ReadFull(4);
    if n.Err? {
      return Err(n.error);
    }
    var numFields := r.ReadFull(4);
    if numFields.Err? {
      return Err(numFields.error);
    }
    if FromLittleEndian(numFields.value) != |schema| {
      return Err(FieldCountMismatch);
    }
    var rowCount := FromLittleEndian(n.value);
    var batch := new RecordBatch(schema, rowCount);
    var mask := ReadList(r, (rowCount + 63) / 64, ParseWord);
    if mask.Err? {
      return Err(mask.error);
    }
    var cols := ReadColumns(r, schema, rowCount, (batch.capacity + 63) / 64);
    if cols.Err? {
      return Err(cols.error);
    }
    var audits := ReadList(r, rowCount, ParseAudit);
    if audits.Err? {
      return Err(audits.error);
    }
    var tail := batch.validMask[|mask.value|..];
    assert mask.value + tail == Padded(mask.value, |batch.validMask|, ALL_ONES);
    batch.Fill(rowCount, mask.value + tail, cols.value, audits.value);
    return Ok(batch);
  }

  // ---------------------------------------------------------------- in figures

  /** Lengths and words come with the low byte first, the two lengths of an audit entry before both of its texts. */
  lemma BatchInFigures()
    ensures EncodeWord(0x0102) == [2, 1, 0, 0, 0, 0, 0, 0] && EncodeScale(-1) == [255, 255, 255, 255]
    ensures EncodeString([97]) == [1, 0, 0, 0, 97]
    ensures EncodeEntry([107], [118, 119]) == [1, 0, 2, 0, 107, 118, 119]
  {
    Zeros(1);
    Zeros(3);
    Zeros(6);
    assert LittleEndian(1, 2) == [1] + LittleEndian(0, 1) && LittleEndian(2, 2) == [2] + LittleEndian(0, 1);
    assert LittleEndian(1, 4) == [1] + LittleEndian(0, 3);
    assert LittleEndian(0x0102, 8) == [2] + LittleEndian(1, 7) && LittleEndian(1, 7) == [1] + LittleEndian(0, 6);
    assert LittleEndian(0xFF, 1) == [255] && LittleEndian(0xFFFF, 2) == [255] + LittleEndian(0xFF, 1);
    assert LittleEndian(0xFF_FFFF, 3) == [255] + LittleEndian(0xFFFF, 2);
    assert LittleEndian(0xFFFF_FFFF, 4) == [255] + LittleEndian(0xFF_FFFF, 3);
  }

  lemma {:induction false} Zeros(n: nat)
    ensures LittleEndian(0, n) == Repeat(0, n)
  {
    if n > 0 {
      Zeros(n - 1);
      assert Repeat(0, n) == [0] + Repeat(0, n - 1);
    }
  }
}
