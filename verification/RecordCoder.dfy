/**
 The binary coder of generic records: schema id, field count, null bitmask, typed fields and
 audit map. Encoding is stated as a function into bytes, decoding as a parser, the methods
 are proved equal to them, and the two are proved inverse up to a normal form.
 */
module RecordCoder {
  import opened Basics
  import opened Bits
  import opened Wire
  import opened Records
  import opened ByteOrder

  const MAX_RECORD_FIELDS := 10000
  const STACK_MASK_BYTES := 16

  // ---------------------------------------------------------------- null mask

  function MaskLength(n: nat): nat {
    (n + 7) / 8
  }

  function Nulls(values: seq<FieldValue>): (flags: seq<bool>)
    ensures |flags| == |values| && forall i :: 0 <= i < |values| ==> flags[i] == values[i].isNull
  {
    seq(|values|, i requires 0 <= i < |values| => values[i].isNull)
  }

  function PackByte(flags: seq<bool>, k: nat): byte {
    Pow2Values();
    Pack(flags, 8 * k, 8)
  }

  function NullMask(values: seq<FieldValue>): (mask: bytes)
    ensures |mask| == MaskLength(|values|)
  {
    seq(MaskLength(|values|), k requires 0 <= k => PackByte(Nulls(values), k))
  }

  predicate MaskBit(mask: bytes, i: nat)
    requires i / 8 < |mask|
  {
    Bit(mask[i / 8], i % 8)
  }

  lemma NullMaskBits(values: seq<FieldValue>, i: nat)
    requires i < |values|
    ensures MaskBit(NullMask(values), i) == values[i].isNull
  {
    PackBits(Nulls(values), 8 * (i / 8), 8, i % 8);
  }

  /** After i fields: every bit below i is the field's null flag, every other bit is clear. */
  ghost predicate MaskUpTo(mask: seq<byte>, values: seq<FieldValue>, i: nat) {
    forall k, j :: 0 <= k < |mask| && 0 <= j < 8 ==>
      Bit(mask[k], j) == (8 * k + j < i && 8 * k + j < |values| && values[8 * k + j].isNull)
  }

  lemma MaskComplete(mask: bytes, values: seq<FieldValue>)
    requires |mask| == MaskLength(|values|) && MaskUpTo(mask, values, |values|)
    ensures mask == NullMask(values)
  {
    forall k | 0 <= k < |mask| ensures mask[k] == NullMask(values)[k] {
      Pow2Values();
      forall j | 0 <= j < 8 ensures Bit(mask[k], j) == Bit(Pack(Nulls(values), 8 * k, 8), j) {
        PackBits(Nulls(values), 8 * k, 8, j);
      }
      BitsDetermine(mask[k], Pack(Nulls(values), 8 * k, 8), 8);
    }
  }

  /** Setting the bit of field i moves the mask from i to i + 1 fields. */
  lemma MaskStep(before: seq<byte>, after: seq<byte>, values: seq<FieldValue>, i: nat)
    requires i < |values| && |before| == |after| == MaskLength(|values|)
    requires MaskUpTo(before, values, i)
    requires after == if values[i].isNull then before[i / 8 := SetByteBit(before[i / 8], i % 8)] else before
    ensures MaskUpTo(after, values, i + 1)
  {
    forall k, j | 0 <= k < |after| && 0 <= j < 8
      ensures Bit(after[k], j) == (8 * k + j < i + 1 && 8 * k + j < |values| && values[8 * k + j].isNull)
    {
      SetBitBits(before[i / 8], i % 8, j);
      assert 8 * k + j == i <==> k == i / 8 && j == i % 8;
    }
  }

  function SetByteBit(b: byte, k: nat): byte
    requires k < 8
  {
    Pow2Values();
    BitsStayInWord(b, k, 8);
    SetBit(b, k)
  }

  /** `pooled` is a buffer from the pool with arbitrary old content; wide records reuse it when it is long enough. */
  method WriteNullMask(w: Sink, values: seq<FieldValue>, pooled: array<byte>)
    modifies w, pooled
    ensures w.out == old(w.out) + NullMask(values)
  {
    var maskLen := (|values| + 7) / 8;
    var buf := pooled;
    if maskLen <= STACK_MASK_BYTES || pooled.Length < maskLen {
      buf := new byte[maskLen];
    }
    for k := 0 to maskLen
      invariant w.out == old(w.out)
      invariant forall j :: 0 <= j < k ==> buf[j] == 0
    {
      buf[k] := 0;
    }
    forall j ensures !Bit(0, j) {
      ZeroHasNoBits(j);
    }
    for i := 0 to |values|
      invariant w.out == old(w.out)
      invariant MaskUpTo(buf[..maskLen], values, i)
    {
      ghost var before := buf[..maskLen];
      if values[i].isNull {
        buf[i / 8] := SetByteBit(buf[i / 8], i % 8);
      }
      MaskStep(before, buf[..maskLen], values, i);
    }
    MaskComplete(buf[..maskLen], values);
    w.Write(buf[..maskLen]);
  }

  // ---------------------------------------------------------------- types and field values

  function DataTypeToByte(dt: DataType): byte {
    match dt
    case TypeInt64 => 1
    case TypeFloat64 => 2
    case TypeBool => 3
    case TypeTimestamp => 4
    case TypeBytes => 5
    case TypeDate => 6
    case TypeDecimal => 7
    case TypeJSON => 8
    case _ => 0
  }

  function ByteToDataType(b: byte): DataType {
    if b == 1 then TypeInt64
    else if b == 2 then TypeFloat64
    else if b == 3 then TypeBool
    else if b == 4 then TypeTimestamp
    else if b == 5 then TypeBytes
    else if b == 6 then TypeDate
    else if b == 7 then TypeDecimal
    else if b == 8 then TypeJSON
    else TypeString
  }

  /** Lengths are machine integers; the encoder asks no more. */
  predicate Addressable(v: FieldValue) {
    |v.str| <= MAX_INT64
  }

  /** The decoder accepts byte strings up to its limit; other storage is always accepted. */
  predicate Fits(v: FieldValue) {
    v.isNull || IsNumericDataType(v.typ) || |v.str| <= MAX_BYTES_LENGTH
  }

  function EncodeFieldValue(v: FieldValue): bytes
    requires Addressable(v)
  {
    match v.typ
    case TypeInt64 => Varint(ToInt64(v.num))
    case TypeFloat64 => BigEndian(v.num, 8)
    case TypeBool => [if v.num == 1 then 1 else 0]
    case TypeTimestamp => Varint(ToInt64(v.num))
    case TypeDecimal => Varint(ToInt64(v.num)) + Varint(v.scale)
    case _ => LengthPrefixed(v.str)
  }

  function ParseFieldValue(s: bytes, dt: DataType): Parsed<FieldValue> {
    match dt
    case TypeInt64 =>
      (match ParseVarint(s)
       case Ok(v) => Ok((ZERO_VALUE.(typ := dt, num := ToUint64(v.0)), v.1))
       case Err(e) => Err(e))
    case TypeFloat64 =>
      (match Take(s, 8)
       case Ok(v) => Pow256Values(); Ok((ZERO_VALUE.(typ := dt, num := FromBigEndian(v.0)), v.1))
       case Err(e) => Err(e))
    case TypeBool =>
      (match Take(s, 1)
       case Ok(v) => Ok((ZERO_VALUE.(typ := dt, num := if v.0[0] != 0 then 1 else 0), v.1))
       case Err(e) => Err(e))
    case TypeTimestamp =>
      (match ParseVarint(s)
       case Ok(v) => Ok((ZERO_VALUE.(typ := dt, num := ToUint64(v.0)), v.1))
       case Err(e) => Err(e))
    case TypeDecimal =>
      (match ParseVarint(s)
       case Err(e) => Err(e)
       case Ok(m) =>
         match ParseVarint(m.1)
         case Err(e) => Err(e)
         case Ok(v) => Ok((ZERO_VALUE.(typ := dt, num := ToUint64(m.0), scale := ToInt32(v.0)), v.1)))
    case _ =>
      (match ParseBytes(s)
       case Ok(v) => Ok((ZERO_VALUE.(typ := dt, str := v.0), v.1))
       case Err(e) => Err(e))
  }

  /** What a value looks like after a round trip: nulls lose their type, and each type keeps only its own storage. */
  function NormalValue(v: FieldValue): FieldValue {
    if v.isNull then ZERO_VALUE.(isNull := true)
    else
      match v.typ
      case TypeInt64 => ZERO_VALUE.(typ := v.typ, num := v.num)
      case TypeFloat64 => ZERO_VALUE.(typ := v.typ, num := v.num)
      case TypeBool => ZERO_VALUE.(typ := v.typ, num := if v.num == 1 then 1 else 0)
      case TypeTimestamp => ZERO_VALUE.(typ := v.typ, num := v.num)
      case TypeDecimal => ZERO_VALUE.(typ := v.typ, num := v.num, scale := v.scale)
      case OtherType(_) => ZERO_VALUE.(typ := TypeString, str := v.str)
      case _ => ZERO_VALUE.(typ := v.typ, str := v.str)
  }

  lemma FieldValueRoundTrip(v: FieldValue, rest: bytes)
    requires !v.isNull && Addressable(v) && Fits(v)
    ensures ParseFieldValue(EncodeFieldValue(v) + rest, ByteToDataType(DataTypeToByte(v.typ)))
         == Ok((NormalValue(v), rest))
  {
    WordsRoundTrip(v.num, 0, 0, v.scale);
    var s := EncodeFieldValue(v) + rest;
    match v.typ {
      case TypeInt64 => VarintRoundTrip(ToInt64(v.num), rest);
      case TypeTimestamp => VarintRoundTrip(ToInt64(v.num), rest);
      case TypeFloat64 =>
        Pow256Values();
        BigEndianRoundTrip(v.num, 8);
        assert s[..8] == BigEndian(v.num, 8) && s[8..] == rest;
      case TypeBool =>
        assert s[1..] == rest;
      case TypeDecimal =>
        assert s == Varint(ToInt64(v.num)) + (Varint(v.scale) + rest);
        VarintRoundTrip(ToInt64(v.num), Varint(v.scale) + rest);
        VarintRoundTrip(v.scale, rest);
      case _ => BytesRoundTrip(v.str, rest);
    }
  }

  lemma LongFieldIsRefused(v: FieldValue, rest: bytes)
    requires Addressable(v) && !Fits(v)
    ensures ParseFieldValue(EncodeFieldValue(v) + rest, ByteToDataType(DataTypeToByte(v.typ))).Err?
  {
    LongBytesAreRefused(v.str, rest);
  }

  method WriteFieldValue(w: Sink, v: FieldValue)
    requires Addressable(v)
    modifies w
    ensures w.out == old(w.out) + EncodeFieldValue(v)
  {
    match v.typ {
      case TypeInt64 => WriteVarint(w, ToInt64(v.num));
      case TypeFloat64 => w.Write(BigEndian(v.num, 8));
      case TypeBool => w.Write([if v.num == 1 then 1 else 0]);
      case TypeTimestamp => WriteVarint(w, ToInt64(v.num));
      case TypeBytes => WriteBytes(w, v.str);
      case TypeDecimal =>
        WriteVarint(w, ToInt64(v.num));
        WriteVarint(w, v.scale);
      case _ => WriteBytes(w, v.str);
    }
  }

  method ReadFieldValue(r: Source, dt: DataType) returns (res: Result<FieldValue, WireError>)
    modifies r
    ensures Yields(res, ParseFieldValue(old(r.rest), dt), r.rest)
  {
    var fv := ZERO_VALUE.(typ := dt);
    match dt {
      case TypeInt64 =>
        var v := ReadVarint(r);
        res := if v.Ok? then Ok(fv.(num := ToUint64(v.value))) else Err(v.error);
      case TypeFloat64 =>
        var v := r.ReadFull(8);
        Pow256Values();
        res := if v.Ok? then Ok(fv.(num := FromBigEndian(v.value))) else Err(v.error);
      case TypeBool =>
        var v := r.ReadFull(1);
        res := if v.Ok? then Ok(fv.(num := if v.value[0] != 0 then 1 else 0)) else Err(v.error);
      case TypeTimestamp =>
        var v := ReadVarint(r);
        res := if v.Ok? then Ok(fv.(num := ToUint64(v.value))) else Err(v.error);
      case TypeDecimal =>
        var m := ReadVarint(r);
        if m.Err? {
          return Err(m.error);
        }
        var s := ReadVarint(r);
        if s.Err? {
          return Err(s.error);
        }
        res := Ok(fv.(num := ToUint64(m.value), scale := ToInt32(s.value)));
      case _ =>
        var v := ReadBytes(r);
        res := if v.Ok? then Ok(fv.(str := v.value)) else Err(v.error);
    }
  }

  // ---------------------------------------------------------------- the fields of a record

  function EncodeFields(values: seq<FieldValue>): bytes
    requires forall i :: 0 <= i < |values| ==> Addressable(values[i])
  {
    if values == [] then []
    else
      var v := values[0];
      (if v.isNull then [] else [DataTypeToByte(v.typ)] + EncodeFieldValue(v)) + EncodeFields(values[1..])
  }

  /** Fields i..n of a record with null mask `mask`. */
  function ParseFields(s: bytes, mask: bytes, i: nat, n: nat): Parsed<seq<FieldValue>>
    requires i <= n && |mask| == MaskLength(n)
    decreases n - i
  {
    if i == n then Ok(([], s))
    else
      var first :=
        if MaskBit(mask, i) then Ok((ZERO_VALUE.(isNull := true), s))
        else if s == [] then Err(UnexpectedEnd)
        else ParseFieldValue(s[1..], ByteToDataType(s[0]));
      match first
      case Err(e) => Err(e)
      case Ok(v) =>
        match ParseFields(v.1, mask, i + 1, n)
        case Err(e) => Err(e)
        case Ok(vs) => Ok(([v.0] + vs.0, vs.1))
  }

  function NormalValues(values: seq<FieldValue>): (out: seq<FieldValue>)
    ensures |out| == |values| && forall i :: 0 <= i < |values| ==> out[i] == NormalValue(values[i])
  {
    seq(|values|, i requires 0 <= i < |values| => NormalValue(values[i]))
  }

  lemma {:induction false} FieldsRoundTrip(values: seq<FieldValue>, i: nat, rest: bytes)
    requires i <= |values| && forall k :: 0 <= k < |values| ==> Addressable(values[k]) && Fits(values[k])
    ensures ParseFields(EncodeFields(values[i..]) + rest, NullMask(values), i, |values|)
         == Ok((NormalValues(values[i..]), rest))
    decreases |values| - i
  {
    hide ParseFieldValue, EncodeFieldValue, MaskBit, NullMask;
    if i == |values| {
      assert EncodeFields([]) + rest == rest;
    } else {
      var v := values[i];
      var tail := EncodeFields(values[i + 1..]) + rest;
      assert values[i..][1..] == values[i + 1..] && values[i..][0] == v;
      assert NormalValues(values[i..]) == [NormalValue(v)] + NormalValues(values[i + 1..]);
      FieldsRoundTrip(values, i + 1, rest);
      NullMaskBits(values, i);
      var s := EncodeFields(values[i..]) + rest;
      if v.isNull {
        assert s == tail;
      } else {
        assert s == [DataTypeToByte(v.typ)] + (EncodeFieldValue(v) + tail);
        assert s[1..] == EncodeFieldValue(v) + tail;
        FieldValueRoundTrip(v, tail);
      }
    }
  }

  /** The first field that does not fit stops the decoder. */
  lemma {:induction false} LongFieldsAreRefused(values: seq<FieldValue>, i: nat, rest: bytes)
    requires i <= |values| && forall k :: 0 <= k < |values| ==> Addressable(values[k])
    requires exists k :: i <= k < |values| && !Fits(values[k])
    ensures ParseFields(EncodeFields(values[i..]) + rest, NullMask(values), i, |values|).Err?
    decreases |values| - i
  {
    hide ParseFieldValue, EncodeFieldValue, MaskBit, NullMask;
    var v := values[i];
    var tail := EncodeFields(values[i + 1..]) + rest;
    assert values[i..][1..] == values[i + 1..] && values[i..][0] == v;
    NullMaskBits(values, i);
    var s := EncodeFields(values[i..]) + rest;
    if v.isNull {
      assert s == tail;
    } else {
      assert s == [DataTypeToByte(v.typ)] + (EncodeFieldValue(v) + tail);
      assert s[1..] == EncodeFieldValue(v) + tail;
    }
    if !Fits(v) {
      LongFieldIsRefused(v, tail);
    } else {
      if !v.isNull {
        FieldValueRoundTrip(v, tail);
      }
      LongFieldsAreRefused(values, i + 1, rest);
    }
  }

  method WriteFieldValues(w: Sink, values: seq<FieldValue>)
    requires forall i :: 0 <= i < |values| ==> Addressable(values[i])
    modifies w
    ensures w.out == old(w.out) + EncodeFields(values)
  {
    hide EncodeFieldValue;
    for i := 0 to |values|
      invariant w.out + EncodeFields(values[i..]) == old(w.out) + EncodeFields(values)
    {
      var v := values[i];
      assert values[i..][1..] == values[i + 1..];
      if v.isNull {
        continue;
      }
      w.Write([DataTypeToByte(v.typ)]);
      WriteFieldValue(w, v);
    }
  }

  method ReadFieldValues(r: Source, n: nat, mask: bytes) returns (res: Result<seq<FieldValue>, WireError>)
    requires |mask| == MaskLength(n)
    modifies r
    ensures Yields(res, ParseFields(old(r.rest), mask, 0, n), r.rest)
  {
    hide ParseFieldValue, MaskBit;
    var values := [];
    ghost var whole := ParseFields(r.rest, mask, 0, n);
    for i := 0 to n
      invariant match ParseFields(r.rest, mask, i, n)
                case Ok(v) => whole.Ok? && whole.value.0 == values + v.0 && whole.value.1 == v.1
                case Err(e) => whole == Err(e)
    {
      if MaskBit(mask, i) {
        values := values + [ZERO_VALUE.(isNull := true)];
        continue;
      }
      var typ := r.ReadByte();
      if typ.Err? {
        return Err(typ.error);
      }
      var v := ReadFieldValue(r, ByteToDataType(typ.value));
      if v.Err? {
        return Err(v.error);
      }
      values := values + [v.value];
    }
    assert values + [] == values;
    return Ok(values);
  }

  // ---------------------------------------------------------------- audit map

  ghost predicate AddressableMap(m: map<bytes, bytes>) {
    (forall k :: k in m ==> |k| <= MAX_INT64 && |m[k]| <= MAX_INT64) && |m| <= MAX_INT64
  }

  ghost predicate ShortMap(m: map<bytes, bytes>) {
    forall k :: k in m ==> |k| <= MAX_BYTES_LENGTH && |m[k]| <= MAX_BYTES_LENGTH
  }

  function EncodePairs(m: map<bytes, bytes>, order: seq<bytes>): bytes
    requires forall k :: k in order ==> k in m && |k| <= MAX_INT64 && |m[k]| <= MAX_INT64
  {
    if order == [] then []
    else LengthPrefixed(order[0]) + LengthPrefixed(m[order[0]]) + EncodePairs(m, order[1..])
  }

  function ParsePairs(s: bytes, n: int, acc: map<bytes, bytes>): Parsed<map<bytes, bytes>>
    decreases n
  {
    if n <= 0 then Ok((acc, s))
    else
      match ParseBytes(s)
      case Err(e) => Err(e)
      case Ok(k) =>
        match ParseBytes(k.1)
        case Err(e) => Err(e)
        case Ok(v) => ParsePairs(v.1, n - 1, acc[k.0 := v.0])
  }

  lemma {:induction false} PairsRoundTrip(m: map<bytes, bytes>, order: seq<bytes>, rest: bytes, acc: map<bytes, bytes>)
    requires AddressableMap(m) && ShortMap(m) && (forall k :: k in order ==> k in m)
    ensures ParsePairs(EncodePairs(m, order) + rest, |order|, acc) == Ok((Overwrite(m, order, acc), rest))
    decreases |order|
  {
    hide LengthPrefixed, ParseBytes;
    var s := EncodePairs(m, order) + rest;
    if order == [] {
      assert s == rest;
    } else {
      var k, tail := order[0], EncodePairs(m, order[1..]) + rest;
      assert s == LengthPrefixed(k) + (LengthPrefixed(m[k]) + tail);
      BytesRoundTrip(k, LengthPrefixed(m[k]) + tail);
      BytesRoundTrip(m[k], tail);
      PairsRoundTrip(m, order[1..], rest, acc[k := m[k]]);
    }
  }

  lemma {:induction false} LongPairsAreRefused(
      m: map<bytes, bytes>, order: seq<bytes>, rest: bytes, acc: map<bytes, bytes>)
    requires AddressableMap(m) && (forall k :: k in order ==> k in m)
    requires exists k :: k in order && !(|k| <= MAX_BYTES_LENGTH && |m[k]| <= MAX_BYTES_LENGTH)
    ensures ParsePairs(EncodePairs(m, order) + rest, |order|, acc).Err?
    decreases |order|
  {
    hide LengthPrefixed, ParseBytes;
    var k, tail := order[0], EncodePairs(m, order[1..]) + rest;
    assert EncodePairs(m, order) + rest == LengthPrefixed(k) + (LengthPrefixed(m[k]) + tail);
    if |k| > MAX_BYTES_LENGTH {
      LongBytesAreRefused(k, LengthPrefixed(m[k]) + tail);
    } else {
      BytesRoundTrip(k, LengthPrefixed(m[k]) + tail);
      if |m[k]| > MAX_BYTES_LENGTH {
        LongBytesAreRefused(m[k], tail);
      } else {
        BytesRoundTrip(m[k], tail);
        LongPairsAreRefused(m, order[1..], rest, acc[k := m[k]]);
      }
    }
  }

  lemma PairsStep(m: map<bytes, bytes>, order: seq<bytes>, i: nat, out: bytes)
    requires i < |order|
    requires forall k :: k in order ==> k in m && |k| <= MAX_INT64 && |m[k]| <= MAX_INT64
    ensures out + EncodePairs(m, order[i..])
         == out + LengthPrefixed(order[i]) + LengthPrefixed(m[order[i]]) + EncodePairs(m, order[i + 1..])
  {
    assert order[i..][1..] == order[i + 1..];
  }

  lemma PairsEnd(m: map<bytes, bytes>, order: seq<bytes>)
    ensures EncodePairs(m, order[|order|..]) == []
  {
  }

  method WriteAuditFields(w: Sink, m: map<bytes, bytes>, order: seq<bytes>)
    requires AddressableMap(m) && Enumerates(order, m)
    modifies w
    ensures w.out == old(w.out) + Varint(|m|) + EncodePairs(m, order)
  {
    hide LengthPrefixed, Varint, EncodePairs;
    WriteVarint(w, |m|);
    assert order[0..] == order;
    for i := 0 to |order|
      invariant w.out + EncodePairs(m, order[i..]) == old(w.out) + Varint(|m|) + EncodePairs(m, order)
    {
      PairsStep(m, order, i, w.out);
      WriteBytes(w, order[i]);
      WriteBytes(w, m[order[i]]);
    }
    PairsEnd(m, order);
  }

  method ReadAuditFields(r: Source, n: int) returns (res: Result<map<bytes, bytes>, WireError>)
    modifies r
    ensures Yields(res, ParsePairs(old(r.rest), n, map[]), r.rest)
  {
    hide ParseBytes;
    var fields: map<bytes, bytes> := map[];
    var i := 0;
    while i < n
      invariant 0 <= i && (0 <= n ==> i <= n)
      invariant ParsePairs(old(r.rest), n, map[]) == ParsePairs(r.rest, n - i, fields)
    {
      var k := ReadBytes(r);
      if k.Err? {
        return Err(k.error);
      }
      var v := ReadBytes(r);
      if v.Err? {
        return Err(v.error);
      }
      fields := fields[k.value := v.value];
      i := i + 1;
    }
    return Ok(fields);
  }

  // ---------------------------------------------------------------- records

  ghost predicate Encodable(rec: GenericRecord) {
    && |rec.schemaID| <= MAX_INT64 && |rec.values| <= MAX_INT64
    && (forall i :: 0 <= i < |rec.values| ==> Addressable(rec.values[i]))
    && AddressableMap(rec.audit)
  }

  /** The limits of the decoder. */
  ghost predicate WithinLimits(rec: GenericRecord) {
    && |rec.schemaID| <= MAX_BYTES_LENGTH
    && |rec.values| <= MAX_RECORD_FIELDS
    && (forall i :: 0 <= i < |rec.values| ==> Fits(rec.values[i]))
    && ShortMap(rec.audit)
  }

  function EncodeBody(rec: GenericRecord, order: seq<bytes>): bytes
    requires Encodable(rec) && Enumerates(order, rec.audit)
  {
    Varint(|rec.values|)
    + (NullMask(rec.values) + (EncodeFields(rec.values) + (Varint(|rec.audit|) + EncodePairs(rec.audit, order))))
  }

  /** `order` is the order in which the map iteration happens to meet the audit keys. */
  function EncodeRecord(rec: Option<GenericRecord>, order: seq<bytes>): bytes
    requires rec.Some? ==> Encodable(rec.value) && Enumerates(order, rec.value.audit)
  {
    if rec.None? then NIL_TOKEN else LengthPrefixed(rec.value.schemaID) + EncodeBody(rec.value, order)
  }

  function ParseAudit(s: bytes): Parsed<map<bytes, bytes>> {
    match ParseVarint(s)
    case Err(e) => Err(e)
    case Ok(n) => ParsePairs(n.1, n.0, map[])
  }

  function ParseValues(s: bytes, n: nat): Parsed<seq<FieldValue>> {
    match Take(s, MaskLength(n))
    case Err(e) => Err(e)
    case Ok(mask) => ParseFields(mask.1, mask.0, 0, n)
  }

  function ParseRecord(s: bytes): Parsed<Option<GenericRecord>> {
    match ParseBytes(s)
    case Err(e) => if e == NilToken then ParseNilRest(s) else Err(e)
    case Ok(id) =>
      match ParseVarint(id.1)
      case Err(e) => Err(e)
      case Ok(n) =>
        if n.0 == -1 then Ok((None, n.1))
        else if n.0 < 0 || n.0 > MAX_RECORD_FIELDS then Err(InvalidFieldCount)
        else
          match ParseValues(n.1, n.0)
          case Err(e) => Err(e)
          case Ok(values) =>
            match ParseAudit(values.1)
            case Err(e) => Err(e)
            case Ok(audit) => Ok((Some(GenericRecord(id.0, values.0, audit.0)), audit.1))
  }

  /** A nil token decodes to no record and leaves what follows its varint. */
  function ParseNilRest(s: bytes): Parsed<Option<GenericRecord>> {
    match ParseVarint(s)
    case Err(e) => Err(e)
    case Ok(v) => Ok((None, v.1))
  }

  function NormalRecord(rec: GenericRecord): GenericRecord {
    rec.(values := NormalValues(rec.values))
  }

  lemma AuditRoundTrip(m: map<bytes, bytes>, order: seq<bytes>, rest: bytes)
    requires AddressableMap(m) && ShortMap(m) && Enumerates(order, m)
    ensures ParseAudit(Varint(|m|) + EncodePairs(m, order) + rest) == Ok((m, rest))
  {
    hide LengthPrefixed, ParseBytes, ParseVarint, Varint, ParsePairs, EncodePairs;
    EnumerationLength(order, m);
    assert Varint(|m|) + EncodePairs(m, order) + rest == Varint(|m|) + (EncodePairs(m, order) + rest);
    VarintRoundTrip(|m|, EncodePairs(m, order) + rest);
    PairsRoundTrip(m, order, rest, map[]);
    OverwriteAll(m, order);
  }

  lemma ValuesRoundTrip(values: seq<FieldValue>, rest: bytes)
    requires forall k :: 0 <= k < |values| ==> Addressable(values[k]) && Fits(values[k])
    ensures ParseValues(NullMask(values) + (EncodeFields(values) + rest), |values|) == Ok((NormalValues(values), rest))
  {
    var s := NullMask(values) + (EncodeFields(values) + rest);
    assert s[..MaskLength(|values|)] == NullMask(values);
    assert s[MaskLength(|values|)..] == EncodeFields(values) + rest;
    FieldsRoundTrip(values, 0, rest);
    assert values[0..] == values;
  }

  /**
   Round trip. Decoding what was encoded returns the record in normal form, or no record for
   nil, and leaves exactly the bytes that followed, in whatever order the audit map was
   enumerated.
   */
  lemma RecordRoundTrip(rec: Option<GenericRecord>, order: seq<bytes>, rest: bytes)
    requires rec.Some? ==> Encodable(rec.value) && Enumerates(order, rec.value.audit) && WithinLimits(rec.value)
    ensures ParseRecord(EncodeRecord(rec, order) + rest)
         == Ok((if rec.None? then None else Some(NormalRecord(rec.value)), rest))
  {
    hide LengthPrefixed, ParseBytes, ParseVarint, Varint, ParsePairs, EncodePairs;
    hide NullMask, EncodeFields, ParseFields, ParseAudit, ParseValues, NormalValues;
    if rec.None? {
      NilTokenParses(rest);
      VarintRoundTrip(-1, rest);
    } else {
      var v := rec.value;
      var audit := Varint(|v.audit|) + EncodePairs(v.audit, order) + rest;
      var fields := EncodeFields(v.values) + audit;
      var body := Varint(|v.values|) + (NullMask(v.values) + fields);
      assert EncodeRecord(rec, order) + rest == LengthPrefixed(v.schemaID) + body;
      BytesRoundTrip(v.schemaID, body);
      VarintRoundTrip(|v.values|, NullMask(v.values) + fields);
      ValuesRoundTrip(v.values, audit);
      AuditRoundTrip(v.audit, order, rest);
    }
  }

  lemma LongAuditIsRefused(m: map<bytes, bytes>, order: seq<bytes>, rest: bytes)
    requires AddressableMap(m) && !ShortMap(m) && Enumerates(order, m)
    ensures ParseAudit(Varint(|m|) + EncodePairs(m, order) + rest).Err?
  {
    hide LengthPrefixed, ParseBytes, ParseVarint, Varint, ParsePairs, EncodePairs;
    EnumerationLength(order, m);
    assert Varint(|m|) + EncodePairs(m, order) + rest == Varint(|m|) + (EncodePairs(m, order) + rest);
    VarintRoundTrip(|m|, EncodePairs(m, order) + rest);
    LongPairsAreRefused(m, order, rest, map[]);
  }

  lemma LongValuesAreRefused(values: seq<FieldValue>, rest: bytes)
    requires forall k :: 0 <= k < |values| ==> Addressable(values[k])
    requires exists k :: 0 <= k < |values| && !Fits(values[k])
    ensures ParseValues(NullMask(values) + (EncodeFields(values) + rest), |values|).Err?
  {
    var s := NullMask(values) + (EncodeFields(values) + rest);
    assert s[..MaskLength(|values|)] == NullMask(values);
    assert s[MaskLength(|values|)..] == EncodeFields(values) + rest;
    LongFieldsAreRefused(values, 0, rest);
    assert values[0..] == values;
  }

  /** Beyond the decoder's limits an encoded record is refused, never read as something else. */
  lemma RefusedBeyondLimits(rec: GenericRecord, order: seq<bytes>, rest: bytes)
    requires Encodable(rec) && Enumerates(order, rec.audit) && !WithinLimits(rec)
    ensures ParseRecord(EncodeRecord(Some(rec), order) + rest).Err?
  {
    hide LengthPrefixed, ParseBytes, ParseVarint, Varint, ParsePairs, EncodePairs;
    hide NullMask, EncodeFields, ParseFields, ParseAudit, ParseValues, NormalValues;
    var audit := Varint(|rec.audit|) + EncodePairs(rec.audit, order) + rest;
    var fields := EncodeFields(rec.values) + audit;
    var body := Varint(|rec.values|) + (NullMask(rec.values) + fields);
    assert EncodeRecord(Some(rec), order) + rest == LengthPrefixed(rec.schemaID) + body;
    if |rec.schemaID| > MAX_BYTES_LENGTH {
      LongBytesAreRefused(rec.schemaID, body);
    } else {
      BytesRoundTrip(rec.schemaID, body);
      VarintRoundTrip(|rec.values|, NullMask(rec.values) + fields);
      if |rec.values| <= MAX_RECORD_FIELDS {
        if forall i :: 0 <= i < |rec.values| ==> Fits(rec.values[i]) {
          ValuesRoundTrip(rec.values, audit);
          LongAuditIsRefused(rec.audit, order, rest);
        } else {
          LongValuesAreRefused(rec.values, audit);
        }
      }
    }
  }

  /** The limits in figures: 10000 fields, and texts, keys and values of 64 MiB. */
  lemma LimitsAre(rec: GenericRecord)
    ensures WithinLimits(rec) <==>
            && |rec.schemaID| <= 67108864 && |rec.values| <= 10000
            && (forall i :: 0 <= i < |rec.values| && Textual(rec.values[i]) ==> |rec.values[i].str| <= 67108864)
            && (forall k :: k in rec.audit ==> |k| <= 67108864 && |rec.audit[k]| <= 67108864)
  {
    assert forall i :: 0 <= i < |rec.values| ==>
             (Fits(rec.values[i]) <==> (Textual(rec.values[i]) ==> |rec.values[i].str| <= 67108864));
  }

  /** A value that is stored as text. */
  predicate Textual(v: FieldValue) {
    && !v.isNull && !v.typ.TypeInt64? && !v.typ.TypeFloat64?
    && !v.typ.TypeBool? && !v.typ.TypeTimestamp? && !v.typ.TypeDecimal?
  }

  /** Exactly which records survive: those within the decoder's limits. */
  lemma RoundTripIff(rec: GenericRecord, order: seq<bytes>, rest: bytes)
    requires Encodable(rec) && Enumerates(order, rec.audit)
    ensures ParseRecord(EncodeRecord(Some(rec), order) + rest) == Ok((Some(NormalRecord(rec)), rest))
       <==> WithinLimits(rec)
  {
    hide EncodeRecord, ParseRecord, NormalRecord;
    if WithinLimits(rec) {
      RecordRoundTrip(Some(rec), order, rest);
    } else {
      RefusedBeyondLimits(rec, order, rest);
    }
  }

  /** Normalising twice is normalising once, so encoding a decoded record changes nothing further. */
  lemma NormalFormIsStable(rec: GenericRecord)
    ensures NormalRecord(NormalRecord(rec)) == NormalRecord(rec)
    ensures forall i :: 0 <= i < |rec.values| ==> NormalRecord(rec).values[i].isNull == rec.values[i].isNull
  {
    assert NormalValues(NormalValues(rec.values)) == NormalValues(rec.values);
  }

  /** A value that is not null and keeps to its type's storage comes back itself; only unknown types are lost. */
  lemma OwnStorageIsNormal(v: FieldValue)
    requires OwnStorage(v.typ, v) && !v.isNull && !v.typ.OtherType? && (v.typ.TypeBool? ==> v.num <= 1)
    ensures NormalValue(v) == v
  {
  }

  /** Of a null only the null comes back. */
  lemma NullIsNormal(v: FieldValue)
    requires v.isNull
    ensures NormalValue(v) == FieldValue(OtherType([]), true, 0, 0, [])
  {
  }

  /** Records of such values come back as they were. */
  lemma RecordsComeBack(rec: GenericRecord, order: seq<bytes>, rest: bytes)
    requires Encodable(rec) && Enumerates(order, rec.audit) && WithinLimits(rec)
    requires forall i :: 0 <= i < |rec.values| ==>
               var v := rec.values[i];
               OwnStorage(v.typ, v) && !v.isNull && !v.typ.OtherType? && (v.typ.TypeBool? ==> v.num <= 1)
    ensures ParseRecord(EncodeRecord(Some(rec), order) + rest) == Ok((Some(rec), rest))
  {
    hide ParseRecord, EncodeRecord, NormalValue, WithinLimits;
    RecordRoundTrip(Some(rec), order, rest);
    forall i | 0 <= i < |rec.values| ensures NormalValue(rec.values[i]) == rec.values[i] {
      OwnStorageIsNormal(rec.values[i]);
    }
    assert NormalValues(rec.values) == rec.values;
  }

  lemma Reassociate(o: bytes, a: bytes, b: bytes, c: bytes, d: bytes, e: bytes, f: bytes)
    ensures o + a + b + c + d + e + f == o + (a + (b + (c + (d + (e + f)))))
  {
    assert o + a + b == o + (a + b);
    assert o + (a + b) + c == o + (a + (b + c));
    assert o + (a + (b + c)) + d == o + (a + (b + (c + d)));
    assert o + (a + (b + (c + d))) + e + f == o + (a + (b + (c + (d + (e + f)))));
  }

  method EncodeGenericRecord(rec: Option<GenericRecord>, w: Sink, order: seq<bytes>, pooled: array<byte>)
    requires rec.Some? ==> Encodable(rec.value) && Enumerates(order, rec.value.audit)
    modifies w, pooled
    ensures w.out == old(w.out) + EncodeRecord(rec, order)
  {
    hide LengthPrefixed, Varint, EncodePairs, NullMask, EncodeFields;
    if rec.None? {
      WriteVarint(w, -1);
      return;
    }
    var v := rec.value;
    WriteBytes(w, v.schemaID);
    WriteVarint(w, |v.values|);
    WriteNullMask(w, v.values, pooled);
    WriteFieldValues(w, v.values);
    WriteAuditFields(w, v.audit, order);
    Reassociate(old(w.out), LengthPrefixed(v.schemaID), Varint(|v.values|), NullMask(v.values), EncodeFields(v.values),
                Varint(|v.audit|), EncodePairs(v.audit, order));
  }

  method DecodeGenericRecord(r: Source) returns (res: Result<Option<GenericRecord>, WireError>)
    modifies r
    ensures Yields(res, ParseRecord(old(r.rest)), r.rest)
  {
    hide ParseBytes, ParseVarint, ParseFields, ParsePairs;
    var id := ReadBytes(r);
    if id.Err? {
      return if id.error == NilToken then Ok(None) else Err(id.error);
    }
    var n := ReadVarint(r);
    if n.Err? {
      return Err(n.error);
    }
    if n.value == -1 {
      return Ok(None);
    }
    if n.value < 0 || n.value > MAX_RECORD_FIELDS {
      return Err(InvalidFieldCount);
    }
    var mask := r.ReadFull(MaskLength(n.value));
    if mask.Err? {
      return Err(mask.error);
    }
    var values := ReadFieldValues(r, n.value, mask.value);
    if values.Err? {
      return Err(values.error);
    }
    var count := ReadVarint(r);
    if count.Err? {
      return Err(count.error);
    }
    var audit := ReadAuditFields(r, count.value);
    if audit.Err? {
      return Err(audit.error);
    }
    return Ok(Some(GenericRecord(id.value, values.value, audit.value)));
  }

  // ---------------------------------------------------------------- malformed input

  /** After a schema id, -1 fields mean no record, and other negative counts and those beyond the limit are refused. */
  lemma FieldCounts(id: bytes, n: int64, rest: bytes)
    requires |id| <= MAX_BYTES_LENGTH && (n < 0 || n > 10000)
    ensures ParseRecord(LengthPrefixed(id) + (Varint(n) + rest))
         == if n == -1 then Ok((None, rest)) else Err(InvalidFieldCount)
  {
    hide ParseBytes, ParseVarint, LengthPrefixed, Varint, ParseValues, ParseAudit;
    BytesRoundTrip(id, Varint(n) + rest);
    VarintRoundTrip(n, rest);
  }

  lemma FieldValueExtends(s: bytes, dt: DataType, more: bytes)
    ensures Stable(ParseFieldValue(s, dt), ParseFieldValue(s + more, dt), more)
  {
    hide ParseVarint, ParseBytes, Take;
    VarintExtends(s, more);
    BytesExtend(s, more);
    TakeExtends(s, 8, more);
    TakeExtends(s, 1, more);
    if ParseVarint(s).Ok? {
      VarintExtends(ParseVarint(s).value.1, more);
    }
  }

  lemma {:induction false} FieldsExtend(s: bytes, mask: bytes, i: nat, n: nat, more: bytes)
    requires i <= n && |mask| == MaskLength(n)
    ensures Stable(ParseFields(s, mask, i, n), ParseFields(s + more, mask, i, n), more)
    decreases n - i
  {
    hide ParseFieldValue, MaskBit;
    if i < n {
      if MaskBit(mask, i) {
        FieldsExtend(s, mask, i + 1, n, more);
      } else if s != [] {
        assert (s + more)[1..] == s[1..] + more;
        FieldValueExtends(s[1..], ByteToDataType(s[0]), more);
        var v := ParseFieldValue(s[1..], ByteToDataType(s[0]));
        if v.Ok? {
          FieldsExtend(v.value.1, mask, i + 1, n, more);
        }
      }
    }
  }

  lemma {:induction false} PairsExtend(s: bytes, n: int, acc: map<bytes, bytes>, more: bytes)
    ensures Stable(ParsePairs(s, n, acc), ParsePairs(s + more, n, acc), more)
    decreases n
  {
    hide ParseBytes;
    if n > 0 {
      BytesExtend(s, more);
      var k := ParseBytes(s);
      if k.Ok? {
        BytesExtend(k.value.1, more);
        var v := ParseBytes(k.value.1);
        if v.Ok? {
          PairsExtend(v.value.1, n - 1, acc[k.value.0 := v.value.0], more);
        }
      }
    }
  }

  lemma AuditExtends(s: bytes, more: bytes)
    ensures Stable(ParseAudit(s), ParseAudit(s + more), more)
  {
    hide ParseVarint, ParsePairs;
    VarintExtends(s, more);
    if ParseVarint(s).Ok? {
      PairsExtend(ParseVarint(s).value.1, ParseVarint(s).value.0, map[], more);
    }
  }

  lemma ValuesExtend(s: bytes, n: nat, more: bytes)
    ensures Stable(ParseValues(s, n), ParseValues(s + more, n), more)
  {
    hide ParseFields;
    TakeExtends(s, MaskLength(n), more);
    if MaskLength(n) <= |s| {
      FieldsExtend(s[MaskLength(n)..], s[..MaskLength(n)], 0, n, more);
    }
  }

  lemma RecordExtends(s: bytes, more: bytes)
    ensures Stable(ParseRecord(s), ParseRecord(s + more), more)
  {
    hide ParseBytes, ParseVarint, ParseValues, ParseAudit;
    BytesExtend(s, more);
    VarintExtends(s, more);
    NilExtends(s, more);
    if ParseBytes(s).Ok? {
      var id := ParseBytes(s).value;
      VarintExtends(id.1, more);
      if ParseVarint(id.1).Ok? && 0 <= ParseVarint(id.1).value.0 <= MAX_RECORD_FIELDS {
        var n := ParseVarint(id.1).value;
        ValuesExtend(n.1, n.0, more);
        if ParseValues(n.1, n.0).Ok? {
          AuditExtends(ParseValues(n.1, n.0).value.1, more);
        }
      }
    }
  }

  /** What begins with a nil token still does with more input. */
  lemma NilExtends(s: bytes, more: bytes)
    ensures ParseBytes(s) == Err(NilToken) ==> ParseBytes(s + more) == Err(NilToken)
  {
    hide ParseUvarint;
    UvarintExtends(s, 0, more);
  }

  /** A truncated encoding is refused: no part of a record short of the whole decodes to anything. */
  lemma TruncatedIsRefused(rec: Option<GenericRecord>, order: seq<bytes>, n: nat)
    requires rec.Some? ==> Encodable(rec.value) && Enumerates(order, rec.value.audit) && WithinLimits(rec.value)
    requires n < |EncodeRecord(rec, order)|
    ensures ParseRecord(EncodeRecord(rec, order)[..n]).Err?
  {
    hide ParseRecord, EncodeRecord, WithinLimits;
    var e := EncodeRecord(rec, order);
    assert e[..n] + e[n..] == e && e + [] == e;
    RecordRoundTrip(rec, order, []);
    RecordExtends(e[..n], e[n..]);
  }

  // ---------------------------------------------------------------- in figures

  lemma TypesInFigures()
    ensures DataTypeToByte(TypeString) == 0 && DataTypeToByte(TypeInt64) == 1 && DataTypeToByte(TypeFloat64) == 2
    ensures DataTypeToByte(TypeBool) == 3 && DataTypeToByte(TypeTimestamp) == 4 && DataTypeToByte(TypeBytes) == 5
    ensures DataTypeToByte(TypeDate) == 6 && DataTypeToByte(TypeDecimal) == 7 && DataTypeToByte(TypeJSON) == 8
  {
  }

  lemma StorageInFigures()
    ensures EncodeFieldValue(FieldValue(TypeDecimal, false, 2, 5, [])) == [10, 4]
    ensures EncodeFieldValue(FieldValue(TypeTimestamp, false, 0, 5, [])) == [10]
    ensures EncodeFieldValue(FieldValue(TypeBool, false, 0, 1, [])) == [1]
    ensures EncodeFieldValue(FieldValue(TypeFloat64, false, 0, 0x0102, [])) == [0, 0, 0, 0, 0, 0, 1, 2]
  {
    assert Varint(5) == [10] && Varint(2) == [4];
    assert BigEndian(0, 6) == [0, 0, 0, 0, 0, 0] by {
      assert BigEndian(0, 3) == [0, 0, 0];
      assert BigEndian(0, 6) == BigEndian(0, 5) + [0] && BigEndian(0, 5) == BigEndian(0, 4) + [0];
      assert BigEndian(0, 4) == BigEndian(0, 3) + [0];
    }
    assert BigEndian(1, 7) == BigEndian(0, 6) + [1] && BigEndian(0x0102, 8) == BigEndian(1, 7) + [2];
  }

  /** A record of schema "s" with the number 3, a null and the text "a", and the audit entry "k" = "v". */
  lemma RecordInFigures()
    ensures var values := [FieldValue(TypeInt64, false, 0, 3, []), FieldValue(TypeInt64, true, 0, 0, []),
                           FieldValue(TypeString, false, 0, 0, [97])];
            var rec := GenericRecord([115], values, map[[107] := [118]]);
            && Encodable(rec) && Enumerates([[107]], rec.audit)
            && EncodeRecord(Some(rec), [[107]])
               == [2, 115, 6, 2, 1, 6, 0, 2, 97, 2, 2, 107, 2, 118]
  {
    hide LengthPrefixed, EncodeFields, EncodePairs, NullMask, EncodeFieldValue, Varint;
    var values := [FieldValue(TypeInt64, false, 0, 3, []), FieldValue(TypeInt64, true, 0, 0, []),
                   FieldValue(TypeString, false, 0, 0, [97])];
    var rec := GenericRecord([115], values, map[[107] := [118]]);
    assert |rec.audit| == 1;
    ShortInFigures(115);
    FieldsInFigures(values[0], values[1], values[2]);
    MaskInFigures(values);
    AuditInFigures();
    CountsInFigures();
    assert EncodeBody(rec, [[107]]) == [6] + ([2] + ([1, 6, 0, 2, 97] + ([2] + [2, 107, 2, 118])));
  }

  lemma CountsInFigures()
    ensures Varint(3) == [6] && Varint(1) == [2]
  {
  }

  lemma ShortInFigures(b: byte)
    ensures LengthPrefixed([b]) == [2, b]
  {
    assert Varint(1) == [2];
  }

  lemma FieldsInFigures(three: FieldValue, none: FieldValue, a: FieldValue)
    requires three == FieldValue(TypeInt64, false, 0, 3, []) && none.isNull && |none.str| == 0
    requires a == FieldValue(TypeString, false, 0, 0, [97])
    ensures EncodeFields([three, none, a]) == [1, 6, 0, 2, 97]
  {
    hide EncodeFields, EncodeFieldValue;
    ValuesInFigures(three, a);
    FirstField(three, [none, a]);
    FirstField(none, [a]);
    FirstField(a, []);
    assert [three] + [none, a] == [three, none, a] && [none] + [a] == [none, a] && [a] + [] == [a];
    NoFields();
  }

  lemma ValuesInFigures(three: FieldValue, a: FieldValue)
    requires three == FieldValue(TypeInt64, false, 0, 3, []) && a == FieldValue(TypeString, false, 0, 0, [97])
    ensures EncodeFieldValue(three) == [6] && EncodeFieldValue(a) == [2, 97]
  {
    hide LengthPrefixed;
    ShortInFigures(97);
    assert Varint(3) == [6];
  }

  lemma NoFields()
    ensures EncodeFields([]) == []
  {
  }

  lemma FirstField(v: FieldValue, more: seq<FieldValue>)
    requires Addressable(v) && forall i :: 0 <= i < |more| ==> Addressable(more[i])
    ensures EncodeFields([v] + more)
         == (if v.isNull then [] else [DataTypeToByte(v.typ)] + EncodeFieldValue(v)) + EncodeFields(more)
  {
    hide EncodeFieldValue;
    assert ([v] + more)[1..] == more;
  }

  lemma AuditInFigures()
    ensures var audit: map<bytes, bytes> := map[[107] := [118]];
            EncodePairs(audit, [[107]]) == [2, 107, 2, 118]
  {
    hide LengthPrefixed;
    ShortInFigures(107);
    ShortInFigures(118);
    var audit: map<bytes, bytes> := map[[107] := [118]];
    var order: seq<bytes> := [[107]];
    assert order[1..] == [];
    assert EncodePairs(audit, order) == [2, 107] + [2, 118] + EncodePairs(audit, []);
  }

  lemma MaskInFigures(values: seq<FieldValue>)
    requires |values| == 3 && !values[0].isNull && values[1].isNull && !values[2].isNull
    ensures NullMask(values) == [2]
  {
    var flags := Nulls(values);
    assert Pack(flags, 2, 6) == 0 + 2 * Pack(flags, 3, 5);
    NoFlags(flags, 3, 5);
    assert PackByte(flags, 0) == 2;
  }

  lemma {:induction false} NoFlags(flags: seq<bool>, from: nat, n: nat)
    requires from >= |flags|
    ensures Pack(flags, from, n) == 0
    decreases n
  {
    if n > 0 {
      NoFlags(flags, from + 1, n - 1);
    }
  }
}
