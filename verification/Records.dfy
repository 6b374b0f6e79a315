/** Data types, field values, schemas and records. Strings are byte strings, as in the source. */
module Records {
  import opened Basics
  import opened Bits

  datatype DataType =
    | TypeString
    | TypeInt64
    | TypeFloat64
    | TypeBool
    | TypeTimestamp
    | TypeBytes
    | TypeDate
    | TypeDecimal
    | TypeJSON
    | OtherType(name: bytes) // any other string, the empty one included

  /** Numbers, booleans, times and floats all live in the 64 bits of `num`. */
  datatype FieldValue = FieldValue(typ: DataType, isNull: bool, scale: int32, num: uint64, str: bytes)

  const ZERO_VALUE := FieldValue(OtherType([]), false, 0, 0, [])

  datatype Field = Field(name: bytes, typ: DataType, nullable: bool, scale: int32, onOverflow: bytes)

  type Schema = seq<Field>

  /** A nil audit map and an empty one are the same value here. */
  datatype GenericRecord = GenericRecord(schemaID: bytes, values: seq<FieldValue>, audit: map<bytes, bytes>)

  function NullOf(t: DataType): FieldValue {
    FieldValue(t, true, 0, 0, [])
  }

  predicate IsNumericDataType(t: DataType) {
    t.TypeInt64? || t.TypeFloat64? || t.TypeBool? || t.TypeTimestamp? || t.TypeDecimal?
  }

  /** A value that uses the storage of its type and no other, field for field. */
  predicate OwnStorage(typ: DataType, v: FieldValue) {
    v == NullOf(typ) ||
    match typ
    case TypeInt64 => v == FieldValue(typ, false, 0, v.num, [])
    case TypeFloat64 => v == FieldValue(typ, false, 0, v.num, [])
    case TypeBool => v == FieldValue(typ, false, 0, v.num, [])
    case TypeTimestamp => v == FieldValue(typ, false, 0, v.num, [])
    case TypeDecimal => v == FieldValue(typ, false, v.scale, v.num, [])
    case _ => v == FieldValue(typ, false, 0, 0, v.str)
  }
}
