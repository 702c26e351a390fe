/** Field descriptors, decoded values and records: the data the schema-driven
    decoder consumes and produces. */
module Descriptors {

  /** One byte of the input buffer. */
  newtype uint8 = x: int | 0 <= x < 256

  /** The failure a field read raises: Node's Buffer throws a RangeError
      when a read reaches past the end of the buffer. A pattern that the
      regular-expression engine rejects is not modelled (the matcher is
      total). */
  datatype Error = OutOfRange

  datatype Result<T> = Ok(value: T) | Err(error: Error)

  /** The `type` tag of a field. `Enum` carries the field's `enum` value table;
      `Other` stands for an unset type or any tag the decoder does not know,
      which the decoder reads as a signed byte. */
  datatype FieldType = UInt32 | UInt64 | Text | Float64 | Enum(values: seq<string>) | Other

  /** A look-behind conditional: the field is decoded only when `regexMatch`
      matches the value already decoded under `property`. */
  datatype Conditional = Conditional(property: string, regexMatch: string)

  /** A field descriptor of the schema. A missing conditional list is the
      empty sequence. */
  datatype Field = Field(name: string, ftype: FieldType, length: nat, lookBehind: seq<Conditional>)

  /** A decoded scalar. Strings stay raw bytes, a double stays its 8 raw
      big-endian bytes, and `Undefined` is what JavaScript yields for an enum
      index outside the table and for a property a record does not have. */
  datatype Value =
    | UInt(n: nat)
    | Str(bytes: seq<uint8>)
    | Double(bits: seq<uint8>)
    | EnumName(name: string)
    | Int8(i: int)
    | Undefined

  /** A decoded record: field name to value. */
  type Record = map<string, Value>

  /** The regular-expression test `new RegExp(pattern).test(value)`. */
  type Matcher = (string, Value) -> bool

  /** `record[property]`: a property the record lacks reads as undefined. */
  function Lookup(record: Record, property: string): (v: Value)
  {
    if property in record then record[property] else Undefined
  }

  /** The names of a descriptor list. */
  function Names(fields: seq<Field>): (names: set<string>)
  {
    if fields == [] then {} else {fields[0].name} + Names(fields[1..])
  }

  /** The sum of the declared lengths of a descriptor list. */
  function TotalLength(fields: seq<Field>): (total: nat)
  {
    if fields == [] then 0 else fields[0].length + TotalLength(fields[1..])
  }
}
