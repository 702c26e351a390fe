/** The record decoder: decodes one field at the cursor, evaluates
    look-behind conditionals, and walks a descriptor list advancing the
    cursor by the declared length of every field it includes. */
module BaseParsing {
  import opened Descriptors
  import opened NodeBuffer

  /** Whether the bytes a field's read needs lie inside the buffer: the
      declared length for an unsigned integer, always for a string (a slice
      clamps), 8 bytes for a double, one byte for an enum or a signed byte. */
  predicate InBounds(buf: seq<uint8>, offset: nat, field: Field)
  {
    match field.ftype
    case UInt32 | UInt64 => offset + field.length <= |buf|
    case Text => true
    case Float64 => offset + 8 <= |buf|
    case Enum(_) | Other => offset < |buf|
  }

  /** `parseField`: decodes the field at `offset` by its type tag. It throws
      exactly when the bytes it reads are not all inside the buffer, and the
      error is then `OutOfRange` (the only kind of read error). Only reads;
      the cursor is the caller's to advance. */
  function ParseField(buf: seq<uint8>, offset: nat, field: Field): (r: Result<Value>)
    ensures r.Ok? <==> InBounds(buf, offset, field)
  {
    match field.ftype
    case UInt32 | UInt64 =>
      (match ReadUIntBE(buf, offset, field.length)
       case Ok(n) => Ok(UInt(n))
       case Err(e) => Err(e))
    case Text =>
      // the end bound is the declared length itself, not offset + length
      Ok(Str(Slice(buf, offset, field.length)))
    case Float64 =>
      (match ReadDoubleBE(buf, offset)
       case Ok(bits) => Ok(Double(bits))
       case Err(e) => Err(e))
    case Enum(values) =>
      (match ReadInt8(buf, offset)
       case Ok(i) => Ok(if 0 <= i < |values| then EnumName(values[i]) else Undefined)
       case Err(e) => Err(e))
    case Other =>
      (match ReadInt8(buf, offset)
       case Ok(i) => Ok(Int8(i))
       case Err(e) => Err(e))
  }

  /** One step of the `reduce` in `fieldConditionalsMet`: `acc` is the
      conjunction of the conditionals already folded. */
  function ReduceConditionals(conditionals: seq<Conditional>, record: Record, matches: Matcher, acc: bool): (met: bool)
    ensures met <==> acc && forall k :: 0 <= k < |conditionals| ==>
                      matches(conditionals[k].regexMatch, Lookup(record, conditionals[k].property))
  {
    if conditionals == [] then acc
    else
      var c := conditionals[0];
      ReduceConditionals(conditionals[1..], record, matches, acc && matches(c.regexMatch, Lookup(record, c.property)))
  }

  /** `fieldConditionalsMet`: true exactly when every conditional's pattern
      matches the named property of the record built so far (AND of all;
      an empty list is met). */
  function FieldConditionalsMet(conditionals: seq<Conditional>, record: Record, matches: Matcher): (met: bool)
    ensures met <==> forall k :: 0 <= k < |conditionals| ==>
                      matches(conditionals[k].regexMatch, Lookup(record, conditionals[k].property))
  {
    ReduceConditionals(conditionals, record, matches, true)
  }

  /** What a run of `parseFields` leaves behind: the record or the error
      thrown, and the cursor (on an error, where the throwing field began). */
  datatype Pass = Pass(outcome: Result<Record>, offset: nat)

  /** The `reduce` callback of `parseFields` for one field: when the
      field's conditionals are met by the record so far it is decoded at the
      cursor, stored under its name, and the cursor advances by its declared
      length; otherwise the record and cursor stay as they are. */
  function ReduceField(buf: seq<uint8>, offset: nat, record: Record, field: Field, matches: Matcher): (p: Pass)
    ensures p.outcome.Err? <==> FieldConditionalsMet(field.lookBehind, record, matches) && !InBounds(buf, offset, field)
    ensures p.outcome.Ok? ==> p.offset == offset || p.offset == offset + field.length
    ensures p.outcome.Err? ==> p.offset == offset
  {
    if FieldConditionalsMet(field.lookBehind, record, matches) then
      match ParseField(buf, offset, field)
      case Err(e) => Pass(Err(e), offset)
      case Ok(v) => Pass(Ok(record[field.name := v]), offset + field.length)
    else
      Pass(Ok(record), offset)
  }

  /** The `reduce` of `parseFields` from cursor `offset` and the record built
      so far: the descriptors in list order, stopping at the first read that
      throws. */
  function DecodeFields(buf: seq<uint8>, offset: nat, record: Record, fields: seq<Field>, matches: Matcher): (p: Pass)
    ensures offset <= p.offset <= offset + TotalLength(fields)
    decreases |fields|
  {
    if fields == [] then Pass(Ok(record), offset)
    else
      var q := ReduceField(buf, offset, record, fields[0], matches);
      if q.outcome.Err? then q else DecodeFields(buf, q.offset, q.outcome.value, fields[1..], matches)
  }

  /** The parser's state: the buffer and the cursor `offset`, which starts
      at 0 and which every `ParseFields` call advances. */
  class BaseParser {
    const buffer: seq<uint8>
    var offset: nat

    constructor (buffer: seq<uint8>)
      ensures this.buffer == buffer && offset == 0
    {
      this.buffer := buffer;
      offset := 0;
    }

    /** `parseFields`: decodes the descriptors in list order into a fresh
        record, moving the cursor as `DecodeFields` says. */
    method ParseFields(fields: seq<Field>, matches: Matcher) returns (r: Result<Record>)
      modifies this
      ensures var p := DecodeFields(buffer, old(offset), map[], fields, matches);
              r == p.outcome && offset == p.offset
    {
      var record: Record := map[];
      var i := 0;
      while i < |fields|
        invariant 0 <= i <= |fields|
        invariant DecodeFields(buffer, old(offset), map[], fields, matches)
                  == DecodeFields(buffer, offset, record, fields[i..], matches)
      {
        var field := fields[i];
        assert fields[i..][1..] == fields[i + 1..];
        if FieldConditionalsMet(field.lookBehind, record, matches) {
          var value := ParseField(buffer, offset, field);
          if value.Err? {
            return Err(value.error);
          }
          record := record[field.name := value.value];
          offset := offset + field.length;
        }
        i := i + 1;
      }
      r := Ok(record);
    }
  }
}
