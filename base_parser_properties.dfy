/** Properties of the record decoder `DecodeFields`: how one descriptor list
    decodes as its parts, when a field's key is present, how far the cursor
    moves, and what a fixed layout (no conditionals) decodes to. */
module BaseParserProperties {
  import opened Descriptors
  import opened NodeBuffer
  import opened BaseParsing

  lemma {:induction false} TotalLengthAppend(front: seq<Field>, back: seq<Field>)
    ensures TotalLength(front + back) == TotalLength(front) + TotalLength(back)
  {
    if front != [] {
      assert (front + back)[1..] == front[1..] + back;
      TotalLengthAppend(front[1..], back);
    } else {
      assert front + back == back;
    }
  }

  lemma {:induction false} NamesOf(fields: seq<Field>, name: string)
    ensures name in Names(fields) <==> exists j :: 0 <= j < |fields| && fields[j].name == name
    decreases fields
  {
    if fields != [] {
      NamesOf(fields[1..], name);
      if name in Names(fields[1..]) {
        var j :| 0 <= j < |fields[1..]| && fields[1..][j].name == name;
        assert fields[j + 1].name == name;
      }
      if exists j :: 0 <= j < |fields| && fields[j].name == name {
        var j :| 0 <= j < |fields| && fields[j].name == name;
        if j > 0 {
          assert fields[1..][j - 1].name == name;
        }
      }
    }
  }

  /** A pass keeps every key of the record it started from, adds only names
      of its descriptors, and leaves the value of any key outside its list
      unchanged. */
  lemma {:induction false} DecodeFieldsRecord(buf: seq<uint8>, offset: nat, record: Record, fields: seq<Field>, matches: Matcher)
    ensures var p := DecodeFields(buf, offset, record, fields, matches);
            p.outcome.Ok? ==>
              record.Keys <= p.outcome.value.Keys <= record.Keys + Names(fields) &&
              forall k :: k in record && k !in Names(fields) ==> p.outcome.value[k] == record[k]
    decreases fields
  {
    if fields != [] {
      var q := ReduceField(buf, offset, record, fields[0], matches);
      if q.outcome.Ok? {
        assert record.Keys <= q.outcome.value.Keys <= record.Keys + {fields[0].name};
        assert forall k :: k in record && k != fields[0].name ==> q.outcome.value[k] == record[k];
        DecodeFieldsRecord(buf, q.offset, q.outcome.value, fields[1..], matches);
      }
    }
  }

  /** What `parseField` returns for each type tag: the big-endian value of
      the declared number of bytes; the clamped slice ending at the absolute
      index `length`; 8 bytes for a double whatever the declared length; the
      table entry at the signed byte, or undefined outside the table; and
      otherwise the signed byte. */
  lemma ParseFieldValue(buf: seq<uint8>, offset: nat, field: Field)
    requires ParseField(buf, offset, field).Ok?
    ensures var v := ParseField(buf, offset, field).value;
            match field.ftype
            case UInt32 | UInt64 =>
              v.UInt? && v.n < Pow256(field.length) &&
              EncodeBigEndian(v.n, field.length) == buf[offset..offset + field.length]
            case Text =>
              v.Str? && v.bytes == Slice(buf, offset, field.length)
            case Float64 =>
              v.Double? && v.bits == buf[offset..offset + 8]
            case Enum(values) =>
              var i := Signed(buf[offset]);
              v == if 0 <= i < |values| then EnumName(values[i]) else Undefined
            case Other =>
              v.Int8? && -128 <= v.i < 128 && v.i % 256 == buf[offset] as int
  {
    if field.ftype.UInt32? || field.ftype.UInt64? {
      ReadUIntBEBytes(buf, offset, field.length);
    }
  }

  /** Decoding a concatenation of descriptor lists decodes the first list,
      then the second one from the cursor and record the first left; an
      error in the first list stops everything. */
  lemma {:induction false} DecodeFieldsAppend(buf: seq<uint8>, offset: nat, record: Record,
                                              front: seq<Field>, back: seq<Field>, matches: Matcher)
    ensures DecodeFields(buf, offset, record, front + back, matches)
            == var p := DecodeFields(buf, offset, record, front, matches);
               if p.outcome.Err? then p else DecodeFields(buf, p.offset, p.outcome.value, back, matches)
    decreases front
  {
    if front == [] {
      assert front + back == back;
    } else {
      assert (front + back)[0] == front[0];
      assert (front + back)[1..] == front[1..] + back;
      var q := ReduceField(buf, offset, record, front[0], matches);
      if q.outcome.Ok? {
        DecodeFieldsAppend(buf, q.offset, q.outcome.value, front[1..], back, matches);
      }
    }
  }

  /** Field `i` is looked at with the cursor and record that the fields
      before it left. When its conditionals are met it is decoded there,
      stored under its name, and the cursor moves by exactly its declared
      length (or the read's error ends the pass with the cursor unmoved);
      when they are not met, neither the record nor the cursor changes. */
  lemma FieldStep(buf: seq<uint8>, offset: nat, record: Record, fields: seq<Field>, i: nat, matches: Matcher)
    requires i < |fields|
    requires DecodeFields(buf, offset, record, fields[..i], matches).outcome.Ok?
    ensures var before := DecodeFields(buf, offset, record, fields[..i], matches);
            var after := DecodeFields(buf, offset, record, fields[..i + 1], matches);
            var field := fields[i];
            if FieldConditionalsMet(field.lookBehind, before.outcome.value, matches) then
              (match ParseField(buf, before.offset, field)
               case Ok(v) => after == Pass(Ok(before.outcome.value[field.name := v]), before.offset + field.length)
               case Err(e) => after == Pass(Err(e), before.offset))
            else
              after == before
  {
    assert fields[..i + 1] == fields[..i] + [fields[i]];
    DecodeFieldsAppend(buf, offset, record, fields[..i], [fields[i]], matches);
  }

  /** A field whose name no other field of the list has is present in the
      decoded record exactly when its conditionals are met by the record
      the fields before it built, and then holds the value decoded at the
      cursor those fields left. */
  lemma FieldPresence(buf: seq<uint8>, offset: nat, record: Record, fields: seq<Field>, i: nat, matches: Matcher)
    requires i < |fields|
    requires fields[i].name !in record
    requires forall j :: 0 <= j < |fields| && j != i ==> fields[j].name != fields[i].name
    requires DecodeFields(buf, offset, record, fields, matches).outcome.Ok?
    ensures var before := DecodeFields(buf, offset, record, fields[..i], matches);
            var decoded := DecodeFields(buf, offset, record, fields, matches).outcome.value;
            before.outcome.Ok? &&
            (fields[i].name in decoded <==> FieldConditionalsMet(fields[i].lookBehind, before.outcome.value, matches)) &&
            (fields[i].name in decoded ==> ParseField(buf, before.offset, fields[i]) == Ok(decoded[fields[i].name]))
  {
    var name := fields[i].name;
    var front, rest := fields[..i], fields[i + 1..];
    assert fields == fields[..i + 1] + rest;
    assert fields[..i + 1] == front + [fields[i]];
    DecodeFieldsAppend(buf, offset, record, fields[..i + 1], rest, matches);
    DecodeFieldsAppend(buf, offset, record, front, [fields[i]], matches);
    var before := DecodeFields(buf, offset, record, front, matches);
    var after := DecodeFields(buf, offset, record, fields[..i + 1], matches);
    assert before.outcome.Ok? && after.outcome.Ok?;
    assert name !in Names(front) by {
      NamesOf(front, name);
      forall j | 0 <= j < |front| ensures front[j].name != name {
        assert front[j] == fields[j];
      }
    }
    assert name !in Names(rest) by {
      NamesOf(rest, name);
      forall j | 0 <= j < |rest| ensures rest[j].name != name {
        assert rest[j] == fields[i + 1 + j];
      }
    }
    DecodeFieldsRecord(buf, offset, record, front, matches);
    DecodeFieldsRecord(buf, after.offset, after.outcome.value, rest, matches);
    FieldStep(buf, offset, record, fields, i, matches);
  }

  /** A field whose read never reaches past its declared length: a double
      reads 8 bytes, an enum or a signed byte reads 1. */
  predicate FitsLength(field: Field)
  {
    match field.ftype
    case UInt32 | UInt64 | Text => true
    case Float64 => field.length >= 8
    case Enum(_) | Other => field.length >= 1
  }

  /** A fixed layout: no field has conditionals, and each read fits. */
  predicate FixedLayout(fields: seq<Field>)
  {
    forall i :: 0 <= i < |fields| ==> fields[i].lookBehind == [] && FitsLength(fields[i])
  }

  /** A fixed layout that lies inside the buffer decodes without error,
      includes every field, and moves the cursor by the sum of the declared
      lengths. */
  lemma {:induction false} FixedLayoutPass(buf: seq<uint8>, offset: nat, record: Record, fields: seq<Field>, matches: Matcher)
    requires FixedLayout(fields)
    requires offset + TotalLength(fields) <= |buf|
    ensures var p := DecodeFields(buf, offset, record, fields, matches);
            p.outcome.Ok? && p.offset == offset + TotalLength(fields) &&
            p.outcome.value.Keys == record.Keys + Names(fields)
    decreases fields
  {
    if fields != [] {
      var field := fields[0];
      assert field.lookBehind == [] && FitsLength(field);
      assert FixedLayout(fields[1..]) by {
        forall i | 0 <= i < |fields[1..]| ensures fields[1..][i].lookBehind == [] && FitsLength(fields[1..][i]) {
          assert fields[1..][i] == fields[i + 1];
        }
      }
      assert FieldConditionalsMet(field.lookBehind, record, matches) && InBounds(buf, offset, field);
      var q := ReduceField(buf, offset, record, field, matches);
      assert q.outcome.Ok? && q.offset == offset + field.length && q.outcome.value.Keys == record.Keys + {field.name};
      FixedLayoutPass(buf, q.offset, q.outcome.value, fields[1..], matches);
    }
  }

  /** In a fixed layout with distinct names, every field is present and
      holds the value decoded at the start offset plus the declared lengths
      of the fields before it. */
  lemma FixedLayoutPositions(buf: seq<uint8>, offset: nat, fields: seq<Field>, i: nat, matches: Matcher)
    requires FixedLayout(fields)
    requires offset + TotalLength(fields) <= |buf|
    requires i < |fields|
    requires forall j :: 0 <= j < |fields| && j != i ==> fields[j].name != fields[i].name
    ensures var decoded := DecodeFields(buf, offset, map[], fields, matches).outcome;
            decoded.Ok? && fields[i].name in decoded.value &&
            ParseField(buf, offset + TotalLength(fields[..i]), fields[i]) == Ok(decoded.value[fields[i].name])
  {
    FixedLayoutPass(buf, offset, map[], fields, matches);
    assert fields == fields[..i] + fields[i..];
    TotalLengthAppend(fields[..i], fields[i..]);
    assert FixedLayout(fields[..i]) by {
      forall j | 0 <= j < i ensures fields[..i][j].lookBehind == [] && FitsLength(fields[..i][j]) {
        assert fields[..i][j] == fields[j];
      }
    }
    FixedLayoutPass(buf, offset, map[], fields[..i], matches);
    FieldPresence(buf, offset, map[], fields, i, matches);
  }
}
