# transaction-log-parser, modelled in Dafny

The repository decodes a binary transaction log with a schema-driven decoder.
A schema is a list of field descriptors. Each descriptor has a name, a type tag,
a byte length, an enum value table, and "look-behind" conditionals. `BaseParser`
keeps a byte buffer and a cursor `offset`:

- `parseField` decodes one scalar at the cursor. The tags are `uint32`/`uint64`
  (big-endian unsigned), `string` (a slice), `float64` (a big-endian double),
  `enum` (a signed byte indexing the table) and anything else (a signed byte).
- `fieldConditionalsMet` is the AND of "pattern matches the named property of
  the record so far".
- `parseFields` walks the descriptors in order. It decodes every field whose
  conditionals are met, stores it under its name, and advances the cursor by
  the field's declared length. Skipped fields consume nothing.

`TransactionLogParser.parse` decodes one header record, then decodes records
while the cursor is before the end of the buffer.

Files:

- `descriptors.dfy` (module `Descriptors`): bytes, descriptors, values, records,
  and the `Result` of a read.
- `node_buffer.dfy` (module `NodeBuffer`): the Node.js `Buffer` reads the decoder
  uses, with big-endian encoding and decoding.
- `base_parser.dfy` (module `BaseParsing`): `ParseField` and `FieldConditionalsMet`
  as functions, the specification `DecodeFields` of `parseFields`, and the class
  `BaseParser`. Its method `ParseFields` updates the cursor in place and is proved
  to equal `DecodeFields`.
- `base_parser_properties.dfy`: field inclusion, cursor advance, and fixed layouts.
- `base_parser_scenarios.dfy`: the cases from the repository's unit tests, stated
  for every buffer of the tested shape, plus the string-slice behaviour.
- `transaction_log_parser.dfy` (module `TransactionLogParsing`): the record pass
  `RecordPass`, the record loop `RecordLoop`, `ParseLog`, and the class
  `TransactionLogParser` whose `Parse` method runs the loop in place.
- `transaction_log_properties.dfy`: decode order, abort on error, and N blocks
  giving N records.

Modelling choices:

- The regular-expression engine is a parameter `matches: (pattern, value) -> bool`.
  A property the record lacks is passed as `Undefined`, as JavaScript's
  `record[property]` is.
- An enum byte outside the table gives `Undefined`. This is stored under the field's
  name and the cursor still advances, as in the source. It is not an error.
- `TransactionLogParser extends BaseParser` becomes composition. The parser holds a
  `BaseParser` named `base`, and `parse` moves `base.offset`.
- A thrown `RangeError` is `Err(OutOfRange)`. The parse then returns `Failed` with
  no records. The cursor keeps the advance of the fields decoded before the throw.
- When a record pass consumes no bytes, the source's loop repeats that same pass
  forever. The model stops and reports `Loops`. The model proves that the
  pass at that cursor succeeds and leaves the cursor where it was (`StuckWithoutProgress`).
- Helpers without a row of their own: `Lookup` is `record[property]`
  (lib/base-parser.js:77), with an absent property read as `Undefined`.
  `RecordPass` is `this.parseFields(schema.record)` (lib/transaction-log-parser.js:19).
  `Cursors` lists the cursors the record loop visits.
- The record loop `RecordLoop` takes the record pass as a function from a cursor
  to the pass's outcome. `RecordPass` is that function for the schema's record
  list: `parseFields` from the cursor into a fresh record. The loop's lemmas hold
  for any pass. A pass that does not move the cursor forward counts as stuck. The
  record pass never moves the cursor back, so for it "not forward" means "no
  bytes consumed", exactly as in the source.

The model follows the code as written, including these behaviours a reader might not expect:

- A `string` field is `buffer.slice(offset, length)`, so its end is the declared
  length as an absolute index, not `offset + length`. `StringAfterOtherFields` and
  `StringPastItsLength` show the consequence.
- An enum index outside the table yields `undefined`, not an error.
- A truncated trailing record does not always fail. A string slice clamps and never
  throws, so a string read past the end still succeeds.
- A conditional on a property the record lacks is tested against `undefined`.
  It is not automatically false.

## Model

| member | source | states |
|---|---|---|
| NodeBuffer.BigEndian | lib/base-parser.js:55 | the big-endian value of k bytes is below 256^k |
| NodeBuffer.EncodeBigEndian | test/base-parser.test.js:19 | writing a number big-endian into `len` bytes gives exactly `len` bytes |
| NodeBuffer.DecodeEncode | test/base-parser.test.js:15-24 | a number below 256^len written into `len` bytes reads back as itself |
| NodeBuffer.EncodeDecode | lib/base-parser.js:55 | bytes read as a number and written back give the same bytes |
| NodeBuffer.ReadUIntBE | lib/base-parser.js:55 | the read succeeds exactly when `offset + length` is within the buffer, and the value is below 256^length |
| NodeBuffer.ReadUIntBEBytes | lib/base-parser.js:55 | the number read, written back big-endian into `length` bytes, is exactly the bytes read |
| NodeBuffer.Signed | lib/base-parser.js:63 | a byte read as signed lies in [-128, 128) and is congruent to the byte mod 256 |
| NodeBuffer.ReadInt8 | lib/base-parser.js:61-63 | the read succeeds exactly when the cursor is inside the buffer; the value is the byte's two's-complement reading |
| NodeBuffer.ReadDoubleBE | lib/base-parser.js:59 | the read succeeds exactly when 8 bytes fit after the cursor, and yields those 8 bytes |
| NodeBuffer.Slice | lib/base-parser.js:57 | a slice clamps both bounds to the buffer and is empty when the end is at or before the start; it never fails |
| BaseParsing.ParseField | lib/base-parser.js:51-65 | a field read fails exactly when the bytes it reads are not all inside the buffer: `length` bytes for uint32/uint64, 8 bytes for float64 whatever the declared length, one byte for enum and any other tag, none for a string |
| BaseParserProperties.ParseFieldValue | lib/base-parser.js:51-65 | per type tag: uint gives the number whose big-endian bytes are the bytes read; string gives the clamped slice ending at the absolute index `length`; float64 gives the 8 bytes at the cursor; enum gives the table entry at the signed byte, or undefined outside the table; any other tag gives the signed byte |
| BaseParsing.ReduceConditionals | lib/base-parser.js:75-79 | the `reduce` fold from an accumulator is the accumulator AND every conditional's pattern matching its property |
| BaseParsing.FieldConditionalsMet | lib/base-parser.js:74-80 | true exactly when every conditional matches (AND, not OR); an empty list is met |
| BaseParsing.ReduceField | lib/base-parser.js:37-43 | one field of the `reduce` fails exactly when its conditionals are met and its read is out of range; on success the cursor stays or moves by exactly the declared length, and on failure it stays |
| BaseParsing.DecodeFields | lib/base-parser.js:36-44 | the cursor never moves back and moves at most the sum of declared lengths |
| BaseParserProperties.DecodeFieldsRecord | lib/base-parser.js:36-44 | a successful pass keeps the record's keys, adds only names from the list, and leaves the value of every key outside the list unchanged |
| BaseParsing.BaseParser.constructor | lib/base-parser.js:2-5 | a new parser holds the buffer with the cursor at 0 |
| BaseParsing.BaseParser.ParseFields | lib/base-parser.js:36-44 | the in-place loop returns the record or error of `DecodeFields` from the old cursor and leaves the cursor where `DecodeFields` ends |
| BaseParserProperties.DecodeFieldsAppend | lib/base-parser.js:37-43 | decoding two descriptor lists back to back is decoding the first, then the second from the cursor and record it left; an error stops at once |
| BaseParserProperties.FieldStep | lib/base-parser.js:38-41 | a field whose conditionals are met against the record so far is decoded at the cursor, stored under its name, and moves the cursor by exactly its declared length; otherwise nothing changes and no byte is consumed |
| BaseParserProperties.FieldPresence | lib/base-parser.js:37-43 | a uniquely named field is in the decoded record if and only if its conditionals were met by the fields before it, and then holds the value decoded at the cursor they left |
| BaseParserProperties.FixedLayoutPass | lib/base-parser.js:36-44 | a list with no conditionals whose reads fit their lengths decodes without error when it lies inside the buffer, includes every field, and moves the cursor by the sum of declared lengths |
| BaseParserProperties.FixedLayoutPositions | lib/base-parser.js:36-44 | in such a list each field holds the value decoded at the start plus the declared lengths of the fields before it |
| BaseParserScenarios.UIntPastEndThrows | test/base-parser.test.js:5-13 | a 4-byte unsigned read from a 2-byte buffer is an out-of-range error |
| BaseParserScenarios.MostSignificantFirst | lib/base-parser.js:55 | the bytes 01 00 read as a 2-byte unsigned field give 256: the first byte is the most significant |
| BaseParserScenarios.UInt32Max | test/base-parser.test.js:15-24 | the bytes FF FF FF FF decode to 4294967295 |
| BaseParserScenarios.UInt64RoundTrip | test/base-parser.test.js:26-35 | any number below 2^64 written as 8 bytes decodes as an 8-byte unsigned field to itself |
| BaseParserScenarios.StringWholeBuffer | test/base-parser.test.js:37-45 | an 8-byte string field over an 8-byte buffer is the whole buffer |
| BaseParserScenarios.StringAtStart | lib/base-parser.js:57 | at cursor 0 a string field is the first `length` bytes, or the whole shorter buffer |
| BaseParserScenarios.DoubleWholeBuffer | test/base-parser.test.js:47-56 | a double over an 8-byte buffer is those 8 bytes |
| BaseParserScenarios.EnumThird | test/base-parser.test.js:58-67 | byte 2 with table First, Second, Third gives "Third" |
| BaseParserScenarios.EnumOutsideTable | lib/base-parser.js:61 | a negative signed index or one at least the table size gives undefined |
| BaseParserScenarios.SignedByteDefault | test/base-parser.test.js:69-78 | with no type, byte 2 gives 2 and byte 0xFF gives -1 |
| BaseParserScenarios.SuccessionOfFields | test/base-parser.test.js:82-104 | string 8, uint32 4, float64 declared 16 over 28 bytes: the three values at 0, 8 and 12, and the cursor ends at 28 |
| BaseParserScenarios.ConditionalMet | test/base-parser.test.js:106-134 | when `^Skala` matches the first field, the second is decoded after it and the cursor ends at 12 |
| BaseParserScenarios.ConditionalNotMet | test/base-parser.test.js:136-165 | when `^not-found$` does not match, the second key is absent and the cursor stays at 8 |
| BaseParserScenarios.StringAfterOtherFields | lib/base-parser.js:57 | a string declared 8 bytes after a 4-byte field holds only bytes 4 to 8, while the cursor still moves 8 |
| BaseParserScenarios.StringPastItsLength | lib/base-parser.js:57 | a string starting at or past its declared length is empty |
| TransactionLogParsing.RecordLoop | lib/transaction-log-parser.js:18-20 | unless a pass throws, the loop never moves the cursor back; when it finishes the cursor is at or past the end, and it decoded at least one record if it started before the end; it is stuck only before the end |
| TransactionLogParsing.ParseLog | lib/transaction-log-parser.js:12-23 | a parsed result's header is the header list decoded once at the starting cursor, and the cursor ends at or past the end of the buffer |
| TransactionLogParsing.TransactionLogParser.constructor | lib/base-parser.js:2-5 | a new transaction-log parser has a fresh base parser over the buffer with the cursor at 0 |
| TransactionLogParsing.TransactionLogParser.Parse | lib/transaction-log-parser.js:12-23 | the in-place header decode and record loop return the outcome of `ParseLog` from the old cursor and leave the cursor where it ends |
| TransactionLogParsing.ParseBuffer | parse.js:16 | parsing with a fresh parser is `ParseLog` from cursor 0 |
| TransactionLogProperties.StuckWithoutProgress | lib/transaction-log-parser.js:18-20 | the loop is stuck only at a cursor before the end where a pass succeeds and consumes no byte, so the source would repeat that pass forever |
| TransactionLogProperties.LoopStep | lib/transaction-log-parser.js:18-20 | for any pass, one that starts before the end and moves the cursor forward puts its record ahead of the records the loop decodes from where it stopped |
| TransactionLogProperties.ConsumedPasses | lib/transaction-log-parser.js:18-20 | passes that start before the end and consume bytes yield their records in decode order, ahead of whatever the loop does from where they stopped |
| TransactionLogProperties.FinishedChain | lib/transaction-log-parser.js:18-20 | for any pass, the records of a finished loop are exactly the records of the passes at the cursors it visits, in order; each of those passes starts before the end and moves the cursor to the next visited cursor, and the last cursor is where the loop ends |
| TransactionLogProperties.ExactBlocks | lib/transaction-log-parser.js:18-20 | N blocks each consumed exactly by one pass yield exactly those N records in order, with the cursor at the buffer's end |
| TransactionLogProperties.ExactBlocksLog | lib/transaction-log-parser.js:12-23 | for any schema, a header pass that ends where N record blocks begin, each consumed exactly by one pass and together reaching the end, makes `parse` return that header and exactly those N records in order, with the cursor at the buffer's end |
| TransactionLogProperties.ParsedRecords | lib/transaction-log-parser.js:12-23 | conversely, whenever `parse` returns a result, its records are those decoded by the record passes at the cursors visited from the end of the header; each pass starts before the end and consumes bytes, and the last cursor is where `parse` leaves the cursor |
| TransactionLogProperties.FailureAborts | lib/transaction-log-parser.js:15-22 | an error in any record pass makes the whole parse fail with that error, with no partial records |
| TransactionLogProperties.HeaderFillsBuffer | lib/transaction-log-parser.js:15-19 | a header that reaches the end of the buffer leaves the records empty |
| TransactionLogProperties.UniformBlocks | lib/transaction-log-parser.js:18-20 | for any pass that, wherever `len > 0` bytes fit, succeeds and moves the cursor by exactly `len`: n blocks of `len` bytes give n records and end at the buffer's end |
| TransactionLogProperties.FixedLayoutRecords | lib/transaction-log-parser.js:18-20 | a fixed record layout of positive length over exactly n blocks gives n records and ends at the buffer's end |
| TransactionLogProperties.FixedLayoutLog | lib/transaction-log-parser.js:12-23 | a fresh parser over a fixed header and n fixed record blocks returns exactly n records with the cursor at the buffer's end |

## Left out

- parse.js: reading the file, command-line options, console output, JSON output, and the report are left out. The report sums floating-point amounts.
- ParseField: a `float64` is kept as its 8 raw bytes. IEEE 754 decoding is not modelled; only the 8-byte bounds check is.
- ParseField: unsigned values are exact naturals. JavaScript numbers lose precision above 2^53, and this is not modelled.
- ParseField: newer Node versions reject `readUIntBE` lengths outside 1 to 6. The model follows the older Buffer that the repository's tests assume. Under it, any positive length whose bytes fit is read.
- NodeBuffer.ReadUIntBE: a zero-length read gives 0. Node's older Buffer returns the byte before the cursor instead, which is undefined at cursor 0, and newer Node throws.
- ParseField: string values stay raw bytes. `toString` UTF-8 decoding is not modelled.
- FieldConditionalsMet: the regular-expression engine, including how it turns a value into a string, is the `matches` parameter.
- FieldConditionalsMet: a pattern that `RegExp` rejects throws a SyntaxError in the source, once the conditionals before it have passed. That error aborts `parseFields` and `parse`. The model's matcher never fails, so `Error` has only `OutOfRange`.
- BaseParsing.BaseParser.ParseFields: a record is a map, so the insertion order of keys is not modelled. That order only shows when a record is written as JSON.
- Descriptors are well formed by type: every field has a non-negative integer `length`, and an enum always has a table. In the source, a missing `length` turns the cursor into NaN, a fractional one makes it fractional, and a negative one moves it backwards so that later reads repeat bytes. A missing table throws a TypeError.
- Properties that a plain JavaScript object inherits, such as `toString`, are not modelled. A name the record lacks reads as undefined.
- The Buffer truncates offsets to 32 bits. The model's cursor is unbounded.
- schemas/transaction-log.json is not part of this model. The header and record descriptor lists are parameters.
- test/transaction-log-parser.test.js is not modelled. It needs an external data file and compares floating-point values.
- TransactionLogParsing.TransactionLogParser.Parse: when a record pass consumes nothing, the source loops forever. The model returns `Loops` instead.
