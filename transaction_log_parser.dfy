/** The stream decoder: one header record, then records of the record
    schema until the cursor reaches the end of the buffer. */
module TransactionLogParsing {
  import opened Descriptors
  import opened BaseParsing

  /** The schema's two descriptor lists. */
  datatype Schema = Schema(header: seq<Field>, record: seq<Field>)

  /** `{ header, records }`. */
  datatype ParseResult = ParseResult(header: Record, records: seq<Record>)

  /** How `parse` ends: with its result; with the error a field read threw
      (no partial result); or never, because a record pass consumed no bytes
      and the loop repeats that same pass forever. */
  datatype Outcome = Parsed(result: ParseResult) | Failed(error: Error) | Loops

  /** How the record loop ends, and where it leaves the cursor. */
  datatype LoopStatus = Finished(records: seq<Record>) | Aborted(error: Error) | Stuck
  datatype Loop = Loop(status: LoopStatus, offset: nat)

  /** The pass the record loop repeats: `parseFields(schema.record)` from
      cursor `k` into a fresh record. */
  function RecordPass(buf: seq<uint8>, fields: seq<Field>, matches: Matcher): (pass: nat -> Pass)
  {
    (k: nat) => DecodeFields(buf, k, map[], fields, matches)
  }

  /** The loop `while (offset < buffer.length) records.push(parseFields(record))`
      run from cursor `offset` over a buffer of `size` bytes, where `pass(k)`
      is the record pass from cursor `k`. A pass that does not move the cursor
      forward leaves the loop stuck (the record pass never moves it back). */
  function RecordLoop(size: nat, offset: nat, pass: nat -> Pass): (l: Loop)
    ensures !l.status.Aborted? ==> offset <= l.offset
    ensures l.status.Finished? ==> size <= l.offset
    ensures l.status.Finished? && offset < size ==> |l.status.records| > 0
    ensures l.status.Stuck? ==> l.offset < size
    decreases size - offset
  {
    if offset >= size then Loop(Finished([]), offset)
    else
      var p := pass(offset);
      if p.outcome.Err? then Loop(Aborted(p.outcome.error), p.offset)
      else if p.offset <= offset then Loop(Stuck, offset)
      else
        var rest := RecordLoop(size, p.offset, pass);
        if rest.status.Finished? then Loop(Finished([p.outcome.value] + rest.status.records), rest.offset)
        else rest
  }

  /** `records` decoded before a loop that ends as `l`. */
  function Prefixed(records: seq<Record>, l: Loop): (r: Loop)
  {
    if l.status.Finished? then Loop(Finished(records + l.status.records), l.offset) else l
  }

  lemma PrefixedTwice(front: seq<Record>, back: seq<Record>, l: Loop)
    ensures Prefixed(front, Prefixed(back, l)) == Prefixed(front + back, l)
  {
    if l.status.Finished? {
      assert front + (back + l.status.records) == (front + back) + l.status.records;
    }
  }

  /** What `parse` does from cursor `offset`, and where it leaves the cursor. */
  datatype Run = Run(outcome: Outcome, offset: nat)

  /** `parse`: the header decoded once at the cursor, then the record loop. */
  function ParseLog(buf: seq<uint8>, offset: nat, schema: Schema, matches: Matcher): (r: Run)
    ensures r.outcome.Parsed? ==>
              DecodeFields(buf, offset, map[], schema.header, matches).outcome == Ok(r.outcome.result.header)
    ensures r.outcome.Parsed? ==> |buf| <= r.offset
    ensures r.outcome.Loops? ==> r.offset < |buf|
  {
    var h := DecodeFields(buf, offset, map[], schema.header, matches);
    if h.outcome.Err? then Run(Failed(h.outcome.error), h.offset)
    else
      var l := RecordLoop(|buf|, h.offset, RecordPass(buf, schema.record, matches));
      match l.status
      case Finished(records) => Run(Parsed(ParseResult(h.outcome.value, records)), l.offset)
      case Aborted(e) => Run(Failed(e), l.offset)
      case Stuck => Run(Loops, l.offset)
  }

  /** `TransactionLogParser extends BaseParser`: the inherited state is the
      parser object `base`. */
  class TransactionLogParser {
    const base: BaseParser

    constructor (buffer: seq<uint8>)
      ensures fresh(base) && base.buffer == buffer && base.offset == 0
    {
      base := new BaseParser(buffer);
    }

    /** `parse`: decodes the header, then records while the cursor is
        before the end of the buffer, appending them in decode order. Where
        the source would repeat a pass that consumed nothing forever, this
        returns `Loops`. */
    method Parse(schema: Schema, matches: Matcher) returns (r: Outcome)
      modifies base
      ensures var run := ParseLog(base.buffer, old(base.offset), schema, matches);
              r == run.outcome && base.offset == run.offset
    {
      var header := base.ParseFields(schema.header, matches);
      if header.Err? {
        return Failed(header.error);
      }
      var records: seq<Record> := [];
      ghost var start := base.offset;
      ghost var pass := RecordPass(base.buffer, schema.record, matches);
      while base.offset < |base.buffer|
        invariant start <= base.offset
        invariant RecordLoop(|base.buffer|, start, pass)
                  == Prefixed(records, RecordLoop(|base.buffer|, base.offset, pass))
        decreases |base.buffer| - base.offset
      {
        var before := base.offset;
        var record := base.ParseFields(schema.record, matches);
        if record.Err? {
          return Failed(record.error);
        }
        if base.offset == before {
          // the next pass would start from the same cursor and repeat this one
          return Loops;
        }
        assert pass(before) == Pass(record, base.offset);
        PrefixedTwice(records, [record.value], RecordLoop(|base.buffer|, base.offset, pass));
        records := records + [record.value];
      }
      return Parsed(ParseResult(header.value, records));
    }
  }

  /** `new TransactionLogParser(data).parse()`: a fresh parser decodes the
      header from the first byte. */
  method ParseBuffer(buffer: seq<uint8>, schema: Schema, matches: Matcher) returns (r: Outcome)
    ensures r == ParseLog(buffer, 0, schema, matches).outcome
  {
    var parser := new TransactionLogParser(buffer);
    r := parser.Parse(schema, matches);
  }
}
