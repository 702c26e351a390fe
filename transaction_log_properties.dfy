/** Properties of the stream decoder: records come out in decode order, an
    error in any pass aborts the whole parse, and a buffer made of a header
    and whole record blocks decodes to exactly one record per block. */
module TransactionLogProperties {
  import opened Descriptors
  import opened BaseParsing
  import opened BaseParserProperties
  import opened TransactionLogParsing

  /** One iteration of the loop: a pass that starts before the end of the
      buffer and moves the cursor forward contributes its record ahead of
      the rest. */
  lemma LoopStep(size: nat, offset: nat, pass: nat -> Pass)
    requires offset < size && pass(offset).outcome.Ok? && offset < pass(offset).offset
    ensures RecordLoop(size, offset, pass)
            == Prefixed([pass(offset).outcome.value], RecordLoop(size, pass(offset).offset, pass))
  {
  }

  /** The loop gets stuck only at a cursor before the end of the buffer
      where a pass succeeds without moving the cursor forward. */
  lemma {:induction false} StuckAt(size: nat, offset: nat, pass: nat -> Pass)
    ensures var l := RecordLoop(size, offset, pass);
            l.status.Stuck? ==>
              l.offset < size && pass(l.offset).outcome.Ok? && pass(l.offset).offset <= l.offset
    decreases size - offset
  {
    if offset < size && pass(offset).outcome.Ok? && offset < pass(offset).offset {
      StuckAt(size, pass(offset).offset, pass);
    }
  }

  /** The parse's record loop gets stuck only at a cursor before the end of
      the buffer where a record pass succeeds without consuming a byte, so
      the source would repeat that pass forever. */
  lemma StuckWithoutProgress(buf: seq<uint8>, offset: nat, fields: seq<Field>, matches: Matcher)
    ensures var l := RecordLoop(|buf|, offset, RecordPass(buf, fields, matches));
            l.status.Stuck? ==>
              l.offset < |buf| &&
              DecodeFields(buf, l.offset, map[], fields, matches).outcome.Ok? &&
              DecodeFields(buf, l.offset, map[], fields, matches).offset == l.offset
  {
    var pass := RecordPass(buf, fields, matches);
    StuckAt(|buf|, offset, pass);
    var l := RecordLoop(|buf|, offset, pass);
    assert pass(l.offset) == DecodeFields(buf, l.offset, map[], fields, matches);
  }

  /** The cursors the loop visits from `offset`: each pass that succeeds
      and moves the cursor forward from before the end leads to the next. */
  function Cursors(size: nat, offset: nat, pass: nat -> Pass): (cursors: seq<nat>)
    ensures |cursors| > 0 && cursors[0] == offset
    decreases size - offset
  {
    if offset < size && pass(offset).outcome.Ok? && offset < pass(offset).offset then
      [offset] + Cursors(size, pass(offset).offset, pass)
    else
      [offset]
  }

  /** Pass `j` starts before the end of the buffer, moves the cursor
      forward, and decodes record `j`, leaving the cursor at the next start. */
  predicate PassConsumes(size: nat, offsets: seq<nat>, records: seq<Record>, pass: nat -> Pass, j: nat)
    requires |offsets| == |records| + 1 && j < |records|
  {
    offsets[j] < size && offsets[j] < offsets[j + 1] && pass(offsets[j]) == Pass(Ok(records[j]), offsets[j + 1])
  }

  /** The loop from the `i`-th of a chain of passes that each move the
      cursor forward yields their records from the `i`-th on, ahead of
      whatever the loop does after the last one. */
  lemma {:induction false} ConsumedPassesFrom(size: nat, offsets: seq<nat>, records: seq<Record>,
                                              pass: nat -> Pass, i: nat)
    requires |offsets| == |records| + 1 && i <= |records|
    requires forall j :: 0 <= j < |records| ==> PassConsumes(size, offsets, records, pass, j)
    ensures RecordLoop(size, offsets[i], pass)
            == Prefixed(records[i..], RecordLoop(size, offsets[|records|], pass))
    decreases |records| - i
  {
    var last := RecordLoop(size, offsets[|records|], pass);
    if i == |records| {
      assert Prefixed(records[i..], last) == last by {
        assert records[i..] == [];
        if last.status.Finished? {
          assert [] + last.status.records == last.status.records;
        }
      }
    } else {
      var record := records[i];
      assert PassConsumes(size, offsets, records, pass, i);
      ConsumedPassesFrom(size, offsets, records, pass, i + 1);
      LoopStep(size, offsets[i], pass);
      PrefixedTwice([record], records[i + 1..], last);
      assert [record] + records[i + 1..] == records[i..] by {
        assert records[i..] == [records[i]] + records[i + 1..];
      }
    }
  }

  /** Conversely, the records of a finished loop are exactly the records of
      the passes at the cursors it visits, in order: each pass starts before
      the end, moves the cursor forward to the next cursor, and the last
      cursor is where the loop ends. */
  lemma {:induction false} FinishedChain(size: nat, offset: nat, pass: nat -> Pass)
    requires RecordLoop(size, offset, pass).status.Finished?
    ensures var l := RecordLoop(size, offset, pass);
            var cursors := Cursors(size, offset, pass);
            |cursors| == |l.status.records| + 1 && cursors[|l.status.records|] == l.offset &&
            forall j :: 0 <= j < |l.status.records| ==> PassConsumes(size, cursors, l.status.records, pass, j)
    decreases size - offset
  {
    if offset < size {
      var p := pass(offset);
      var l, rest := RecordLoop(size, offset, pass), RecordLoop(size, p.offset, pass);
      var cursors, tail := Cursors(size, offset, pass), Cursors(size, p.offset, pass);
      FinishedChain(size, p.offset, pass);
      assert cursors == [offset] + tail;
      assert l.status.records == [p.outcome.value] + rest.status.records;
      forall j | 0 <= j < |l.status.records| ensures PassConsumes(size, cursors, l.status.records, pass, j) {
        if j > 0 {
          assert PassConsumes(size, tail, rest.status.records, pass, j - 1);
        }
      }
    }
  }

  /** Record passes that each start before the end of the buffer and each
      consume bytes: running the loop from the first start yields their
      records, in order, ahead of whatever the loop does from where the last
      one ended. */
  lemma ConsumedPasses(buf: seq<uint8>, offsets: seq<nat>, records: seq<Record>,
                       fields: seq<Field>, matches: Matcher)
    requires |offsets| == |records| + 1
    requires forall i :: 0 <= i < |records| ==>
               offsets[i] < |buf| && offsets[i] < offsets[i + 1] &&
               DecodeFields(buf, offsets[i], map[], fields, matches) == Pass(Ok(records[i]), offsets[i + 1])
    ensures var pass := RecordPass(buf, fields, matches);
            RecordLoop(|buf|, offsets[0], pass) == Prefixed(records, RecordLoop(|buf|, offsets[|records|], pass))
  {
    var pass := RecordPass(buf, fields, matches);
    forall j | 0 <= j < |records| ensures PassConsumes(|buf|, offsets, records, pass, j) {
      assert pass(offsets[j]) == DecodeFields(buf, offsets[j], map[], fields, matches);
    }
    ConsumedPassesFrom(|buf|, offsets, records, pass, 0);
    assert records[0..] == records;
  }

  /** A buffer whose tail after cursor `offsets[0]` is exactly N record
      blocks, each consumed by one pass, yields exactly those N records in
      order and leaves the cursor at the buffer's end. */
  lemma ExactBlocks(buf: seq<uint8>, offsets: seq<nat>, records: seq<Record>, fields: seq<Field>, matches: Matcher)
    requires |offsets| == |records| + 1
    requires offsets[|records|] == |buf|
    requires forall i :: 0 <= i < |records| ==>
               offsets[i] < offsets[i + 1] &&
               DecodeFields(buf, offsets[i], map[], fields, matches) == Pass(Ok(records[i]), offsets[i + 1])
    ensures RecordLoop(|buf|, offsets[0], RecordPass(buf, fields, matches)) == Loop(Finished(records), |buf|)
  {
    forall i | 0 <= i < |records| ensures offsets[i] < |buf| {
      OffsetsIncrease(offsets, i, |records|);
    }
    ConsumedPasses(buf, offsets, records, fields, matches);
    assert records + [] == records;
  }

  /** For any schema: a header pass that ends where N record blocks begin,
      each consumed exactly by one pass and together reaching the end of the
      buffer, makes `parse` return that header and exactly those N records,
      in order, with the cursor at the buffer's end. */
  lemma ExactBlocksLog(buf: seq<uint8>, start: nat, schema: Schema, header: Record,
                       offsets: seq<nat>, records: seq<Record>, matches: Matcher)
    requires |offsets| == |records| + 1
    requires DecodeFields(buf, start, map[], schema.header, matches) == Pass(Ok(header), offsets[0])
    requires offsets[|records|] == |buf|
    requires forall i :: 0 <= i < |records| ==>
               offsets[i] < offsets[i + 1] &&
               DecodeFields(buf, offsets[i], map[], schema.record, matches) == Pass(Ok(records[i]), offsets[i + 1])
    ensures ParseLog(buf, start, schema, matches) == Run(Parsed(ParseResult(header, records)), |buf|)
  {
    ExactBlocks(buf, offsets, records, schema.record, matches);
  }

  /** The converse of `ExactBlocksLog`: when `parse` returns a result, its
      records are the records of the passes at the cursors the loop visits
      from the end of the header, each consuming bytes from before the end
      of the buffer, and the last cursor is where `parse` leaves it. */
  lemma ParsedRecords(buf: seq<uint8>, start: nat, schema: Schema, matches: Matcher)
    requires ParseLog(buf, start, schema, matches).outcome.Parsed?
    ensures var run := ParseLog(buf, start, schema, matches);
            var records := run.outcome.result.records;
            var h := DecodeFields(buf, start, map[], schema.header, matches);
            var offsets := Cursors(|buf|, h.offset, RecordPass(buf, schema.record, matches));
            |offsets| == |records| + 1 && offsets[0] == h.offset && offsets[|records|] == run.offset &&
            forall i :: 0 <= i < |records| ==>
              offsets[i] < |buf| && offsets[i] < offsets[i + 1] &&
              DecodeFields(buf, offsets[i], map[], schema.record, matches) == Pass(Ok(records[i]), offsets[i + 1])
  {
    var h := DecodeFields(buf, start, map[], schema.header, matches);
    var pass := RecordPass(buf, schema.record, matches);
    var l := RecordLoop(|buf|, h.offset, pass);
    var offsets := Cursors(|buf|, h.offset, pass);
    FinishedChain(|buf|, h.offset, pass);
    forall i | 0 <= i < |l.status.records|
      ensures offsets[i] < |buf| && offsets[i] < offsets[i + 1] &&
              DecodeFields(buf, offsets[i], map[], schema.record, matches) == Pass(Ok(l.status.records[i]), offsets[i + 1])
    {
      assert PassConsumes(|buf|, offsets, l.status.records, pass, i);
      assert pass(offsets[i]) == DecodeFields(buf, offsets[i], map[], schema.record, matches);
    }
  }

  lemma {:induction false} OffsetsIncrease(offsets: seq<nat>, i: nat, j: nat)
    requires i < j < |offsets|
    requires forall k :: 0 <= k < j ==> offsets[k] < offsets[k + 1]
    ensures offsets[i] < offsets[j]
    decreases j - i
  {
    if i + 1 < j {
      OffsetsIncrease(offsets, i + 1, j);
    }
  }

  /** A read that throws in any record pass, after passes that each consumed
      bytes, makes the whole parse fail with that error: no records are
      returned. */
  lemma FailureAborts(buf: seq<uint8>, start: nat, schema: Schema, offsets: seq<nat>, records: seq<Record>,
                      e: Error, matches: Matcher)
    requires DecodeFields(buf, start, map[], schema.header, matches).outcome.Ok?
    requires |offsets| == |records| + 1
    requires offsets[0] == DecodeFields(buf, start, map[], schema.header, matches).offset
    requires forall i :: 0 <= i < |records| ==>
               offsets[i] < |buf| && offsets[i] < offsets[i + 1] &&
               DecodeFields(buf, offsets[i], map[], schema.record, matches) == Pass(Ok(records[i]), offsets[i + 1])
    requires offsets[|records|] < |buf|
    requires DecodeFields(buf, offsets[|records|], map[], schema.record, matches).outcome == Err(e)
    ensures ParseLog(buf, start, schema, matches).outcome == Failed(e)
  {
    ConsumedPasses(buf, offsets, records, schema.record, matches);
    var pass := RecordPass(buf, schema.record, matches);
    assert pass(offsets[|records|]) == DecodeFields(buf, offsets[|records|], map[], schema.record, matches);
  }

  /** A header that reaches the end of the buffer leaves no records. */
  lemma HeaderFillsBuffer(buf: seq<uint8>, schema: Schema, matches: Matcher)
    requires DecodeFields(buf, 0, map[], schema.header, matches).outcome.Ok?
    requires |buf| <= DecodeFields(buf, 0, map[], schema.header, matches).offset
    ensures ParseLog(buf, 0, schema, matches).outcome.Parsed?
    ensures ParseLog(buf, 0, schema, matches).outcome.result.records == []
  {
  }

  lemma NextBlock(offset: nat, len: nat, n: nat, size: nat)
    requires n > 0 && len > 0 && offset + n * len == size
    ensures offset < size && (offset + len) + (n - 1) * len == size
  {
    assert n * len == len + (n - 1) * len;
  }

  /** Passes that, wherever a block of `len` bytes fits, succeed and move the
      cursor by exactly `len`: over exactly `n` such blocks the loop yields
      `n` records and ends at the buffer's end. */
  lemma {:induction false} UniformBlocks(size: nat, offset: nat, pass: nat -> Pass, len: nat, n: nat)
    requires len > 0 && offset + n * len == size
    requires forall k: nat :: k + len <= size ==> pass(k).outcome.Ok? && pass(k).offset == k + len
    ensures var l := RecordLoop(size, offset, pass);
            l.status.Finished? && |l.status.records| == n && l.offset == size
    decreases n
  {
    if n > 0 {
      NextBlock(offset, len, n, size);
      UniformBlocks(size, offset + len, pass, len, n - 1);
      LoopStep(size, offset, pass);
    }
  }

  /** A fixed record layout with a positive total length over exactly `n`
      blocks of that length decodes to `n` records and ends at the buffer's
      end. */
  lemma FixedLayoutRecords(buf: seq<uint8>, offset: nat, fields: seq<Field>, n: nat, matches: Matcher)
    requires FixedLayout(fields) && TotalLength(fields) > 0
    requires offset + n * TotalLength(fields) == |buf|
    ensures var l := RecordLoop(|buf|, offset, RecordPass(buf, fields, matches));
            l.status.Finished? && |l.status.records| == n && l.offset == |buf|
  {
    var len := TotalLength(fields);
    var pass := RecordPass(buf, fields, matches);
    forall k: nat | k + len <= |buf| ensures pass(k).outcome.Ok? && pass(k).offset == k + len {
      FixedLayoutPass(buf, k, map[], fields, matches);
      assert pass(k) == DecodeFields(buf, k, map[], fields, matches);
    }
    UniformBlocks(|buf|, offset, pass, len, n);
  }

  /** A fresh parser over a fixed-layout header followed by `n` fixed-layout
      record blocks returns the header and exactly `n` records, with the
      cursor at the buffer's end. */
  lemma FixedLayoutLog(buf: seq<uint8>, schema: Schema, n: nat, matches: Matcher)
    requires FixedLayout(schema.header) && FixedLayout(schema.record) && TotalLength(schema.record) > 0
    requires TotalLength(schema.header) + n * TotalLength(schema.record) == |buf|
    ensures var run := ParseLog(buf, 0, schema, matches);
            run.outcome.Parsed? && |run.outcome.result.records| == n && run.offset == |buf|
  {
    FixedLayoutPass(buf, 0, map[], schema.header, matches);
    FixedLayoutRecords(buf, TotalLength(schema.header), schema.record, n, matches);
  }
}
