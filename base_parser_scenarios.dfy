/** The behaviours the repository's unit tests exercise, stated for every
    buffer of the tested shape, and the consequence of the string slice's
    absolute end bound. */
module BaseParserScenarios {
  import opened Descriptors
  import opened NodeBuffer
  import opened BaseParsing

  /** A 4-byte unsigned read from a 2-byte buffer throws. */
  lemma UIntPastEndThrows(buf: seq<uint8>)
    requires |buf| == 2
    ensures ParseField(buf, 0, Field("", UInt32, 4, [])) == Err(OutOfRange)
  {
  }

  /** The first byte is the most significant: 01 00 reads as 256. */
  lemma MostSignificantFirst()
    ensures ParseField([1, 0], 0, Field("", UInt32, 2, [])) == Ok(UInt(256))
  {
    var b1: seq<uint8> := [1];
    var b2 := b1 + [0];
    assert b1[..0] == [] && b2[..1] == b1;
    assert BigEndian(b2) == 256;
    assert b2 == [1, 0] && b2[0..2] == b2;
  }

  /** 4294967295 written as 4 big-endian bytes reads back as itself. */
  lemma UInt32Max()
    ensures ParseField([255, 255, 255, 255], 0, Field("", UInt32, 4, [])) == Ok(UInt(4294967295))
  {
    var b1: seq<uint8> := [255];
    var b2, b3, b4 := b1 + [255], b1 + [255, 255], b1 + [255, 255, 255];
    assert b1[..0] == [] && b2[..1] == b1 && b3[..2] == b2 && b4[..3] == b3;
    assert BigEndian(b1) == 255;
    assert BigEndian(b2) == 65535;
    assert BigEndian(b3) == 16777215;
    assert BigEndian(b4) == 4294967295;
    assert b4 == [255, 255, 255, 255] && b4[0..4] == b4;
    assert ReadUIntBE(b4, 0, 4) == Ok(4294967295);
  }

  /** Any number below 2^64 written as 8 big-endian bytes reads back as an
      8-byte unsigned field. */
  lemma UInt64RoundTrip(n: nat)
    requires n < Pow256(8)
    ensures ParseField(EncodeBigEndian(n, 8), 0, Field("", UInt64, 8, [])) == Ok(UInt(n))
  {
    var bs := EncodeBigEndian(n, 8);
    assert bs[0..8] == bs;
    DecodeEncode(n, 8);
  }

  /** An 8-byte string field at the start of an 8-byte buffer is the whole
      buffer. */
  lemma StringWholeBuffer(buf: seq<uint8>)
    requires |buf| == 8
    ensures ParseField(buf, 0, Field("", Text, 8, [])) == Ok(Str(buf))
  {
    assert buf[0..8] == buf;
  }

  /** A string field at cursor 0 holds the first `length` bytes (all of a
      shorter buffer). */
  lemma StringAtStart(buf: seq<uint8>, length: nat)
    ensures ParseField(buf, 0, Field("", Text, length, [])) ==
            Ok(Str(if length <= |buf| then buf[..length] else buf))
  {
    assert buf[0..] == buf;
  }

  /** An 8-byte buffer decodes as a double made of its 8 bytes. */
  lemma DoubleWholeBuffer(buf: seq<uint8>)
    requires |buf| == 8
    ensures ParseField(buf, 0, Field("", Float64, 8, [])) == Ok(Double(buf))
  {
    assert buf[0..8] == buf;
  }

  /** Byte 2 selects the third name of the table. */
  lemma EnumThird()
    ensures ParseField([2], 0, Field("", Enum(["First", "Second", "Third"]), 1, [])) == Ok(EnumName("Third"))
  {
  }

  /** A byte that is negative as a signed byte, or at least the table's
      size, selects no name: the value is undefined. */
  lemma EnumOutsideTable(b: uint8, values: seq<string>)
    requires b >= 128 || b as int >= |values|
    ensures ParseField([b], 0, Field("", Enum(values), 1, [])) == Ok(Undefined)
  {
  }

  /** With no type, byte 2 reads as 2 and byte 0xFF as -1. */
  lemma SignedByteDefault()
    ensures ParseField([2], 0, Field("", Other, 1, [])) == Ok(Int8(2))
    ensures ParseField([255], 0, Field("", Other, 1, [])) == Ok(Int8(-1))
  {
  }

  /** An 8-byte string, a 4-byte unsigned and a double declared 16 bytes
      long over a 28-byte buffer: the double reads the 8 bytes after the
      unsigned, and the cursor ends at 8 + 4 + 16 = 28. */
  lemma SuccessionOfFields(buf: seq<uint8>, matches: Matcher)
    requires |buf| == 28
    ensures DecodeFields(buf, 0, map[], [Field("first", Text, 8, []), Field("second", UInt32, 4, []),
                                         Field("third", Float64, 16, [])], matches)
            == Pass(Ok(map["first" := Str(buf[..8]), "second" := UInt(BigEndian(buf[8..12])),
                           "third" := Double(buf[12..20])]), 28)
  {
    var fields := [Field("first", Text, 8, []), Field("second", UInt32, 4, []), Field("third", Float64, 16, [])];
    assert fields[1..][1..][1..] == [];
    assert buf[0..8] == buf[..8];
  }

  /** A second field conditioned on the first one matching: when the
      pattern matches the decoded string the field is decoded after it. */
  lemma ConditionalMet(buf: seq<uint8>, matches: Matcher)
    requires |buf| == 12
    requires matches("^Skala", Str(buf[..8]))
    ensures DecodeFields(buf, 0, map[], [Field("first", Text, 8, []),
                                         Field("second", UInt32, 4, [Conditional("first", "^Skala")])], matches)
            == Pass(Ok(map["first" := Str(buf[..8]), "second" := UInt(BigEndian(buf[8..12]))]), 12)
  {
    var fields := [Field("first", Text, 8, []), Field("second", UInt32, 4, [Conditional("first", "^Skala")])];
    assert fields[1..][1..] == [];
    assert buf[0..8] == buf[..8];
    assert Lookup(map["first" := Str(buf[..8])], "first") == Str(buf[..8]);
  }

  /** The same two fields when the pattern does not match: the second key
      is absent and the cursor stays after the first field. */
  lemma ConditionalNotMet(buf: seq<uint8>, matches: Matcher)
    requires |buf| == 12
    requires !matches("^not-found$", Str(buf[..8]))
    ensures var p := DecodeFields(buf, 0, map[], [Field("first", Text, 8, []),
                                         Field("second", UInt32, 4, [Conditional("first", "^not-found$")])], matches);
            p == Pass(Ok(map["first" := Str(buf[..8])]), 8) && "second" !in p.outcome.value
  {
    var fields := [Field("first", Text, 8, []), Field("second", UInt32, 4, [Conditional("first", "^not-found$")])];
    assert fields[1..][1..] == [];
    assert buf[0..8] == buf[..8];
    assert Lookup(map["first" := Str(buf[..8])], "first") == Str(buf[..8]);
  }

  /** The string slice ends at the declared length as an absolute index: a
      4-byte unsigned followed by an 8-byte string over 12 bytes gives the
      string only bytes 4 to 8, and a string starting at or after its
      declared length is empty. */
  lemma StringAfterOtherFields(buf: seq<uint8>, matches: Matcher)
    requires |buf| == 12
    ensures var p := DecodeFields(buf, 0, map[], [Field("id", UInt32, 4, []), Field("name", Text, 8, [])], matches);
            p.outcome.Ok? && p.offset == 12 && p.outcome.value["name"] == Str(buf[4..8])
  {
    var fields := [Field("id", UInt32, 4, []), Field("name", Text, 8, [])];
    assert fields[1..][1..] == [];
  }

  lemma StringPastItsLength(buf: seq<uint8>, offset: nat, length: nat)
    requires length <= offset
    ensures ParseField(buf, offset, Field("", Text, length, [])) == Ok(Str([]))
  {
  }
}
