/** The reads the decoder makes on a Node.js Buffer: `readUIntBE`,
    `readInt8`, `readDoubleBE` and `slice`. A read whose bytes reach past the
    end of the buffer throws; `slice` clamps its bounds and never throws. */
module NodeBuffer {
  import opened Descriptors

  function Pow256(k: nat): (p: nat)
    ensures p > 0
  {
    if k == 0 then 1 else 256 * Pow256(k - 1)
  }

  /** The unsigned integer whose big-endian base-256 digits are `bs`. */
  function BigEndian(bs: seq<uint8>): (n: nat)
    ensures n < Pow256(|bs|)
  {
    if bs == [] then 0
    else
      var high := BigEndian(bs[..|bs| - 1]);
      assert high * 256 + bs[|bs| - 1] as nat <= (Pow256(|bs| - 1) - 1) * 256 + 255;
      high * 256 + bs[|bs| - 1] as nat
  }

  /** The `len` big-endian bytes of `n` modulo 256^len. For n < 256^len
      these are the bytes `buffer.writeUIntBE(n, offset, len)` writes; Node
      throws for a larger n. */
  function EncodeBigEndian(n: nat, len: nat): (bs: seq<uint8>)
    ensures |bs| == len
  {
    if len == 0 then [] else EncodeBigEndian(n / 256, len - 1) + [(n % 256) as uint8]
  }

  /** Writing a number that fits in `len` bytes and reading it back yields
      the number. */
  lemma {:induction false} DecodeEncode(n: nat, len: nat)
    requires n < Pow256(len)
    ensures BigEndian(EncodeBigEndian(n, len)) == n
  {
    if len > 0 {
      var high, low := n / 256, n % 256;
      assert n == high * 256 + low;
      assert high < Pow256(len - 1) by {
        assert n < Pow256(len - 1) * 256;
        DivBound(n, Pow256(len - 1));
      }
      var e := EncodeBigEndian(n, len);
      assert e[..len - 1] == EncodeBigEndian(high, len - 1);
      assert e[len - 1] as nat == low;
      DecodeEncode(high, len - 1);
    }
  }

  lemma DivBound(n: nat, m: nat)
    requires n < m * 256
    ensures n / 256 < m
  {
  }

  /** Reading bytes as a number and writing the number back yields the bytes. */
  lemma {:induction false} EncodeDecode(bs: seq<uint8>)
    ensures EncodeBigEndian(BigEndian(bs), |bs|) == bs
  {
    if bs != [] {
      var init, last := bs[..|bs| - 1], bs[|bs| - 1];
      var n := BigEndian(bs);
      assert n == BigEndian(init) * 256 + last as nat;
      assert n / 256 == BigEndian(init);
      assert (n % 256) as uint8 == last;
      EncodeDecode(init);
      assert bs == init + [last];
    }
  }

  /** `buffer.readUIntBE(offset, length)`: throws unless the `length` bytes
      at `offset` lie inside the buffer; otherwise their big-endian value. */
  function ReadUIntBE(buf: seq<uint8>, offset: nat, length: nat): (r: Result<nat>)
    ensures r.Ok? <==> offset + length <= |buf|
    ensures r.Ok? ==> r.value < Pow256(length)
  {
    if offset + length <= |buf| then Ok(BigEndian(buf[offset..offset + length])) else Err(OutOfRange)
  }

  /** The number `readUIntBE` returns is the one whose `length` big-endian
      bytes are exactly the bytes it read. */
  lemma ReadUIntBEBytes(buf: seq<uint8>, offset: nat, length: nat)
    requires offset + length <= |buf|
    ensures EncodeBigEndian(ReadUIntBE(buf, offset, length).value, length) == buf[offset..offset + length]
  {
    EncodeDecode(buf[offset..offset + length]);
  }

  /** The two's-complement reading of one byte. */
  function Signed(b: uint8): (i: int)
    ensures -128 <= i < 128 && i % 256 == b as int
  {
    if b < 128 then b as int else b as int - 256
  }

  /** `buffer.readInt8(offset)`: throws unless `offset` is inside the buffer;
      otherwise the byte there read as a signed 8-bit integer. */
  function ReadInt8(buf: seq<uint8>, offset: nat): (r: Result<int>)
    ensures r.Ok? <==> offset < |buf|
    ensures r.Ok? ==> -128 <= r.value < 128 && r.value % 256 == buf[offset] as int
  {
    if offset < |buf| then Ok(Signed(buf[offset])) else Err(OutOfRange)
  }

  /** `buffer.readDoubleBE(offset)`: throws unless the 8 bytes at `offset`
      lie inside the buffer; the double is kept as those 8 raw bytes. */
  function ReadDoubleBE(buf: seq<uint8>, offset: nat): (r: Result<seq<uint8>>)
    ensures r.Ok? <==> offset + 8 <= |buf|
    ensures r.Ok? ==> |r.value| == 8 && forall k :: 0 <= k < 8 ==> r.value[k] == buf[offset + k]
  {
    if offset + 8 <= |buf| then Ok(buf[offset..offset + 8]) else Err(OutOfRange)
  }

  /** `buffer.slice(start, end)` with non-negative bounds: both bounds are
      clamped to the buffer's length, and an end at or before the start
      gives the empty slice. */
  function Slice(buf: seq<uint8>, start: nat, end: nat): (s: seq<uint8>)
    ensures start <= end <= |buf| ==> s == buf[start..end]
    ensures start <= |buf| <= end ==> s == buf[start..]
    ensures end <= start || |buf| <= start ==> s == []
  {
    var from := if start <= |buf| then start else |buf|;
    var to := if end <= |buf| then end else |buf|;
    if from < to then buf[from..to] else []
  }
}
