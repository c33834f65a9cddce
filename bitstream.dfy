/** Rows of demodulated bits as the rtl_433 bit buffer holds them. A row is
    read as bytes most-significant-bit first: bit 8*k of the row is the top
    bit of byte k. */
module Bitstream {

  type byte = bv8
  type Row = seq<bool>

  /** The row with every bit negated (what bitbuffer_invert does to a row). */
  function Inverted(row: Row): (r: Row)
    ensures |r| == |row|
    ensures forall i :: 0 <= i < |row| ==> r[i] == !row[i]
  {
    seq(|row|, i requires 0 <= i < |row| => !row[i])
  }

  /** Inverting twice gives back the original row. */
  lemma InvertedTwice(row: Row)
    ensures Inverted(Inverted(row)) == row
  {
  }

  /** The eight bits of a byte, most significant first. */
  function ByteBits(b: byte): (r: Row)
    ensures |r| == 8
  {
    [b & 0x80 != 0, b & 0x40 != 0, b & 0x20 != 0, b & 0x10 != 0,
     b & 0x08 != 0, b & 0x04 != 0, b & 0x02 != 0, b & 0x01 != 0]
  }

  /** Eight bits packed into a byte, the first bit becoming the top bit. */
  function PackByte(bits: Row): byte
    requires |bits| == 8
  {
    (if bits[0] then 0x80 else 0) | (if bits[1] then 0x40 else 0) |
    (if bits[2] then 0x20 else 0) | (if bits[3] then 0x10 else 0) |
    (if bits[4] then 0x08 else 0) | (if bits[5] then 0x04 else 0) |
    (if bits[6] then 0x02 else 0) | (if bits[7] then 0x01 else 0)
  }

  /** Packing the bits of a byte gives the byte back. */
  lemma PackByteBits(b: byte)
    ensures PackByte(ByteBits(b)) == b
  {
  }

  /** A byte string laid out as a bit row, MSB first. */
  function BytesToBits(bs: seq<byte>): (r: Row)
    ensures |r| == 8 * |bs|
  {
    if bs == [] then [] else ByteBits(bs[0]) + BytesToBits(bs[1..])
  }

  /** A bit row read as bytes, eight bits at a time. */
  function BitsToBytes(bits: Row): (r: seq<byte>)
    requires |bits| % 8 == 0
    ensures |r| == |bits| / 8
  {
    if bits == [] then [] else [PackByte(bits[..8])] + BitsToBytes(bits[8..])
  }

  /** Byte k of a bit row packs bits 8*k .. 8*k+7. */
  lemma {:induction false} BitsToBytesAt(bits: Row, k: nat)
    requires |bits| % 8 == 0 && k < |bits| / 8
    ensures BitsToBytes(bits)[k] == PackByte(bits[8 * k..8 * k + 8])
    decreases k
  {
    if k > 0 {
      BitsToBytesAt(bits[8..], k - 1);
      assert bits[8..][8 * (k - 1)..8 * (k - 1) + 8] == bits[8 * k..8 * k + 8];
    }
  }

  /** Reading back the bits of a byte string gives the byte string. */
  lemma {:induction false} BytesBitsRoundTrip(bs: seq<byte>)
    ensures BitsToBytes(BytesToBits(bs)) == bs
  {
    if bs != [] {
      var bits := BytesToBits(bs);
      assert bits[..8] == ByteBits(bs[0]);
      assert bits[8..] == BytesToBits(bs[1..]);
      PackByteBits(bs[0]);
      BytesBitsRoundTrip(bs[1..]);
    }
  }

  /** The pattern occurs in the row starting at bit pos, entirely inside the row. */
  predicate MatchAt(row: Row, pos: nat, pattern: Row)
  {
    pos + |pattern| <= |row| && row[pos..pos + |pattern|] == pattern
  }

  /** bitbuffer_search: the first position at or after start where the pattern
      occurs, or the row length when there is none. */
  function Search(row: Row, start: nat, pattern: Row): (r: nat)
    ensures r <= |row|
    ensures r < |row| ==> start <= r
    decreases |row| - start
  {
    if start >= |row| then |row|
    else if MatchAt(row, start, pattern) then start
    else Search(row, start + 1, pattern)
  }

  /** A position Search returns inside the row is a match. */
  lemma {:induction false} SearchFinds(row: Row, start: nat, pattern: Row)
    ensures Search(row, start, pattern) < |row| ==> MatchAt(row, Search(row, start, pattern), pattern)
    decreases |row| - start
  {
    if start < |row| && !MatchAt(row, start, pattern) {
      SearchFinds(row, start + 1, pattern);
    }
  }

  /** There is no match between start and the position Search returns. */
  lemma {:induction false} SearchFirst(row: Row, start: nat, pattern: Row)
    ensures forall q :: start <= q < Search(row, start, pattern) ==> !MatchAt(row, q, pattern)
    decreases |row| - start
  {
    if start < |row| && !MatchAt(row, start, pattern) {
      SearchFirst(row, start + 1, pattern);
    }
  }
}
