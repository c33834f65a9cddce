/** Manchester line code (bitbuffer_manchester_decode). Every logical bit is
    sent as a pair of raw bits that differ; the logical bit is the pair's
    second half, so the pair 0,1 carries a 1 and the pair 1,0 carries a 0.
    Decoding stops at the first pair whose halves are equal, at the end of
    the row, or once the requested number of bits has been produced. */
module Manchester {
  import opened Bitstream

  /** The raw bits at i and i + 1 form a valid Manchester pair inside the row. */
  predicate ValidPairAt(row: Row, i: nat)
  {
    i + 1 < |row| && row[i] != row[i + 1]
  }

  /** Decodes at most max logical bits from the row, starting at raw bit start. */
  function Decode(row: Row, start: nat, max: nat): (out: Row)
    ensures |out| <= max
    decreases |row| - start
  {
    if max == 0 || !ValidPairAt(row, start) then []
    else [row[start + 1]] + Decode(row, start + 2, max - 1)
  }

  /** The raw bits Decode consumes lie inside the row and are exactly the
      encoding of its result. */
  lemma {:induction false} DecodeConsumes(row: Row, start: nat, max: nat)
    ensures var out := Decode(row, start, max);
      out != [] ==> start + 2 * |out| <= |row| && row[start..start + 2 * |out|] == Encode(out)
    decreases max
  {
    var out := Decode(row, start, max);
    if out != [] {
      var rest := Decode(row, start + 2, max - 1);
      DecodeConsumes(row, start + 2, max - 1);
      assert out == [row[start + 1]] + rest;
      assert out[1..] == rest;
      assert row[start..start + 2 * |out|] == [row[start], row[start + 1]] + row[start + 2..start + 2 + 2 * |rest|];
    }
  }

  /** Decode stops short of max bits only at a pair that is not a valid one. */
  lemma {:induction false} DecodeStops(row: Row, start: nat, max: nat)
    ensures var out := Decode(row, start, max);
      |out| < max ==> !ValidPairAt(row, start + 2 * |out|)
    decreases max
  {
    if max > 0 && ValidPairAt(row, start) {
      DecodeStops(row, start + 2, max - 1);
    }
  }

  /** The encoder matching Decode: each bit b is sent as the pair !b, b. */
  function Encode(bits: Row): (raw: Row)
    ensures |raw| == 2 * |bits|
  {
    if bits == [] then [] else [!bits[0], bits[0]] + Encode(bits[1..])
  }

  /** Decoding an encoded bit string found anywhere in a row gives the bit string back. */
  lemma {:induction false} DecodeEncoded(row: Row, start: nat, bits: Row)
    requires start + 2 * |bits| <= |row|
    requires row[start..start + 2 * |bits|] == Encode(bits)
    ensures Decode(row, start, |bits|) == bits
    decreases |bits|
  {
    if bits != [] {
      var raw := Encode(bits);
      assert raw == [!bits[0], bits[0]] + Encode(bits[1..]);
      assert row[start] == raw[0] && row[start + 1] == raw[1];
      assert row[start + 2..start + 2 + 2 * |bits[1..]|] == raw[2..];
      DecodeEncoded(row, start + 2, bits[1..]);
    }
  }
}
