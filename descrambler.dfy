/** The XOR descrambler of the Careud frame (src/devices/tpms_careud.c). The
    five payload bytes are copied into a local buffer, then two passes run over
    it: the first XORs byte 0 into bytes 1..4, the second XORs byte 4, as the
    first pass left it, into bytes 3..0. */
module Descrambler {
  import opened Bitstream

  /** The five payload bytes d[0] .. d[4]. */
  datatype Payload = Payload(b0: byte, b1: byte, b2: byte, b3: byte, b4: byte)

  /** The payload held at offset 2 of a frame. */
  function PayloadAt(b: seq<byte>): (p: Payload)
    requires |b| >= 7
    ensures p.b0 == b[2] && p.b1 == b[3] && p.b2 == b[4] && p.b3 == b[5] && p.b4 == b[6]
  {
    Payload(b[2], b[3], b[4], b[5], b[6])
  }

  /** The payload as a byte string, in order. */
  function Bytes(p: Payload): (s: seq<byte>)
    ensures |s| == 5
    ensures s[0] == p.b0 && s[1] == p.b1 && s[2] == p.b2 && s[3] == p.b3 && s[4] == p.b4
  {
    [p.b0, p.b1, p.b2, p.b3, p.b4]
  }

  /** Reading back the payload of a frame whose bytes 2..6 are those of p gives p. */
  lemma PayloadAtBytes(prefix: seq<byte>, p: Payload, suffix: seq<byte>)
    requires |prefix| == 2
    ensures PayloadAt(prefix + Bytes(p) + suffix) == p
  {
    var b := prefix + Bytes(p) + suffix;
    assert b[2] == p.b0 && b[3] == p.b1 && b[4] == p.b2 && b[5] == p.b3 && b[6] == p.b4;
  }

  /** Two payloads that agree byte by byte are equal; a proof step for the
      per-byte lemmas below. */
  lemma SameFields(p: Payload, q: Payload)
    requires p.b0 == q.b0 && p.b1 == q.b1 && p.b2 == q.b2 && p.b3 == q.b3 && p.b4 == q.b4
    ensures p == q
  {
  }

  // ---------------------------------------------------------------------
  // The two passes and what they compute

  /** The first pass: byte 0 XORed into bytes 1..4. */
  function FirstPass(x: Payload): Payload
  {
    Payload(x.b0, x.b1 ^ x.b0, x.b2 ^ x.b0, x.b3 ^ x.b0, x.b4 ^ x.b0)
  }

  /** The second pass: byte 4 XORed into bytes 3..0. */
  function SecondPass(y: Payload): Payload
  {
    Payload(y.b0 ^ y.b4, y.b1 ^ y.b4, y.b2 ^ y.b4, y.b3 ^ y.b4, y.b4)
  }

  /** The descrambled payload: both passes, one after the other. */
  function Descrambled(x: Payload): Payload
  {
    SecondPass(FirstPass(x))
  }

  /** The transmitter's side: the payload bytes that descramble to d. */
  function Scrambled(d: Payload): Payload
  {
    Payload(d.b4 ^ d.b0, d.b1 ^ d.b0, d.b2 ^ d.b0, d.b3 ^ d.b0, d.b0)
  }

  // The descrambled payload byte by byte: the second pass XORs in x4 ^ x0, which
  // cancels the x0 the first pass XORed in everywhere except in byte 4.
  // These one-byte lemmas, and the Scrambled/Descrambled ones below, are proof
  // steps: each keeps a bit-vector goal to a single byte, so that the lemmas
  // about whole payloads (with SameFields) stay cheap for the solver.

  lemma DescrambledByte0(x: Payload)
    ensures Descrambled(x).b0 == x.b4
  {
  }

  lemma DescrambledByte1(x: Payload)
    ensures Descrambled(x).b1 == x.b1 ^ x.b4
  {
  }

  lemma DescrambledByte2(x: Payload)
    ensures Descrambled(x).b2 == x.b2 ^ x.b4
  {
  }

  lemma DescrambledByte3(x: Payload)
    ensures Descrambled(x).b3 == x.b3 ^ x.b4
  {
  }

  lemma DescrambledByte4(x: Payload)
    ensures Descrambled(x).b4 == x.b0 ^ x.b4
  {
  }

  /** The closed form of the descrambler: byte 4 of the input is XORed into
      every other byte, and byte 0 becomes byte 4 of the input. */
  lemma DescrambledClosedForm(x: Payload)
    ensures Descrambled(x) == Payload(x.b4, x.b1 ^ x.b4, x.b2 ^ x.b4, x.b3 ^ x.b4, x.b0 ^ x.b4)
  {
    DescrambledByte0(x);
    DescrambledByte1(x);
    DescrambledByte2(x);
    DescrambledByte3(x);
    DescrambledByte4(x);
    SameFields(Descrambled(x), Payload(x.b4, x.b1 ^ x.b4, x.b2 ^ x.b4, x.b3 ^ x.b4, x.b0 ^ x.b4));
  }

  // Scrambling after descrambling, byte by byte.

  lemma ScrambledDescrambledByte0(x: Payload)
    ensures Scrambled(Descrambled(x)).b0 == x.b0
  {
  }

  lemma ScrambledDescrambledByte1(x: Payload)
    ensures Scrambled(Descrambled(x)).b1 == x.b1
  {
  }

  lemma ScrambledDescrambledByte2(x: Payload)
    ensures Scrambled(Descrambled(x)).b2 == x.b2
  {
  }

  lemma ScrambledDescrambledByte3(x: Payload)
    ensures Scrambled(Descrambled(x)).b3 == x.b3
  {
  }

  lemma ScrambledDescrambledByte4(x: Payload)
    ensures Scrambled(Descrambled(x)).b4 == x.b4
  {
  }

  /** Scrambling undoes descrambling. */
  lemma ScrambledDescrambled(x: Payload)
    ensures Scrambled(Descrambled(x)) == x
  {
    ScrambledDescrambledByte0(x);
    ScrambledDescrambledByte1(x);
    ScrambledDescrambledByte2(x);
    ScrambledDescrambledByte3(x);
    ScrambledDescrambledByte4(x);
    SameFields(Scrambled(Descrambled(x)), x);
  }

  // Descrambling after scrambling, byte by byte.

  lemma DescrambledScrambledByte0(d: Payload)
    ensures Descrambled(Scrambled(d)).b0 == d.b0
  {
  }

  lemma DescrambledScrambledByte1(d: Payload)
    ensures Descrambled(Scrambled(d)).b1 == d.b1
  {
  }

  lemma DescrambledScrambledByte2(d: Payload)
    ensures Descrambled(Scrambled(d)).b2 == d.b2
  {
  }

  lemma DescrambledScrambledByte3(d: Payload)
    ensures Descrambled(Scrambled(d)).b3 == d.b3
  {
  }

  lemma DescrambledScrambledByte4(d: Payload)
    ensures Descrambled(Scrambled(d)).b4 == d.b4
  {
  }

  /** Descrambling undoes scrambling, so the descrambler is a bijection on
      payloads. */
  lemma DescrambledScrambled(d: Payload)
    ensures Descrambled(Scrambled(d)) == d
  {
    DescrambledScrambledByte0(d);
    DescrambledScrambledByte1(d);
    DescrambledScrambledByte2(d);
    DescrambledScrambledByte3(d);
    DescrambledScrambledByte4(d);
    SameFields(Descrambled(Scrambled(d)), d);
  }

  /** Distinct payloads descramble to distinct payloads. */
  lemma DescrambledInjective(x: Payload, y: Payload)
    ensures Descrambled(x) == Descrambled(y) <==> x == y
  {
    if Descrambled(x) == Descrambled(y) {
      ScrambledDescrambled(x);
      ScrambledDescrambled(y);
    }
  }

  /** The descrambler is not its own inverse: applied twice to 01 00 00 00 00
      it gives 01 01 01 01 01. */
  lemma DescramblerNotInvolution()
    ensures Descrambled(Descrambled(Payload(1, 0, 0, 0, 0))) == Payload(1, 1, 1, 1, 1)
  {
  }

  // ---------------------------------------------------------------------
  // The passes in place

  /** The local buffer read as a payload. */
  function Contents(d: array<byte>): Payload
    requires d.Length == 5
    reads d
  {
    Payload(d[0], d[1], d[2], d[3], d[4])
  }

  /** The first loop: byte 0 is XORed into bytes 1..4 in turn. */
  method XorFirstIntoRest(d: array<byte>)
    requires d.Length == 5
    modifies d
    ensures Contents(d) == FirstPass(old(Contents(d)))
  {
    for i := 1 to 5
      invariant d[0] == old(d[0])
      invariant forall k :: 1 <= k < i ==> d[k] == old(d[k]) ^ old(d[0])
      invariant forall k :: i <= k < 5 ==> d[k] == old(d[k])
    {
      d[i] := d[i] ^ d[0];
    }
  }

  /** The second loop: byte 4 is XORed into bytes 3..0 in turn. */
  method XorLastIntoRest(d: array<byte>)
    requires d.Length == 5
    modifies d
    ensures Contents(d) == SecondPass(old(Contents(d)))
  {
    for i := 4 downto 0
      invariant d[4] == old(d[4])
      invariant forall k :: 0 <= k < i ==> d[k] == old(d[k])
      invariant forall k :: i <= k < 4 ==> d[k] == old(d[k]) ^ old(d[4])
    {
      d[i] := d[i] ^ d[4];
    }
  }

  /** The descrambler: the payload copied into a local buffer and rewritten by
      both loops. */
  method Descramble(x: Payload) returns (r: Payload)
    ensures r == Descrambled(x)
  {
    var d := new byte[5];
    d[0], d[1], d[2], d[3], d[4] := x.b0, x.b1, x.b2, x.b3, x.b4;
    assert Contents(d) == x;
    XorFirstIntoRest(d);
    XorLastIntoRest(d);
    r := Contents(d);
  }
}
