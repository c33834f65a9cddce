/** The CRC-16 of rtl_433's crc16(message, nBytes, polynomial, init): a 16-bit
    shift register fed most-significant-bit first, with no reflection and no
    final XOR. With polynomial 0x8005 and initial value 0 this is the
    catalogued CRC-16/BUYPASS (also called CRC-16/UMTS), the one the Careud
    decoder uses. */
module Crc {
  import opened Bitstream

  /** One register shift: the top bit leaves, and when it was set the polynomial is added. */
  function Shift(r: bv16, poly: bv16): bv16
  {
    if r & 0x8000 != 0 then (r << 1) ^ poly else r << 1
  }

  /** The register after k shifts. */
  function ShiftN(r: bv16, poly: bv16, k: nat): bv16
  {
    if k == 0 then r else Shift(ShiftN(r, poly, k - 1), poly)
  }

  /** The register after one message byte: the byte enters the top half of
      the register, then the register is shifted eight times. */
  function Feed(r: bv16, b: byte, poly: bv16): bv16
  {
    ShiftN(r ^ ((b as bv16) << 8), poly, 8)
  }

  /** The register after the whole message, starting from init. */
  function Crc16(msg: seq<byte>, poly: bv16, init: bv16): bv16
    decreases |msg|
  {
    if msg == [] then init else Crc16(msg[1..], poly, Feed(init, msg[0], poly))
  }

  /** A 16-bit value as two bytes, most significant first. */
  function CrcBytes(c: bv16): (r: seq<byte>)
    ensures |r| == 2
    ensures ((r[0] as bv16) << 8) | (r[1] as bv16) == c
  {
    [(c >> 8) as byte, (c & 0xff) as byte]
  }

  /** Eight shifts written out one by one. */
  function EightShifts(x: bv16, poly: bv16): bv16
  {
    Shift(Shift(Shift(Shift(Shift(Shift(Shift(Shift(x, poly), poly), poly), poly), poly), poly), poly), poly)
  }

  lemma FeedUnrolled(r: bv16, b: byte, poly: bv16)
    ensures Feed(r, b, poly) == EightShifts(r ^ ((b as bv16) << 8), poly)
  {
    var x := r ^ ((b as bv16) << 8);
    assert ShiftN(x, poly, 1) == Shift(x, poly);
    assert ShiftN(x, poly, 2) == Shift(Shift(x, poly), poly);
    assert ShiftN(x, poly, 3) == Shift(ShiftN(x, poly, 2), poly);
    assert ShiftN(x, poly, 4) == Shift(ShiftN(x, poly, 3), poly);
    assert ShiftN(x, poly, 5) == Shift(ShiftN(x, poly, 4), poly);
    assert ShiftN(x, poly, 6) == Shift(ShiftN(x, poly, 5), poly);
    assert ShiftN(x, poly, 7) == Shift(ShiftN(x, poly, 6), poly);
  }

  /** The CRC of a concatenation continues from the CRC of the first part. */
  lemma {:induction false} CrcAppend(a: seq<byte>, b: seq<byte>, poly: bv16, init: bv16)
    ensures Crc16(a + b, poly, init) == Crc16(b, poly, Crc16(a, poly, init))
    decreases |a|
  {
    if a == [] {
      assert a + b == b;
    } else {
      assert (a + b)[0] == a[0] && (a + b)[1..] == a[1..] + b;
      CrcAppend(a[1..], b, poly, Feed(init, a[0], poly));
    }
  }

  /** The CRC of a two-byte message. */
  lemma CrcOfPair(t: seq<byte>, poly: bv16, init: bv16)
    requires |t| == 2
    ensures Crc16(t, poly, init) == Feed(Feed(init, t[0], poly), t[1], poly)
  {
    var r1 := Feed(init, t[0], poly);
    assert Crc16(t, poly, init) == Crc16(t[1..], poly, r1);
    assert t[1..][0] == t[1] && t[1..][1..] == [];
    assert Crc16(t[1..], poly, r1) == Crc16(t[1..][1..], poly, Feed(r1, t[1], poly));
  }

  /** The catalogue check value of CRC-16/BUYPASS: the CRC of ASCII "123456789" is 0xFEE8. */
  lemma BuypassCheckValue()
    ensures Crc16([0x31, 0x32, 0x33, 0x34, 0x35, 0x36, 0x37, 0x38, 0x39], 0x8005, 0) == 0xfee8
  {
    var m: seq<byte> := [0x31, 0x32, 0x33, 0x34, 0x35, 0x36, 0x37, 0x38, 0x39];
    FeedUnrolled(0x0000, 0x31, 0x8005);
    FeedUnrolled(0x80a5, 0x32, 0x8005);
    FeedUnrolled(0xa6ac, 0x33, 0x8005);
    FeedUnrolled(0xaf7e, 0x34, 0x8005);
    FeedUnrolled(0xfd59, 0x35, 0x8005);
    FeedUnrolled(0xdbb3, 0x36, 0x8005);
    FeedUnrolled(0xb16e, 0x37, 0x8005);
    FeedUnrolled(0xed17, 0x38, 0x8005);
    FeedUnrolled(0x95fd, 0x39, 0x8005);
    assert Crc16(m[9..], 0x8005, 0xfee8) == 0xfee8;
    assert Crc16(m[8..], 0x8005, 0x95fd) == 0xfee8;
    assert Crc16(m[7..], 0x8005, 0xed17) == 0xfee8;
    assert Crc16(m[6..], 0x8005, 0xb16e) == 0xfee8;
    assert Crc16(m[5..], 0x8005, 0xdbb3) == 0xfee8;
    assert Crc16(m[4..], 0x8005, 0xfd59) == 0xfee8;
    assert Crc16(m[3..], 0x8005, 0xaf7e) == 0xfee8;
    assert Crc16(m[2..], 0x8005, 0xa6ac) == 0xfee8;
    assert Crc16(m[1..], 0x8005, 0x80a5) == 0xfee8;
  }

  /** While the top byte is clear, eight shifts never add the polynomial. */
  lemma ShiftLowByte(x: bv16, poly: bv16)
    requires x < 256
    ensures ShiftN(x, poly, 8) == x << 8
  {
    assert ShiftN(x, poly, 1) == x << 1;
    assert ShiftN(x, poly, 2) == x << 2;
    assert ShiftN(x, poly, 3) == x << 3;
    assert ShiftN(x, poly, 4) == x << 4;
    assert ShiftN(x, poly, 5) == x << 5;
    assert ShiftN(x, poly, 6) == x << 6;
    assert ShiftN(x, poly, 7) == x << 7;
  }

  /** Shifting a clear register leaves it clear. */
  lemma {:induction false} ShiftZero(poly: bv16, k: nat)
    ensures ShiftN(0, poly, k) == 0
  {
    if k > 0 {
      ShiftZero(poly, k - 1);
    }
  }

  /** Feeding a register its own two bytes, most significant first, clears it. */
  lemma FeedOwnBytes(c: bv16, poly: bv16)
    ensures Feed(Feed(c, CrcBytes(c)[0], poly), CrcBytes(c)[1], poly) == 0
  {
    var lo := c & 0xff;
    assert c ^ ((CrcBytes(c)[0] as bv16) << 8) == lo;
    ShiftLowByte(lo, poly);
    assert (lo << 8) ^ ((CrcBytes(c)[1] as bv16) << 8) == 0;
    ShiftZero(poly, 8);
  }

  /** Appending a message's CRC, big-endian, gives a message whose CRC is zero. */
  lemma {:induction false} AppendedCrcResidue(p: seq<byte>, poly: bv16, init: bv16)
    ensures Crc16(p + CrcBytes(Crc16(p, poly, init)), poly, init) == 0
  {
    var c := Crc16(p, poly, init);
    CrcAppend(p, CrcBytes(c), poly, init);
    CrcOfPair(CrcBytes(c), poly, c);
    FeedOwnBytes(c, poly);
  }
}
