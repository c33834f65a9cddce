/** The Careud TPMS decoder (src/devices/tpms_careud.c). A transmission is a
    preamble 55 55 a9 in the inverted bit buffer, followed by a Manchester
    coded frame of 9 bytes: the sync word 0x19cf, five scrambled payload bytes
    and a CRC-16/BUYPASS check over the payload and the CRC bytes themselves.
    The callback scans row 0 for preambles and decodes the frame behind each. */
module TpmsCareud {
  import opened Bitstream
  import Manchester
  import Crc
  import opened Descrambler
  import opened HexFormat

  /** rtl_433's return codes for a frame whose check value is wrong and for
      one that fails a structural test. A decoded frame returns 1. */
  const DecodeFailMic: int := -3
  const DecodeFailSanity: int := -4

  /** The record one decoded frame produces, field by field as emitted. */
  datatype Reading = Reading(
    model: string,
    kind: string,
    id: string,
    flags: int,
    battery: string,
    pressureBar: real,
    pressureLoss: string,
    temperatureC: int,
    mic: string)

  /** What decoding one candidate window gives. */
  datatype Outcome = Decoded(reading: Reading) | FailSanity | FailMic

  /** The integer the decode routine returns for an outcome. */
  function Code(o: Outcome): (c: int)
    ensures c > 0 <==> o.Decoded?
    ensures c > 0 ==> c == 1
  {
    match o
    case Decoded(_) => 1
    case FailSanity => DecodeFailSanity
    case FailMic => DecodeFailMic
  }

  // ---------------------------------------------------------------------
  // Field extraction

  /** The record emitted for a descrambled payload d. What each field means
      is stated by the lemmas below. */
  function Fields(d: Payload): Reading
  {
    var flags := d.b0 & 0x0f;
    Reading(
      "Careud",
      "TPMS",
      Hex4(IdWord(d.b1, d.b4) as nat),
      flags as int,
      if flags & 0x02 != 0 then "OK" else "LOW",
      d.b3 as int as real / 64.0,
      if flags & 0x08 != 0 then "OK" else "ALARM",
      d.b2 as int - 55,
      "CRC")
  }

  /** The 16-bit sensor id: one byte above another. */
  function IdWord(hi: byte, lo: byte): bv16
  {
    ((hi as bv16) << 8) | (lo as bv16)
  }

  /** The id is four lower-case hexadecimal digits spelling byte 1 then byte 4. */
  lemma FieldsId(d: Payload)
    ensures var r := Fields(d);
      |r.id| == 4 && (forall i :: 0 <= i < 4 ==> IsLowerHex(r.id[i])) &&
      ParseHex(r.id) == d.b1 as int * 256 + d.b4 as int
  {
    IdBytes(d.b1, d.b4);
    Hex4Value(IdWord(d.b1, d.b4) as nat);
    assert Fields(d).id == Hex4(IdWord(d.b1, d.b4) as nat);
  }

  /** The flags are the low nibble of byte 0; bit 1 is the battery state and
      bit 3 the pressure-loss state, "OK" when set. */
  lemma FieldsFlags(d: Payload)
    ensures var r := Fields(d);
      r.flags == d.b0 as int % 16 &&
      r.battery == (if r.flags / 2 % 2 == 1 then "OK" else "LOW") &&
      r.pressureLoss == (if r.flags / 8 == 1 then "OK" else "ALARM")
  {
    FlagNibble(d.b0);
    BatteryBit(d.b0 & 0x0f);
    PressureLossBit(d.b0 & 0x0f);
  }

  /** The temperature is byte 2 less 55 degrees, the pressure byte 3 in units
      of 1/64 bar, and the fixed fields are as emitted. */
  lemma FieldsMeasures(d: Payload)
    ensures var r := Fields(d);
      r.temperatureC == d.b2 as int - 55 && -55 <= r.temperatureC <= 200 &&
      r.pressureBar * 64.0 == d.b3 as real && 0.0 <= r.pressureBar < 4.0 &&
      r.model == "Careud" && r.kind == "TPMS" && r.mic == "CRC"
  {
  }

  /** The 16-bit id as a number. */
  lemma IdBytes(hi: byte, lo: byte)
    ensures IdWord(hi, lo) as nat == hi as int * 256 + lo as int
  {
    assert IdWord(hi, lo) == ((hi as bv16) << 8) | (lo as bv16);
    WordValue(hi, lo);
  }

  lemma WordValue(hi: byte, lo: byte)
    ensures ((((hi as bv16) << 8) | (lo as bv16)) as nat) == hi as int * 256 + lo as int
  {
  }

  /** The flag nibble as a number. */
  lemma FlagNibble(b: byte)
    ensures (b & 0x0f) as int == b as int % 16
  {
  }

  lemma BatteryBit(f: byte)
    requires f < 16
    ensures (f & 0x02 != 0) == (f as int / 2 % 2 == 1)
  {
  }

  lemma PressureLossBit(f: byte)
    requires f < 16
    ensures (f & 0x08 != 0) == (f as int / 8 == 1)
  {
  }

  /** Two bytes with the same value are equal. */
  lemma SameByte(a: byte, b: byte)
    requires a as int == b as int
    ensures a == b
  {
    assert a == b as int as byte;
  }

  /** The two bytes of a 16-bit number are determined by it. */
  lemma SameWord(a1: byte, a4: byte, b1: byte, b4: byte)
    requires a1 as int * 256 + a4 as int == b1 as int * 256 + b4 as int
    ensures a1 == b1 && a4 == b4
  {
    assert a1 as int == b1 as int && a4 as int == b4 as int;
    SameByte(a1, b1);
    SameByte(a4, b4);
  }

  /** Two records that agree field by field are equal. */
  lemma SameReading(r: Reading, s: Reading)
    requires r.model == s.model && r.kind == s.kind && r.id == s.id && r.flags == s.flags
    requires r.battery == s.battery && r.pressureBar == s.pressureBar
    requires r.pressureLoss == s.pressureLoss && r.temperatureC == s.temperatureC && r.mic == s.mic
    ensures r == s
  {
  }

  lemma SameNibble(a: byte, b: byte)
    requires a as int % 16 == b as int % 16
    ensures a & 0x0f == b & 0x0f
  {
    FlagNibble(a);
    FlagNibble(b);
    SameByte(a & 0x0f, b & 0x0f);
  }

  /** The record of a payload does not depend on the high nibble of byte 0. */
  lemma FieldsIgnoreHighNibble(d: Payload, e: Payload)
    requires d.b1 == e.b1 && d.b2 == e.b2 && d.b3 == e.b3 && d.b4 == e.b4
    requires d.b0 as int % 16 == e.b0 as int % 16
    ensures Fields(d) == Fields(e)
  {
    SameNibble(d.b0, e.b0);
    var rd, re := Fields(d), Fields(e);
    assert rd.id == re.id;
    assert rd.flags == re.flags;
    assert rd.battery == re.battery;
    assert rd.pressureLoss == re.pressureLoss;
    assert rd.pressureBar == re.pressureBar;
    assert rd.temperatureC == re.temperatureC;
    SameReading(rd, re);
  }

  lemma TemperatureDetermined(d: Payload, e: Payload)
    requires Fields(d) == Fields(e)
    ensures d.b2 as int == e.b2 as int
  {
    FieldsMeasures(d);
    FieldsMeasures(e);
    assert Fields(d).temperatureC == Fields(e).temperatureC;
  }

  lemma PressureDetermined(d: Payload, e: Payload)
    requires Fields(d) == Fields(e)
    ensures d.b3 as int == e.b3 as int
  {
    FieldsMeasures(d);
    FieldsMeasures(e);
    assert Fields(d).pressureBar == Fields(e).pressureBar;
  }

  lemma IdDetermined(d: Payload, e: Payload)
    requires Fields(d) == Fields(e)
    ensures d.b1 as int * 256 + d.b4 as int == e.b1 as int * 256 + e.b4 as int
  {
    FieldsId(d);
    FieldsId(e);
    assert Fields(d).id == Fields(e).id;
  }

  lemma FlagsDetermined(d: Payload, e: Payload)
    requires Fields(d) == Fields(e)
    ensures d.b0 as int % 16 == e.b0 as int % 16
  {
    FieldsFlags(d);
    FieldsFlags(e);
    assert Fields(d).flags == Fields(e).flags;
  }

  /** Equal records come from payloads that agree everywhere except perhaps in
      the high nibble of byte 0. */
  lemma FieldsDetermine(d: Payload, e: Payload)
    requires Fields(d) == Fields(e)
    ensures d.b1 == e.b1 && d.b2 == e.b2 && d.b3 == e.b3 && d.b4 == e.b4
    ensures d.b0 as int % 16 == e.b0 as int % 16
  {
    TemperatureDetermined(d, e);
    PressureDetermined(d, e);
    IdDetermined(d, e);
    FlagsDetermined(d, e);
    SameWord(d.b1, d.b4, e.b1, e.b4);
    SameByte(d.b2, e.b2);
    SameByte(d.b3, e.b3);
  }

  // ---------------------------------------------------------------------
  // One frame and one window

  const SyncWord: bv16 := 0x19cf

  /** The first two bytes of a frame read as a big-endian word. */
  function SyncOf(b: seq<byte>): bv16
    requires |b| >= 2
  {
    ((b[0] as bv16) << 8) | (b[1] as bv16)
  }

  /** The sync word is 0x19cf exactly when the first bytes are 19 and cf. */
  lemma SyncBytes(b: seq<byte>)
    requires |b| >= 2
    ensures SyncOf(b) == SyncWord <==> b[0] == 0x19 && b[1] == 0xcf
  {
  }

  /** The checks and the decoding of one 9-byte frame: sync, then the CRC over
      bytes 2..8, then descrambling and field extraction. */
  function FrameOutcome(b: seq<byte>): (o: Outcome)
    requires |b| == 9
  {
    if SyncOf(b) != SyncWord then FailSanity
    else if Crc.Crc16(b[2..9], 0x8005, 0x0000) != 0 then FailMic
    else Decoded(Fields(Descrambled(PayloadAt(b))))
  }

  /** The decode routine on a window of a row starting at raw bit start: up to
      72 Manchester bits, fewer of which is a sanity failure. */
  function WindowOutcome(row: Row, start: nat): (o: Outcome)
  {
    var bits := Manchester.Decode(row, start, 72);
    if |bits| < 72 then FailSanity else FrameOutcome(BitsToBytes(bits))
  }

  /** The checks and the decoding of tpms_careud_decode once it holds the
      nine bytes of a frame. It follows FrameOutcome step by step; what it
      adds is that the payload is descrambled by the in-place loops of
      Descramble rather than by the function Descrambled. */
  method DecodeFrame(b: seq<byte>) returns (o: Outcome)
    requires |b| == 9
    ensures o == FrameOutcome(b)
  {
    if SyncOf(b) != SyncWord {
      return FailSanity;
    }
    var crc := Crc.Crc16(b[2..9], 0x8005, 0x0000);
    if crc != 0 {
      return FailMic;
    }
    var d := Descramble(PayloadAt(b));
    o := Decoded(Fields(d));
  }

  /** tpms_careud_decode at bitpos of a row: WindowOutcome computed with the
      in-place descrambler of DecodeFrame. */
  method DecodeAt(row: Row, bitpos: nat) returns (o: Outcome)
    ensures o == WindowOutcome(row, bitpos)
  {
    var packet := Manchester.Decode(row, bitpos, 72);
    if |packet| < 72 {
      return FailSanity;
    }
    o := DecodeFrame(BitsToBytes(packet));
  }

  /** A frame with the wrong sync word is a sanity failure, and only then. */
  lemma SanityIff(b: seq<byte>)
    requires |b| == 9
    ensures FrameOutcome(b) == FailSanity <==> !(b[0] == 0x19 && b[1] == 0xcf)
  {
    SyncBytes(b);
  }

  /** A frame with the right sync word fails the check value exactly when the
      CRC over the seven transmitted bytes after it is not zero. */
  lemma MicIff(b: seq<byte>)
    requires |b| == 9
    ensures FrameOutcome(b) == FailMic <==>
      b[0] == 0x19 && b[1] == 0xcf && Crc.Crc16(b[2..9], 0x8005, 0) != 0
  {
    SyncBytes(b);
  }

  /** A frame is accepted exactly when its sync word is right and its
      transmitted bytes, still scrambled, have a zero CRC residue; its record
      is that of the descrambled payload. */
  lemma AcceptedIff(b: seq<byte>)
    requires |b| == 9
    ensures FrameOutcome(b).Decoded? <==>
      b[0] == 0x19 && b[1] == 0xcf && Crc.Crc16(b[2..9], 0x8005, 0) == 0
    ensures FrameOutcome(b).Decoded? ==> FrameOutcome(b).reading == Fields(Descrambled(PayloadAt(b)))
  {
    SyncBytes(b);
  }

  /** The frame a sensor sends for the descrambled payload d: the sync word,
      the scrambled payload and its CRC, big-endian. */
  function Frame(d: Payload): (b: seq<byte>)
    ensures |b| == 9
  {
    var x := Bytes(Scrambled(d));
    [0x19, 0xcf] + x + Crc.CrcBytes(Crc.Crc16(x, 0x8005, 0))
  }

  /** Every payload survives being framed and decoded. */
  lemma FrameRoundTrip(d: Payload)
    ensures FrameOutcome(Frame(d)) == Decoded(Fields(d))
  {
    var b := Frame(d);
    var x := Bytes(Scrambled(d));
    var c := Crc.CrcBytes(Crc.Crc16(x, 0x8005, 0));
    assert b[2..9] == x + c;
    SyncBytes(b);
    Crc.AppendedCrcResidue(x, 0x8005, 0);
    PayloadAtBytes([0x19, 0xcf], Scrambled(d), c);
    DescrambledScrambled(d);
  }

  /** A window without the 144 raw bits of a whole frame is a sanity failure
      (for this model's decoder, which never reads past the row end). */
  lemma ShortWindowFails(row: Row, start: nat)
    requires start + 144 > |row|
    ensures WindowOutcome(row, start) == FailSanity
  {
    Manchester.DecodeConsumes(row, start, 72);
  }

  /** The raw bits a sensor sends for payload d: its frame, Manchester coded. */
  function FrameSignal(d: Payload): (raw: Row)
    ensures |raw| == 144
  {
    Manchester.Encode(BytesToBits(Frame(d)))
  }

  /** A window holding the signal of a frame decodes to that frame's record. */
  lemma WindowRoundTrip(row: Row, start: nat, d: Payload)
    requires start + 144 <= |row| && row[start..start + 144] == FrameSignal(d)
    ensures WindowOutcome(row, start) == Decoded(Fields(d))
  {
    Manchester.DecodeEncoded(row, start, BytesToBits(Frame(d)));
    BytesBitsRoundTrip(Frame(d));
    FrameRoundTrip(d);
  }

  // ---------------------------------------------------------------------
  // The preamble scan

  /** The preamble bit pattern 55 55 a9, as searched for. */
  const Preamble: Row := [false, true, false, true, false, true, false, true,
                          false, true, false, true, false, true, false, true,
                          true, false, true, false, true, false, false, true]

  lemma PreambleLayout()
    ensures |Preamble| == 24
    ensures Preamble == ByteBits(0x55) + ByteBits(0x55) + ByteBits(0xa9)
  {
    var p: seq<byte> := [0x55, 0x55, 0xa9];
    assert p[1..][1..][1..] == [];
    assert BytesToBits(p[1..][1..]) == ByteBits(0xa9);
  }

  /** The preamble cannot match at two adjacent positions: its first two bits
      are 0 then 1. */
  lemma PreambleNoAdjacentMatch(row: Row, q: nat)
    requires MatchAt(row, q, Preamble)
    ensures !MatchAt(row, q + 1, Preamble)
  {
    PreambleLayout();
    assert row[q..q + 24][1] == row[q + 1];
    assert Preamble[0] != Preamble[1];
    if q + 25 <= |row| {
      assert row[q + 1..q + 25][0] == row[q + 1];
    }
  }

  /** The match positions the scan loop decodes at when it searches for
      pattern from from: each is the next match, taken while it leaves 80 bits
      to the row end; the cursor moves two bits past every attempt. A frame
      needs 160 bits from the match, so attempts with less always fail
      (LateAttemptFails). */
  function Attempts(row: Row, pattern: Row, from: nat): (ps: seq<nat>)
    decreases |row| - from
  {
    var q := Search(row, from, pattern);
    if q + 80 <= |row| then [q] + Attempts(row, pattern, q + 2) else []
  }

  /** Every attempt is at a match of the pattern at or after from that leaves
      80 bits to the row end, and each attempt lies at least 2 bits beyond the
      one before it. */
  lemma {:induction false} AttemptsSound(row: Row, pattern: Row, from: nat)
    ensures forall k :: 0 <= k < |Attempts(row, pattern, from)| ==>
      var p := Attempts(row, pattern, from)[k]; from <= p && MatchAt(row, p, pattern) && p + 80 <= |row|
    ensures forall k :: 0 < k < |Attempts(row, pattern, from)| ==>
      Attempts(row, pattern, from)[k - 1] + 2 <= Attempts(row, pattern, from)[k]
    decreases |row| - from
  {
    var q := Search(row, from, pattern);
    if q + 80 <= |row| {
      SearchFinds(row, from, pattern);
      AttemptsSound(row, pattern, q + 2);
      var rest := Attempts(row, pattern, q + 2);
      var ps := Attempts(row, pattern, from);
      assert ps == [q] + rest;
      forall k | 0 < k < |ps|
        ensures ps[k] == rest[k - 1]
      {
      }
    }
  }

  /** Every preamble match at or after from that leaves 80 bits to the row end
      is attempted: the scan misses none. */
  lemma {:induction false} AttemptsComplete(row: Row, from: nat, q: nat)
    requires from <= q && MatchAt(row, q, Preamble) && q + 80 <= |row|
    ensures q in Attempts(row, Preamble, from)
    decreases |row| - from
  {
    var s := Search(row, from, Preamble);
    SearchFirst(row, from, Preamble);
    SearchFinds(row, from, Preamble);
    assert s <= q;
    assert s + 80 <= |row|;
    if s < q {
      assert MatchAt(row, s, Preamble);
      PreambleNoAdjacentMatch(row, s);
      assert q != s + 1;
      AttemptsComplete(row, s + 2, q);
    }
  }

  /** The decode call the callback makes for the preamble match at p: the
      window starting 16 raw bits after the match. */
  function AtMatch(row: Row): (decode: nat -> Outcome)
  {
    (p: nat) => WindowOutcome(row, p + 16)
  }

  /** The outcome of every attempt, in order, for a decoder of match positions. */
  function Outcomes(decode: nat -> Outcome, ps: seq<nat>): (os: seq<Outcome>)
    ensures |os| == |ps|
  {
    seq(|ps|, k requires 0 <= k < |ps| => decode(ps[k]))
  }

  /** The outcome of the k-th attempt is that of its match position. */
  lemma OutcomesAt(decode: nat -> Outcome, ps: seq<nat>, k: nat)
    requires k < |ps|
    ensures Outcomes(decode, ps)[k] == decode(ps[k])
  {
  }

  /** The records of the successful outcomes among the first n, in order. */
  function SuccessesBefore(os: seq<Outcome>, n: nat): (rs: seq<Reading>)
    requires n <= |os|
    ensures |rs| <= n
  {
    if n == 0 then []
    else
      var init := SuccessesBefore(os, n - 1);
      if os[n - 1].Decoded? then init + [os[n - 1].reading] else init
  }

  /** The records of the successful outcomes, in order. */
  function Successes(os: seq<Outcome>): (rs: seq<Reading>)
    ensures |rs| <= |os|
  {
    SuccessesBefore(os, |os|)
  }

  /** Among the first n outcomes there are no successes exactly when none of
      them decoded a frame. */
  lemma {:induction false} SuccessesBeforeEmpty(os: seq<Outcome>, n: nat)
    requires n <= |os|
    ensures SuccessesBefore(os, n) == [] <==> forall k :: 0 <= k < n ==> !os[k].Decoded?
    decreases n
  {
    if n > 0 {
      SuccessesBeforeEmpty(os, n - 1);
    }
  }

  /** There are no successes exactly when no attempt decoded a frame. */
  lemma SuccessesEmpty(os: seq<Outcome>)
    ensures Successes(os) == [] <==> forall k :: 0 <= k < |os| ==> !os[k].Decoded?
  {
    SuccessesBeforeEmpty(os, |os|);
  }

  /** The record of every successful outcome among the first n is among their
      successes. */
  lemma {:induction false} SuccessBeforeIncluded(os: seq<Outcome>, n: nat, k: nat)
    requires k < n <= |os| && os[k].Decoded?
    ensures os[k].reading in SuccessesBefore(os, n)
    decreases n
  {
    if k < n - 1 {
      SuccessBeforeIncluded(os, n - 1, k);
    }
  }

  /** The record of every successful outcome is among the successes. */
  lemma SuccessIncluded(os: seq<Outcome>, k: nat)
    requires k < |os| && os[k].Decoded?
    ensures os[k].reading in Successes(os)
  {
    SuccessBeforeIncluded(os, |os|, k);
  }

  /** The code of the last outcome, or 0 when there is none. */
  function LastCode(os: seq<Outcome>): (c: int)
    ensures c == 0 <==> os == []
    ensures os != [] ==> c == Code(os[|os| - 1])
  {
    if os == [] then 0 else Code(os[|os| - 1])
  }

  /** The callback's return value for the outcomes of its attempts: the number
      of decoded frames if there is one, else the last attempt's code, else 0. */
  function CallbackResult(os: seq<Outcome>): (ret: int)
    ensures ret > 0 <==> Successes(os) != []
    ensures ret > 0 ==> ret == |Successes(os)|
    ensures ret == 0 <==> os == []
    ensures ret < 0 ==> ret == Code(os[|os| - 1]) && (ret == DecodeFailMic || ret == DecodeFailSanity)
  {
    var n := |Successes(os)|;
    if n > 0 then n else LastCode(os)
  }

  /** A match that leaves 80 bits is the next attempt. */
  lemma AttemptsStep(row: Row, pattern: Row, from: nat)
    requires Search(row, from, pattern) + 80 <= |row|
    ensures Attempts(row, pattern, from) == [Search(row, from, pattern)] + Attempts(row, pattern, Search(row, from, pattern) + 2)
  {
  }

  /** The outcomes of one more attempt. */
  lemma OutcomesAppend(decode: nat -> Outcome, ps: seq<nat>, p: nat)
    ensures Outcomes(decode, ps + [p]) == Outcomes(decode, ps) + [decode(p)]
  {
    assert forall k :: 0 <= k < |ps| ==> (ps + [p])[k] == ps[k];
  }

  /** Appending an outcome leaves the successes among the first n unchanged. */
  lemma {:induction false} SuccessesBeforeAppend(os: seq<Outcome>, o: Outcome, n: nat)
    requires n <= |os|
    ensures SuccessesBefore(os + [o], n) == SuccessesBefore(os, n)
    decreases n
  {
    if n > 0 {
      SuccessesBeforeAppend(os, o, n - 1);
      assert (os + [o])[n - 1] == os[n - 1];
    }
  }

  /** The successes after one more outcome. */
  lemma SuccessesAppend(os: seq<Outcome>, o: Outcome)
    ensures o.Decoded? ==> Successes(os + [o]) == Successes(os) + [o.reading]
    ensures !o.Decoded? ==> Successes(os + [o]) == Successes(os)
  {
    SuccessesBeforeAppend(os, o, |os|);
    assert (os + [o])[|os|] == o;
  }

  /** Concatenation is associative. Dafny knows this, but inside the scan
      proofs it does not find it unprompted, so they call this lemma. */
  lemma AppendAssoc<T>(a: seq<T>, b: seq<T>, c: seq<T>)
    ensures a + (b + c) == (a + b) + c
  {
  }

  /** The empty sequence is a unit of concatenation; called by the scan proofs
      for the same reason. */
  lemma AppendEmpty<T>(a: seq<T>)
    ensures a + [] == a && [] + a == a
  {
  }

  /** What the scan loop returns when it goes on searching from from with the
      counters events and ret and the records readings. */
  ghost function ScanFrom(row: Row, pattern: Row, decode: nat -> Outcome, from: nat, events: int, ret: int,
                          readings: seq<Reading>): (int, seq<Reading>)
    decreases |row| - from
  {
    var q := Search(row, from, pattern);
    if q + 80 <= |row| then
      var c := Code(decode(q));
      ScanFrom(row, pattern, decode, q + 2, if c > 0 then events + c else events, c,
               if c > 0 then readings + [decode(q).reading] else readings)
    else
      (if events > 0 then events else ret, readings)
  }

  /** Scanning on after the attempts done gives the result and the records of
      all the attempts, done followed by those from from. */
  lemma {:induction false} ScanFromAttempts(row: Row, pattern: Row, decode: nat -> Outcome, from: nat, done: seq<nat>)
    ensures ScanFrom(row, pattern, decode, from, |Successes(Outcomes(decode, done))|, LastCode(Outcomes(decode, done)),
                     Successes(Outcomes(decode, done))).0
      == CallbackResult(Outcomes(decode, done + Attempts(row, pattern, from)))
    ensures ScanFrom(row, pattern, decode, from, |Successes(Outcomes(decode, done))|, LastCode(Outcomes(decode, done)),
                     Successes(Outcomes(decode, done))).1
      == Successes(Outcomes(decode, done + Attempts(row, pattern, from)))
    decreases |row| - from
  {
    var q := Search(row, from, pattern);
    if q + 80 <= |row| {
      AttemptsStep(row, pattern, from);
      AppendAssoc(done, [q], Attempts(row, pattern, q + 2));
      OutcomesAppend(decode, done, q);
      SuccessesAppend(Outcomes(decode, done), decode(q));
      var os, os' := Outcomes(decode, done), Outcomes(decode, done + [q]);
      var c := Code(decode(q));
      assert LastCode(os') == c;
      assert (if c > 0 then Successes(os) + [decode(q).reading] else Successes(os)) == Successes(os');
      assert (if c > 0 then |Successes(os)| + c else |Successes(os)|) == |Successes(os')|;
      ScanFromAttempts(row, pattern, decode, q + 2, done + [q]);
    } else {
      AppendEmpty(done);
    }
  }

  /** decode gives, for every match position, the outcome of the decode
      routine on the window 16 raw bits later. */
  ghost predicate DecodesWindows(row: Row, decode: nat -> Outcome)
  {
    forall start: nat :: start >= 16 ==> decode(start - 16) == WindowOutcome(row, start)
  }

  /** AtMatch(row) is the decoder of match positions of the row. */
  lemma AtMatchDecodes(row: Row)
    ensures DecodesWindows(row, AtMatch(row))
  {
    forall start: nat | start >= 16
      ensures AtMatch(row)(start - 16) == WindowOutcome(row, start)
    {
    }
  }

  /** One decode attempt for the preamble match at p. */
  method AttemptAt(row: Row, ghost decode: nat -> Outcome, p: nat) returns (o: Outcome)
    requires DecodesWindows(row, decode)
    ensures o == decode(p)
  {
    o := DecodeAt(row, p + 16);
  }

  /** The callback's loop over row 0 of the inverted buffer: search for the
      pattern, decode 16 bits after each match that leaves 80 bits, count the
      frames decoded, and return that count, or the last code when there is
      none. The records are those the decode routine outputs. */
  method Scan(row: Row, pattern: Row, ghost decode: nat -> Outcome) returns (ret: int, readings: seq<Reading>)
    requires DecodesWindows(row, decode)
    ensures readings == Successes(Outcomes(decode, Attempts(row, pattern, 0)))
    ensures ret == CallbackResult(Outcomes(decode, Attempts(row, pattern, 0)))
  {
    var bitpos: nat := 0;
    ret := 0;
    var events := 0;
    readings := [];
    ghost var from: nat := 0;
    bitpos := Search(row, bitpos, pattern);
    while bitpos + 80 <= |row|
      invariant bitpos == Search(row, from, pattern)
      invariant ScanFrom(row, pattern, decode, from, events, ret, readings) == ScanFrom(row, pattern, decode, 0, 0, 0, [])
      decreases |row| - bitpos
    {
      var o := AttemptAt(row, decode, bitpos);
      ret := Code(o);
      if ret > 0 {
        events := events + ret;
        readings := readings + [o.reading];
      }
      bitpos := bitpos + 2;
      from := bitpos;
      bitpos := Search(row, bitpos, pattern);
    }
    ScanFromAttempts(row, pattern, decode, 0, []);
    AppendEmpty(Attempts(row, pattern, 0));
    ret := if events > 0 then events else ret;
  }

  /** The preamble's last byte is the Manchester code of the sync word's first
      four bits, so a frame's signal starts 16 bits into its preamble. */
  lemma PreambleOverlapsSync()
    ensures Preamble[16..24] == Manchester.Encode(ByteBits(0x19)[..4])
  {
    PreambleLayout();
    var h := ByteBits(0x19)[..4];
    assert h == [false, false, false, true];
    assert h[1..][1..][1..][1..] == [];
  }

  /** The raw row a sensor's transmission gives: the first two preamble bytes,
      then the frame signal, whose start completes the preamble. */
  function Transmission(d: Payload): (row: Row)
    ensures |row| == 160
  {
    Preamble[..16] + FrameSignal(d)
  }

  lemma EncodePrefix(bits: Row, n: nat)
    requires n <= |bits|
    ensures Manchester.Encode(bits)[..2 * n] == Manchester.Encode(bits[..n])
    decreases n
  {
    if n > 0 {
      assert bits[1..][..n - 1] == bits[..n][1..];
      EncodePrefix(bits[1..], n - 1);
    }
  }

  /** A transmission's preamble is found at the start of the row. */
  lemma TransmissionHasPreamble(d: Payload)
    ensures MatchAt(Transmission(d), 0, Preamble)
  {
    var bits := BytesToBits(Frame(d));
    assert bits[..8] == ByteBits(0x19);
    assert bits[..4] == ByteBits(0x19)[..4];
    EncodePrefix(bits, 4);
    PreambleOverlapsSync();
    var row := Transmission(d);
    assert row[16..24] == FrameSignal(d)[..8];
    assert row[..24] == Preamble[..16] + Preamble[16..24];
  }

  /** Wherever a preamble match leaves room for a whole frame signal 16 bits
      later, the scan reports that frame's record. */
  lemma FrameAfterPreambleReported(row: Row, q: nat, d: Payload)
    requires MatchAt(row, q, Preamble)
    requires q + 160 <= |row| && row[q + 16..q + 160] == FrameSignal(d)
    ensures Fields(d) in Successes(Outcomes(AtMatch(row), Attempts(row, Preamble, 0)))
    ensures CallbackResult(Outcomes(AtMatch(row), Attempts(row, Preamble, 0))) > 0
  {
    var ps := Attempts(row, Preamble, 0);
    AttemptsComplete(row, 0, q);
    var k :| 0 <= k < |ps| && ps[k] == q;
    OutcomesAt(AtMatch(row), ps, k);
    WindowRoundTrip(row, q + 16, d);
    SuccessIncluded(Outcomes(AtMatch(row), ps), k);
  }

  /** An attempt at a match with fewer than 160 bits to the row end cannot
      decode a frame: its window, 16 bits on, is shorter than the 144 raw
      bits of a frame signal. The 80-bit threshold of the loop lets such
      attempts through; they only overwrite the code the callback may return. */
  lemma LateAttemptFails(row: Row, p: nat)
    requires p + 160 > |row|
    ensures AtMatch(row)(p) == FailSanity
  {
    ShortWindowFails(row, p + 16);
  }

  /** When only the first outcome decoded a frame, the records among the first
      n outcomes are that frame's alone. */
  lemma {:induction false} SuccessesBeforeOnlyFirst(os: seq<Outcome>, n: nat)
    requires 1 <= n <= |os| && os[0].Decoded?
    requires forall k :: 1 <= k < |os| ==> !os[k].Decoded?
    ensures SuccessesBefore(os, n) == [os[0].reading]
    decreases n
  {
    if n > 1 {
      SuccessesBeforeOnlyFirst(os, n - 1);
    }
  }

  /** In a 160-bit row whose pattern match at bit 0 decodes to a record, that
      record is the only one, and the callback returns 1: every later attempt
      lies at least 2 bits in, too close to the row end to hold a frame. */
  lemma LoneFrameOutcomes(row: Row, pattern: Row, r: Reading)
    requires |row| == 160 && Search(row, 0, pattern) == 0
    requires AtMatch(row)(0) == Decoded(r)
    ensures Successes(Outcomes(AtMatch(row), Attempts(row, pattern, 0))) == [r]
    ensures CallbackResult(Outcomes(AtMatch(row), Attempts(row, pattern, 0))) == 1
  {
    AttemptsStep(row, pattern, 0);
    var rest := Attempts(row, pattern, 2);
    var ps := Attempts(row, pattern, 0);
    assert ps == [0] + rest;
    AttemptsSound(row, pattern, 2);
    var os := Outcomes(AtMatch(row), ps);
    assert os[0] == Decoded(r);
    forall k | 1 <= k < |os|
      ensures !os[k].Decoded?
    {
      assert ps[k] == rest[k - 1];
      LateAttemptFails(row, ps[k]);
    }
    SuccessesBeforeOnlyFirst(os, |os|);
  }

  /** A lone transmission decodes to exactly its own record, and the callback
      returns 1. */
  lemma TransmissionDecodes(d: Payload)
    ensures Successes(Outcomes(AtMatch(Transmission(d)), Attempts(Transmission(d), Preamble, 0))) == [Fields(d)]
    ensures CallbackResult(Outcomes(AtMatch(Transmission(d)), Attempts(Transmission(d), Preamble, 0))) == 1
  {
    var row := Transmission(d);
    TransmissionHasPreamble(d);
    assert Search(row, 0, Preamble) == 0;
    assert row[16..160] == FrameSignal(d);
    WindowRoundTrip(row, 16, d);
    assert AtMatch(row)(0) == Decoded(Fields(d));
    LoneFrameOutcomes(row, Preamble, Fields(d));
  }

  // ---------------------------------------------------------------------
  // The bit buffer and the callback

  /** The rows of the demodulated bit buffer, updated in place. */
  class BitBuffer {
    var rows: seq<Row>

    constructor(rows0: seq<Row>)
      ensures rows == rows0
    {
      rows := rows0;
    }

    /** bitbuffer_invert: every bit of every row negated. */
    method Invert()
      modifies this
      ensures |rows| == |old(rows)|
      ensures forall i :: 0 <= i < |rows| ==> rows[i] == Inverted(old(rows)[i])
    {
      rows := seq(|rows|, i requires 0 <= i < |rows| reads this => Inverted(rows[i]));
    }

    /** Row 0 as the callback reads it; an empty buffer has zero bits there. */
    function FirstRow(): (r: Row)
      reads this
      ensures |rows| > 0 ==> r == rows[0]
      ensures |rows| == 0 ==> r == []
    {
      if |rows| > 0 then rows[0] else []
    }
  }

  /** tpms_careud_callback: invert the buffer, then scan row 0. */
  method Callback(buf: BitBuffer) returns (ret: int, readings: seq<Reading>)
    modifies buf
    ensures |buf.rows| == |old(buf.rows)|
    ensures forall i :: 0 <= i < |buf.rows| ==> buf.rows[i] == Inverted(old(buf.rows)[i])
    ensures readings == Successes(Outcomes(AtMatch(buf.FirstRow()), Attempts(buf.FirstRow(), Preamble, 0)))
    ensures ret == CallbackResult(Outcomes(AtMatch(buf.FirstRow()), Attempts(buf.FirstRow(), Preamble, 0)))
  {
    buf.Invert();
    AtMatchDecodes(buf.FirstRow());
    ret, readings := Scan(buf.FirstRow(), Preamble, AtMatch(buf.FirstRow()));
  }

  // ---------------------------------------------------------------------
  // A worked example

  /** Payload 0a 12 6e 40 34 gives id "1234", flags 10 (battery OK, no
      pressure loss), 55 degrees and 1 bar. */
  lemma ExampleReading()
    ensures Fields(Payload(0x0a, 0x12, 0x6e, 0x40, 0x34))
      == Reading("Careud", "TPMS", "1234", 10, "OK", 1.0, "OK", 55, "CRC")
  {
    var r := Fields(Payload(0x0a, 0x12, 0x6e, 0x40, 0x34));
    Hex4OfParse("1234");
    assert ParseHex("1234") == 0x1234 by {
      ParseHex4("1234");
    }
  }
}
