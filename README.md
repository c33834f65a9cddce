# Careud TPMS decoder, modelled and verified in Dafny

This project models the Careud tyre-pressure sensor decoder of rtl_433
(`src/devices/tpms_careud.c`): the per-frame decode routine
`tpms_careud_decode` and the callback `tpms_careud_callback` that scans a
demodulated bit buffer for preambles.

How a transmission decodes:

- The callback inverts every row of the bit buffer.
- It searches row 0 for the 24-bit preamble `55 55 a9`.
- For each match that leaves 80 bits to the row end, it decodes the window
  that starts 16 bits after the match. Then it moves the cursor two bits past
  the match and searches again. A frame needs 16 + 144 bits from the
  match, so in this model an attempt with fewer than 160 bits left
  always fails the sanity test. Such an attempt can still replace the code the callback
  returns, for example a -3 by a -4.
- The decode routine Manchester-decodes 72 bits into nine bytes and checks:
  - the sync word `0x19cf` (failure: sanity error, -4);
  - that the CRC-16/BUYPASS (polynomial `0x8005`, initial value 0) of bytes 2..8 is zero (failure: check-value error, -3).
- It then descrambles the five payload bytes with two XOR passes and emits one record with these fields:
  - model and type;
  - a `%04x` id built from bytes 1 and 4;
  - the flag nibble, with battery and pressure-loss states;
  - pressure in 1/64 bar;
  - temperature, offset by 55 °C.
- The callback returns the number of decoded frames, or, when there is none, the code of the last attempt (0 if no attempt was made).

The modules follow the structure of the program:

| file | module | contents |
|---|---|---|
| `bitstream.dfy` | `Bitstream` | rows as `seq<bool>`, MSB-first byte packing, the preamble search, row inversion |
| `manchester.dfy` | `Manchester` | the Manchester decoder used on the window, and its encoder |
| `crc16.dfy` | `Crc` | rtl_433's bitwise CRC-16, the BUYPASS check value, the zero-residue property |
| `hexfmt.dfy` | `HexFormat` | the `%04x` conversion and a parser for it |
| `descrambler.dfy` | `Descrambler` | the payload, the two in-place XOR loops over a local array, their closed form and inverse |
| `tpms_careud.dfy` | `TpmsCareud` | field extraction, the frame checks, the decode routine, the scan loop, the bit buffer and the callback |

Imperative code is modelled as methods:
- the two descrambler loops, over a 5-byte `array`;
- the scan `while` loop;
- the in-place inversion of the buffer, a `class` with a `rows` field.

Each method is proved against a specification function. Expression-level code is modelled as functions: the sync test, the CRC check, field extraction and the per-attempt outcomes. Lemmas relate those functions to inverses or to independent statements of what the source promises.

## Model

| member | source | states |
|---|---|---|
| TpmsCareud.Code | src/devices/tpms_careud.c:67-126 | the decode routine's return value is positive exactly for a decoded frame, and then it is 1 |
| TpmsCareud.DecodeAt | src/devices/tpms_careud.c:65-70 | the decode routine at a bit position returns the outcome of the window specification: a sanity failure when fewer than 72 bits decode, otherwise the outcome of the nine-byte frame |
| TpmsCareud.DecodeFrame | src/devices/tpms_careud.c:72-126 | the checks and decoding of a nine-byte frame, in this order: sync test, CRC test, descrambling, fields |
| TpmsCareud.ShortWindowFails | src/devices/tpms_careud.c:65-69 | a window with fewer than 144 raw bits left in the row is always a sanity failure |
| TpmsCareud.SyncBytes | src/devices/tpms_careud.c:73 | the big-endian word of bytes 0 and 1 is 0x19cf exactly when they are 19 and cf |
| TpmsCareud.SanityIff | src/devices/tpms_careud.c:72-75 | a frame is a sanity failure if and only if its first two bytes are not 19 cf |
| TpmsCareud.MicIff | src/devices/tpms_careud.c:77-82 | a frame is a check-value failure if and only if its sync is right and the CRC of bytes 2..8 is not zero |
| TpmsCareud.AcceptedIff | src/devices/tpms_careud.c:72-126 | a frame is decoded if and only if its sync is right and the CRC of bytes 2..8 is zero; its record is the fields of the descrambled payload |
| TpmsCareud.FrameRoundTrip | src/devices/tpms_careud.c:72-126 | the frame a sensor would send for any descrambled payload (sync, scrambled payload, its CRC) decodes to that payload's record |
| TpmsCareud.WindowRoundTrip | src/devices/tpms_careud.c:65-126 | a window holding the Manchester signal of such a frame decodes to that payload's record |
| Crc.AppendedCrcResidue | src/devices/tpms_careud.c:78-79 | a message followed by its own CRC, big-endian, has CRC zero, for every polynomial and initial value |
| Crc.CrcAppend | src/devices/tpms_careud.c:78 | the CRC of a concatenation continues from the CRC of the first part |
| Crc.BuypassCheckValue | src/devices/tpms_careud.c:78 | with polynomial 0x8005 and initial value 0, the CRC of "123456789" is 0xFEE8, the catalogued CRC-16/BUYPASS check value |
| Descrambler.XorFirstIntoRest | src/devices/tpms_careud.c:88-90 | the first loop leaves byte 0 and XORs it into bytes 1..4 of the array, in place |
| Descrambler.XorLastIntoRest | src/devices/tpms_careud.c:91-93 | the second loop leaves byte 4 and XORs it into bytes 3..0 of the array, in place |
| Descrambler.Descramble | src/devices/tpms_careud.c:84-93 | copying the payload into the local buffer and running both loops gives the descrambled payload |
| Descrambler.DescrambledClosedForm | src/devices/tpms_careud.c:88-93 | descrambling XORs input byte 4 into bytes 1..3, replaces byte 0 by input byte 4, and makes byte 4 the XOR of input bytes 0 and 4 |
| Descrambler.ScrambledDescrambled | src/devices/tpms_careud.c:88-93 | scrambling undoes descrambling |
| Descrambler.DescrambledScrambled | src/devices/tpms_careud.c:88-93 | descrambling undoes scrambling, so the descrambler is a bijection on payloads |
| Descrambler.DescrambledInjective | src/devices/tpms_careud.c:88-93 | two payloads descramble to the same payload if and only if they are equal |
| Descrambler.DescramblerNotInvolution | src/devices/tpms_careud.c:88-93 | the descrambler is not its own inverse: applied twice to 01 00 00 00 00 it gives 01 01 01 01 01 |
| Descrambler.PayloadAtBytes | src/devices/tpms_careud.c:84 | the payload copied from offset 2 of a frame is the five bytes placed there |
| TpmsCareud.FieldsId | src/devices/tpms_careud.c:95-109 | the id is four lower-case hex digits whose value is byte 1 times 256 plus byte 4 |
| TpmsCareud.FieldsFlags | src/devices/tpms_careud.c:96-113 | the flags are the low nibble of byte 0; battery is "OK" exactly when flag bit 1 is set, else "LOW"; pressure loss is "OK" exactly when flag bit 3 is set, else "ALARM" |
| TpmsCareud.FieldsMeasures | src/devices/tpms_careud.c:97-121 | temperature is byte 2 minus 55, in -55..200; pressure times 64 is byte 3, in [0, 4) bar; model, type and mic are "Careud", "TPMS" and "CRC" |
| TpmsCareud.FieldsIgnoreHighNibble | src/devices/tpms_careud.c:95-98 | the record does not depend on the high nibble of payload byte 0 |
| TpmsCareud.FieldsDetermine | src/devices/tpms_careud.c:95-98 | equal records come from payloads equal in bytes 1..4 and in the low nibble of byte 0: nothing else is lost |
| TpmsCareud.ExampleReading | src/devices/tpms_careud.c:95-122 | the descrambled payload 0a 12 6e 40 34 gives id "1234", flags 10, battery "OK", 1.0 bar, pressure loss "OK", 55 °C |
| HexFormat.HexDigitsShape | src/devices/tpms_careud.c:99 | the conversion gives exactly the requested number of lower-case hex digits |
| HexFormat.Hex4Value | src/devices/tpms_careud.c:99 | "%04x" of a 16-bit number is four lower-case hex digits that read back as the number |
| HexFormat.Hex4OfParse | src/devices/tpms_careud.c:99 | every four-digit lower-case hex string is "%04x" of its value |
| HexFormat.Hex4Injective | src/devices/tpms_careud.c:99 | two ids print to the same string if and only if they are equal |
| Bitstream.BitsToBytesAt | src/devices/tpms_careud.c:70 | byte k of the decoded packet packs decoded bits 8k..8k+7, most significant first |
| Bitstream.BytesBitsRoundTrip | src/devices/tpms_careud.c:70 | reading back the bits of a byte string gives the byte string |
| Manchester.DecodeConsumes | src/devices/tpms_careud.c:65 | the raw bits the decoder consumes lie inside the row and are exactly the Manchester code of its output |
| Manchester.DecodeStops | src/devices/tpms_careud.c:65 | the decoder stops short of the requested count only at a pair that is not a valid Manchester pair |
| Manchester.DecodeEncoded | src/devices/tpms_careud.c:65 | a Manchester-coded bit string anywhere in a row decodes back to itself |
| Bitstream.InvertedTwice | src/devices/tpms_careud.c:139 | inverting a row twice gives the row back |
| TpmsCareud.BitBuffer.Invert | src/devices/tpms_careud.c:139 | every row of the buffer is replaced by its bitwise negation, and the number of rows is kept |
| Bitstream.SearchFinds | src/devices/tpms_careud.c:141 | a position the search returns inside the row is a match of the pattern |
| Bitstream.SearchFirst | src/devices/tpms_careud.c:141 | there is no match between the start position and the position the search returns |
| TpmsCareud.PreambleLayout | src/devices/tpms_careud.c:133 | the searched pattern is the 24 bits of 55 55 a9, most significant bit first |
| TpmsCareud.PreambleNoAdjacentMatch | src/devices/tpms_careud.c:141-147 | the preamble never matches at two adjacent positions, so moving the cursor by 2 past a match skips no match |
| TpmsCareud.AttemptsSound | src/devices/tpms_careud.c:141-147 | every decode attempt is at a match at or after the start that leaves 80 bits to the row end, and successive attempts are at least 2 bits apart |
| TpmsCareud.AttemptsComplete | src/devices/tpms_careud.c:141-147 | every preamble match that leaves 80 bits to the row end is attempted |
| TpmsCareud.PreambleOverlapsSync | src/devices/tpms_careud.c:141-144 | the last preamble byte is the Manchester code of the sync word's first four bits, which is why decoding starts 16 bits into the match |
| TpmsCareud.TransmissionHasPreamble | src/devices/tpms_careud.c:141 | a lone transmission (two preamble bytes, then the frame's signal) matches the preamble at bit 0 |
| TpmsCareud.AttemptAt | src/devices/tpms_careud.c:144 | one attempt decodes the window 16 bits after the match position |
| TpmsCareud.SuccessesEmpty | src/devices/tpms_careud.c:145-150 | no record is emitted exactly when no attempt decoded a frame |
| TpmsCareud.SuccessIncluded | src/devices/tpms_careud.c:144-146 | the record of every attempt that decoded a frame is emitted |
| TpmsCareud.CallbackResult | src/devices/tpms_careud.c:150 | the return value is positive exactly when a frame was decoded, and then it is the number of records; it is 0 exactly when nothing was attempted; a negative value is the last attempt's error code, -3 or -4 |
| TpmsCareud.ScanFromAttempts | src/devices/tpms_careud.c:141-150 | continuing the loop after some attempts gives the return value and the records of those attempts followed by the remaining ones |
| TpmsCareud.Scan | src/devices/tpms_careud.c:135-150 | the loop emits the records of the decoded attempts, in order, and returns the callback result of all attempts |
| TpmsCareud.Callback | src/devices/tpms_careud.c:130-151 | the callback inverts the buffer, then emits and returns what the scan of inverted row 0 gives |
| TpmsCareud.FrameAfterPreambleReported | src/devices/tpms_careud.c:141-148 | wherever a preamble match is followed, 16 bits later, by the whole signal of a frame, the callback emits that frame's record and returns a positive count |
| TpmsCareud.LateAttemptFails | src/devices/tpms_careud.c:141-144 | an attempt at a match with fewer than 160 bits to the row end is always a sanity failure, although the 80-bit threshold lets it run |
| TpmsCareud.LoneFrameOutcomes | src/devices/tpms_careud.c:135-150 | in a 160-bit row whose match at bit 0 decodes to a record, the callback emits exactly that record and returns 1 |
| TpmsCareud.TransmissionDecodes | src/devices/tpms_careud.c:130-151 | a lone transmission of any payload is reported with exactly that payload's record, and the callback returns 1 |

## Left out

- Output: the record is modelled as the `Reading` datatype. `data_make` and `decoder_output_data` (lines 106-125) are modelled by returning the records in order.
- Floating point: the pressure `(float)pressure / 64` (line 112) is the exact real `byte 3 / 64`. The `"%.2f BAR"` and `"%d C"` display formats are not modelled.
- Debug output: the `bitrow_printf` of a bad CRC (line 80) and the `TPMS_CAREUD_SHOW_RAW` blocks (lines 60-63, 100-103 and 115-120) are not modelled.
- Registration: the `r_device` registration and the `output_fields` list (lines 153-182) are not modelled.
- rtl_433 primitives: `bitbuffer_manchester_decode`, `bitbuffer_search`, `bitbuffer_invert` and `crc16` are not part of this model. Each is a specification function written from the behaviour the decoder relies on. The CRC is the usual MSB-first shift register with no reflection and no final XOR.
- Return codes: the values -3 (`DECODE_FAIL_MIC`) and -4 (`DECODE_FAIL_SANITY`) are taken from rtl_433's `decode_return_codes` in include/r_device.h, which is not part of this model. That enum reads `DECODE_FAIL_OTHER = 0` (legacy), `DECODE_ABORT_LENGTH = -1`, `DECODE_ABORT_EARLY = -2`, `DECODE_FAIL_MIC = -3`, `DECODE_FAIL_SANITY = -4`; the decoder returns only the last two.
- Bitstream.Search: a match must lie entirely inside the row. The C search may compare stale bits past the row end. This makes no difference to the callback, since such a match never leaves 80 bits.
- Manchester.Decode: a pair must lie entirely inside the row. The C decoder may read one stale bit at an odd row end. So with exactly 143 raw bits left in the window, the C decoder can still produce 72 bits when that stale bit completes the last pair; TpmsCareud.ShortWindowFails and TpmsCareud.LateAttemptFails hold for the model's decoder only.
- The bit buffer: it is a sequence of unbounded rows, not fixed `bitbuffer_t` arrays with `bits_per_row`. Only row 0 is scanned, as in the source. An empty buffer has an empty row 0.
- Arithmetic: the `unsigned` cursor arithmetic `bitpos + 80` (line 141) is unbounded. Real rows are far below the 32-bit range.
- Crc.AppendedCrcResidue: it proves that every well-formed frame passes the CRC test. It does not prove which corruptions the CRC detects.
- TpmsCareud.FieldsFlags: follows the code, not the header comment.
  - Lines 32-34 name bit 3 the deflation alarm and bit 1 the battery-low alarm.
  - Lines 111 and 113 report "OK" when those bits are set.
- TpmsCareud.Preamble: follows line 133, not the header comment. Line 41 gives the preamble as 55 55 55 a9. The model searches for the three bytes 55 55 a9 that line 133 uses.
