/** The "%04x" conversion the decoder uses for the sensor id: four
    lower-case hexadecimal digits, zero padded, most significant first. */
module HexFormat {

  predicate IsLowerHex(c: char)
  {
    '0' <= c <= '9' || 'a' <= c <= 'f'
  }

  /** The lower-case hexadecimal digit of a value below 16. */
  function Digit(v: nat): (c: char)
    requires v < 16
    ensures IsLowerHex(c)
  {
    if v < 10 then '0' + v as char else 'a' + (v - 10) as char
  }

  /** The value of one lower-case hexadecimal digit. */
  function DigitValue(c: char): (v: nat)
    requires IsLowerHex(c)
    ensures v < 16 && Digit(v) == c
  {
    if c <= '9' then (c - '0') as nat else (c - 'a') as nat + 10
  }

  /** A string of lower-case hexadecimal digits read as a number. */
  function ParseHex(s: string): nat
    requires forall i :: 0 <= i < |s| ==> IsLowerHex(s[i])
  {
    if s == [] then 0 else ParseHex(s[..|s| - 1]) * 16 + DigitValue(s[|s| - 1])
  }

  /** The digits of a value below 16 read back as that value. */
  lemma DigitRoundTrip(v: nat)
    requires v < 16
    ensures DigitValue(Digit(v)) == v
  {
  }

  /** A four-digit string read digit by digit. */
  lemma ParseHex4(s: string)
    requires |s| == 4
    requires forall i :: 0 <= i < 4 ==> IsLowerHex(s[i])
    ensures ParseHex(s) == ((DigitValue(s[0]) * 16 + DigitValue(s[1])) * 16 + DigitValue(s[2])) * 16 + DigitValue(s[3])
  {
    var s3 := s[..3];
    var s2 := s3[..2];
    var s1 := s2[..1];
    assert s1[..0] == [];
    assert s3[2] == s[2] && s2[1] == s[1] && s1[0] == s[0];
    assert ParseHex(s1) == DigitValue(s[0]);
    assert ParseHex(s2) == ParseHex(s1) * 16 + DigitValue(s[1]);
    assert ParseHex(s3) == ParseHex(s2) * 16 + DigitValue(s[2]);
  }

  /** Division by 16 splits off the last hexadecimal digit. */
  lemma DivMod16(n: nat, q: nat, r: nat)
    requires r < 16 && n == q * 16 + r
    ensures n / 16 == q && n % 16 == r
  {
  }

  /** The last width lower-case hexadecimal digits of n, zero padded, most
      significant first. */
  function HexDigits(n: nat, width: nat): string
    decreases width
  {
    if width == 0 then [] else HexDigits(n / 16, width - 1) + [Digit(n % 16)]
  }

  /** "%04x" of a value below 0x10000. */
  function Hex4(n: nat): string
    requires n < 0x10000
  {
    HexDigits(n, 4)
  }

  /** Every digit string has its width and only lower-case digits. */
  lemma {:induction false} HexDigitsShape(n: nat, width: nat)
    ensures |HexDigits(n, width)| == width
    ensures forall i :: 0 <= i < width ==> IsLowerHex(HexDigits(n, width)[i])
    decreases width
  {
    if width > 0 {
      HexDigitsShape(n / 16, width - 1);
      var s := HexDigits(n, width);
      assert s == HexDigits(n / 16, width - 1) + [Digit(n % 16)];
    }
  }

  /** The four digits of "%04x", one by one. */
  lemma Hex4Unrolled(n: nat)
    requires n < 0x10000
    ensures Hex4(n) == [Digit(n / 4096), Digit(n / 256 % 16), Digit(n / 16 % 16), Digit(n % 16)]
  {
    var n1 := n / 16;
    var n2 := n1 / 16;
    var n3 := n2 / 16;
    assert n2 == n / 256 && n3 == n / 4096 && n3 < 16;
    assert HexDigits(n3 / 16, 0) == [];
    assert HexDigits(n3, 1) == [Digit(n3 % 16)];
    assert HexDigits(n2, 2) == [Digit(n3 % 16), Digit(n2 % 16)];
    assert HexDigits(n1, 3) == [Digit(n3 % 16), Digit(n2 % 16), Digit(n1 % 16)];
  }

  /** "%04x" of a value below 0x10000: four lower-case digits that read back as n. */
  lemma Hex4Value(n: nat)
    requires n < 0x10000
    ensures |Hex4(n)| == 4 && (forall i :: 0 <= i < 4 ==> IsLowerHex(Hex4(n)[i]))
    ensures ParseHex(Hex4(n)) == n
  {
    Hex4Unrolled(n);
    var s := Hex4(n);
    DigitRoundTrip(n / 4096);
    DigitRoundTrip(n / 256 % 16);
    DigitRoundTrip(n / 16 % 16);
    DigitRoundTrip(n % 16);
    ParseHex4(s);
    Recompose(n);
  }

  /** A value below 0x10000 is recomposed from its four hexadecimal digits,
      most significant first. */
  lemma Recompose(n: nat)
    requires n < 0x10000
    ensures ((n / 4096 * 16 + n / 256 % 16) * 16 + n / 16 % 16) * 16 + n % 16 == n
  {
    var n1 := n / 16;
    var n2 := n1 / 16;
    var n3 := n2 / 16;
    assert n2 == n / 256 && n3 == n / 4096;
    assert n == n1 * 16 + n % 16;
    assert n1 == n2 * 16 + n1 % 16;
    assert n2 == n3 * 16 + n2 % 16;
  }

  /** Every four-digit lower-case hexadecimal string is the "%04x" form of its value. */
  lemma Hex4OfParse(s: string)
    requires |s| == 4
    requires forall i :: 0 <= i < 4 ==> IsLowerHex(s[i])
    ensures ParseHex(s) < 0x10000 && Hex4(ParseHex(s)) == s
  {
    var d0, d1, d2, d3 := DigitValue(s[0]), DigitValue(s[1]), DigitValue(s[2]), DigitValue(s[3]);
    ParseHex4(s);
    var n := ParseHex(s);
    Decompose(d0, d1, d2, d3);
    Hex4Unrolled(n);
    var t := Hex4(n);
    assert t[0] == s[0] && t[1] == s[1] && t[2] == s[2] && t[3] == s[3];
  }

  /** Four hexadecimal digits make a value below 0x10000 whose digits they are. */
  lemma Decompose(d0: nat, d1: nat, d2: nat, d3: nat)
    requires d0 < 16 && d1 < 16 && d2 < 16 && d3 < 16
    ensures var n := ((d0 * 16 + d1) * 16 + d2) * 16 + d3;
      n < 0x10000 && n / 4096 == d0 && n / 256 % 16 == d1 && n / 16 % 16 == d2 && n % 16 == d3
  {
    var n2 := d0 * 16 + d1;
    var n1 := n2 * 16 + d2;
    var n := n1 * 16 + d3;
    DivMod16(n, n1, d3);
    DivMod16(n1, n2, d2);
    DivMod16(n2, d0, d1);
    assert n / 256 == n2 && n / 4096 == d0;
  }

  /** Distinct ids get distinct strings. */
  lemma Hex4Injective(m: nat, n: nat)
    requires m < 0x10000 && n < 0x10000
    ensures Hex4(m) == Hex4(n) <==> m == n
  {
    Hex4Value(m);
    Hex4Value(n);
  }
}
