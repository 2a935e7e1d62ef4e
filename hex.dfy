/**
 * The hexadecimal text of a digest, as `hash` builds it: for every byte,
 * `Integer.toString((b & 0xff) + 0x100, 16).substring(1)`.
 */
module Hex {
  import opened Bytes

  /** Java's lower-case digit for a value below 16. */
  function HexDigit(d: nat): (c: char)
    requires d < 16
    ensures IsLowerHexDigit(c)
  {
    if d < 10 then ('0' as int + d) as char else ('a' as int + d - 10) as char
  }

  predicate IsLowerHexDigit(c: char)
  {
    '0' <= c <= '9' || 'a' <= c <= 'f'
  }

  /** The value of a lower-case hexadecimal digit. */
  function DigitValue(c: char): (d: nat)
    requires IsLowerHexDigit(c)
    ensures d < 16
  {
    if c <= '9' then c as int - '0' as int else c as int - 'a' as int + 10
  }

  /** `Integer.toString(v, 16)` for a non-negative `v`. */
  function ToStringRadix16(v: nat): (r: string)
    ensures |r| >= 1 && (r[0] == '0' ==> v == 0)
    ensures forall i :: 0 <= i < |r| ==> IsLowerHexDigit(r[i])
    ensures DigitsValue(r) == v
  {
    if v < 16 then
      assert DigitsValue([HexDigit(v)]) == DigitsValue([]) * 16 + DigitValue(HexDigit(v));
      [HexDigit(v)]
    else
      var high := ToStringRadix16(v / 16);
      assert (high + [HexDigit(v % 16)])[..|high|] == high;
      high + [HexDigit(v % 16)]
  }

  /** The number a string of lower-case hexadecimal digits denotes, most significant digit first. */
  function DigitsValue(text: string): nat
    requires forall i :: 0 <= i < |text| ==> IsLowerHexDigit(text[i])
  {
    if text == [] then 0 else DigitsValue(text[..|text| - 1]) * 16 + DigitValue(text[|text| - 1])
  }

  /** The two-character text the loop appends for one digest byte: the digits of its unsigned value. */
  function ByteText(b: int8): (r: string)
    ensures |r| == 2 && IsLowerHexDigit(r[0]) && IsLowerHexDigit(r[1])
    ensures 16 * DigitValue(r[0]) + DigitValue(r[1]) == Unsigned(b)
  {
    var u := Unsigned(b);
    RadixThreeDigits(u + 0x100);
    DigitPair(u);
    ToStringRadix16(u + 0x100)[1..]
  }

  /** Reference definition: every byte as two lower-case digits, high half first, leading zero kept. */
  function HexString(bytes: seq<int8>): string
  {
    if bytes == [] then []
    else
      var u := Unsigned(bytes[|bytes| - 1]);
      HexString(bytes[..|bytes| - 1]) + [HexDigit(u / 16), HexDigit(u % 16)]
  }

  /** Reads two digits per byte, from the back; the inverse of HexString (a lone leading digit is ignored). */
  function ParseHex(text: string): seq<nat>
    requires forall i :: 0 <= i < |text| ==> IsLowerHexDigit(text[i])
  {
    if |text| < 2 then []
    else
      ParseHex(text[..|text| - 2])
        + [16 * DigitValue(text[|text| - 2]) + DigitValue(text[|text| - 1])]
  }

  function UnsignedAll(bytes: seq<int8>): (r: seq<nat>)
    ensures |r| == |bytes|
  {
    seq(|bytes|, i requires 0 <= i < |bytes| => Unsigned(bytes[i]))
  }

  /**
   * `(b & 0xff) + 0x100` has three hexadecimal digits, the first being 1, so
   * dropping it leaves exactly two digits, a leading zero included.
   */
  lemma ByteTextDigits(b: int8)
    ensures ByteText(b) == [HexDigit(Unsigned(b) / 16), HexDigit(Unsigned(b) % 16)]
  {
  }

  /** A value from 0x100 to 0x1ff is written as `1` and the two digits of its low byte. */
  lemma RadixThreeDigits(v: nat)
    requires 0x100 <= v < 0x200
    ensures ToStringRadix16(v) == [HexDigit(1), HexDigit((v - 0x100) / 16), HexDigit(v % 16)]
  {
    assert v / 16 >= 16 && v / 16 / 16 == 1 && (v / 16) % 16 == (v - 0x100) / 16;
    assert ToStringRadix16(v / 16) == [HexDigit(1), HexDigit((v - 0x100) / 16)];
  }

  /** Two characters per byte, all of them lower-case hexadecimal digits. */
  lemma {:induction false} HexStringShape(bytes: seq<int8>)
    ensures |HexString(bytes)| == 2 * |bytes| && |HexString(bytes)| % 2 == 0
    ensures forall i :: 0 <= i < |HexString(bytes)| ==> IsLowerHexDigit(HexString(bytes)[i])
  {
    if bytes != [] {
      HexStringShape(bytes[..|bytes| - 1]);
    }
  }

  /** Reading the text back gives every byte's unsigned value: no information is lost. */
  lemma {:induction false} HexRoundTrip(bytes: seq<int8>)
    ensures |HexString(bytes)| % 2 == 0
    ensures forall i :: 0 <= i < |HexString(bytes)| ==> IsLowerHexDigit(HexString(bytes)[i])
    ensures ParseHex(HexString(bytes)) == UnsignedAll(bytes)
  {
    HexStringShape(bytes);
    if bytes != [] {
      var init := bytes[..|bytes| - 1];
      var u := Unsigned(bytes[|bytes| - 1]);
      var hi, lo := HexDigit(u / 16), HexDigit(u % 16);
      HexRoundTrip(init);
      assert HexString(bytes) == HexString(init) + [hi, lo];
      ParseLastPair(HexString(init), hi, lo);
      DigitPair(u);
      assert UnsignedAll(bytes) == UnsignedAll(init) + [u];
    }
  }

  /** Appending two digits appends the byte they spell. */
  lemma ParseLastPair(prefix: string, hi: char, lo: char)
    requires forall i :: 0 <= i < |prefix| ==> IsLowerHexDigit(prefix[i])
    requires IsLowerHexDigit(hi) && IsLowerHexDigit(lo)
    ensures forall i :: 0 <= i < |prefix + [hi, lo]| ==> IsLowerHexDigit((prefix + [hi, lo])[i])
    ensures ParseHex(prefix + [hi, lo]) == ParseHex(prefix) + [16 * DigitValue(hi) + DigitValue(lo)]
  {
    var text := prefix + [hi, lo];
    assert text[..|text| - 2] == prefix;
  }

  /** The two digits of a byte value spell it back. */
  lemma DigitPair(u: nat)
    requires u < 256
    ensures 16 * DigitValue(HexDigit(u / 16)) + DigitValue(HexDigit(u % 16)) == u
  {
  }
}
