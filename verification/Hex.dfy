/** Hexadecimal text: two lower-case digits a byte when written, either case when read. */
module Hex {
  import opened Digests
  import opened Wrappers

  const DIGITS := "0123456789abcdef"

  function DigitValue(c: char): (v: Option<nat>)
    ensures v.Some? ==> v.value < 16
  {
    if '0' <= c <= '9' then Some(c as int - '0' as int)
    else if 'a' <= c <= 'f' then Some(c as int - 'a' as int + 10)
    else if 'A' <= c <= 'F' then Some(c as int - 'A' as int + 10)
    else None
  }

  lemma {:induction false} DigitRoundTrip(n: nat)
    requires n < 16
    ensures DigitValue(DIGITS[n]) == Some(n)
  {
  }

  function ByteToHex(b: Byte): string {
    [DIGITS[b / 16], DIGITS[b % 16]]
  }

  function ToHex(bytes: Bytes): (text: string)
    ensures |text| == 2 * |bytes|
  {
    if bytes == [] then "" else ByteToHex(bytes[0]) + ToHex(bytes[1..])
  }

  /** Fails on an odd length and on anything but a hexadecimal digit. */
  function FromHex(text: string): Option<Bytes> {
    if |text| == 0 then Some([])
    else if |text| == 1 then None
    else
      match (DigitValue(text[0]), DigitValue(text[1]), FromHex(text[2..]))
      case (Some(hi), Some(lo), Some(rest)) => Some([16 * hi + lo] + rest)
      case _ => None
  }

  lemma {:induction false} ByteRoundTrip(b: Byte)
    ensures var text := ByteToHex(b);
            var (hi, lo) := (DigitValue(text[0]), DigitValue(text[1]));
            hi.Some? && lo.Some? && 16 * hi.value + lo.value == b
  {
    DigitRoundTrip(b / 16);
    DigitRoundTrip(b % 16);
  }

  lemma {:induction false} HexRoundTrip(bytes: Bytes)
    ensures FromHex(ToHex(bytes)) == Some(bytes)
  {
    if bytes != [] {
      var b, text := bytes[0], ToHex(bytes);
      ByteRoundTrip(b);
      HexRoundTrip(bytes[1..]);
      assert text[0] == ByteToHex(b)[0] && text[1] == ByteToHex(b)[1] && text[2..] == ToHex(bytes[1..]);
      assert [b] + bytes[1..] == bytes;
    }
  }

  lemma {:induction false} HexInjective(a: Bytes, b: Bytes)
    requires ToHex(a) == ToHex(b)
    ensures a == b
  {
    HexRoundTrip(a);
    HexRoundTrip(b);
  }
}
