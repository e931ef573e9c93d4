/** Hexadecimal colour codes: the `#rrggbb` form that `rgb_to_hex` produces,
    and a decoder for that form that serves as its inverse. */
module Hex {

  datatype Option<T> = None | Some(value: T)

  /** One 8-bit colour channel. */
  type Channel = x: int | 0 <= x < 256

  /** An RGB triple, channels in the order red, green, blue. */
  datatype Rgb = Rgb(r: Channel, g: Channel, b: Channel)

  predicate IsLowerHexDigit(c: char) {
    '0' <= c <= '9' || 'a' <= c <= 'f'
  }

  /** The value of a lower-case hexadecimal digit. */
  function DigitValue(c: char): (d: int)
    requires IsLowerHexDigit(c)
    ensures 0 <= d < 16
  {
    if c <= '9' then c as int - '0' as int else c as int - 'a' as int + 10
  }

  /** The lower-case hexadecimal digit for a value below 16 (what `%x` prints). */
  function HexDigit(d: int): (c: char)
    requires 0 <= d < 16
    ensures IsLowerHexDigit(c) && DigitValue(c) == d
  {
    if d < 10 then ('0' as int + d) as char else ('a' as int + d - 10) as char
  }

  /** The two digits `%02x` prints for a channel: zero-padded, high digit first. */
  function TwoDigits(v: Channel): (s: string)
    ensures |s| == 2 && IsLowerHexDigit(s[0]) && IsLowerHexDigit(s[1])
    ensures DigitValue(s[0]) * 16 + DigitValue(s[1]) == v
  {
    [HexDigit(v / 16), HexDigit(v % 16)]
  }

  /** `rgb_to_hex`: `'#%02x%02x%02x' % rgb`. */
  function RgbToHex(c: Rgb): (s: string)
    ensures |s| == 7 && s[0] == '#'
    ensures forall i :: 1 <= i < 7 ==> IsLowerHexDigit(s[i])
    ensures DigitValue(s[1]) * 16 + DigitValue(s[2]) == c.r
    ensures DigitValue(s[3]) * 16 + DigitValue(s[4]) == c.g
    ensures DigitValue(s[5]) * 16 + DigitValue(s[6]) == c.b
  {
    "#" + TwoDigits(c.r) + TwoDigits(c.g) + TwoDigits(c.b)
  }

  /** Reads a `#rrggbb` code with lower-case digits back into its triple;
      anything else is rejected. */
  function ParseHex(s: string): (o: Option<Rgb>)
    ensures o.Some? <==> |s| == 7 && s[0] == '#' && forall i :: 1 <= i < 7 ==> IsLowerHexDigit(s[i])
  {
    if |s| == 7 && s[0] == '#' && forall i :: 1 <= i < 7 ==> IsLowerHexDigit(s[i]) then
      Some(Rgb(DigitValue(s[1]) * 16 + DigitValue(s[2]),
               DigitValue(s[3]) * 16 + DigitValue(s[4]),
               DigitValue(s[5]) * 16 + DigitValue(s[6])))
    else
      None
  }

  /** Decoding an encoded triple gives the triple back. */
  lemma ParseRgbToHex(c: Rgb)
    ensures ParseHex(RgbToHex(c)) == Some(c)
  {
  }

  lemma TwoDigitsOfValue(x: char, y: char)
    requires IsLowerHexDigit(x) && IsLowerHexDigit(y)
    ensures 0 <= DigitValue(x) * 16 + DigitValue(y) < 256
    ensures TwoDigits(DigitValue(x) * 16 + DigitValue(y)) == [x, y]
  {
  }

  /** Every well-formed lower-case code is the encoding of what it decodes to,
      so `RgbToHex` is onto the codes `ParseHex` accepts. */
  lemma RgbToHexOfParse(s: string)
    requires ParseHex(s).Some?
    ensures RgbToHex(ParseHex(s).value) == s
  {
    var c := ParseHex(s).value;
    TwoDigitsOfValue(s[1], s[2]);
    TwoDigitsOfValue(s[3], s[4]);
    TwoDigitsOfValue(s[5], s[6]);
    var red, green, blue := TwoDigits(c.r), TwoDigits(c.g), TwoDigits(c.b);
    assert red == s[1..3] && green == s[3..5] && blue == s[5..7];
    assert s == s[..1] + s[1..3] + s[3..5] + s[5..7];
  }

  /** Distinct triples get distinct codes. */
  lemma RgbToHexInjective(c: Rgb, d: Rgb)
    requires RgbToHex(c) == RgbToHex(d)
    ensures c == d
  {
  }
}
