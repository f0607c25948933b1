/** The conversions that ColorLib/ColorValue.cs and ColorLib/ColorDetail.cs
    share word for word: the constructor's range check, the mapping between
    channel fractions and bytes, the `#rrggbb` formatting and the parsing of
    a hex color string into three bytes. */
module ColorCodec {
  import opened Wrappers

  /** The C# `byte`. */
  type Byte = b: int | 0 <= b < 256

  /** The exceptions thrown by the color library. */
  datatype Error =
    | OutOfRange(param: string)        // ArgumentOutOfRangeException naming the channel
    | UnsupportedFormat(input: string) // ArgumentException: wrong length after the optional '#'
    | BadHexDigits(pair: string)       // FormatException from parsing a two-digit pair
    | MissingHue                       // ArgumentException: saturation is not 0 but hue is null

  /** A channel fraction accepted by the constructors. */
  predicate InRange(x: real) {
    0.0 <= x <= 1.0
  }

  /** The constructor's range check: r first, then g, then b. */
  function CheckChannels(r: real, g: real, b: real): (e: Option<Error>)
    ensures e.None? <==> InRange(r) && InRange(g) && InRange(b)
    ensures e == Some(OutOfRange("r")) <==> !InRange(r)
    ensures e == Some(OutOfRange("g")) <==> InRange(r) && !InRange(g)
    ensures e == Some(OutOfRange("b")) <==> InRange(r) && InRange(g) && !InRange(b)
  {
    if r < 0.0 || r > 1.0 then Some(OutOfRange("r"))
    else if g < 0.0 || g > 1.0 then Some(OutOfRange("g"))
    else if b < 0.0 || b > 1.0 then Some(OutOfRange("b"))
    else None
  }

  // ---------------------------------------------------------------------
  // Fractions and bytes

  /** `(int)Math.Truncate(x)`: rounds toward zero. */
  function Truncate(x: real): (i: int)
    ensures 0.0 <= x ==> 0 <= i && i as real <= x < i as real + 1.0
    ensures x < 0.0 ==> i <= 0 && i as real - 1.0 < x <= i as real
  {
    if x >= 0.0 then x.Floor else -((-x).Floor)
  }

  /** Maps [0,1] onto 0..255 in 256 buckets of equal width; 1.0 lands in
      bucket 256, which is clamped to 255, as is everything above it, and
      everything below 0 becomes 0. */
  function FractionToByte(d: real): (b: Byte)
    ensures d * 256.0 < 1.0 ==> b == 0
    ensures 255.0 <= d * 256.0 ==> b == 255
    ensures 0.0 <= d * 256.0 < 256.0 ==> b as real <= d * 256.0 < b as real + 1.0
  {
    var i := Truncate(d * 256.0);
    if i < 0 then 0 else if i > 255 then 255 else i
  }

  /** The fraction b/255. */
  function ByteToFraction(b: Byte): (d: real)
    ensures InRange(d)
    ensures d * 255.0 == b as real
  {
    (b as real) / 255.0
  }

  /** A larger fraction never gives a smaller byte. */
  lemma FractionToByteMonotone(d1: real, d2: real)
    requires d1 <= d2
    ensures FractionToByte(d1) <= FractionToByte(d2)
  {
    assert d1 * 256.0 <= d2 * 256.0;
  }

  /** The two conversions are pseudo-inverses from the byte's side: b/255
      lies in bucket b (the bucket 256 of b = 255 is clamped back). */
  lemma ByteRoundTrip(b: Byte)
    ensures FractionToByte(ByteToFraction(b)) == b
  {
    var d := ByteToFraction(b);
    assert d * 256.0 == b as real + d;
    if b < 255 {
      assert d < 1.0;
    }
  }

  // ---------------------------------------------------------------------
  // Hex digits

  /** The digits `NumberStyles.HexNumber` accepts: 0-9, a-f and A-F. */
  predicate IsHexDigit(c: char) {
    '0' <= c <= '9' || 'a' <= c <= 'f' || 'A' <= c <= 'F'
  }

  predicate IsLowerHexDigit(c: char) {
    '0' <= c <= '9' || 'a' <= c <= 'f'
  }

  /** The value of a hex digit, either case. */
  function HexValue(c: char): (v: int)
    requires IsHexDigit(c)
    ensures 0 <= v < 16
  {
    if c <= '9' then c as int - '0' as int
    else if c <= 'F' then c as int - 'A' as int + 10
    else c as int - 'a' as int + 10
  }

  /** The hex digits are exactly the 22 characters of the digit table. */
  lemma HexDigitSet(c: char)
    ensures IsHexDigit(c) <==> c in "0123456789abcdefABCDEF"
  {
  }

  /** A digit's value indexes its lowercase form in the digit table. */
  lemma HexValueOfDigit(c: char)
    requires IsHexDigit(c)
    ensures "0123456789abcdef"[HexValue(c)] == LowerHex(c)
  {
  }

  /** The lowercase digit of a value below 16 (format specifier `x`). */
  function LowerDigit(v: int): (c: char)
    requires 0 <= v < 16
    ensures IsLowerHexDigit(c) && HexValue(c) == v
  {
    if v < 10 then ('0' as int + v) as char else ('a' as int + v - 10) as char
  }

  /** Lowercases 'A'..'F' and leaves every other character alone. */
  function LowerHex(c: char): (l: char)
    ensures IsHexDigit(c) ==> IsLowerHexDigit(l) && HexValue(l) == HexValue(c)
    ensures IsLowerHexDigit(c) ==> l == c
  {
    if 'A' <= c <= 'F' then (c as int - 'A' as int + 'a' as int) as char else c
  }

  function LowerHexString(s: string): (t: string)
    ensures |t| == |s|
    ensures forall i :: 0 <= i < |s| ==> t[i] == LowerHex(s[i])
  {
    seq(|s|, i requires 0 <= i < |s| => LowerHex(s[i]))
  }

  /** The digit for value v is the lowercase form of every digit with value v. */
  lemma LowerDigitOfValue(c: char)
    requires IsHexDigit(c)
    ensures LowerDigit(HexValue(c)) == LowerHex(c)
  {
  }

  /** `b.ToString("x2")`: two lowercase digits, high nibble first. */
  function ByteToHex(b: Byte): (s: string)
    ensures |s| == 2 && IsLowerHexDigit(s[0]) && IsLowerHexDigit(s[1])
    ensures 16 * HexValue(s[0]) + HexValue(s[1]) == b
  {
    [LowerDigit(b / 16), LowerDigit(b % 16)]
  }

  /** `Byte.Parse(pair, NumberStyles.HexNumber)` on a two-character pair:
      case-insensitive, and any other character is a format error. */
  function ParseHexByte(pair: string): (r: Result<Byte, Error>)
    requires |pair| == 2
    ensures r.Ok? <==> IsHexDigit(pair[0]) && IsHexDigit(pair[1])
    ensures r.Err? ==> r.error == BadHexDigits(pair)
    ensures r.Ok? ==> ByteToHex(r.value) == LowerHexString(pair)
  {
    if IsHexDigit(pair[0]) && IsHexDigit(pair[1]) then
      var v := 16 * HexValue(pair[0]) + HexValue(pair[1]);
      LowerDigitOfValue(pair[0]);
      LowerDigitOfValue(pair[1]);
      assert v / 16 == HexValue(pair[0]) && v % 16 == HexValue(pair[1]);
      Ok(v)
    else
      Err(BadHexDigits(pair))
  }

  /** Formatting a byte and parsing it back gives the byte. */
  lemma ByteHexRoundTrip(b: Byte)
    ensures ParseHexByte(ByteToHex(b)) == Ok(b)
  {
    var s := ByteToHex(b);
    assert LowerHexString(s) == s;
  }

  // ---------------------------------------------------------------------
  // Hex color strings

  /** `ToHexString`: `#` and two lowercase digits per channel, red first,
      from the bytes FractionToByte gives. */
  function ToHexString(r: real, g: real, b: real): (s: string)
    ensures |s| == 7 && s[0] == '#'
    ensures forall i :: 1 <= i < 7 ==> IsLowerHexDigit(s[i])
    ensures ParseHexByte(s[1..3]) == Ok(FractionToByte(r))
    ensures ParseHexByte(s[3..5]) == Ok(FractionToByte(g))
    ensures ParseHexByte(s[5..7]) == Ok(FractionToByte(b))
  {
    var rh, gh, bh := ByteToHex(FractionToByte(r)), ByteToHex(FractionToByte(g)), ByteToHex(FractionToByte(b));
    ByteHexRoundTrip(FractionToByte(r));
    ByteHexRoundTrip(FractionToByte(g));
    ByteHexRoundTrip(FractionToByte(b));
    var s := "#" + rh + gh + bh;
    assert |rh| == 2 && |gh| == 2 && |bh| == 2;
    assert s[1..3] == rh;
    assert s[3..5] == gh;
    assert s[5..7] == bh;
    s
  }

  /** The input with at most one leading '#' removed. */
  function StripHash(text: string): (t: string)
    ensures |text| > 0 && text[0] == '#' ==> "#" + t == text
    ensures !(|text| > 0 && text[0] == '#') ==> t == text
  {
    if |text| > 0 && text[0] == '#' then text[1..] else text
  }

  predicate IsHexColorBody(t: string) {
    |t| == 6 && forall i :: 0 <= i < 6 ==> IsHexDigit(t[i])
  }

  /** The parsing part of `FromHex`: strip an optional '#', demand six
      characters, then read the pairs [0,2), [2,4) and [4,6) as red, green
      and blue. */
  function HexToBytes(text: string): (res: Result<(Byte, Byte, Byte), Error>)
    ensures res.Ok? <==> IsHexColorBody(StripHash(text))
    ensures res == Err(UnsupportedFormat(text)) <==> |StripHash(text)| != 6
    ensures res.Err? && |StripHash(text)| == 6 ==> res.error.BadHexDigits?
    ensures res.Ok? ==>
      ByteToHex(res.value.0) + ByteToHex(res.value.1) + ByteToHex(res.value.2)
        == LowerHexString(StripHash(text))
  {
    var t := StripHash(text);
    if |t| != 6 then Err(UnsupportedFormat(text))
    else
      var rb :- ParseHexByte(t[..2]);
      var gb :- ParseHexByte(t[2..4]);
      var bb :- ParseHexByte(t[4..6]);
      assert t == t[..2] + t[2..4] + t[4..6];
      LowerHexConcat(t[..2], t[2..4], t[4..6]);
      Ok((rb, gb, bb))
  }

  lemma LowerHexConcat(a: string, b: string, c: string)
    ensures LowerHexString(a + b + c) == LowerHexString(a) + LowerHexString(b) + LowerHexString(c)
  {
  }

  /** Parsing the digits of three bytes gives the three bytes back. */
  lemma HexToBytesRoundTrip(rb: Byte, gb: Byte, bb: Byte)
    ensures HexToBytes("#" + ByteToHex(rb) + ByteToHex(gb) + ByteToHex(bb)) == Ok((rb, gb, bb))
  {
    var text := "#" + ByteToHex(rb) + ByteToHex(gb) + ByteToHex(bb);
    var t := StripHash(text);
    assert t[..2] == ByteToHex(rb) && t[2..4] == ByteToHex(gb) && t[4..6] == ByteToHex(bb);
    ByteHexRoundTrip(rb);
    ByteHexRoundTrip(gb);
    ByteHexRoundTrip(bb);
  }

  /** The hex string of three channels is lowercase and decodes to their
      bytes. */
  lemma ToHexStringDecodes(r: real, g: real, b: real)
    ensures var s := ToHexString(r, g, b);
      LowerHexString(s[1..]) == s[1..]
      && HexToBytes(s) == Ok((FractionToByte(r), FractionToByte(g), FractionToByte(b)))
  {
    var s := ToHexString(r, g, b);
    assert s == "#" + s[1..3] + s[3..5] + s[5..7];
    assert LowerHexString(s[1..]) == s[1..];
    HexToBytesRoundTrip(FractionToByte(r), FractionToByte(g), FractionToByte(b));
  }
}
