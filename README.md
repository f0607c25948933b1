# Color value model

A Dafny model of the color-conversion core of the ColorLib library. A color
is three channel fractions R, G and B in [0,1]. The library maps fractions to
bytes and back, writes and reads `#rrggbb` hex codes, and converts between
RGB and HSL (hue, saturation, lightness). Two immutable classes hold a color:

- `ColorDetail` is the earlier, RGB-only class.
- `ColorValue` also caches the HSL triple it computes at construction.

Channels are modelled as `real`, so every property below is exact
arithmetic. Each immutable class becomes a datatype plus a subset type whose
predicate is the constructor's invariant:

- a `ColorDetail` always has its channels in [0,1];
- a `ColorValue` also has its Hue, Saturation and Lightness equal to
  `RgbToHsl(R, G, B)`, so they can never be set on their own.

Thrown exceptions become `Err` values of a `Result`.

Files:

- `wrappers.dfy`: `Option` (the nullable hue) and `Result`.
- `color_codec.dfy`, module `ColorCodec`: the code that the two classes share
  word for word:
  - the constructor's range check;
  - `FractionToByte` and `ByteToFraction`;
  - `ToHexString`;
  - the parsing half of `FromHex`.

  The rows below cite the copy in ColorLib/ColorValue.cs. The copy in
  ColorLib/ColorDetail.cs is the same code at lines 28-42 (range check),
  115-121 (`ToHexString`), 129-141 (byte conversions) and 65-77 (hex parsing).
- `color_detail.dfy`, module `ColorDetail`: the `ColorDetail` class and the
  cases its unit tests check.
- `color_value.dfy`, module `ColorValue`: the `ColorValue` class, RGB to HSL,
  HSL to RGB, and the round trips in both directions.

Serialization to JSON writes r, g, b and the derived fields. Deserialization
calls the public constructor with r, g and b only. So the JSON round trip is
modelled as "the constructor applied to a color's own channels gives the same
color" (`Reconstruct`).

## Model

| member | source | states |
|---|---|---|
| `ColorCodec.CheckChannels` | ColorLib/ColorValue.cs:29-43 | no error exactly when r, g and b are all in [0,1]; otherwise the error names the first bad channel, checked in the order r, g, b |
| `ColorCodec.Truncate` | ColorLib/ColorValue.cs:182 | `Math.Truncate` rounds toward zero: the result is within 1 below a non-negative input and within 1 above a negative one |
| `ColorCodec.FractionToByte` | ColorLib/ColorValue.cs:180-184 | the result is a byte; inputs with d*256 below 1 (negatives included) give 0; d*256 of 255 or more (1.0, which gives 256, included) gives 255; in between, the byte is the bucket d*256 falls into |
| `ColorCodec.ByteToFraction` | ColorLib/ColorValue.cs:189-192 | the result lies in [0,1] and times 255 gives the byte back |
| `ColorCodec.FractionToByteMonotone` | ColorLib/ColorValue.cs:180-184 | a larger fraction never gives a smaller byte |
| `ColorCodec.ByteRoundTrip` | ColorLib/ColorValue.cs:180-192 | for every byte b, `FractionToByte(ByteToFraction(b)) == b`, including 255, where the clamp takes 256 back to 255 |
| `ColorCodec.LowerHex` | ColorLib/ColorValue.cs:84-86 | a hex digit's lowercase form is a lowercase digit with the same value; a lowercase digit is left unchanged |
| `ColorCodec.HexDigitSet` | ColorLib/ColorValue.cs:84-86 | the digits `NumberStyles.HexNumber` accepts are exactly 0-9, a-f and A-F |
| `ColorCodec.HexValue` | ColorLib/ColorValue.cs:84-86 | a hex digit of either case has a value below 16 |
| `ColorCodec.HexValueOfDigit` | ColorLib/ColorValue.cs:84-86 | a digit's value is its place in `0123456789abcdef`, after lowercasing |
| `ColorCodec.LowerDigit` | ColorLib/ColorValue.cs:171 | a value below 16 is written as a lowercase hex digit that reads back as that value |
| `ColorCodec.ByteToHex` | ColorLib/ColorValue.cs:171 | format `x2`: two lowercase hex digits, high nibble first, whose value is the byte |
| `ColorCodec.ParseHexByte` | ColorLib/ColorValue.cs:84-86 | a two-character pair parses exactly when both characters are hex digits, in either case; otherwise it is a format error naming the pair; the parsed byte formats back to the lowercased pair |
| `ColorCodec.ByteHexRoundTrip` | ColorLib/ColorValue.cs:84-86 | formatting a byte with `x2` and parsing it back gives the byte |
| `ColorCodec.ToHexString` | ColorLib/ColorValue.cs:166-172 | the result is `#` and 6 lowercase hex digits, 7 characters in all; pairs [1,3), [3,5) and [5,7) decode to `FractionToByte` of r, g and b |
| `ColorCodec.ToHexStringDecodes` | ColorLib/ColorValue.cs:166-172 | the 6 digits of the hex string are already lowercase, and the string decodes to the bytes of r, g and b |
| `ColorCodec.StripHash` | ColorLib/ColorValue.cs:74-78 | removes exactly one leading `#` if there is one, and changes nothing otherwise |
| `ColorCodec.HexToBytes` | ColorLib/ColorValue.cs:74-86 | succeeds exactly when the text, less an optional `#`, is 6 hex digits; a length other than 6 is the unsupported-format error carrying the whole input; with 6 characters the only error is a bad digit pair; on success the three bytes, formatted again, are the lowercased 6 digits, so pairs [0,2), [2,4) and [4,6) are R, G and B |
| `ColorCodec.HexToBytesRoundTrip` | ColorLib/ColorValue.cs:74-86 | parsing `#` and the `x2` digits of three bytes gives those three bytes back |
| `ColorDetail.New` | ColorLib/ColorDetail.cs:26-45 | succeeds exactly when all three channels are in [0,1], and then stores them unchanged; on failure the error is the range check's error |
| `ColorDetail.FromBytes` | ColorLib/ColorDetail.cs:55-58 | never fails; the channels are the bytes over 255, and the hex code is the bytes' `x2` digits |
| `ColorDetail.FromHex` | ColorLib/ColorDetail.cs:63-79 | succeeds exactly when the input is 6 hex digits after an optional `#`; a wrong length is the unsupported-format error and every other error is the one HexToBytes gives, a bad digit pair; on success the channels are `ByteToFraction` of the three parsed pairs, and the hex code is `#` and the input's digits, lowercased |
| `ColorDetail.HexColor` | ColorLib/ColorDetail.cs:108-109 | `#` and 6 lowercase hex digits that parse back to the bytes of R, G and B |
| `ColorDetail.Reconstruct` | ColorLib/ColorDetail.cs:26-45 | for every color, the constructor applied to its R, G and B alone gives that color back, which is how deserialization rebuilds it |
| `ColorDetail.HexColorFromHex` | ColorLib/ColorDetail.cs:63-79 | FromHex of a color's hex code succeeds and gives the color made from its channel bytes |
| `ColorDetail.FromHexHexColor` | ColorLib/ColorDetail.cs:63-79 | for a `#` followed by 6 lowercase hex digits, FromHex then HexColor reproduces the input |
| `ColorDetail.YellowHex` | UnitTest.ColorLib/ColorTests.cs:19-23 | the color (1,1,0) has hex code `#ffff00` |
| `ColorDetail.ByteConversionsAreIdempotent` | UnitTest.ColorLib/ColorTests.cs:26-37 | every byte 0..255 survives the trip to a fraction and back; the test loop stops at 254, and 255 holds too |
| `ColorDetail.ParseWhite` | UnitTest.ColorLib/ColorTests.cs:42-45 | `#ffffff` parses to R = G = B = 1 |
| `ColorDetail.ParseBlack` | UnitTest.ColorLib/ColorTests.cs:46-49 | `000000` parses to R = G = B = 0 |
| `ColorDetail.ParseViolet` | UnitTest.ColorLib/ColorTests.cs:50-53 | `ff00ff` parses to (1, 0, 1) |
| `ColorDetail.ParseWrongLength` | ColorLib/ColorDetail.cs:70-74 | 5 digits after `#`, a doubled `#`, and the empty string are rejected as unsupported formats |
| `ColorDetail.SerializeRoundTrip` | UnitTest.ColorLib/ColorTests.cs:57-64 | the color parsed from `#4ef2b0`, rebuilt from its r, g and b alone, again has hex code `#4ef2b0` |
| `ColorValue.Abs` | ColorLib/ColorValue.cs:244 | `Math.Abs`: the result is non-negative and is x or -x |
| `ColorValue.Max3` | ColorLib/ColorValue.cs:222-230 | the result is one of the three channels and at least each of them |
| `ColorValue.Min3` | ColorLib/ColorValue.cs:232-240 | the result is one of the three channels and at most each of them |
| `ColorValue.RgbToHsl` | ColorLib/ColorValue.cs:215-289 | lightness is halfway between the largest and smallest channel, so it lies in [0,1]; the hue is undefined exactly when those channels are less than 0.00001 apart, and then saturation is 0; otherwise saturation is in (0,1] and hue in [0,360) |
| `ColorValue.NormalizeHue` | ColorLib/ColorValue.cs:334-342 | one +360 step and one -360 step: a hue in [-360,720) ends in [0,360), a hue in [0,360) is unchanged, and the result moves by 0 or 360 in either direction |
| `ColorValue.EdgeBetween` | ColorLib/ColorValue.cs:364 | the linear ramp `q1 + (q2-q1)*x/60` stays between q1 and q2 for x in [0,60] |
| `ColorValue.QqhToRgb` | ColorLib/ColorValue.cs:351-378 | for every hue of -360 or more, the value lies between q1 and q2 |
| `ColorValue.P2` | ColorLib/ColorValue.cs:343 | p2 lies above l by s times the distance from l to the nearer end of [0,1] |
| `ColorValue.P1` | ColorLib/ColorValue.cs:344 | p1 lies the same distance below l, so p1 + p2 = 2l |
| `ColorValue.ParamsInRange` | ColorLib/ColorValue.cs:343-344 | with s and l in [0,1], 0 <= p1 <= p2 <= 1 |
| `ColorValue.HslToRgb` | ColorLib/ColorValue.cs:315-349 | saturation 0 gives r = g = b = l whatever the hue; it fails exactly when saturation is nonzero and the hue is missing, with the missing-hue error; with s and l in [0,1] and a hue of -360 or more, every channel lies in [0,1] |
| `ColorValue.HueWrap` | ColorLib/ColorValue.cs:334-342 | a hue h in [-360,360) and h + 360 give identical output |
| `ColorValue.New` | ColorLib/ColorValue.cs:27-59 | succeeds exactly when all channels are in [0,1] and stores them unchanged, with the cached hue, saturation and lightness equal to `RgbToHsl` of the channels; on failure the error is the range check's error |
| `ColorValue.HexColor` | ColorLib/ColorValue.cs:142 | recomputed from R, G and B: `#` and 6 lowercase hex digits that parse back to the channels' bytes |
| `ColorValue.FromBytes` | ColorLib/ColorValue.cs:64-67 | never fails; the channels are the bytes over 255, and the hex code is the bytes' `x2` digits |
| `ColorValue.FromHex` | ColorLib/ColorValue.cs:72-88 | succeeds exactly when the input is 6 hex digits after an optional `#`; a wrong length is the unsupported-format error and every other error is the one HexToBytes gives, a bad digit pair; on success the channels are `ByteToFraction` of the three parsed pairs, and the hex code is `#` and the input's digits, lowercased |
| `ColorValue.FromHsl` | ColorLib/ColorValue.cs:102-106 | the missing-hue error happens exactly when saturation is nonzero and the hue is missing; whenever HslToRgb succeeds, the result is Ok exactly when its channels are in [0,1], and otherwise the range check's error on them; with s and l in [0,1] and the hue missing or -360 or more, the constructor's range check cannot fail; on success the channels are HslToRgb's |
| `ColorValue.Reconstruct` | ColorLib/ColorValue.cs:55-58 | the constructor applied to a color's own R, G and B gives back the same color, cached HSL included, so the HSL fields are never independent state |
| `ColorValue.HslFieldRanges` | ColorLib/ColorValue.cs:144-160 | every color's saturation and lightness lie in [0,1] and its hue, when defined, in [0,360); the hue is undefined exactly when the saturation is 0 |
| `ColorValue.AchromaticExamples` | ColorLib/ColorValue.cs:244-248 | black and white have no hue and saturation 0 (lightness 0 and 1) |
| `ColorValue.GrayHslExamples` | ColorLib/ColorValue.cs:321-333 | HSL (none, 0, 0.42) gives (0.42, 0.42, 0.42); a missing hue with saturation 0.5 is the missing-hue error |
| `ColorValue.OverSaturatedExample` | ColorLib/ColorValue.cs:102-106 | saturation 2 is not rejected: HSL (0, 2, 0) gives black |
| `ColorValue.PrimaryExamples` | ColorLib/ColorValue.cs:260-287 | red, green and blue have hues 0, 120 and 240, each with saturation 1 and lightness 0.5 |
| `ColorValue.SecondaryExamples` | ColorLib/ColorValue.cs:260-287 | yellow, cyan and magenta have hues 60, 180 and 300, each with saturation 1 and lightness 0.5 |
| `ColorValue.WrapExample` | ColorLib/ColorValue.cs:335-338 | hue -300 and hue 60 give identical RGB |
| `ColorValue.SaturationRecovered` | ColorLib/ColorValue.cs:251-258 | RgbToHsl's saturation formula applied to p1 and p2 gives back the s that produced them |
| `ColorValue.AllSectors` | ColorLib/ColorValue.cs:345-347 | for 0 <= p1 <= p2 <= 1 and a hue in [0,360), the three channels are in range, the largest is p2 and the smallest p1, and RgbToHsl recovers the hue when p1 and p2 are at least 0.00001 apart |
| `ColorValue.HslRoundTrip` | ColorLib/ColorValue.cs:315-349 | for a hue in [0,360) and s, l in [0,1] whose channels end up at least 0.00001 apart, RgbToHsl of HslToRgb gives back exactly (hue, s, l) |
| `ColorValue.AchromaticRoundTrip` | ColorLib/ColorValue.cs:244-248 | when the saturation is 0, whatever the hue or none, or when the channels end up less than 0.00001 apart with a hue in [-360,720), the trip comes back with no hue, saturation 0 and the same lightness |
| `ColorValue.ParamsRecovered` | ColorLib/ColorValue.cs:343-344 | from the lightness and saturation RgbToHsl derives from a largest channel p2 and a smallest p1, HslToRgb's two parameters come out as p2 and p1 again |
| `ColorValue.HslToRgbOfRecovered` | ColorLib/ColorValue.cs:315-349 | once RgbToHsl is known to return hue h with the largest and smallest channel as p2 and p1, HslToRgb of its result is the three ramps at h + 120, h and h - 120 |
| `ColorValue.RedMaxBlueMin` | ColorLib/ColorValue.cs:266-268 | red largest, blue smallest (hue in [0,60]): RGB to HSL and back gives the same channels |
| `ColorValue.RedMaxGreenMin` | ColorLib/ColorValue.cs:266-268 | red largest, green smallest and below blue (hue in [300,360), after the +360 step): the trip gives the same channels |
| `ColorValue.GreenMaxRedMin` | ColorLib/ColorValue.cs:270-272 | green largest, red smallest (hue in [120,180]): the trip gives the same channels |
| `ColorValue.GreenMaxBlueMin` | ColorLib/ColorValue.cs:270-272 | green largest, blue smallest and below red (hue in (60,120)): the trip gives the same channels |
| `ColorValue.BlueMaxGreenMin` | ColorLib/ColorValue.cs:274-276 | blue largest, green smallest (hue in [240,300]): the trip gives the same channels |
| `ColorValue.BlueMaxRedMin` | ColorLib/ColorValue.cs:274-276 | blue largest, red smallest and below green (hue in (180,240)): the trip gives the same channels |
| `ColorValue.RgbRoundTrip` | ColorLib/ColorValue.cs:215-349 | every color with channels in [0,1] whose largest and smallest channel are at least 0.00001 apart comes back exactly from RGB to HSL and back |
| `ColorValue.NearGrayRoundTrip` | ColorLib/ColorValue.cs:244-248 | when the channels are less than 0.00001 apart, the trip returns the gray of lightness (max+min)/2, so it is exact exactly when r = g = b |
| `ColorValue.RoundTripExample` | ColorLib/ColorValue.cs:315-349 | HSL (42, 0.7, 0.6) survives the trip to RGB and back exactly |

## Left out

- The WPF `Color` and WinForms `Color` fields are copies of the channel bytes in foreign UI library types. They are not modelled.
- The Newtonsoft JSON attributes and the serializer are a foreign library. Only what the JSON round trip relies on is modelled: deserialization rebuilds the color through the constructor from r, g and b (`Reconstruct`, `SerializeRoundTrip`).
- IEEE-754 `double` behaviour is not modelled: rounding in `/ 255.0` and in the HSL formulas, NaN passing the range checks, and infinities. The model's arithmetic is exact, so `HslRoundTrip` and `RgbRoundTrip` are exact where the C# round trips hold only to floating-point precision.
- `ColorCodec.FractionToByte`: does not model the `(int)` cast of a `d*256` too large for a 32-bit int, whose result .NET leaves platform-dependent. The model clamps such inputs to 255 (and large negatives to 0), as it does every other out-of-range input.
- `ColorCodec.ParseHexByte`: `Byte.Parse` with `NumberStyles.HexNumber` also accepts leading and trailing white space inside a pair. The model is a strict, case-insensitive two-digit decoder, so such a pair is a format error here.
- `ColorCodec.HexToBytes`: the length test counts characters (Unicode scalar values), where C# `Length` counts UTF-16 code units. A character outside the Basic Multilingual Plane counts 1 here and 2 in C#, so such input can get the unsupported-format error where C# raises a bad-digit format error, or the reverse. The inputs that succeed are the same. The same holds for both `FromHex` members.
- `ColorCodec.StripHash`: `StartsWith("#")` is culture-sensitive in .NET. The model compares the first character with `#`.
- The exception messages are not modelled. Each error records only its kind and the parameter name or offending input.
- `ColorValue.RgbToHsl`: requires all channels in [0,1]. That is the documented input range, and the validated constructor is the only caller. Outside that range the C# can divide by zero.
- `ColorValue.FromHsl`: like the source, it does not validate saturation and lightness. Out-of-range values pass unchecked. The call fails with `OutOfRange` only when the channels computed from them leave [0,1]; for example, s = 2 with l = 0 gives black (`OverSaturatedExample`). A missing hue with nonzero saturation is `MissingHue` whatever s and l are.
- `ColorValue.HslToRgb`: its range guarantee is stated for hues of -360 or more. The documented input is [0,360]. For lower hues a single +360 step does not bring them into range, and the channels can leave [0,1].
- The host application is not modelled: window lifecycle, view models, the command-manager adapter and random color generation.
