/** ColorLib/ColorValue.cs: an RGB color that also caches its HSL form. */
module ColorValue {
  import opened Wrappers
  import opened ColorCodec

  /** Below this spread between the largest and the smallest channel a color
      counts as achromatic. */
  const Epsilon: real := 0.00001

  /** The out parameters of RgbToHsl; `Hue == None` means "undefined". */
  datatype Hsl = Hsl(Hue: Option<real>, Saturation: real, Lightness: real)

  /** The out parameters of HslToRgb. */
  datatype Rgb = Rgb(R: real, G: real, B: real)

  function Abs(x: real): (a: real)
    ensures a >= 0.0 && (a == x || a == -x)
  {
    if x < 0.0 then -x else x
  }

  /** The largest channel, found as the source does: start at r, replace by
      g, then by b, whenever the candidate is smaller. */
  function Max3(r: real, g: real, b: real): (m: real)
    ensures r <= m && g <= m && b <= m
    ensures m == r || m == g || m == b
  {
    var m := if r < g then g else r;
    if m < b then b else m
  }

  function Min3(r: real, g: real, b: real): (m: real)
    ensures m <= r && m <= g && m <= b
    ensures m == r || m == g || m == b
  {
    var m := if r > g then g else r;
    if m > b then b else m
  }

  predicate Between(x: real, q1: real, q2: real) {
    (q1 <= x <= q2) || (q2 <= x <= q1)
  }

  lemma QuotientBounds(x: real, d: real)
    requires 0.0 <= x <= d && 0.0 < d
    ensures 0.0 <= x / d <= 1.0
    ensures 0.0 < x ==> 0.0 < x / d
  {
    assert x / d * d == x;
  }

  /** `RgbToHsl`: lightness lies halfway between the largest and the
      smallest channel; the hue is undefined (and saturation 0) exactly when
      those two are less than Epsilon apart; otherwise saturation lies in
      (0,1] and hue in [0,360). */
  function RgbToHsl(r: real, g: real, b: real): (hsl: Hsl)
    requires InRange(r) && InRange(g) && InRange(b)
    ensures 2.0 * hsl.Lightness == Max3(r, g, b) + Min3(r, g, b)
    ensures InRange(hsl.Lightness)
    ensures hsl.Hue.None? <==> Max3(r, g, b) - Min3(r, g, b) < Epsilon
    ensures hsl.Hue.None? ==> hsl.Saturation == 0.0
    ensures hsl.Hue.Some? ==> 0.0 < hsl.Saturation <= 1.0 && 0.0 <= hsl.Hue.value < 360.0
  {
    var max := Max3(r, g, b);
    var min := Min3(r, g, b);
    var diff := max - min;
    var l := (max + min) / 2.0;
    if Abs(diff) < Epsilon then
      Hsl(None, 0.0, l)
    else
      var s := if l <= 0.5 then diff / (max + min) else diff / (2.0 - max - min);
      QuotientBounds(diff, if l <= 0.5 then max + min else 2.0 - max - min);
      var rDist := (max - r) / diff;
      var gDist := (max - g) / diff;
      var bDist := (max - b) / diff;
      QuotientBounds(max - r, diff);
      QuotientBounds(max - g, diff);
      QuotientBounds(max - b, diff);
      var hv :=
        if r == max then bDist - gDist
        else if g == max then 2.0 + rDist - bDist
        else 4.0 + gDist - rDist;
      var hv := hv * 60.0;
      var hv := if hv < 0.0 then hv + 360.0 else hv;
      var hv := if hv >= 360.0 then hv - 360.0 else hv;
      Hsl(Some(hv), s, l)
  }

  /** The hue correction at the start of HslToRgb: add 360 if negative,
      then subtract 360 if 360 or more. One step each, so only hues in
      [-360,720) are brought into [0,360). */
  function NormalizeHue(h: real): (hv: real)
    ensures -360.0 <= h < 720.0 ==> 0.0 <= hv < 360.0
    ensures 0.0 <= h < 360.0 ==> hv == h
    ensures hv == h || hv == h + 360.0 || hv == h - 360.0
    ensures -360.0 <= h ==> 0.0 <= hv
  {
    var hv := if h < 0.0 then h + 360.0 else h;
    if hv >= 360.0 then hv - 360.0 else hv
  }

  /** The rising edge `q1 + (q2 - q1) * x / 60` stays between q1 and q2 for
      x in [0,60]. */
  lemma EdgeBetween(q1: real, q2: real, x: real)
    requires 0.0 <= x <= 60.0
    ensures Between(q1 + (q2 - q1) * x / 60.0, q1, q2)
  {
    var t := x / 60.0;
    assert (q2 - q1) * x / 60.0 == (q2 - q1) * t;
    if q1 <= q2 {
      assert (q2 - q1) * (1.0 - t) >= 0.0;
    } else {
      assert (q1 - q2) * (1.0 - t) >= 0.0;
    }
  }

  /** `QqhToRgb`: one channel of HSL to RGB, piecewise linear in the hue
      between q1 and q2. For every hue from -360 up the value lies between
      q1 and q2. */
  function QqhToRgb(q1: real, q2: real, hue: real): (v: real)
    ensures -360.0 <= hue ==> Between(v, q1, q2)
  {
    var hue := if hue >= 360.0 then hue - 360.0 else if hue < 0.0 then hue + 360.0 else hue;
    if hue < 60.0 then
      if hue >= 0.0 then EdgeBetween(q1, q2, hue); q1 + (q2 - q1) * hue / 60.0
      else q1 + (q2 - q1) * hue / 60.0
    else if hue < 180.0 then
      q2
    else if hue < 240.0 then
      EdgeBetween(q1, q2, 240.0 - hue);
      q1 + (q2 - q1) * (240.0 - hue) / 60.0
    else
      q1
  }

  /** The two HSL parameters: p2 is the largest channel and p1 the smallest.
      Each lies s times the distance from l to the nearer end of [0,1]
      away from l, p2 above and p1 below. */
  function P2(s: real, l: real): (p: real)
    ensures p - l == s * (if l <= 0.5 then l else 1.0 - l)
  {
    if l <= 0.5 then l * (1.0 + s) else l + s - l * s
  }

  function P1(s: real, l: real): (p: real)
    ensures l - p == s * (if l <= 0.5 then l else 1.0 - l)
    ensures p + P2(s, l) == 2.0 * l
  {
    2.0 * l - P2(s, l)
  }

  lemma MulNonNegative(a: real, b: real)
    requires 0.0 <= a && 0.0 <= b
    ensures 0.0 <= a * b
  {
  }

  /** With s and l in [0,1], p1 and p2 lie in [0,1] with p1 <= p2. */
  lemma ParamsInRange(s: real, l: real)
    ensures InRange(s) && InRange(l) ==> 0.0 <= P1(s, l) <= P2(s, l) <= 1.0
  {
    if InRange(s) && InRange(l) {
      MulNonNegative(l, s);
      MulNonNegative(l, 1.0 - s);
      MulNonNegative(s, 1.0 - l);
      MulNonNegative(1.0 - s, 1.0 - l);
    }
  }

  /** `HslToRgb`: with saturation 0 all channels equal the lightness and the
      hue is not consulted; otherwise a missing hue is an error. For s and l
      in [0,1] and a hue from -360 up, every channel lies in [0,1]. */
  function HslToRgb(h: Option<real>, s: real, l: real): (res: Result<Rgb, Error>)
    ensures s == 0.0 ==> res.Ok? && res.value.R == l && res.value.G == l && res.value.B == l
    ensures res.Err? <==> s != 0.0 && h.None?
    ensures res.Err? ==> res.error == MissingHue
    ensures res.Ok? && InRange(s) && InRange(l) && (h.None? || -360.0 <= h.value) ==>
      InRange(res.value.R) && InRange(res.value.G) && InRange(res.value.B)
  {
    if s == 0.0 then
      Ok(Rgb(l, l, l))
    else if h.None? then
      Err(MissingHue)
    else
      var hv := NormalizeHue(h.value);
      var p2 := P2(s, l);
      var p1 := P1(s, l);
      ParamsInRange(s, l);
      Ok(Rgb(QqhToRgb(p1, p2, hv + 120.0), QqhToRgb(p1, p2, hv), QqhToRgb(p1, p2, hv - 120.0)))
  }

  /** Hue wraps around: a hue and the same hue plus 360 give the same
      channels, for hues in [-360,360). */
  lemma HueWrap(h: real, s: real, l: real)
    requires -360.0 <= h < 360.0
    ensures HslToRgb(Some(h), s, l) == HslToRgb(Some(h + 360.0), s, l)
  {
    assert NormalizeHue(h) == NormalizeHue(h + 360.0);
  }

  // ---------------------------------------------------------------------
  // The color value

  /** The fields of a ColorValue: the channels and the HSL triple the
      constructor caches. */
  datatype ColorFields = ColorFields(
    R: real, G: real, B: real,
    Hue: Option<real>, Saturation: real, Lightness: real)
  {
    /** The channels are in range and the HSL fields are the ones RgbToHsl
        computes from them. */
    predicate Consistent() {
      && InRange(R) && InRange(G) && InRange(B)
      && RgbToHsl(R, G, B) == Hsl(Hue, Saturation, Lightness)
    }
  }

  /** Every ColorValue comes out of the constructor, so its channels are in
      range and its HSL fields are never independent of them. */
  type ColorValue = c: ColorFields | c.Consistent()
    witness ColorFields(0.0, 0.0, 0.0, None, 0.0, 0.0)

  /** `new ColorValue(r, g, b)`. */
  function New(r: real, g: real, b: real): (res: Result<ColorValue, Error>)
    ensures res.Ok? <==> InRange(r) && InRange(g) && InRange(b)
    ensures res.Ok? ==> res.value.R == r && res.value.G == g && res.value.B == b
    ensures res.Ok? ==> Hsl(res.value.Hue, res.value.Saturation, res.value.Lightness) == RgbToHsl(r, g, b)
    ensures res.Err? ==> CheckChannels(r, g, b) == Some(res.error)
  {
    match CheckChannels(r, g, b)
    case Some(e) => Err(e)
    case None =>
      var hsl := RgbToHsl(r, g, b);
      Ok(ColorFields(r, g, b, hsl.Hue, hsl.Saturation, hsl.Lightness))
  }

  /** The `HexColor` property, recomputed from R, G and B. */
  function HexColor(c: ColorValue): (s: string)
    ensures |s| == 7 && s[0] == '#'
    ensures LowerHexString(s[1..]) == s[1..]
    ensures HexToBytes(s) == Ok((FractionToByte(c.R), FractionToByte(c.G), FractionToByte(c.B)))
  {
    ToHexStringDecodes(c.R, c.G, c.B);
    ToHexString(c.R, c.G, c.B)
  }

  /** `FromBytes`: never fails, and the hex code gives back the bytes. */
  function FromBytes(rb: Byte, gb: Byte, bb: Byte): (res: Result<ColorValue, Error>)
    ensures res.Ok?
    ensures res.value.R == ByteToFraction(rb)
    ensures res.value.G == ByteToFraction(gb)
    ensures res.value.B == ByteToFraction(bb)
    ensures HexColor(res.value) == "#" + ByteToHex(rb) + ByteToHex(gb) + ByteToHex(bb)
  {
    ByteRoundTrip(rb);
    ByteRoundTrip(gb);
    ByteRoundTrip(bb);
    New(ByteToFraction(rb), ByteToFraction(gb), ByteToFraction(bb))
  }

  /** `FromHex`: fails exactly when the text is not six hex digits after an
      optional '#'; otherwise the color's hex code is the input, lowercased,
      with a '#' in front. */
  function FromHex(text: string): (res: Result<ColorValue, Error>)
    ensures res.Ok? <==> IsHexColorBody(StripHash(text))
    ensures res == Err(UnsupportedFormat(text)) <==> |StripHash(text)| != 6
    ensures res.Ok? ==> HexColor(res.value) == "#" + LowerHexString(StripHash(text))
    ensures res.Err? ==> HexToBytes(text) == Err(res.error)
    ensures res.Ok? ==>
      && HexToBytes(text).Ok?
      && res.value.R == ByteToFraction(HexToBytes(text).value.0)
      && res.value.G == ByteToFraction(HexToBytes(text).value.1)
      && res.value.B == ByteToFraction(HexToBytes(text).value.2)
  {
    match HexToBytes(text)
    case Err(e) => Err(e)
    case Ok((rb, gb, bb)) => FromBytes(rb, gb, bb)
  }

  /** `FromHsl`: HslToRgb, then the constructor. The saturation and the
      lightness are not checked: the constructor's range check on the
      computed channels decides. When they are in [0,1] and the hue is
      absent or from -360 up, that check cannot fail, so the only possible
      error is the missing hue. */
  function FromHsl(h: Option<real>, s: real, l: real): (res: Result<ColorValue, Error>)
    ensures res == Err(MissingHue) <==> s != 0.0 && h.None?
    ensures InRange(s) && InRange(l) && (h.None? || -360.0 <= h.value) ==>
      res.Ok? || res == Err(MissingHue)
    ensures res.Ok? ==> HslToRgb(h, s, l) == Ok(Rgb(res.value.R, res.value.G, res.value.B))
    ensures HslToRgb(h, s, l).Ok? ==>
      var c := HslToRgb(h, s, l).value;
      && (res.Ok? <==> InRange(c.R) && InRange(c.G) && InRange(c.B))
      && (res.Err? ==> CheckChannels(c.R, c.G, c.B) == Some(res.error))
  {
    var rgb :- HslToRgb(h, s, l);
    New(rgb.R, rgb.G, rgb.B)
  }

  /** Deserialization calls the constructor with the serialized r, g and b
      (hex, hue, saturation and lightness are ignored), and that rebuilds
      the same color, cached HSL included. */
  lemma Reconstruct(c: ColorValue)
    ensures New(c.R, c.G, c.B) == Ok(c)
  {
  }

  /** The cached HSL fields of every color lie in their documented ranges,
      and the hue is undefined exactly when the saturation is 0. */
  lemma HslFieldRanges(c: ColorValue)
    ensures InRange(c.Saturation) && InRange(c.Lightness)
    ensures c.Hue.Some? ==> 0.0 <= c.Hue.value < 360.0
    ensures c.Hue.None? <==> c.Saturation == 0.0
  {
    var hsl := RgbToHsl(c.R, c.G, c.B);
    assert hsl == Hsl(c.Hue, c.Saturation, c.Lightness);
  }

  // ---------------------------------------------------------------------
  // Worked examples

  lemma AchromaticExamples()
    ensures RgbToHsl(0.0, 0.0, 0.0) == Hsl(None, 0.0, 0.0)
    ensures RgbToHsl(1.0, 1.0, 1.0) == Hsl(None, 0.0, 1.0)
  {
  }

  lemma GrayHslExamples()
    ensures HslToRgb(None, 0.0, 0.42) == Ok(Rgb(0.42, 0.42, 0.42))
    ensures HslToRgb(None, 0.5, 0.42) == Err(MissingHue)
  {
  }

  /** Saturation 2 is not rejected: with lightness 0 it gives black. */
  lemma OverSaturatedExample()
    ensures FromHsl(Some(0.0), 2.0, 0.0).Ok?
    ensures var c := FromHsl(Some(0.0), 2.0, 0.0).value;
      c.R == 0.0 && c.G == 0.0 && c.B == 0.0
  {
  }

  lemma PrimaryExamples()
    ensures RgbToHsl(1.0, 0.0, 0.0) == Hsl(Some(0.0), 1.0, 0.5)
    ensures RgbToHsl(0.0, 1.0, 0.0) == Hsl(Some(120.0), 1.0, 0.5)
    ensures RgbToHsl(0.0, 0.0, 1.0) == Hsl(Some(240.0), 1.0, 0.5)
  {
  }

  lemma SecondaryExamples()
    ensures RgbToHsl(1.0, 1.0, 0.0) == Hsl(Some(60.0), 1.0, 0.5)
    ensures RgbToHsl(0.0, 1.0, 1.0) == Hsl(Some(180.0), 1.0, 0.5)
    ensures RgbToHsl(1.0, 0.0, 1.0) == Hsl(Some(300.0), 1.0, 0.5)
  {
  }

  lemma WrapExample()
    ensures HslToRgb(Some(-300.0), 1.0, 0.5) == HslToRgb(Some(60.0), 1.0, 0.5)
  {
    HueWrap(-300.0, 1.0, 0.5);
  }

  // ---------------------------------------------------------------------
  // HSL to RGB and back

  lemma QuotientOfMultiple(a: real, c: real, d: real)
    requires d != 0.0 && a == c * d
    ensures a / d == c
  {
  }

  /** The distance from the top of the rising or falling edge of QqhToRgb,
      as a fraction of p2 - p1. */
  lemma EdgeDistance(p1: real, p2: real, x: real)
    requires p1 < p2
    ensures (p2 - (p1 + (p2 - p1) * x / 60.0)) / (p2 - p1) == 1.0 - x / 60.0
  {
    var num := p2 - (p1 + (p2 - p1) * x / 60.0);
    assert num == (1.0 - x / 60.0) * (p2 - p1);
    QuotientOfMultiple(num, 1.0 - x / 60.0, p2 - p1);
    assert num / (p2 - p1) == 1.0 - x / 60.0;
  }

  lemma UnitDistances(p1: real, p2: real)
    requires p1 < p2
    ensures (p2 - p2) / (p2 - p1) == 0.0 && (p2 - p1) / (p2 - p1) == 1.0
  {
  }

  /** HslToRgb's saturation is recovered by RgbToHsl's formula. */
  lemma SaturationRecovered(s: real, l: real)
    requires InRange(s) && InRange(l) && P1(s, l) < P2(s, l)
    ensures l <= 0.5 ==> (P2(s, l) - P1(s, l)) / (P2(s, l) + P1(s, l)) == s
    ensures 0.5 < l ==> (P2(s, l) - P1(s, l)) / (2.0 - P2(s, l) - P1(s, l)) == s
  {
    var d := P2(s, l) - P1(s, l);
    if l <= 0.5 {
      assert d == 2.0 * l * s;
      assert d == s * (P2(s, l) + P1(s, l));
    } else {
      assert d == 2.0 * s * (1.0 - l);
      assert d == s * (2.0 - P2(s, l) - P1(s, l));
    }
  }

  /** What RgbToHsl computes for channels whose largest value is p2 and whose
      smallest is p1, given the hue it derives. */
  predicate RecoversHsl(r: real, g: real, b: real, p1: real, p2: real, h: real)
    requires InRange(r) && InRange(g) && InRange(b)
  {
    var hsl := RgbToHsl(r, g, b);
    var l := (p1 + p2) / 2.0;
    && hsl.Hue == Some(h)
    && hsl.Lightness == l
    && hsl.Saturation == (if l <= 0.5 then (p2 - p1) / (p2 + p1) else (p2 - p1) / (2.0 - p2 - p1))
  }

  /** RgbToHsl for chromatic channels whose largest value is p2, whose
      smallest is p1 and whose distances from the largest, in units of
      p2 - p1, are dr, dg and db. */
  lemma HslFromDistances(r: real, g: real, b: real, p1: real, p2: real, dr: real, dg: real, db: real, h: real)
    requires InRange(r) && InRange(g) && InRange(b)
    requires Max3(r, g, b) == p2 && Min3(r, g, b) == p1 && Epsilon <= p2 - p1
    requires (p2 - r) / (p2 - p1) == dr && (p2 - g) / (p2 - p1) == dg && (p2 - b) / (p2 - p1) == db
    requires var hv := 60.0 * (if r == p2 then db - dg else if g == p2 then 2.0 + dr - db else 4.0 + dg - dr);
      h == (if hv < 0.0 then hv + 360.0 else hv)
    requires 0.0 <= h < 360.0
    ensures RecoversHsl(r, g, b, p1, p2, h)
  {
  }

  /** The three channels HslToRgb computes from p1, p2 and a hue in
      [0,360): each is in range, the largest is p2 and the smallest p1, and
      when p1 and p2 are at least Epsilon apart RgbToHsl recovers the hue. */
  predicate SectorFacts(p1: real, p2: real, h: real) {
    var r, g, b := QqhToRgb(p1, p2, h + 120.0), QqhToRgb(p1, p2, h), QqhToRgb(p1, p2, h - 120.0);
    && InRange(r) && InRange(g) && InRange(b)
    && Max3(r, g, b) == p2 && Min3(r, g, b) == p1
    && (Epsilon <= p2 - p1 ==> RecoversHsl(r, g, b, p1, p2, h))
  }

  lemma Sector0(p1: real, p2: real, h: real)
    requires 0.0 <= p1 <= p2 <= 1.0
    requires 0.0 <= h < 60.0
    ensures SectorFacts(p1, p2, h)
  {
    var r, g, b := QqhToRgb(p1, p2, h + 120.0), QqhToRgb(p1, p2, h), QqhToRgb(p1, p2, h - 120.0);
    var x := h;
    assert r == p2 && b == p1;
    assert g == p1 + (p2 - p1) * x / 60.0;
    EdgeBetween(p1, p2, x);
    assert Max3(r, g, b) == p2 && Min3(r, g, b) == p1;
    if Epsilon <= p2 - p1 {
      EdgeDistance(p1, p2, x);
      UnitDistances(p1, p2);
      HslFromDistances(r, g, b, p1, p2, 0.0, 1.0 - x / 60.0, 1.0, h);
    }
  }

  lemma Sector1(p1: real, p2: real, h: real)
    requires 0.0 <= p1 <= p2 <= 1.0
    requires 60.0 <= h < 120.0
    ensures SectorFacts(p1, p2, h)
  {
    var r, g, b := QqhToRgb(p1, p2, h + 120.0), QqhToRgb(p1, p2, h), QqhToRgb(p1, p2, h - 120.0);
    var x := 240.0 - (h + 120.0);
    assert g == p2 && b == p1;
    assert r == p1 + (p2 - p1) * x / 60.0;
    EdgeBetween(p1, p2, x);
    assert Max3(r, g, b) == p2 && Min3(r, g, b) == p1;
    if Epsilon <= p2 - p1 {
      EdgeDistance(p1, p2, x);
      UnitDistances(p1, p2);
      HslFromDistances(r, g, b, p1, p2, 1.0 - x / 60.0, 0.0, 1.0, h);
    }
  }

  lemma Sector2(p1: real, p2: real, h: real)
    requires 0.0 <= p1 <= p2 <= 1.0
    requires 120.0 <= h < 180.0
    ensures SectorFacts(p1, p2, h)
  {
    var r, g, b := QqhToRgb(p1, p2, h + 120.0), QqhToRgb(p1, p2, h), QqhToRgb(p1, p2, h - 120.0);
    var x := h - 120.0;
    assert r == p1 && g == p2;
    assert b == p1 + (p2 - p1) * x / 60.0;
    EdgeBetween(p1, p2, x);
    assert Max3(r, g, b) == p2 && Min3(r, g, b) == p1;
    if Epsilon <= p2 - p1 {
      EdgeDistance(p1, p2, x);
      UnitDistances(p1, p2);
      HslFromDistances(r, g, b, p1, p2, 1.0, 0.0, 1.0 - x / 60.0, h);
    }
  }

  lemma Sector3(p1: real, p2: real, h: real)
    requires 0.0 <= p1 <= p2 <= 1.0
    requires 180.0 <= h < 240.0
    ensures SectorFacts(p1, p2, h)
  {
    var r, g, b := QqhToRgb(p1, p2, h + 120.0), QqhToRgb(p1, p2, h), QqhToRgb(p1, p2, h - 120.0);
    var x := 240.0 - h;
    assert r == p1 && b == p2;
    assert g == p1 + (p2 - p1) * x / 60.0;
    EdgeBetween(p1, p2, x);
    assert Max3(r, g, b) == p2 && Min3(r, g, b) == p1;
    if Epsilon <= p2 - p1 {
      EdgeDistance(p1, p2, x);
      UnitDistances(p1, p2);
      HslFromDistances(r, g, b, p1, p2, 1.0, 1.0 - x / 60.0, 0.0, h);
    }
  }

  lemma Sector4(p1: real, p2: real, h: real)
    requires 0.0 <= p1 <= p2 <= 1.0
    requires 240.0 <= h < 300.0
    ensures SectorFacts(p1, p2, h)
  {
    var r, g, b := QqhToRgb(p1, p2, h + 120.0), QqhToRgb(p1, p2, h), QqhToRgb(p1, p2, h - 120.0);
    var x := h + 120.0 - 360.0;
    assert g == p1 && b == p2;
    assert r == p1 + (p2 - p1) * x / 60.0;
    EdgeBetween(p1, p2, x);
    assert Max3(r, g, b) == p2 && Min3(r, g, b) == p1;
    if Epsilon <= p2 - p1 {
      EdgeDistance(p1, p2, x);
      UnitDistances(p1, p2);
      HslFromDistances(r, g, b, p1, p2, 1.0 - x / 60.0, 1.0, 0.0, h);
    }
  }

  lemma Sector5(p1: real, p2: real, h: real)
    requires 0.0 <= p1 <= p2 <= 1.0
    requires 300.0 <= h < 360.0
    ensures SectorFacts(p1, p2, h)
  {
    var r, g, b := QqhToRgb(p1, p2, h + 120.0), QqhToRgb(p1, p2, h), QqhToRgb(p1, p2, h - 120.0);
    var x := 240.0 - (h - 120.0);
    assert r == p2 && g == p1;
    assert b == p1 + (p2 - p1) * x / 60.0;
    EdgeBetween(p1, p2, x);
    assert Max3(r, g, b) == p2 && Min3(r, g, b) == p1;
    if Epsilon <= p2 - p1 {
      EdgeDistance(p1, p2, x);
      UnitDistances(p1, p2);
      HslFromDistances(r, g, b, p1, p2, 0.0, 1.0, 1.0 - x / 60.0, h);
    }
  }

  /** The six 60-degree sectors of the hue circle, one lemma each. */
  lemma AllSectors(p1: real, p2: real, h: real)
    requires 0.0 <= p1 <= p2 <= 1.0
    requires 0.0 <= h < 360.0
    ensures SectorFacts(p1, p2, h)
  {
    if h < 60.0 {
      Sector0(p1, p2, h);
    } else if h < 120.0 {
      Sector1(p1, p2, h);
    } else if h < 180.0 {
      Sector2(p1, p2, h);
    } else if h < 240.0 {
      Sector3(p1, p2, h);
    } else if h < 300.0 {
      Sector4(p1, p2, h);
    } else {
      Sector5(p1, p2, h);
    }
  }

  /** HSL to RGB and back gives the same hue, saturation and lightness, for
      every hue in [0,360) and every saturation and lightness in range whose
      largest and smallest channel end up at least Epsilon apart. */
  lemma HslRoundTrip(h: real, s: real, l: real)
    requires 0.0 <= h < 360.0 && InRange(s) && InRange(l)
    requires Epsilon <= P2(s, l) - P1(s, l)
    ensures HslToRgb(Some(h), s, l).Ok?
    ensures var c := HslToRgb(Some(h), s, l).value;
      RgbToHsl(c.R, c.G, c.B) == Hsl(Some(h), s, l)
  {
    var p1, p2 := P1(s, l), P2(s, l);
    ParamsInRange(s, l);
    SaturationRecovered(s, l);
    AllSectors(p1, p2, h);
  }

  /** An achromatic HSL triple comes back with an undefined hue, saturation
      0 and the same lightness: whatever the hue (or none) when the
      saturation is 0, and also when the channels end up less than Epsilon
      apart, for any hue that NormalizeHue brings into [0,360). */
  lemma AchromaticRoundTrip(h: Option<real>, s: real, l: real)
    requires InRange(s) && InRange(l)
    requires s != 0.0 ==> h.Some? && -360.0 <= h.value < 720.0
    requires s == 0.0 || P2(s, l) - P1(s, l) < Epsilon
    ensures HslToRgb(h, s, l).Ok?
    ensures var c := HslToRgb(h, s, l).value;
      RgbToHsl(c.R, c.G, c.B) == Hsl(None, 0.0, l)
  {
    if s != 0.0 {
      ParamsInRange(s, l);
      AllSectors(P1(s, l), P2(s, l), NormalizeHue(h.value));
    }
  }

  // ---------------------------------------------------------------------
  // RGB to HSL and back

  /** RgbToHsl, then HslToRgb, gives back the channels. */
  predicate RgbRoundTrips(r: real, g: real, b: real)
    requires InRange(r) && InRange(g) && InRange(b)
  {
    var hsl := RgbToHsl(r, g, b);
    HslToRgb(hsl.Hue, hsl.Saturation, hsl.Lightness) == Ok(Rgb(r, g, b))
  }

  lemma QuotientTimes(u: real, d: real)
    requires d != 0.0
    ensures u / d * d == u
  {
  }

  /** The ramp of QqhToRgb at x = 60 * (1 - t) rises by d - d*t. */
  lemma Ramp(d: real, t: real, x: real)
    requires x == 60.0 * (1.0 - t)
    ensures d * x / 60.0 == d - d * t
  {
  }

  /** HslToRgb's p2 and p1, computed from the saturation and lightness
      that RgbToHsl derives from a largest channel p2 and a smallest p1, are
      p2 and p1 again. */
  lemma ParamsRecovered(p1: real, p2: real)
    requires 0.0 <= p1 < p2 <= 1.0
    ensures var l := (p1 + p2) / 2.0;
      var s := if l <= 0.5 then (p2 - p1) / (p2 + p1) else (p2 - p1) / (2.0 - p2 - p1);
      P2(s, l) == p2 && P1(s, l) == p1
  {
    var d, m := p2 - p1, p2 + p1;
    var l := m / 2.0;
    if l <= 0.5 {
      QuotientTimes(d, m);
      assert l * (d / m) == d / 2.0;
    } else {
      QuotientTimes(d, 2.0 - m);
      assert (d / (2.0 - m)) * (1.0 - l) == d / 2.0;
    }
  }

  /** HslToRgb applied to what RgbToHsl returns, once that is known to be
      the hue h with p1 and p2 equal to the smallest and largest channel. */
  lemma HslToRgbOfRecovered(r: real, g: real, b: real, h: real)
    requires InRange(r) && InRange(g) && InRange(b)
    requires Epsilon <= Max3(r, g, b) - Min3(r, g, b)
    requires 0.0 <= h < 360.0 && RecoversHsl(r, g, b, Min3(r, g, b), Max3(r, g, b), h)
    ensures var hsl := RgbToHsl(r, g, b);
      var p1, p2 := Min3(r, g, b), Max3(r, g, b);
      HslToRgb(hsl.Hue, hsl.Saturation, hsl.Lightness)
        == Ok(Rgb(QqhToRgb(p1, p2, h + 120.0), QqhToRgb(p1, p2, h), QqhToRgb(p1, p2, h - 120.0)))
  {
    ParamsRecovered(Min3(r, g, b), Max3(r, g, b));
  }

  /** The RGB round trip when red is largest and blue smallest. */
  lemma RedMaxBlueMin(r: real, g: real, b: real)
    requires InRange(r) && InRange(g) && InRange(b)
    requires Max3(r, g, b) == r && Min3(r, g, b) == b
    requires Epsilon <= r - b
    ensures RgbRoundTrips(r, g, b)
  {
    var d := r - b;
    var t := (r - g) / d;
    QuotientBounds(r - g, d);
    QuotientTimes(r - g, d);
    UnitDistances(b, r);
    var h := 60.0 * (1.0 - t);
    assert RecoversHsl(r, g, b, b, r, h) by {
      HslFromDistances(r, g, b, b, r, 0.0, t, 1.0, h);
    }
    var c := Rgb(QqhToRgb(b, r, h + 120.0), QqhToRgb(b, r, h), QqhToRgb(b, r, h - 120.0));
    assert c == Rgb(r, g, b) by {
      RedMaxBlueMinChannels(b, r, r, g, b, t, h);
    }
    var hsl := RgbToHsl(r, g, b);
    assert HslToRgb(hsl.Hue, hsl.Saturation, hsl.Lightness) == Ok(c) by {
      HslToRgbOfRecovered(r, g, b, h);
    }
  }

  lemma RedMaxBlueMinChannels(p1: real, p2: real, r: real, g: real, b: real, t: real, h: real)
    requires p1 < p2 && p2 == r && p1 == b
    requires 0.0 <= t <= 1.0 && t * (p2 - p1) == r - g && h == 60.0 * (1.0 - t) && 0.0 <= h < 360.0
    ensures QqhToRgb(p1, p2, h + 120.0) == r && QqhToRgb(p1, p2, h) == g && QqhToRgb(p1, p2, h - 120.0) == b
  {
    var d := p2 - p1;
    if h < 60.0 {
      Ramp(d, t, h);
    } else {
      Ramp(d, 0.0, 240.0 - (h + 120.0));
    }
  }

  /** The RGB round trip when red is largest and green smallest. */
  lemma RedMaxGreenMin(r: real, g: real, b: real)
    requires InRange(r) && InRange(g) && InRange(b)
    requires Max3(r, g, b) == r && Min3(r, g, b) == g && g < b
    requires Epsilon <= r - g
    ensures RgbRoundTrips(r, g, b)
  {
    var d := r - g;
    var t := (r - b) / d;
    QuotientBounds(r - b, d);
    QuotientTimes(r - b, d);
    UnitDistances(g, r);
    assert t < 1.0 by {
      if t >= 1.0 {
        MulNonNegative(t - 1.0, d);
      }
    }
    var h := 60.0 * (t - 1.0) + 360.0;
    assert RecoversHsl(r, g, b, g, r, h) by {
      HslFromDistances(r, g, b, g, r, 0.0, 1.0, t, h);
    }
    var c := Rgb(QqhToRgb(g, r, h + 120.0), QqhToRgb(g, r, h), QqhToRgb(g, r, h - 120.0));
    assert c == Rgb(r, g, b) by {
      RedMaxGreenMinChannels(g, r, r, g, b, t, h);
    }
    var hsl := RgbToHsl(r, g, b);
    assert HslToRgb(hsl.Hue, hsl.Saturation, hsl.Lightness) == Ok(c) by {
      HslToRgbOfRecovered(r, g, b, h);
    }
  }

  lemma RedMaxGreenMinChannels(p1: real, p2: real, r: real, g: real, b: real, t: real, h: real)
    requires p1 < p2 && p2 == r && p1 == g && g < b
    requires 0.0 <= t <= 1.0 && t * (p2 - p1) == r - b && h == 60.0 * (t - 1.0) + 360.0 && 0.0 <= h < 360.0
    ensures QqhToRgb(p1, p2, h + 120.0) == r && QqhToRgb(p1, p2, h) == g && QqhToRgb(p1, p2, h - 120.0) == b
  {
    var d := p2 - p1;
    Ramp(d, t, 240.0 - (h - 120.0));
  }

  /** The RGB round trip when green is largest and red smallest. */
  lemma GreenMaxRedMin(r: real, g: real, b: real)
    requires InRange(r) && InRange(g) && InRange(b)
    requires Max3(r, g, b) == g && r < g && Min3(r, g, b) == r
    requires Epsilon <= g - r
    ensures RgbRoundTrips(r, g, b)
  {
    var d := g - r;
    var t := (g - b) / d;
    QuotientBounds(g - b, d);
    QuotientTimes(g - b, d);
    UnitDistances(r, g);
    var h := 60.0 * (3.0 - t);
    assert RecoversHsl(r, g, b, r, g, h) by {
      HslFromDistances(r, g, b, r, g, 1.0, 0.0, t, h);
    }
    var c := Rgb(QqhToRgb(r, g, h + 120.0), QqhToRgb(r, g, h), QqhToRgb(r, g, h - 120.0));
    assert c == Rgb(r, g, b) by {
      GreenMaxRedMinChannels(r, g, r, g, b, t, h);
    }
    var hsl := RgbToHsl(r, g, b);
    assert HslToRgb(hsl.Hue, hsl.Saturation, hsl.Lightness) == Ok(c) by {
      HslToRgbOfRecovered(r, g, b, h);
    }
  }

  lemma GreenMaxRedMinChannels(p1: real, p2: real, r: real, g: real, b: real, t: real, h: real)
    requires p1 < p2 && p2 == g && r < g && p1 == r
    requires 0.0 <= t <= 1.0 && t * (p2 - p1) == g - b && h == 60.0 * (3.0 - t) && 0.0 <= h < 360.0
    ensures QqhToRgb(p1, p2, h + 120.0) == r && QqhToRgb(p1, p2, h) == g && QqhToRgb(p1, p2, h - 120.0) == b
  {
    var d := p2 - p1;
    if h < 180.0 {
      Ramp(d, t, h - 120.0);
    } else {
      Ramp(d, 0.0, 240.0 - h);
    }
  }

  /** The RGB round trip when green is largest and blue smallest. */
  lemma GreenMaxBlueMin(r: real, g: real, b: real)
    requires InRange(r) && InRange(g) && InRange(b)
    requires Max3(r, g, b) == g && r < g && Min3(r, g, b) == b && b < r
    requires Epsilon <= g - b
    ensures RgbRoundTrips(r, g, b)
  {
    var d := g - b;
    var t := (g - r) / d;
    QuotientBounds(g - r, d);
    QuotientTimes(g - r, d);
    UnitDistances(b, g);
    var h := 60.0 * (1.0 + t);
    assert RecoversHsl(r, g, b, b, g, h) by {
      HslFromDistances(r, g, b, b, g, t, 0.0, 1.0, h);
    }
    var c := Rgb(QqhToRgb(b, g, h + 120.0), QqhToRgb(b, g, h), QqhToRgb(b, g, h - 120.0));
    assert c == Rgb(r, g, b) by {
      GreenMaxBlueMinChannels(b, g, r, g, b, t, h);
    }
    var hsl := RgbToHsl(r, g, b);
    assert HslToRgb(hsl.Hue, hsl.Saturation, hsl.Lightness) == Ok(c) by {
      HslToRgbOfRecovered(r, g, b, h);
    }
  }

  lemma GreenMaxBlueMinChannels(p1: real, p2: real, r: real, g: real, b: real, t: real, h: real)
    requires p1 < p2 && p2 == g && r < g && p1 == b && b < r
    requires 0.0 <= t <= 1.0 && t * (p2 - p1) == g - r && h == 60.0 * (1.0 + t) && 0.0 <= h < 360.0
    ensures QqhToRgb(p1, p2, h + 120.0) == r && QqhToRgb(p1, p2, h) == g && QqhToRgb(p1, p2, h - 120.0) == b
  {
    var d := p2 - p1;
    assert t < 1.0 by {
      if t >= 1.0 {
        MulNonNegative(t - 1.0, d);
      }
    }
    Ramp(d, t, 240.0 - (h + 120.0));
  }

  /** The RGB round trip when blue is largest and green smallest. */
  lemma BlueMaxGreenMin(r: real, g: real, b: real)
    requires InRange(r) && InRange(g) && InRange(b)
    requires Max3(r, g, b) == b && r < b && g < b && Min3(r, g, b) == g
    requires Epsilon <= b - g
    ensures RgbRoundTrips(r, g, b)
  {
    var d := b - g;
    var t := (b - r) / d;
    QuotientBounds(b - r, d);
    QuotientTimes(b - r, d);
    UnitDistances(g, b);
    var h := 60.0 * (5.0 - t);
    assert RecoversHsl(r, g, b, g, b, h) by {
      HslFromDistances(r, g, b, g, b, t, 1.0, 0.0, h);
    }
    var c := Rgb(QqhToRgb(g, b, h + 120.0), QqhToRgb(g, b, h), QqhToRgb(g, b, h - 120.0));
    assert c == Rgb(r, g, b) by {
      BlueMaxGreenMinChannels(g, b, r, g, b, t, h);
    }
    var hsl := RgbToHsl(r, g, b);
    assert HslToRgb(hsl.Hue, hsl.Saturation, hsl.Lightness) == Ok(c) by {
      HslToRgbOfRecovered(r, g, b, h);
    }
  }

  lemma BlueMaxGreenMinChannels(p1: real, p2: real, r: real, g: real, b: real, t: real, h: real)
    requires p1 < p2 && p2 == b && r < b && g < b && p1 == g
    requires 0.0 <= t <= 1.0 && t * (p2 - p1) == b - r && h == 60.0 * (5.0 - t) && 0.0 <= h < 360.0
    ensures QqhToRgb(p1, p2, h + 120.0) == r && QqhToRgb(p1, p2, h) == g && QqhToRgb(p1, p2, h - 120.0) == b
  {
    var d := p2 - p1;
    Ramp(d, t, h + 120.0 - 360.0);
  }

  /** The RGB round trip when blue is largest and red smallest. */
  lemma BlueMaxRedMin(r: real, g: real, b: real)
    requires InRange(r) && InRange(g) && InRange(b)
    requires Max3(r, g, b) == b && r < b && g < b && Min3(r, g, b) == r && r < g
    requires Epsilon <= b - r
    ensures RgbRoundTrips(r, g, b)
  {
    var d := b - r;
    var t := (b - g) / d;
    QuotientBounds(b - g, d);
    QuotientTimes(b - g, d);
    UnitDistances(r, b);
    var h := 60.0 * (3.0 + t);
    assert RecoversHsl(r, g, b, r, b, h) by {
      HslFromDistances(r, g, b, r, b, 1.0, t, 0.0, h);
    }
    var c := Rgb(QqhToRgb(r, b, h + 120.0), QqhToRgb(r, b, h), QqhToRgb(r, b, h - 120.0));
    assert c == Rgb(r, g, b) by {
      BlueMaxRedMinChannels(r, b, r, g, b, t, h);
    }
    var hsl := RgbToHsl(r, g, b);
    assert HslToRgb(hsl.Hue, hsl.Saturation, hsl.Lightness) == Ok(c) by {
      HslToRgbOfRecovered(r, g, b, h);
    }
  }

  lemma BlueMaxRedMinChannels(p1: real, p2: real, r: real, g: real, b: real, t: real, h: real)
    requires p1 < p2 && p2 == b && r < b && g < b && p1 == r && r < g
    requires 0.0 <= t <= 1.0 && t * (p2 - p1) == b - g && h == 60.0 * (3.0 + t) && 0.0 <= h < 360.0
    ensures QqhToRgb(p1, p2, h + 120.0) == r && QqhToRgb(p1, p2, h) == g && QqhToRgb(p1, p2, h - 120.0) == b
  {
    var d := p2 - p1;
    Ramp(d, t, 240.0 - h);
  }

  /** For every chromatic color (largest and smallest channel at least
      Epsilon apart), RGB to HSL and back gives exactly the same channels. */
  lemma RgbRoundTrip(r: real, g: real, b: real)
    requires InRange(r) && InRange(g) && InRange(b)
    requires Epsilon <= Max3(r, g, b) - Min3(r, g, b)
    ensures RgbRoundTrips(r, g, b)
  {
    var max, min := Max3(r, g, b), Min3(r, g, b);
    if r == max {
      if min == b {
        RedMaxBlueMin(r, g, b);
      } else {
        RedMaxGreenMin(r, g, b);
      }
    } else if g == max {
      if min == r {
        GreenMaxRedMin(r, g, b);
      } else {
        GreenMaxBlueMin(r, g, b);
      }
    } else {
      if min == g {
        BlueMaxGreenMin(r, g, b);
      } else {
        BlueMaxRedMin(r, g, b);
      }
    }
  }

  /** For a color whose channels are less than Epsilon apart, RgbToHsl
      drops the hue and HslToRgb returns the gray of the same lightness, so
      the round trip is exact exactly when the color is already gray. */
  lemma NearGrayRoundTrip(r: real, g: real, b: real)
    requires InRange(r) && InRange(g) && InRange(b)
    requires Max3(r, g, b) - Min3(r, g, b) < Epsilon
    ensures var l := (Max3(r, g, b) + Min3(r, g, b)) / 2.0;
      var hsl := RgbToHsl(r, g, b);
      HslToRgb(hsl.Hue, hsl.Saturation, hsl.Lightness) == Ok(Rgb(l, l, l))
    ensures RgbRoundTrips(r, g, b) <==> r == g == b
  {
  }

  /** The round trip of HSL (42, 0.7, 0.6) is exact. */
  lemma RoundTripExample()
    ensures HslToRgb(Some(42.0), 0.7, 0.6).Ok?
    ensures var c := HslToRgb(Some(42.0), 0.7, 0.6).value;
      RgbToHsl(c.R, c.G, c.B) == Hsl(Some(42.0), 0.7, 0.6)
  {
    HslRoundTrip(42.0, 0.7, 0.6);
  }
}
