/** ColorLib/ColorDetail.cs: the earlier, RGB-only color value. */
module ColorDetail {
  import opened Wrappers
  import opened ColorCodec

  /** The fields of a ColorDetail: three channel fractions. */
  datatype DetailFields = DetailFields(R: real, G: real, B: real) {
    predicate Valid() {
      InRange(R) && InRange(G) && InRange(B)
    }
  }

  /** Only the constructor creates values, and it admits only channels in
      [0,1], so every ColorDetail satisfies that range. */
  type ColorDetail = c: DetailFields | c.Valid() witness DetailFields(0.0, 0.0, 0.0)

  /** `new ColorDetail(r, g, b)`. */
  function New(r: real, g: real, b: real): (res: Result<ColorDetail, Error>)
    ensures res.Ok? <==> InRange(r) && InRange(g) && InRange(b)
    ensures res.Ok? ==> res.value.R == r && res.value.G == g && res.value.B == b
    ensures res.Err? ==> CheckChannels(r, g, b) == Some(res.error)
  {
    match CheckChannels(r, g, b)
    case Some(e) => Err(e)
    case None => Ok(DetailFields(r, g, b))
  }

  /** `FromBytes`: never fails, since every byte maps into [0,1]. */
  function FromBytes(rb: Byte, gb: Byte, bb: Byte): (res: Result<ColorDetail, Error>)
    ensures res.Ok?
    ensures res.value.R == ByteToFraction(rb)
    ensures res.value.G == ByteToFraction(gb)
    ensures res.value.B == ByteToFraction(bb)
    ensures HexColor(res.value) == "#" + ByteToHex(rb) + ByteToHex(gb) + ByteToHex(bb)
  {
    ByteRoundTrip(rb);
    ByteRoundTrip(gb);
    ByteRoundTrip(bb);
    New(ByteToFraction(rb), ByteToFraction(gb), ByteToFraction(bb))
  }

  /** `FromHex`: fails exactly when the text is not six hex digits after an
      optional '#'; otherwise the color's hex code is the input, lowercased,
      with a '#' in front. */
  function FromHex(text: string): (res: Result<ColorDetail, Error>)
    ensures res.Ok? <==> IsHexColorBody(StripHash(text))
    ensures res == Err(UnsupportedFormat(text)) <==> |StripHash(text)| != 6
    ensures res.Ok? ==> HexColor(res.value) == "#" + LowerHexString(StripHash(text))
    ensures res.Err? ==> HexToBytes(text) == Err(res.error)
    ensures res.Ok? ==>
      && HexToBytes(text).Ok?
      && res.value.R == ByteToFraction(HexToBytes(text).value.0)
      && res.value.G == ByteToFraction(HexToBytes(text).value.1)
      && res.value.B == ByteToFraction(HexToBytes(text).value.2)
  {
    var bytes :- HexToBytes(text);
    FromBytes(bytes.0, bytes.1, bytes.2)
  }

  /** The `HexColor` property: always recomputed from R, G and B; decoding
      it gives the bytes of the three channels. */
  function HexColor(c: ColorDetail): (s: string)
    ensures |s| == 7 && s[0] == '#'
    ensures LowerHexString(s[1..]) == s[1..]
    ensures HexToBytes(s) == Ok((FractionToByte(c.R), FractionToByte(c.G), FractionToByte(c.B)))
  {
    ToHexStringDecodes(c.R, c.G, c.B);
    ToHexString(c.R, c.G, c.B)
  }

  /** Deserialization calls the constructor with the serialized r, g and b
      (the hex field is ignored), and that rebuilds the same color. */
  lemma Reconstruct(c: ColorDetail)
    ensures New(c.R, c.G, c.B) == Ok(c)
  {
  }

  /** Hex code, then FromHex, gives back the bytes of the channels. */
  lemma HexColorFromHex(c: ColorDetail)
    ensures FromHex(HexColor(c)).Ok?
    ensures FromHex(HexColor(c)) == FromBytes(FractionToByte(c.R), FractionToByte(c.G), FractionToByte(c.B))
  {
  }

  /** FromHex, then HexColor, gives back a lowercase hex color written with '#'. */
  lemma FromHexHexColor(text: string)
    requires IsHexColorBody(StripHash(text))
    requires forall i :: 0 <= i < |text| ==> text[i] == '#' || IsLowerHexDigit(text[i])
    requires |text| == 7
    ensures FromHex(text).Ok? && HexColor(FromHex(text).value) == text
  {
    var t := StripHash(text);
    assert "#" + t == text;
    assert LowerHexString(t) == t;
  }

  // ---------------------------------------------------------------------
  // The cases of UnitTest.ColorLib/ColorTests.cs

  lemma YellowHex()
    ensures New(1.0, 1.0, 0.0).Ok?
    ensures HexColor(New(1.0, 1.0, 0.0).value) == "#ffff00"
  {
    var c := New(1.0, 1.0, 0.0).value;
    assert c.R == 1.0 && c.G == 1.0 && c.B == 0.0;
    assert ByteToHex(FractionToByte(1.0)) == "ff" by {
      assert FractionToByte(1.0) == 255;
    }
    assert ByteToHex(FractionToByte(0.0)) == "00" by {
      assert FractionToByte(0.0) == 0;
    }
    assert ToHexString(1.0, 1.0, 0.0) == "#ffff00";
  }

  /** Every byte, 255 included, converts to a fraction and back unchanged. */
  lemma ByteConversionsAreIdempotent()
    ensures forall b: Byte :: FractionToByte(ByteToFraction(b)) == b
  {
    forall b: Byte ensures FractionToByte(ByteToFraction(b)) == b {
      ByteRoundTrip(b);
    }
  }

  lemma ParseWhite()
    ensures FromHex("#ffffff") == Ok(DetailFields(1.0, 1.0, 1.0))
  {
    var t := StripHash("#ffffff");
    assert t == "ffffff";
    assert t[..2] == "ff" && t[2..4] == "ff" && t[4..6] == "ff";
    assert ParseHexByte("ff") == Ok(255);
  }

  lemma ParseBlack()
    ensures FromHex("000000") == Ok(DetailFields(0.0, 0.0, 0.0))
  {
    var t := StripHash("000000");
    assert t == "000000";
    assert t[..2] == "00" && t[2..4] == "00" && t[4..6] == "00";
    assert ParseHexByte("00") == Ok(0);
  }

  lemma ParseViolet()
    ensures FromHex("ff00ff") == Ok(DetailFields(1.0, 0.0, 1.0))
  {
    var t := StripHash("ff00ff");
    assert t == "ff00ff";
    assert t[..2] == "ff" && t[2..4] == "00" && t[4..6] == "ff";
    assert ParseHexByte("ff") == Ok(255);
    assert ParseHexByte("00") == Ok(0);
  }

  lemma ParseWrongLength()
    ensures FromHex("#fffff") == Err(UnsupportedFormat("#fffff"))
    ensures FromHex("##ffffff") == Err(UnsupportedFormat("##ffffff"))
    ensures FromHex("") == Err(UnsupportedFormat(""))
  {
  }

  /** Serializing the color parsed from "#4ef2b0" and deserializing it from
      its r, g and b alone gives a color whose hex code is again "#4ef2b0". */
  lemma SerializeRoundTrip()
    ensures FromHex("#4ef2b0").Ok?
    ensures New(FromHex("#4ef2b0").value.R, FromHex("#4ef2b0").value.G, FromHex("#4ef2b0").value.B).Ok?
    ensures HexColor(New(FromHex("#4ef2b0").value.R, FromHex("#4ef2b0").value.G, FromHex("#4ef2b0").value.B).value) == "#4ef2b0"
  {
    FromHexHexColor("#4ef2b0");
  }
}
