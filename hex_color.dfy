/**
 * The hexadecimal colour codec: `convertHexToRGB` turns a hex colour into
 * red, green and blue fractions for a solid fill, and `convertHexToRGBA`
 * into CSS text `rgba(R,G,B,A)`.
 *
 * Both drop the first '#', double each digit of a 3-digit shorthand, and
 * read the channels from the digit pairs at positions 0-2, 2-4 and 4-6.
 * Digits after the sixth (an alpha pair, say) are not read.
 */
module HexColor {
  import opened Text
  import opened Numerals

  predicate IsHexDigit(c: char) {
    '0' <= c <= '9' || 'a' <= c <= 'f' || 'A' <= c <= 'F'
  }

  predicate AllHex(s: string) {
    forall i :: 0 <= i < |s| ==> IsHexDigit(s[i])
  }

  /** The value of one digit as `parseInt(.., 16)` reads it (either case). */
  function HexDigitValue(c: char): (v: nat)
    requires IsHexDigit(c)
    ensures v < 16
  {
    if '0' <= c <= '9' then (c as int) - ('0' as int)
    else if 'a' <= c <= 'f' then (c as int) - ('a' as int) + 10
    else (c as int) - ('A' as int) + 10
  }

  /** The lower-case digit for a value below 16. */
  function HexDigitChar(v: nat): (c: char)
    requires v < 16
    ensures IsHexDigit(c) && HexDigitValue(c) == v
  {
    if v < 10 then (('0' as int) + v) as char else (('a' as int) + v - 10) as char
  }

  /** `hexCode.replace('#', '')`: a string pattern replaces only its first
      occurrence, wherever it is. */
  function StripHash(hexCode: string): (hex: string)
    ensures '#' !in hexCode ==> hex == hexCode
    ensures '#' in hexCode ==> |hex| == |hexCode| - 1
  {
    if '#' in hexCode then
      var i := IndexOf(hexCode, '#');
      hexCode[..i] + hexCode[i + 1..]
    else hexCode
  }

  /** Stripping takes out the first '#' when there is one, and keeps every
      other character, in order. */
  lemma StripHashRemovesOne(hexCode: string)
    ensures '#' !in hexCode ==> StripHash(hexCode) == hexCode
    ensures '#' in hexCode ==>
      exists i :: 0 <= i < |hexCode| && hexCode[i] == '#' && '#' !in hexCode[..i]
        && StripHash(hexCode) == hexCode[..i] + hexCode[i + 1..]
    ensures '#' in hexCode ==>
      multiset(StripHash(hexCode)) == multiset(hexCode) - multiset{'#'}
  {
    if '#' in hexCode {
      var i := IndexOf(hexCode, '#');
      assert hexCode == hexCode[..i] + [hexCode[i]] + hexCode[i + 1..];
    }
  }

  /** A leading '#' is the one removed, even if the rest holds another. */
  lemma StripLeadingHash(body: string)
    ensures StripHash("#" + body) == body
  {
    var s := "#" + body;
    assert s[0] == '#';
    assert IndexOf(s, '#') == 0;
    assert s[1..] == body;
  }

  /** The 3-digit shorthand with each digit doubled; any other length is
      left as it is. */
  function Expand(hex: string): (r: string)
    ensures |hex| == 3 ==> |r| == 6 && forall i :: 0 <= i < 6 ==> r[i] == hex[i / 2]
    ensures |hex| != 3 ==> r == hex
    ensures AllHex(hex) ==> AllHex(r)
  {
    if |hex| == 3 then [hex[0], hex[0], hex[1], hex[1], hex[2], hex[2]] else hex
  }

  /** What both converters read without producing NaN: once the first '#' is
      dropped, three hex digits, or at least six characters whose first six
      (the only ones read) are hex digits. */
  predicate IsHexCode(hexCode: string) {
    var hex := StripHash(hexCode);
    (|hex| == 3 && AllHex(hex)) || (|hex| >= 6 && AllHex(hex[..6]))
  }

  /** `parseInt(pair, 16)` for a pair of hex digits. */
  function ParseHexByte(pair: string): (v: nat)
    requires |pair| == 2 && AllHex(pair)
    ensures v < 256
  {
    16 * HexDigitValue(pair[0]) + HexDigitValue(pair[1])
  }

  /** Two lower-case hex digits for a byte. */
  function HexByte(v: nat): (pair: string)
    requires v < 256
    ensures |pair| == 2 && AllHex(pair)
  {
    [HexDigitChar(v / 16), HexDigitChar(v % 16)]
  }

  /** `parseInt(.., 16)` ignores case: 'A'..'F' read as 'a'..'f' do. */
  lemma HexDigitCaseInsensitive(c: char)
    requires 'A' <= c <= 'F'
    ensures IsHexDigit(((c as int) + 32) as char)
    ensures HexDigitValue(c) == HexDigitValue(((c as int) + 32) as char)
  {
  }

  lemma HexByteRoundTrip(v: nat)
    requires v < 256
    ensures ParseHexByte(HexByte(v)) == v
  {
  }

  /** Red, green and blue as integers. */
  datatype Channels = Channels(r: nat, g: nat, b: nat)

  predicate IsByteTriple(c: Channels) {
    c.r < 256 && c.g < 256 && c.b < 256
  }

  /** The three integer channels both converters compute. */
  function ParseChannels(hexCode: string): (c: Channels)
    requires IsHexCode(hexCode)
    ensures IsByteTriple(c)
  {
    var hex := Expand(StripHash(hexCode));
    assert AllHex(hex[..6]);
    assert hex[0..2] == hex[..6][0..2] && hex[2..4] == hex[..6][2..4] && hex[4..6] == hex[..6][4..6];
    Channels(ParseHexByte(hex[0..2]), ParseHexByte(hex[2..4]), ParseHexByte(hex[4..6]))
  }

  /** Colour fractions for a solid fill. */
  datatype Rgb = Rgb(r: real, g: real, b: real)

  /** `convertHexToRGB`: each channel divided by 255, so each lies in
      [0, 1] and scaling back by 255 gives the channel exactly. */
  function ConvertHexToRGB(hexCode: string): (rgb: Rgb)
    requires IsHexCode(hexCode)
    ensures 0.0 <= rgb.r <= 1.0 && 0.0 <= rgb.g <= 1.0 && 0.0 <= rgb.b <= 1.0
    ensures var c := ParseChannels(hexCode);
      rgb.r * 255.0 == c.r as real && rgb.g * 255.0 == c.g as real && rgb.b * 255.0 == c.b as real
  {
    var c := ParseChannels(hexCode);
    Rgb(c.r as real / 255.0, c.g as real / 255.0, c.b as real / 255.0)
  }

  /** The opacity `convertHexToRGBA` uses when it is given none. */
  const DefaultOpacity := Decimal(1, 0)

  /** An opacity above 1 and at most 100 is a percentage and is divided by
      100; any other opacity is kept as it is. The division is exact here;
      JavaScript rounds it to the nearest double. */
  function ResolveOpacity(opacity: Decimal): (alpha: Decimal)
    ensures 1.0 < Value(opacity) <= 100.0 ==> Value(alpha) == Value(opacity) / 100.0
    ensures !(1.0 < Value(opacity) <= 100.0) ==> alpha == opacity
  {
    if 1.0 < Value(opacity) <= 100.0 then
      var p := Pow10(opacity.exponent) as real;
      assert Pow10(opacity.exponent + 2) as real == 100.0 * p;
      Decimal(opacity.mantissa, opacity.exponent + 2)
    else opacity
  }

  /** `rgba(R,G,B,A)` from its four texts. */
  function RgbaText(r: string, g: string, b: string, a: string): (t: string)
    ensures |t| == |r| + |g| + |b| + |a| + 9
    ensures t[..5] == "rgba(" && t[|t| - 1] == ')'
  {
    "rgba(" + r + "," + g + "," + b + "," + a + ")"
  }

  /** `convertHexToRGBA`: the integer channels and the resolved opacity, as
      text. */
  function ConvertHexToRGBA(hexCode: string, opacity: Decimal): (s: string)
    requires IsHexCode(hexCode)
    ensures exists r, g, b, a :: s == RgbaText(r, g, b, a) && IsRgbaParts(ParseChannels(hexCode), ResolveOpacity(opacity), r, g, b, a)
  {
    var c := ParseChannels(hexCode);
    var alpha := ResolveOpacity(opacity);
    NatToStringRoundTrip(c.r);
    NatToStringRoundTrip(c.g);
    NatToStringRoundTrip(c.b);
    FormatDecimalReadsBack(alpha);
    RgbaText(NatToString(c.r), NatToString(c.g), NatToString(c.b), FormatDecimal(alpha))
  }

  /** The four texts of an rgba colour: decimal digits that denote the three
      channels, and a number that reads back as the opacity. */
  predicate IsRgbaParts(c: Channels, alpha: Decimal, r: string, g: string, b: string, a: string) {
    IsChannelText(r, c.r) && IsChannelText(g, c.g) && IsChannelText(b, c.b)
    && a != [] && CanonicalNumber(a) && (a[0] == '-' <==> Value(alpha) < 0.0)
    && ReadDecimal(a) == Some(Normalize(alpha))
  }

  /** Decimal digits without a leading zero that denote `v`. */
  predicate IsChannelText(t: string, v: nat) {
    t != [] && AllDigits(t) && (|t| > 1 ==> t[0] != '0') && DigitsValue(t) == v
  }

  /** The contract of `ConvertHexToRGBA` fixes its text: any parts it
      allows assemble to the very text the converter returns. */
  lemma ConvertHexToRGBAUnique(hexCode: string, opacity: Decimal, r: string, g: string, b: string, a: string)
    requires IsHexCode(hexCode)
    requires IsRgbaParts(ParseChannels(hexCode), ResolveOpacity(opacity), r, g, b, a)
    ensures RgbaText(r, g, b, a) == ConvertHexToRGBA(hexCode, opacity)
  {
    CanonicalDigitsRoundTrip(r);
    CanonicalDigitsRoundTrip(g);
    CanonicalDigitsRoundTrip(b);
    FormatDecimalUnique(ResolveOpacity(opacity), a);
  }

  // ---------------------------------------------------------------------
  // Properties.

  /** A 3-digit code means the same colour as its doubled 6-digit form, to
      both converters and for every opacity. */
  lemma ShorthandExpansion(hexCode: string, opacity: Decimal)
    requires IsHexCode(hexCode) && |StripHash(hexCode)| == 3
    ensures var h := StripHash(hexCode);
      var long := [h[0], h[0], h[1], h[1], h[2], h[2]];
      IsHexCode(long)
      && ConvertHexToRGB(hexCode) == ConvertHexToRGB(long)
      && ConvertHexToRGBA(hexCode, opacity) == ConvertHexToRGBA(long, opacity)
  {
    var h := StripHash(hexCode);
    var long := [h[0], h[0], h[1], h[1], h[2], h[2]];
    assert '#' !in long by {
      forall i | 0 <= i < 6 ensures long[i] != '#' { assert IsHexDigit(long[i]); }
    }
    assert StripHash(long) == long;
    assert Expand(h) == long;
    assert ParseChannels(hexCode) == ParseChannels(long);
  }

  /** A 6-digit body after one '#' gives the pairs at 0-2, 2-4 and 4-6. */
  lemma ChannelPositions(body: string)
    requires |body| >= 6 && AllHex(body[..6])
    ensures IsHexCode("#" + body)
    ensures ParseChannels("#" + body)
         == Channels(ParseHexByte(body[0..2]), ParseHexByte(body[2..4]), ParseHexByte(body[4..6]))
  {
    StripLeadingHash(body);
  }

  /** Characters after the sixth (an 8-digit code's alpha pair, or anything
      else) change nothing. */
  lemma AlphaDigitsIgnored(body: string)
    requires |body| >= 6 && AllHex(body[..6])
    ensures IsHexCode("#" + body) && IsHexCode("#" + body[..6])
    ensures ParseChannels("#" + body) == ParseChannels("#" + body[..6])
  {
    ChannelPositions(body);
    PrefixChannels(body);
  }

  lemma PrefixChannels(body: string)
    requires |body| >= 6 && AllHex(body[..6])
    ensures IsHexCode("#" + body[..6])
    ensures ParseChannels("#" + body[..6])
         == Channels(ParseHexByte(body[0..2]), ParseHexByte(body[2..4]), ParseHexByte(body[4..6]))
  {
    var six := body[..6];
    assert six[..6] == six;
    ChannelPositions(six);
    assert six[0..2] == body[0..2] && six[2..4] == body[2..4] && six[4..6] == body[4..6];
  }

  /** `#` followed by the three channels as lower-case hex pairs. */
  function HexCode(c: Channels): (hexCode: string)
    requires IsByteTriple(c)
    ensures |hexCode| == 7
  {
    "#" + HexByte(c.r) + HexByte(c.g) + HexByte(c.b)
  }

  lemma PairSlices(p: string, q: string, r: string)
    requires |p| == 2 && |q| == 2 && |r| == 2
    ensures (p + q + r)[0..2] == p && (p + q + r)[2..4] == q && (p + q + r)[4..6] == r
  {
  }

  /** Writing channels as a hex code and reading it back gives them again,
      and the normalised fractions scale back to the same bytes. */
  lemma HexCodeRoundTrip(c: Channels)
    requires IsByteTriple(c)
    ensures IsHexCode(HexCode(c)) && ParseChannels(HexCode(c)) == c
    ensures ConvertHexToRGB(HexCode(c)) == Rgb(c.r as real / 255.0, c.g as real / 255.0, c.b as real / 255.0)
  {
    var body := HexByte(c.r) + HexByte(c.g) + HexByte(c.b);
    assert HexCode(c) == "#" + body;
    assert AllHex(body) && body[..6] == body;
    ChannelPositions(body);
    PairSlices(HexByte(c.r), HexByte(c.g), HexByte(c.b));
    HexByteRoundTrip(c.r);
    HexByteRoundTrip(c.g);
    HexByteRoundTrip(c.b);
  }

  /** Reading a 6-digit code and writing it back gives the same code, up to
      the case of its letters. */
  lemma ParseChannelsRoundTrip(body: string)
    requires |body| == 6 && AllHex(body)
    ensures IsHexCode("#" + body)
    ensures HexCode(ParseChannels("#" + body)) == "#" + LowerHex(body)
  {
    assert body[..6] == body;
    ChannelPositions(body);
    PairsLowerHex(body);
  }

  /** The three pairs of a 6-digit code, each re-encoded, spell the code in
      lower case. */
  lemma PairsLowerHex(body: string)
    requires |body| == 6 && AllHex(body)
    ensures HexByte(ParseHexByte(body[0..2])) + HexByte(ParseHexByte(body[2..4])) + HexByte(ParseHexByte(body[4..6]))
         == LowerHex(body)
  {
    var p, q, r := body[0..2], body[2..4], body[4..6];
    assert body == p + q + r;
    HexByteOfPair(p);
    HexByteOfPair(q);
    HexByteOfPair(r);
    LowerHexConcat(p, q, r);
  }

  lemma LowerHexConcat(p: string, q: string, r: string)
    requires AllHex(p) && AllHex(q) && AllHex(r)
    ensures AllHex(p + q + r) && LowerHex(p + q + r) == LowerHex(p) + LowerHex(q) + LowerHex(r)
  {
    assert AllHex(p + q + r);
  }

  /** A hex string with its letters in lower case. */
  function LowerHex(s: string): (t: string)
    requires AllHex(s)
    ensures |t| == |s|
    ensures forall i :: 0 <= i < |s| ==> t[i] == HexDigitChar(HexDigitValue(s[i]))
  {
    seq(|s|, i requires 0 <= i < |s| => HexDigitChar(HexDigitValue(s[i])))
  }

  lemma HexByteOfPair(pair: string)
    requires |pair| == 2 && AllHex(pair)
    ensures HexByte(ParseHexByte(pair)) == LowerHex(pair)
  {
    var v := ParseHexByte(pair);
    assert v / 16 == HexDigitValue(pair[0]);
    assert v % 16 == HexDigitValue(pair[1]);
  }

  /** Percentages become fractions and fractions stay: resolving twice is
      resolving once. */
  lemma ResolveOpacityIdempotent(opacity: Decimal)
    ensures ResolveOpacity(ResolveOpacity(opacity)) == ResolveOpacity(opacity)
  {
  }

  /** Any opacity from 0 to 100 resolves into [0, 1]. */
  lemma ResolveOpacityInUnitRange(opacity: Decimal)
    requires 0.0 <= Value(opacity) <= 100.0
    ensures 0.0 <= Value(ResolveOpacity(opacity)) <= 1.0
  {
  }

  lemma DigitsHaveNoComma(s: string)
    requires AllDigits(s)
    ensures ',' !in s
  {
    forall i | 0 <= i < |s| ensures s[i] != ',' { assert IsDigit(s[i]); }
  }

  /** Text before the first comma is determined by the whole. */
  lemma SplitAtComma(x: string, y: string, x': string, y': string)
    requires ',' !in x && ',' !in x'
    requires x + "," + y == x' + "," + y'
    ensures x == x' && y == y'
  {
    var s := x + "," + y;
    assert s[..|x|] == x;
    assert s[..|x'|] == x';
    IndexOfAt(s, ',', |x|);
    IndexOfAt(s, ',', |x'|);
    assert y == s[|x| + 1..] == y';
  }

  /** The rgba text is unambiguous: it determines each of its parts. */
  lemma RgbaTextInjective(r: string, g: string, b: string, a: string,
                          r': string, g': string, b': string, a': string)
    requires AllDigits(r) && AllDigits(g) && AllDigits(b)
    requires AllDigits(r') && AllDigits(g') && AllDigits(b')
    requires RgbaText(r, g, b, a) == RgbaText(r', g', b', a')
    ensures r == r' && g == g' && b == b' && a == a'
  {
    DigitsHaveNoComma(r); DigitsHaveNoComma(g); DigitsHaveNoComma(b);
    DigitsHaveNoComma(r'); DigitsHaveNoComma(g'); DigitsHaveNoComma(b');
    var s, s' := RgbaText(r, g, b, a), RgbaText(r', g', b', a');
    assert s[5..] == r + "," + (g + "," + (b + "," + (a + ")")));
    assert s'[5..] == r' + "," + (g' + "," + (b' + "," + (a' + ")")));
    SplitAtComma(r, g + "," + (b + "," + (a + ")")), r', g' + "," + (b' + "," + (a' + ")")));
    SplitAtComma(g, b + "," + (a + ")"), g', b' + "," + (a' + ")"));
    SplitAtComma(b, a + ")", b', a' + ")");
    assert a == (a + ")")[..|a|];
    assert a' == (a' + ")")[..|a'|];
  }

  /** The rgba text determines the colour's channels and its resolved
      opacity: different colours never share a text. */
  lemma ConvertHexToRGBAInjective(h: string, o: Decimal, h': string, o': Decimal)
    requires IsHexCode(h) && IsHexCode(h')
    requires ConvertHexToRGBA(h, o) == ConvertHexToRGBA(h', o')
    ensures ParseChannels(h) == ParseChannels(h')
    ensures Value(ResolveOpacity(o)) == Value(ResolveOpacity(o'))
  {
    var c, c' := ParseChannels(h), ParseChannels(h');
    RgbaTextInjective(NatToString(c.r), NatToString(c.g), NatToString(c.b), FormatDecimal(ResolveOpacity(o)),
                      NatToString(c'.r), NatToString(c'.g), NatToString(c'.b), FormatDecimal(ResolveOpacity(o')));
    NatToStringInjective(c.r, c'.r);
    NatToStringInjective(c.g, c'.g);
    NatToStringInjective(c.b, c'.b);
    FormatDecimalInjective(ResolveOpacity(o), ResolveOpacity(o'));
  }

  // ---------------------------------------------------------------------
  // Worked examples.

  lemma ByteTexts()
    ensures NatToString(0) == "0" && NatToString(5) == "5" && NatToString(255) == "255"
  {
    assert NatToString(25) == "25";
  }

  /** Upper-case digits read as their lower-case forms. */
  lemma UpperCaseExample()
    ensures IsHexCode("#FF0000") && ParseChannels("#FF0000") == Channels(255, 0, 0)
  {
  }

  lemma RedChannels()
    ensures IsHexCode("#ff0000") && ParseChannels("#ff0000") == Channels(255, 0, 0)
  {
  }

  lemma GreenChannels()
    ensures IsHexCode("#00ff00") && ParseChannels("#00ff00") == Channels(0, 255, 0)
  {
  }

  lemma BlueChannels()
    ensures IsHexCode("#0000ff") && ParseChannels("#0000ff") == Channels(0, 0, 255)
  {
  }

  lemma OpacityTexts()
    ensures FormatDecimal(ResolveOpacity(DefaultOpacity)) == "1"
    ensures FormatDecimal(ResolveOpacity(Decimal(50, 0))) == "0.5"
    ensures FormatDecimal(ResolveOpacity(Decimal(5, 1))) == "0.5"
  {
    assert ResolveOpacity(DefaultOpacity) == DefaultOpacity;
    assert ResolveOpacity(Decimal(50, 0)) == Decimal(50, 2);
    assert ResolveOpacity(Decimal(5, 1)) == Decimal(5, 1);
    HalfText();
  }

  lemma HalfText()
    ensures FormatDecimal(Decimal(50, 2)) == "0.5" && FormatDecimal(Decimal(5, 1)) == "0.5"
  {
    assert Normalize(Decimal(50, 2)) == Decimal(5, 1);
  }

  /** The rgba text assembled from the texts of its parts. */
  lemma RgbaFromParts(hexCode: string, opacity: Decimal, r: string, g: string, b: string, a: string)
    requires IsHexCode(hexCode)
    requires NatToString(ParseChannels(hexCode).r) == r && NatToString(ParseChannels(hexCode).g) == g
    requires NatToString(ParseChannels(hexCode).b) == b && FormatDecimal(ResolveOpacity(opacity)) == a
    ensures ConvertHexToRGBA(hexCode, opacity) == RgbaText(r, g, b, a)
  {
  }

  lemma ExampleParts()
    ensures IsHexCode("#ff0000") && IsHexCode("#00ff00") && IsHexCode("#0000ff")
    ensures ConvertHexToRGBA("#ff0000", DefaultOpacity) == RgbaText("255", "0", "0", "1")
    ensures ConvertHexToRGBA("#00ff00", Decimal(50, 0)) == RgbaText("0", "255", "0", "0.5")
    ensures ConvertHexToRGBA("#0000ff", Decimal(5, 1)) == RgbaText("0", "0", "255", "0.5")
  {
    RedChannels();
    GreenChannels();
    BlueChannels();
    ByteTexts();
    OpacityTexts();
    RgbaFromParts("#ff0000", DefaultOpacity, "255", "0", "0", "1");
    RgbaFromParts("#00ff00", Decimal(50, 0), "0", "255", "0", "0.5");
    RgbaFromParts("#0000ff", Decimal(5, 1), "0", "0", "255", "0.5");
  }

  lemma ExampleTexts()
    ensures RgbaText("255", "0", "0", "1") == "rgba(255,0,0,1)"
    ensures RgbaText("0", "255", "0", "0.5") == "rgba(0,255,0,0.5)"
    ensures RgbaText("0", "0", "255", "0.5") == "rgba(0,0,255,0.5)"
  {
  }

  /** Red at the default opacity. */
  lemma RedExample()
    ensures IsHexCode("#ff0000")
    ensures ConvertHexToRGBA("#ff0000", DefaultOpacity) == "rgba(255,0,0,1)"
  {
    ExampleParts();
    ExampleTexts();
  }

  /** 50 is a percentage: it becomes 0.5. */
  lemma GreenPercentExample()
    ensures IsHexCode("#00ff00")
    ensures ConvertHexToRGBA("#00ff00", Decimal(50, 0)) == "rgba(0,255,0,0.5)"
  {
    ExampleParts();
    ExampleTexts();
  }

  /** 0.5 is already a fraction: it passes through. */
  lemma BlueFractionExample()
    ensures IsHexCode("#0000ff")
    ensures ConvertHexToRGBA("#0000ff", Decimal(5, 1)) == "rgba(0,0,255,0.5)"
  {
    ExampleParts();
    ExampleTexts();
  }
}
