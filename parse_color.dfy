/**
 * `parse_color`: a colour given as `#RRGGBB` or as `R,G,B`, after the
 * surrounding whitespace is stripped.
 */
module ColorParsing {
  import opened Wrappers
  import opened Pixels
  import opened Text
  import opened Numerals

  /** The three `ValueError`s `parse_color` raises, by message. */
  datatype ColorError =
    | HexLength   // "Hex color must be in #RRGGBB format"
    | InvalidHex  // "Invalid hex color format"
    | InvalidRgb  // "Color must be in either R,G,B format ... or hex format ..."

  datatype ParseResult<T> = Ok(value: T) | Err(error: ColorError)

  /** A colour as `parse_color` returns it: three Python ints, not necessarily in 0..255. */
  datatype Triple = Triple(r: int, g: int, b: int)

  predicate InByteRange(t: Triple) {
    0 <= t.r <= 255 && 0 <= t.g <= 255 && 0 <= t.b <= 255
  }

  function ToTriple(c: Color): (t: Triple)
    ensures InByteRange(t)
  {
    Triple(c.r, c.g, c.b)
  }

  /** The stripped string starts with `#`: the hex branch is taken. */
  predicate IsHexForm(colorStr: string) {
    var s := Strip(colorStr, IsSpace);
    |s| > 0 && s[0] == '#'
  }

  /**
   * `parse_color` as written. In the hex branch each pair goes through
   * `int(pair, 16)` and is returned without a range check; in the decimal
   * branch the stripped string must split on `,` into exactly three fields
   * that `int()` accepts, each in 0..255, and every failure there, the range
   * check included, ends in the same `InvalidRgb` error.
   */
  function ParseColor(colorStr: string): ParseResult<Triple> {
    var s := Strip(colorStr, IsSpace);
    if |s| > 0 && s[0] == '#' then
      if |s| != 7 then Err(HexLength)
      else
        var r, g, b := ParseInt(s[1..3], 16), ParseInt(s[3..5], 16), ParseInt(s[5..7], 16);
        if r.Some? && g.Some? && b.Some? then Ok(Triple(r.value, g.value, b.value))
        else Err(InvalidHex)
    else
      var fields := Split(s, ',');
      if |fields| != 3 then Err(InvalidRgb)
      else
        var r, g, b := ParseInt(fields[0], 10), ParseInt(fields[1], 10), ParseInt(fields[2], 10);
        if r.Some? && g.Some? && b.Some? && InByteRange(Triple(r.value, g.value, b.value)) then
          Ok(Triple(r.value, g.value, b.value))
        else Err(InvalidRgb)
  }

  /**
   * `parse_color` with the range check applied to the hex branch too: it
   * accepts exactly the strings `ParseColor` accepts with all three channels
   * in 0..255, with the same values, and fails with the same error otherwise.
   */
  function ParseColorChecked(colorStr: string): ParseResult<Color> {
    match ParseColor(colorStr)
    case Err(e) => Err(e)
    case Ok(t) =>
      if InByteRange(t) then Ok(Color(t.r, t.g, t.b))
      else Err(InvalidHex)
  }

  /**
   * The corrected parser on a `#` form: it succeeds exactly when the form has
   * seven characters and its three pairs read by `int(pair, 16)` lie in
   * 0..255, and then those are the channels; otherwise it fails with the
   * length message for a wrong length and the hex message for the rest.
   */
  lemma CheckedHexForm(colorStr: string)
    requires IsHexForm(colorStr)
    ensures var s := Strip(colorStr, IsSpace);
      ParseColorChecked(colorStr).Ok? <==>
        && |s| == 7
        && ParseInt(s[1..3], 16).Some? && ParseInt(s[3..5], 16).Some? && ParseInt(s[5..7], 16).Some?
        && InByteRange(Triple(ParseInt(s[1..3], 16).value, ParseInt(s[3..5], 16).value, ParseInt(s[5..7], 16).value))
    ensures var s := Strip(colorStr, IsSpace); var r := ParseColorChecked(colorStr);
      r.Ok? ==>
        && ParseInt(s[1..3], 16) == Some(r.value.r as int)
        && ParseInt(s[3..5], 16) == Some(r.value.g as int)
        && ParseInt(s[5..7], 16) == Some(r.value.b as int)
    ensures var s := Strip(colorStr, IsSpace); var r := ParseColorChecked(colorStr);
      r.Err? ==> r.error == if |s| != 7 then HexLength else InvalidHex
  {
  }

  /**
   * The corrected parser on any other string: it succeeds exactly when the
   * stripped string splits on `,` into three fields that `int()` reads as
   * values in 0..255, and then those are the channels; otherwise it fails
   * with the generic message.
   */
  lemma CheckedDecimalForm(colorStr: string)
    requires !IsHexForm(colorStr)
    ensures var f := Split(Strip(colorStr, IsSpace), ',');
      ParseColorChecked(colorStr).Ok? <==>
        && |f| == 3
        && ParseInt(f[0], 10).Some? && ParseInt(f[1], 10).Some? && ParseInt(f[2], 10).Some?
        && InByteRange(Triple(ParseInt(f[0], 10).value, ParseInt(f[1], 10).value, ParseInt(f[2], 10).value))
    ensures var f := Split(Strip(colorStr, IsSpace), ','); var r := ParseColorChecked(colorStr);
      r.Ok? ==>
        && |f| == 3
        && ParseInt(f[0], 10) == Some(r.value.r as int)
        && ParseInt(f[1], 10) == Some(r.value.g as int)
        && ParseInt(f[2], 10) == Some(r.value.b as int)
    ensures ParseColorChecked(colorStr).Err? ==> ParseColorChecked(colorStr).error == InvalidRgb
  {
  }

  /** `'%d,%d,%d' % (r, g, b)`. */
  function FormatRgb(c: Color): string {
    FormatDecimal(c.r) + "," + FormatDecimal(c.g) + "," + FormatDecimal(c.b)
  }

  /** `'#%02x%02x%02x' % (r, g, b)`. */
  function FormatHex(c: Color): string {
    "#" + FormatHexByte(c.r) + FormatHexByte(c.g) + FormatHexByte(c.b)
  }

  /** The hex branch succeeds with the three values its pairs parse to. */
  lemma HexBranchOk(colorStr: string, r: int, g: int, b: int)
    requires var s := Strip(colorStr, IsSpace);
      && |s| == 7 && s[0] == '#'
      && ParseInt(s[1..3], 16) == Some(r) && ParseInt(s[3..5], 16) == Some(g) && ParseInt(s[5..7], 16) == Some(b)
    ensures ParseColor(colorStr) == Ok(Triple(r, g, b))
  {
  }

  /** The decimal branch succeeds with its three fields' values when they are all in 0..255. */
  lemma DecimalBranchOk(colorStr: string, r: int, g: int, b: int)
    requires var s := Strip(colorStr, IsSpace);
      && !(|s| > 0 && s[0] == '#') && |Split(s, ',')| == 3 && InByteRange(Triple(r, g, b))
      && ParseInt(Split(s, ',')[0], 10) == Some(r)
      && ParseInt(Split(s, ',')[1], 10) == Some(g)
      && ParseInt(Split(s, ',')[2], 10) == Some(b)
    ensures ParseColor(colorStr) == Ok(Triple(r, g, b))
  {
  }

  /** No digit is whitespace to `str.strip()`. */
  lemma DigitNotSpace(c: char, base: nat)
    requires base <= 36 && IsDigit(c, base)
    ensures !IsSpace(c)
  {
  }

  /**
   * Every accepted string yields channels in -15..255. The decimal form
   * always yields channels in 0..255; a channel below 0 comes only from the
   * hex form with a `-` opening one of its pairs.
   */
  lemma ParseColorBounds(colorStr: string)
    ensures ParseColor(colorStr).Ok? ==>
      var t := ParseColor(colorStr).value;
      -15 <= t.r <= 255 && -15 <= t.g <= 255 && -15 <= t.b <= 255
    ensures ParseColor(colorStr).Ok? && !IsHexForm(colorStr) ==> InByteRange(ParseColor(colorStr).value)
    ensures ParseColor(colorStr).Ok? && !InByteRange(ParseColor(colorStr).value) ==>
      var s := Strip(colorStr, IsSpace);
      IsHexForm(colorStr) && |s| == 7 && (s[1] == '-' || s[3] == '-' || s[5] == '-')
  {
    if ParseColor(colorStr).Ok? {
      if IsHexForm(colorStr) {
        HexBounds(colorStr);
      } else {
        DecimalInRange(colorStr);
      }
    }
  }

  /** An accepted `#` form has channels in -15..255, negative only under a `-` opening its pair. */
  lemma HexBounds(colorStr: string)
    requires ParseColor(colorStr).Ok? && IsHexForm(colorStr)
    ensures var t := ParseColor(colorStr).value;
      -15 <= t.r <= 255 && -15 <= t.g <= 255 && -15 <= t.b <= 255
    ensures var t := ParseColor(colorStr).value; var s := Strip(colorStr, IsSpace);
      && |s| == 7
      && (t.r < 0 ==> s[1] == '-') && (t.g < 0 ==> s[3] == '-') && (t.b < 0 ==> s[5] == '-')
  {
    var s := HexBranchFields(colorStr);
    PairsBounds(s, ParseColor(colorStr).value);
  }

  /** Three pairs read by `int(pair, 16)` give channels in -15..255, each negative only under a `-` opening its pair. */
  lemma PairsBounds(s: string, t: Triple)
    requires |s| == 7
    requires ParseInt(s[1..3], 16) == Some(t.r) && ParseInt(s[3..5], 16) == Some(t.g) && ParseInt(s[5..7], 16) == Some(t.b)
    ensures -15 <= t.r <= 255 && -15 <= t.g <= 255 && -15 <= t.b <= 255
    ensures (t.r < 0 ==> s[1] == '-') && (t.g < 0 ==> s[3] == '-') && (t.b < 0 ==> s[5] == '-')
  {
    PairBounds(s[1..3], t.r);
    PairBounds(s[3..5], t.g);
    PairBounds(s[5..7], t.b);
    assert s[1..3][0] == s[1] && s[3..5][0] == s[3] && s[5..7][0] == s[5];
  }

  /** A pair read by `int(pair, 16)` lies in -15..255 and is negative only when it opens with `-`. */
  lemma PairBounds(p: string, v: int)
    requires |p| == 2 && ParseInt(p, 16) == Some(v)
    ensures -15 <= v <= 255 && (v < 0 ==> p[0] == '-')
  {
    ParseHexPairBounds(p);
  }

  /** An accepted `R,G,B` form has all channels in 0..255. */
  lemma DecimalInRange(colorStr: string)
    requires ParseColor(colorStr).Ok? && !IsHexForm(colorStr)
    ensures InByteRange(ParseColor(colorStr).value)
  {
  }

  /** An accepted `#` form is seven characters long and its channels are its three pairs read in base 16. */
  lemma HexBranchFields(colorStr: string) returns (s: string)
    requires ParseColor(colorStr).Ok? && IsHexForm(colorStr)
    ensures s == Strip(colorStr, IsSpace) && |s| == 7
    ensures var t := ParseColor(colorStr).value;
      && ParseInt(s[1..3], 16) == Some(t.r)
      && ParseInt(s[3..5], 16) == Some(t.g)
      && ParseInt(s[5..7], 16) == Some(t.b)
  {
    s := Strip(colorStr, IsSpace);
  }

  /**
   * `#` and six hex digits, either case, parse to the three pairs read as
   * base-16 numbers, each in 0..255, so the corrected parser accepts them too.
   */
  lemma HexDigitsParse(colorStr: string)
    requires var s := Strip(colorStr, IsSpace);
      |s| == 7 && s[0] == '#' && forall k :: 1 <= k < 7 ==> IsDigit(s[k], 16)
    ensures var s := Strip(colorStr, IsSpace);
      ParseColor(colorStr) == Ok(Triple(Value(s[1..3], 16), Value(s[3..5], 16), Value(s[5..7], 16)))
    ensures var s := Strip(colorStr, IsSpace);
      Value(s[1..3], 16) <= 255 && Value(s[3..5], 16) <= 255 && Value(s[5..7], 16) <= 255
  {
    var s := Strip(colorStr, IsSpace);
    HexSlicePairParse(s, 1);
    HexSlicePairParse(s, 3);
    HexSlicePairParse(s, 5);
    HexBranchOk(colorStr, Value(s[1..3], 16), Value(s[3..5], 16), Value(s[5..7], 16));
  }

  /** Six hex digits after `#` are also accepted by the corrected parser. */
  lemma HexDigitsAccepted(colorStr: string)
    requires var s := Strip(colorStr, IsSpace);
      |s| == 7 && s[0] == '#' && forall k :: 1 <= k < 7 ==> IsDigit(s[k], 16)
    ensures ParseColorChecked(colorStr).Ok?
  {
    var s := Strip(colorStr, IsSpace);
    HexDigitsParse(colorStr);
    AcceptedInRange(colorStr, Triple(Value(s[1..3], 16), Value(s[3..5], 16), Value(s[5..7], 16)));
  }

  /** A triple in 0..255 from the as-written parser is accepted by the corrected one. */
  lemma AcceptedInRange(colorStr: string, t: Triple)
    requires ParseColor(colorStr) == Ok(t) && InByteRange(t)
    ensures ParseColorChecked(colorStr) == Ok(Color(t.r, t.g, t.b))
  {
  }

  /** The pair of hex digits at `k` and `k + 1` parses to the byte it denotes. */
  lemma HexSlicePairParse(s: string, k: nat)
    requires k + 2 <= |s| && IsDigit(s[k], 16) && IsDigit(s[k + 1], 16)
    ensures ParseInt(s[k..k + 2], 16) == Some(Value(s[k..k + 2], 16))
    ensures Value(s[k..k + 2], 16) <= 255
  {
    var p := s[k..k + 2];
    assert p[0] == s[k] && p[1] == s[k + 1];
    ParseIntDigits(p, 16);
    ValueOfTwo(p, 16);
  }

  /** A `#` form of any length but 7 is rejected with the length message. */
  lemma HexLengthRejected(colorStr: string)
    requires IsHexForm(colorStr) && |Strip(colorStr, IsSpace)| != 7
    ensures ParseColor(colorStr) == Err(HexLength)
    ensures ParseColorChecked(colorStr) == Err(HexLength)
  {
  }

  /**
   * A seven-character `#` form holding a character that is no hex digit, no
   * sign and no whitespace is rejected as an invalid hex colour.
   */
  lemma HexStrayCharacterRejected(colorStr: string, k: nat)
    requires var s := Strip(colorStr, IsSpace);
      |s| == 7 && s[0] == '#' && 1 <= k < 7
      && !IsDigit(s[k], 16) && s[k] != '+' && s[k] != '-' && !IsIntSpace(s[k])
    ensures ParseColor(colorStr) == Err(InvalidHex)
    ensures ParseColorChecked(colorStr) == Err(InvalidHex)
  {
    var s := Strip(colorStr, IsSpace);
    var start := if k < 3 then 1 else if k < 5 then 3 else 5;
    HexPairStrayCharacter(s[start..start + 2], k - start);
  }

  /** The decimal form needs exactly two commas. */
  lemma CommaCountRejected(colorStr: string)
    requires !IsHexForm(colorStr) && multiset(Strip(colorStr, IsSpace))[','] != 2
    ensures ParseColor(colorStr) == Err(InvalidRgb)
    ensures ParseColorChecked(colorStr) == Err(InvalidRgb)
  {
  }

  /** Writing a colour as `R,G,B` and parsing it gives the colour back. */
  lemma RgbRoundTrip(c: Color)
    ensures ParseColor(FormatRgb(c)) == Ok(ToTriple(c))
    ensures ParseColorChecked(FormatRgb(c)) == Ok(c)
  {
    var s := FormatRgb(c);
    var parts := [FormatDecimal(c.r), FormatDecimal(c.g), FormatDecimal(c.b)];
    FormatRgbShape(c);
    SplitJoin(parts, ',');
    DecimalRoundTrip(c.r);
    DecimalRoundTrip(c.g);
    DecimalRoundTrip(c.b);
    DecimalBranchOk(s, c.r, c.g, c.b);
    AcceptedInRange(s, ToTriple(c));
  }

  /** `R,G,B` text is the join of the three decimal fields, has nothing to strip and does not start with `#`. */
  lemma FormatRgbShape(c: Color)
    ensures var s := FormatRgb(c);
      && s == Join([FormatDecimal(c.r), FormatDecimal(c.g), FormatDecimal(c.b)], ',')
      && Strip(s, IsSpace) == s && s[0] != '#'
  {
    var r, g, b := FormatDecimal(c.r), FormatDecimal(c.g), FormatDecimal(c.b);
    var parts := [r, g, b];
    var s := FormatRgb(c);
    JoinCons(parts, ',');
    JoinCons(parts[1..], ',');
    assert parts[1..][1..] == [b];
    assert s[0] == r[0];
    assert s[|s| - 1] == b[|b| - 1];
    DigitNotSpace(s[0], 10);
    DigitNotSpace(s[|s| - 1], 10);
  }

  /** Writing a colour as `#rrggbb` and parsing it gives the colour back. */
  lemma HexRoundTrip(c: Color)
    ensures ParseColor(FormatHex(c)) == Ok(ToTriple(c))
    ensures ParseColorChecked(FormatHex(c)) == Ok(c)
  {
    var s := FormatHex(c);
    HexFormatParses(c);
    HexBranchOk(s, c.r, c.g, c.b);
    AcceptedInRange(s, ToTriple(c));
  }

  /** `#rrggbb` text has nothing to strip, and `int(pair, 16)` reads each pair back as its channel. */
  lemma HexFormatParses(c: Color)
    ensures var s := FormatHex(c);
      && Strip(s, IsSpace) == s && |s| == 7 && s[0] == '#'
      && ParseInt(s[1..3], 16) == Some(c.r as int)
      && ParseInt(s[3..5], 16) == Some(c.g as int)
      && ParseInt(s[5..7], 16) == Some(c.b as int)
  {
    FormatHexShape(c);
    HexByteRoundTrip(c.r);
    HexByteRoundTrip(c.g);
    HexByteRoundTrip(c.b);
  }

  /** `#rrggbb` text has nothing to strip, and its pairs are the channels' two-digit forms. */
  lemma FormatHexShape(c: Color)
    ensures var s := FormatHex(c);
      && Strip(s, IsSpace) == s && |s| == 7 && s[0] == '#'
      && s[1..3] == FormatHexByte(c.r) && s[3..5] == FormatHexByte(c.g) && s[5..7] == FormatHexByte(c.b)
  {
    var s := FormatHex(c);
    DigitNotSpace(s[6], 16);
  }

  /**
   * The hex branch has no range check: when its three pairs parse and some
   * value lies outside 0..255, the as-written parser returns those values,
   * while the corrected parser refuses them as an invalid hex colour.
   */
  lemma HexRangeUnchecked(colorStr: string)
    requires var s := Strip(colorStr, IsSpace);
      && |s| == 7 && s[0] == '#'
      && ParseInt(s[1..3], 16).Some? && ParseInt(s[3..5], 16).Some? && ParseInt(s[5..7], 16).Some?
      && !InByteRange(Triple(ParseInt(s[1..3], 16).value, ParseInt(s[3..5], 16).value, ParseInt(s[5..7], 16).value))
    ensures var s := Strip(colorStr, IsSpace);
      ParseColor(colorStr) == Ok(Triple(ParseInt(s[1..3], 16).value, ParseInt(s[3..5], 16).value, ParseInt(s[5..7], 16).value))
    ensures ParseColorChecked(colorStr) == Err(InvalidHex)
  {
    var s := Strip(colorStr, IsSpace);
    HexBranchOk(colorStr, ParseInt(s[1..3], 16).value, ParseInt(s[3..5], 16).value, ParseInt(s[5..7], 16).value);
  }

  /** `#-10000` parses to (-1, 0, 0), outside 0..255, where the corrected parser rejects it. */
  lemma HexAcceptsNegative(colorStr: string)
    requires colorStr == "#-10000"
    ensures ParseColor(colorStr) == Ok(Triple(-1, 0, 0))
    ensures ParseColorChecked(colorStr) == Err(InvalidHex)
  {
    NegativeSampleStrip(colorStr);
    SignedPairAt(colorStr, 1);
    ZeroPairAt(colorStr, 3);
    ZeroPairAt(colorStr, 5);
    HexRangeUnchecked(colorStr);
  }

  /** `#-10000` has nothing to strip. */
  lemma NegativeSampleStrip(colorStr: string)
    requires colorStr == "#-10000"
    ensures Strip(colorStr, IsSpace) == colorStr
  {
    assert !IsSpace(colorStr[0]) && !IsSpace(colorStr[6]);
  }

  /** `-1` at `k` parses to -1. */
  lemma SignedPairAt(s: string, k: nat)
    requires k + 2 <= |s| && s[k] == '-' && s[k + 1] == '1'
    ensures ParseInt(s[k..k + 2], 16) == Some(-1)
  {
    var p := s[k..k + 2];
    assert p[0] == '-' && p[1] == '1';
    SignedDigitParses(p, 16);
  }

  /** `00` at `k` parses to 0. */
  lemma ZeroPairAt(s: string, k: nat)
    requires k + 2 <= |s| && s[k] == '0' && s[k + 1] == '0'
    ensures ParseInt(s[k..k + 2], 16) == Some(0)
  {
    var p := s[k..k + 2];
    assert p[0] == '0' && p[1] == '0';
    ParseIntDigits(p, 16);
    ValueOfTwo(p, 16);
  }
}
