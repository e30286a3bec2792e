/**
 * The part of the command `main` that turns the colour options into the
 * settings `process_image` works with.
 */
module Arguments {
  import opened Wrappers
  import opened Pixels
  import opened Frames
  import opened Numerals
  import opened ColorParsing

  /**
   * `--replacement-color` is parsed first, then `--target-color` when it is
   * given and not empty; the first `ValueError` ends the command.
   */
  function ParseArguments(targetColor: Option<string>, replacementColor: string, keepOnlyBw: bool)
    : (r: ParseResult<Settings>)
    ensures ParseColorChecked(replacementColor).Err? ==> r == Err(ParseColorChecked(replacementColor).error)
    ensures r.Ok? <==>
      && ParseColorChecked(replacementColor).Ok?
      && (targetColor.Some? && targetColor.value != "" ==> ParseColorChecked(targetColor.value).Ok?)
    ensures r.Ok? ==>
      && r.value.replacement == ParseColorChecked(replacementColor).value
      && r.value.keepOnlyBw == keepOnlyBw
      && (r.value.target.None? <==> targetColor.None? || targetColor.value == "")
      && (r.value.target.Some? ==> Ok(r.value.target.value) == ParseColorChecked(targetColor.value))
    ensures r.Err? && ParseColorChecked(replacementColor).Ok? ==>
      && targetColor.Some?
      && r == Err(ParseColorChecked(targetColor.value).error)
  {
    match ParseColorChecked(replacementColor)
    case Err(e) => Err(e)
    case Ok(replacement) =>
      if targetColor.None? || targetColor.value == "" then
        Ok(Settings(None, replacement, keepOnlyBw))
      else
        match ParseColorChecked(targetColor.value)
        case Err(e) => Err(e)
        case Ok(target) => Ok(Settings(Some(target), replacement, keepOnlyBw))
  }

  /**
   * Colour options written as `R,G,B` or as `#rrggbb` give back exactly the
   * colours they spell, for every target, replacement and `--bw-only` value.
   */
  lemma ArgumentsRoundTrip(target: Color, replacement: Color, keepOnlyBw: bool)
    ensures ParseArguments(Some(FormatRgb(target)), FormatRgb(replacement), keepOnlyBw)
      == Ok(Settings(Some(target), replacement, keepOnlyBw))
    ensures ParseArguments(Some(FormatHex(target)), FormatHex(replacement), keepOnlyBw)
      == Ok(Settings(Some(target), replacement, keepOnlyBw))
    ensures ParseArguments(None, FormatRgb(replacement), keepOnlyBw) == Ok(Settings(None, replacement, keepOnlyBw))
  {
    RgbRoundTrip(target);
    RgbRoundTrip(replacement);
    HexRoundTrip(target);
    HexRoundTrip(replacement);
  }

  /** An empty `--target-color` is the same as none. */
  lemma EmptyTargetIsNoTarget(replacementColor: string, keepOnlyBw: bool)
    ensures ParseArguments(Some(""), replacementColor, keepOnlyBw) == ParseArguments(None, replacementColor, keepOnlyBw)
  {
  }

  /** A valid replacement and a non-empty target the parser refuses: the command fails with the target's error. */
  lemma TargetErrorReported(targetColor: string, replacementColor: string, keepOnlyBw: bool)
    requires targetColor != "" && ParseColorChecked(targetColor).Err? && ParseColorChecked(replacementColor).Ok?
    ensures ParseArguments(Some(targetColor), replacementColor, keepOnlyBw)
      == Err(ParseColorChecked(targetColor).error)
  {
  }

  /** Without `--target-color` or `--bw-only`, the settings are the black-and-white policy with the default replacement. */
  lemma DefaultArguments()
    ensures ParseArguments(None, "255,255,255", false) == Ok(Settings(None, White, false))
  {
    assert FormatDecimal(2) == "2";
    assert FormatDecimal(25) == "25";
    assert FormatDecimal(255) == "255";
    assert FormatRgb(White) == "255,255,255";
    ArgumentsRoundTrip(White, White, false);
  }
}
