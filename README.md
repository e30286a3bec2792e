# Color Remover — a Dafny model of its pixel and colour logic

The Color Remover tool reads an image (a still image or an animated GIF),
decides for every pixel whether to keep it or to replace it with a
replacement colour, and writes the result. This project models the parts of
`color_remover.py` that carry that logic:

- `is_color_match` and the black-or-white test on pixels (module `Pixels`);
- `process_single_frame`, the loop that builds the new pixel list of a frame,
  and the frame loop of `process_image` (module `Frames`);
- `parse_color`, which reads a colour given as `#RRGGBB` or `R,G,B`
  (module `ColorParsing`), together with the Python built-ins it relies on:
  `str.strip`, `str.split` (module `Text`) and `int(s, base)` (module
  `Numerals`);
- the step of the `main` command that turns the colour options into the
  settings for `process_image` (module `Arguments`).

A pixel is an RGBA value with channels in 0..255 (`Pixels.Pixel`), as every
frame is converted to RGBA before processing. The processing of one frame is
specified by the function `Frames.Recolor` on a single pixel; the method
`Frames.ProcessSingleFrame` is proved to produce, in order, exactly the
recoloured pixels of its input and the same frame size.

Matching is exact equality of the first three channels, and a replaced pixel
keeps the alpha of the pixel it replaces.

## Model

| member | source | states |
|---|---|---|
| Pixels.IsColorMatch | color_remover.py:78-80 | `is_color_match` compares the first three channels; its properties are stated by MatchIgnoresAlpha, MatchReflexive and MatchSymmetric |
| Pixels.IsBlackOrWhite | color_remover.py:142 | the test `(px[0], px[1], px[2]) in [(0, 0, 0), (255, 255, 255)]`, also at line 154; BlackOrWhiteChannels characterises it by channels |
| Pixels.MatchIgnoresAlpha | color_remover.py:78-80 | changing only the alpha channel never changes whether a pixel matches a target |
| Pixels.MatchReflexive | color_remover.py:78-80 | every pixel matches its own RGB |
| Pixels.MatchSymmetric | color_remover.py:78-80 | pixel p matches q's RGB exactly when q matches p's RGB |
| Pixels.BlackOrWhiteChannels | color_remover.py:142 | a pixel is black-or-white exactly when its three channels are equal and all 0 or all 255 |
| Frames.Recolor | color_remover.py:139-157 | the pixel appended for `px` keeps `px`'s alpha and is either `px` itself or the replacement colour |
| Frames.BwOnlyPolicy | color_remover.py:140-145 | with `keep_only_bw`, black and white pixels are kept and every other pixel becomes the replacement, whatever the target; the output equals the input iff the pixel is black, white or already the replacement colour |
| Frames.TargetPolicy | color_remover.py:146-151 | with a target and no `keep_only_bw`, matching pixels become the replacement and others are kept; a pixel changes iff it matches and the replacement differs from the target |
| Frames.DefaultIsBwOnly | color_remover.py:152-157 | without target and without `keep_only_bw`, each pixel gets the same result as in black/white-only mode, for any target |
| Frames.FrameDefaultIsBwOnly | color_remover.py:139-157 | a pixel list is the default-mode output of a frame iff it is the black/white-only output |
| Frames.RecolorIdempotent | color_remover.py:139-157 | recolouring an already recoloured pixel with the same settings changes nothing |
| Frames.FrameIdempotent | color_remover.py:139-159 | processing a processed frame again with the same settings gives the same pixels |
| Frames.ProcessSingleFrame | color_remover.py:127-160 | the new frame has the source frame's width and height and one pixel per grid position, each the recoloured source pixel at the same position, with its alpha kept |
| Frames.ProcessImage | color_remover.py:102-125 | a GIF yields one processed frame per source frame, in order, each with its source's size; any other image yields its single processed frame |
| Text.StripLeft | color_remover.py:175 | the result is a suffix of the input that does not start with a stripped character, and everything removed is stripped characters |
| Text.StripRight | color_remover.py:175 | the result is a prefix of the input that does not end with a stripped character, and everything removed is stripped characters |
| Text.Strip | color_remover.py:175 | the result neither starts nor ends with whitespace, and a string that neither starts nor ends with whitespace is unchanged |
| Text.StripSlice | color_remover.py:175 | the stripped string is a contiguous slice of the input with only whitespace before and after it |
| Text.StripEmptyIffAllSpace | color_remover.py:175 | stripping leaves nothing exactly when the whole string is whitespace |
| Text.Split | color_remover.py:192 | `split(',')` yields one more piece than there are commas, and no piece contains a comma |
| Text.JoinSplit | color_remover.py:192 | joining the pieces of a split with the separator gives back the original string |
| Text.SplitJoin | color_remover.py:192 | splitting a join of comma-free pieces gives back the pieces |
| Numerals.ParseInt | color_remover.py:183-185 | `int(s, base)` on ASCII text, also used at line 192; its properties are stated by ParseIntDigits, ParseHexPairBounds, HexPairStrayCharacter, DecimalRoundTrip and HexByteRoundTrip |
| Numerals.ParseIntDigits | color_remover.py:183-185 | `int(s, base)` of a non-empty run of digits of that base is the number the digits denote |
| Numerals.ParseHexPairBounds | color_remover.py:183-185 | a two-character pair read by `int(pair, 16)` is, when accepted, in -15..255, and negative only when it starts with `-` |
| Numerals.HexPairStrayCharacter | color_remover.py:183-185 | a two-character pair holding a character that is no hex digit, no sign and no whitespace is refused by `int(pair, 16)` |
| Numerals.FormatDecimalValue | color_remover.py:192 | the digits of `str(n)` denote `n` |
| Numerals.DecimalRoundTrip | color_remover.py:192 | `int(str(n))` is `n` for every natural number |
| Numerals.HexByteRoundTrip | color_remover.py:183-185 | `int('%02x' % n, 16)` is `n` for every channel value |
| ColorParsing.ParseColor | color_remover.py:162-197 | `parse_color` as written; its properties are stated by ParseColorBounds, DecimalInRange, HexDigitsParse, HexLengthRejected, HexStrayCharacterRejected, CommaCountRejected, RgbRoundTrip, HexRoundTrip and HexRangeUnchecked |
| ColorParsing.CheckedHexForm | color_remover.py:178-188 | with the range check applied, a `#` form is accepted exactly when it has seven characters and its three pairs read by `int(pair, 16)` lie in 0..255, and those are the channels; a wrong length fails with the length message, anything else with the hex message |
| ColorParsing.CheckedDecimalForm | color_remover.py:190-197 | any other string is accepted exactly when it splits on `,` into three fields that `int()` reads as values in 0..255, and those are the channels; otherwise it fails with the generic message |
| ColorParsing.ParseColorBounds | color_remover.py:181-195 | accepted channels are in -15..255; the `R,G,B` form always yields 0..255; a channel below 0 comes only from the `#` form with a `-` opening a pair |
| ColorParsing.DecimalInRange | color_remover.py:191-195 | an accepted `R,G,B` string always has all three channels in 0..255 |
| ColorParsing.HexDigitsParse | color_remover.py:178-186 | `#` followed by six hex digits of either case parses to the three pairs read in base 16, each at most 255 |
| ColorParsing.HexDigitsAccepted | color_remover.py:178-186 | `#` followed by six hex digits is accepted by the corrected parser too |
| ColorParsing.HexLengthRejected | color_remover.py:178-180 | a stripped string starting with `#` whose length is not 7 fails with "Hex color must be in #RRGGBB format" |
| ColorParsing.HexStrayCharacterRejected | color_remover.py:181-188 | a seven-character `#` form holding a character that is no hex digit, no sign and no whitespace fails with "Invalid hex color format" |
| ColorParsing.CommaCountRejected | color_remover.py:190-197 | a non-`#` string without exactly two commas fails with the generic R,G,B-or-hex message |
| ColorParsing.RgbRoundTrip | color_remover.py:190-195 | writing any colour as `R,G,B` in decimal and parsing it gives the colour back |
| ColorParsing.HexRoundTrip | color_remover.py:178-186 | writing any colour as `#rrggbb` and parsing it gives the colour back |
| ColorParsing.HexRangeUnchecked | color_remover.py:181-186 | when the three pairs of a `#` form parse and some value lies outside 0..255, the as-written parser returns those values unchanged, while the corrected parser fails with "Invalid hex color format" |
| ColorParsing.HexAcceptsNegative | color_remover.py:181-186 | the as-written parser returns (-1, 0, 0) for `#-10000`, which the corrected parser rejects |
| Arguments.ParseArguments | color_remover.py:224-227 | the step of `main` that parses the replacement and the optional target colour into the settings for `process_image`; its properties are stated by ArgumentsRoundTrip, EmptyTargetIsNoTarget, TargetErrorReported and DefaultArguments |
| Arguments.ArgumentsRoundTrip | color_remover.py:224-227 | for every target, replacement and `--bw-only` value, options written as `R,G,B` or as `#rrggbb` give settings holding exactly those colours |
| Arguments.EmptyTargetIsNoTarget | color_remover.py:225 | an empty `--target-color` gives the same result as no target, for every replacement |
| Arguments.TargetErrorReported | color_remover.py:224-225 | with a valid replacement, a non-empty target the parser refuses ends the command with that target's error |
| Arguments.DefaultArguments | color_remover.py:210-227 | with the default options (replacement `255,255,255`, no target, no `--bw-only`) the settings are white replacement in default mode |

## Left out

- Image decoding and encoding (`Image.open`, `convert("RGBA")`, `getdata`, `putdata`, `save`): a frame is given as its size and its RGBA pixels in row order.
- Frames.ProcessImage: the file extension test is a boolean parameter, and the GIF save options (loop count, frame duration, disposal 2) are not modelled.
- The input-file existence check, console messages, exit codes and the `doc` command and `typer` wiring of the command line.
- Numerals.ParseInt: non-ASCII Unicode decimal digits, which Python's `int()` also accepts, and the digit-count limit of newer Python versions are not modelled; all other rules (surrounding whitespace, sign, `0x` prefix in base 16, single underscores between digits) are.
- Frames.ProcessSingleFrame: the pixel list is a sequence value rebuilt by the loop; Pillow's in-place image buffer is not modelled.
- Arguments.ParseArguments: uses the corrected colour parser, so a `#` colour with a negative pair is rejected here rather than passed on as in the code.

## Findings

| source | as written | input that shows it | evidently intended | confidence | as-written member | corrected member |
|---|---|---|---|---|---|---|
| color_remover.py:181-186 | the `#RRGGBB` branch returns `int(pair, 16)` for each pair without the 0..255 check the `R,G,B` branch applies, and `int()` accepts a sign | `#-10000` parses to (-1, 0, 0) | every parsed channel lies in 0..255, as for the `R,G,B` form | medium, not executed | ColorParsing.HexAcceptsNegative | ColorParsing.ParseColorChecked |
