/**
 * Pixels and colours as the colour remover sees them once a frame has been
 * converted to RGBA: every channel is an integer in 0..255.
 */
module Pixels {

  /** One 8-bit channel value. */
  type Byte = x: int | 0 <= x <= 255

  /** An RGB triple: a target colour or a replacement colour. */
  datatype Color = Color(r: Byte, g: Byte, b: Byte)

  /** An RGBA pixel; `a` is the alpha channel, `px[3]`. */
  datatype Pixel = Pixel(r: Byte, g: Byte, b: Byte, a: Byte) {
    /** The first three channels, `px[:3]`. */
    function Rgb(): Color { Color(r, g, b) }
  }

  const Black := Color(0, 0, 0)
  const White := Color(255, 255, 255)

  /** `is_color_match`: the pixel's first three channels equal the target's; alpha is not consulted. */
  predicate IsColorMatch(px: Pixel, target: Color) {
    px.Rgb() == target
  }

  /** The test `(px[0], px[1], px[2]) in [(0, 0, 0), (255, 255, 255)]`. */
  predicate IsBlackOrWhite(px: Pixel) {
    px.Rgb() in [Black, White]
  }

  /** `(*replacement_color, px[3])`: a colour given the alpha of the pixel it replaces. */
  function WithAlpha(c: Color, alpha: Byte): Pixel {
    Pixel(c.r, c.g, c.b, alpha)
  }

  /** Changing only the alpha channel never changes whether a pixel matches. */
  lemma MatchIgnoresAlpha(px: Pixel, target: Color, alpha: Byte)
    ensures IsColorMatch(px.(a := alpha), target) == IsColorMatch(px, target)
  {
  }

  /** Every pixel matches its own RGB. */
  lemma MatchReflexive(px: Pixel)
    ensures IsColorMatch(px, px.Rgb())
  {
  }

  /** Matching is symmetric on RGB. */
  lemma MatchSymmetric(p: Pixel, q: Pixel)
    ensures IsColorMatch(p, q.Rgb()) == IsColorMatch(q, p.Rgb())
  {
  }

  /** Black-or-white means: all three channels equal, and all 0 or all 255. */
  lemma BlackOrWhiteChannels(px: Pixel)
    ensures IsBlackOrWhite(px) <==> px.r == px.g == px.b && (px.r == 0 || px.r == 255)
  {
  }
}
