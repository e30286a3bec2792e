/**
 * The per-pixel colour replacement of `process_single_frame` and the
 * frame loop of `process_image`.
 */
module Frames {
  import opened Wrappers
  import opened Pixels

  /** What `process_single_frame` receives besides the image: `target_color`, `replacement_color`, `keep_only_bw`. */
  datatype Settings = Settings(target: Option<Color>, replacement: Color, keepOnlyBw: bool)

  /** A frame after `convert("RGBA")`: its size and its pixels in `getdata` order. */
  datatype Frame = Frame(width: nat, height: nat, pixels: seq<Pixel>)

  /**
   * The pixel that one iteration of the loop in `process_single_frame`
   * appends for `px`: either `px` itself or the replacement colour with
   * `px`'s alpha.
   */
  function Recolor(px: Pixel, s: Settings): (q: Pixel)
    ensures q.a == px.a
    ensures q == px || q == WithAlpha(s.replacement, px.a)
  {
    if s.keepOnlyBw then
      if IsBlackOrWhite(px) then px else WithAlpha(s.replacement, px.a)
    else if s.target.Some? then
      if IsColorMatch(px, s.target.value) then WithAlpha(s.replacement, px.a) else px
    else
      if IsBlackOrWhite(px) then px else WithAlpha(s.replacement, px.a)
  }

  /** `out` is `src` with every pixel recoloured, same length, same order. */
  ghost predicate RecoloredFrom(src: seq<Pixel>, out: seq<Pixel>, s: Settings) {
    |out| == |src| && forall i :: 0 <= i < |src| ==> out[i] == Recolor(src[i], s)
  }

  /** A frame holds one pixel per grid position, as every decoded image does. */
  predicate WellSized(f: Frame) {
    |f.pixels| == f.width * f.height
  }

  /** `out` is what processing `src` yields: the same size, recoloured pixels. */
  ghost predicate Processed(src: Frame, out: Frame, s: Settings) {
    out.width == src.width && out.height == src.height && RecoloredFrom(src.pixels, out.pixels, s)
  }

  /**
   * Black/white-only mode: black and white pixels are kept, every other pixel
   * becomes the replacement colour, whatever the target. The output pixel
   * equals the input exactly when the input is black or white or already has
   * the replacement colour.
   */
  lemma BwOnlyPolicy(px: Pixel, s: Settings)
    requires s.keepOnlyBw
    ensures IsBlackOrWhite(px) ==> Recolor(px, s) == px
    ensures !IsBlackOrWhite(px) ==> Recolor(px, s) == WithAlpha(s.replacement, px.a)
    ensures Recolor(px, s) == px <==> IsBlackOrWhite(px) || px.Rgb() == s.replacement
  {
  }

  /**
   * Target mode: a pixel whose RGB equals the target becomes the replacement
   * colour, every other pixel is kept. The output differs from the input
   * exactly when the pixel matches and the replacement is a different colour.
   */
  lemma TargetPolicy(px: Pixel, s: Settings)
    requires !s.keepOnlyBw && s.target.Some?
    ensures IsColorMatch(px, s.target.value) ==> Recolor(px, s) == WithAlpha(s.replacement, px.a)
    ensures !IsColorMatch(px, s.target.value) ==> Recolor(px, s) == px
    ensures Recolor(px, s) != px <==> IsColorMatch(px, s.target.value) && s.target.value != s.replacement
  {
  }

  /** With no target and `keep_only_bw` false the result is the black/white-only result. */
  lemma DefaultIsBwOnly(px: Pixel, target: Option<Color>, replacement: Color)
    ensures Recolor(px, Settings(None, replacement, false)) == Recolor(px, Settings(target, replacement, true))
  {
  }

  /** Recolouring a recoloured pixel again with the same settings changes nothing. */
  lemma RecolorIdempotent(px: Pixel, s: Settings)
    ensures Recolor(Recolor(px, s), s) == Recolor(px, s)
  {
  }

  /** Processing a processed frame again with the same settings gives the same pixels. */
  lemma FrameIdempotent(src: seq<Pixel>, once: seq<Pixel>, twice: seq<Pixel>, s: Settings)
    requires RecoloredFrom(src, once, s) && RecoloredFrom(once, twice, s)
    ensures twice == once
  {
    forall i | 0 <= i < |once|
      ensures twice[i] == once[i]
    {
      RecolorIdempotent(src[i], s);
    }
  }

  /** Default mode and black/white-only mode produce the same frame. */
  lemma FrameDefaultIsBwOnly(src: seq<Pixel>, out: seq<Pixel>, target: Option<Color>, replacement: Color)
    ensures RecoloredFrom(src, out, Settings(None, replacement, false))
        <==> RecoloredFrom(src, out, Settings(target, replacement, true))
  {
    forall i | 0 <= i < |src| {
      DefaultIsBwOnly(src[i], target, replacement);
    }
  }

  /**
   * `process_single_frame`: walks the pixels in order and appends to
   * `newPixels` the kept pixel or the replacement colour with the pixel's
   * alpha; the frame keeps its size.
   */
  method ProcessSingleFrame(image: Frame, s: Settings) returns (out: Frame)
    requires WellSized(image)
    ensures WellSized(out)
    ensures Processed(image, out, s)
    ensures forall i :: 0 <= i < |out.pixels| ==> out.pixels[i].a == image.pixels[i].a
  {
    var pixels := image.pixels;
    var newPixels: seq<Pixel> := [];
    for i := 0 to |pixels|
      invariant RecoloredFrom(pixels[..i], newPixels, s)
    {
      var px := pixels[i];
      if s.keepOnlyBw {
        if IsBlackOrWhite(px) {
          newPixels := newPixels + [px];
        } else {
          newPixels := newPixels + [WithAlpha(s.replacement, px.a)];
        }
      } else if s.target.Some? {
        if IsColorMatch(px, s.target.value) {
          newPixels := newPixels + [WithAlpha(s.replacement, px.a)];
        } else {
          newPixels := newPixels + [px];
        }
      } else {
        if IsBlackOrWhite(px) {
          newPixels := newPixels + [px];
        } else {
          newPixels := newPixels + [WithAlpha(s.replacement, px.a)];
        }
      }
    }
    assert pixels[..|pixels|] == pixels;
    out := Frame(image.width, image.height, newPixels);
  }

  /**
   * `process_image` after decoding: a GIF has every frame processed, in
   * order, with the same settings; any other file has its first frame
   * processed as a single image.
   */
  method ProcessImage(frames: seq<Frame>, isGif: bool, s: Settings) returns (out: seq<Frame>)
    requires |frames| > 0
    requires forall i :: 0 <= i < |frames| ==> WellSized(frames[i])
    ensures |out| == if isGif then |frames| else 1
    ensures forall i :: 0 <= i < |out| ==> WellSized(out[i]) && Processed(frames[i], out[i], s)
  {
    if isGif {
      out := [];
      for i := 0 to |frames|
        invariant |out| == i
        invariant forall k :: 0 <= k < i ==> WellSized(out[k]) && Processed(frames[k], out[k], s)
      {
        var processed := ProcessSingleFrame(frames[i], s);
        out := out + [processed];
      }
    } else {
      var processed := ProcessSingleFrame(frames[0], s);
      out := [processed];
    }
  }
}
