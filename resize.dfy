/**
  * The resizer, abstracted: what a rendering of an original into a thumbnail
  * format yields, seen only through the dimensions it produces and whether it
  * fails. Pixel data, encoders and the emoji variant are not modelled.
  */
module Resize {
  import opened Thumbnail

  /** What is known of an original without decoding it fully; `decodes` says whether its bytes are a readable image. */
  datatype Original = Original(width: nat, height: nat, frames: nat, decodes: bool)

  /** The outcome of one rendering: its pixel size and encoded byte size, or `BadImageError`. */
  datatype RenderOutcome =
    | Rendered(width: nat, height: nat, byteSize: nat)
    | BadImage(message: string)

  /** The pixel-bomb guard: the total number of pixels over all frames exceeds the ceiling. */
  predicate IsPixelBomb(src: Original, limit: nat) {
    src.width * src.height * src.frames > limit
  }

  /** a / b rounded to the nearest integer, halves rounded up. */
  function RoundDiv(a: nat, b: nat): nat
    requires b > 0
  {
    (2 * a + b) / (2 * b)
  }

  lemma RoundDivAtMost(a: nat, b: nat, c: nat)
    requires b > 0 && a <= c * b
    ensures RoundDiv(a, b) <= c
  {
    var q := RoundDiv(a, b);
    assert 2 * a + b < (c + 1) * (2 * b);
    if q >= c + 1 {
      MulAtMost(c + 1, q, 2 * b);
    }
  }

  lemma MulAtMost(a: nat, b: nat, c: nat)
    requires a <= b
    ensures a * c <= b * c
  {
  }

  /** In a downscale where the width bound binds, the original is wider than the box. */
  lemma WidthBinds(w: nat, h: nat, maxW: nat, maxH: nat)
    requires w > 0 && h > 0 && maxW > 0 && maxH > 0
    requires !(w <= maxW && h <= maxH) && maxW * h <= maxH * w
    ensures maxW < w && h * maxW <= maxH * w && h * maxW <= h * w
  {
    if w <= maxW {
      MulAtMost(w, maxW, maxH);
      assert false;
    }
    MulAtMost(maxW, w, h);
  }

  /** In a downscale where the height bound binds, the original is taller than the box. */
  lemma HeightBinds(w: nat, h: nat, maxW: nat, maxH: nat)
    requires w > 0 && h > 0 && maxW > 0 && maxH > 0
    requires !(w <= maxW && h <= maxH) && !(maxW * h <= maxH * w)
    ensures maxH < h && w * maxH <= maxW * h && w * maxH <= w * h
  {
    if h <= maxH {
      MulAtMost(h, maxH, maxW);
      assert false;
    }
    MulAtMost(maxH, h, w);
  }

  /**
    * The size of a w x h image scaled down, never up, to fit a maxW x maxH
    * box, keeping its aspect ratio; the side that does not touch the box is
    * rounded to the nearest pixel and kept at least one pixel.
    */
  function FitWithin(w: nat, h: nat, maxW: nat, maxH: nat): (r: (nat, nat))
    requires w > 0 && h > 0 && maxW > 0 && maxH > 0
    ensures 0 < r.0 <= maxW && r.0 <= w
    ensures 0 < r.1 <= maxH && r.1 <= h
    ensures w <= maxW && h <= maxH ==> r == (w, h)
    ensures !(w <= maxW && h <= maxH) ==> r.0 == maxW || r.1 == maxH
  {
    if w <= maxW && h <= maxH then (w, h)
    else if maxW * h <= maxH * w then
      WidthBinds(w, h, maxW, maxH);
      RoundDivAtMost(h * maxW, w, maxH);
      RoundDivAtMost(h * maxW, w, h);
      (maxW, if RoundDiv(h * maxW, w) == 0 then 1 else RoundDiv(h * maxW, w))
    else
      HeightBinds(w, h, maxW, maxH);
      RoundDivAtMost(w * maxH, h, maxW);
      RoundDivAtMost(w * maxH, h, w);
      (if RoundDiv(w * maxH, h) == 0 then 1 else RoundDiv(w * maxH, h), maxH)
  }

  /**
    * Renders src into the box of f. Fails with BadImage when the original
    * cannot be decoded (no pixels, no frames, unreadable bytes), when it is a
    * pixel bomb, or when the box is empty; otherwise the rendering fits the
    * box and is no larger than the original. `encodedSize` is the encoder's
    * output size, which the model does not compute.
    */
  function Render(src: Original, f: Format, limit: nat, encodedSize: nat): (r: RenderOutcome)
    ensures r.Rendered? <==> src.decodes && src.width > 0 && src.height > 0 && src.frames > 0 &&
                             !IsPixelBomb(src, limit) && f.maxWidth > 0 && f.maxHeight > 0
    ensures r.Rendered? ==> 0 < r.width <= f.maxWidth && r.width <= src.width &&
                            0 < r.height <= f.maxHeight && r.height <= src.height
    ensures r.Rendered? && src.width <= f.maxWidth && src.height <= f.maxHeight ==>
              r.width == src.width && r.height == src.height
  {
    if !src.decodes || src.width == 0 || src.height == 0 || src.frames == 0 then
      BadImage("unable to decode image")
    else if IsPixelBomb(src, limit) then
      BadImage("Image size exceeds limit.")
    else if f.maxWidth == 0 || f.maxHeight == 0 then
      BadImage("thumbnail size out of range")
    else
      var (w, h) := FitWithin(src.width, src.height, f.maxWidth, f.maxHeight);
      Rendered(w, h, encodedSize)
  }
}
