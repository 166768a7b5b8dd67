/** Pixels and the weighted luminance the tile walkers sample.  Both pixel
    sources of the renderer (an Android `Bitmap` read through `Color.red`,
    `Color.green`, `Color.blue`, and an RGBA OpenCV `Mat` read as
    `pixel[0]`, `pixel[1]`, `pixel[2]`) give 8-bit red, green and blue
    channels; the alpha channel is never read. */
module Pixels {

  /** One 8-bit colour channel. */
  type Channel = x: int | 0 <= x <= 255

  datatype Pixel = Pixel(red: Channel, green: Channel, blue: Channel)

  /** The brightest luminance any pixel can have: 255 times the sum of the
      three weights, which is 0.9999 and not 1. */
  const MaxLuminance: real := 254.9745

  /** The weighted sum of the renderer, kept as written: red weighs 0.2989,
      BLUE weighs 0.5870 and GREEN weighs 0.1140 (the usual luma weights
      with green and blue exchanged).  The result always lies in
      [0, MaxLuminance] and so never reaches 255. */
  function Luminance(p: Pixel): (g: real)
    ensures 0.0 <= g <= MaxLuminance
    ensures g < 255.0
  {
    p.red as real * 0.2989 + p.blue as real * 0.5870 + p.green as real * 0.1140
  }

  /** A gray pixel (all three channels equal to `v`) has luminance
      0.9999 * v, slightly darker than `v` itself; only black keeps its value. */
  lemma GrayLuminance(v: Channel)
    ensures Luminance(Pixel(v, v, v)) == v as real * 0.9999
    ensures Luminance(Pixel(v, v, v)) < v as real <==> v > 0
  {
  }

  /** White is the brightest pixel, and the bound MaxLuminance is reached. */
  lemma WhiteIsBrightest(p: Pixel)
    ensures Luminance(p) <= Luminance(Pixel(255, 255, 255)) == MaxLuminance
  {
  }

  /** The weighting as written: a pure blue pixel is brighter than a pure
      green one of the same intensity. */
  lemma BlueOutweighsGreen(v: Channel)
    requires v > 0
    ensures Luminance(Pixel(0, 0, v)) > Luminance(Pixel(0, v, 0))
  {
  }
}
