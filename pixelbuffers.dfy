/** Baked images as the host hands them over: `width x height` RGBA samples,
    row-major, channels interleaved. */
module PixelBuffers {
  import opened ColorCodec

  datatype Image = Image(width: nat, height: nat, pixels: seq<real>) {
    /** The host's invariant for an image's pixel list. */
    predicate Valid() {
      |pixels| == width * height * 4
    }

    function PixelCount(): nat {
      width * height
    }

    /** The RGB part of pixel `p`: `pixels[4p], pixels[4p+1], pixels[4p+2]`. */
    function RgbAt(p: nat): Rgb
      requires Valid() && p < PixelCount()
    {
      Rgb(pixels[4 * p], pixels[4 * p + 1], pixels[4 * p + 2])
    }

    /** Every colour channel of the image is non-negative. */
    predicate NonNegativeRgb()
      requires Valid()
    {
      forall p :: 0 <= p < PixelCount() ==> NonNegative(RgbAt(p))
    }
  }
}
