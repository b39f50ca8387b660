/** createLightGridTextures: from the twenty direction-sampled grid textures
    ($Grid_00 .. $Grid_19) it builds three float buffers, $Vector, $Direct and $Ambient,
    one RGBA texel per texel of the first grid texture. What the code computes for one
    texel out of its twenty colour samples (luma-weighted average direction, the
    fourth-root cosine weights, the ambient remainder) is handed in as `decompose`; this
    module fixes everything around it: when the function gives up, which samples reach
    `decompose`, and how its results are laid out in the three buffers. */
module GridTextures {
  import opened Optional
  import opened ColorCodec
  import opened PixelBuffers

  /** The number of grid textures, Grid_00 .. Grid_19. */
  const GridTextureCount: nat := 20

  /** One texel's light, as the per-texel numerics split it: the light direction and the
      direct and ambient colours. */
  datatype Decomposition = Decomposition(vector: Rgb, direct: Rgb, ambient: Rgb)

  /** The three output buffers: $Vector, $Direct and $Ambient. */
  datatype Buffer = VectorBuffer | DirectBuffer | AmbientBuffer

  /** The part of a texel's decomposition that goes to buffer `b`. */
  function Pick(d: Decomposition, b: Buffer): Rgb {
    match b
    case VectorBuffer => d.vector
    case DirectBuffer => d.direct
    case AmbientBuffer => d.ambient
  }

  /** Every grid texture was found. */
  predicate AllPresent(textures: seq<Option<Image>>) {
    forall i :: 0 <= i < |textures| ==> textures[i].Some?
  }

  /** All twenty textures are present and each has at least as many texels as the
      first, whose size the buffers take; otherwise the sample reads run off a list. */
  predicate Covers(textures: seq<Option<Image>>) {
    && |textures| == GridTextureCount
    && AllPresent(textures)
    && forall i :: 0 <= i < |textures| ==>
         textures[i].value.Valid() && textures[0].value.PixelCount() <= textures[i].value.PixelCount()
  }

  /** The number of texels of the output buffers: width * height of Grid_00. */
  function Texels(textures: seq<Option<Image>>): nat
    requires Covers(textures)
  {
    textures[0].value.PixelCount()
  }

  /** The twenty colour samples of texel `p`, one per grid texture, in texture order. */
  function Samples(textures: seq<Option<Image>>, p: nat): (s: seq<Rgb>)
    requires Covers(textures) && p < Texels(textures)
    ensures |s| == GridTextureCount
  {
    seq(GridTextureCount, i requires 0 <= i < GridTextureCount => textures[i].value.RgbAt(p))
  }

  /** One RGBA texel of an output buffer: the colour and an alpha of 1.0. */
  function Texel(c: Rgb): seq<real> {
    [c.r, c.g, c.b, 1.0]
  }

  /** Buffer `b` after the first `n` texels: each texel appends its four entries. */
  function BufferPixels(textures: seq<Option<Image>>, decompose: seq<Rgb> -> Decomposition,
                        b: Buffer, n: nat): (px: seq<real>)
    requires Covers(textures) && n <= Texels(textures)
    ensures |px| == 4 * n
  {
    if n == 0 then []
    else BufferPixels(textures, decompose, b, n - 1) + Texel(Pick(decompose(Samples(textures, n - 1)), b))
  }

  /** Texel `p` of buffer `b` holds the decomposition of exactly its own twenty samples,
      followed by an alpha of 1.0. */
  lemma {:induction false} BufferLayout(textures: seq<Option<Image>>, decompose: seq<Rgb> -> Decomposition,
                                        b: Buffer, n: nat, p: nat)
    requires Covers(textures) && n <= Texels(textures) && p < n
    ensures var px, c := BufferPixels(textures, decompose, b, n), Pick(decompose(Samples(textures, p)), b);
            px[4 * p] == c.r && px[4 * p + 1] == c.g && px[4 * p + 2] == c.b && px[4 * p + 3] == 1.0
  {
    var px := BufferPixels(textures, decompose, b, n);
    var front := BufferPixels(textures, decompose, b, n - 1);
    assert px == front + Texel(Pick(decompose(Samples(textures, n - 1)), b));
    if p < n - 1 {
      BufferLayout(textures, decompose, b, n - 1, p);
      assert px[4 * p .. 4 * p + 4] == front[4 * p .. 4 * p + 4];
    } else {
      assert px[4 * p .. 4 * p + 4] == Texel(Pick(decompose(Samples(textures, n - 1)), b));
    }
  }

  /** Read back as an image of Grid_00's size, every finished buffer is a valid image
      whose texel `p` is the decomposition of texel `p`'s samples: the buffers are what
      storeLightgrid later reads as $Vector, $Direct and $Ambient. */
  lemma BufferReadsBack(textures: seq<Option<Image>>, decompose: seq<Rgb> -> Decomposition, b: Buffer)
    requires Covers(textures)
    ensures var g := textures[0].value;
            var img := Image(g.width, g.height, BufferPixels(textures, decompose, b, Texels(textures)));
            img.Valid()
            && forall p :: 0 <= p < img.PixelCount() ==>
                 img.RgbAt(p) == Pick(decompose(Samples(textures, p)), b) && img.pixels[4 * p + 3] == 1.0
  {
    var g := textures[0].value;
    var img := Image(g.width, g.height, BufferPixels(textures, decompose, b, Texels(textures)));
    forall p | 0 <= p < img.PixelCount()
      ensures img.RgbAt(p) == Pick(decompose(Samples(textures, p)), b) && img.pixels[4 * p + 3] == 1.0
    {
      BufferLayout(textures, decompose, b, Texels(textures), p);
    }
  }

  /** createLightGridTextures. It gives up (returns False) before writing anything when
      any of the twenty grid textures is missing; otherwise, for every texel of Grid_00 in
      raster order, it gathers the texel's twenty samples, decomposes them, and appends
      one RGBA texel to each of the vector, direct and ambient buffers. */
  method CreateLightGridTextures(textures: seq<Option<Image>>, decompose: seq<Rgb> -> Decomposition)
      returns (ok: bool, vectorPixels: seq<real>, directPixels: seq<real>, ambientPixels: seq<real>)
    requires |textures| == GridTextureCount
    requires AllPresent(textures) ==> Covers(textures)
    ensures ok <==> AllPresent(textures)
    ensures !ok ==> vectorPixels == [] && directPixels == [] && ambientPixels == []
    ensures ok ==> vectorPixels == BufferPixels(textures, decompose, VectorBuffer, Texels(textures))
    ensures ok ==> directPixels == BufferPixels(textures, decompose, DirectBuffer, Texels(textures))
    ensures ok ==> ambientPixels == BufferPixels(textures, decompose, AmbientBuffer, Texels(textures))
  {
    var t := 0;
    while t < |textures|
      invariant 0 <= t <= |textures|
      invariant forall i :: 0 <= i < t ==> textures[i].Some?
    {
      if textures[t].None? {
        return false, [], [], [];
      }
      t := t + 1;
    }
    var width, height := textures[0].value.width, textures[0].value.height;
    vectorPixels, directPixels, ambientPixels := [], [], [];
    var pixel := 0;
    while pixel < width * height
      invariant 0 <= pixel <= width * height
      invariant vectorPixels == BufferPixels(textures, decompose, VectorBuffer, pixel)
      invariant directPixels == BufferPixels(textures, decompose, DirectBuffer, pixel)
      invariant ambientPixels == BufferPixels(textures, decompose, AmbientBuffer, pixel)
    {
      var colorSamples := [];
      var i := 0;
      while i < GridTextureCount
        invariant 0 <= i <= GridTextureCount
        invariant colorSamples == Samples(textures, pixel)[..i]
      {
        var samples := textures[i].value.pixels;
        colorSamples := colorSamples + [Rgb(samples[pixel * 4 + 0], samples[pixel * 4 + 1], samples[pixel * 4 + 2])];
        i := i + 1;
      }
      assert colorSamples == Samples(textures, pixel);
      var d := decompose(colorSamples);
      ambientPixels := ambientPixels + [d.ambient.r, d.ambient.g, d.ambient.b, 1.0];
      directPixels := directPixels + [d.direct.r, d.direct.g, d.direct.b, 1.0];
      vectorPixels := vectorPixels + [d.vector.r, d.vector.g, d.vector.b, 1.0];
      pixel := pixel + 1;
    }
    ok := true;
  }
}
