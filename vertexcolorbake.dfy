/** bake_uv_to_vc: copies baked light into a mesh's vertex colours. Every corner (loop)
    of every face takes the texel nearest to its uv coordinate, from the vertex map
    ($vertmap) when the face's material name ends in ".vertex" and from the lightmap
    ($lightmap) otherwise. */
module VertexColorBake {
  import opened Optional
  import opened Numerics
  import opened PixelBuffers

  /** The material-name suffix that sends a face to the vertex map. */
  const VertexSuffix: string := ".vertex"

  /** A vertex colour: the four channels bake_uv_to_vc writes. */
  type Colour = seq<real>

  /** A uv coordinate of the chosen uv layer. */
  datatype Uv = Uv(x: real, y: real)

  /** A polygon: its material slot, its vertices and its loops, corner by corner. */
  datatype Face = Face(materialIndex: nat, vertices: seq<nat>, loopIndices: seq<nat>)

  /** What the baker reads of a mesh: the polygons, the material name of each slot and
      the uv of each loop in the chosen uv layer. */
  datatype Mesh = Mesh(polygons: seq<Face>, materials: seq<string>, uvs: seq<Uv>)

  /** Python's `str.endswith`. */
  predicate EndsWith(s: string, suffix: string) {
    |suffix| <= |s| && s[|s| - |suffix|..] == suffix
  }

  /** The corners `zip(face.vertices, face.loop_indices)` visits: it stops at the shorter list. */
  function Corners(face: Face): (n: nat)
    ensures n <= |face.vertices| && n <= |face.loopIndices|
    ensures n == |face.vertices| || n == |face.loopIndices|
  {
    if |face.vertices| <= |face.loopIndices| then |face.vertices| else |face.loopIndices|
  }

  /** Every face's material slot exists and every visited loop has a uv. */
  predicate Readable(mesh: Mesh) {
    forall f :: 0 <= f < |mesh.polygons| ==>
      mesh.polygons[f].materialIndex < |mesh.materials|
      && forall c :: 0 <= c < Corners(mesh.polygons[f]) ==> mesh.polygons[f].loopIndices[c] < |mesh.uvs|
  }

  /** Every visited loop has one of `loops` vertex colours. */
  predicate LoopsFit(mesh: Mesh, loops: nat) {
    forall f :: 0 <= f < |mesh.polygons| ==>
      forall c :: 0 <= c < Corners(mesh.polygons[f]) ==> mesh.polygons[f].loopIndices[c] < loops
  }

  /** What bake_uv_to_vc indexes without a check: material slots, uvs and vertex colours. */
  predicate WellFormed(mesh: Mesh, loops: nat) {
    Readable(mesh) && LoopsFit(mesh, loops)
  }

  /** An image the baker can sample: a valid pixel list of at least one texel. */
  predicate Sampleable(img: Image) {
    img.Valid() && 1 <= img.width && 1 <= img.height
  }

  /** For 0 <= c <= 1 and 0 <= n, c * n lies in [0, n]. */
  lemma ScaledWithin(c: real, n: int)
    requires 0.0 <= c <= 1.0 && 0 <= n
    ensures 0.0 <= c * n as real <= n as real
  {
    assert 0.0 <= (1.0 - c) * n as real;
  }

  /** A row-major texel position inside a width x height image is below width * height. */
  lemma RasterBelow(tx: int, ty: int, width: int, height: int)
    requires 0 <= tx < width && 0 <= ty < height
    ensures 0 <= ty * width + tx < width * height
  {
    assert ty * width <= (height - 1) * width;
  }

  /** The texel coordinate along an axis of `size` texels: `round(clamp(v) * (size - 1))`. */
  function Target(v: real, size: nat): (t: int)
    requires 1 <= size
    ensures 0 <= t < size
  {
    var scaled := Clamp01(v) * (size - 1) as real;
    ScaledWithin(Clamp01(v), size - 1);
    RoundWithin(scaled, 0, size - 1);
    RoundHalfEven(scaled)
  }

  /** The list position of the red channel of the texel nearest to `uv`. All four channels
      of that texel lie inside the pixel list. */
  function SampleIndex(img: Image, uv: Uv): (index: int)
    requires Sampleable(img)
    ensures 0 <= index && index + 4 <= |img.pixels|
  {
    var tx, ty := Target(uv.x, img.width), Target(uv.y, img.height);
    RasterBelow(tx, ty, img.width, img.height);
    (ty * img.width + tx) * 4
  }

  /** The sample index names a whole texel: the red channel of texel `index / 4`, the texel
      at row `round(clamp(v) * (height - 1))` and column `round(clamp(u) * (width - 1))`. */
  lemma SampleIndexTexel(img: Image, uv: Uv)
    requires Sampleable(img)
    ensures var index := SampleIndex(img, uv);
            index % 4 == 0 && index / 4 < img.PixelCount()
            && index / 4 / img.width == Target(uv.y, img.height)
            && index / 4 % img.width == Target(uv.x, img.width)
  {
    var tx, ty := Target(uv.x, img.width), Target(uv.y, img.height);
    var p := ty * img.width + tx;
    assert SampleIndex(img, uv) == p * 4;
    assert p * 4 / 4 == p;
    RasterBelow(tx, ty, img.width, img.height);
    assert p / img.width == ty && p % img.width == tx by {
      RowColumn(tx, ty, img.width);
    }
  }

  /** Row-major position `ty * width + tx` splits back into its row and column. */
  lemma RowColumn(tx: int, ty: int, width: int)
    requires 0 <= tx < width && 0 <= ty
    ensures (ty * width + tx) / width == ty && (ty * width + tx) % width == tx
  {
    var a := ty * width + tx;
    var q, r := a / width, a % width;
    assert width * (q - ty) == tx - r;
    if q - ty >= 1 {
      MulAtLeast(width, q - ty);
    } else if q - ty <= -1 {
      MulAtLeast(width, ty - q);
    }
  }

  /** A positive multiple of a positive number is at least that number. */
  lemma MulAtLeast(w: int, k: int)
    requires 0 < w && 1 <= k
    ensures w <= w * k
  {
    assert w * k == w + w * (k - 1);
  }

  /** The colour a corner with coordinate `uv` takes: the four channels of the nearest texel. */
  function Sample(img: Image, uv: Uv): (colour: seq<real>)
    requires Sampleable(img)
    ensures |colour| == 4
  {
    var index := SampleIndex(img, uv);
    img.pixels[index..index + 4]
  }

  /** The image a face is sampled from. */
  function Source(mesh: Mesh, face: Face, lightmap: Image, vertexmap: Image): Image
    requires face.materialIndex < |mesh.materials|
  {
    if EndsWith(mesh.materials[face.materialIndex], VertexSuffix) then vertexmap else lightmap
  }

  /** The colour every visited corner takes, face by face: the nearest texel of the
      face's image to the corner's uv. */
  function CornerColours(mesh: Mesh, lightmap: Image, vertexmap: Image): (table: seq<seq<Colour>>)
    requires Sampleable(lightmap) && Sampleable(vertexmap) && Readable(mesh)
    ensures Shaped(mesh, table)
  {
    seq(|mesh.polygons|, f requires 0 <= f < |mesh.polygons| =>
      var face := mesh.polygons[f];
      seq(Corners(face), c requires 0 <= c < Corners(face) =>
        Sample(Source(mesh, face, lightmap, vertexmap), mesh.uvs[face.loopIndices[c]])))
  }

  /** `table` holds, for every visited corner, the colour bake_uv_to_vc gives it. */
  predicate Paints(mesh: Mesh, lightmap: Image, vertexmap: Image, table: seq<seq<Colour>>)
    requires Sampleable(lightmap) && Sampleable(vertexmap) && Readable(mesh)
  {
    Shaped(mesh, table)
    && forall f, c {:trigger Sample(Source(mesh, mesh.polygons[f], lightmap, vertexmap), mesh.uvs[mesh.polygons[f].loopIndices[c]])} ::
         0 <= f < |mesh.polygons| && 0 <= c < Corners(mesh.polygons[f]) ==>
           table[f][c] == Sample(Source(mesh, mesh.polygons[f], lightmap, vertexmap), mesh.uvs[mesh.polygons[f].loopIndices[c]])
  }

  /** The corner colour table is the one bake_uv_to_vc paints. */
  lemma CornerColoursPaint(mesh: Mesh, lightmap: Image, vertexmap: Image)
    requires Sampleable(lightmap) && Sampleable(vertexmap) && Readable(mesh)
    ensures Paints(mesh, lightmap, vertexmap, CornerColours(mesh, lightmap, vertexmap))
  {
  }

  /** A table with one colour per visited corner of every face. */
  predicate Shaped(mesh: Mesh, table: seq<seq<Colour>>) {
    |table| == |mesh.polygons|
    && forall f :: 0 <= f < |table| ==> |table[f]| == Corners(mesh.polygons[f])
  }

  /** The colours after the first `c` corners of face `f` wrote their table colours. */
  function BakeCorners(mesh: Mesh, table: seq<seq<Colour>>, f: nat, c: nat,
                       colours: seq<Colour>): (out: seq<Colour>)
    requires Shaped(mesh, table) && LoopsFit(mesh, |colours|)
    requires f < |mesh.polygons| && c <= Corners(mesh.polygons[f])
    ensures |out| == |colours|
  {
    if c == 0 then colours
    else BakeCorners(mesh, table, f, c - 1, colours)[mesh.polygons[f].loopIndices[c - 1] := table[f][c - 1]]
  }

  /** The colours after the first `n` faces wrote their corners' table colours. */
  function BakeFaces(mesh: Mesh, table: seq<seq<Colour>>, n: nat, colours: seq<Colour>): (out: seq<Colour>)
    requires Shaped(mesh, table) && LoopsFit(mesh, |colours|)
    requires n <= |mesh.polygons|
    ensures |out| == |colours|
  {
    if n == 0 then colours
    else BakeCorners(mesh, table, n - 1, Corners(mesh.polygons[n - 1]), BakeFaces(mesh, table, n - 1, colours))
  }

  /** What bake_uv_to_vc leaves in the vertex colours `colours`. */
  function Bake(mesh: Mesh, lightmap: Image, vertexmap: Image, colours: seq<Colour>): (out: seq<Colour>)
    requires Sampleable(lightmap) && Sampleable(vertexmap) && WellFormed(mesh, |colours|)
    ensures |out| == |colours|
  {
    BakeFaces(mesh, CornerColours(mesh, lightmap, vertexmap), |mesh.polygons|, colours)
  }

  /** Corner `c` of face `f` writes the colour of loop `loop`. */
  predicate Writes(mesh: Mesh, f: nat, c: nat, loop: nat) {
    f < |mesh.polygons| && c < Corners(mesh.polygons[f]) && mesh.polygons[f].loopIndices[c] == loop
  }

  /** A loop no corner of a face writes keeps its colour through that face. */
  lemma {:induction false} CornersFrame(mesh: Mesh, table: seq<seq<Colour>>, f: nat, c: nat,
                                        colours: seq<Colour>, loop: nat)
    requires Shaped(mesh, table) && LoopsFit(mesh, |colours|)
    requires f < |mesh.polygons| && c <= Corners(mesh.polygons[f]) && loop < |colours|
    requires forall k :: 0 <= k < c ==> !Writes(mesh, f, k, loop)
    ensures BakeCorners(mesh, table, f, c, colours)[loop] == colours[loop]
  {
    if c > 0 {
      assert !Writes(mesh, f, c - 1, loop);
      CornersFrame(mesh, table, f, c - 1, colours, loop);
    }
  }

  /** Within a face, the last corner that writes a loop decides its colour. */
  lemma {:induction false} CornersLast(mesh: Mesh, table: seq<seq<Colour>>, f: nat, c: nat,
                                       colours: seq<Colour>, k: nat)
    requires Shaped(mesh, table) && LoopsFit(mesh, |colours|)
    requires f < |mesh.polygons| && k < c <= Corners(mesh.polygons[f])
    requires forall j :: k < j < c ==> !Writes(mesh, f, j, mesh.polygons[f].loopIndices[k])
    ensures BakeCorners(mesh, table, f, c, colours)[mesh.polygons[f].loopIndices[k]] == table[f][k]
  {
    if k < c - 1 {
      assert !Writes(mesh, f, c - 1, mesh.polygons[f].loopIndices[k]);
      CornersLast(mesh, table, f, c - 1, colours, k);
    }
  }

  /** Faces [m, n) that do not write a loop leave its colour as face m found it. */
  lemma {:induction false} FacesFrame(mesh: Mesh, table: seq<seq<Colour>>, m: nat, n: nat,
                                      colours: seq<Colour>, loop: nat)
    requires Shaped(mesh, table) && LoopsFit(mesh, |colours|)
    requires m <= n <= |mesh.polygons| && loop < |colours|
    requires forall f, c :: m <= f < n ==> !Writes(mesh, f, c, loop)
    ensures BakeFaces(mesh, table, n, colours)[loop] == BakeFaces(mesh, table, m, colours)[loop]
  {
    if m < n {
      FacesFrame(mesh, table, m, n - 1, colours, loop);
      var g := n - 1;
      assert forall c :: 0 <= c < Corners(mesh.polygons[g]) ==> !Writes(mesh, g, c, loop);
      CornersFrame(mesh, table, g, Corners(mesh.polygons[g]), BakeFaces(mesh, table, g, colours), loop);
    }
  }

  /** The last corner, in face order and then corner order, that writes a loop decides its
      colour. */
  lemma LastWriter(mesh: Mesh, table: seq<seq<Colour>>, colours: seq<Colour>, f: nat, k: nat)
    requires Shaped(mesh, table) && LoopsFit(mesh, |colours|)
    requires f < |mesh.polygons| && k < Corners(mesh.polygons[f])
    requires var loop := mesh.polygons[f].loopIndices[k];
             (forall j :: k < j ==> !Writes(mesh, f, j, loop))
             && (forall g, c :: f < g ==> !Writes(mesh, g, c, loop))
    ensures BakeFaces(mesh, table, |mesh.polygons|, colours)[mesh.polygons[f].loopIndices[k]] == table[f][k]
  {
    var loop := mesh.polygons[f].loopIndices[k];
    assert loop < |colours|;
    FacesFrame(mesh, table, f + 1, |mesh.polygons|, colours, loop);
    CornersLast(mesh, table, f, Corners(mesh.polygons[f]), BakeFaces(mesh, table, f, colours), k);
  }

  /** A loop that no corner of any face writes keeps its old colour. */
  lemma UntouchedKeepsColour(mesh: Mesh, lightmap: Image, vertexmap: Image, colours: seq<Colour>, loop: nat)
    requires Sampleable(lightmap) && Sampleable(vertexmap) && WellFormed(mesh, |colours|)
    requires loop < |colours|
    requires forall f, c :: !Writes(mesh, f, c, loop)
    ensures Bake(mesh, lightmap, vertexmap, colours)[loop] == colours[loop]
  {
    FacesFrame(mesh, CornerColours(mesh, lightmap, vertexmap), 0, |mesh.polygons|, colours, loop);
  }

  /** The last corner, in face order and then corner order, that writes a loop decides its
      colour: the texel nearest to that loop's uv in the image of that corner's face. */
  lemma LastWriterWins(mesh: Mesh, lightmap: Image, vertexmap: Image, colours: seq<Colour>, f: nat, k: nat)
    requires Sampleable(lightmap) && Sampleable(vertexmap) && WellFormed(mesh, |colours|)
    requires f < |mesh.polygons| && k < Corners(mesh.polygons[f])
    requires var loop := mesh.polygons[f].loopIndices[k];
             (forall j :: k < j ==> !Writes(mesh, f, j, loop))
             && (forall g, c :: f < g ==> !Writes(mesh, g, c, loop))
    ensures var face := mesh.polygons[f];
            var loop := face.loopIndices[k];
            Bake(mesh, lightmap, vertexmap, colours)[loop]
            == Sample(Source(mesh, face, lightmap, vertexmap), mesh.uvs[loop])
  {
    LastWriter(mesh, CornerColours(mesh, lightmap, vertexmap), colours, f, k);
  }

  /** The corners of the image: uv (0, 0) samples the first texel and uv (1, 1) the last. */
  lemma SampleCorners(img: Image)
    requires Sampleable(img)
    ensures SampleIndex(img, Uv(0.0, 0.0)) == 0
    ensures SampleIndex(img, Uv(1.0, 1.0)) == (img.PixelCount() - 1) * 4
  {
    RoundInteger(0);
    RoundInteger(img.width - 1);
    RoundInteger(img.height - 1);
    assert Target(1.0, img.width) == img.width - 1;
    assert Target(1.0, img.height) == img.height - 1;
    assert (img.height - 1) * img.width + img.width - 1 == img.width * img.height - 1;
  }

  /** Coordinates outside [0, 1] sample the same texel as the nearest edge. */
  lemma SampleClamps(img: Image, uv: Uv)
    requires Sampleable(img)
    ensures SampleIndex(img, uv) == SampleIndex(img, Uv(Clamp01(uv.x), Clamp01(uv.y)))
  {
  }

  /** One corner of bake_uv_to_vc: loop `loopIdx` takes the four channels of the texel
      nearest to `uv` in the sampled image's pixel list. */
  method WriteCorner(localPixels: seq<real>, width: nat, height: nat, uv: Uv,
                     colours: array<Colour>, loopIdx: nat)
    requires Sampleable(Image(width, height, localPixels)) && loopIdx < colours.Length
    modifies colours
    ensures colours[..] == old(colours[..])[loopIdx := Sample(Image(width, height, localPixels), uv)]
  {
    var target := [Target(uv.x, width), Target(uv.y, height)];
    var index := (target[1] * width + target[0]) * 4;
    ghost var colour := Sample(Image(width, height, localPixels), uv);
    assert index == SampleIndex(Image(width, height, localPixels), uv);
    assert colour == [localPixels[index], localPixels[index + 1], localPixels[index + 2], localPixels[index + 3]];
    colours[loopIdx] := [localPixels[index], localPixels[index + 1], localPixels[index + 2], localPixels[index + 3]];
    assert colours[..] == old(colours[..])[loopIdx := colour];
  }

  /** The corner loop of bake_uv_to_vc for face `f`: every visited corner's loop colour
      becomes the nearest texel of the face's image, as `table` records it. */
  method BakeFace(mesh: Mesh, lm: Image, vt: Image, f: nat, colours: array<Colour>, ghost table: seq<seq<Colour>>)
    requires Sampleable(lm) && Sampleable(vt) && WellFormed(mesh, colours.Length)
    requires Paints(mesh, lm, vt, table) && f < |mesh.polygons|
    modifies colours
    ensures colours[..] == BakeCorners(mesh, table, f, Corners(mesh.polygons[f]), old(colours[..]))
  {
    var face := mesh.polygons[f];
    var localPixels, width, height;
    if EndsWith(mesh.materials[face.materialIndex], VertexSuffix) {
      localPixels, width, height := vt.pixels, vt.width, vt.height;
    } else {
      localPixels, width, height := lm.pixels, lm.width, lm.height;
    }
    assert Image(width, height, localPixels) == Source(mesh, face, lm, vt);
    var c := 0;
    while c < Corners(face)
      invariant 0 <= c <= Corners(face)
      invariant colours[..] == BakeCorners(mesh, table, f, c, old(colours[..]))
    {
      var loopIdx := face.loopIndices[c];
      var uv := mesh.uvs[loopIdx];
      assert table[f][c] == Sample(Source(mesh, mesh.polygons[f], lm, vt), mesh.uvs[mesh.polygons[f].loopIndices[c]]);
      WriteCorner(localPixels, width, height, uv, colours, loopIdx);
      c := c + 1;
    }
  }

  /** The face loop of bake_uv_to_vc once both images are there. */
  method BakeFaceLoop(mesh: Mesh, lm: Image, vt: Image, colours: array<Colour>, ghost table: seq<seq<Colour>>)
    requires Sampleable(lm) && Sampleable(vt) && WellFormed(mesh, colours.Length)
    requires Paints(mesh, lm, vt, table)
    modifies colours
    ensures colours[..] == BakeFaces(mesh, table, |mesh.polygons|, old(colours[..]))
  {
    var f := 0;
    while f < |mesh.polygons|
      invariant 0 <= f <= |mesh.polygons|
      invariant colours[..] == BakeFaces(mesh, table, f, old(colours[..]))
    {
      BakeFace(mesh, lm, vt, f, colours, table);
      f := f + 1;
    }
  }

  /** bake_uv_to_vc. Without both images it returns False and changes nothing; otherwise
      it walks the faces in order, baking each face's corners, and returns True. */
  method BakeUvToVc(mesh: Mesh, lightmap: Option<Image>, vertexmap: Option<Image>,
                    colours: array<Colour>) returns (ok: bool)
    requires lightmap.Some? ==> Sampleable(lightmap.value)
    requires vertexmap.Some? ==> Sampleable(vertexmap.value)
    requires WellFormed(mesh, colours.Length)
    modifies colours
    ensures ok <==> lightmap.Some? && vertexmap.Some?
    ensures !ok ==> colours[..] == old(colours[..])
    ensures ok ==> colours[..] == Bake(mesh, lightmap.value, vertexmap.value, old(colours[..]))
  {
    if lightmap.None? || vertexmap.None? {
      return false;
    }
    CornerColoursPaint(mesh, lightmap.value, vertexmap.value);
    BakeFaceLoop(mesh, lightmap.value, vertexmap.value, colours, CornerColours(mesh, lightmap.value, vertexmap.value));
    return true;
  }
}
