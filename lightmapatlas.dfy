/** storeLighmaps: split the baked lightmap atlas into `n` tiles of
    `S x S` RGB bytes and write them, in tile order, to the lightmaps lump. */
module LightmapAtlas {
  import opened Numerics
  import opened ColorCodec
  import opened PixelBuffers
  import opened BspLumps
  import opened Optional

  const ColorComponents: nat := 3
  const ColorScale: real := 1.0

  /** An atlas `w` pixels wide cut into tiles of edge `s`, a whole number of tiles per row. */
  predicate Geometry(w: nat, s: nat) {
    0 < s && 0 < w && w % s == 0
  }

  /** lightmap_id of pixel `p`: its tile column plus `w / s` times its tile row. */
  function TileOf(p: nat, w: nat, s: nat): int
    requires Geometry(w, s)
  {
    (p % w) / s + (w / s) * ((p / w) / s)
  }

  /** pixel_id of pixel `p`: its position inside its tile, row-major. */
  function SlotOf(p: nat, w: nat, s: nat): int
    requires Geometry(w, s)
  {
    (p % w) % s + ((p / w) % s) * s
  }

  /** The atlas pixel that lands in slot `k` of tile `t` (the inverse of TileOf and SlotOf). */
  function SourcePixel(t: nat, k: nat, w: nat, s: nat): int
    requires Geometry(w, s)
  {
    var cols := w / s;
    assert cols > 0 by { ColumnsPositive(w, s); }
    ((t / cols) * s + k / s) * w + (t % cols) * s + k % s
  }

  lemma ColumnsPositive(w: nat, s: nat)
    requires Geometry(w, s)
    ensures w / s > 0 && (w / s) * s == w
  {
  }

  lemma MulMono(a: int, b: int, c: int)
    requires a <= b && 0 <= c
    ensures a * c <= b * c
  {
  }

  /** Division with remainder has one answer. */
  lemma DivModOf(q: int, r: int, d: int)
    requires 0 <= q && 0 <= r < d
    ensures (q * d + r) / d == q && (q * d + r) % d == r
  {
    var a := q * d + r;
    var q', r' := a / d, a % d;
    assert a == d * q' + r';
    assert (q - q') * d == r' - r;
    if q > q' {
      MulMono(1, q - q', d);
    } else if q < q' {
      MulMono(1, q' - q, d);
    }
  }

  /** Two digits below `s` make a number below `s * s`. */
  lemma TwoDigits(lo: int, hi: int, s: int)
    requires 0 <= lo < s && 0 <= hi < s
    ensures 0 <= lo + hi * s < s * s
  {
    MulMono(hi, s - 1, s);
    MulMono(0, hi, s);
  }

  /** The digits of a pixel position: tile column `qx`, tile row `qy`, and the offsets
      `lx`, `ly` inside the tile, taken apart again by division. */
  lemma Digits(qx: int, lx: int, qy: int, ly: int, s: int, cols: int, w: int)
    requires 0 < s && 0 < cols && w == cols * s
    requires 0 <= qx < cols && 0 <= lx < s && 0 <= qy && 0 <= ly < s
    ensures var x, y := qx * s + lx, qy * s + ly;
            0 <= x < w && 0 <= y &&
            (y * w + x) / w == y && (y * w + x) % w == x &&
            x / s == qx && x % s == lx && y / s == qy && y % s == ly
    ensures var t, k := qy * cols + qx, ly * s + lx;
            0 <= k < s * s &&
            t / cols == qy && t % cols == qx && k / s == ly && k % s == lx
  {
    var x, y := qx * s + lx, qy * s + ly;
    MulMono(0, qx, s);
    MulMono(0, qy, s);
    MulMono(qx, cols - 1, s);
    assert 0 <= x < w;
    MulMono(0, y, w);
    DivModOf(y, x, w);
    DivModOf(qx, lx, s);
    DivModOf(qy, ly, s);
    MulMono(0, qy, cols);
    DivModOf(qy, qx, cols);
    DivModOf(ly, lx, s);
    TwoDigits(lx, ly, s);
  }

  /** The digits of pixel `p` as TileOf and SlotOf compute them. */
  lemma PixelDigits(p: nat, w: nat, s: nat) returns (qx: int, lx: int, qy: int, ly: int)
    requires Geometry(w, s)
    ensures 0 <= qx < w / s && 0 <= lx < s && 0 <= qy && 0 <= ly < s
    ensures p == (qy * s + ly) * w + qx * s + lx
    ensures TileOf(p, w, s) == qy * (w / s) + qx && SlotOf(p, w, s) == ly * s + lx
  {
    ColumnsPositive(w, s);
    var cols := w / s;
    var x, y := p % w, p / w;
    Split(p, w);
    qx, lx, qy, ly := x / s, x % s, y / s, y % s;
    Split(x, s);
    Split(y, s);
    QuotientBelow(x, s, cols);
    assert TileOf(p, w, s) == qx + cols * qy;
    assert SlotOf(p, w, s) == lx + ly * s;
  }

  /** Division with remainder by a positive divisor. */
  lemma Split(a: int, d: int)
    requires 0 <= a && 0 < d
    ensures a == (a / d) * d + a % d && 0 <= a % d < d && 0 <= a / d
  {
  }

  /** A number below `cols * s` has a quotient by `s` below `cols`. */
  lemma QuotientBelow(x: int, s: int, cols: int)
    requires 0 <= x < cols * s && 0 < s
    ensures x / s < cols
  {
    if x / s >= cols {
      MulMono(cols, x / s, s);
    }
  }

  /** The digits of the pixel SourcePixel picks for slot `k` of tile `t`. */
  lemma SlotDigits(t: nat, k: nat, w: nat, s: nat) returns (qx: int, lx: int, qy: int, ly: int)
    requires Geometry(w, s) && k < s * s
    ensures 0 <= qx < w / s && 0 <= lx < s && 0 <= qy && 0 <= ly < s
    ensures t == qy * (w / s) + qx && k == ly * s + lx
    ensures SourcePixel(t, k, w, s) == (qy * s + ly) * w + qx * s + lx
  {
    ColumnsPositive(w, s);
    var cols := w / s;
    qx, qy, lx, ly := t % cols, t / cols, k % s, k / s;
    assert t == qy * cols + qx && 0 <= qx < cols && 0 <= qy;
    assert k == ly * s + lx && 0 <= lx < s && 0 <= ly;
    assert ly < s by {
      if ly >= s {
        MulMono(s, ly, s);
      }
    }
  }

  /** Every pixel is the source of the slot it is written to, and both lie in range. */
  lemma SourceOfTarget(p: nat, w: nat, s: nat)
    requires Geometry(w, s)
    ensures 0 <= TileOf(p, w, s) && 0 <= SlotOf(p, w, s) < s * s
    ensures SourcePixel(TileOf(p, w, s), SlotOf(p, w, s), w, s) == p
  {
    ColumnsPositive(w, s);
    var qx, lx, qy, ly := PixelDigits(p, w, s);
    Digits(qx, lx, qy, ly, s, w / s, w);
    MulMono(0, qy, w / s);
  }

  /** Every slot of every tile has one source pixel, and that pixel is written back to it. */
  lemma TargetOfSource(t: nat, k: nat, w: nat, s: nat)
    requires Geometry(w, s) && k < s * s
    ensures 0 <= SourcePixel(t, k, w, s)
    ensures TileOf(SourcePixel(t, k, w, s), w, s) == t
    ensures SlotOf(SourcePixel(t, k, w, s), w, s) == k
  {
    ColumnsPositive(w, s);
    var qx, lx, qy, ly := SlotDigits(t, k, w, s);
    Digits(qx, lx, qy, ly, s, w / s, w);
  }

  /** Entry `e` of tile `t` once the raster walk has handled pixels [0, done):
      the quantised, normalised channel of its source pixel if that pixel exists
      and has been handled, otherwise the initial 0. */
  function TileEntry(img: Image, s: nat, t: nat, e: nat, done: nat, m: Maths): int
    requires img.Valid() && 0 < s && img.width % s == 0
  {
    if img.width == 0 then 0
    else
      var p := SourcePixel(t, e / ColorComponents, img.width, s);
      if 0 <= p < done && p < img.PixelCount()
      then Quantize(ColorNormalize(img.RgbAt(p), ColorScale, m).At(e % ColorComponents))
      else 0
  }

  /** The tile list once pixels [0, done) have been handled. */
  function Tiles(img: Image, s: nat, n: nat, done: nat, m: Maths): seq<seq<int>>
    requires img.Valid() && 0 < s && img.width % s == 0
  {
    seq(n, t requires 0 <= t < n =>
      seq(s * s * ColorComponents, e requires 0 <= e => TileEntry(img, s, t, e, done, m)))
  }

  /** The tiles the whole atlas produces. */
  function UnpackedTiles(img: Image, s: nat, n: nat, m: Maths): (tiles: seq<seq<int>>)
    requires img.Valid() && 0 < s && img.width % s == 0
    ensures |tiles| == n && forall t :: 0 <= t < n ==> |tiles[t]| == s * s * 3
  {
    Tiles(img, s, n, img.PixelCount(), m)
  }

  /** Pixel `p` of the atlas, when its tile is one of the `n` kept, ends up as the three
      quantised channels of its normalised colour at slot SlotOf(p) of tile TileOf(p). */
  lemma PixelLandsInItsSlot(img: Image, s: nat, n: nat, p: nat, c: nat, m: Maths)
    requires img.Valid() && 0 < s && img.width % s == 0 && p < img.PixelCount() && c < 3
    requires Geometry(img.width, s) && 0 <= TileOf(p, img.width, s) < n
    ensures 0 <= SlotOf(p, img.width, s) < s * s
    ensures UnpackedTiles(img, s, n, m)[TileOf(p, img.width, s)][3 * SlotOf(p, img.width, s) + c]
            == Quantize(ColorNormalize(img.RgbAt(p), ColorScale, m).At(c))
  {
    SourceOfTarget(p, img.width, s);
    var k := SlotOf(p, img.width, s);
    TwoDigits(0, 0, s);
    MulMono(k + 1, s * s, 3);
    assert (3 * k + c) / 3 == k && (3 * k + c) % 3 == c;
  }

  /** A slot that no atlas pixel maps to (the atlas is too short for its tile) keeps its 0. */
  lemma UnmappedSlotStaysZero(img: Image, s: nat, n: nat, t: nat, e: nat, m: Maths)
    requires img.Valid() && 0 < s && img.width % s == 0 && t < n && e < s * s * 3
    requires img.width == 0 || SourcePixel(t, e / 3, img.width, s) >= img.PixelCount()
    ensures UnpackedTiles(img, s, n, m)[t][e] == 0
  {
  }

  /** For a non-negative atlas every entry of every tile is a byte. */
  lemma TilesAreBytes(img: Image, s: nat, n: nat, m: Maths)
    requires img.Valid() && 0 < s && img.width % s == 0
    requires PowBounds(m) && img.NonNegativeRgb()
    ensures forall t, e :: 0 <= t < n && 0 <= e < s * s * 3 ==>
              0 <= UnpackedTiles(img, s, n, m)[t][e] <= 255
  {
    forall t, e | 0 <= t < n && 0 <= e < s * s * 3
      ensures 0 <= UnpackedTiles(img, s, n, m)[t][e] <= 255
    {
      if img.width != 0 {
        var p := SourcePixel(t, e / 3, img.width, s);
        if 0 <= p < img.PixelCount() {
          NormalizedBytes(img.RgbAt(p), m);
          assert QuantizeRgb(ColorNormalize(img.RgbAt(p), 1.0, m))[e % 3]
              == UnpackedTiles(img, s, n, m)[t][e];
        }
      }
    }
  }

  /** Write the three channel bytes `q` into slot `k` of tile `t`. */
  function Paint(tiles: seq<seq<int>>, t: nat, k: nat, q: seq<int>): seq<seq<int>>
    requires t < |tiles| && 3 * k + 2 < |tiles[t]| && |q| == 3
  {
    tiles[t := tiles[t][3 * k := q[0]][3 * k + 1 := q[1]][3 * k + 2 := q[2]]]
  }

  /** The three single-channel writes of one pixel add up to painting its slot. */
  lemma PaintInThreeWrites(tiles: seq<seq<int>>, t: nat, k: nat, q: seq<int>)
    requires t < |tiles| && 3 * k + 2 < |tiles[t]| && |q| == 3
    ensures var l1 := tiles[t := tiles[t][3 * k + 0 := q[0]]];
            var l2 := l1[t := l1[t][3 * k + 1 := q[1]]];
            l2[t := l2[t][3 * k + 2 := q[2]]] == Paint(tiles, t, k, q)
  {
  }

  /** Handling pixel `i` paints exactly its own slot when its tile is kept, and nothing otherwise. */
  lemma PaintStep(img: Image, s: nat, n: nat, i: nat, m: Maths)
    requires img.Valid() && 0 < s && img.width % s == 0 && i < img.PixelCount()
    ensures Geometry(img.width, s)
    ensures 0 <= TileOf(i, img.width, s) && 0 <= SlotOf(i, img.width, s) < s * s
    ensures var t, k := TileOf(i, img.width, s), SlotOf(i, img.width, s);
            var q := QuantizeRgb(ColorNormalize(img.RgbAt(i), ColorScale, m));
            Tiles(img, s, n, i + 1, m)
            == if t < n then Paint(Tiles(img, s, n, i, m), t, k, q) else Tiles(img, s, n, i, m)
  {
    var w := img.width;
    assert w > 0;
    var t, k := TileOf(i, w, s), SlotOf(i, w, s);
    SourceOfTarget(i, w, s);
    TwoDigits(0, 0, s);
    assert 3 * k + 2 < s * s * 3;
    var q := QuantizeRgb(ColorNormalize(img.RgbAt(i), ColorScale, m));
    var before, after := Tiles(img, s, n, i, m), Tiles(img, s, n, i + 1, m);
    var painted := if t < n then Paint(before, t, k, q) else before;
    forall u | 0 <= u < n ensures after[u] == painted[u] {
      forall e | 0 <= e < s * s * 3 ensures after[u][e] == painted[u][e] {
        var p := SourcePixel(u, e / 3, w, s);
        TargetOfSource(u, e / 3, w, s);
        if p == i {
          assert u == t && e / 3 == k;
          assert e == 3 * k + e % 3;
        } else {
          assert after[u][e] == before[u][e];
          assert u != t || e / 3 != k;
          if u == t && t < n {
            assert e != 3 * k && e != 3 * k + 1 && e != 3 * k + 2;
          }
        }
      }
    }
  }

  /** The raster walk of storeLighmaps: every atlas pixel whose tile is one of the `n`
      kept is normalised, quantised and written to its slot; the result is the tile list. */
  method UnpackAtlas(img: Image, lmSize: nat, n: nat, m: Maths) returns (lightmaps: seq<seq<int>>)
    requires img.Valid() && 0 < lmSize && img.width % lmSize == 0
    ensures lightmaps == UnpackedTiles(img, lmSize, n, m)
  {
    var localPixels := img.pixels;
    var packedWidth, packedHeight := img.width, img.height;
    var numRowsColumns := packedWidth / lmSize;
    var numPixels := lmSize * lmSize * ColorComponents;
    lightmaps := seq(n, i => seq(numPixels, e => 0));
    forall t | 0 <= t < n ensures lightmaps[t] == Tiles(img, lmSize, n, 0, m)[t] {
    }

    var pixel := 0;
    while pixel < packedWidth * packedHeight
      invariant 0 <= pixel <= packedWidth * packedHeight
      invariant lightmaps == Tiles(img, lmSize, n, pixel, m)
    {
      PaintStep(img, lmSize, n, pixel, m);
      var row := pixel % packedWidth;
      var column := pixel / packedWidth;
      var quadrantX := row / lmSize;
      var quadrantY := column / lmSize;
      var lightmapId := quadrantX + numRowsColumns * quadrantY;
      assert lightmapId == TileOf(pixel, packedWidth, lmSize);
      if lightmapId > n - 1 || lightmapId < 0 {
        pixel := pixel + 1;
        continue;
      }
      var lmX := row % lmSize;
      var lmY := column % lmSize;
      var pixelId := lmX + lmY * lmSize;
      assert pixelId == SlotOf(pixel, packedWidth, lmSize);
      var outColor := ColorNormalize(
        Rgb(localPixels[4 * pixel + 0], localPixels[4 * pixel + 1], localPixels[4 * pixel + 2]),
        ColorScale, m);
      assert outColor == ColorNormalize(img.RgbAt(pixel), ColorScale, m);
      PaintInThreeWrites(lightmaps, lightmapId, pixelId, QuantizeRgb(outColor));
      lightmaps := lightmaps[lightmapId := lightmaps[lightmapId][pixelId * ColorComponents + 0 := Quantize(outColor.r)]];
      lightmaps := lightmaps[lightmapId := lightmaps[lightmapId][pixelId * ColorComponents + 1 := Quantize(outColor.g)]];
      lightmaps := lightmaps[lightmapId := lightmaps[lightmapId][pixelId * ColorComponents + 2 := Quantize(outColor.b)]];
      pixel := pixel + 1;
    }
  }

  /** storeLighmaps. `image` is `bpy.data.images.get("$lightmap")`; `raised` reports the
      exception the source raises before touching any lump (no image: attribute error on
      `.pixels`; tile size 0: division by zero). Otherwise the lightmaps lump is replaced
      by the `n` unpacked tiles in index order and the other lumps are left alone. */
  method StoreLightmaps(bsp: Bsp, image: Option<Image>, n: nat, m: Maths) returns (raised: bool)
    requires image.Some? ==> image.value.Valid()
    requires image.Some? && 0 < bsp.lightmapSize ==> image.value.width % bsp.lightmapSize == 0
    modifies bsp`lightmapsLump
    ensures raised <==> image.None? || bsp.lightmapSize == 0
    ensures raised ==> bsp.lightmapsLump == old(bsp.lightmapsLump)
    ensures !raised ==> bsp.lightmapsLump == UnpackedTiles(image.value, bsp.lightmapSize, n, m)
    ensures bsp.lightgridLump == old(bsp.lightgridLump)
    ensures bsp.lightgridArrayLump == old(bsp.lightgridArrayLump)
  {
    var lmSize := bsp.lightmapSize;
    if image.None? || lmSize == 0 {
      return true;
    }
    var lightmaps := UnpackAtlas(image.value, lmSize, n, m);

    bsp.lightmapsLump := [];
    var i := 0;
    while i < n
      invariant 0 <= i <= n
      invariant bsp.lightmapsLump == lightmaps[..i]
    {
      bsp.lightmapsLump := bsp.lightmapsLump + [lightmaps[i]];
      i := i + 1;
    }
    assert lightmaps[..n] == lightmaps;
    return false;
  }
}
