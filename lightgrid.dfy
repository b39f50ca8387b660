/** storeLightgrid: one lightgrid record per texel of the baked $Vector, $Direct and
    $Ambient images, written to the lightgrid lump either directly or, with
    `use_lightgridarray`, deduplicated through the lightgridarray index lump. */
module Lightgrid {
  import opened Numerics
  import opened ColorCodec
  import opened PixelBuffers
  import opened NormalCodec
  import opened Dedup
  import opened BspLumps
  import opened Optional

  const ColorScale: real := 1.0

  /** The three baked lightgrid images: light direction, direct and ambient colour. */
  datatype GridImages = GridImages(vec: Image, dir: Image, amb: Image) {
    /** Every texel of the direction image has a direct and an ambient colour. */
    predicate Baked() {
      vec.Valid() && dir.Valid() && amb.Valid()
      && vec.PixelCount() <= dir.PixelCount() && vec.PixelCount() <= amb.PixelCount()
    }

    function TexelCount(): nat {
      vec.PixelCount()
    }
  }

  /** The bytes of one texel: ambient and direct colour and the direction's
      latitude and longitude. */
  datatype GridSample = GridSample(amb: seq<int>, dir: seq<int>, lat: int, lon: int)

  predicate WellShaped(g: GridSample) {
    |g.amb| == 3 && |g.dir| == 3
  }

  /** The record storeLightgrid appends for one texel: with four light styles
      (`bsp.lightmaps == 4`) the ambient colour four times, the direct colour four times,
      four zero style bytes, latitude, longitude (30 entries); otherwise ambient, direct,
      latitude, longitude (8 entries). */
  function GridRecord(lightmaps: int, g: GridSample): (rec: Record)
    requires WellShaped(g)
    ensures |rec| == if lightmaps == 4 then 30 else 8
  {
    if lightmaps == 4 then
      g.amb + g.amb + g.amb + g.amb + g.dir + g.dir + g.dir + g.dir + [0, 0, 0, 0] + [g.lat, g.lon]
    else
      g.amb + g.dir + [g.lat, g.lon]
  }

  /** Reads a record back: the first ambient and first direct colour, latitude and longitude;
      None for a record of the wrong length. */
  function DecodeRecord(lightmaps: int, rec: Record): (g: Option<GridSample>)
    ensures g.Some? ==> WellShaped(g.value)
  {
    if lightmaps == 4 then
      if |rec| == 30 then Some(GridSample(rec[0..3], rec[12..15], rec[28], rec[29])) else None
    else
      if |rec| == 8 then Some(GridSample(rec[0..3], rec[3..6], rec[6], rec[7])) else None
  }

  /** Decoding gives back the texel a record was made from. */
  lemma DecodeGridRecord(lightmaps: int, g: GridSample)
    requires WellShaped(g)
    ensures DecodeRecord(lightmaps, GridRecord(lightmaps, g)) == Some(g)
  {
    var rec := GridRecord(lightmaps, g);
    if lightmaps == 4 {
      assert rec[0..3] == g.amb && rec[12..15] == g.dir;
    } else {
      assert rec[0..3] == g.amb && rec[3..6] == g.dir;
    }
  }

  /** Where each byte of a four-style record sits: style `st` has its ambient colour at
      3*st, its direct colour at 12 + 3*st, a zero at 24 + st. */
  lemma FourStyleLayout(g: GridSample, st: nat, c: nat)
    requires WellShaped(g) && st < 4 && c < 3
    ensures var rec := GridRecord(4, g);
            rec[3 * st + c] == g.amb[c] && rec[12 + 3 * st + c] == g.dir[c]
            && rec[24 + st] == 0 && rec[28] == g.lat && rec[29] == g.lon
  {
    var a, d := g.amb, g.dir;
    assert GridRecord(4, g) == a + a + a + a + d + d + d + d + [0, 0, 0, 0] + [g.lat, g.lon];
  }

  /** The sample storeLightgrid computes for texel `p`: the quantised, normalised ambient
      and direct colours and the direction's latitude and longitude. The direction is
      encoded by the corrected encode_normal, so every texel yields a sample (the written
      one raises at the poles, see PoleTexel). */
  function TexelSample(imgs: GridImages, p: nat, m: Maths): (g: GridSample)
    requires imgs.Baked() && p < imgs.TexelCount()
    ensures WellShaped(g)
  {
    var v := imgs.vec.RgbAt(p);
    var code := EncodeNormalIntended(Vec3(v.r, v.g, v.b), m);
    var amb := ColorNormalize(imgs.amb.RgbAt(p), ColorScale, m);
    var dir := ColorNormalize(imgs.dir.RgbAt(p), ColorScale, m);
    GridSample(QuantizeRgb(amb), QuantizeRgb(dir), code[0], code[1])
  }

  /** The records of texels [0, k), in texel order. */
  function Records(lightmaps: int, imgs: GridImages, k: nat, m: Maths): (recs: seq<Record>)
    requires imgs.Baked() && k <= imgs.TexelCount()
    ensures |recs| == k
  {
    seq(k, p requires 0 <= p < k => GridRecord(lightmaps, TexelSample(imgs, p, m)))
  }

  /** Every entry of a record is a byte. */
  predicate Bytes(rec: Record) {
    forall e :: 0 <= e < |rec| ==> 0 <= rec[e] <= 255
  }

  predicate ByteSample(g: GridSample) {
    WellShaped(g) && Bytes(g.amb) && Bytes(g.dir) && 0 <= g.lat <= 255 && 0 <= g.lon <= 255
  }

  /** A record made of byte values holds only bytes. */
  lemma GridRecordBytes(lightmaps: int, g: GridSample)
    requires ByteSample(g)
    ensures Bytes(GridRecord(lightmaps, g))
  {
    var rec := GridRecord(lightmaps, g);
    forall e | 0 <= e < |rec| ensures 0 <= rec[e] <= 255 {
      if lightmaps == 4 {
        FourStyleBytes(g, e);
      }
    }
  }

  lemma FourStyleBytes(g: GridSample, e: nat)
    requires ByteSample(g) && e < 30
    ensures 0 <= GridRecord(4, g)[e] <= 255
  {
    if e < 24 {
      FourStyleLayout(g, (e % 12) / 3, e % 3);
    } else if e < 28 {
      FourStyleLayout(g, e - 24, 0);
    } else {
      FourStyleLayout(g, 0, 0);
    }
  }

  /** For non-negative colour images a texel's sample is bytes. */
  lemma TexelSampleBytes(imgs: GridImages, p: nat, m: Maths)
    requires imgs.Baked() && p < imgs.TexelCount()
    requires PowBounds(m) && imgs.amb.NonNegativeRgb() && imgs.dir.NonNegativeRgb()
    ensures ByteSample(TexelSample(imgs, p, m))
  {
    NormalizedBytes(imgs.amb.RgbAt(p), m);
    NormalizedBytes(imgs.dir.RgbAt(p), m);
  }

  /** Every entry of every record is a byte, for non-negative colour images. */
  lemma RecordsAreBytes(lightmaps: int, imgs: GridImages, k: nat, m: Maths)
    requires imgs.Baked() && k <= imgs.TexelCount()
    requires PowBounds(m) && imgs.amb.NonNegativeRgb() && imgs.dir.NonNegativeRgb()
    ensures forall p :: 0 <= p < k ==> Bytes(Records(lightmaps, imgs, k, m)[p])
  {
    forall p | 0 <= p < k ensures Bytes(Records(lightmaps, imgs, k, m)[p]) {
      TexelSampleBytes(imgs, p, m);
      GridRecordBytes(lightmaps, TexelSample(imgs, p, m));
    }
  }

  /** A texel whose light arrives straight from above, direction (0, 0, 1): the written
      encode_normal gives three values there, so `lat, lon = encode_normal(...)` raises;
      the corrected encoder stores latitude 0 and longitude 0. */
  lemma PoleTexel(imgs: GridImages, p: nat, m: Maths)
    requires imgs.Baked() && p < imgs.TexelCount() && SqrtExact(m)
    requires imgs.vec.RgbAt(p) == Rgb(0.0, 0.0, 1.0)
    ensures !Unpacks(EncodeNormal(Vec3(0.0, 0.0, 1.0), m))
    ensures TexelSample(imgs, p, m).lat == 0 && TexelSample(imgs, p, m).lon == 0
  {
    PoleDoesNotUnpack(m);
    IntendedAgreesOffAxis(Vec3(0.0, 0.0, 1.0), m);
  }

  /** One single-entry record per index: the lightgridarray lump. */
  function Singletons(ix: seq<nat>): (lump: seq<seq<int>>)
    ensures |lump| == |ix| && forall i :: 0 <= i < |ix| ==> lump[i] == [ix[i] as int]
  {
    seq(|ix|, i requires 0 <= i < |ix| => [ix[i] as int])
  }

  /** Through the index lump every texel finds its own record in the deduplicated
      lightgrid lump, and that lump holds no record twice. */
  lemma IndexLumpResolves(recs: seq<Record>)
    ensures var grid, arr := Build(recs).records, Singletons(Build(recs).indices);
            |arr| == |recs|
            && (forall i :: 0 <= i < |recs| ==>
                  |arr[i]| == 1 && 0 <= arr[i][0] < |grid| && grid[arr[i][0]] == recs[i])
            && (forall i, j :: 0 <= i < j < |grid| ==> grid[i] != grid[j])
            && |grid| <= |recs|
  {
    BuildLossless(recs);
    BuildNoLonger(recs);
  }

  /** Texel `p` as the writer reads it from the three pixel lists: the sample is built
      from the two entries of the direction's code and the quantised, normalised ambient
      and direct colours. */
  lemma TexelStep(imgs: GridImages, p: nat, m: Maths)
    requires imgs.Baked() && p < imgs.TexelCount()
    ensures var vp, dp, ap := imgs.vec.pixels, imgs.dir.pixels, imgs.amb.pixels;
            var code := EncodeNormalIntended(Vec3(vp[p * 4 + 0], vp[p * 4 + 1], vp[p * 4 + 2]), m);
            TexelSample(imgs, p, m)
            == GridSample(QuantizeRgb(ColorNormalize(Rgb(ap[4 * p + 0], ap[4 * p + 1], ap[4 * p + 2]), ColorScale, m)),
                          QuantizeRgb(ColorNormalize(Rgb(dp[4 * p + 0], dp[4 * p + 1], dp[4 * p + 2]), ColorScale, m)),
                          code[0], code[1])
  {
  }

  /** One more stored texel appends its record. */
  lemma RecordsStep(lightmaps: int, imgs: GridImages, k: nat, m: Maths)
    requires imgs.Baked() && k < imgs.TexelCount()
    ensures Records(lightmaps, imgs, k + 1, m)
            == Records(lightmaps, imgs, k, m) + [GridRecord(lightmaps, TexelSample(imgs, k, m))]
  {
    var a := Records(lightmaps, imgs, k + 1, m);
    var b := Records(lightmaps, imgs, k, m) + [GridRecord(lightmaps, TexelSample(imgs, k, m))];
    forall p | 0 <= p < k + 1 ensures a[p] == b[p] {
      if p < k {
        assert b[p] == Records(lightmaps, imgs, k, m)[p];
      }
    }
    assert a == b;
  }

  /** `recs` are the records of texels [0, |recs|). */
  ghost predicate RecordsOf(lightmaps: int, imgs: GridImages, m: Maths, recs: seq<Record>)
    requires imgs.Baked() && |recs| <= imgs.TexelCount()
  {
    forall p {:trigger TexelSample(imgs, p, m)} :: 0 <= p < |recs| ==>
      recs[p] == GridRecord(lightmaps, TexelSample(imgs, p, m))
  }

  /** Appending the record of the next texel keeps `RecordsOf`. */
  lemma RecordsOfStep(lightmaps: int, imgs: GridImages, m: Maths, recs: seq<Record>, record: Record)
    requires imgs.Baked() && |recs| < imgs.TexelCount() && RecordsOf(lightmaps, imgs, m, recs)
    requires record == GridRecord(lightmaps, TexelSample(imgs, |recs|, m))
    ensures RecordsOf(lightmaps, imgs, m, recs + [record])
  {
    var recs' := recs + [record];
    forall p | 0 <= p < |recs'|
      ensures recs'[p] == GridRecord(lightmaps, TexelSample(imgs, p, m))
    {
      if p < |recs| {
        assert recs'[p] == recs[p];
      }
    }
  }

  /** `RecordsOf` holds exactly of the records storeLightgrid computes. */
  lemma RecordsOfRecords(lightmaps: int, imgs: GridImages, m: Maths, recs: seq<Record>)
    requires imgs.Baked() && |recs| <= imgs.TexelCount()
    ensures RecordsOf(lightmaps, imgs, m, recs) <==> recs == Records(lightmaps, imgs, |recs|, m)
  {
    var k := |recs|;
    if RecordsOf(lightmaps, imgs, m, recs) {
      var a := Records(lightmaps, imgs, k, m);
      forall p | 0 <= p < k ensures a[p] == recs[p] {
        assert recs[p] == GridRecord(lightmaps, TexelSample(imgs, p, m));
      }
    }
    if recs == Records(lightmaps, imgs, k, m) {
      forall p | 0 <= p < k ensures recs[p] == GridRecord(lightmaps, TexelSample(imgs, p, m)) {
      }
    }
  }

  /** The body of storeLightgrid's texel loop up to the record: read the direction,
      encode it into latitude and longitude, normalise the ambient and direct colours
      and lay out the record. */
  method TexelRecord(imgs: GridImages, pixel: nat, lightmaps: int, m: Maths) returns (record: Record)
    requires imgs.Baked() && pixel < imgs.TexelCount()
    ensures record == GridRecord(lightmaps, TexelSample(imgs, pixel, m))
  {
    TexelStep(imgs, pixel, m);
    var vecPixels, dirPixels, ambPixels := imgs.vec.pixels, imgs.dir.pixels, imgs.amb.pixels;
    var x, y, z := vecPixels[pixel * 4 + 0], vecPixels[pixel * 4 + 1], vecPixels[pixel * 4 + 2];
    var code := EncodeNormalIntended(Vec3(x, y, z), m);
    var lat, lon := code[0], code[1];
    var amb := ColorNormalize(Rgb(ambPixels[4 * pixel + 0], ambPixels[4 * pixel + 1], ambPixels[4 * pixel + 2]), ColorScale, m);
    var dir := ColorNormalize(Rgb(dirPixels[4 * pixel + 0], dirPixels[4 * pixel + 1], dirPixels[4 * pixel + 2]), ColorScale, m);
    record := GridRecord(lightmaps, GridSample(QuantizeRgb(amb), QuantizeRgb(dir), lat, lon));
  }

  /** What one more record does to the deduplicated lumps and the lookup table: a record
      already present appends only its earlier index; a new one is appended to the records,
      takes the next index, and is entered in the table. */
  lemma DedupStep(recs: seq<Record>, r: Record)
    ensures var tb, tb' := Build(recs), Build(recs + [r]);
            (r in tb.slots ==>
               tb'.records == tb.records && tb'.slots == tb.slots
               && Singletons(tb'.indices) == Singletons(tb.indices) + [[tb.slots[r] as int]])
            && (r !in tb.slots ==>
               tb'.records == tb.records + [r] && tb'.slots == tb.slots[r := |tb.records|]
               && Singletons(tb'.indices) == Singletons(tb.indices) + [[|tb.records|]])
  {
    assert (recs + [r])[..|recs|] == recs;
    var tb := Build(recs);
    if r in tb.slots {
      SingletonsStep(tb.indices, tb.slots[r]);
    } else {
      SingletonsStep(tb.indices, |tb.records|);
    }
  }

  lemma SingletonsStep(ix: seq<nat>, x: nat)
    ensures Singletons(ix + [x]) == Singletons(ix) + [[x as int]]
  {
  }

  /** The lumps once the records `recs` are stored: the deduplicated records and their
      index lump, or all records with the index lump as it was before the call. */
  ghost predicate StoredUpTo(useArray: bool, grid: seq<seq<int>>, arr: seq<seq<int>>,
                             recs: seq<Record>, oldArray: seq<seq<int>>)
  {
    if useArray then
      grid == Build(recs).records && arr == Singletons(Build(recs).indices)
    else
      grid == recs && arr == oldArray
  }

  /** The lookup state storeLightgrid keeps beside the lumps: with `use_lightgridarray`,
      the table from record to index and the next free index. */
  ghost predicate Lookup(useArray: bool, hashTable: map<Record, nat>, currentPixelMapping: nat, recs: seq<Record>) {
    useArray ==> hashTable == Build(recs).slots && currentPixelMapping == |Build(recs).records|
  }

  /** The storing half of storeLightgrid's texel loop: with `use_lightgridarray` the
      record is looked up ("found twin"); a new one is appended to the lightgrid lump and
      given the next index, and the texel's index goes to the lightgridarray lump. Without
      it the record is appended. */
  method AppendRecord(bsp: Bsp, record: Record, hashTable: map<Record, nat>, currentPixelMapping: nat,
                      ghost recs: seq<Record>, ghost oldArray: seq<seq<int>>)
      returns (hashTable': map<Record, nat>, currentPixelMapping': nat)
    requires StoredUpTo(bsp.useLightgridArray, bsp.lightgridLump, bsp.lightgridArrayLump, recs, oldArray)
    requires Lookup(bsp.useLightgridArray, hashTable, currentPixelMapping, recs)
    modifies bsp`lightgridLump, bsp`lightgridArrayLump
    ensures StoredUpTo(bsp.useLightgridArray, bsp.lightgridLump, bsp.lightgridArrayLump, recs + [record], oldArray)
    ensures Lookup(bsp.useLightgridArray, hashTable', currentPixelMapping', recs + [record])
  {
    DedupStep(recs, record);
    hashTable', currentPixelMapping' := hashTable, currentPixelMapping;
    if bsp.useLightgridArray {
      var foundTwin: int := -1;
      if record in hashTable' {
        foundTwin := hashTable'[record];
      }
      if foundTwin == -1 {
        bsp.lightgridLump := bsp.lightgridLump + [record];
        bsp.lightgridArrayLump := bsp.lightgridArrayLump + [[currentPixelMapping']];
        hashTable' := hashTable'[record := currentPixelMapping'];
        currentPixelMapping' := currentPixelMapping' + 1;
      } else {
        bsp.lightgridArrayLump := bsp.lightgridArrayLump + [[foundTwin]];
      }
    } else {
      bsp.lightgridLump := bsp.lightgridLump + [record];
    }
  }

  /** storeLightgrid. The lightgrid lump, and with `use_lightgridarray` the lightgridarray
      lump, are cleared first. A missing image then ends the call (`stored` is false; the
      source fails on `.pixels` before its own None check) with the cleared lumps.
      Otherwise every texel is stored in order: with `use_lightgridarray` a record equal to
      one already stored only adds its index; without it every record is appended and the
      index lump is untouched. */
  method StoreLightgrid(bsp: Bsp, vecImg: Option<Image>, dirImg: Option<Image>,
                        ambImg: Option<Image>, m: Maths) returns (stored: bool)
    requires vecImg.Some? && dirImg.Some? && ambImg.Some? ==>
               GridImages(vecImg.value, dirImg.value, ambImg.value).Baked()
    modifies bsp`lightgridLump, bsp`lightgridArrayLump
    ensures stored <==> vecImg.Some? && dirImg.Some? && ambImg.Some?
    ensures !stored ==>
              bsp.lightgridLump == []
              && bsp.lightgridArrayLump == if bsp.useLightgridArray then [] else old(bsp.lightgridArrayLump)
    ensures stored ==>
              var imgs := GridImages(vecImg.value, dirImg.value, ambImg.value);
              StoredUpTo(bsp.useLightgridArray, bsp.lightgridLump, bsp.lightgridArrayLump,
                         Records(bsp.lightmaps, imgs, imgs.TexelCount(), m), old(bsp.lightgridArrayLump))
  {
    bsp.lightgridLump := [];
    if bsp.useLightgridArray {
      bsp.lightgridArrayLump := [];
    }
    if vecImg.None? || dirImg.None? || ambImg.None? {
      return false;
    }
    var imgs := GridImages(vecImg.value, dirImg.value, ambImg.value);
    var currentPixelMapping := 0;
    var hashTable: map<Record, nat> := map[];

    var pixel := 0;
    ghost var recs: seq<Record> := [];
    while pixel < imgs.vec.width * imgs.vec.height
      invariant 0 <= pixel <= imgs.TexelCount() && |recs| == pixel
      invariant RecordsOf(bsp.lightmaps, imgs, m, recs)
      invariant StoredUpTo(bsp.useLightgridArray, bsp.lightgridLump, bsp.lightgridArrayLump,
                           recs, old(bsp.lightgridArrayLump))
      invariant Lookup(bsp.useLightgridArray, hashTable, currentPixelMapping, recs)
    {
      var record := TexelRecord(imgs, pixel, bsp.lightmaps, m);
      RecordsOfStep(bsp.lightmaps, imgs, m, recs, record);
      hashTable, currentPixelMapping := AppendRecord(bsp, record, hashTable, currentPixelMapping,
                                                     recs, old(bsp.lightgridArrayLump));
      recs := recs + [record];
      pixel := pixel + 1;
    }
    RecordsOfRecords(bsp.lightmaps, imgs, m, recs);
    return true;
  }
}
