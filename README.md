# Quake 3 BSP light storage, modelled in Dafny

This project models the light-storing core of a Blender importer/exporter for Quake 3
BSP levels (`import_bsp/QuakeLight.py`). It covers these routines:

- **Colour conversion.** `toSRGB`, `toLinear` and their RGB forms. `colorNormalize` scales a
  colour, divides by its largest channel when that channel is above 1, and converts to sRGB.
- **`storeLighmaps`.** Cuts the packed lightmap atlas image into `n` square tiles of
  `lightmap_size` texels. Each texel becomes three bytes, and the tiles are written to the
  `lightmaps` lump.
- **`encode_normal`.** Turns a light direction into a (latitude, longitude) byte pair.
- **`storeLightgrid`.** Turns each texel of the baked `$Vector`, `$Direct` and `$Ambient`
  images into a 30-entry record (four light styles) or an 8-entry record. With
  `use_lightgridarray` set, it deduplicates the records through the `lightgridarray`
  index lump.
- **`createLightGridTextures`.** Builds the three float buffers from the twenty grid textures.
  The model fixes when it gives up, which samples reach each texel, and how the buffers
  are laid out.
- **`bake_uv_to_vc`.** Copies the nearest texel of the lightmap, or of the vertex-light map
  for materials ending in `.vertex`, into each face corner's vertex colour.

Modules and files:

| module | file | contents |
|---|---|---|
| `Numerics` | `numerics.dfy` | Python's `int()` (truncation) and `round()` (half to even), `& 0xff`, `_clamp_uv`. The `Maths` parameter supplies pow, sqrt, atan2 and acos. |
| `ColorCodec` | `colorcodec.dfy` | Colour conversion and normalisation |
| `PixelBuffers` | `pixelbuffers.dfy` | Blender's flat RGBA `pixels` list |
| `BspLumps` | `bsp.dfy` | The BSP object as a class whose lumps the writers reassign |
| `LightmapAtlas` | `lightmapatlas.dfy` | `storeLighmaps`, as a method over the class and a specification function `UnpackedTiles` |
| `NormalCodec` | `normalcodec.dfy` | `encode_normal`, as written and corrected |
| `Dedup` | `dedup.dfy` | The record table behind `use_lightgridarray` |
| `Lightgrid` | `lightgrid.dfy` | `storeLightgrid` |
| `GridTextures` | `gridtextures.dfy` | `createLightGridTextures` |
| `VertexColorBake` | `vertexcolorbake.dfy` | `bake_uv_to_vc`, on a vertex-colour `array` updated in place |

## Model

| member | source | states |
|---|---|---|
| Numerics.Trunc | import_bsp/QuakeLight.py:133-135 | Python's `int()` on a float truncates toward zero: the result is the integer at distance below 1 on the side of zero. |
| Numerics.RoundHalfEven | import_bsp/QuakeLight.py:86 | Python's `round()` is within 1/2 of its argument, and at an exact half it picks the even neighbour. |
| Numerics.RoundWithin | import_bsp/QuakeLight.py:86 | Rounding a value between two integers stays between them, so a clamped uv times `(size - 1)` rounds into `[0, size - 1]`. |
| Numerics.RoundInteger | import_bsp/QuakeLight.py:86 | Rounding an integer gives that integer. |
| Numerics.LowByte | import_bsp/QuakeLight.py:236-237 | `& 0xff` gives a byte congruent to its argument modulo 256, and is the identity on bytes. |
| Numerics.Clamp01 | import_bsp/QuakeLight.py:63-64 | `_clamp_uv` lands in [0, 1], is the identity there, and maps values below 0 to 0 and values above 1 to 1. |
| ColorCodec.ToSrgb | import_bsp/QuakeLight.py:15-19 | `toSRGB`: linear segment `v * 12.92` up to 0.0031308, power segment above. Specification function; its range is `ColorCodec.ToSrgbUnit`, its inverse on the linear segment `ColorCodec.LinearSegmentRoundTrip`. |
| ColorCodec.ToLinear | import_bsp/QuakeLight.py:21-25 | `toLinear`: `v / 12.92` up to 0.0404482362771082, power segment above. Specification function; its partner is `ColorCodec.LinearSegmentRoundTrip`. |
| ColorCodec.LinearToSrgb | import_bsp/QuakeLight.py:27-28 | `linearToSRGB`: `ToSrgb` on each channel. Specification function, used by `ColorNormalize`. |
| ColorCodec.SrgbToLinear | import_bsp/QuakeLight.py:30-31 | `SRGBToLinear`: `ToLinear` on each channel. Specification function; no modelled routine calls it. |
| ColorCodec.ScaleAndClip | import_bsp/QuakeLight.py:33-46 | The scale and divide-by-max part of `colorNormalize`. Specification function; its properties are `ColorCodec.ScaleAndClipBounded`, `ScaleAndClipKeepsHue` and `ScaleAndClipIdempotent`. |
| ColorCodec.ColorNormalize | import_bsp/QuakeLight.py:33-47 | `colorNormalize`: `ScaleAndClip`, then `LinearToSrgb`. Specification function; its range is `ColorCodec.ColorNormalizeUnit`. |
| ColorCodec.Quantize | import_bsp/QuakeLight.py:133-135 | `int(v * 255)` through `Numerics.Trunc`. Specification function; `ColorCodec.QuantizeByte` bounds it. |
| ColorCodec.Max3 | import_bsp/QuakeLight.py:39 | `max(outColor)` bounds every channel and is one of them. |
| ColorCodec.QuantizeRgb | import_bsp/QuakeLight.py:133-135 | Shape only: three entries, entry k being `Quantize` of channel k. What the entries are (truncation toward zero, bytes) comes from `Numerics.Trunc`, `ColorCodec.QuantizeByte` and `ColorCodec.NormalizedBytes`. |
| ColorCodec.ScaleAndClipBounded | import_bsp/QuakeLight.py:33-46 | For a non-negative colour and scale, the scaled and clipped colour lies in the unit cube. |
| ColorCodec.ScaleAndClipKeepsHue | import_bsp/QuakeLight.py:33-46 | Clipping multiplies all three channels by the same factor in (0, 1]. A colour whose largest channel is at most 1 is unchanged. Otherwise the largest channel becomes exactly 1. |
| ColorCodec.ScaleAndClipIdempotent | import_bsp/QuakeLight.py:33-46 | Clipping an already clipped colour again at scale 1 changes nothing. |
| ColorCodec.ToSrgbUnit | import_bsp/QuakeLight.py:15-19 | `toSRGB` maps [0, 1] into [0, 1], given pow's bounds on that interval. |
| ColorCodec.ColorNormalizeUnit | import_bsp/QuakeLight.py:33-47 | `colorNormalize` of a non-negative colour lies in the unit cube. |
| ColorCodec.QuantizeByte | import_bsp/QuakeLight.py:133-135 | `int(v * 255)` of v in [0, 1] is a byte. |
| ColorCodec.NormalizedBytes | import_bsp/QuakeLight.py:127-135 | A normalised, quantised non-negative colour is three bytes. |
| ColorCodec.LinearSegmentRoundTrip | import_bsp/QuakeLight.py:15-25 | `toLinear` inverts `toSRGB` on the linear segments, and `toSRGB` inverts `toLinear` there. The two knees do not match: `toSRGB(0.0031308)` lies above `toLinear`'s knee 0.0404482362771082. |
| LightmapAtlas.TileOf | import_bsp/QuakeLight.py:111-117 | `lightmap_id` of a pixel: tile column plus columns-per-row times tile row. Its inverse partner is `LightmapAtlas.SourceOfTarget` / `TargetOfSource`. |
| LightmapAtlas.SlotOf | import_bsp/QuakeLight.py:111-125 | `pixel_id` of a pixel: its row-major position inside its tile. Partnered by `LightmapAtlas.SourceOfTarget` / `TargetOfSource`. |
| LightmapAtlas.SourcePixel | import_bsp/QuakeLight.py:109-125 | The atlas pixel that lands in a given slot of a given tile, the reference inverse that `SourceOfTarget` and `TargetOfSource` relate to `TileOf` and `SlotOf`. |
| LightmapAtlas.TileEntry | import_bsp/QuakeLight.py:107-135 | One tile entry after the first `done` pixels: its source pixel's quantised channel once written, else line 107's 0. Its properties are `LightmapAtlas.PixelLandsInItsSlot`, `UnmappedSlotStaysZero` and `TilesAreBytes`. |
| LightmapAtlas.Tiles | import_bsp/QuakeLight.py:107-135 | All tiles after the first `done` pixels, the pull-style reference the loop of `UnpackAtlas` is proved against (`LightmapAtlas.PaintStep`). |
| LightmapAtlas.Paint | import_bsp/QuakeLight.py:133-135 | Writing one pixel's three bytes into its slot; `LightmapAtlas.PaintStep` shows one loop pass is `Paint` or a skip. |
| LightmapAtlas.SourceOfTarget | import_bsp/QuakeLight.py:109-125 | The tile and slot computed for an atlas pixel lead back to that pixel. |
| LightmapAtlas.TargetOfSource | import_bsp/QuakeLight.py:109-125 | Every slot of every tile is the target of exactly the pixel that `SourcePixel` names, so no two pixels share a slot. |
| LightmapAtlas.UnpackedTiles | import_bsp/QuakeLight.py:106-107 | There are `n_lightmaps` tiles of `lm_size * lm_size * 3` entries each. |
| LightmapAtlas.PixelLandsInItsSlot | import_bsp/QuakeLight.py:119-135 | An atlas pixel whose tile id is below `n_lightmaps` ends up, normalised and quantised, at entries `3 * slot + c` of its tile. |
| LightmapAtlas.UnmappedSlotStaysZero | import_bsp/QuakeLight.py:107-120 | A slot whose source pixel lies outside the atlas keeps the initial 0. |
| LightmapAtlas.TilesAreBytes | import_bsp/QuakeLight.py:127-135 | For a non-negative atlas every tile entry is a byte. |
| LightmapAtlas.PaintInThreeWrites | import_bsp/QuakeLight.py:133-135 | Proof helper (loop step): the three per-channel assignments equal one write of the colour into the slot. |
| LightmapAtlas.PaintStep | import_bsp/QuakeLight.py:109-135 | One pass of the pixel loop turns the tiles of the first i pixels into the tiles of the first i + 1 pixels: it paints the pixel's slot, or skips a pixel whose tile id is out of range. |
| LightmapAtlas.UnpackAtlas | import_bsp/QuakeLight.py:104-135 | The pixel loop yields exactly `UnpackedTiles`. |
| LightmapAtlas.StoreLightmaps | import_bsp/QuakeLight.py:95-148 | The call raises exactly when the image is missing or `lm_size` is 0, and then leaves the lump untouched. Otherwise the lightmaps lump becomes `UnpackedTiles`. The other lumps are unchanged. |
| NormalCodec.LatLong | import_bsp/QuakeLight.py:236-238 | Latitude and longitude are two bytes. |
| NormalCodec.AngleByte | import_bsp/QuakeLight.py:236-237 | `int(round(angle * 255 / (2 * pi))) & 0xff`, built from `Numerics.RoundHalfEven` and `Numerics.LowByte`, whose contracts give its byte range. |
| NormalCodec.EncodeNormal | import_bsp/QuakeLight.py:225-238 | `encode_normal` as written: `(0, 0)` for zero length, the 3-tuple on the z axis, `(lat, long)` otherwise. Specification function; its properties are `NormalCodec.EncodeNormalBytes`, `UnpacksExactlyOffAxis` and `PoleDoesNotUnpack`. |
| NormalCodec.EncodeNormalBytes | import_bsp/QuakeLight.py:225-238 | `encode_normal` as written returns two or three entries, all bytes. |
| NormalCodec.UnpacksExactlyOffAxis | import_bsp/QuakeLight.py:225-238 | The written result unpacks into `lat, lon` exactly when the direction is not a nonzero multiple of the z axis. |
| NormalCodec.PoleDoesNotUnpack | import_bsp/QuakeLight.py:234-235 | For (0, 0, 1) the written encoder returns the 3-tuple (0, 0, 0). |
| NormalCodec.EncodeNormalIntended | import_bsp/QuakeLight.py:225-238 | The corrected encoder always returns two bytes. |
| NormalCodec.IntendedAgreesOffAxis | import_bsp/QuakeLight.py:225-238 | The corrected encoder agrees with the written one wherever that one unpacks. Along +z it gives (0, 0), along -z (128, 0). |
| Dedup.Insert | import_bsp/QuakeLight.py:323-334 | One insertion appends exactly one index. |
| Dedup.Empty | import_bsp/QuakeLight.py:258-260 | The starting state: no records, no indices, an empty `hash_table`, `current_pixel_mapping` 0. |
| Dedup.Valid | import_bsp/QuakeLight.py:323-334 | The table invariant: distinct records, the table holds exactly the records, each at its own position. Kept by `Dedup.InsertValid`, established by `BuildLossless`. |
| Dedup.Encodes | import_bsp/QuakeLight.py:323-334 | The index list encodes the inputs: index i names a record equal to input i. Established by `Dedup.BuildLossless`. |
| Dedup.Build | import_bsp/QuakeLight.py:323-334 | The table after inserting the records in texel order; one index per input. Its properties are `Dedup.BuildLossless`, `BuildRecordsAreInputs`, `SameIndexIffEqual`, `BuildNoLonger`, `BuildPrefixes` and `NewRecordGetsNextIndex`. |
| Dedup.InsertValid | import_bsp/QuakeLight.py:323-334 | An insertion keeps the table consistent and extends the encoded inputs by the inserted record. |
| Dedup.InsertRecords | import_bsp/QuakeLight.py:323-332 | An insertion adds exactly the inserted record to the distinct records. |
| Dedup.BuildLossless | import_bsp/QuakeLight.py:323-334 | After any run of insertions the records are distinct and the table maps each record to its position. Input i's index names a record equal to input i. |
| Dedup.BuildRecordsAreInputs | import_bsp/QuakeLight.py:323-334 | The stored records are exactly the distinct inputs. |
| Dedup.SameIndexIffEqual | import_bsp/QuakeLight.py:323-334 | Two inputs share an index if and only if they are equal. |
| Dedup.BuildNoLonger | import_bsp/QuakeLight.py:323-334 | There are never more records than inputs. |
| Dedup.BuildPrefix | import_bsp/QuakeLight.py:323-334 | Proof helper (loop step): one more input extends the record and index lists of the build so far. |
| Dedup.BuildPrefixes | import_bsp/QuakeLight.py:323-334 | Any prefix of the inputs builds prefixes of both lists: earlier records and indices are never rewritten. |
| Dedup.NewRecordGetsNextIndex | import_bsp/QuakeLight.py:329-334 | An input not seen before gets the next index (`current_pixel_mapping`) and one more record. A repeated input reuses an earlier index and adds no record. |
| Lightgrid.GridRecord | import_bsp/QuakeLight.py:281-321 | With `bsp.lightmaps == 4` a record has 30 entries, otherwise 8. |
| Lightgrid.DecodeRecord | import_bsp/QuakeLight.py:281-321 | Reads a record back (first ambient and direct colour, latitude, longitude), None for a wrong length; the inverse partner of `GridRecord` in `Lightgrid.DecodeGridRecord`. |
| Lightgrid.TexelSample | import_bsp/QuakeLight.py:264-279 | The colours and direction code of one texel, with the corrected encoder (see Left out). Its properties are `Lightgrid.TexelSampleBytes` and `PoleTexel`. |
| Lightgrid.Records | import_bsp/QuakeLight.py:262-321 | The records of the first k texels in texel order, the reference `StoreLightgrid` is proved against. Its property is `Lightgrid.RecordsAreBytes`. |
| Lightgrid.StoredUpTo | import_bsp/QuakeLight.py:323-336 | The lumps after some records: the deduplicated build and its index lump with the flag, all records and the untouched index lump without it. Kept by `Lightgrid.AppendRecord`; its meaning is `Lightgrid.IndexLumpResolves`. |
| Lightgrid.Lookup | import_bsp/QuakeLight.py:258-334 | `hash_table` and `current_pixel_mapping` equal the build's table and record count. Kept by `Lightgrid.AppendRecord`. |
| Lightgrid.DecodeGridRecord | import_bsp/QuakeLight.py:281-321 | The record layout loses nothing: decoding a record gives back its ambient and direct colours, latitude and longitude. |
| Lightgrid.FourStyleLayout | import_bsp/QuakeLight.py:282-310 | In a four-style record style st holds the ambient colour at 3*st and the direct colour at 12 + 3*st. Entries 24-27 are zero, latitude is at 28 and longitude at 29. |
| Lightgrid.GridRecordBytes | import_bsp/QuakeLight.py:281-321 | A record built from byte values holds only bytes. |
| Lightgrid.TexelSampleBytes | import_bsp/QuakeLight.py:264-279 | For non-negative colour images a texel's colours, latitude and longitude are bytes. |
| Lightgrid.RecordsAreBytes | import_bsp/QuakeLight.py:262-321 | For non-negative colour images every entry of every record is a byte. |
| Lightgrid.PoleTexel | import_bsp/QuakeLight.py:269 | A texel with direction (0, 0, 1) makes the written `lat, lon = encode_normal(...)` fail. The corrected encoder stores latitude 0 and longitude 0 there. |
| Lightgrid.Singletons | import_bsp/QuakeLight.py:329-334 | Shape only: position i of the index lump holds `[ix[i]]`. What the lump means is stated by `Lightgrid.IndexLumpResolves`. |
| Lightgrid.IndexLumpResolves | import_bsp/QuakeLight.py:323-334 | Through the `lightgridarray` lump every texel reaches a record equal to its own. The deduplicated `lightgrid` lump has no duplicates and is no longer than the number of texels. |
| Lightgrid.TexelStep | import_bsp/QuakeLight.py:264-279 | Proof helper: unfolds `TexelSample` into the pixel-list reads 4p..4p+2 of the three images, for `TexelRecord`. |
| Lightgrid.RecordsStep | import_bsp/QuakeLight.py:262-336 | Proof helper (loop step): the records of the first k + 1 texels are those of the first k plus texel k's record. |
| Lightgrid.RecordsOfStep | import_bsp/QuakeLight.py:262-336 | Proof helper (loop step): appending the next texel's record keeps `RecordsOf`. |
| Lightgrid.RecordsOfRecords | import_bsp/QuakeLight.py:262-336 | Proof helper: the loop's per-texel invariant `RecordsOf` holds exactly of `Records`. |
| Lightgrid.DedupStep | import_bsp/QuakeLight.py:323-334 | A record already in the table appends only its earlier index. A new one is appended and takes the next index. |
| Lightgrid.SingletonsStep | import_bsp/QuakeLight.py:329-334 | Proof helper (loop step): appending an index appends one single-entry record to the index lump. |
| Lightgrid.TexelRecord | import_bsp/QuakeLight.py:264-321 | The loop body builds exactly `GridRecord` of the texel's sample. |
| Lightgrid.AppendRecord | import_bsp/QuakeLight.py:323-336 | The "found twin" step keeps the lumps, the hash table and `current_pixel_mapping` equal to the deduplicated build of the records so far. Without `use_lightgridarray` the record is appended and the index lump is untouched. |
| Lightgrid.StoreLightgrid | import_bsp/QuakeLight.py:240-336 | It stores exactly when all three images exist, and otherwise only clears the lumps. Once stored, the `lightgrid` lump is every texel's record, deduplicated through the `lightgridarray` lump when the flag is set. |
| GridTextures.Samples | import_bsp/QuakeLight.py:429-434 | Each texel gathers twenty colour samples, one per grid texture. |
| GridTextures.Covers | import_bsp/QuakeLight.py:371-434 | Twenty present textures, each valid and at least as large as Grid_00, so that every read at lines 432-434 is in range. |
| GridTextures.Pick | import_bsp/QuakeLight.py:463-480 | Which part of a texel's decomposition goes to `$Vector`, `$Direct` and `$Ambient`. |
| GridTextures.Texel | import_bsp/QuakeLight.py:463-476 | One appended RGBA texel: the colour and alpha 1.0. Its placement is `GridTextures.BufferLayout`. |
| GridTextures.BufferPixels | import_bsp/QuakeLight.py:463-476 | After n texels each buffer holds 4n entries. |
| GridTextures.BufferLayout | import_bsp/QuakeLight.py:463-476 | Texel p of a buffer holds the decomposition of texel p's own twenty samples, followed by an alpha of 1.0. |
| GridTextures.BufferReadsBack | import_bsp/QuakeLight.py:371-480 | Each buffer, read as an image of Grid_00's size, is valid, and its texel p is the decomposition of texel p's samples. |
| GridTextures.CreateLightGridTextures | import_bsp/QuakeLight.py:343-480 | It gives up exactly when a grid texture is missing, with empty buffers. Otherwise each buffer is `BufferPixels` over every texel of Grid_00. |
| VertexColorBake.Corners | import_bsp/QuakeLight.py:81 | `zip(face.vertices, face.loop_indices)` visits as many corners as the shorter list has. |
| VertexColorBake.EndsWith | import_bsp/QuakeLight.py:72 | Python's `str.endswith`. |
| VertexColorBake.Source | import_bsp/QuakeLight.py:70-79 | The image a face samples: the vertex-light map for a material ending in `.vertex`, else the lightmap. Used by `LastWriterWins`. |
| VertexColorBake.CornerColours | import_bsp/QuakeLight.py:69-92 | The colour each visited corner takes. Shaped one entry per visited corner; its content is `VertexColorBake.CornerColoursPaint`. |
| VertexColorBake.BakeCorners | import_bsp/QuakeLight.py:81-92 | The colours after a face's first c corners wrote. Its properties are `VertexColorBake.CornersFrame` and `CornersLast`. |
| VertexColorBake.BakeFaces | import_bsp/QuakeLight.py:69-92 | The colours after the first n faces wrote. Its properties are `VertexColorBake.FacesFrame`, `LastWriter`, `UntouchedKeepsColour` and `LastWriterWins`. |
| VertexColorBake.Target | import_bsp/QuakeLight.py:86 | The nearest texel coordinate of a clamped uv is within the image. |
| VertexColorBake.SampleIndex | import_bsp/QuakeLight.py:86-88 | The sample index leaves room for four entries of the pixel list. |
| VertexColorBake.SampleIndexTexel | import_bsp/QuakeLight.py:86-88 | The index is four times a texel number below width*height. That texel's row is the rounded clamped v coordinate and its column the rounded clamped u coordinate. |
| VertexColorBake.Sample | import_bsp/QuakeLight.py:89-92 | A sampled colour has four channels. |
| VertexColorBake.SampleCorners | import_bsp/QuakeLight.py:86-88 | uv (0, 0) samples the first texel and uv (1, 1) the last. |
| VertexColorBake.SampleClamps | import_bsp/QuakeLight.py:63-88 | Sampling a uv is the same as sampling its clamp to [0, 1]. |
| VertexColorBake.CornerColoursPaint | import_bsp/QuakeLight.py:70-92 | Proof helper: unfolds `CornerColours` into the `Paints` predicate the baking methods take. |
| VertexColorBake.CornersFrame | import_bsp/QuakeLight.py:81-92 | A face's corners leave alone every loop none of them writes. |
| VertexColorBake.CornersLast | import_bsp/QuakeLight.py:81-92 | A corner's loop keeps that corner's colour when no later corner of the face writes it. |
| VertexColorBake.FacesFrame | import_bsp/QuakeLight.py:69-92 | Faces that do not write a loop leave its colour unchanged. |
| VertexColorBake.LastWriter | import_bsp/QuakeLight.py:69-92 | The last corner to write a loop decides its colour. |
| VertexColorBake.UntouchedKeepsColour | import_bsp/QuakeLight.py:69-92 | A loop that no face corner writes keeps its old colour. |
| VertexColorBake.LastWriterWins | import_bsp/QuakeLight.py:69-92 | A loop's final colour is the sample taken by the last corner that writes it, from that face's material image. |
| VertexColorBake.Bake | import_bsp/QuakeLight.py:69-92 | Baking keeps the number of vertex colours. |
| VertexColorBake.WriteCorner | import_bsp/QuakeLight.py:86-92 | One corner's four channel writes replace exactly that loop's colour with the sample. |
| VertexColorBake.BakeFace | import_bsp/QuakeLight.py:70-92 | One face turns the colours into `BakeCorners` over its corners. |
| VertexColorBake.BakeFaceLoop | import_bsp/QuakeLight.py:69-92 | The face loop turns the colours into `BakeFaces` over all faces. |
| VertexColorBake.BakeUvToVc | import_bsp/QuakeLight.py:49-93 | It returns True exactly when both images exist. On False the colours are untouched. On True they are `Bake` of the old colours. |

## Left out

- **External routines.** pow, sqrt, atan2 and acos are the fields of a `Maths` parameter. Only the facts that the proofs need are assumed, as hypotheses (`PowBounds`, `SqrtExact`). Floating point is modelled as exact reals.
- **Blender image lookup.** Finding `$lightmap`, `$Vector` and the other images by name becomes `Option<Image>` parameters. Creating images and buffers (`bpy.data.images.new`, assigning `.pixels`) is not modelled. The `createLightGridTextures` buffers are returned as lists.
- **Mesh layers.** The uv layer and the vertex-colour layer that `bake_uv_to_vc` selects by name are given as the mesh's uv list and a vertex-colour array.
- **`print` calls.** They are omitted. So is the out-of-range check at line 131, which only prints.
- **Other routines.** `create_lightgrid` (lines 150-223) is not part of this model. The `bgl`, `gpu` and `batch_for_shader` imports (lines 10-12) are not used by any modelled routine. Neither is `luma` (lines 340-341).
- **`GridTextures.CreateLightGridTextures`: per-texel numerics.** The arithmetic that turns twenty samples into a direction, a direct colour and an ambient colour (lines 436-461: luma weighting, normalisation, fourth roots) is a `decompose` parameter. Only the shape around it is proved.
- **`GridTextures.CreateLightGridTextures`: texture sizes.** Every grid texture is required to have at least as many texels as Grid_00. Otherwise the source's reads run off a shorter list and raise.
- **`Lightgrid.StoreLightgrid`: image sizes.** The direct and ambient images are required to have at least as many texels as `$Vector`, for the same reason.
- **`Lightgrid.StoreLightgrid`: missing images.** A missing image fails in the source at `.pixels` (lines 250-252) before its own None check at line 254. Either way the call ends after the lumps are cleared, and the model reports that as `stored == false`.
- **`Lightgrid.StoreLightgrid`: hashing.** Deduplication is keyed on the record value. The source keys on `hash(tuple(array))`, so two different records with equal hashes would be merged there. Hash collisions are not modelled.
- **`Lightgrid.StoreLightgrid`, `Lightgrid.TexelSample` and `Lightgrid.TexelRecord`: encoder.** They use the corrected `encode_normal` (see Findings), so they build a record (latitude 0 or 128, longitude 0) for a pole texel where line 269 raises. The written behaviour is stated by `Lightgrid.PoleTexel` and the `NormalCodec` lemmas.
- **`LightmapAtlas.StoreLightmaps`: atlas shape.** The atlas width must be a multiple of `lm_size`. The source runs on any width: `floor` at lines 117 and 125 keeps the tile and slot ids integral. But with a fractional `num_rows_colums` (line 105) the row stride is fractional, so two pixels can write the same slot and the later one wins. For example, with width 6, tile size 4 and at least two tiles, pixels 4 and 24 both land in slot 0 of tile 1. The model covers only a whole number of tiles per row, where the pixel-to-slot map is a bijection.
- **`VertexColorBake.BakeUvToVc`: inputs.** Both present images must be at least 1×1, and the mesh's material, uv and loop indices must be in range. The source indexes only the image that a visited corner's material selects (lines 86-92). So a present but empty `$vertmap` or `$lightmap` that no visited corner samples is accepted there, and the call returns True. The model excludes that input. A visited corner that reads out of range raises in the source, and the model does not cover that raise.
- **Lightgrid record width.** Records follow the code: 30 entries with four light styles.

## Findings

| source | as written | input that shows it | evidently intended | confidence | as-written member | corrected member |
|---|---|---|---|---|---|---|
| import_bsp/QuakeLight.py:234-235 | `return 0, 0 if z > 0 else 128, 0` builds the 3-tuple `(0, 0 or 128, 0)`. The caller's `lat, lon = encode_normal(...)` at line 269 then raises. | a `$Vector` texel with direction (0, 0, 1) | latitude 0 and longitude 0 along +z, latitude 128 and longitude 0 along -z | not executed | NormalCodec.PoleDoesNotUnpack | NormalCodec.EncodeNormalIntended |
