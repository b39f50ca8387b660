/** The part of the BSP object the light writers touch: three level-metadata
    values and three lumps, each an ordered list of integer records that the
    writers clear and append to. */
module BspLumps {

  class Bsp {
    /** `bsp.lightmap_size[0]`: the edge length of one lightmap tile. */
    const lightmapSize: nat
    /** `bsp.lightmaps`: 4 selects the 30-entry lightgrid record, anything else the 8-entry one. */
    const lightmaps: int
    /** `bsp.use_lightgridarray`: deduplicate lightgrid records through an index lump. */
    const useLightgridArray: bool

    /** `bsp.lumps["lightmaps"]`: one record per lightmap tile. */
    var lightmapsLump: seq<seq<int>>
    /** `bsp.lumps["lightgrid"]`: one record per (distinct) lightgrid texel. */
    var lightgridLump: seq<seq<int>>
    /** `bsp.lumps["lightgridarray"]`: one single-entry record per texel, an index into `lightgridLump`. */
    var lightgridArrayLump: seq<seq<int>>

    constructor (lightmapSize: nat, lightmaps: int, useLightgridArray: bool,
                 lightmapsLump: seq<seq<int>>, lightgridLump: seq<seq<int>>,
                 lightgridArrayLump: seq<seq<int>>)
      ensures this.lightmapSize == lightmapSize && this.lightmaps == lightmaps
      ensures this.useLightgridArray == useLightgridArray
      ensures this.lightmapsLump == lightmapsLump && this.lightgridLump == lightgridLump
      ensures this.lightgridArrayLump == lightgridArrayLump
    {
      this.lightmapSize := lightmapSize;
      this.lightmaps := lightmaps;
      this.useLightgridArray := useLightgridArray;
      this.lightmapsLump := lightmapsLump;
      this.lightgridLump := lightgridLump;
      this.lightgridArrayLump := lightgridArrayLump;
    }
  }
}
