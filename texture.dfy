/** The in-memory texture that the PAA codec reads and writes: a chain of
    mipmap levels, level 0 at full resolution, each holding RGBA bytes. */
module Texture {

  /** The C++ `uint8_t`. */
  newtype uint8 = x: int | 0 <= x < 256

  /** One level of the chain. `dataLength` is a separate field that the
      writer of a level must keep equal to `|data|`. */
  datatype MipMap = MipMap(width: nat, height: nat, data: seq<uint8>, dataLength: nat)

  /** A default-constructed `MipMap`, before its fields are assigned. */
  const EmptyMipMap: MipMap := MipMap(0, 0, [], 0)

  /** The codec's texture object, whose `mipMaps` vector is updated in place. */
  class Paa {
    var mipMaps: seq<MipMap>
    var hasTransparency: bool

    constructor ()
      ensures mipMaps == []
    {
      mipMaps := [];
      hasTransparency := false;
    }

    /** `mipMaps.clear()`. */
    method ClearMipMaps()
      modifies this
      ensures mipMaps == [] && hasTransparency == old(hasTransparency)
    {
      mipMaps := [];
    }

    /** `mipMaps.push_back(m)`: the level is copied in at the end. */
    method PushMipMap(m: MipMap)
      modifies this
      ensures mipMaps == old(mipMaps) + [m] && hasTransparency == old(hasTransparency)
    {
      mipMaps := mipMaps + [m];
    }
  }
}
