/** The load and export procedures of the GIMP plug-in for PAA textures.
    Host calls (image, layer and buffer handling) and codec calls are not
    executed: each procedure returns the sequence of calls it makes, in
    order, and the outcomes of the host and the codec are parameters. */
module PaaPlugin {
  import opened Texture
  import opened DimensionValidator
  import opened AlphaNormalizer

  datatype Option<T> = None | Some(value: T)

  /** Pixel format in which the drawable's buffer is read. */
  datatype Format = RgbU8 | RgbaU8

  /** Type of the layer created on import. */
  datatype LayerType = RgbImage | RgbaImage

  /** Why a procedure failed with an execution error. */
  datatype Cause =
    | DecodeFailed(message: string)
    | LayerInsertFailed
    | EncodeFailed(message: string)
    | CorruptData

  /** The status a procedure returns to the host. */
  datatype Status = Success | CallingError | ExecutionError(cause: Cause)

  /** A call made to the host or to the codec. */
  datatype Call =
    | ReadPaa(filename: string)
    | NewImage(width: nat, height: nat)
    | NewLayer(width: nat, height: nat, layerType: LayerType)
    | InsertLayer
    | DeleteImage
    | SetBuffer(width: nat, height: nat, data: seq<uint8>)
    | GetBuffer(width: nat, height: nat, format: Format)
    | CalculateMipmapsAndTaggs(mipMaps: seq<MipMap>)
    | WritePaa(filename: string)

  /** What the codec does with the chain handed to it on export. */
  datatype CodecOutcome = Written | CalculateFailed(message: string) | WriteFailed(message: string)

  /** The drawable being exported: its extents, its bytes per pixel and the
      bytes the host delivers when its buffer is read in the matching format. */
  datatype Drawable = Drawable(width: nat, height: nat, bpp: nat, pixels: seq<uint8>)
  {
    /** Extents are `gint`s; the procedure is registered for RGB images only,
        with or without alpha, so a pixel is 3 or 4 bytes. */
    predicate Valid()
    {
      width < 0x8000_0000 && height < 0x8000_0000 &&
      (bpp == 3 || bpp == 4) &&
      |pixels| == width * height * bpp
    }
  }

  /** `chain` is the single full-resolution RGBA level built from `d`: the
      drawable's extents, its pixels with alpha 255 added when it has none,
      and a `dataLength` equal to the byte count, four bytes per pixel. */
  predicate IsBaseLevelOf(chain: seq<MipMap>, d: Drawable)
  {
    |chain| == 1 &&
    chain[0].width == d.width && chain[0].height == d.height &&
    chain[0].dataLength == |chain[0].data| == d.width * d.height * 4 &&
    (d.bpp < 4 ==> chain[0].data == Expanded(d.pixels)) &&
    (d.bpp >= 4 ==> chain[0].data == d.pixels)
  }

  /** A valid drawable of 3 bytes per pixel holds whole pixels, and the
      RGBA form of any valid drawable has 4 bytes per pixel. */
  lemma ExportedLength(d: Drawable)
    requires d.Valid()
    ensures d.bpp < 4 ==> |d.pixels| % 3 == 0 && |Expanded(d.pixels)| == d.width * d.height * 4
    ensures d.bpp >= 4 ==> |d.pixels| == d.width * d.height * 4
  {
    var n := d.width * d.height;
    assert |d.pixels| == n * d.bpp;
    if d.bpp < 4 {
      ExpandedLength(d.pixels, n);
    }
  }

  /** `paa_load`: decode the file, create an image with one layer of the
      level-0 extents (RGBA when the texture has transparency, RGB
      otherwise), and write the level-0 bytes into it, with alpha dropped
      when the layer is RGB. */
  method PaaLoad(filename: string, paa: Paa, readError: Option<string>, insertOk: bool)
    returns (status: Status, calls: seq<Call>)
    ensures |calls| >= 1 && calls[0] == ReadPaa(filename)
    ensures readError.Some? ==>
      status == ExecutionError(DecodeFailed(readError.value)) && calls == [ReadPaa(filename)]
    ensures readError.None? && paa.mipMaps == [] ==>
      status == ExecutionError(CorruptData) && calls == [ReadPaa(filename)]
    ensures readError.None? && paa.mipMaps != [] ==>
      |calls| >= 4 &&
      calls[1] == NewImage(paa.mipMaps[0].width, paa.mipMaps[0].height) &&
      calls[2] == NewLayer(paa.mipMaps[0].width, paa.mipMaps[0].height,
                           if paa.hasTransparency then RgbaImage else RgbImage) &&
      calls[3] == InsertLayer
    ensures status == ExecutionError(LayerInsertFailed) <==>
      readError.None? && paa.mipMaps != [] && !insertOk
    ensures status == Success <==>
      readError.None? && paa.mipMaps != [] && insertOk &&
      (paa.hasTransparency || |paa.mipMaps[0].data| % 4 == 0)
    ensures status == Success ==>
      |calls| == 5 &&
      calls[4] == SetBuffer(paa.mipMaps[0].width, paa.mipMaps[0].height,
                            if paa.hasTransparency then paa.mipMaps[0].data
                            else Stripped(paa.mipMaps[0].data))
    ensures status != Success ==> forall i :: 0 <= i < |calls| ==> !calls[i].SetBuffer?
    ensures status != Success && |calls| > 1 ==> |calls| == 5 && calls[4] == DeleteImage
    ensures readError.None? && paa.mipMaps != [] && insertOk && !paa.hasTransparency &&
            |paa.mipMaps[0].data| % 4 != 0 ==>
      status == ExecutionError(CorruptData)
    ensures status != CallingError
  {
    calls := [ReadPaa(filename)];
    if readError.Some? {
      status := ExecutionError(DecodeFailed(readError.value));
      return;
    }
    if |paa.mipMaps| == 0 {
      status := ExecutionError(CorruptData);
      return;
    }
    var width := paa.mipMaps[0].width;
    var height := paa.mipMaps[0].height;
    var hasAlpha := paa.hasTransparency;

    calls := calls + [NewImage(width, height)];
    calls := calls + [NewLayer(width, height, if hasAlpha then RgbaImage else RgbImage)];
    calls := calls + [InsertLayer];
    if !insertOk {
      calls := calls + [DeleteImage];
      status := ExecutionError(LayerInsertFailed);
      return;
    }

    var data := paa.mipMaps[0].data;
    if !hasAlpha {
      if |data| % 4 != 0 {
        calls := calls + [DeleteImage];
        status := ExecutionError(CorruptData);
        return;
      }
      data := StripAlpha(data);
    }
    calls := calls + [SetBuffer(width, height, data)];
    status := Success;
  }

  /** `savePaa`: reject extents that are not powers of two before anything
      is read; otherwise read the drawable's buffer, add opaque alpha when it
      has 3 bytes per pixel, and hand a chain holding that single level to
      the codec, which computes the further levels and writes the file. */
  method SavePaa(filename: string, drawable: Drawable, codec: CodecOutcome)
    returns (status: Status, calls: seq<Call>)
    requires drawable.Valid()
    ensures status == CallingError <==>
      !IsPowerOfTwo(drawable.width as uint32) || !IsPowerOfTwo(drawable.height as uint32)
    ensures status == CallingError ==> calls == []
    ensures status != CallingError ==>
      |calls| >= 2 &&
      calls[0] == GetBuffer(drawable.width, drawable.height,
                            if drawable.bpp == 4 then RgbaU8 else RgbU8) &&
      calls[1].CalculateMipmapsAndTaggs? && IsBaseLevelOf(calls[1].mipMaps, drawable)
    ensures status == Success <==> status != CallingError && codec == Written
    ensures status == Success ==> calls[2..] == [WritePaa(filename)]
    ensures status != CallingError && codec.CalculateFailed? ==>
      status == ExecutionError(EncodeFailed(codec.message)) && |calls| == 2
    ensures status != CallingError && codec.WriteFailed? ==>
      status == ExecutionError(EncodeFailed(codec.message)) && calls[2..] == [WritePaa(filename)]
  {
    calls := [];
    var width := drawable.width;
    var height := drawable.height;
    var channelNumber := drawable.bpp;
    var format := if channelNumber == 4 then RgbaU8 else RgbU8;

    if !IsPowerOfTwo(width as uint32) || !IsPowerOfTwo(height as uint32) {
      status := CallingError;
      return;
    }

    calls := calls + [GetBuffer(width, height, format)];
    var data := drawable.pixels;

    ExportedLength(drawable);
    if channelNumber < 4 {
      data := ExpandAlpha(data);
    }

    var paa := new Paa();
    var mipMap := EmptyMipMap;
    mipMap := mipMap.(height := height);
    mipMap := mipMap.(width := width);
    mipMap := mipMap.(data := data);
    mipMap := mipMap.(dataLength := |mipMap.data|);
    paa.ClearMipMaps();
    paa.PushMipMap(mipMap);

    calls := calls + [CalculateMipmapsAndTaggs(paa.mipMaps)];
    if codec.CalculateFailed? {
      status := ExecutionError(EncodeFailed(codec.message));
      return;
    }
    calls := calls + [WritePaa(filename)];
    if codec.WriteFailed? {
      status := ExecutionError(EncodeFailed(codec.message));
      return;
    }
    status := Success;
  }

  /** Importing, as an opaque texture, the level that export built from a
      3-byte-per-pixel drawable gives back the drawable's bytes. */
  lemma ExportThenImportOpaque(chain: seq<MipMap>, d: Drawable)
    requires d.Valid() && d.bpp == 3 && IsBaseLevelOf(chain, d)
    ensures Stripped(chain[0].data) == d.pixels
  {
    StripExpand(d.pixels);
  }
}
