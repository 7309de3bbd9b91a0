# PAA texture plug-in: pixel conversion and validation

A model of the core of a GIMP plug-in that loads and exports PAA textures
(power-of-two, mipmapped RGBA textures of a game engine). The core is what
the plug-in decides on its own, between the host (GIMP and GEGL) and the PAA
codec library:

- `dimension.dfy`, module `DimensionValidator`: the `isPowerOfTwo` bit trick
  `x != 0 && (x & (x - 1)) == 0` on a `uint32_t`, with bitwise and written
  out as `BitAnd` over naturals, proved to hold exactly of 2^k, k < 32.
- `alpha.dfy`, module `AlphaNormalizer`: the two byte loops. `StripAlpha`
  (load, stride 4, drops alpha) and `ExpandAlpha` (export, stride 3, appends
  alpha 255) are methods with loops, proved equal to the recursive
  specifications `Stripped` and `Expanded`; lemmas give the per-pixel
  content, both round trips and the repeated-pixel cases.
- `texture.dfy`, module `Texture`: `uint8`, the `MipMap` level record and the
  codec's `Paa` object, whose `mipMaps` vector the export clears and appends to.
- `plugin.dfy`, module `PaaPlugin`: `PaaLoad` (`paa_load`) and `SavePaa`
  (`savePaa`). Host and codec calls are not executed; each procedure returns
  the calls it makes, in order, as a `seq<Call>`, and the outcomes of the
  host and the codec (decode error, layer insertion result, encode outcome)
  are parameters. Errors are a `Status` value: `CallingError` or
  `ExecutionError` with its cause, as the plug-in's PDB status codes.

The loops in the source index `data[i + 1]` and `data[i + 2]` without checking
that the buffer length is a multiple of the stride. `StripAlpha` and
`ExpandAlpha` require it. `PaaLoad` checks it and fails with
`ExecutionError(CorruptData)`, where the source reads past the end (lengths
4m+1 and 4m+2) or copies a final 3-byte group (length 4m+3), and does the
same for a decoded chain with no level, which the source indexes at 0
unchecked. `SavePaa` needs no such check: a valid drawable of 3 bytes per
pixel always has a multiple of 3 bytes.

## Model

| member | source | states |
|---|---|---|
| `DimensionValidator.IsPowerOfTwoIff` | src/paa-gimp-plugin.cpp:111-113 | `isPowerOfTwo(x)` holds iff x equals 2^k for some k < 32 |
| `DimensionValidator.NoLowerBitsIsPower` | src/paa-gimp-plugin.cpp:112 | a positive x with `x & (x - 1) == 0` is a power of two |
| `DimensionValidator.PowerHasNoLowerBits` | src/paa-gimp-plugin.cpp:112 | every power of two passes `x & (x - 1) == 0` |
| `DimensionValidator.Examples` | src/paa-gimp-plugin.cpp:111-113 | 0, 3 and 100 are rejected; 1 and 256 are accepted |
| `AlphaNormalizer.StrippedLength` | src/paa-gimp-plugin.cpp:84-94 | a buffer of 4n bytes strips to one of 3n bytes: the pixel count is kept |
| `AlphaNormalizer.ExpandedLength` | src/paa-gimp-plugin.cpp:158-169 | a buffer of 3n bytes expands to one of 4n bytes: the pixel count is kept |
| `AlphaNormalizer.StrippedAppend` | src/paa-gimp-plugin.cpp:87-91 | stripping works pixel by pixel: whole pixels followed by more bytes strip to the parts stripped, in order |
| `AlphaNormalizer.ExpandedAppend` | src/paa-gimp-plugin.cpp:161-166 | expanding works pixel by pixel, in order |
| `AlphaNormalizer.StripAlpha` | src/paa-gimp-plugin.cpp:85-93 | the stride-4 loop builds exactly the stripped buffer |
| `AlphaNormalizer.ExpandAlpha` | src/paa-gimp-plugin.cpp:159-168 | the stride-3 loop builds exactly the expanded buffer |
| `AlphaNormalizer.StrippedPixel` | src/paa-gimp-plugin.cpp:87-91 | `out[3k+j] == in[4k+j]` for every pixel k and j < 3, so pixel order is kept |
| `AlphaNormalizer.ExpandedPixel` | src/paa-gimp-plugin.cpp:161-166 | `out[4k+j] == in[3k+j]` for j < 3 and `out[4k+3] == 255` |
| `AlphaNormalizer.StripExpand` | src/paa-gimp-plugin.cpp:157-169 | stripping an expanded buffer gives back the RGB buffer |
| `AlphaNormalizer.ExpandStrip` | src/paa-gimp-plugin.cpp:84-94 | expanding a stripped buffer restores it iff every alpha byte was 255 |
| `AlphaNormalizer.ExpandRepeat` | src/paa-gimp-plugin.cpp:161-166 | one RGB pixel repeated n times expands to the same pixel with alpha 255, repeated n times |
| `AlphaNormalizer.StripRepeat` | src/paa-gimp-plugin.cpp:87-91 | one RGBA pixel repeated n times strips to its RGB part, repeated n times |
| `Texture.Paa.constructor` | src/paa-gimp-plugin.cpp:172 | a new texture object has no levels |
| `Texture.Paa.ClearMipMaps` | src/paa-gimp-plugin.cpp:178 | the level vector is emptied, nothing else changes |
| `Texture.Paa.PushMipMap` | src/paa-gimp-plugin.cpp:179 | the level is appended at the end, nothing else changes |
| `PaaPlugin.PaaLoad` | src/paa-gimp-plugin.cpp:48-109 | decode failure returns an execution error after the read alone; the image and layer take level 0's extents, the layer is RGBA iff the texture has transparency; a failed layer insertion deletes the image and returns an execution error; on success the layer receives level 0's bytes unchanged when there is transparency and stripped of alpha otherwise; level-0 data that is not whole pixels, without transparency, gives `ExecutionError(CorruptData)`; load never returns a calling error |
| `PaaPlugin.SavePaa` | src/paa-gimp-plugin.cpp:132-188 | a calling error exactly when width or height is not a power of two, and then no buffer is read and the codec is not called; otherwise the buffer is read in RGBA format iff 4 bytes per pixel, and the codec receives one level with the drawable's extents and `dataLength == |data| == width*height*4`, holding the pixels, with alpha 255 added for 3 bytes per pixel; the codec's failure becomes an execution error, its success a success |
| `PaaPlugin.ExportedLength` | src/paa-gimp-plugin.cpp:151-169 | the buffer read from a valid drawable of 3 bytes per pixel holds whole pixels, and after alpha is added (or when it already has 4 bytes per pixel) it is `width*height*4` bytes |
| `PaaPlugin.ExportThenImportOpaque` | src/paa-gimp-plugin.cpp:173-179 | stripping alpha from the level that export hands to the codec for an RGB drawable gives back the drawable's bytes (the codec and its encoding are not part of this) |

## Left out

- Plug-in registration, procedure metadata, file magics, menu label and attribution (src/paa-gimp-plugin.cpp:3-46 and the header): host wiring without behaviour.
- The PAA codec (`readPaa`, `calculateMipmapsAndTaggs`, `writePaa`): a foreign library whose source is not part of this model. Decoding is the state of the `Paa` object plus an optional error message; encoding is a `CodecOutcome` parameter.
- GEGL and GIMP buffer I/O and object lifetimes: host I/O. Image creation, layer creation, layer insertion, image deletion, `gegl_buffer_set` and `gegl_buffer_get` are recorded as `Call`s in the returned sequence (`NewImage`, `NewLayer`, `InsertLayer`, `DeleteImage`, `SetBuffer`, `GetBuffer`); `gegl_init`, `gimp_drawable_get_buffer` and `g_object_unref` are omitted. The bytes the host delivers are `Drawable.pixels`.
- `paa_save` (src/paa-gimp-plugin.cpp:115-130): the export-options image copy, taking the first layer and deleting the copy are host plumbing; the model starts at `savePaa`.
- Error message texts and `GError` construction: only the kind of error and its cause are modelled.
- PaaPlugin.SavePaa: requires 3 or 4 bytes per pixel. `gimp_drawable_get_bpp` counts bytes, not channels, so a high-precision drawable would give other values; the procedure is registered for RGB images, and such drawables are not modelled.
- PaaPlugin.SavePaa: the 64-bit `size_t` product `width * height * channelNumber` is unbounded here; with `gint` extents that are powers of two it cannot overflow.
- PaaPlugin.PaaLoad: returns `ExecutionError(CorruptData)` for an empty chain, which the source indexes at 0 unchecked, and for level-0 data whose length is not a multiple of 4 when alpha is stripped. For lengths 4m+1 and 4m+2 the source loop reads past the end; for 4m+3 it reads in bounds and emits a final 3-byte group, which the model rejects instead. The length of level 0 against `width * height * 4` is not checked, by the source or the model.
- AlphaNormalizer.StripAlpha: requires a length that is a multiple of 4. For lengths 4m+1 and 4m+2 the source loop reads past the end; for 4m+3 it copies the last three bytes as one more group, whereas `Stripped` ignores any trailing partial pixel.
- AlphaNormalizer.ExpandAlpha: requires a length that is a multiple of 3; for any other length the source loop reads past the end.
- No length check on the assembled level: `savePaa` packages whatever buffer it built and sets `dataLength` from it; the model proves `width*height*4` from the drawable's invariant instead (`PaaPlugin.ExportedLength`).
- The width and height fields of the codec's `MipMap` record are natural numbers here; their C++ width lies in the codec library.
