# Software renderer core of Yamagi Quake II, and the Heretic II texture loaders

This project is a Dafny model of two parts of the Yamagi Quake II engine.

The first part is the per-frame bookkeeping of the software renderer (`sw_main.c`):
- the checkerboard "no texture" image;
- growth of the surface, edge and vertex pools;
- PVS leaf marking and the top-node search for brush submodels;
- the two entity passes and the brush-submodel pass;
- the palette pipeline: gamma correction, setting the palette, loading the colormap and per-frame blending;
- the 32-bit frame copy and the RGB24 screenshot;
- the sky face names;
- the choice of the number of fixed-point fraction bits.

The second part is the loaders of the Heretic II `.m8` (palettised) and `.m32` (RGBA) textures (`m8_32.c`).

Code that changes state step by step is modelled as classes with `modifies` frames and loops with invariants. Each such method is tied to a specification function, and the properties the renderer relies on are lemmas about those functions:
- the pixels of the image do not overlap and cover it;
- a pass lists each drawable entity once, opaque ones before translucent ones;
- the PVS marking is closed upwards;
- palette widening round-trips;
- an unblended frame restores the base palette;
- a loaded `.m8` picture is the palette lookup of level 0.

Modules:
- `Common`: vectors, little- and big-endian words, `LittleLong`, truncation.
- `NoTexture`: the buffer `R_InitTextures` fills.
- `MapBuffers`: `R_ReallocateMapBuffers` and the cursor reset of `R_EdgeDrawing`.
- `Bsp`: `R_MarkLeaves` and `R_FindTopnode`, over a tree given by parent links.
- `Clip`: `R_BmodelCheckBBox` and the unrotated case of `RotatedBBox`.
- `Entities`: `R_DrawEntitiesOnList` and `R_DrawBEntitiesOnList`, as lists of draw events.
- `Palette`: gamma, `RE_SetPalette`, `Draw_GetPalette`, `R_CalcPalette`, `RE_CopyFrame` and `R_ScreenShot_f`.
- `Sky`: `RE_SetSky`.
- `FixedPoint`: `shift_size`.
- `H2Textures`: `LoadM8`, `LoadM32`, `GetM8Info` and `GetM32Info`.

## Model

| member | source | states |
|---|---|---|
| NoTexture.MipLayout | src/client/refresh/soft/sw_main.c:224-229 | each mip level starts where the previous one ends, `side * side` bytes later, and the four levels fit in the buffer |
| NoTexture.MipIndexIsRowMajor | src/client/refresh/soft/sw_main.c:231-243 | the cursor stands at `offset(m) + y * side + x` when pixel (x, y) of level m is written |
| NoTexture.MipIndexInLevel | src/client/refresh/soft/sw_main.c:231-243 | every pixel of a level is written inside that level's bytes |
| NoTexture.MipIndexInjective | src/client/refresh/soft/sw_main.c:231-243 | no two pixels, of any levels, are written to the same byte |
| NoTexture.MipsCoverImage | src/client/refresh/soft/sw_main.c:224-243 | every byte of the 340-byte image is the position of some pixel |
| NoTexture.DarkQuadrants | src/client/refresh/soft/sw_main.c:238-241 | a pixel is 0 exactly in the top-right and bottom-left quadrants, 0xff elsewhere |
| NoTexture.MipsAreDownsampled | src/client/refresh/soft/sw_main.c:235-241 | each level is the previous one sampled at every other pixel |
| NoTexture.RowStartIsProduct | src/client/refresh/soft/sw_main.c:236-237 | the cursor after `y` rows is `y * side` bytes into the level |
| NoTexture.FillRow | src/client/refresh/soft/sw_main.c:237-242 | one row is drawn with its checker colours and no other byte changes |
| NoTexture.FillLevel | src/client/refresh/soft/sw_main.c:233-242 | one level is drawn completely and only its own bytes change |
| NoTexture.NoTextureImage.InitTextures | src/client/refresh/soft/sw_main.c:217-245 | size 16, level offsets at 0/256/320/336, every level drawn, the rest of the buffer untouched |
| MapBuffers.Grow | src/client/refresh/soft/sw_main.c:506-514 | the new capacity is at least the floor, at least double the old one on overflow, and is the floor or the (doubled) old capacity |
| MapBuffers.GrowWithOverride | src/client/refresh/soft/sw_main.c:432-443 | as `Grow`, and also at least the configured override (`sw_maxsurfs`, `sw_maxedges`) |
| MapBuffers.GrownPoolIsStable | src/client/refresh/soft/sw_main.c:425-443 | after growth the pool is not regrown next frame unless that frame overflows |
| MapBuffers.OverflowDoubles | src/client/refresh/soft/sw_main.c:432-440 | n overflowing frames in a row grow the surface pool to at least `2^(n-1)` times the floor and times the start |
| MapBuffers.PoolState.ReallocSurfaces | src/client/refresh/soft/sw_main.c:425-462 | regrown capacity; on success the cursor is just past the dummy surface 0 and the limit is one past the capacity |
| MapBuffers.PoolState.ReallocEdges | src/client/refresh/soft/sw_main.c:464-497 | regrown capacity; on success the cursor is rewound and the limit set |
| MapBuffers.PoolState.ReallocVerts | src/client/refresh/soft/sw_main.c:499-526 | regrown capacity with the `MAXALIASVERTS` floor; on success the limit is set |
| MapBuffers.PoolState.Reallocate | src/client/refresh/soft/sw_main.c:423-527 | each pool is regrown exactly when it is reached (every earlier pool present) and was empty or overflowed, with its cursor and limit reset on success; a failed allocation leaves the later pools untouched; capacities never shrink |
| MapBuffers.PoolState.BeginEdgeDrawing | src/client/refresh/soft/sw_main.c:953-962 | with a world model the edge cursor restarts and the surface cursor skips the dummy and background surfaces |
| MapBuffers.InitialReallocation | src/client/refresh/soft/sw_main.c:423-527 | the first reallocation sizes the surface pool to the larger of its floor and override, then, as far as the allocations before succeed, the edge pool likewise and the vertex pool to `MAXALIASVERTS` |
| Bsp.AncestorIsEarlier | src/client/refresh/soft/sw_main.c:578-585 | along the parent walk indexes only decrease |
| Bsp.AncestorsAreOrdered | src/client/refresh/soft/sw_main.c:578-585 | two ancestors of one element lie on a single chain |
| Bsp.InPvsIsUpwardClosed | src/client/refresh/soft/sw_main.c:569-587 | the parent of a marked element is marked |
| Bsp.LeafInPvs | src/client/refresh/soft/sw_main.c:573-577 | a leaf gets this frame's stamp exactly when its cluster bit is set in the PVS |
| Bsp.World.MarkLeaves | src/client/refresh/soft/sw_main.c:539-588 | skipped (nothing changes) on an unchanged cluster or `r_lockpvs`; otherwise a new frame count, everything stamped when there is no vis, else exactly the visible leaves and their ancestors |
| Bsp.World.StampPath | src/client/refresh/soft/sw_main.c:578-585 | the parent walk stamps the leaf and its ancestors, stopping at the first one already stamped, and keeps other stamps |
| Bsp.MarkTwice | src/client/refresh/soft/sw_main.c:546-588 | two markings from the same cluster end as one `R_MarkLeaves`: skipped when the cluster is unchanged, else a count one higher and the stamps one marking gives; the second call changes nothing |
| Bsp.Topnode | src/client/refresh/soft/sw_main.c:763-797 | the top node, when found, is a descendant of the start, carries this frame's stamp, and is a non-solid leaf or a node whose side value is 3 |
| Bsp.TopnodePathIsVisible | src/client/refresh/soft/sw_main.c:770-796 | every element on the path down to the top node carries this frame's stamp |
| Bsp.World.FindTopnode | src/client/refresh/soft/sw_main.c:763-797 | the walk from the root gives `Topnode`; an unstamped root gives none |
| Clip.PlaneBit | src/client/refresh/soft/sw_main.c:747-748 | the flag of plane i is `1 << i` |
| Clip.CrossedBits | src/client/refresh/soft/sw_main.c:740-748 | bit i of the mask is set exactly when plane i's accept point is on or behind the plane, and the mask is below 16 |
| Clip.BmodelCheckBBox | src/client/refresh/soft/sw_main.c:713-752 | the loop's result is the box test's intended outcome |
| Clip.BBoxClipMeaning | src/client/refresh/soft/sw_main.c:713-752 | fully clipped exactly when some reject point is on or behind its plane; otherwise each bit means that plane is crossed |
| Entities.UnrotatedBoxTest | src/client/refresh/soft/sw_main.c:814-819 | an entity with all angles zero is box-tested with its model's own box at its origin, and the outcome does not depend on the rotated box |
| Clip.MinMaxs | src/client/refresh/soft/sw_main.c:895-898 | the six values are the box's corners moved to the entity origin |
| Entities.PassSound | src/client/refresh/soft/sw_main.c:615-658 | a pass lists only drawable entities of its translucency, in increasing list order, each with its kind's draw event |
| Entities.PassComplete | src/client/refresh/soft/sw_main.c:615-658 | a pass lists every drawable entity of its translucency |
| Entities.NoTranslucentPass | src/client/refresh/soft/sw_main.c:660-661 | with no translucent entity the second pass draws nothing and changes no origin |
| Entities.DrawListEvents | src/client/refresh/soft/sw_main.c:606-704 | every draw of the frame is the draw event of a drawable entity |
| Entities.DrawListCovers | src/client/refresh/soft/sw_main.c:611-704 | an entity is drawn exactly when entities are on and it is drawable |
| Entities.DrawListOrdered | src/client/refresh/soft/sw_main.c:615-703 | all opaque entities come before any translucent one, list order within each, no entity twice |
| Entities.SubmodelFor | src/client/refresh/soft/sw_main.c:881-931 | an entity is drawn only if it is a brush model with faces that is not culled, the draw's top node satisfies `Topnode` |
| Entities.SubmodelDrawsSound | src/client/refresh/soft/sw_main.c:881-940 | the submodel pass hands on, in increasing list order, only the draws `SubmodelFor` gives |
| Entities.SubmodelDrawsComplete | src/client/refresh/soft/sw_main.c:881-940 | every draw `SubmodelFor` gives is handed on |
| Entities.Refresh.EntityPass | src/client/refresh/soft/sw_main.c:615-658 | one pass's draws are `Pass`, and it reports whether it met a translucent entity |
| Entities.Refresh.DrawEntitiesOnList | src/client/refresh/soft/sw_main.c:606-704 | the frame's draws are `DrawList` and `modelorg`/`r_entorigin` end as the passes leave them |
| Entities.Refresh.DrawSubmodel | src/client/refresh/soft/sw_main.c:883-939 | one entity's draw is `SubmodelFor`; orientation, frustum and `modelorg` are put back |
| Entities.Refresh.DrawBEntitiesOnList | src/client/refresh/soft/sw_main.c:867-943 | the draws are `SubmodelDraws`, view state is restored, `insubmodel` ends false |
| Palette.GammaCorrectedEntries | src/client/refresh/soft/sw_main.c:1262-1272 | colour byte k of entry i is `gamma[pal[4i+k]]` and the fourth byte is untouched |
| Palette.GammaCorrectedOverwrites | src/client/refresh/soft/sw_main.c:1262-1272 | a second correction replaces the first |
| Palette.GammaIgnoresFourthByte | src/client/refresh/soft/sw_main.c:1266-1271 | two sources with the same colour bytes give the same palette |
| Palette.Video.GammaCorrectAndSetPalette | src/client/refresh/soft/sw_main.c:1262-1272 | the current palette becomes the gamma correction of the given one and nothing else changes |
| Palette.ExpandEntries | src/client/refresh/soft/sw_main.c:1292-1298 | entry i of the widened palette is RGB colour i with 0xFF as its fourth byte |
| Palette.NarrowExpand | src/client/refresh/soft/sw_main.c:1292-1298 | widening loses nothing: narrowing gives the RGB palette back |
| Palette.Video.ExpandPalette | src/client/refresh/soft/sw_main.c:1292-1298 | the widening loop computes `Expand` |
| Palette.Video.SetPalette | src/client/refresh/soft/sw_main.c:1278-1306 | the frame buffer is cleared to 0 and the current palette is the gamma-corrected widened palette, or the base table when none is given |
| Palette.SetFromTableOrRgb | src/client/refresh/soft/sw_main.c:1456-1468 | loading an RGB palette into the base table and setting the table gives the same screen palette as setting the RGB palette |
| Palette.Video.GetPalette | src/client/refresh/soft/sw_main.c:1445-1471 | without the image nothing changes; otherwise the colormap and alphamap are set and the base table gets the colours, its fourth bytes kept |
| Palette.BlendedEntries | src/client/refresh/soft/sw_main.c:1025-1046 | each blended colour byte is `premult + (1 - alpha) * base`, truncated and capped at 255; the fourth byte is 255 |
| Palette.OpaqueBlendIgnoresTable | src/client/refresh/soft/sw_main.c:1025-1046 | a blend with alpha 1 or more gives the same palette whatever the base table |
| Palette.Video.BlendPalette | src/client/refresh/soft/sw_main.c:1034-1046 | the blending loop computes `Blended` |
| Palette.CalcPaletteFlag | src/client/refresh/soft/sw_main.c:1012-1024 | after a frame the modified flag says whether that frame was blended, and no fourth byte changed |
| Palette.UnblendedFrameRestores | src/client/refresh/soft/sw_main.c:1012-1021 | an unblended frame after any frame restores the gamma-corrected base table, and a further one changes nothing |
| Palette.Video.CalcPalette | src/client/refresh/soft/sw_main.c:1003-1049 | flag and current palette after a frame are `CalcPaletteStep` of the old ones |
| Palette.Pal32Bytes | src/client/refresh/soft/sw_main.c:1917 | the word of colour c is its four palette bytes in memory order |
| Palette.StraightRows | src/client/refresh/soft/sw_main.c:1920-1933 | the straight copy is the row copy with rows `width` apart |
| Palette.RowCopiedStep | src/client/refresh/soft/sw_main.c:1939-1948 | copying one more row extends the copied rows and keeps gaps and tail |
| Palette.Video.CopyFrame | src/client/refresh/soft/sw_main.c:1915-1950 | pixel (x, y) becomes the word of its palette entry at `y * pitch + x`; gaps between rows and the tail are untouched |
| Palette.Video.CopyStraight | src/client/refresh/soft/sw_main.c:1920-1933 | every pixel of the frame buffer becomes its palette word at the same position |
| Palette.Video.CopyRows | src/client/refresh/soft/sw_main.c:1937-1948 | rows are copied `pitch` apart, everything else kept |
| Palette.Video.CopyRow | src/client/refresh/soft/sw_main.c:1942-1945 | one row's pixels become their palette words, nothing else changes |
| Palette.IndexInjective | src/client/refresh/soft/sw_main.c:1940-1948 | two pixels of an image at the same position are the same pixel |
| Palette.Video.ScreenShot | src/client/refresh/soft/sw_main.c:2097-2122 | when the buffer is allocated the shot is the RGB24 image of the frame buffer through the current palette, otherwise none |
| Palette.ShotColumn | src/client/refresh/soft/sw_main.c:2111-2116 | one column of the image is shot, other pixels kept |
| Palette.ShotComplete | src/client/refresh/soft/sw_main.c:2109-2117 | a buffer with every pixel shot is the whole RGB24 image |
| Sky.SkyName | src/client/refresh/soft/sw_main.c:1429 | the stored name is a prefix of the given one: the whole name when it fits, otherwise exactly its first 63 characters |
| Sky.FacePath | src/client/refresh/soft/sw_main.c:1427-1434 | every face path fits the 64-byte buffer |
| Sky.SideImageIsPermutation | src/client/refresh/soft/sw_main.c:1419-1420 | the face-to-suffix table is a permutation of the six suffixes |
| Sky.FacePathWhole | src/client/refresh/soft/sw_main.c:1434 | a name of at most 51 characters gives `env/<name><suffix>.pcx` whole |
| Sky.FacePathsDistinct | src/client/refresh/soft/sw_main.c:1432-1436 | within that bound the six faces load six different files |
| Sky.SkyState.SetSky | src/client/refresh/soft/sw_main.c:1424-1437 | name and axis are stored and face i is looked up by `FacePath(name, i)` |
| FixedPoint.MostFractionBitsThatFit | src/client/refresh/soft/sw_main.c:2038-2045 | with a 32-bit `shift20_t`, 20 bits are chosen exactly when the last column fits a signed 32-bit value with 20 bits (every width but 2048), and 18 only on wider screens |
| FixedPoint.ConservativeAt2048 | src/client/refresh/soft/sw_main.c:2038-2045 | at width 2048 the source takes 18 bits although 20 would fit |
| FixedPoint.CoordinatesFit32 | src/client/refresh/soft/sw_main.c:2038-2045 | with a 32-bit type every column of a screen up to 8192 wide fits a signed 32-bit value |
| FixedPoint.CoordinatesFit64 | src/client/refresh/soft/sw_main.c:2038-2045 | with a 64-bit type 20 bits always fit |
| FixedPoint.TwentyBitsOverflowWide | src/client/refresh/soft/sw_main.c:2038-2045 | 20 bits would overflow a 32-bit value on a screen wider than 2048 |
| H2Textures.WithExtension | src/client/refresh/files/m8_32.c:97-103 | the name opened fits the 256-byte buffer |
| H2Textures.AppendedExtension | src/client/refresh/files/m8_32.c:100-103 | appending `.ext` to a non-empty name gives a name with that extension |
| H2Textures.WithExtensionHasExtension | src/client/refresh/files/m8_32.c:97-103 | a short non-empty name is kept when it has the extension, else gets `.ext` appended; the result has the extension and asking again changes nothing |
| H2Textures.M8RgbaPixel | src/client/refresh/files/m8_32.c:136-143 | pixel i of the picture is the palette colour of index i of level 0, alpha 255 |
| H2Textures.M8ToRgba | src/client/refresh/files/m8_32.c:128-143 | the conversion loop fills a fresh buffer of `4 * n` bytes with `M8Rgba` |
| H2Textures.LoadM8 | src/client/refresh/files/m8_32.c:89-148 | a missing file gives false, no picture and size 0 by 0; otherwise true, the header's level-0 size and, when asked, the RGBA picture |
| H2Textures.GetM8Info | src/client/refresh/files/m8_32.c:203-206 | the level-0 size of a loadable file, 0 by 0 otherwise |
| H2Textures.M8HeaderRoundTrip | src/client/refresh/files/m8_32.c:117-119 | a width stored least significant byte first is read back by `LittleLong`, on any host |
| H2Textures.HeaderByteOrder | src/client/refresh/files/m8_32.c:175-177 | the `.m32` width, read without `LittleLong`, comes back on a little-endian host; on a big-endian host a width below 256 is read as that width times 2^24 |
| H2Textures.CopyPixels | src/client/refresh/files/m8_32.c:192-195 | a fresh buffer holding the `4 * n` bytes at the offset |
| H2Textures.M32ToRgba | src/client/refresh/files/m8_32.c:190-195 | the picture is the `4 * w * h` bytes at level 0's offset, unchanged |
| H2Textures.LoadM32 | src/client/refresh/files/m8_32.c:150-200 | a missing file gives false and size 0 by 0; otherwise true, the header's level-0 size read in host order and, when asked, the level-0 bytes |
| H2Textures.GetM32Info | src/client/refresh/files/m8_32.c:209-212 | the level-0 size of a loadable file, 0 by 0 otherwise |
| Common.LE32RoundTrip | src/client/refresh/files/m8_32.c:117-119 | reading back the four little-endian bytes of a 32-bit value gives the value |

## Left out

- Floating point: `float` values are `real`, so rounding is not modelled. Casts to `int` truncate toward zero, and a store into a byte keeps the value modulo 256.
- C `int` overflow is not modelled. Sizes such as `w * h * 4` and the doubled pool counts are unbounded integers.
- The gamma table's construction (`pow`), the rasterizer and the span drawing are not part of this model.
- Also not part of this model:
  - the geometry of beams and alias models;
  - `R_RotateBmodel`, `R_TransformFrustum` and `R_PushDlights`. `R_RotateBmodel` leaves an unspecified orientation, frustum and `modelorg`, which the loop then restores.
- `RotatedBBox`: the rotated case is taken as a parameter rather than computed from sines and cosines.
- `Palette.Video.SetPalette`: the `RE_EndFrame()` flush of the cleared buffer to the screen (sw_main.c:1286) is not modelled.
- The SDL presentation, cvar registration and the video mode loop are not part of this model. Cvar values are parameters.
- File I/O is not part of this model:
  - `FS_LoadFile` is a map from file names to their bytes;
  - `LoadPCX` is an optional result passed to `Draw_GetPalette`;
  - `R_FindImage` is replaced by recording the path each sky face is looked up by;
  - the screenshot writer is replaced by returning the buffer.
- `malloc` in `R_ReallocateMapBuffers` is `MapBuffers.PoolState.Malloc`, which may succeed or fail without the model deciding which; in `R_ScreenShot_f` it is the `ok` flag the caller passes. `free` is not modelled. This includes the inverted test at sw_main.c:466-468, which never frees the old edge array (a leak with no effect on the modelled state).
- `Sys_Error`, `R_Printf` and `printf` are not modelled. The fatal error of `Draw_GetPalette` is a false result with nothing changed. The detail-texture message of `LoadM32` and `Draw_GetPalette`'s `free` of the PCX palette are not modelled.
- Entity flags (`RF_TRANSLUCENT`, `RF_BEAM`) are booleans of the entity.
- `Palette.Video.CopyFrame` requires `pitch >= width`: a narrower pitch, where rows would overlap, is not modelled. `currentpalette` is read as 32-bit words on a little-endian host.
- `COM_FileExtension` is not part of this model. It is taken as the text after the last `.`, and nothing when there is none or the name starts with it.
- `H2Textures.LoadM8` and `H2Textures.LoadM32` require, through `LevelInFile`, that the file holds the whole header; that level 0's width, height and offset are not negative; that its pixels lie inside the file; and that `4 * w * h` is below 2^31. The source checks none of these. Its out-of-bounds reads and the `int` overflow of `numPixels*4` (m8_32.c:130-132, 192-193) are not modelled.
- `H2Textures.M8ToRgba` and `H2Textures.CopyPixels` always allocate their buffer. A failed `malloc` in the source makes `LoadM8` write through a NULL `outData` (m8_32.c:132-142) and `LoadM32` `memcpy` into it (m8_32.c:193-195); that crash is not modelled.
- `H2Textures.LoadM8`, `H2Textures.LoadM32`: the source can be called with null width and height out-parameters (m8_32.c:105-107, 120-121, 163-165, 179-180); the model always reports the size, and `GetM8Info`/`GetM32Info` return it.
- `Bsp.Topnode`, `Bsp.World.FindTopnode`: `BOX_ON_PLANE_SIDE` (sw_main.c:786) is an input of 1, 2 or 3 per node (`sides`, and `Entities.BoxOracle.sides` per entity), not computed from the box and the split plane; nothing ties it to the entity's `minmaxs`.
- `Sky.SkyState.SetSky`: the rotation speed is accepted and not stored, as in the source.
- `Bsp`: the tree is given by parent links, numbered so that a parent comes before its children.
- `Entities.Refresh.DrawBEntitiesOnList`: the frustum at entry is taken to be the base frustum.
- `MapBuffers.PoolState.Reallocate`: when an allocation fails, the grown counter is kept, as written in the source, and the later pools are not looked at.
