# cluttered — a Dafny model of the atlas builder

cluttered packs a folder of sprites into one texture atlas. It walks the
configured folders and keeps the `.png` files, plus the `.aseprite` files
when that feature is on. Each kept file gets a logical name, and the build
looks for an optional nine-patch sidecar next to it. An Aseprite file
becomes one texture per frame, or one grid sheet of all its frames. A
packer places every texture on a power-of-two canvas. The compositor
copies each texture onto the canvas and records its rectangle in the
`PackerAtlas` descriptor. The canvas is saved as PNG, QOI or JPG. The
descriptor is written beside it as JSON, RON or a little-endian binary file.

The model follows `src/atlas.rs` and `src/atlas/output.rs`:

| file | module | what it holds |
|---|---|---|
| `wrappers.dfy` | `Wrappers` | `Option`, `Result` |
| `bytes.dfy` | `Bytes` | bytes, `u32`, little-endian integers and their round trip |
| `text.dfy` | `Text` | `str::replace`, `trim_start_matches`, integer formatting |
| `utf8.dfy` | `Utf8` | UTF-8 encoding of strings and a decoder that inverts it |
| `paths.dfy` | `Paths` | `Path` operations on `/`-separated paths: file name, extension, `with_extension`, `parent`, `join`/`push` |
| `raster.dfy` | `Raster` | RGBA images, `view`, a mutable `array2` canvas, `copy_from`, and the composition of a sequence of copies |
| `atlas_types.dfy` | `AtlasTypes` | `Config`, `Features`, `Rect`, `TextureData`, `ImageTexture`, `PackerError`, and the `PackerAtlas` class |
| `discovery.dfy` | `Discovery` | the file filter, logical names, `find_nine_patch_file` |
| `aseprite_sheet.dfy` | `AseSheet` | `process_ase`: the frame grid and the sheet drawn from it |
| `sheet_paths.dfy` | `SheetPaths` | `fixed_output_path` and the path `save_as` reports |
| `pack.dfy` | `Pack` | the body of `pack`: texture collection, the compositor loop, the `FailedToPacked` branch |
| `binary_format.dfy` | `BinaryFormat` | the byte layout `BinaryOutput` writes, and a decoder proved to invert it |
| `output.dfy` | `Output` | the JSON/RON clean-up pass, the binary writer, the choice of output |

Effects are parameters:
- The file walk is a sequence of paths.
- Readable text files are a map from path to contents.
- Decoded images and Aseprite files are maps from path to a decoded value.
- The JSON and RON parsers and serialisers are functions or strings passed in.
- The packer's result is an `Option<Packing>`.
- The iteration order of the `frames` HashMap is a sequence `entries` that enumerates it.

Three behaviours are easy to misread; the model has them as the code does:
- A logical name loses every `./` in it, not only a leading one.
- The binary format writes a `rotated` flag per frame and no nine-patch data.
- The width of the length prefix that `write_string` writes is a parameter (`prefixWidth`), because the writer type comes from a library that is not part of this model.

One departure from the code is a deliberate correction: the sheet path that `save_as` returns. That path is a bug in the code, described under Findings below. `SheetPaths.SaveAsAsWritten` models it as written, and `Pack.Assemble` records the corrected path. The simplifications the model makes elsewhere are listed under Left out.

## Model

| member | source | states |
|---|---|---|
| `Discovery.Classify` | src/atlas.rs:257-268 | a file is kept as PNG exactly when its extension is `png`; it is kept as Aseprite exactly when its extension is `aseprite` and the aseprite feature is on; every other file is dropped |
| `Discovery.LogicalName` | src/atlas.rs:274-293 | the logical name never contains `\`, and never starts with the `"{parent}/"` prefix of the configuration file's directory |
| `Discovery.LogicalNameOfCleanPath` | src/atlas.rs:274-282 | a path with no `\` and no `./` is its own name when extensions are shown; when they are hidden, the name plus `.` and the extension gives back the path less any separators at its end, a path without an extension is its name less those separators, and a path without a file name is its own name |
| `Discovery.FindNinePatchFile` | src/atlas.rs:196-205 | a nine-patch is only ever the parse of a readable sidecar: the `.json` one, or else the `.ron` one |
| `Discovery.NinePatchPrecedence` | src/atlas.rs:196-205 | a readable `.json` sidecar decides the nine-patch, even when it fails to parse; only when there is none is the file's `.ron` sidecar read |
| `Text.TrimStartMatchesSplits` | src/atlas.rs:287 | stripping a prefix repeatedly removes only whole copies of it: the input is some copies of the prefix followed by the result |
| `Pack.CollectTextures` | src/atlas.rs:257-309 | the collected textures are the plain PNG textures in walk order, followed by every Aseprite-derived texture in walk order |
| `Pack.TextureOrigins` | src/atlas.rs:294-305 | every plain texture comes from a walked `.png` that decoded, with its logical name and sidecar; every Aseprite texture comes from a walked, decoded `.aseprite` file while the feature is on |
| `Pack.NoAsepriteWithoutFeature` | src/atlas.rs:259-267 | with the aseprite feature off, no Aseprite-derived texture reaches the packer |
| `AseSheet.LayoutFrames` | src/atlas.rs:393-408 | the layout loop gives frame `i` the grid cell `Cell(n, i)`, and `column` ends at the number of grid rows |
| `AseSheet.DrawSheet` | src/atlas.rs:409-418 | the drawn canvas equals the sheet specification: a transparent `border_row*iw` × `column*ih` image with every frame copied into its cell |
| `AseSheet.ProcessAse` | src/atlas.rs:378-429 | the result is one texture for a one-frame file, the drawn sheet in sheet mode, and otherwise one texture per frame |
| `AseSheet.AseTexturesShape` | src/atlas.rs:383-425 | one texture named after the file in the single-frame and sheet cases; otherwise frame `i` is named `"{file}/{i}"` and keeps its image; every texture carries the file's nine-patch |
| `AseSheet.FrameNamesDistinct` | src/atlas.rs:424 | two frames of one file never share a name |
| `AseSheet.BorderRow` | src/atlas.rs:393-397 | for two or more frames, a grid row holds between one frame and half of the frames |
| `AseSheet.TileFits` | src/atlas.rs:409-417 | every frame's cell lies inside the allocated sheet, so the `copy_from(...).unwrap()` cannot fail |
| `AseSheet.TilesDisjoint` | src/atlas.rs:400-407 | no two frames are given overlapping cells |
| `AseSheet.SheetShowsFrame` | src/atlas.rs:414-418 | each pixel of frame `i` appears in the sheet at its cell offset |
| `AseSheet.SheetBackground` | src/atlas.rs:409-412 | the cells after the last frame stay transparent |
| `Raster.NewCanvas` | src/atlas.rs:317-321 | a fresh `w` × `h` canvas, transparent everywhere |
| `Raster.View` | src/atlas.rs:328 | the view is the top-left `w` × `h` corner of the image, pixel for pixel |
| `Raster.CopyFrom` | src/atlas.rs:329 | the copy succeeds exactly when the source fits inside the canvas; then the covered pixels take the source's values and the others keep theirs; on failure the canvas is unchanged |
| `Raster.ComposedOnBlit` | src/atlas.rs:324-332 | when the copies are pairwise disjoint, a pixel under copy `k` shows that copy's source |
| `Raster.ComposedOffBlits` | src/atlas.rs:317-332 | a pixel that no copy covers keeps the transparent fill |
| `Pack.Composite` | src/atlas.rs:315-332 | the loop succeeds exactly when every placement fits the canvas, and otherwise stops with a dimension error; the canvas is the composition of every copy in order; the descriptor's frames are the result of every `add` in order |
| `Pack.Assemble` | src/atlas.rs:315-368 | no packing gives `FailedToPacked`; otherwise the build succeeds exactly when every placement fits; the sheet is the composed canvas, saved to the base path with the format's extension; the descriptor holds the frames and the corrected sheet path, which names exactly the saved image file; the base path is the output directory joined with the build's name |
| `Pack.SheetShowsTexture` | src/atlas.rs:324-332 | with disjoint placements that fit, each texture's pixels appear at its placement |
| `Pack.SheetBackgroundTransparent` | src/atlas.rs:317-321 | pixels outside every placement are transparent in the sheet |
| `Pack.DescriptorRecordsPlacement` | src/atlas.rs:330-331 | a name's descriptor entry is the rectangle and nine-patch from its last placement |
| `AtlasTypes.PackerAtlas.constructor` | src/atlas.rs:120-124 | a new descriptor has an empty sheet path and no frames |
| `AtlasTypes.PackerAtlas.Add` | src/atlas.rs:127-137 | `frames` is the old map with `name` set to the new rectangle, replacing any previous entry; the sheet path is unchanged |
| `AtlasTypes.PackerAtlas.AddSheetPath` | src/atlas.rs:139-141 | the sheet path is replaced; the frames are unchanged |
| `AtlasTypes.FramesAfterKeys` | src/atlas.rs:134-136 | after a sequence of `add` calls, a name is in the frames exactly when some call used it |
| `AtlasTypes.FramesAfterLastWins` | src/atlas.rs:134-136 | a name's entry is the one from the last `add` that used it |
| `SheetPaths.FixedOutputPath` | src/atlas.rs:40-53 | without a configuration directory, with an empty one (a configuration file named without a directory), or for an absolute output path, the output path is kept; otherwise the result starts with the directory and ends with the output path, with a separator between them: the root directory gives `/` and the output path |
| `SheetPaths.SaveAsAsWrittenMissesSheet` | src/atlas.rs:237-238 | as written, the returned path (`path` with the extension pushed as a component) never names the file that was saved |
| `SheetPaths.SaveAsAsWritten` | src/atlas.rs:237-238 | as written, the returned path starts with `path`, and its last component is the bare extension |
| `SheetPaths.ImageExtension` | src/atlas.rs:211-236 | each image format's extension is one plain component: non-empty, with no `.` and no `/` |
| `SheetPaths.SaveAs` | src/atlas.rs:209-238 | the corrected returned path is the saved file, `path.with_extension(ext)`, and carries the format's extension |
| `Paths.WithExtensionSetsExtension` | src/atlas/output.rs:20 | setting a plain extension keeps the directory, and the new file name's extension is the one set |
| `Paths.WithExtensionTwice` | src/atlas.rs:197-199 | setting one extension and then another is the same as setting only the second |
| `Paths.WithoutExtension` | src/atlas.rs:275 | removing the extension and appending `.` and the extension gives back the path less any separators at its end; a path with a file name but no extension loses only those separators; a path without a file name is unchanged |
| `Paths.Extension` | src/atlas.rs:190-194 | an extension exists exactly when the path has a file name with a `.` after its first character; it holds no `.` or `/`; the file name ends with `.` and the extension |
| `Paths.Parent` | src/atlas.rs:43 | there is a parent exactly when the path is not empty and not all separators; it is a prefix of the path that does not end in a separator unless it is the root; after it come only separators (at least one unless the parent is empty or the root, none when it is empty), then the last component, then only separators |
| `Paths.Join` | src/atlas.rs:341 | joining an absolute path replaces the base; otherwise the result is the base, a separator unless the base is empty or already ends in one, and the joined path |
| `Output.PostPass` | src/atlas/output.rs:22 | the cleaned text has no two adjacent backslashes |
| `Output.PostPassIdempotent` | src/atlas/output.rs:32 | cleaning a second time changes nothing |
| `Output.PostPassOfEscaped` | src/atlas/output.rs:21-22 | a path whose backslashes the serialiser doubled comes out of the clean-up with slashes in place of those backslashes |
| `Output.TextOut` | src/atlas/output.rs:19-36 | the file gets the format's extension, and its bytes decode as UTF-8 to the cleaned text |
| `Output.BinaryWriter.WriteString` | src/atlas/output.rs:48 | the write succeeds exactly when the length fits the prefix; then the prefix and the UTF-8 bytes are appended |
| `Output.BinaryWriter.WriteU32` | src/atlas/output.rs:49-52 | the four little-endian bytes of the value are appended, and nothing else changes |
| `Output.BinaryWriter.WriteBool` | src/atlas/output.rs:53 | one byte, 1 for true and 0 for false, is appended |
| `Output.BinaryWriter.WriteRecord` | src/atlas/output.rs:47-53 | one frame's record is appended exactly when its key fits; otherwise nothing is written |
| `Output.BinaryWriter.WriteRecords` | src/atlas/output.rs:46-54 | the loop succeeds exactly when every record encodes; the bytes are then the records in visiting order |
| `Output.BinaryOut` | src/atlas/output.rs:38-60 | a file is produced exactly when every string fits its prefix; it goes to `path.bin` and holds the encoded descriptor |
| `BinaryFormat.EncodeString` | src/atlas/output.rs:43 | encoding fails exactly when the UTF-8 length does not fit the prefix; a success is the prefix width plus that many bytes |
| `BinaryFormat.FrameKey` | src/atlas/output.rs:47 | the key written has no backslash and the same length |
| `BinaryFormat.EncodeAtlasSome` | src/atlas/output.rs:43-54 | the binary write fails exactly when the sheet path or some key is too long for the prefix |
| `BinaryFormat.BinaryRoundTrip` | src/atlas/output.rs:38-60 | decoding the written bytes gives back the sheet path, the frame count, and each frame's key (with slashes), rectangle and flag in visiting order, with nothing left over |
| `BinaryFormat.EnumerationCount` | src/atlas/output.rs:44-46 | the loop visits exactly `frames.len()` entries, so the count written matches the records that follow |
| `BinaryFormat.RecordsIgnoreNinePatch` | src/atlas/output.rs:46-54 | two descriptors that differ only in nine-patch data encode to the same bytes |
| `Output.DescriptorBesideSheet` | src/atlas.rs:340-347 | a descriptor file shares the sheet's base name and directory prefix, has its own extension, and is never the sheet file |
| `Output.NormalOutput` | src/atlas.rs:356-364 | with normal output off, nothing is written; otherwise exactly the one file the output type selects is written, next to the base path with that type's extension |
| `Utf8.DecodeEncode` | src/atlas/output.rs:43 | decoding the UTF-8 encoding of a string gives the string back |
| `Bytes.LittleEndianRoundTrip` | src/atlas/output.rs:42 | a little-endian field of `w` bytes holds the value modulo 256^w |
| `Bytes.U32LeRoundTrip` | src/atlas/output.rs:49-52 | a `u32` written little-endian reads back unchanged |
| `Text.Replace` | src/atlas.rs:281-282 | a replacement as long as the pattern keeps the text's length, and a shorter one never lengthens it |
| `Text.NatToStringInjective` | src/atlas.rs:424 | distinct frame numbers print as distinct decimal strings |

## Left out

- `visit_dir` and the folder loop (src/atlas.rs:244-254): the directory walk is file-system I/O; the walked files are an input sequence.
- File reading, image decoding (`image::open`), `AsepriteFile::read_file` and frame rendering: I/O and foreign decoders; their results are input maps.
- Encoding and saving the sheet as PNG, QOI or JPG, `create_dir_all`, and `std::fs::write`: I/O. The model records the bytes and paths that would be written.
- `crunch::pack_into_po2`: a foreign packer; its result is an input `Option<Packing>`. The model does not prove that it finds a packing or that its placements are disjoint; lemmas that need disjointness take it as a precondition.
- `serde_json` and `ron` serialisation and parsing, and the `Config` loaders: foreign code; serialised text and parsers are parameters.
- Template output (src/atlas.rs:350-354), `TomlOutput` and `save_output_from`: they are not defined in `src/atlas/output.rs`, so they are not part of this model.
- `Output.NormalOutput`: requires an output type other than `Toml` when normal output is on, because the TOML writer is not part of this model.
- `Output.NormalOutput`: the binary branch calls `save_output_from(BinaryOutput(&config), …)`, but `save_output_from` is not defined and `BinaryOutput` is a unit struct (src/atlas/output.rs:16). The model assumes that branch runs `BinaryOutput::out` on the base path and the descriptor, as the JSON and RON branches do through `save_output`.
- `main.rs`, the CLI, and the `println!` messages: outside the core.
- `Paths`: models `/`-separated Unix paths only. Windows prefixes are not modelled. A run of separators counts as one, and separators at the end of a path are ignored by `Paths.FileName`, `Paths.Extension`, `Paths.Parent` and `Paths.WithExtension`, as in `std::path`. `.` components and repeated separators inside the rest of a path are not simplified the way `std::path` does.
- `unwrap_or_default` on paths that are not UTF-8: Dafny strings always hold valid text, so that fallback never happens.
- `Output.BinaryOut`: the HashMap iteration order is a parameter (`entries`, any enumeration of the frames). The model does not fix which order Rust picks.
- `Output.BinaryOut`: `data.rotated` is not a field of `TextureData`. The flag each record writes is a parameter `rotated` (every item is packed with `Rotation::None`).
- `Output.BinaryWriter.WriteString`: the length-prefix width of `binary_rw` is a parameter, and a string too long for it is a write error.
- `Pack.Composite`: the `as u32` casts of the placement coordinates are not modelled; placements are taken as `u32` already. The frame count's `as u32` truncation is modelled in `BinaryFormat.EncodeAtlas`.
- `Pack.Composite`: `copy_from` failing is the only error modelled inside the loop. The `view` call's own bounds panic is excluded by requiring placements no larger than their texture.
- `Pack.Assemble`: records the corrected sheet path `SheetPaths.SaveAs`, which is the saved image file. The code as written records `SheetPaths.SaveAsAsWritten`, the path with the extension pushed as a component (src/atlas.rs:237-238, 342-343), and that path is what its descriptor outputs contain.
- `AseSheet.ProcessAse`: `copy_from(...).unwrap()` never panics, by `AseSheet.TileFits`. The sheet's `u32` size is unbounded.

## Findings

| source | as written | input that shows it | evidently intended | confidence | as-written member | corrected member |
|---|---|---|---|---|---|---|
| src/atlas.rs:237-238 | `save_as` saves the sheet to `path.with_extension(ext)` but returns `path` with `ext` pushed as a further component, and that path is recorded as the descriptor's sheet path | `path = "out/atlas"`, PNG: the sheet is saved as `out/atlas.png` but `out/atlas/png` is recorded | return the saved file's path, `path.with_extension(ext)` | high, not executed | `SheetPaths.SaveAsAsWrittenMissesSheet` | `SheetPaths.SaveAs` |
