# Kriptomatte core in Dafny

Kriptomatte reads Cryptomatte layers from OpenEXR images. It writes one
grey-scale mask per object of each layer. This project models that
pipeline:

- **Hashing.** An object name is hashed to a 32-bit float ID: MurmurHash3,
  then a fix-up of the exponent field.
- **Manifests.** A layer's manifest maps object names to IDs. It is read
  from a sidecar JSON file or from embedded JSON, and each hex string is
  converted to a 32-bit pattern.
- **Header parsing.** Header attributes are grouped into Cryptomatte
  metadata groups by their `cryptomatte/` or `exr/cryptomatte/` prefix.
  Each group's rank channels are found by the pattern
  `<name><digits>.(red|r|R)` and expanded to four channels per rank.
- **Masks.** An object's mask is computed from the ranked ID/coverage
  channel pairs: sum, clip to [0, 1], scale by 255 and truncate to a byte.
  A list of masks combines by their pixel-wise maximum.
- **Colour maps.** A label map is coloured with the palette of the
  `RandomColor` generator.
- **Extraction.** `extract_all` makes one folder per layer and saves the
  non-uniform mask of every object under a sanitised file name.

Conventions:

- IDs are handled as their bit patterns, `Bits32`, an `int` between 0 and
  2^32. The source's `>>`, `&`, `^` and `<<` on Python integers become
  division and remainder by powers of two.
- ID equality in a channel stack follows IEEE 754 equality on those
  patterns (`Bits.FloatEq`). `Bits.FloatEqIsBitEqForNormal` shows it is
  bitwise equality for every hashed ID.
- Coverage values are exact reals.
- Parts that are not code of this repository become function parameters:
  - MurmurHash3 (`murmur: string -> int`);
  - `colorsys.hls_to_rgb`;
  - the JSON reader, file existence and file reading (`Manifests.Env`),
    which answer a decoded JSON value (`Manifests.Json`);
  - loading a header and reading channels (`loadHeader`, `readChannels`).
- `ImageWriter.save_mask` and the folder creation of `extract_all` become
  a trace of `Action`s: `MakeFolder(path)` and `SaveMask(path, mask)`.
  `Extraction.ExtractAll` returns this trace.
- A Python exception becomes a `Failure` or an error value. The error
  stops the run at the point where the exception would propagate. Folder
  creation and mask saving are taken to succeed; their exceptions are not
  modelled (see "Left out").

Behaviour of the code that the model keeps as written:

- `combine_masks` takes the pixel-wise maximum of the masks. The colour
  map's palette comes from the stepping `RandomColor` generator.
- A sidecar file that cannot be opened or parsed is logged and swallowed
  (`factories.py:37-38`). So is a failing `len()` in the log line after a
  successful load, with the loaded value kept. A falsy value (an empty
  object or list, `0`, `false`, `null`) then falls through to the embedded
  manifest. A truthy value that is not an object of hex strings raises.
- Rank prefixes are sorted as strings, so `name10` comes before `name2`
  (`Strings.SortSet`, `Strings.Below`).

## Model

| member | source | states |
|---|---|---|
| Bits.FieldsCompose | kriptomatte/domain/services/hashing.py:11 | a pattern is its sign, exponent field (bits 23-30) and mantissa recombined |
| Bits.FloatEqIsBitEqForNormal | kriptomatte/domain/services/masking.py:16 | for a target whose exponent is in 1..254, float equality with any sample is equality of the bit patterns |
| Bits.FloatEq | kriptomatte/domain/services/masking.py:16 | IEEE 754 equality on patterns: a NaN equals nothing, every other pattern equals itself, and unequal patterns are equal only as the two zeros |
| Bits.UnpackPack | kriptomatte/domain/services/hashing.py:15-16 | `struct.unpack` after `struct.pack` with the same byte order gives the pattern back, for either order |
| Bits.PackUnpack | kriptomatte/domain/model/value_objects.py:22-24 | packing the value of four unpacked bytes gives the same four bytes |
| Hashing.FixupHash | kriptomatte/domain/services/hashing.py:11-15 | the fixed-up hash, masked to 32 bits, always has an exponent in 1..254: never zero, denormal, infinite or NaN |
| Hashing.HashNameToFloat | kriptomatte/domain/services/hashing.py:6-16 | the ID of a name is the fix-up of its MurmurHash3 value, and its exponent is in 1..254 |
| Hashing.ExponentOfReduced | kriptomatte/domain/services/hashing.py:11 | Python's `hash >> 23 & 255` on a signed hash is the exponent field of the hash taken modulo 2^32 |
| Hashing.FlipOfReduced | kriptomatte/domain/services/hashing.py:13-15 | flipping bit 23 commutes with the final `& 0xffffffff` |
| Hashing.FixupOfReduced | kriptomatte/domain/services/hashing.py:10-15 | the fixed-up ID depends only on the hash modulo 2^32 |
| Hashing.FixupSignedAsUnsigned | kriptomatte/domain/services/hashing.py:10-15 | a negative signed hash gives the same ID as its unsigned reading |
| Hashing.FixupKeepsNormal | kriptomatte/domain/services/hashing.py:12 | a hash whose exponent is already in 1..254 is left unchanged |
| Hashing.FlipKeepsOtherBits | kriptomatte/domain/services/hashing.py:13 | `^= 1 << 23` changes bit 23 and no other bit |
| Hashing.FixupOnlyBit23 | kriptomatte/domain/services/hashing.py:12-13 | the fix-up keeps the mantissa and bits 24-31, and when it changes the pattern it changes bit 23 |
| Hashing.FlipExponent | kriptomatte/domain/services/hashing.py:12-13 | flipping bit 23 turns exponent 0 into 1 and 255 into 254 |
| Hashing.FixupExponentCases | kriptomatte/domain/services/hashing.py:11-15 | a hash with exponent 0 gets exponent 1 and one with exponent 255 gets 254 |
| ValueObjects.HexDigits | kriptomatte/domain/model/value_objects.py:25 | `n` lower-case hex digits |
| ValueObjects.HexValueOfDigits | kriptomatte/domain/model/value_objects.py:25 | the digits read back in base 16 give the value modulo 16^n |
| ValueObjects.EightDigits | kriptomatte/domain/model/value_objects.py:25 | eight digits read back give exactly the 32-bit pattern |
| ValueObjects.ToHex | kriptomatte/domain/model/value_objects.py:21-25 | `to_hex` is eight lower-case hex digits whose value is the ID's bit pattern, whatever the host byte order |
| ValueObjects.ToRgb | kriptomatte/domain/model/value_objects.py:15-19 | `to_rgb` is three channels in [0, 1], and red is 0 |
| ValueObjects.ShiftsKeepLowBits | kriptomatte/domain/model/value_objects.py:18-19 | green is the low 24 bits shifted up by 8 and blue the low 16 bits shifted up by 16, each over 2^32 - 1 |
| Paths.ResolvePath | kriptomatte/infrastructure/io/file_system.py:12-20 | the result is empty exactly when the relative path contains a backslash |
| Paths.Dirname | kriptomatte/infrastructure/io/file_system.py:19 | `dirname` is a prefix of the path, empty exactly when the path has no slash, without trailing slashes unless it is slashes only, and only slashes lie between it and the base name; a head made only of slashes (`"/"`, `"//"`) is kept whole |
| Paths.Join | kriptomatte/infrastructure/io/file_system.py:19 | an absolute second part replaces the first; otherwise the second part is appended directly when the first is empty or ends in '/', and after one inserted '/' when it does not |
| Paths.JoinSplits | kriptomatte/infrastructure/io/file_system.py:19 | `dirname` and `basename` undo `join` of a directory not ending in a slash and a file name |
| Paths.DirnameOfAppend | kriptomatte/infrastructure/io/file_system.py:19 | appending a slash-free file name does not change the directory |
| Paths.NormPath | kriptomatte/infrastructure/io/file_system.py:20 | `normpath` never gives the empty string: the empty path becomes `.` |
| Paths.SameDirectorySameResolution | kriptomatte/infrastructure/io/file_system.py:19 | two base paths that differ only in their file name resolve a relative path the same way, bare file names included |
| Paths.NormPathIsNormal | kriptomatte/infrastructure/io/file_system.py:20 | `normpath` leaves no empty or `.` component and no `..` after a real one (none at all under the root), and keeps the path absolute or relative |
| Paths.Basename | kriptomatte/application/services.py:29 | the base name is everything after the last slash: a slash-free suffix of the path that is the whole path or follows a slash |
| Paths.StripExtensionCuts | kriptomatte/application/services.py:29 | `splitext(...)[0]` cuts the path exactly at its extension dot (the last dot, after the last slash, with a character other than a dot or slash before it in the file name), and leaves the path whole exactly when there is no such dot |
| Paths.ExtensionAtUnique | kriptomatte/application/services.py:29 | a path has at most one extension dot |
| Strings.StripLeadingDrops | kriptomatte/application/services.py:62 | `strip` drops only white space at the front, and all of it |
| Strings.StripTrailingDrops | kriptomatte/application/services.py:62 | `strip` drops only white space at the back, and all of it |
| Strings.SortSet | kriptomatte/application/services.py:45 | `sorted` of a set gives its members in strictly ascending code-point order, each exactly once |
| Strings.AscendingUnique | kriptomatte/infrastructure/persistence/exr_repository.py:179 | only one ascending sequence holds a given set of strings, so the sorted order is determined |
| Manifests.ParseHex | kriptomatte/infrastructure/factories.py:72-75 | a hex string converts exactly when `int(s, 16)` accepts it and the value fits in 32 bits; the ID is that value, and a rejected literal is an error |
| Manifests.PyIntBase16 | kriptomatte/infrastructure/factories.py:72 | `int(s, 16)` rejects blank text, and a negative value needs a leading minus after the ASCII white space `int()` skips |
| Manifests.PadIsNoOp | kriptomatte/infrastructure/factories.py:74 | the zero padding changes nothing, because `pack` always gives four bytes |
| Manifests.ParseToHex | kriptomatte/infrastructure/factories.py:72-75 | parsing the `to_hex` text of any ID gives back that ID, whatever the byte orders |
| Manifests.PlainHexParses | kriptomatte/infrastructure/factories.py:72 | a non-empty string of hex digits converts to its base-16 value |
| Manifests.RemoveUnderscores | kriptomatte/infrastructure/factories.py:72 | only the underscores are dropped: the result is hex digits only, shorter by the number of underscores, and a literal without underscores is unchanged |
| Manifests.RemoveUnderscoresAppend | kriptomatte/infrastructure/factories.py:72 | underscores are dropped one by one: removing them from a concatenation concatenates the parts, so the digits keep their order |
| Manifests.ParseEntriesSucceeds | kriptomatte/infrastructure/factories.py:70-85 | the manifest converts exactly when every entry's hex value converts |
| Manifests.ParseEntries | kriptomatte/infrastructure/factories.py:70-85 | a failed conversion carries the error of some entry's value |
| Manifests.ParseEntriesFirstError | kriptomatte/infrastructure/factories.py:70-85 | a failed conversion reports the error of the first entry that fails, and all earlier entries convert |
| Manifests.ParseEntriesContents | kriptomatte/infrastructure/factories.py:83 | the names of the manifest are exactly the raw names, and each name maps to the value of its last entry |
| Manifests.ConvertEntries | kriptomatte/infrastructure/factories.py:60-87 | the conversion loop computes the manifest of all entries, or stops at the first failure |
| Manifests.ParseRawManifest | kriptomatte/infrastructure/factories.py:60-87 | `_parse_raw_manifest` of a decoded value: a number, bool or null has no `len()`, a list or string has no `items()`, and an object's entries are converted in order with `int(s, 16)` and native `pack`/`unpack` |
| Manifests.ParseDocumentSucceeds | kriptomatte/infrastructure/factories.py:60-87 | a decoded value converts exactly when it is an object whose every value is a string that `ParseHex` accepts |
| Manifests.SidecarDocument | kriptomatte/infrastructure/factories.py:21-42 | a truthy sidecar value is only ever one whose `manif_file` is named, non-empty, and resolves to an existing path |
| Manifests.ManifestOutcomeUnique | kriptomatte/infrastructure/factories.py:13-57 | the described outcome of `create_from_metadata` is a function of the metadata and the environment |
| Manifests.CreateFromMetadata | kriptomatte/infrastructure/factories.py:13-57 | a truthy sidecar value takes precedence and is parsed, raising if it is not an object of hex strings. A missing, refused, unreadable or falsy sidecar falls through to the embedded manifest, whose decode, parse, `len()` and conversion errors propagate. With neither, the manifest is empty |
| Aggregates.FindLayer | kriptomatte/domain/model/aggregates.py:17-19 | the index of the first layer with the name, and None exactly when no layer has it |
| Aggregates.ExrImage.GetLayer | kriptomatte/domain/model/aggregates.py:16-20 | `get_layer` returns the first layer with the name, and fails naming the layer and the file exactly when there is none |
| ExrRepository.MatchPrefix | kriptomatte/infrastructure/persistence/exr_repository.py:29 | the first legal prefix the key starts with, tried in list order; None exactly when it starts with neither |
| ExrRepository.MetadataId | kriptomatte/infrastructure/persistence/exr_repository.py:150-151 | the metadata id is a slash-free string |
| ExrRepository.FieldName | kriptomatte/infrastructure/persistence/exr_repository.py:150-152 | the field name is a slash-free string |
| ExrRepository.KeyParts | kriptomatte/infrastructure/persistence/exr_repository.py:150-152 | `id`, `id/field` and `id/field/more` split into the id and the second part, or "" when there is none |
| ExrRepository.KeySlot | kriptomatte/infrastructure/persistence/exr_repository.py:144-152 | a key has a slot exactly when it starts with a legal prefix, and the slot's prefix is one it starts with |
| ExrRepository.GetCryptomattesFromHeader | kriptomatte/infrastructure/persistence/exr_repository.py:141-160 | the loop over the header builds the grouping of the attributes |
| ExrRepository.GroupAttributesWellFormed | kriptomatte/infrastructure/persistence/exr_repository.py:154-158 | each group id is listed once, exactly the ids with fields are listed, and every group's `md_prefix` is a legal prefix |
| ExrRepository.GroupIds | kriptomatte/infrastructure/persistence/exr_repository.py:154-155 | a metadata id has a group exactly when some attribute key carries it |
| ExrRepository.GroupLastWriteWins | kriptomatte/infrastructure/persistence/exr_repository.py:157 | a field holds the value of the last attribute that wrote it |
| ExrRepository.GroupPrefixIsLastMatch | kriptomatte/infrastructure/persistence/exr_repository.py:158 | `md_prefix` is the prefix of the group's last matching attribute |
| ExrRepository.IgnoredKey | kriptomatte/infrastructure/persistence/exr_repository.py:144-146 | an attribute with no legal prefix changes no group |
| ExrRepository.LeadingDigits | kriptomatte/infrastructure/persistence/exr_repository.py:168 | the `\d+` run: all digits, and followed by a non-digit or the end |
| ExrRepository.SchemeOf | kriptomatte/infrastructure/persistence/exr_repository.py:168 | the regex tail matches exactly a dot, one of `red`, `r`, `R`, and an optional final newline |
| ExrRepository.MatchChannel | kriptomatte/infrastructure/persistence/exr_repository.py:166-168 | a match starts with the layer name, its group 1 is the name followed by at least one more character, and its scheme is one of `red`, `r`, `R` |
| ExrRepository.MatchChannelSound | kriptomatte/infrastructure/persistence/exr_repository.py:166-177 | a match means the channel is the name, digits, a dot and a scheme (plus an optional newline), and group 1 is the name with the digits |
| ExrRepository.MatchChannelComplete | kriptomatte/infrastructure/persistence/exr_repository.py:166-177 | every channel of that form matches, with the expected groups |
| ExrRepository.MatchedPrefixesMeaning | kriptomatte/infrastructure/persistence/exr_repository.py:170-176 | the prefix set holds exactly group 1 of the channels that match |
| ExrRepository.LastSchemeMeaning | kriptomatte/infrastructure/persistence/exr_repository.py:171-177 | the naming scheme is the one of the last matching channel |
| ExrRepository.LastSchemeDefault | kriptomatte/infrastructure/persistence/exr_repository.py:171 | with no match the scheme is "R" |
| ExrRepository.ExpandShape | kriptomatte/infrastructure/persistence/exr_repository.py:191-193 | four channels per prefix, and entry 4i+j is prefix i, a dot and suffix j |
| ExrRepository.Suffixes | kriptomatte/infrastructure/persistence/exr_repository.py:184-189 | four suffixes; for each known scheme the first suffix is the scheme itself, and any other scheme gets `R`, `G`, `B`, `A` |
| ExrRepository.ScanChannels | kriptomatte/infrastructure/persistence/exr_repository.py:170-177 | the channel loop gives the matched prefixes and the last matched scheme |
| ExrRepository.ExpandPrefixes | kriptomatte/infrastructure/persistence/exr_repository.py:182-193 | the nested loop gives the prefix-by-suffix expansion |
| ExrRepository.IdentifyChannels | kriptomatte/infrastructure/persistence/exr_repository.py:162-195 | `_identify_channels` gives the sorted prefixes expanded by the scheme's four suffixes, four per matched prefix, and the last matched scheme |
| ExrRepository.ChannelsOf | kriptomatte/infrastructure/persistence/exr_repository.py:162-195 | the channel list of a layer; `IdentifyChannels` is proved to compute it and `ExpandShape` gives its layout |
| ExrRepository.ParseLayers | kriptomatte/infrastructure/persistence/exr_repository.py:109-139 | one layer per metadata group in first-seen order, with its name, channels, scheme, manifest and id; or the manifest error of the first group that fails |
| ExrRepository.LayerName | kriptomatte/infrastructure/persistence/exr_repository.py:115-117 | a layer is named by its group's `name` field, or by its metadata id when it has none |
| ExrRepository.WindowCountsPixels | kriptomatte/infrastructure/persistence/exr_repository.py:45-48 | width and height are the numbers of pixel columns and rows in the data window, both positive |
| ExrRepository.WindowOf | kriptomatte/infrastructure/persistence/exr_repository.py:45-48 | the inclusive data window: the last row is the first row plus the height less one, and likewise for columns |
| ExrRepository.LoadHeader | kriptomatte/infrastructure/persistence/exr_repository.py:32-61 | the image carries the path, the header, the window of the data window and the parsed layers; a layer error propagates |
| Masking.CoverageForRank | kriptomatte/domain/services/masking.py:5-19 | zero everywhere when the rank's coverage channel is out of range; otherwise the coverage where the ID matches and zero elsewhere |
| Masking.Clamp01 | kriptomatte/domain/services/masking.py:40 | `np.clip(_, 0, 1)`: below 0 gives 0, above 1 gives 1, and values in [0, 1] are unchanged |
| Masking.ToByte | kriptomatte/domain/services/masking.py:41 | the byte is 255 times the clipped coverage, truncated |
| Masking.MaskOf | kriptomatte/domain/services/masking.py:22-42 | the mask has the channels' shape; `ComputeMask` is proved to compute it, and `NoMatchIsZero` and `FullCoverageIsOpaque` state its values |
| Masking.SumOfRanks | kriptomatte/domain/services/masking.py:29-39 | the sum of the rank planes is, per pixel, the coverage accumulated over the ranks |
| Masking.ComputeMask | kriptomatte/domain/services/masking.py:22-42 | the loop and sum compute the mask of the target: per pixel, the byte of the clipped sum of matching coverages |
| Masking.FewChannelsZero | kriptomatte/domain/services/masking.py:36-37 | with fewer than two channels the mask is all zero |
| Masking.NoMatchNoCoverage | kriptomatte/domain/services/masking.py:16-17 | with no matching rank a pixel has no coverage |
| Masking.NoMatchIsZero | kriptomatte/domain/services/masking.py:16-41 | a pixel where no rank carries the ID is 0 in the mask |
| Masking.FullCoverageIsOpaque | kriptomatte/domain/services/masking.py:39-41 | with non-negative contributions, a rank with coverage at least 1 makes the pixel 255 |
| Masking.CoverageAtLeast | kriptomatte/domain/services/masking.py:39 | with non-negative contributions, the sum is at least any one rank's |
| Masking.NonNegativeCoverage | kriptomatte/domain/services/masking.py:39 | with non-negative contributions, the sum is non-negative |
| Masking.OddChannelIgnored | kriptomatte/domain/services/masking.py:29 | a trailing unpaired channel does not change the mask |
| Masking.PlaneMaxAttained | kriptomatte/application/services.py:54 | `mask.max()` bounds every pixel and is some pixel's value |
| Masking.PlaneMinAttained | kriptomatte/application/services.py:54 | `mask.min()` is below every pixel and is some pixel's value |
| Masking.CombineMasks | kriptomatte/domain/services/masking.py:45-55 | None exactly for an empty list; otherwise the pixel-wise maximum of the masks |
| Masking.Combined | kriptomatte/domain/services/masking.py:52-54 | the running maximum has the masks' shape; `CombinedIsUpperBound` and `CombinedIsAttained` make it the pixel-wise maximum |
| Masking.CombinedIsUpperBound | kriptomatte/domain/services/masking.py:52-54 | the combination is at least every mask at every pixel |
| Masking.CombinedIsAttained | kriptomatte/domain/services/masking.py:52-54 | at every pixel the combination equals some mask's value |
| Masking.CombineOrderFree | kriptomatte/domain/services/masking.py:52-54 | any reordering of the masks gives the same combination |
| Visualization.RealMod | kriptomatte/domain/services/visualization.py:14-18 | Python's float `%`: the result is in [0, m) and values already there are unchanged |
| Visualization.RealModQuotient | kriptomatte/domain/services/visualization.py:14-18 | `x` is a whole multiple of `m` plus `x % m` |
| Visualization.RealModUnique | kriptomatte/domain/services/visualization.py:14-18 | `x % m` is the only remainder in [0, m) that leaves a whole multiple of `m` |
| Visualization.UpdateChangesOne | kriptomatte/domain/services/visualization.py:13-18 | each update changes luma, saturation or hue according to the counter modulo 3, and keeps it in range |
| Visualization.Next | kriptomatte/domain/services/visualization.py:12-19 | `update_hls` advances the counter by one; `UpdateChangesOne` states which component it changes |
| Visualization.NextNInRange | kriptomatte/domain/services/visualization.py:12-19 | hue and saturation stay in [0, 1) and luma in [0.07, 0.57) after any number of updates |
| Visualization.ThreeStepsEachOnce | kriptomatte/domain/services/visualization.py:12-19 | three updates step each of hue, saturation and luma exactly once |
| Visualization.ToChannel | kriptomatte/domain/services/visualization.py:26 | the byte is `clip(c * 255, 0, 255)` truncated |
| Visualization.RandomColor.constructor | kriptomatte/domain/services/visualization.py:6-10 | the generator starts at the given hue, saturation and luma with counter 0 |
| Visualization.RandomColor.UpdateHls | kriptomatte/domain/services/visualization.py:12-19 | the state becomes its update |
| Visualization.RandomColor.RandomColor | kriptomatte/domain/services/visualization.py:21-30 | returns the colour of the state before the call, then advances the state |
| Visualization.ColorsAt | kriptomatte/domain/services/visualization.py:44 | the m-th colour drawn is the colour of the state after m updates |
| Visualization.PaletteEntries | kriptomatte/domain/services/visualization.py:40-44 | the palette has `num_objects` entries; entry 0 is black and entry k is the colour of the generator after k - 1 updates, from an in-range state |
| Visualization.Palette | kriptomatte/domain/services/visualization.py:40-44 | one entry per label, and entry 0 is black |
| Visualization.MakePalette | kriptomatte/domain/services/visualization.py:40-44 | the palette list is built by drawing from a fresh `RandomColor(0, 0, 0.07)` |
| Visualization.ApplyRandomColormap | kriptomatte/domain/services/visualization.py:34-52 | every pixel gets the palette colour of its label, with `max + 1` entries; an empty label map is an error |
| Visualization.ColormapLabels | kriptomatte/domain/services/visualization.py:43-50 | background pixels are black and equal labels get equal colours |
| Extraction.FilteredAppend | kriptomatte/application/services.py:62 | the filter works character by character: filtering a concatenation concatenates the filtered parts, so kept characters keep their order |
| Extraction.FilteredCounts | kriptomatte/application/services.py:62 | every allowed character is kept as often as it occurs, and no other character is kept |
| Extraction.FilteredAllowed | kriptomatte/application/services.py:62 | a name made of allowed characters passes unchanged |
| Extraction.Sanitize | kriptomatte/application/services.py:62 | the safe name has only allowed characters and no space at either end |
| Extraction.SanitizeTrims | kriptomatte/application/services.py:62 | the safe name is the filtered name with only blanks cut from its two ends |
| Extraction.SanitizeIdempotent | kriptomatte/application/services.py:62 | sanitising a safe name changes nothing |
| Extraction.BaseNameOfFile | kriptomatte/application/services.py:29 | a file `<stem>.<ext>` in any directory, with a dot-free extension and a stem that is not all dots, has base name `<stem>` |
| Extraction.BaseNameWithoutExtension | kriptomatte/application/services.py:29 | a file name without a dot is its own base name |
| Extraction.OutputDir | kriptomatte/application/services.py:17-18 | without an output directory, masks go under the input's directory: a prefix of the input path, empty exactly for a bare file name |
| Extraction.LayerFolder | kriptomatte/application/services.py:35 | `os.path.join(output_dir, f"{base_name}_{layer.name}")`; `LayerFolderInside` places it inside the output directory |
| Extraction.LayerFolderInside | kriptomatte/application/services.py:35 | the layer folder is always inside the output directory, as `<out>/<base>_<layer>` |
| Extraction.SavePath | kriptomatte/application/services.py:63 | `os.path.join(layer_folder, f"{safe_name}_mask.png")`; `SavePathInside` places it inside the layer folder |
| Extraction.SavePathInside | kriptomatte/application/services.py:63 | a mask is saved inside its layer folder, and its file name is `<safe name>_mask.png` |
| Extraction.BaseName | kriptomatte/application/services.py:29 | the base name is the file name, cut at its extension dot when it has one: a slash-free prefix of the file name, either all of it or followed there by the extension dot |
| Extraction.SavePathShape | kriptomatte/application/services.py:35-63 | a mask is saved at `<out>/<base>_<layer>/<safe name>_mask.png` for every output directory, empty or slash-ended included, with a slash added only where a part does not end in one; the file name is always `<safe name>_mask.png` |
| Extraction.UniformIffConstant | kriptomatte/application/services.py:54 | `min == max` holds exactly when every pixel equals the first |
| Extraction.Uniform | kriptomatte/application/services.py:54 | `mask.min() == mask.max()`; `UniformIffConstant` shows it holds exactly when every pixel equals the first |
| Extraction.MasksOf | kriptomatte/application/services.py:48-51 | each manifest name's mask is the mask computed for its ID, with the layer's shape |
| Extraction.MaskSavesSelect | kriptomatte/application/services.py:47-65 | the saves are those of the non-uniform masks, in name order: each at its name's path with its mask, and none missing |
| Extraction.StopSticks | kriptomatte/application/services.py:31-65 | once a layer raises, later layers do nothing |
| Extraction.SaveObjectMask | kriptomatte/application/services.py:48-65 | one object: nothing for a uniform mask, else one save of its mask at its path |
| Extraction.SaveLayerMasks | kriptomatte/application/services.py:47-65 | the object loop gives the saves of the sorted names |
| Extraction.ExtractLayer | kriptomatte/application/services.py:35-65 | one layer: the folder, then the channel read, then the object loop; an unreadable read or a zero-size mask stops the run |
| Extraction.ExtractAll | kriptomatte/application/services.py:13-67 | `extract_all` yields the actions of the layers in order up to the first error; a header that cannot be loaded does nothing |

## Left out

- MurmurHash3 (`pymmh3.hash`) is not part of this model. It is a parameter that may return any integer.
- Float decoding is left out. A channel sample carries both its bit pattern, used for ID comparison, and its value as an exact real, used for coverage. The model does not derive one from the other.
- Masking.ComputeMask: the coverage sum is exact real arithmetic, not float32, so rounding in the sum is not modelled.
- Visualization.ToChannel: does not model the float32 cast of the `hls_to_rgb` result before scaling.
- Visualization.RealMod: the hue, saturation and luma steps are exact reals, not float64.
- ValueObjects.ToRgb: the two divisions are exact reals, not float64 quotients.
- `colorsys.hls_to_rgb` is a parameter.
- OpenEXR file access is out: opening a file, reading channels and the float16-to-float32 cast. `load_header`'s file read and `read_channels` are parameters; the channel reader must return stacks of the layer's shape (`ReadsWellShaped`).
- JSON parsing, UTF-8 decoding, file existence and file reading are out. They are parameters (`Manifests.Env`); a byte-string header value carries its decoded text. A JSON object is given as the items of the dict the parser builds, so a repeated name appears once, with its last value.
- `str.isalnum`, `str.strip`, `int()` and the regex `\d` are modelled for ASCII only: the non-ASCII white space and Unicode decimal digits that `int()` accepts are not.
- Logging is not modelled.
- `ImageWriter.save_mask` and `os.makedirs` are recorded as actions; the files they write are not modelled.
- Extraction.ExtractAll: folder creation and mask saving are taken to succeed. The exceptions `os.makedirs` and `ImageWriter.save_mask` can raise (a regular file where the folder goes, missing permissions, an image library error), which stop `extract_all` at once, are not modelled: the trace always goes on past them.
- Paths follow POSIX `os.path` only; Windows path rules are left out.
- Broadcasting and shape mismatches of NumPy arrays are left out. `compute_mask` and `combine_masks` require planes of one shape.
- Masking.CombineMasks: the masks are given with their common shape. The dtype and shape of `np.zeros_like(masks[0])` are not modelled separately.
- Visualization.ApplyRandomColormap: labels are natural numbers, and negative labels are left out. `mask_combined.max() + 1` on a `uint8` label map that holds 255 depends on NumPy's casting rules; the model takes it as 256.
- The `count` variable of `_parse_raw_manifest` feeds only logging and is left out.
- Header values other than text and byte strings (boxes, channel lists) are left out of the metadata groups.
- The `ObjectMask` entity and `read_channels`' dtype dispatch are not part of this model.
- `ImageRepository` is an interface; its implementation's file access is a parameter here.
