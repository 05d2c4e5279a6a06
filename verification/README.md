# g1t_extract orchestration, modelled in Dafny

`g1t_extract` turns a G1T texture container into standalone DDS image
files. Its `G1T_REPLACE` build injects edited DDS files back into the
container. This project models the orchestration in `main.cpp` that sits
between the two formats:

- how a DXGI pixel format picks the suffix of an extracted file
  (`format_to_extension`);
- where extraction puts each file and what it names it (`extract_textures`,
  `g1t_extract`): one texture goes into the directory part of the
  container's path (beside the container when the path has a separator),
  several go into a directory named after it as `Tex <i>` / `Arr <i>`;
- how injection finds the file for each slot, checks that an array's slices
  agree, caps a texture's mip count and reconciles the slices' mip counts
  (`inject_textures`);
- how injection finds the container for a file or directory, rejects a
  single file for a multi-texture container, and saves the container only
  after a successful injection (`g1t_inject`).

A texture is its format, width, height and mip count. Pixel payloads are
opaque and not represented. The G1T and DDS libraries and the file system
are function-valued parameters, each of which may fail (`Textures.Library`
and `Textures.Disk`):

- `G1tFile::ToDDS`, `FromDDS`, `DecomposeArrayTexture`,
  `ComposeArrayTexture` and `DdsFile::GetFormatName` are uninterpreted
  functions.
- `G1tFile::ReduceMipsLevel` is an oracle that says whether a reduction
  fails. When it succeeds, the texture keeps everything but its mip count,
  which becomes the target.
- `FindFirstFileA`/`FindNextFileA` are replaced by the list of a
  directory's entry names. The pattern `stem*.dds` is matched as "starts with
  the stem, ends with `.dds`".
- Loading and saving files, and the existence tests, are functions of the
  path.

Modules follow the program's layers:

- `Text`: decimal rendering, lower-casing, `rfind`, popping trailing
  characters, the first field of a split.
- `Paths`: the `Utils` path helpers.
- `Formats`: `format_to_extension`.
- `Naming`: the naming rule that extraction and injection share.
- `Extract`: `extract_textures` and `g1t_extract`.
- `InjectSpec`: the meaning of `inject_textures` as functions, and what it
  guarantees.
- `Injection`: `inject_textures` as a method over an array updated in
  place, proved equal to `InjectSpec.Inject`, plus `g1t_inject`.

Some behaviours of the code differ from what its naming suggests. The model
keeps them as written:

- The `_UNORM` marker is found with `rfind`. It need not end the name:
  `R8G8_UNORM_SRGB` gives `.r8g8.dds`.
- A slice that injection skips (no file found) is never compared with the
  array baseline. Only its mip count is reconciled
  (`InjectSpec.SkippedSliceNotChecked`).
- When the mip reduction of a non-array texture fails, the code executes
  `return false` from a function returning `int`. That is the success code 0
  (`InjectSpec.ReductionFailureReportsSuccess`).
- A container path without a separator is its own directory part. The
  source of `Utils::GetDirNameString` is not part of this model; this
  behaviour is inferred from the `dir == path` test at main.cpp:300. So
  `a.g1t` extracts its single texture to `a.g1t/a.rgba.dds`, inside a
  directory of the container's own name, which extraction does not create
  (`Naming.BareContainerOutputs`).
- Extraction keeps every `.` of the base name, but injection names the
  container after the part of the file name before its first `.`. The file
  `d/x.y.rgba.dds` extracted from `d/x.y.g1t` therefore leads back to
  `d/x.g1t` (`Injection.DottedBaseNameMissesContainer`).
- With eleven units or more, the pattern `Tex 1*.dds` also matches
  `Tex 10...dds`. Re-injecting an unmodified extraction directory then fails
  (`InjectSpec.ExtractionDirectoryRejected`). For a non-array container
  this holds when slot 0 neither fails nor meets a failing mip reduction,
  since such a reduction returns 0 before slot 1 is looked up.

## Model

| member | source | states |
|---|---|---|
| `Text.Dec` | main.cpp:62 | the decimal rendering of an index is a non-empty digit string, with no leading zero, of length one exactly for indices below ten |
| `Text.DecRoundTrip` | main.cpp:62 | reading the rendered digits back gives the index |
| `Text.DecInjective` | main.cpp:146 | distinct indices have distinct renderings |
| `Text.Lower` | main.cpp:32 | lower-casing keeps the length |
| `Text.LowerChars` | main.cpp:32 | lower-casing maps each character on its own and leaves no upper-case ASCII letter |
| `Text.RFind` | main.cpp:28 | a position `rfind` finds leaves room for the whole pattern |
| `Text.RFindLast` | main.cpp:28 | `rfind` finds an occurrence with none after it, and finds nothing only when the pattern occurs nowhere |
| `Text.TrimTrailing` | main.cpp:288-289 | popping trailing characters leaves a prefix that does not end in that character, and only that character was removed |
| `Text.FirstField` | main.cpp:303-304 | the first `.`-separated component is the longest prefix without a `.`, followed by a `.` or the end |
| `Paths.LastSep` | main.cpp:40-41 | the last separator position is a separator with none after it, and is absent only when there is no separator |
| `Paths.FileName` | main.cpp:41 | the file name is a suffix of the path without separators |
| `Paths.DirNameFileName` | main.cpp:40-41 | a path with a separator is its directory part, ending in a separator, followed by its file name |
| `Paths.SplitAfterSep` | main.cpp:297-298 | a directory ending in a separator, followed by a name without one, splits back into exactly those two |
| `Paths.JoinInjective` | main.cpp:62 | two names joined to one directory give the same path only if they are the same name |
| `Paths.Normalize` | main.cpp:286 | normalising keeps the length, turns each backslash into `/` and leaves no backslash |
| `Paths.NormalizeUnchanged` | main.cpp:286 | a path without backslashes is already normal |
| `Formats.FixedSuffixes` | main.cpp:6-25 | each of the six hand-picked suffixes starts with a dot and ends in `.dds` |
| `Formats.ExtensionIsDds` | main.cpp:4-36 | every format gets a suffix that starts with a dot and ends in `.dds`; the mapping is total |
| `Formats.ExtensionFromName` | main.cpp:27-33 | when the last `_UNORM` of the format's name is at p > 0, the suffix is `.` + the lower-cased name before p + `.dds` |
| `Formats.BareExtension` | main.cpp:27-35 | the bare `.dds` is chosen exactly when `_UNORM` occurs nowhere in the name except possibly at position 0 |
| `Formats.TrailingMarkerExample` | main.cpp:28-32 | `FOO_UNORM` gives `.foo.dds` |
| `Formats.InnerMarkerExample` | main.cpp:28-32 | `R8G8_UNORM_SRGB` gives `.r8g8.dds`: the marker need not end the name |
| `Formats.LeadingMarkerExample` | main.cpp:29-35 | a name whose only marker is at position 0 gives `.dds` |
| `Formats.NoMarkerExample` | main.cpp:29-35 | `R32_FLOAT` gives `.dds` |
| `Naming.BaseName` | main.cpp:43 | the base name is the file name minus its last four characters, or the whole name when shorter than four (the unsigned count wraps) |
| `Naming.BaseNameSplit` | main.cpp:43 | a file name ending in a four-character suffix is its base name followed by that suffix |
| `Naming.UnitNamesDistinct` | main.cpp:62 | with several units, distinct indices give distinct file names whatever their suffixes |
| `Naming.BareContainerOutputs` | main.cpp:40-62 | for a path without a separator the directory part is the path itself: one unit is saved as `path/base + suffix`, several go into `path/base` |
| `Naming.BareContainerExample` | main.cpp:40-62 | the single texture of `a.g1t` with suffix `.rgba.dds` is saved as `a.g1t/a.rgba.dds` |
| `Naming.OutputPathsDistinct` | main.cpp:45-62 | with several units no two units are saved to the same path |
| `Naming.IndexedNamesDistinct` | main.cpp:62 | distinct decimal indices followed by dot-led suffixes never spell the same string |
| `Naming.ResolveAbsent` | main.cpp:148-150 | the lookup finds nothing exactly when no entry matches `prefix + i + "*.dds"` |
| `Naming.ResolveFound` | main.cpp:152 | a name the lookup returns is a directory entry that matches the pattern |
| `Naming.ResolveUnique` | main.cpp:148-157 | with exactly one matching entry, the lookup returns that entry |
| `Naming.ResolveAmbiguous` | main.cpp:154-161 | with two matching entries, the lookup reports an ambiguous slot |
| `Naming.ExtractedNames` | main.cpp:62 | a multi-unit extraction names unit j `prefix + decimal(j) + suffix_j`, in index order |
| `Naming.ExtractedNamesResolve` | main.cpp:141-157 | with at most ten units, every slot of an unmodified extraction directory resolves to its own file |
| `Naming.ExtractedNamesCollide` | main.cpp:146-161 | with eleven units or more, the pattern of unit 1 also matches unit 10's file: the slot is ambiguous |
| `Extract.ExportRunFiles` | main.cpp:51-70 | the run saves exactly the successful units in index order, up to the first failure; it returns 0 exactly when all were saved, and -1 at the first unit that failed |
| `Extract.ExportRunExtracted` | main.cpp:38-79 | extracting the units is an extraction as `Extracted` describes it: the directory only for several units, the files of units 0, 1, ... up to the first failure, and 0 or -1 accordingly |
| `Extract.ExportUnit` | main.cpp:53-70 | one iteration converts unit i, names its file from its DDS format and saves it, yielding that unit's outcome |
| `Extract.ExtractTextures` | main.cpp:38-79 | the directory created (only with several units) and the files saved and the code returned are those of the specified run over all units |
| `Extract.G1tExtract` | main.cpp:81-106 | a failed load or decomposition gives -1 and writes nothing; an array texture's slices are extracted as `Arr` files, other textures as `Tex` files |
| `Extract.SingleUnitBesideContainer` | main.cpp:40-43 | a single unit is saved in the directory part of the container's path (beside the container when the path has a separator) as base name + its suffix, and no directory is created |
| `Extract.MultiUnitFilesDistinct` | main.cpp:45-62 | with several units every file lands in `dir/base/` as `prefix + decimal(k) + suffix_k`, and no two files share a path |
| `InjectSpec.ReadSlotLookup` | main.cpp:141-183 | with one unit the input path itself is loaded; with several, a slot whose pattern matches no directory entry is skipped, one whose pattern matches two entries fails, and one whose pattern matches exactly one entry loads that entry from the directory |
| `InjectSpec.MinMips` | main.cpp:246-260 | the minimum mip count is the mip count of some slice, and no slice has fewer |
| `InjectSpec.ReconcileFromResult` | main.cpp:262-272 | reducing the slices from i on succeeds exactly when no differing slice fails to reduce, and then sets exactly those slices to the target |
| `InjectSpec.ReconcileUnneeded` | main.cpp:262 | when every slice is already at the target, nothing changes and the result is 0 |
| `InjectSpec.ReconcileResult` | main.cpp:244-273 | reconciliation succeeds exactly when every slice above the minimum can be reduced; then every slice has the minimum mip count, nothing else changes, and slices already at the minimum are untouched |
| `InjectSpec.RunArray` | main.cpp:136-273 | the array loop from slot i succeeds exactly when no slot fails, replaced slices agree in shape with each other and the baseline, some slice was replaced among several, and reconciliation succeeds; it then yields the reconciled vector |
| `InjectSpec.ArrayInjection` | main.cpp:128-276 | array injection succeeds exactly when no slot fails, all replaced slices share one format and size, at least one is replaced when there are several, and reconciliation succeeds; the result is that reconciliation |
| `InjectSpec.ArrayInjectionResult` | main.cpp:185-273 | after successful array injection every slice, skipped ones included, has the minimum mip count; replaced slices hold their converted texture and share one shape; skipped slices keep theirs |
| `InjectSpec.RunPlain` | main.cpp:136-242 | when no mip reduction the loop performs fails, the non-array loop from slot i succeeds exactly when no slot fails and something was replaced among several; it then yields the capped textures |
| `InjectSpec.PlainInjection` | main.cpp:211-242 | when no mip reduction the loop performs fails (the other case is `ReductionFailureReportsSuccess`), non-array injection succeeds exactly when no slot fails and, among several, some slot is replaced; no texture gains mips, reduction happens only when the new count exceeded the previous one, and skipped slots are unchanged |
| `InjectSpec.SkipsAhead` | main.cpp:149-150 | skipped slots change neither the vector nor the count |
| `InjectSpec.NothingToInject` | main.cpp:238-242 | with several units and no file found for any slot, injection returns -1 and changes nothing |
| `InjectSpec.ReductionFailureReportsSuccess` | main.cpp:136-219 | when the non-array loop reaches slot i (no earlier slot failed and no earlier reduction failed) and slot i's reduction fails, injection returns 0: earlier replaced slots are capped, slot i keeps the larger mip count, later slots are untouched |
| `InjectSpec.SkippedSliceNotChecked` | main.cpp:185-209 | a skipped 64x64 slice next to a replaced 128x128 one injects successfully, so the baseline is set by the first processed slice |
| `InjectSpec.AmbiguousSlotRejected` | main.cpp:136-161 | with several units, a slot whose pattern matches two entries makes injection return -1 whenever the loop reaches it: always for an array, and for a non-array container when no earlier slot failed and no earlier mip reduction failed |
| `InjectSpec.MissingSlotKept` | main.cpp:149-150 | with several units, a slot with no matching entry keeps its texture whatever injection returns, including the early 0 of a failed reduction; after a successful array injection the slice keeps its format and size |
| `InjectSpec.ExtractionDirectoryFound` | main.cpp:141-157 | injecting an unmodified extraction directory of at most ten units reads each unit from its own extracted file |
| `InjectSpec.ExtractionDirectoryRejected` | main.cpp:136-161 | injecting an unmodified extraction directory of eleven units or more returns -1: always for an array, and for a non-array container when slot 0 neither fails nor meets a failing mip reduction |
| `Injection.ReconcileArrayMips` | main.cpp:244-273 | the in-place scan and reduction give the code and slices of `Reconcile` on the old slices |
| `Injection.ReadTexture` | main.cpp:141-183 | locating, loading and converting slot i yields that slot's read |
| `Injection.PlaceTexture` | main.cpp:176-221 | storing the converted texture, setting or checking the array baseline and capping the mips update only slot i, and stop or continue as one loop step specifies |
| `Injection.InjectSlot` | main.cpp:136-236 | one pass of the loop either stops with the loop's outcome or leaves the state from which the loop continues at i + 1 |
| `Injection.FinishInjection` | main.cpp:238-275 | after the loop, "nothing replaced" among several returns -1, and an array is reconciled |
| `Injection.InjectTextures` | main.cpp:128-276 | the returned code and the vector as updated in place are those of `InjectSpec.Inject` on the old vector |
| `Injection.DirContainerShape` | main.cpp:284-291 | a directory's container is a prefix of the normalised path, with every trailing `/` removed, plus `.g1t` |
| `Injection.FileContainerShape` | main.cpp:294-305 | a file's container lies in the file's directory (`./` for a bare name) and is named after the part of the file name before its first `.`, plus `.g1t` |
| `Injection.DirContainerNormalized` | main.cpp:284-291 | an existing directory whose path does not end in a separator leads to its normalised path plus `.g1t` |
| `Injection.DirContainerFound` | main.cpp:284-291 | an existing directory without backslashes or a trailing `/` leads to that path plus `.g1t` |
| `Injection.SingleFileRoundTrip` | main.cpp:294-305 | for a base name `b` without `.`, the DDS file extracted from a single-texture container `d + b + ".g1t"` is `d + b + ext`, and the container path derived from that file is the original container |
| `Injection.DottedBaseNameMissesContainer` | main.cpp:294-305 | for a base name `b1.b2`, the file extracted from `d + b1.b2 + ".g1t"` is `d + b1.b2 + ext`, and the container derived from it is `d + b1 + ".g1t"`, a different file |
| `Injection.DirectoryRoundTrip` | main.cpp:284-293 | the directory a multi-unit extraction creates for `d + b + ".g1t"` leads to the normalised `d + b` plus `.g1t`, and so back to the container itself whenever its path has no backslash |
| `Injection.FindContainer` | main.cpp:284-310 | the path-deriving code, including the loop that pops trailing `/`, computes the container path, and none for a path that is neither a directory nor a file |
| `Injection.UpdateContainer` | main.cpp:332-351 | the container is updated (an array decomposed, injected and composed back) exactly when every step succeeds |
| `Injection.G1tInject` | main.cpp:278-364 | the container is saved exactly when it was found and loaded, the input is a directory whenever the container holds an array or several textures, and injection succeeded; 0 exactly when that save succeeded |

## Left out

- Byte layouts of G1T and DDS, pixel data and its conversion: `G1tFile`
  and `DdsFile` are not part of this model. Their operations are
  uninterpreted functions that may fail.
- `G1tFile::ReduceMipsLevel` is modelled as leaving the texture unchanged
  when it fails, so a texture whose reduction failed keeps the larger mip
  count (`InjectSpec.ReductionFailureReportsSuccess`). Whether the library
  leaves a partly changed texture behind on failure is not known.
- `G1tFile::FromDDS` is modelled as replacing the texture only when it
  succeeds. Whether the library leaves a partly changed texture behind on
  failure is not known.
- `G1tFile::DecomposeArrayTexture` is assumed to return at least one slice
  when it succeeds. `inject_textures` reads `textures.front()`, which needs
  one.
- The per-slot format-change notice and all other `DPRINTF`/`UPRINTF`
  output, `getchar`, and `fseek` are I/O only.
- `mass_extract` and `g1t_visitor`: a directory walk whose per-file
  failures are ignored.
- `main` and its command-line branching.
- `FindFirstFileA`/`FindNextFileA`: their Windows semantics
  (case-insensitive matching, 8.3 short names, entry order) are replaced by
  a case-sensitive match over a supplied list of entry names.
- `Utils::GetDirNameString`, `GetFileNameString`, `MakePathString`,
  `NormalizePath`, `CreatePath`, `ToString`, `ToLowerCase` and
  `GetMultipleStrings` are not part of this model. They are modelled as
  simple string functions over `/` and `\`, as the recorded directory
  (`CreatePath`, whose result the source ignores), as decimal rendering,
  as ASCII lower-casing, and as the first `.`-separated field (the only
  component the code reads).
- Fixed-width integers: formats, dimensions and mip counts are unbounded
  naturals. The code only copies and compares them, so the widths do not
  change any outcome.
- Injection.SingleFileRoundTrip: covers only base names without `.`. With
  a `.` in the base name the round trip does not hold as written
  (`Injection.DottedBaseNameMissesContainer`).
