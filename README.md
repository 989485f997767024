# decompress: entry paths, the tar walker and the rar adapter

This project models the part of the `decompress` Rust library that decides where archive
entries end up on disk, and proves properties of that model:

- `RelPath` (`rel_path.rs`): an entry path checked to be relative and broken into its
  `Normal` parts. It has a file or directory kind, a canonical text with `/` between the
  parts, and `join_onto`.
- `MapArgs` (`map_args.rs`): the descriptor handed to the `filter` and `map` callbacks.
  Both of its paths must be absolute.
- The tar walker (`tar_common.rs`):
  - `tar_list` lists entry names.
  - `tar_extract` walks the entries. For each one it strips leading components, skips
    entries that name the target itself, builds the `RelPath` and asks the filter. It then
    maps the path and writes regular files and symlinks. Any other entry type panics.
- The rar adapter (`unrar.rs`):
  - `test_mimetype` and `test` recognise rar archives by mimetype and by file name.
  - `list` returns each header's name, with directories ending in `/`.
  - `decompress` is the header loop: it extracts or skips each header.

Rust's `std::path` behaviour that the core relies on is modelled in `paths.dfy` (module
`Paths`), on strings, for a `Unix` and a `Windows` platform. It covers separators, drive
prefixes, the root, `components()` (a leading `.` is a component only when no drive prefix
comes first), `is_absolute`, `push`/`join`, `extend`, `file_name`,
`parent` and path equality, which Rust decides component by component, with a drive
letter compared in either case.

Effects are modelled as follows:

- The filesystem is not modelled as state. Each extraction returns the list of effects it
  performs, in order (`Extraction.Effect`):
  - creating the output directory;
  - creating a file's parent directories;
  - writing a file;
  - unpacking a symlink;
  - a rar extraction.
- A Rust error (`?`) becomes `Outcome.Err`. A panic (`unreachable!`, `todo!`) becomes
  `Outcome.Abort`.
- The archive readers are inputs: a sequence of entries or headers, each of which may
  fail to read (`Decoded.Corrupt`).

Each loop is proved against a specification built from three pieces:

- a per-entry step function (`TarCommon.TarStep`, `UnrarAdapter.RarStep`);
- a fold that stops at the first failure (`Extraction.Run`);
- the shared descriptor logic (`Extraction.Descriptor`).

The imperative loops (`TarCommon.TarExtract`, `UnrarAdapter.Decompress`) are methods
whose `ensures` ties their effects and result to that fold. Lemmas then prove what the
fold promises:

- every write lands at the mapped path of a valid descriptor;
- that descriptor's path is the output directory followed by exactly the entry's parts, so
  with the default map nothing of a whole extraction lands outside the output directory;
- `files` lists exactly the written paths, in order;
- parent directories are prepared before each write;
- the call succeeds exactly when every entry's step does.

Modules: `Errors` (errors.dfy), `Paths` (paths.dfy), `RelPaths` (rel_path.dfy), `HookArgs`
(map_args.dfy), `Extraction` (extraction.dfy), `TarCommon` (tar_common.dfy),
`UnrarAdapter` (unrar.dfy).

## Model

| member | source | states |
|---|---|---|
| Paths.ComponentsOfJoin | decompress/src/rel_path.rs:73-77 | parts joined with either separator parse back to exactly those parts as `Normal` components |
| Paths.JoinSplit | decompress/src/rel_path.rs:75 | splitting a join of separator-free parts at the separator gives the parts back |
| Paths.NormalComponentsValid | decompress/src/rel_path.rs:97-105 | a path whose components are all `Normal` has parts that are non-empty, not `.`/`..`, separator-free, and the first is no drive |
| Paths.TrailingSeparator | decompress/src/rel_path.rs:92-106 | a trailing separator adds no component (outside a bare drive) |
| Paths.PushComponents | decompress/src/decompressors/tar_common.rs:45-50 | `join` of a path made of `Normal` components gives the base's components followed by that path's |
| Paths.PushKeepsAbsolute | decompress/src/decompressors/tar_common.rs:50 | joining such a path onto an absolute path stays absolute |
| Paths.PushEmpty | decompress/src/decompressors/tar_common.rs:42-48 | joining the empty path names the base again |
| Paths.ExtendComponents | decompress/src/rel_path.rs:67-71 | `extend` with plain, drive-free names appends exactly their components |
| Paths.ExtendPlain | decompress/src/rel_path.rs:67-71 | `extend` with such names gives the base, a separator when needed, and the names joined by the platform separator |
| Paths.ComponentsSlashed | decompress/src/decompressors/unrar.rs:52-53 | on Windows, writing `\` as `/` changes neither the components nor absoluteness |
| Paths.DriveLetterCase | decompress/src/decompressors/tar_common.rs:46 | on Windows `c:\out` and `C:\out` are the same path although their components' texts differ, as Rust's `==` compares the disk letter upper-cased |
| Paths.DriveCurDir | decompress/src/decompressors/tar_common.rs:40-46 | on Windows a `.` right after a drive prefix is no component: `C:./a` (any drive, either separator, any plain name) is the drive and `a`, and `C:.` and `C:./` are the same path as `C:` |
| Paths.ComponentsNormalsPlain | decompress/src/decompressors/tar_common.rs:40 | every `Normal` component of any path is a plain name: non-empty, not `.`/`..`, separator-free |
| Paths.FileName | decompress/src/decompressors/unrar.rs:42-44 | `file_name` exists exactly when the last component is `Normal` |
| RelPaths.NewOutcome | decompress/src/rel_path.rs:92-106 | `new` fails with `PathNotRelative` iff the path is absolute, panics iff it is relative with a non-`Normal` component, succeeds otherwise and keeps the requested kind |
| RelPaths.NewValid | decompress/src/rel_path.rs:73-77 | every `RelPath` built is valid (plain parts, `value` their `/`-join) and its parts are exactly the path's components |
| RelPaths.NewAccessors | decompress/src/rel_path.rs:41-64 | on a `RelPath` that `new` built, `kind` is the requested kind, `parts` are the path's `Normal` names in order, and `as_str` is their `/`-join |
| RelPaths.NewFileDirectory | decompress/src/rel_path.rs:31-39 | `new_file` and `new_directory` accept the same paths with the same parts, and give a file and a directory respectively |
| RelPaths.NewGuessKindKind | decompress/src/rel_path.rs:79-90 | `new_guess_kind` gives a directory iff the text ends in `/` or the platform separator |
| RelPaths.IsDirectory | decompress/src/rel_path.rs:51-59 | `is_directory` is the negation of `is_file` |
| RelPaths.RoundTrip | decompress/src/rel_path.rs:41-44 | a valid `RelPath` is rebuilt exactly from its own `as_str` |
| RelPaths.AsStrSplits | decompress/src/rel_path.rs:109-113 | splitting the displayed text at `/` gives back the parts |
| RelPaths.TrailingSeparatorIgnored | decompress/src/rel_path.rs:92-106 | appending a separator changes neither relativeness nor the `RelPath` built |
| RelPaths.SlashedSame | decompress/src/rel_path.rs:132-160 | on Windows, texts differing only in `\` against `/` build the same `RelPath` |
| RelPaths.JoinOntoComponents | decompress/src/rel_path.rs:67-71 | with no drive-like part, `join_onto` gives the base's components followed by exactly the parts |
| RelPaths.JoinOntoText | decompress/src/rel_path.rs:67-71 | the text `join_onto` builds; on Unix it is the base, a separator when needed, then `as_str` |
| RelPaths.JoinOntoSameBase | decompress/src/rel_path.rs:67-71 | bases naming the same path give joins naming the same path |
| RelPaths.DriveLikePart | decompress/src/rel_path.rs:92-106 | on Windows `a/C:x` is accepted, with a second part that looks like a drive |
| RelPaths.JoinOntoDriveEscape | decompress/src/rel_path.rs:67-71 | as written, `a/C:x` joined onto `C:\root` gives `C:x`, a relative path outside the base |
| RelPaths.JoinOntoWholeComponents | decompress/src/rel_path.rs:67-71 | the corrected join always gives the base followed by exactly the parts, and agrees with `join_onto` where that has no drive-like part |
| RelPaths.GuessKindVectors | decompress/src/rel_path.rs:121-130 | the module's `new_guess_kind` cases |
| RelPaths.AaaBbb | decompress/src/rel_path.rs:132-160 | `aaa\bbb`, `aaa/bbb` and their trailing-separator forms all build parts `[aaa, bbb]` and text `aaa/bbb` |
| RelPaths.TwoParts | decompress/src/rel_path.rs:132-160 | any two plain names around either separator build those two parts |
| RelPaths.JoinOntoVectors | decompress/src/rel_path.rs:143-166 | the module's `join_onto` cases: onto `C:\` and `C:\root` the parts give exactly `C:\aaa\bbb` and `C:\root\aaa\bbb`, and onto `C:/root` a path equal to `C:\root\aaa\bbb` |
| HookArgs.New | decompress/src/map_args.rs:23-31 | `new` demands two absolute paths and its accessors give back exactly what was passed |
| Extraction.Describe | decompress/src/decompressors/tar_common.rs:45-61 | the inline steps before the callbacks (join, skip when it names `to` under path equality, `RelPath`, full output path, descriptor) compute `Descriptor` |
| Extraction.DescriptorDriveCase | decompress/src/decompressors/tar_common.rs:45-47 | on Windows an entry `c:\out` extracted into `C:\out` names `to` and is skipped, not refused |
| Extraction.DescriptorDriveDot | decompress/src/decompressors/tar_common.rs:45-47 | on Windows an entry `.` or `./` extracted into a bare drive such as `C:` names `to` and is skipped, of either kind |
| Extraction.DescriptorOnePart | decompress/src/decompressors/tar_common.rs:45-61 | a single plain name that is not a drive is described with itself as the only part, at the output directory followed by it |
| Extraction.RelPathJoinAbsolute | decompress/src/map_args.rs:24 | an accepted entry path joined onto the absolute output directory is absolute, so `new`'s first assertion never fires |
| Extraction.DescriptorContained | decompress/src/decompressors/tar_common.rs:50-67 | every descriptor is valid, keeps the kind, and its path is the output directory followed by exactly the entry's parts |
| Extraction.DescriptorSkipsEmpty | decompress/src/decompressors/tar_common.rs:42-48 | a path with no components is skipped before any `RelPath` or callback |
| Extraction.PrepareThen | decompress/src/decompressors/tar_common.rs:73-79 | parent creation comes before the write, and only a written file is an output |
| Extraction.RunSticky | decompress/src/decompressors/tar_common.rs:34-36 | once a step fails, later entries change nothing |
| Extraction.RunOk | decompress/src/decompressors/tar_common.rs:34-109 | the loop ends well iff it started well and every step went on |
| Extraction.RunEffectsFrom | decompress/src/decompressors/tar_common.rs:29-108 | every effect of the loop was performed by the start or by one of the entries' steps |
| Extraction.RunKeepsStart | decompress/src/decompressors/tar_common.rs:29-31 | effects only grow: the output directory's creation stays first |
| Extraction.RunOutputs | decompress/src/decompressors/tar_common.rs:85 | when each step records exactly what it writes, so does the loop |
| Extraction.RunParentsFirst | decompress/src/decompressors/tar_common.rs:73-79 | when each step prepares parents first, so does the loop |
| TarCommon.CollectEntries | decompress/src/decompressors/tar_common.rs:11-12 | all entries in order, or the first read error |
| TarCommon.CollectPaths | decompress/src/decompressors/tar_common.rs:13-15 | all paths in order, or the first path that fails to decode |
| TarCommon.TarListSpec | decompress/src/decompressors/tar_common.rs:9-19 | `tar_list` succeeds iff every entry and path reads; then one name per entry, in order; a read error wins |
| TarCommon.StrippedComponents | decompress/src/decompressors/tar_common.rs:40 | when the components after the first `n` are drive-free `Normal` ones, `components().skip(n).collect()` has exactly those, whatever the dropped ones were |
| TarCommon.StripLeadingRoot | decompress/src/decompressors/tar_common.rs:38-40 | `/a/b` with one component stripped is the relative `a/b`, which `RelPath::new` accepts |
| TarCommon.StrippedDriveCurDir | decompress/src/decompressors/tar_common.rs:40 | on Windows `C:./a` has two components; stripping one leaves `a`, stripping two leaves the empty path |
| TarCommon.StripDriveCurDir | decompress/src/decompressors/tar_common.rs:38-50 | on Windows an entry `C:./a` of any type with one component stripped is dispatched at the output directory followed by `a`, with parts `[a]`; with two stripped it is skipped |
| TarCommon.CollectNormals | decompress/src/decompressors/tar_common.rs:40 | collecting `Normal` components of plain names gives a path with those components |
| TarCommon.StripZero | decompress/src/decompressors/tar_common.rs:38-40 | `strip = 0` leaves such a path the same path |
| TarCommon.StripConsumes | decompress/src/decompressors/tar_common.rs:38-48 | stripping at least all components leaves an empty path |
| TarCommon.Dispatch | decompress/src/decompressors/tar_common.rs:60-107 | the filter decides for directories and regular files only; a regular file is written and recorded at the mapped path, a symlink unpacked there, a directory does nothing, any other type panics; parents come first |
| TarCommon.TarStep | decompress/src/decompressors/tar_common.rs:35-107 | one entry records exactly what it writes, writes only for regular entries, and has no effect when it fails |
| TarCommon.TarStepCorrupt | decompress/src/decompressors/tar_common.rs:35-36 | a read error or undecodable path ends the call with that error |
| TarCommon.TarStepDescribed | decompress/src/decompressors/tar_common.rs:40-70 | past decoding, the descriptor of the stripped path decides: error, skip, or dispatch |
| TarCommon.DispatchEntry | decompress/src/decompressors/tar_common.rs:60-107 | the imperative filter/map/match computes `Dispatch` |
| TarCommon.ExtractEntry | decompress/src/decompressors/tar_common.rs:35-107 | the imperative loop body computes `TarStep` |
| TarCommon.TarExtract | decompress/src/decompressors/tar_common.rs:21-110 | the loop's effects and result are those of the fold of `TarStep` over the entries, after creating a missing `to` |
| TarCommon.TarStepTarget | decompress/src/decompressors/tar_common.rs:50-104 | every effect is at the mapped path of a valid descriptor whose path is the output directory followed by exactly the stripped entry's parts |
| TarCommon.TarStepDefaultMapContained | decompress/src/decompressors/tar_common.rs:50-68 | with the default map nothing is written outside the output directory |
| TarCommon.TarRunContained | decompress/src/decompressors/tar_common.rs:29-104 | with the default map, every effect of a whole extraction except creating `to` is at a path under the output directory |
| TarCommon.TarStepStripAll | decompress/src/decompressors/tar_common.rs:38-48 | an entry with no more components than `strip` is skipped |
| TarCommon.TarRunOutputs | decompress/src/decompressors/tar_common.rs:85 | `files` lists exactly the regular files written, in order |
| TarCommon.TarRunOrder | decompress/src/decompressors/tar_common.rs:29-102 | parents are prepared before every file and symlink; a missing `to` is created before anything else |
| TarCommon.TarRunOk | decompress/src/decompressors/tar_common.rs:34-36 | success iff every entry's step goes on; then every entry and path was read |
| UnrarAdapter.TestIgnoresDirectory | decompress/src/decompressors/unrar.rs:41-46 | `test` looks only at the file name: with the custom pattern if given, else `(?i)\.rar$` |
| UnrarAdapter.TestNeedsFileName | decompress/src/decompressors/unrar.rs:42-45 | a path without a file name is never recognised |
| UnrarAdapter.TestMimetypeExact | decompress/src/decompressors/unrar.rs:37-39 | `test_mimetype` accepts exactly `application/vnd.rar`, independently of the adapter's pattern |
| UnrarAdapter.RarSuffixVectors | decompress/src/decompressors/unrar.rs:17-19 | examples of the built-in pattern, in any case |
| UnrarAdapter.EnclosedName | decompress/src/decompressors/unrar.rs:49-63 | the name, `\` written as `/` on Windows, with one `/` appended to a directory that lacks it and nothing else changed |
| UnrarAdapter.EnclosedNameSamePath | decompress/src/decompressors/unrar.rs:49-63 | the listed name is the same path as the header's name |
| UnrarAdapter.EnclosedNameIdempotent | decompress/src/decompressors/unrar.rs:49-63 | listing a header whose name is already a listed name gives that name back unchanged |
| UnrarAdapter.EnclosedNameKind | decompress/src/decompressors/unrar.rs:58-60 | guessing the kind from a listed name finds every directory |
| UnrarAdapter.EnclosedNames | decompress/src/decompressors/unrar.rs:66-69 | every header's name in order, or the first header read error |
| UnrarAdapter.List | decompress/src/decompressors/unrar.rs:48-71 | a failure to open is the error; success iff every header reads; then id `rar` and one name per header |
| UnrarAdapter.RarStep | decompress/src/decompressors/unrar.rs:93-115 | one header records exactly what it extracts, extracts only directories and files, with at most one extraction |
| UnrarAdapter.RarStepCorrupt | decompress/src/decompressors/unrar.rs:93 | a header that fails to read ends the call with the library's error |
| UnrarAdapter.RarStepDescribed | decompress/src/decompressors/unrar.rs:95-114 | the descriptor and the filter decide between error, extraction at the mapped path, and skip |
| UnrarAdapter.RarStepSkipsOthers | decompress/src/decompressors/unrar.rs:95 | other headers are skipped without descriptor, filter or map |
| UnrarAdapter.RarStepDriveDot | decompress/src/decompressors/unrar.rs:95-100 | on Windows a header named `.` or `./` extracted into a bare drive such as `C:` is skipped with the library's `skip` status |
| UnrarAdapter.ExtractHeader | decompress/src/decompressors/unrar.rs:94-114 | the imperative loop body computes `RarStep` |
| UnrarAdapter.Decompress | decompress/src/decompressors/unrar.rs:73-118 | a non-zero strip panics first; a missing `to` is created; a failed open is the error; otherwise effects and result are the fold of `RarStep` |
| UnrarAdapter.RarStepTarget | decompress/src/decompressors/unrar.rs:95-110 | every extraction is at the mapped path of a valid, filtered descriptor whose path is the output directory followed by exactly the header's parts |
| UnrarAdapter.RarStepDefaultMapContained | decompress/src/decompressors/unrar.rs:103-109 | with the default map, a header's extraction lands under the output directory |
| UnrarAdapter.RarRunContained | decompress/src/decompressors/unrar.rs:87-115 | with the default map, every effect of a whole extraction except creating `to` is at a path under the output directory |
| UnrarAdapter.RarRunOutputs | decompress/src/decompressors/unrar.rs:87-108 | `files` lists exactly the paths extracted to, in order; a missing `to` comes first |
| UnrarAdapter.RarRunOk | decompress/src/decompressors/unrar.rs:93-117 | success iff every header's step goes on; then every header read and every library call succeeded |

## Left out

- UNC and verbatim Windows prefixes (`\\server\share`, `\\?\`) are not modelled. Only
  drive prefixes such as `C:` are.
- `PathNotUtf8` and `to_string_lossy` are not modelled: paths are strings of characters.
- `absolutize` is not modelled. The absolute output directory is an input, and every
  operation that needs it requires it to be absolute.
- Filesystem failures are not modelled: `create_dir_all`, `File::create`, `io::copy`,
  `set_permissions` and `entry.unpack` always succeed. Permissions and file modes are out
  of scope.
- `to.exists()` is an input. Whether a file's parent directory already exists is not
  modelled: `Extraction.Prepare` records one `CreateParentDirs` effect whenever the path has
  a parent, standing for "create the parents when missing".
- The tar and unrar libraries are not modelled. Entries and headers are inputs. Whether
  `extract_to` or `skip` fails is a field of the header (`actionFailure`).
- `tar_list` / `tar_extract`: a failure of `entries()` itself, before the first entry, is
  not modelled separately. It is the same as a first entry that fails to read.
- `FilterArgs` is not part of this model. It is taken to be the same record as `MapArgs`.
- The regular expression of `Unrar` is a predicate on file names. The built-in
  `(?i)\.rar$` is written out as `RarSuffix`. `Unrar::new`/`build`/`Default` are the
  datatype constructor and `DefaultUnrar`.
- `UnrarAdapter.TestMimetype` is the equality with the rar mimetype itself; its meaning is
  stated by `UnrarAdapter.TestMimetypeExact`. `RelPaths.GetParts` is stated through
  `RelPaths.New` (`RelPaths.NewOutcome`, `RelPaths.NewValid`), the `RelPath` accessors by
  `RelPaths.NewAccessors`, and the `MapArgs` accessors by `HookArgs.New`.
- Format detection, the registry and `detect_content` are outside this core.
- TarCommon.StrippedComponents: holds when the components left after stripping are
  `Normal` ones none of which looks like a drive. When a `.`, `..`, root or prefix survives
  stripping, or a drive-like `Normal` part (`C:x` from `a/C:x` on Windows), the collected
  path is not characterised by this lemma. The entry then goes through `Descriptor` as
  every other does: the skip when the joined path names `to` (entry `/out` into `/out`),
  and otherwise `RelPath::new`, which refuses or panics on what is not a run of `Normal`
  parts. A leading component that is stripped away does no harm
  (`TarCommon.StripLeadingRoot`, `TarCommon.StripDriveCurDir`).
- UnrarAdapter.Decompress: when `extract_to` fails, the path is still in the effects and in
  `files`, as in the source (it is pushed first). The call then returns the error, so
  `files` is never seen.

## Findings

| source | as written | input that shows it | evidently intended | confidence | as-written member | corrected member |
|---|---|---|---|---|---|---|
| decompress/src/rel_path.rs:67-71 | `join_onto` pushes the parts one at a time. On Windows, a later part such as `C:x` is a `Normal` component of the relative path, but pushed alone it has a prefix and replaces the whole buffer. | `RelPath::new_file("a/C:x")` joined onto `C:\root` gives `C:x` | the base followed by the parts, as the extraction loops do when they push the whole entry path | not executed | RelPaths.JoinOntoDriveEscape | RelPaths.JoinOntoWholeComponents |
