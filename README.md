# Verified model of the keiyoushi-clone manifest filter

`keiyoushi-clone` mirrors part of the keiyoushi Tachiyomi extension catalog.
It fetches the catalog's `index.json`, a JSON array of extension packages
(`TachiyomiPkg`), each bundling a list of content sources (`Source`). It
keeps only the wanted packages and writes the result back out as
`index.json`. This project models the one piece of logic in that program,
the manifest filter, and proves its properties in Dafny:

- **Keep packages.** A package is kept when its display `name` contains at
  least one wanted package name as a case-sensitive substring.
- **Narrow sources.** The filter clones each kept package and `retain`s, in
  place, only the sources whose `lang` is a wanted locale and whose `name`
  equals a wanted package name exactly. A package none of whose sources
  survive is still kept, with an empty source list.

Files:

- `text.dfy` (module `Text`): `Contains`, the substring test of Rust's
  `str::contains`, with a reference definition by slicing (`OccursAt`).
- `manifest.dfy` (module `Manifest`): the `Source` and `Package` records.
  The `i64` fields `code` and `nsfw` use the `I64` newtype.
- `filter.dfy` (module `ManifestFilter`):
  - The allow-lists are a parameter (`AllowLists`). The program's
    compiled-in lists are the constant `Original` (`["MangaDex"]`, `["pt-BR"]`).
  - The pure specification: `KeepPackage`, `KeepSource`, `NarrowSources`,
    `NarrowPackage` and `FilterManifest`, with `KeptIndices` as a reference
    for which input positions survive.
  - The imperative steps: `Retain` (in-place `Vec::retain` on an array),
    `CloneAndRetain` (the `map` closure) and `SelectPackages` (the
    `filter`/`map`/`collect` pipeline). Each is proved equal to the pure
    specification.
- `instances.dfy` (module `FilterInstances`): the filter with the
  compiled-in lists, plus worked examples.

Strings are modelled as sequences of characters. Rust compares and searches
`String`s as UTF-8 bytes. For valid UTF-8, a byte-level substring match and a
character-level one agree, and so do equality checks, so the model loses
nothing there.

## Model

| member | source | states |
|---|---|---|
| `Text.ContainsIffOccurs` | keiyoushi-clone/src/main.rs:61 | the substring test used on package names succeeds exactly when the needle equals some slice of the name (both directions); the empty needle always matches |
| `Text.ContainsNoLongerThan` | keiyoushi-clone/src/main.rs:61 | a name can only contain a wanted string that is no longer than the name |
| `Text.ContainsSelfAndEmpty` | keiyoushi-clone/src/main.rs:61 | a name contains itself and the empty string |
| `ManifestFilter.NarrowSources` | keiyoushi-clone/src/main.rs:64-67 | the sources left by `retain` are no more than the input, and each is an input source with a wanted locale and a wanted name |
| `ManifestFilter.FilterManifest` | keiyoushi-clone/src/main.rs:59-70 | the output has at most as many packages as the input, and every output package's name contains some wanted package name |
| `ManifestFilter.NarrowSourcesMembers` | keiyoushi-clone/src/main.rs:64-67 | a source is retained if and only if it was in the package and has both a wanted locale and a wanted name (soundness and completeness) |
| `ManifestFilter.NarrowSourcesMultiplicity` | keiyoushi-clone/src/main.rs:64-67 | each accepted source keeps its exact number of occurrences, and a rejected source has none |
| `ManifestFilter.NarrowSourcesOrdered` | keiyoushi-clone/src/main.rs:64-67 | retained sources keep their original relative order (the result is a subsequence of the input) |
| `ManifestFilter.NarrowSourcesAppend` | keiyoushi-clone/src/main.rs:64-67 | narrowing distributes over concatenation of source lists |
| `ManifestFilter.NarrowSourcesIdempotent` | keiyoushi-clone/src/main.rs:64-67 | narrowing already narrowed sources changes nothing |
| `ManifestFilter.KeptIndicesIncreasing` | keiyoushi-clone/src/main.rs:59-61 | the positions of the kept packages are valid input positions and strictly increase |
| `ManifestFilter.FilterManifestAtKeptIndices` | keiyoushi-clone/src/main.rs:59-70 | the k-th output package is the narrowed copy of the input package at the k-th kept position, which is a kept package; together with the increasing positions, the output is an order-preserving image of the input |
| `ManifestFilter.KeptIndicesComplete` | keiyoushi-clone/src/main.rs:61 | every input package whose name contains a wanted string is among the kept positions, whatever its sources are |
| `ManifestFilter.FilterManifestKeepsFields` | keiyoushi-clone/src/main.rs:62-68 | each output package has the same `name`, `pkg`, `apk`, `lang`, `code`, `version` and `nsfw` as its input package, and its `sources` are that package's narrowed sources |
| `ManifestFilter.OutputSourcesWanted` | keiyoushi-clone/src/main.rs:64-67 | every source of every output package has a wanted locale and exactly a wanted name |
| `ManifestFilter.KeptPackagesAppear` | keiyoushi-clone/src/main.rs:59-70 | a kept input package appears, narrowed, in the output even if none of its sources survive; a package whose name contains no wanted string shares its name with no output package |
| `ManifestFilter.EmptyOutputIff` | keiyoushi-clone/src/main.rs:59-70 | the output is empty if and only if no input package name contains a wanted string |
| `ManifestFilter.FilterManifestAppend` | keiyoushi-clone/src/main.rs:59-70 | filtering distributes over concatenation of manifests |
| `ManifestFilter.FilterManifestIdempotent` | keiyoushi-clone/src/main.rs:59-70 | filtering the filtered manifest again with the same allow-lists gives the same sequence |
| `ManifestFilter.Retain` | keiyoushi-clone/src/main.rs:64-67 | in-place `retain` on a source buffer: the buffer's first `len` cells become exactly the order-preserving filter of the old contents |
| `ManifestFilter.CloneAndRetain` | keiyoushi-clone/src/main.rs:62-69 | cloning a package and retaining its wanted sources yields the package with only its `sources` narrowed |
| `ManifestFilter.SelectPackages` | keiyoushi-clone/src/main.rs:59-70 | the filter/map/collect pipeline, run with in-place `retain`, returns exactly the specified filtered manifest |
| `FilterInstances.OriginalPredicates` | keiyoushi-clone/src/main.rs:30-31 | with the compiled-in lists, a package is kept iff its name contains "MangaDex", and a source iff it is named "MangaDex" with locale "pt-BR" |
| `FilterInstances.OriginalExample` | keiyoushi-clone/src/main.rs:30-31 | a MangaDex package with pt-BR and English sources beside another package filters to the MangaDex package with only its pt-BR source |
| `FilterInstances.KeepsMangaDexName` | keiyoushi-clone/src/main.rs:61 | a package named "Tachiyomi: MangaDex" is kept under the compiled-in list |
| `FilterInstances.DropsShorterName` | keiyoushi-clone/src/main.rs:61 | a package whose name is shorter than "MangaDex" is not kept under the compiled-in list |
| `FilterInstances.EnglishExample` | keiyoushi-clone/src/main.rs:59-70 | with wanted names ["MangaDex"] and locales ["en"], "MangaDex EN" is kept with only its MangaDex/en source |
| `FilterInstances.KeptWithNoSourcesExample` | keiyoushi-clone/src/main.rs:59-70 | a kept package with no wanted source is output with an empty source list |

## Left out

- The fetch of the catalog manifest, the success-status check and reading the body as text (keiyoushi-clone/src/main.rs:37-54). These are network I/O and URL parsing in foreign libraries.
- JSON decoding and encoding with `serde_json` (lines 56 and 72). This is derived code that is not visible, so no decode/encode round trip is stated.
- Writing `index.json` (line 74), the async runtime, and the conversion of every error to a string (lines 35-36 and the `map_err` calls). These are filesystem I/O and plumbing.
- Asset download, URL derivation and concurrent fan-out. The program contains no such code, so there is nothing of that kind to model.
- The clone in `CloneAndRetain` copies the source list into a fresh array. Rust's `Clone` also deep-copies the strings; datatype values in Dafny are immutable, so aliasing between the clone and the input cannot be observed and is not modelled.
- `code` and `nsfw` are range-restricted integers (`I64`). The filter never does arithmetic on them, so wrap-around does not arise.
