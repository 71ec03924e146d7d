# jsdelivr catalog scraper — a Dafny model

This project models the catalog builder of the jsDelivr scraper in
`tasks/jsdelivr.js`. The scraper lists every file under the `files` directory of
the jsdelivr GitHub repository (`getFiles`), then folds the flat list of
`library/version/file...` paths and the per-library `info.ini` metadata into one
record per library (`parse`). The record holds `name`, the distinct `versions`,
the files of each version and any merged metadata, including the `zip` archive
name.

Modules:

- `Wrappers`, `Errors`: `Option`, `Result`, and the errors a caller can see.
- `Paths`: `split('/')` and `join('/')` as `Split` and `Join`, and the
  classification of a path as an asset, an `info.ini`, or an ignored
  two-segment path.
- `CatalogBuilder`: the library record, the events of `parse` and their
  resolution into actions, and the fold `Run` / `Parse`.
  - `parse` is asynchronous: asset paths are folded when the iterator reaches
    them, and metadata is merged when its fetch completes.
  - This is modelled as a sequential fold over events in the order they took
    effect: `Visit(path)` and `MetaArrived(lib, Parsed(meta) | FetchFailed(error))`.
- `CatalogProperties`, `ParseProperties`: lemmas about the fold, for any order
  of events.
- `Publish`: the final callback, which converts each record's `version -> files`
  map into a list of `{version, files}` pairs.
- `Listing`, `ListingProperties`: the filtering and prefixing inside `getFiles`.
  Replies of the GitHub client are inputs. The per-directory subtree replies
  arrive as completions, in any order.
- `Update`: the exported scraper, which lists the files and then parses them.
  Its events are any schedule of the listed paths and their metadata completions.

Behaviour the model keeps from the code:

- The default `zip` is seeded only when a metadata completion creates the
  record (lines 46-53). A record first created by an asset path (lines 68-74)
  has no `zip` unless the parsed metadata sets one.
  - In a git tree, version directories such as `3.6.0` sort before `info.ini`.
    `async.eachLimit` starts its iterations in list order. So those asset paths
    are folded before the `info.ini` path is even visited, and its fetch has not
    started yet. Only asset paths listed after `info.ini` are folded while that
    fetch is in flight. So the usual outcome is a record without `zip`.
  - One might expect every record to get the default `zip`. The model follows
    the code; `ParseProperties.AssetsFirst` and `ParseProperties.MetadataFirst`
    show both outcomes.
- The `contains('/')` filter of line 180 never removes anything: every gathered
  path has just been prefixed with `dir.path + '/'`
  (`ListingProperties.GatheredHaveSep`).

## Model

| member | source | states |
|---|---|---|
| `Paths.Split` | tasks/jsdelivr.js:35 | splitting gives at least one piece, no piece contains `/`, and joining the pieces with `/` gives back the path |
| `Paths.Join` | tasks/jsdelivr.js:65 | no contract of its own; `Paths.Split` and `Paths.SplitJoin` show that it inverts `split('/')` |
| `Paths.SplitJoin` | tasks/jsdelivr.js:35-65 | splitting undoes joining for `/`-free pieces, so split and join are inverse |
| `Paths.Classify` | tasks/jsdelivr.js:35-66 | an asset path is exactly `lib/version/file` with `/`-free `lib` and `version`; an `info.ini` path is `lib/info.ini`; an ignored path has exactly one `/` and a second segment other than `info.ini` |
| `Paths.ClassifyAsset` | tasks/jsdelivr.js:63-66 | a path `lib/version/file` with `/`-free `lib` and `version` is an asset of that library and version, and the file is the whole rest of the path, including any further `/` |
| `Paths.ClassifyTwoSegments` | tasks/jsdelivr.js:39-40 | a two-segment path is the metadata file of its first segment when the second is `info.ini`, and is ignored otherwise |
| `CatalogBuilder.Resolve` | tasks/jsdelivr.js:35-66 | an event becomes an append for `lib/version/file`, a merge of the parsed metadata, an abort carrying the failed fetch's error, or nothing for two-segment paths |
| `CatalogBuilder.AddAssetSpec` | tasks/jsdelivr.js:78-88 | a version is added only if new, so `versions` only grows and stays duplicate-free; its file list grows by exactly the new file; other versions and fields keep their values; the record invariant is kept |
| `CatalogBuilder.MergeSpec` | tasks/jsdelivr.js:55 | the metadata merge is a shallow overwrite: every parsed key wins, every other property keeps its value, versions and assets are untouched |
| `CatalogBuilder.AssetStepSpec` | tasks/jsdelivr.js:68-88 | an asset path creates its library's record with only `name` (no `zip`) if it is new, adds its file to that record, and changes no other record |
| `CatalogBuilder.MetaStepSpec` | tasks/jsdelivr.js:46-57 | a metadata completion creates `{name, versions: [], assets: {}, zip: name + '.zip'}` if the library is new, then merges the parsed keys over it; no other record, version or file changes |
| `CatalogBuilder.ApplyFiles` | tasks/jsdelivr.js:83-88 | one action appends its own file to its own version's list and leaves every other file list alone |
| `CatalogBuilder.ApplyVersions` | tasks/jsdelivr.js:78-81 | one action can add only its own version to its own library's `versions`, and never removes one |
| `CatalogBuilder.AddAsset` | tasks/jsdelivr.js:78-88 | no contract of its own; specified by `CatalogBuilder.AddAssetSpec` |
| `CatalogBuilder.Merge` | tasks/jsdelivr.js:55 | no contract of its own; specified by `CatalogBuilder.MergeSpec` |
| `CatalogBuilder.AssetStep` | tasks/jsdelivr.js:63-88 | no contract of its own; specified by `CatalogBuilder.AssetStepSpec` |
| `CatalogBuilder.MetaStep` | tasks/jsdelivr.js:46-57 | no contract of its own; specified by `CatalogBuilder.MetaStepSpec` |
| `CatalogBuilder.Apply` | tasks/jsdelivr.js:41-90 | no contract of its own; specified by `CatalogBuilder.ApplySpec`, `CatalogBuilder.ApplyFiles` and `CatalogBuilder.ApplyVersions` |
| `CatalogBuilder.Run` | tasks/jsdelivr.js:34-94 | no contract of its own; specified by `CatalogProperties.RunConsistent`, `RunFrame`, `RunFiles`, `RunVersions`, `RunFails`, `RunZip`, `RunAppend` and `RunSwap` |
| `CatalogBuilder.Parse` | tasks/jsdelivr.js:30-95 | no contract of its own; specified by `ParseProperties.ParseConsistent`, `ParseProperties.ParseFails`, `ParseProperties.AssetsFirst`, `ParseProperties.MetadataFirst` and `Update.ScheduleLibraries` |
| `CatalogBuilder.ApplySpec` | tasks/jsdelivr.js:41-90 | one action fails only when it is an aborted fetch, and otherwise changes at most the record of its own library |
| `CatalogProperties.RunConsistent` | tasks/jsdelivr.js:78-88 | after any fold, every record has duplicate-free versions, and these are exactly the keys of its asset map |
| `CatalogProperties.RunFrame` | tasks/jsdelivr.js:68-76 | the records after a fold are those before plus one per targeted library; a library no action targets keeps its record |
| `CatalogProperties.RunFiles` | tasks/jsdelivr.js:83-88 | each version's file list is its old list followed by the files of the asset paths for that library and version, in fold order |
| `CatalogProperties.RunVersions` | tasks/jsdelivr.js:78-81 | `versions` only grows, and a version is present exactly when it was before or some asset path carried it |
| `CatalogProperties.RunFails` | tasks/jsdelivr.js:41-44 | the fold fails exactly when some fetch failed, and then with the error of the first failure |
| `CatalogProperties.RunZip` | tasks/jsdelivr.js:46-74 | a record has `zip` exactly when it had one already, or a metadata merge rather than an asset path created it, or some merged metadata sets `zip` |
| `CatalogProperties.ApplyCommutes` | tasks/jsdelivr.js:34-90 | two actions on different libraries give the same outcome in either order, unless both abort |
| `CatalogProperties.RunSwap` | tasks/jsdelivr.js:34 | swapping two adjacent actions on different libraries anywhere in the fold does not change its outcome, unless both abort |
| `CatalogProperties.RunAppend` | tasks/jsdelivr.js:34-94 | folding a concatenation folds the first part, then the second part from its result; an error in the first part ends the fold |
| `ParseProperties.ResolveAsset` | tasks/jsdelivr.js:63-66 | visiting `lib/version/file` appends `file` to `version` of `lib` |
| `ParseProperties.ResolveTwoSegments` | tasks/jsdelivr.js:39-61 | visiting a two-segment path leaves every catalog unchanged |
| `ParseProperties.ParseConsistent` | tasks/jsdelivr.js:78-88 | every catalog `parse` builds has duplicate-free versions that equal its asset keys |
| `ParseProperties.ParseFails` | tasks/jsdelivr.js:41-94 | `parse` fails exactly when a metadata fetch failed, with the error of the first failure to arrive |
| `ParseProperties.AssetsFirst` | tasks/jsdelivr.js:68-74 | for events that visit `lib/version/f1`, `lib/version/f2` and `lib/info.ini`, and only then see the metadata arrive, the record is `name` overwritten by the metadata, one version, both files in order, and no seeded `zip` |
| `ParseProperties.MetadataFirst` | tasks/jsdelivr.js:46-55 | for events that visit `lib/info.ini` and see its metadata arrive before the two asset paths, the same record also carries the seeded `zip` unless the metadata overrides it |
| `Publish.ToV1Assets` | tasks/jsdelivr.js:98-107 | the v1 asset list has one `{version, files}` pair per version key, with no version twice and the files unchanged |
| `Publish.Convert` | tasks/jsdelivr.js:97-109 | the converted record keeps the fields and versions, and lists each version's files once as a v1 pair |
| `Publish.PublishAll` | tasks/jsdelivr.js:96-110 | there is one published record per library key, with its fields and versions unchanged and its assets converted to v1 |
| `Publish.ParseAndPublish` | tasks/jsdelivr.js:91-111 | `parse` passes on the fold's error with no records, or returns the converted records of the whole catalog |
| `Listing.Dirs` | tasks/jsdelivr.js:152-154 | the directories descended into are exactly the `040` entries of the tree, with their multiplicity |
| `Listing.KeepFiles` | tasks/jsdelivr.js:178-180 | a path is kept exactly when it belongs to a `100` entry and contains `/` |
| `Listing.GetFiles` | tasks/jsdelivr.js:125-164 | for a run that fetched each `040` entry of the tree once (`Listing.Descends`), a root listing error, a missing `files` entry, a tree error and a tree without `tree` are the only failures; subtree replies never cause one |
| `Listing.Prefixed` | tasks/jsdelivr.js:170 | no contract of its own; specified by `ListingProperties.ContributionMember` and `ListingProperties.GatheredHaveSep` |
| `Listing.Contribution` | tasks/jsdelivr.js:166-175 | no contract of its own; specified by `ListingProperties.ContributionMember` and `ListingProperties.DroppedSubtree` |
| `Listing.Gathered` | tasks/jsdelivr.js:166-175 | no contract of its own; specified by `ListingProperties.GatheredAppend`, `ListingProperties.GatheredMember` and `ListingProperties.DroppedSubtree` |
| `ListingProperties.KeepFilesAppend` | tasks/jsdelivr.js:178-180 | the filter works entry by entry: the paths kept from a concatenation are those kept from each part, in order |
| `ListingProperties.KeepFilesOne` | tasks/jsdelivr.js:178-180 | one entry yields its path exactly when it is a `100` entry whose path contains `/`, and yields nothing otherwise; with `KeepFilesAppend` this fixes the result, its order and its multiplicities |
| `ListingProperties.KeepsDuplicates` | tasks/jsdelivr.js:178-180 | the filter does not deduplicate: two matching entries with the same path give that path twice |
| `ListingProperties.ContributionMember` | tasks/jsdelivr.js:166-172 | an entry is contributed by a subtree exactly when its reply has a `tree` and the entry is one of that tree's entries with `dir.path + '/'` put in front of its path |
| `ListingProperties.GatheredMember` | tasks/jsdelivr.js:158-175 | an entry is in `files` exactly when some completed subtree contributed it |
| `ListingProperties.GatheredAppend` | tasks/jsdelivr.js:168-171 | subtrees that complete one after another add their entries to `files` one after another |
| `ListingProperties.DroppedSubtree` | tasks/jsdelivr.js:166-175 | a subtree whose fetch failed or has no `tree` contributes nothing, as if it had never been listed |
| `ListingProperties.GatheredHaveSep` | tasks/jsdelivr.js:168-180 | every gathered path contains `/` once it has been prefixed |
| `ListingProperties.GetFilesPaths` | tasks/jsdelivr.js:166-182 | a path is returned exactly when some listed subtree has a `100` entry whose path, prefixed with `dir.path + '/'`, is that path |
| `ListingProperties.DescendedDirs` | tasks/jsdelivr.js:152-163 | when each directory completes once, every completion belongs to a `040` entry of the tree, and every such entry completes |
| `ListingProperties.GetFilesSound` | tasks/jsdelivr.js:152-182 | every returned path is `dir.path + '/' + entry.path` for a `100` entry under a `040` directory of the tree; all such paths are returned, and each contains `/` |
| `Update.ScheduleWellFormed` | tasks/jsdelivr.js:21-26 | a schedule of listed paths, all of which contain `/`, is a valid input for `parse` |
| `Update.ScheduleLibraries` | tasks/jsdelivr.js:34-90 | a successful run has exactly one record per library with an asset path or an `info.ini` in the listing |
| `Update.Scrape` | tasks/jsdelivr.js:20-28 | for a run that fetched each `040` entry of the `files` tree once, a listing error is passed on unchanged; otherwise the result is that of `parse` over the listed files |

## Left out

- Version sorting and `lastversion` (tasks/task.js:22-26): `lib/sort_versions` is not part of this model, and no comparator is invented for it.
- Writing the JSON file and logging (tasks/task.js:11-43) are I/O.
- The GitHub client, `request.get`, `url.resolve` and the `ini` parser are not modelled.
  - Their results are inputs: a content listing, tree replies with an optional `tree`, and a parsed key/value map or an error.
- The tree of the `files` entry is an input reply. The model does not tie it to that entry's `sha`.
- The concurrency limits of `async.eachLimit` (4 and 8) are not modelled. Only the arbitrary order in which events take effect is kept.
- A missing `files` entry crashes the source with a `TypeError` (lines 134-136). It is modelled as the error `MissingFilesDir`.
- CatalogBuilder.Value: a parsed INI value is text, a flag, or a section of text values. Arrays, `null`, nested sections and non-text values inside sections, all of which `ini.parse` can return, are not modelled. `Merge` treats values as opaque, so no proof depends on their shape.
- Parsed metadata with the keys `versions` or `assets` is excluded by the type `Metadata`. `extend` would replace the record's arrays with INI values, and the later behaviour depends on JavaScript coercions.
- Names that are properties of `Object.prototype` (the `in` quirk) are not modelled. This covers library names (lines 46, 68) and version keys (line 84). A version directory named `constructor`, for example, would make the `push` of line 88 throw. Records and asset maps are proper maps.
- The order of records and of `{version, files}` pairs is left unspecified, as in the source: `values` and `fp.each` iteration order.
- Paths without `/` are not modelled. They never reach `parse`, because the listing filter keeps only paths with `/`.
- Paths.Classify: requires the path to contain `/`. On a one-segment path the source would record an `undefined` version.
- Update.Scrape: after the first failed fetch, `async.eachLimit` starts no further iterations and ignores completions still in flight. A schedule (`IsSchedule`) still visits every listed path and lists every completion. The fold stops at the first abort, so whatever follows it never changes the result.
