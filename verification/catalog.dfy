/** The catalog fold of `parse` (tasks/jsdelivr.js:30-95). The asynchronous
    iteration is modelled as a sequential fold over events in the order in which
    they took effect: a path visited by the iterator, or a metadata fetch that
    completed. */
module CatalogBuilder {
  import opened Wrappers
  import opened Errors
  import opened Paths

  const NameKey: string := "name"
  const ZipKey: string := "zip"
  const VersionsKey: string := "versions"
  const AssetsKey: string := "assets"

  /** A value produced by the INI parser. */
  datatype Value = Text(s: string) | Flag(b: bool) | Section(entries: map<string, string>)

  /** The parsed key/value pairs of one `info.ini`. Keys that would overwrite the
      record's `versions` or `assets` arrays are not part of this model. */
  type Metadata = m: map<string, Value> | VersionsKey !in m && AssetsKey !in m witness map[]

  /** One library record: `versions`, the `version -> files` map and every other
      property (`name`, `zip`, merged metadata) in `fields`. */
  datatype Library = Library(fields: map<string, Value>, versions: seq<string>, assets: map<string, seq<string>>)

  /** `ret`: records keyed by the first path segment. */
  type Catalog = map<string, Library>

  /** The outcome of `parseIni` for one `info.ini`. */
  datatype Fetch = Parsed(meta: Metadata) | FetchFailed(error: Error)

  datatype Event =
    | Visit(path: string)                   // the iterator reaches one path of the listing
    | MetaArrived(lib: string, fetch: Fetch) // the metadata fetch for `lib/info.ini` completes

  predicate NoDup(s: seq<string>)
  {
    forall i, j :: 0 <= i < j < |s| ==> s[i] != s[j]
  }

  /** The record invariant: versions are distinct and are exactly the asset keys. */
  predicate Consistent(l: Library)
  {
    && NoDup(l.versions)
    && (forall v :: v in l.versions ==> v in l.assets)
    && (forall v :: v in l.assets ==> v in l.versions)
  }

  predicate AllConsistent(cat: Catalog)
  {
    forall lib :: lib in cat ==> Consistent(cat[lib])
  }

  /** Paths fed to `parse` all contain `/` (they come from the listing filter). */
  predicate WellFormed(events: seq<Event>)
  {
    forall i :: 0 <= i < |events| ==> (events[i].Visit? ==> Sep in events[i].path)
  }

  /** The files recorded so far for `version` of `lib`. */
  function FilesOf(cat: Catalog, lib: string, version: string): seq<string>
  {
    if lib in cat && version in cat[lib].assets then cat[lib].assets[version] else []
  }

  function VersionsOf(cat: Catalog, lib: string): seq<string>
  {
    if lib in cat then cat[lib].versions else []
  }

  /** The record an asset path creates (lines 68-74): no `zip`. */
  function Fresh(lib: string): Library
  {
    Library(map[NameKey := Text(lib)], [], map[])
  }

  /** The record a metadata completion creates (lines 46-53): `zip` seeded. */
  function Seeded(lib: string): Library
  {
    Library(map[NameKey := Text(lib), ZipKey := Text(lib + ".zip")], [], map[])
  }

  /** Lines 78-88: record `version` once and append `file` to its list. */
  function AddAsset(l: Library, version: string, file: string): Library
  {
    var versions := if version in l.versions then l.versions else l.versions + [version];
    var files := if version in l.assets then l.assets[version] else [];
    Library(l.fields, versions, l.assets[version := files + [file]])
  }

  /** `versions` gains `version` only if it is new; the version's file list grows by
      exactly `file`; nothing else in the record changes. */
  lemma AddAssetSpec(l: Library, version: string, file: string)
    ensures var r := AddAsset(l, version, file);
      && r.fields == l.fields
      && l.versions <= r.versions && version in r.versions
      && (forall v :: v in r.versions <==> v in l.versions || v == version)
      && (version in l.versions ==> r.versions == l.versions)
      && (NoDup(l.versions) ==> NoDup(r.versions))
      && r.assets.Keys == l.assets.Keys + {version}
      && (version in l.assets ==> r.assets[version] == l.assets[version] + [file])
      && (version !in l.assets ==> r.assets[version] == [file])
      && (forall v :: v in l.assets && v != version ==> r.assets[v] == l.assets[v])
      && (Consistent(l) ==> Consistent(r))
  {
  }

  /** `extend(record, parsed)` (line 55): a shallow overwrite of the record's properties. */
  function Merge(l: Library, meta: Metadata): Library
  {
    l.(fields := l.fields + meta)
  }

  /** Every parsed key wins, every other property is kept, `versions` and `assets` are untouched. */
  lemma MergeSpec(l: Library, meta: Metadata)
    ensures var r := Merge(l, meta);
      && r.versions == l.versions && r.assets == l.assets
      && r.fields.Keys == l.fields.Keys + meta.Keys
      && (forall k :: k in meta ==> r.fields[k] == meta[k])
      && (forall k :: k in l.fields && k !in meta ==> r.fields[k] == l.fields[k])
  {
  }

  /** Folding the asset path `lib/version/file` (lines 63-88). */
  function AssetStep(cat: Catalog, lib: string, version: string, file: string): Catalog
  {
    var l := if lib in cat then cat[lib] else Fresh(lib);
    cat[lib := AddAsset(l, version, file)]
  }

  /** An asset path creates its library's record without `zip` if it is new, adds
      its version at most once and its file exactly once, and changes no other record. */
  lemma AssetStepSpec(cat: Catalog, lib: string, version: string, file: string)
    ensures var r := AssetStep(cat, lib, version, file);
      && r.Keys == cat.Keys + {lib}
      && (forall other :: other in cat && other != lib ==> r[other] == cat[other])
      && (lib in cat ==> r[lib].fields == cat[lib].fields)
      && (lib !in cat ==> r[lib].fields == map[NameKey := Text(lib)])
      && VersionsOf(cat, lib) <= r[lib].versions
      && (forall v :: v in r[lib].versions <==> v in VersionsOf(cat, lib) || v == version)
      && FilesOf(r, lib, version) == FilesOf(cat, lib, version) + [file]
      && (forall v :: v != version ==> FilesOf(r, lib, v) == FilesOf(cat, lib, v))
      && (AllConsistent(cat) ==> AllConsistent(r))
  {
    var l := if lib in cat then cat[lib] else Fresh(lib);
    AddAssetSpec(l, version, file);
  }

  /** A successful metadata completion for `lib` (lines 46-57). */
  function MetaStep(cat: Catalog, lib: string, meta: Metadata): Catalog
  {
    var l := if lib in cat then cat[lib] else Seeded(lib);
    cat[lib := Merge(l, meta)]
  }

  /** A metadata completion creates `{name, versions: [], assets: {}, zip}` if the
      library is new, then overwrites with every parsed key; no other record and no
      version or file changes. */
  lemma MetaStepSpec(cat: Catalog, lib: string, meta: Metadata)
    ensures var r := MetaStep(cat, lib, meta);
      && r.Keys == cat.Keys + {lib}
      && (forall other :: other in cat && other != lib ==> r[other] == cat[other])
      && r[lib].versions == VersionsOf(cat, lib)
      && (forall v :: FilesOf(r, lib, v) == FilesOf(cat, lib, v))
      && (forall k :: k in meta ==> k in r[lib].fields && r[lib].fields[k] == meta[k])
      && (lib in cat ==>
            && r[lib].fields.Keys == cat[lib].fields.Keys + meta.Keys
            && forall k :: k in cat[lib].fields && k !in meta ==> r[lib].fields[k] == cat[lib].fields[k])
      && (lib !in cat ==>
            && r[lib].fields.Keys == {NameKey, ZipKey} + meta.Keys
            && (NameKey !in meta ==> r[lib].fields[NameKey] == Text(lib))
            && (ZipKey !in meta ==> r[lib].fields[ZipKey] == Text(lib + ".zip"))
            && r[lib].assets == map[])
      && (AllConsistent(cat) ==> AllConsistent(r))
  {
    var l := if lib in cat then cat[lib] else Seeded(lib);
    MergeSpec(l, meta);
  }

  /** What one event does to the catalog, once its path has been classified. */
  datatype Action =
    | AddFile(lib: string, version: string, file: string) // an asset path
    | MergeMeta(lib: string, meta: Metadata)              // a metadata fetch that succeeded
    | Abort(error: Error)                                 // a metadata fetch that failed
    | Skip                                                // an `info.ini` path or a stray two-segment path

  predicate FailedFetch(e: Event)
  {
    e.MetaArrived? && e.fetch.FetchFailed?
  }

  /** The classification of an event (lines 35-44, 61-66). */
  function Resolve(e: Event): (a: Action)
    requires e.Visit? ==> Sep in e.path
    ensures a.AddFile? ==>
              && e.Visit?
              && e.path == a.lib + [Sep] + a.version + [Sep] + a.file
              && Sep !in a.lib && Sep !in a.version
    ensures a.MergeMeta? ==> e == MetaArrived(a.lib, Parsed(a.meta))
    ensures a.Abort? <==> FailedFetch(e)
    ensures a.Abort? ==> a.error == e.fetch.error
    ensures a.Skip? <==> e.Visit? && !Classify(e.path).AssetRef?
  {
    match e
    case Visit(path) =>
      (match Classify(path)
       case AssetRef(lib, version, file) => AddFile(lib, version, file)
       case _ => Skip)
    case MetaArrived(lib, fetch) =>
      (match fetch
       case FetchFailed(err) => Abort(err)
       case Parsed(meta) => MergeMeta(lib, meta))
  }

  function Resolved(events: seq<Event>): (actions: seq<Action>)
    requires WellFormed(events)
    ensures |actions| == |events|
    ensures forall i :: 0 <= i < |events| ==> actions[i] == Resolve(events[i])
  {
    seq(|events|, i requires 0 <= i < |events| => Resolve(events[i]))
  }

  /** The library whose record the action creates or changes, if any. */
  function Targets(a: Action): set<string>
  {
    match a
    case AddFile(lib, _, _) => {lib}
    case MergeMeta(lib, _) => {lib}
    case _ => {}
  }

  /** One action; a failed metadata fetch aborts with its error (lines 42-44, 91-94). */
  function Apply(cat: Catalog, a: Action): Result<Catalog, Error>
  {
    match a
    case AddFile(lib, version, file) => Ok(AssetStep(cat, lib, version, file))
    case MergeMeta(lib, meta) => Ok(MetaStep(cat, lib, meta))
    case Abort(err) => Err(err)
    case Skip => Ok(cat)
  }

  /** One action changes at most the record of its target library; only an abort fails. */
  lemma ApplySpec(cat: Catalog, a: Action)
    ensures Apply(cat, a).Err? <==> a.Abort?
    ensures Apply(cat, a).Ok? ==> Apply(cat, a).value.Keys == cat.Keys + Targets(a)
    ensures Apply(cat, a).Ok? ==>
              forall lib :: lib in cat && lib !in Targets(a) ==> Apply(cat, a).value[lib] == cat[lib]
    ensures Apply(cat, a).Ok? && AllConsistent(cat) ==> AllConsistent(Apply(cat, a).value)
  {
    match a
    case AddFile(lib, version, file) => AssetStepSpec(cat, lib, version, file);
    case MergeMeta(lib, meta) => MetaStepSpec(cat, lib, meta);
    case _ =>
  }

  /** Whether `a` appends a file to `version` of `lib`. */
  predicate AddsTo(a: Action, lib: string, version: string)
  {
    a.AddFile? && a.lib == lib && a.version == version
  }

  /** One action appends to at most one version's file list, and only its own file. */
  lemma ApplyFiles(cat: Catalog, a: Action, lib: string, version: string)
    ensures Apply(cat, a).Ok? ==>
              FilesOf(Apply(cat, a).value, lib, version)
              == FilesOf(cat, lib, version) + (if AddsTo(a, lib, version) then [a.file] else [])
  {
    match a
    case AddFile(l, v, f) =>
      AssetStepSpec(cat, l, v, f);
      if l != lib {
        assert FilesOf(Apply(cat, a).value, lib, version) == FilesOf(cat, lib, version);
      }
    case MergeMeta(l, meta) =>
      MetaStepSpec(cat, l, meta);
      if l != lib {
        assert FilesOf(Apply(cat, a).value, lib, version) == FilesOf(cat, lib, version);
      }
    case _ =>
  }

  /** One action adds at most its own version to its own library's `versions`. */
  lemma ApplyVersions(cat: Catalog, a: Action, lib: string)
    ensures Apply(cat, a).Ok? ==> VersionsOf(cat, lib) <= VersionsOf(Apply(cat, a).value, lib)
    ensures Apply(cat, a).Ok? ==>
              forall v :: v in VersionsOf(Apply(cat, a).value, lib) <==> v in VersionsOf(cat, lib) || AddsTo(a, lib, v)
  {
    match a
    case AddFile(l, v, f) =>
      AssetStepSpec(cat, l, v, f);
      if l != lib {
        assert VersionsOf(Apply(cat, a).value, lib) == VersionsOf(cat, lib);
      }
    case MergeMeta(l, meta) =>
      MetaStepSpec(cat, l, meta);
      if l != lib {
        assert VersionsOf(Apply(cat, a).value, lib) == VersionsOf(cat, lib);
      }
    case _ =>
  }

  /** The `async.eachLimit` loop as a fold: actions in order, stopping at the first failure. */
  function Run(cat: Catalog, actions: seq<Action>): Result<Catalog, Error>
    decreases |actions|
  {
    if |actions| == 0 then Ok(cat)
    else
      match Apply(cat, actions[0])
      case Err(e) => Err(e)
      case Ok(next) => Run(next, actions[1..])
  }

  /** `parse` up to the final conversion: the catalog built from an empty `ret`. */
  function Parse(events: seq<Event>): Result<Catalog, Error>
    requires WellFormed(events)
  {
    Run(map[], Resolved(events))
  }
}
