/** Properties of `parse` stated over the events themselves: paths as listed and
    metadata completions in the order they arrived. */
module ParseProperties {
  import opened Wrappers
  import opened Errors
  import opened Paths
  import opened CatalogBuilder
  import opened CatalogProperties

  /** An asset path is resolved to an append to its first segment's record. */
  lemma ResolveAsset(lib: string, version: string, file: string)
    requires Sep !in lib && Sep !in version
    ensures Resolve(Visit(lib + [Sep] + version + [Sep] + file)) == AddFile(lib, version, file)
  {
    ClassifyAsset(lib, version, file);
  }

  /** A two-segment path never changes the catalog by itself: an `info.ini` only
      starts a fetch, any other name is skipped. */
  lemma ResolveTwoSegments(lib: string, name: string)
    requires Sep !in lib && Sep !in name
    ensures Resolve(Visit(lib + [Sep] + name)) == Skip
    ensures forall cat :: Apply(cat, Resolve(Visit(lib + [Sep] + name))) == Ok(cat)
  {
    ClassifyTwoSegments(lib, name);
  }

  /** Every record `parse` builds keeps distinct versions that are exactly its asset keys. */
  lemma ParseConsistent(events: seq<Event>)
    requires WellFormed(events)
    ensures Parse(events).Ok? ==> AllConsistent(Parse(events).value)
  {
    RunConsistent(map[], Resolved(events));
  }

  /** `parse` fails exactly when some metadata fetch failed, with the error of the
      first failure to arrive. */
  lemma ParseFails(events: seq<Event>)
    requires WellFormed(events)
    ensures Parse(events).Err? <==> exists i :: 0 <= i < |events| && FailedFetch(events[i])
    ensures Parse(events).Err? ==>
              exists i :: 0 <= i < |events| && FailedFetch(events[i])
                          && events[i].fetch.error == Parse(events).error
                          && forall j :: 0 <= j < i ==> !FailedFetch(events[j])
  {
    var actions := Resolved(events);
    RunFails(map[], actions);
    if Parse(events).Err? {
      var i :| 0 <= i < |actions| && actions[i] == Abort(Parse(events).error)
               && forall j :: 0 <= j < i ==> !actions[j].Abort?;
      assert FailedFetch(events[i]);
    }
    if exists i :: 0 <= i < |events| && FailedFetch(events[i]) {
      var i :| 0 <= i < |events| && FailedFetch(events[i]);
      assert actions[i].Abort?;
    }
  }

  /** The paths of one library with one version holding two files, plus its `info.ini`. */
  function AssetPath(lib: string, version: string, file: string): string
  {
    lib + [Sep] + version + [Sep] + file
  }

  function InfoPath(lib: string): string
  {
    lib + [Sep] + InfoFile
  }

  lemma AddFirst(l: Library, version: string, file: string)
    requires l.versions == [] && l.assets == map[]
    ensures AddAsset(l, version, file) == Library(l.fields, [version], map[version := [file]])
  {
    assert l.versions + [version] == [version];
    assert [] + [file] == [file];
  }

  lemma AddSecond(fields: map<string, Value>, version: string, f1: string, f2: string)
    ensures AddAsset(Library(fields, [version], map[version := [f1]]), version, f2)
            == Library(fields, [version], map[version := [f1, f2]])
  {
    assert [f1] + [f2] == [f1, f2];
    assert map[version := [f1]][version := [f1, f2]] == map[version := [f1, f2]];
  }

  /** Two files of one version folded into a record that has no versions yet. */
  lemma TwoAssets(cat: Catalog, lib: string, version: string, f1: string, f2: string)
    requires lib in cat ==> cat[lib].versions == [] && cat[lib].assets == map[]
    ensures Run(cat, [AddFile(lib, version, f1), AddFile(lib, version, f2)])
            == Ok(cat[lib := Library((if lib in cat then cat[lib] else Fresh(lib)).fields,
                                     [version], map[version := [f1, f2]])])
  {
    var base := if lib in cat then cat[lib] else Fresh(lib);
    var a1 := AddFile(lib, version, f1);
    var a2 := AddFile(lib, version, f2);
    RunPair(cat, a1, a2);
    AddFirst(base, version, f1);
    var l1 := Library(base.fields, [version], map[version := [f1]]);
    assert Apply(cat, a1) == Ok(cat[lib := l1]);
    AddSecond(base.fields, version, f1, f2);
    var l2 := Library(base.fields, [version], map[version := [f1, f2]]);
    assert Apply(cat[lib := l1], a2) == Ok(cat[lib := l1][lib := l2]);
    assert cat[lib := l1][lib := l2] == cat[lib := l2];
  }

  lemma ResolveLibrary(lib: string, version: string, f1: string, f2: string)
    requires Sep !in lib && Sep !in version
    ensures Resolve(Visit(AssetPath(lib, version, f1))) == AddFile(lib, version, f1)
    ensures Resolve(Visit(AssetPath(lib, version, f2))) == AddFile(lib, version, f2)
    ensures Resolve(Visit(InfoPath(lib))) == Skip
  {
    ResolveAsset(lib, version, f1);
    ResolveAsset(lib, version, f2);
    ResolveTwoSegments(lib, InfoFile);
  }

  /** `events` lists the two asset paths, then `lib/info.ini`, then its metadata. */
  predicate AssetsFirstOrder(events: seq<Event>, lib: string, version: string, f1: string, f2: string, meta: Metadata)
  {
    && |events| == 4
    && events[0] == Visit(AssetPath(lib, version, f1))
    && events[1] == Visit(AssetPath(lib, version, f2))
    && events[2] == Visit(InfoPath(lib))
    && events[3] == MetaArrived(lib, Parsed(meta))
  }

  /** `events` lists `lib/info.ini` and its metadata, then the two asset paths. */
  predicate MetadataFirstOrder(events: seq<Event>, lib: string, version: string, f1: string, f2: string, meta: Metadata)
  {
    && |events| == 4
    && events[0] == Visit(InfoPath(lib))
    && events[1] == MetaArrived(lib, Parsed(meta))
    && events[2] == Visit(AssetPath(lib, version, f1))
    && events[3] == Visit(AssetPath(lib, version, f2))
  }

  /** The library's paths all contain `/`. */
  lemma PathsHaveSep(lib: string, version: string, f1: string, f2: string)
    ensures Sep in AssetPath(lib, version, f1) && Sep in AssetPath(lib, version, f2) && Sep in InfoPath(lib)
  {
    assert AssetPath(lib, version, f1)[|lib|] == Sep;
    assert AssetPath(lib, version, f2)[|lib|] == Sep;
    assert InfoPath(lib)[|lib|] == Sep;
  }

  lemma AssetsFirstWellFormed(events: seq<Event>, lib: string, version: string, f1: string, f2: string, meta: Metadata)
    requires AssetsFirstOrder(events, lib, version, f1, f2, meta)
    ensures WellFormed(events)
  {
    PathsHaveSep(lib, version, f1, f2);
  }

  lemma MetadataFirstWellFormed(events: seq<Event>, lib: string, version: string, f1: string, f2: string, meta: Metadata)
    requires MetadataFirstOrder(events, lib, version, f1, f2, meta)
    ensures WellFormed(events)
  {
    PathsHaveSep(lib, version, f1, f2);
  }

  /** Resolving four events one by one. */
  lemma ResolvedFour(events: seq<Event>)
    requires |events| == 4 && WellFormed(events)
    ensures Resolved(events) == [Resolve(events[0]), Resolve(events[1]), Resolve(events[2]), Resolve(events[3])]
  {
  }

  lemma AssetsFirstResolved(events: seq<Event>, lib: string, version: string, f1: string, f2: string, meta: Metadata)
    requires Sep !in lib && Sep !in version
    requires AssetsFirstOrder(events, lib, version, f1, f2, meta) && WellFormed(events)
    ensures Resolved(events) == [AddFile(lib, version, f1), AddFile(lib, version, f2), Skip, MergeMeta(lib, meta)]
  {
    ResolveLibrary(lib, version, f1, f2);
    ResolvedFour(events);
  }

  lemma MetadataFirstResolved(events: seq<Event>, lib: string, version: string, f1: string, f2: string, meta: Metadata)
    requires Sep !in lib && Sep !in version
    requires MetadataFirstOrder(events, lib, version, f1, f2, meta) && WellFormed(events)
    ensures Resolved(events) == [Skip, MergeMeta(lib, meta), AddFile(lib, version, f1), AddFile(lib, version, f2)]
  {
    ResolveLibrary(lib, version, f1, f2);
    ResolvedFour(events);
  }

  lemma AssetsFirstRun(lib: string, version: string, f1: string, f2: string, meta: Metadata)
    ensures Run(map[], [AddFile(lib, version, f1), AddFile(lib, version, f2), Skip, MergeMeta(lib, meta)])
            == Ok(map[lib := Library(map[NameKey := Text(lib)] + meta, [version], map[version := [f1, f2]])])
  {
    var a1 := AddFile(lib, version, f1);
    var a2 := AddFile(lib, version, f2);
    var a4 := MergeMeta(lib, meta);
    assert [a1, a2, Skip, a4] == [a1, a2] + [Skip, a4];
    RunAppend(map[], [a1, a2], [Skip, a4]);
    TwoAssets(map[], lib, version, f1, f2);
    var c := map[lib := Library(map[NameKey := Text(lib)], [version], map[version := [f1, f2]])];
    RunPair(c, Skip, a4);
    var merged := Library(map[NameKey := Text(lib)] + meta, [version], map[version := [f1, f2]]);
    assert Merge(c[lib], meta) == merged;
    assert c[lib := merged] == map[lib := merged];
  }

  lemma MetadataFirstRun(lib: string, version: string, f1: string, f2: string, meta: Metadata)
    ensures Run(map[], [Skip, MergeMeta(lib, meta), AddFile(lib, version, f1), AddFile(lib, version, f2)])
            == Ok(map[lib := Library(map[NameKey := Text(lib), ZipKey := Text(lib + ".zip")] + meta,
                                     [version], map[version := [f1, f2]])])
  {
    var a2 := MergeMeta(lib, meta);
    var a3 := AddFile(lib, version, f1);
    var a4 := AddFile(lib, version, f2);
    assert [Skip, a2, a3, a4] == [Skip, a2] + [a3, a4];
    RunAppend(map[], [Skip, a2], [a3, a4]);
    RunPair(map[], Skip, a2);
    var c := map[lib := Library(map[NameKey := Text(lib), ZipKey := Text(lib + ".zip")] + meta, [], map[])];
    assert Apply(map[], a2).value == c;
    TwoAssets(c, lib, version, f1, f2);
    var done := Library(c[lib].fields, [version], map[version := [f1, f2]]);
    assert c[lib := done] == map[lib := done];
  }

  /** The listing order `lib/version/...` before `lib/info.ini` (the order of a git
      tree whose version directories sort before `info.ini`), with the metadata
      arriving last: the record is created by an asset path, so it has a `zip`
      only if the parsed metadata sets one, and parsed keys such as `name`
      overwrite the record's own. */
  lemma AssetsFirst(events: seq<Event>, lib: string, version: string, f1: string, f2: string, meta: Metadata)
    requires Sep !in lib && Sep !in version
    requires AssetsFirstOrder(events, lib, version, f1, f2, meta)
    ensures WellFormed(events)
    ensures Parse(events)
            == Ok(map[lib := Library(map[NameKey := Text(lib)] + meta, [version], map[version := [f1, f2]])])
  {
    AssetsFirstWellFormed(events, lib, version, f1, f2, meta);
    AssetsFirstResolved(events, lib, version, f1, f2, meta);
    AssetsFirstRun(lib, version, f1, f2, meta);
  }

  /** The same files with the metadata arriving before any asset path: the record
      is created by the metadata and carries the seeded `zip` unless the metadata
      overrides it. */
  lemma MetadataFirst(events: seq<Event>, lib: string, version: string, f1: string, f2: string, meta: Metadata)
    requires Sep !in lib && Sep !in version
    requires MetadataFirstOrder(events, lib, version, f1, f2, meta)
    ensures WellFormed(events)
    ensures Parse(events)
            == Ok(map[lib := Library(map[NameKey := Text(lib), ZipKey := Text(lib + ".zip")] + meta,
                                     [version], map[version := [f1, f2]])])
  {
    MetadataFirstWellFormed(events, lib, version, f1, f2, meta);
    MetadataFirstResolved(events, lib, version, f1, f2, meta);
    MetadataFirstRun(lib, version, f1, f2, meta);
  }
}
