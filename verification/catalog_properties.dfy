/** Properties of the `parse` fold over any order of actions. */
module CatalogProperties {
  import opened Wrappers
  import opened Errors
  import opened Sequences
  import opened CatalogBuilder

  /** Every library some action creates or changes. */
  function Libs(actions: seq<Action>): set<string>
  {
    if |actions| == 0 then {} else Targets(actions[0]) + Libs(actions[1..])
  }

  /** The file names the asset actions add to `version` of `lib`, in order. */
  function AssetFiles(actions: seq<Action>, lib: string, version: string): seq<string>
  {
    if |actions| == 0 then []
    else
      var a := actions[0];
      (if AddsTo(a, lib, version) then [a.file] else []) + AssetFiles(actions[1..], lib, version)
  }

  /** The first action that targets `lib` is a metadata merge. */
  function SeededFirst(actions: seq<Action>, lib: string): bool
  {
    if |actions| == 0 then false
    else if lib in Targets(actions[0]) then actions[0].MergeMeta?
    else SeededFirst(actions[1..], lib)
  }

  /** Some metadata merge for `lib` carries a `zip` key. */
  function ZipInMetadata(actions: seq<Action>, lib: string): bool
  {
    if |actions| == 0 then false
    else
      var a := actions[0];
      (a.MergeMeta? && a.lib == lib && ZipKey in a.meta) || ZipInMetadata(actions[1..], lib)
  }

  /** The record invariant holds of every catalog the fold produces. */
  lemma {:induction false} RunConsistent(cat: Catalog, actions: seq<Action>)
    requires AllConsistent(cat)
    ensures Run(cat, actions).Ok? ==> AllConsistent(Run(cat, actions).value)
    decreases |actions|
  {
    if |actions| > 0 {
      var s := Apply(cat, actions[0]);
      if s.Ok? {
        RunConsistent(s.value, actions[1..]);
      }
    }
  }

  /** Records exist exactly for the libraries the actions target; every other
      record is left as it was: each path goes to one library only. */
  lemma {:induction false} RunFrame(cat: Catalog, actions: seq<Action>)
    ensures Run(cat, actions).Ok? ==> Run(cat, actions).value.Keys == cat.Keys + Libs(actions)
    ensures Run(cat, actions).Ok? ==>
              forall lib :: lib in cat && lib !in Libs(actions) ==> Run(cat, actions).value[lib] == cat[lib]
    decreases |actions|
  {
    if |actions| > 0 {
      var s := Apply(cat, actions[0]);
      if s.Ok? {
        RunFrame(s.value, actions[1..]);
      }
    }
  }

  /** The file list of every version is the old list followed by the files of
      the asset actions for that library and version, in fold order. */
  lemma {:induction false} RunFiles(cat: Catalog, actions: seq<Action>, lib: string, version: string)
    ensures Run(cat, actions).Ok? ==>
              FilesOf(Run(cat, actions).value, lib, version)
              == FilesOf(cat, lib, version) + AssetFiles(actions, lib, version)
    decreases |actions|
  {
    if |actions| > 0 {
      var a := actions[0];
      var s := Apply(cat, a);
      if s.Ok? {
        RunFiles(s.value, actions[1..], lib, version);
        ApplyFiles(cat, a, lib, version);
        AppendAssoc(FilesOf(cat, lib, version), if AddsTo(a, lib, version) then [a.file] else [],
                    AssetFiles(actions[1..], lib, version));
      }
    }
  }

  /** `versions` only grows, and gains exactly the versions of the asset actions for the library. */
  lemma {:induction false} RunVersions(cat: Catalog, actions: seq<Action>, lib: string)
    ensures Run(cat, actions).Ok? ==> VersionsOf(cat, lib) <= VersionsOf(Run(cat, actions).value, lib)
    ensures Run(cat, actions).Ok? ==>
              forall v :: v in VersionsOf(Run(cat, actions).value, lib)
                          <==> v in VersionsOf(cat, lib) || |AssetFiles(actions, lib, v)| > 0
    decreases |actions|
  {
    if |actions| > 0 {
      var s := Apply(cat, actions[0]);
      if s.Ok? {
        RunVersions(s.value, actions[1..], lib);
        ApplyVersions(cat, actions[0], lib);
        forall v ensures |AssetFiles(actions, lib, v)| > 0 <==> AddsTo(actions[0], lib, v) || |AssetFiles(actions[1..], lib, v)| > 0 {
          AssetFilesHead(actions, lib, v);
        }
      }
    }
  }

  /** One unfolding of `AssetFiles`, as a membership fact. */
  lemma AssetFilesHead(actions: seq<Action>, lib: string, version: string)
    requires |actions| > 0
    ensures |AssetFiles(actions, lib, version)| > 0 <==>
              AddsTo(actions[0], lib, version) || |AssetFiles(actions[1..], lib, version)| > 0
  {
  }

  /** The fold fails exactly when some action aborts, and then with the error of
      the first abort; no catalog is produced. */
  lemma {:induction false} RunFails(cat: Catalog, actions: seq<Action>)
    ensures Run(cat, actions).Err? <==> exists i :: 0 <= i < |actions| && actions[i].Abort?
    ensures Run(cat, actions).Err? ==>
              exists i :: 0 <= i < |actions| && actions[i] == Abort(Run(cat, actions).error)
                          && forall j :: 0 <= j < i ==> !actions[j].Abort?
    decreases |actions|
  {
    if |actions| > 0 {
      var s := Apply(cat, actions[0]);
      if s.Ok? {
        var rest := actions[1..];
        RunFails(s.value, rest);
        if exists i :: 0 <= i < |actions| && actions[i].Abort? {
          var i :| 0 <= i < |actions| && actions[i].Abort?;
          assert rest[i - 1] == actions[i];
        }
        if Run(cat, actions).Err? {
          var i :| 0 <= i < |rest| && rest[i] == Abort(Run(cat, actions).error)
                   && forall j :: 0 <= j < i ==> !rest[j].Abort?;
          assert actions[i + 1] == rest[i];
          forall j | 0 < j < i + 1 ensures !actions[j].Abort? {
            assert actions[j] == rest[j - 1];
          }
        }
      }
    }
  }

  /** A record carries `zip` exactly when it already had one, or was created by a
      metadata merge rather than by an asset action, or some merged metadata for
      it sets `zip`. */
  lemma {:induction false} RunZip(cat: Catalog, actions: seq<Action>, lib: string)
    requires Run(cat, actions).Ok? && lib in Run(cat, actions).value
    ensures ZipKey in Run(cat, actions).value[lib].fields <==>
              (if lib in cat then ZipKey in cat[lib].fields else SeededFirst(actions, lib))
              || ZipInMetadata(actions, lib)
    decreases |actions|
  {
    if |actions| > 0 {
      var s := Apply(cat, actions[0]);
      RunZip(s.value, actions[1..], lib);
    }
  }

  /** The record an action leaves at its own library depends only on the record
      that was there before. */
  lemma ApplyLocal(c: Catalog, d: Catalog, a: Action)
    requires a.AddFile? || a.MergeMeta?
    requires (a.lib in c <==> a.lib in d) && (a.lib in c ==> c[a.lib] == d[a.lib])
    ensures Apply(c, a).value[a.lib] == Apply(d, a).value[a.lib]
  {
  }

  /** Folding two actions is applying one after the other. */
  lemma RunPair(cat: Catalog, a: Action, b: Action)
    ensures Run(cat, [a, b]) == if Apply(cat, a).Err? then Apply(cat, a) else Apply(Apply(cat, a).value, b)
  {
    assert [a, b][1..] == [b];
    assert [b][1..] == [];
    if Apply(cat, a).Ok? {
      var c1 := Apply(cat, a).value;
      if Apply(c1, b).Ok? {
        assert Run(Apply(c1, b).value, []) == Apply(c1, b);
      }
      assert Run(c1, [b]) == Apply(c1, b);
    }
  }

  /** An asset or metadata action replaces the record at its own library only. */
  lemma ApplyPut(cat: Catalog, a: Action)
    requires a.AddFile? || a.MergeMeta?
    ensures Apply(cat, a).Ok?
    ensures Apply(cat, a).value == cat[a.lib := Apply(cat, a).value[a.lib]]
  {
  }

  /** Two successful actions on different libraries commute. */
  lemma ApplySwap(cat: Catalog, a: Action, b: Action)
    requires a.AddFile? || a.MergeMeta?
    requires b.AddFile? || b.MergeMeta?
    requires a.lib != b.lib
    ensures Apply(Apply(cat, a).value, b) == Apply(Apply(cat, b).value, a)
  {
    var c1 := Apply(cat, a).value;
    var d1 := Apply(cat, b).value;
    ApplyPut(cat, a);
    ApplyPut(cat, b);
    ApplyPut(c1, b);
    ApplyPut(d1, a);
    ApplyLocal(cat, d1, a);
    ApplyLocal(c1, cat, b);
    var x := c1[a.lib];
    var y := d1[b.lib];
    assert Apply(c1, b).value == cat[a.lib := x][b.lib := y];
    assert Apply(d1, a).value == cat[b.lib := y][a.lib := x];
    PutsCommute(cat, a.lib, x, b.lib, y);
  }

  lemma PutsCommute(m: Catalog, k: string, x: Library, l: string, y: Library)
    requires k != l
    ensures m[k := x][l := y] == m[l := y][k := x]
  {
    var p := m[k := x][l := y];
    var q := m[l := y][k := x];
    assert p.Keys == q.Keys;
    assert forall key :: key in p ==> p[key] == q[key];
  }

  /** Applying two actions that target different libraries (and do not both abort)
      in either order gives the same outcome. */
  lemma ApplyCommutes(cat: Catalog, a: Action, b: Action)
    requires Targets(a) !! Targets(b)
    requires !(a.Abort? && b.Abort?)
    ensures Run(cat, [a, b]) == Run(cat, [b, a])
  {
    RunPair(cat, a, b);
    RunPair(cat, b, a);
    if !a.Abort? && !b.Abort? && !a.Skip? && !b.Skip? {
      ApplySwap(cat, a, b);
    }
  }

  /** Folding a concatenation folds the first part, then the second from its result. */
  lemma {:induction false} RunAppend(cat: Catalog, xs: seq<Action>, ys: seq<Action>)
    ensures Run(cat, xs + ys) == if Run(cat, xs).Err? then Run(cat, xs) else Run(Run(cat, xs).value, ys)
    decreases |xs|
  {
    if |xs| == 0 {
      assert xs + ys == ys;
    } else {
      assert (xs + ys)[1..] == xs[1..] + ys;
      var s := Apply(cat, xs[0]);
      if s.Ok? {
        RunAppend(s.value, xs[1..], ys);
      }
    }
  }

  /** Swapping two adjacent actions that target different libraries (and do not
      both abort) anywhere in the sequence does not change the outcome. */
  lemma RunSwap(cat: Catalog, pre: seq<Action>, a: Action, b: Action, post: seq<Action>)
    requires Targets(a) !! Targets(b)
    requires !(a.Abort? && b.Abort?)
    ensures Run(cat, pre + [a, b] + post) == Run(cat, pre + [b, a] + post)
  {
    assert pre + [a, b] + post == pre + ([a, b] + post);
    assert pre + [b, a] + post == pre + ([b, a] + post);
    RunAppend(cat, pre, [a, b] + post);
    RunAppend(cat, pre, [b, a] + post);
    if Run(cat, pre).Ok? {
      var c := Run(cat, pre).value;
      RunAppend(c, [a, b], post);
      RunAppend(c, [b, a], post);
      ApplyCommutes(c, a, b);
    }
  }
}
