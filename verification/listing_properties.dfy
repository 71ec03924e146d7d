/** Properties of `getFiles`: which paths come out, and which subtrees are dropped. */
module ListingProperties {
  import opened Wrappers
  import opened Errors
  import opened Sequences
  import opened Paths
  import opened Listing

  /** The completion lists `p` among its regular files, prefixed with its directory. */
  ghost predicate Yields(c: Completion, p: string)
  {
    && c.reply.Ok? && c.reply.value.Some?
    && exists t :: t in c.reply.value.value && IsFile(t) && p == c.dir.path + [Sep] + t.path
  }

  lemma {:induction false} GatheredAppend(xs: seq<Completion>, ys: seq<Completion>)
    ensures Gathered(xs + ys) == Gathered(xs) + Gathered(ys)
    decreases |xs|
  {
    if |xs| == 0 {
      assert xs + ys == ys;
    } else {
      assert (xs + ys)[1..] == xs[1..] + ys;
      GatheredAppend(xs[1..], ys);
    }
  }

  /** A subtree whose fetch failed, or whose reply has no `tree`, is skipped
      without an error: the result is as if it had never been listed. */
  lemma DroppedSubtree(before: seq<Completion>, c: Completion, after: seq<Completion>)
    requires c.reply.Err? || c.reply.value.None?
    ensures Gathered(before + [c] + after) == Gathered(before + after)
  {
    GatheredAppend(before + [c], after);
    GatheredAppend(before, [c]);
    GatheredAppend(before, after);
    GatheredNothing(c);
    AppendEmpty(Gathered(before));
  }

  /** A dropped subtree alone gathers nothing. */
  lemma GatheredNothing(c: Completion)
    requires c.reply.Err? || c.reply.value.None?
    ensures Gathered([c]) == []
  {
    assert [c][1..] == [];
  }

  lemma {:induction false} GatheredMember(cs: seq<Completion>, e: TreeEntry)
    ensures e in Gathered(cs) <==> exists c :: c in cs && e in Contribution(c)
    decreases |cs|
  {
    if |cs| > 0 {
      GatheredMember(cs[1..], e);
      assert forall c :: c in cs <==> c == cs[0] || c in cs[1..];
    }
  }

  lemma ContributionMember(c: Completion, e: TreeEntry)
    ensures e in Contribution(c) <==>
              && c.reply.Ok? && c.reply.value.Some?
              && exists t :: t in c.reply.value.value && e == t.(path := c.dir.path + [Sep] + t.path)
  {
    if c.reply.Ok? && c.reply.value.Some? {
      var tree := c.reply.value.value;
      var ps := Prefixed(c.dir, tree);
      if e in ps {
        var i :| 0 <= i < |ps| && ps[i] == e;
        assert tree[i] in tree;
      }
      if exists t :: t in tree && e == t.(path := c.dir.path + [Sep] + t.path) {
        var t :| t in tree && e == t.(path := c.dir.path + [Sep] + t.path);
        var i :| 0 <= i < |tree| && tree[i] == t;
        assert ps[i] == e;
      }
    }
  }

  lemma PrefixedHasSep(dir: string, path: string)
    ensures Sep in dir + [Sep] + path
  {
    assert (dir + [Sep] + path)[|dir|] == Sep;
  }

  /** Every gathered path has a `/`: the `contains('/')` filter of line 180 never
      drops an entry. */
  lemma GatheredHaveSep(cs: seq<Completion>)
    ensures forall e :: e in Gathered(cs) ==> Sep in e.path
  {
    forall e | e in Gathered(cs) ensures Sep in e.path {
      GatheredMember(cs, e);
      var c :| c in cs && e in Contribution(c);
      ContributionMember(c, e);
      var t :| t in c.reply.value.value && e == t.(path := c.dir.path + [Sep] + t.path);
      PrefixedHasSep(c.dir.path, t.path);
    }
  }

  /** The filter of lines 178-180 works entry by entry: the paths kept from a
      concatenation are those kept from each part, in order. */
  lemma {:induction false} KeepFilesAppend(xs: seq<TreeEntry>, ys: seq<TreeEntry>)
    ensures KeepFiles(xs + ys) == KeepFiles(xs) + KeepFiles(ys)
    decreases |xs|
  {
    if |xs| == 0 {
      assert xs + ys == ys;
    } else {
      assert (xs + ys)[1..] == xs[1..] + ys;
      KeepFilesAppend(xs[1..], ys);
      AppendAssoc(KeepFiles([xs[0]]), KeepFiles(xs[1..]), KeepFiles(ys));
      KeepFilesCons(xs[0], xs[1..]);
      KeepFilesCons(xs[0], xs[1..] + ys);
    }
  }

  lemma KeepFilesCons(e: TreeEntry, rest: seq<TreeEntry>)
    ensures KeepFiles([e] + rest) == KeepFiles([e]) + KeepFiles(rest)
  {
    assert ([e] + rest)[1..] == rest;
    assert [e][1..] == [];
  }

  /** One entry yields its path exactly when it is a regular file whose path has a `/`. */
  lemma KeepFilesOne(e: TreeEntry)
    ensures KeepFiles([e]) == if IsFile(e) && Sep in e.path then [e.path] else []
  {
    assert [e][1..] == [];
  }

  /** The filter does not deduplicate: two matching entries with the same path
      give that path twice. */
  lemma KeepsDuplicates(e: TreeEntry)
    requires IsFile(e) && Sep in e.path
    ensures KeepFiles([e, e]) == [e.path, e.path]
  {
    assert [e, e] == [e] + [e];
    KeepFilesAppend([e], [e]);
    KeepFilesOne(e);
  }

  /** A listing that succeeded returns exactly the regular files of the subtrees
      that were listed, each prefixed with its directory's path. */
  lemma GetFilesPaths(content: Reply<seq<ContentEntry>>, root: TreeReply, cs: seq<Completion>)
    requires Descends(root, cs)
    requires GetFiles(content, root, cs).Ok?
    ensures forall p :: p in GetFiles(content, root, cs).value <==> exists c :: c in cs && Yields(c, p)
  {
    var files := GetFiles(content, root, cs).value;
    GatheredHaveSep(cs);
    forall p ensures p in files <==> exists c :: c in cs && Yields(c, p) {
      if p in files {
        var e :| e in Gathered(cs) && IsFile(e) && Sep in e.path && e.path == p;
        GatheredMember(cs, e);
        var c :| c in cs && e in Contribution(c);
        ContributionMember(c, e);
        var t :| t in c.reply.value.value && e == t.(path := c.dir.path + [Sep] + t.path);
        assert IsFile(t) && Yields(c, p);
      }
      if exists c :: c in cs && Yields(c, p) {
        var c :| c in cs && Yields(c, p);
        var t :| t in c.reply.value.value && IsFile(t) && p == c.dir.path + [Sep] + t.path;
        var e := t.(path := c.dir.path + [Sep] + t.path);
        ContributionMember(c, e);
        GatheredMember(cs, e);
        PrefixedHasSep(c.dir.path, t.path);
      }
    }
  }

  /** When every directory is listed exactly once, each completion is the listing
      of a `040` entry of the `files` tree, and each such entry has a completion. */
  lemma DescendedDirs(cs: seq<Completion>, tree: seq<TreeEntry>)
    requires DescendsExactly(cs, tree)
    ensures forall c :: c in cs ==> IsDir(c.dir) && c.dir in tree
    ensures forall d :: d in tree && IsDir(d) ==> exists c :: c in cs && c.dir == d
  {
    var dirs := DirsOf(cs);
    forall c | c in cs ensures IsDir(c.dir) && c.dir in tree {
      var i :| 0 <= i < |cs| && cs[i] == c;
      assert dirs[i] == c.dir;
      assert multiset(dirs)[c.dir] > 0;
    }
    forall d | d in tree && IsDir(d) ensures exists c :: c in cs && c.dir == d {
      assert multiset(Dirs(tree))[d] > 0;
      assert d in dirs;
      var i :| 0 <= i < |dirs| && dirs[i] == d;
      assert cs[i] in cs;
    }
  }

  /** Every path `getFiles` returns is `dir.path + '/' + entry.path` for a `100`
      entry of the listing of a `040` directory of the `files` tree, and all of
      them are returned. */
  lemma GetFilesSound(content: Reply<seq<ContentEntry>>, root: TreeReply, cs: seq<Completion>)
    requires root.Ok? && root.value.Some? && DescendsExactly(cs, root.value.value)
    requires GetFiles(content, root, cs).Ok?
    ensures forall p :: p in GetFiles(content, root, cs).value ==>
              exists c :: c in cs && Yields(c, p) && IsDir(c.dir) && c.dir in root.value.value
    ensures forall p, c :: c in cs && Yields(c, p) ==> p in GetFiles(content, root, cs).value
    ensures forall p :: p in GetFiles(content, root, cs).value ==> Sep in p
  {
    GetFilesPaths(content, root, cs);
    DescendedDirs(cs, root.value.value);
    GatheredHaveSep(cs);
  }
}
