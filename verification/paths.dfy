/** Splitting repository paths on `/` and classifying them (tasks/jsdelivr.js, `parse`). */
module Paths {

  const Sep: char := '/'

  /** The reserved per-library metadata file name. */
  const InfoFile: string := "info.ini"

  /** What `parse` makes of one path of the flat listing. */
  datatype PathKind =
    | AssetRef(lib: string, version: string, file: string) // `lib/version/file...`
    | MetaRef(lib: string)                                 // `lib/info.ini`
    | Ignored                                              // any other two-segment path

  /** Position of the first `c` in `s`. */
  function IndexOf(s: string, c: char): (i: nat)
    requires c in s
    ensures i < |s| && s[i] == c
    ensures c !in s[..i]
  {
    if s[0] == c then 0
    else
      var j := IndexOf(s[1..], c);
      assert s[..j + 1] == [s[0]] + s[1..][..j];
      1 + j
  }

  /** `parts.join('/')`; an empty array joins to the empty string. */
  function Join(parts: seq<string>): string
  {
    if |parts| == 0 then ""
    else if |parts| == 1 then parts[0]
    else parts[0] + [Sep] + Join(parts[1..])
  }

  /** `s.split('/')`: the maximal `/`-free pieces, in order, that join back to `s`. */
  function Split(s: string): (parts: seq<string>)
    ensures |parts| >= 1
    ensures forall i :: 0 <= i < |parts| ==> Sep !in parts[i]
    ensures Join(parts) == s
    decreases |s|
  {
    if Sep !in s then [s]
    else
      var i := IndexOf(s, Sep);
      var rest := Split(s[i + 1..]);
      assert s == s[..i] + [Sep] + s[i + 1..];
      JoinCons(s[..i], rest);
      [s[..i]] + rest
  }

  lemma JoinCons(head: string, rest: seq<string>)
    requires |rest| >= 1
    ensures Join([head] + rest) == head + [Sep] + Join(rest)
  {
    assert ([head] + rest)[1..] == rest;
  }

  /** Splitting `head/tail` for a `/`-free `head` peels off exactly `head`. */
  lemma SplitCons(head: string, tail: string)
    requires Sep !in head
    ensures Split(head + [Sep] + tail) == [head] + Split(tail)
  {
    var s := head + [Sep] + tail;
    assert s[|head|] == Sep;
    IndexOfPrefix(head, tail);
    assert s[..|head|] == head;
    assert s[|head| + 1..] == tail;
  }

  lemma IndexOfPrefix(head: string, tail: string)
    requires Sep !in head
    ensures IndexOf(head + [Sep] + tail, Sep) == |head|
  {
    var s := head + [Sep] + tail;
    assert s[|head|] == Sep;
  }

  /** Split undoes Join on `/`-free pieces, so the two are inverse. */
  lemma {:induction false} SplitJoin(parts: seq<string>)
    requires |parts| >= 1
    requires forall i :: 0 <= i < |parts| ==> Sep !in parts[i]
    ensures Split(Join(parts)) == parts
    decreases |parts|
  {
    if |parts| > 1 {
      SplitJoin(parts[1..]);
      SplitCons(parts[0], Join(parts[1..]));
      assert [parts[0]] + parts[1..] == parts;
    }
  }

  /** The classification at the head of `parse`'s iterator. */
  function Classify(path: string): (k: PathKind)
    requires Sep in path
    ensures k.AssetRef? ==>
              path == k.lib + [Sep] + k.version + [Sep] + k.file && Sep !in k.lib && Sep !in k.version
    ensures k.MetaRef? ==> path == k.lib + [Sep] + InfoFile && Sep !in k.lib
    ensures k.Ignored? ==>
              var rest := path[IndexOf(path, Sep) + 1..]; Sep !in rest && rest != InfoFile
  {
    var parts := Split(path);
    SplitHead(path);
    if |parts| == 2 then
      if parts[1] == InfoFile then MetaRef(parts[0]) else Ignored
    else
      AssetRef(parts[0], parts[1], Join(parts[2..]))
  }

  /** The first two pieces of a path with a `/`, and where they sit in it. */
  lemma SplitHead(path: string)
    requires Sep in path
    ensures |Split(path)| >= 2
    ensures Sep !in Split(path)[0] && Sep !in Split(path)[1]
    ensures IndexOf(path, Sep) == |Split(path)[0]|
    ensures |Split(path)| == 2 ==>
              path == Split(path)[0] + [Sep] + Split(path)[1] && path[|Split(path)[0]| + 1..] == Split(path)[1]
    ensures |Split(path)| > 2 ==>
              path == Split(path)[0] + [Sep] + Split(path)[1] + [Sep] + Join(Split(path)[2..])
  {
    var parts := Split(path);
    SplitFirst(path);
    JoinTail(parts);
    if |parts| == 2 {
      AfterSep(parts[0], parts[1]);
    } else {
      Reassociate(parts[0], parts[1], Join(parts[2..]));
    }
  }

  /** Dropping `a` and the separator from `a/b` leaves `b`. */
  lemma AfterSep(a: string, b: string)
    ensures (a + [Sep] + b)[|a| + 1..] == b
  {
  }

  /** `a/(b/c)` and `a/b/c` are the same string. */
  lemma Reassociate(a: string, b: string, c: string)
    ensures a + [Sep] + (b + [Sep] + c) == a + [Sep] + b + [Sep] + c
  {
  }

  lemma SplitFirst(path: string)
    requires Sep in path
    ensures |Split(path)| >= 2
    ensures path == Split(path)[0] + [Sep] + Join(Split(path)[1..])
    ensures IndexOf(path, Sep) == |Split(path)[0]|
  {
    var parts := Split(path);
    JoinCons(parts[0], parts[1..]);
    assert [parts[0]] + parts[1..] == parts;
    IndexOfPrefix(parts[0], Join(parts[1..]));
  }

  lemma JoinTail(parts: seq<string>)
    requires |parts| >= 2
    ensures |parts| == 2 ==> Join(parts[1..]) == parts[1]
    ensures |parts| > 2 ==> Join(parts[1..]) == parts[1] + [Sep] + Join(parts[2..])
  {
    if |parts| == 2 {
      assert parts[1..] == [parts[1]];
    } else {
      JoinCons(parts[1], parts[2..]);
      assert [parts[1]] + parts[2..] == parts[1..];
    }
  }

  /** Every `lib/version/file` path with `/`-free `lib` and `version` is an asset of
      that library and version, whatever `file` holds. */
  lemma ClassifyAsset(lib: string, version: string, file: string)
    requires Sep !in lib && Sep !in version
    ensures Classify(lib + [Sep] + version + [Sep] + file) == AssetRef(lib, version, file)
  {
    var path := lib + [Sep] + version + [Sep] + file;
    assert path == lib + [Sep] + (version + [Sep] + file);
    SplitCons(lib, version + [Sep] + file);
    SplitCons(version, file);
    var parts := Split(path);
    assert parts == [lib, version] + Split(file);
    assert parts[2..] == Split(file);
  }

  /** Every two-segment path is the metadata file of its first segment or is ignored. */
  lemma ClassifyTwoSegments(lib: string, name: string)
    requires Sep !in lib && Sep !in name
    ensures Classify(lib + [Sep] + name) == if name == InfoFile then MetaRef(lib) else Ignored
  {
    SplitCons(lib, name);
    assert Split(lib + [Sep] + name) == [lib, name];
  }
}
