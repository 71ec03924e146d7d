/** `getFiles` (tasks/jsdelivr.js:124-186): the flat list of file paths under the
    repository's `files` directory. The GitHub client is not modelled; its replies
    are inputs, and the subtree replies arrive as completions in any order. */
module Listing {
  import opened Wrappers
  import opened Errors
  import opened Paths

  const FilesDirName: string := "files"
  const DirMode: string := "040"
  const FileMode: string := "100"

  /** An entry of the repository root listing (`repos.getContent`). */
  datatype ContentEntry = ContentEntry(name: string, sha: string)

  /** An entry of a git tree (`gitdata.getTree`). */
  datatype TreeEntry = TreeEntry(path: string, mode: string, sha: string)

  /** An error-first callback: the error, or the response. */
  type Reply<T> = Result<T, Error>

  /** A tree response, whose `tree` property may be missing. */
  type TreeReply = Reply<Option<seq<TreeEntry>>>

  /** The recursive listing of one library directory, as it completed. */
  datatype Completion = Completion(dir: TreeEntry, reply: TreeReply)

  /** `s.indexOf(prefix) === 0`. */
  predicate StartsWith(s: string, prefix: string)
  {
    |prefix| <= |s| && s[..|prefix|] == prefix
  }

  predicate IsDir(e: TreeEntry)
  {
    StartsWith(e.mode, DirMode)
  }

  predicate IsFile(e: TreeEntry)
  {
    StartsWith(e.mode, FileMode)
  }

  /** The library directories under `files` (lines 152-154), in listing order. */
  function Dirs(tree: seq<TreeEntry>): (dirs: seq<TreeEntry>)
    ensures forall e :: multiset(dirs)[e] == if IsDir(e) then multiset(tree)[e] else 0
  {
    if |tree| == 0 then []
    else
      assert tree == [tree[0]] + tree[1..];
      (if IsDir(tree[0]) then [tree[0]] else []) + Dirs(tree[1..])
  }

  function DirsOf(completions: seq<Completion>): seq<TreeEntry>
  {
    seq(|completions|, i requires 0 <= i < |completions| => completions[i].dir)
  }

  /** Each completion is the listing of one directory the loop descended into,
      and every such directory completes exactly once. */
  ghost predicate DescendsExactly(completions: seq<Completion>, tree: seq<TreeEntry>)
  {
    multiset(DirsOf(completions)) == multiset(Dirs(tree))
  }

  /** A run of the loop of lines 158-164 for the reply `root`: when it has a `tree`,
      exactly one subtree fetch per `040` entry of it completed. */
  ghost predicate Descends(root: TreeReply, completions: seq<Completion>)
  {
    root.Ok? && root.value.Some? ==> DescendsExactly(completions, root.value.value)
  }

  /** Line 170: the entries of a subtree, with the directory's path put in front. */
  function Prefixed(dir: TreeEntry, tree: seq<TreeEntry>): seq<TreeEntry>
  {
    seq(|tree|, i requires 0 <= i < |tree| => tree[i].(path := dir.path + [Sep] + tree[i].path))
  }

  /** Lines 166-173: a subtree that failed or has no `tree` contributes nothing. */
  function Contribution(c: Completion): seq<TreeEntry>
  {
    if c.reply.Ok? && c.reply.value.Some? then Prefixed(c.dir, c.reply.value.value) else []
  }

  /** The shared `files` array after every completion, in completion order. */
  function Gathered(completions: seq<Completion>): seq<TreeEntry>
  {
    if |completions| == 0 then [] else Contribution(completions[0]) + Gathered(completions[1..])
  }

  /** Lines 178-180: regular files only, their paths, and only paths with a `/`. */
  function KeepFiles(entries: seq<TreeEntry>): (paths: seq<string>)
    ensures |paths| <= |entries|
    ensures forall p :: p in paths <==> exists e :: e in entries && IsFile(e) && Sep in e.path && e.path == p
  {
    if |entries| == 0 then []
    else
      var e := entries[0];
      var rest := KeepFiles(entries[1..]);
      assert forall x :: x in entries <==> x == e || x in entries[1..];
      (if IsFile(e) && Sep in e.path then [e.path] else []) + rest
  }

  predicate HasFilesDir(content: seq<ContentEntry>)
  {
    exists i :: 0 <= i < |content| && content[i].name == FilesDirName
  }

  /** The whole of `getFiles`. `root` is the reply for the tree of the `files`
      entry; a missing `files` entry (a `TypeError` in the source) is an error. */
  function GetFiles(content: Reply<seq<ContentEntry>>, root: TreeReply, completions: seq<Completion>)
    : (r: Result<seq<string>, Error>)
    requires Descends(root, completions)
    ensures content.Err? ==> r == Err(content.error)
    ensures content.Ok? && !HasFilesDir(content.value) ==> r == Err(MissingFilesDir)
    ensures content.Ok? && HasFilesDir(content.value) && root.Err? ==> r == Err(root.error)
    ensures content.Ok? && HasFilesDir(content.value) && root == Ok(None) ==> r == Err(MissingTree)
    ensures r.Ok? <==> content.Ok? && HasFilesDir(content.value) && root.Ok? && root.value.Some?
  {
    if content.Err? then Err(content.error)
    else if !HasFilesDir(content.value) then Err(MissingFilesDir)
    else if root.Err? then Err(root.error)
    else if root.value.None? then Err(MissingTree)
    else Ok(KeepFiles(Gathered(completions)))
  }
}
