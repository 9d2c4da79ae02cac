/**
 * The part of `std::fs` that the cache relies on, over an abstract tree: every existing
 * directory, by path, with its entries in directory (iteration) order.
 */
module FileSystem {
  import opened Wrappers

  datatype EntryKind = File | Directory

  /**
   * A directory entry: its name within its directory, its kind, its creation time when
   * the platform reports one, and, for a file, its contents when they are valid UTF-8.
   */
  datatype Entry = Entry(name: string, kind: EntryKind, created: Option<int>, text: Option<string>)

  type Tree = map<string, seq<Entry>>

  datatype ErrorKind = NotFound | AlreadyExists | InvalidData | Other

  /** `std::io::Error`: its kind, and the text its `to_string` gives. */
  datatype IoError = IoError(kind: ErrorKind, message: string)

  const NoSuchFile := IoError(NotFound, "No such file or directory (os error 2)")
  const FileExists := IoError(AlreadyExists, "File exists (os error 17)")
  const IsADirectory := IoError(Other, "Is a directory (os error 21)")
  const NotUtf8 := IoError(InvalidData, "stream did not contain valid UTF-8")
  const NotADirectory := IoError(Other, "Not a directory (os error 20)")

  // ---------------------------------------------------------------- paths

  function Join(dir: string, name: string): string {
    dir + "/" + name
  }

  /** Position of the last '/' of `p`, if any. */
  function LastSlash(p: string): (r: Option<nat>)
    ensures r.Some? ==> r.value < |p| && p[r.value] == '/'
                        && forall j :: r.value < j < |p| ==> p[j] != '/'
    ensures r.None? ==> forall j :: 0 <= j < |p| ==> p[j] != '/'
  {
    if p == [] then None
    else if p[|p| - 1] == '/' then Some(|p| - 1)
    else LastSlash(p[..|p| - 1])
  }

  /** The directory holding `p` (`Path::parent`), when `p` has a '/'. */
  function Parent(p: string): (r: Option<string>)
    ensures r.Some? ==> |r.value| < |p| && r.value + "/" <= p
  {
    match LastSlash(p)
    case None => None
    case Some(i) => Some(p[..i])
  }

  /** The last component of `p`. */
  function BaseName(p: string): (r: string)
    ensures '/' !in r
    ensures Parent(p).None? ==> r == p
    ensures Parent(p).Some? ==> p == Join(Parent(p).value, r)
  {
    match LastSlash(p)
    case None => p
    case Some(i) => p[i + 1..]
  }

  /** Joining a directory with a plain name splits back into the two. */
  lemma JoinSplits(dir: string, name: string)
    requires '/' !in name
    ensures Parent(Join(dir, name)) == Some(dir) && BaseName(Join(dir, name)) == name
  {
    var p := Join(dir, name);
    assert p[|dir|] == '/';
    assert forall j :: |dir| < j < |p| ==> p[j] == name[j - |dir| - 1];
    assert LastSlash(p) == Some(|dir|);
    assert p[..|dir|] == dir && p[|dir| + 1..] == name;
  }

  /**
   * A single path component that names itself: not empty, not `.` or `..`, and without `/`.
   * Paths are compared as strings, so only such components keep string equality and the
   * operating system's resolution of a path in agreement.
   */
  predicate PlainComponent(s: string) {
    s != "" && s != "." && s != ".." && '/' !in s
  }

  /** `k` is `root` itself or lies below it. */
  predicate Within(k: string, root: string) {
    k == root || root + "/" <= k
  }

  /** The directories `create_dir_all(p)` must make exist, outermost first, ending with `p`. */
  function Ancestors(p: string): (a: seq<string>)
    ensures |a| >= 1 && a[|a| - 1] == p
    decreases |p|
  {
    match Parent(p)
    case None => [p]
    case Some(q) => Ancestors(q) + [p]
  }

  lemma {:induction false} AncestorsWithin(p: string)
    ensures forall a :: a in Ancestors(p) ==> Within(p, a)
    decreases |p|
  {
    match Parent(p)
    case None =>
    case Some(q) =>
      AncestorsWithin(q);
      forall a | a in Ancestors(q) ensures Within(p, a) {
        assert Within(q, a);
        assert q + "/" <= p;
      }
  }

  /** The parent of an ancestor is again an ancestor. */
  lemma {:induction false} AncestorsParentClosed(p: string)
    ensures forall a :: a in Ancestors(p) && Parent(a).Some? ==> Parent(a).value in Ancestors(p)
    decreases |p|
  {
    match Parent(p)
    case None =>
    case Some(q) =>
      AncestorsParentClosed(q);
      assert q in Ancestors(q);
  }

  // ---------------------------------------------------------------- listings

  /** Position of the first entry called `name`. */
  function IndexOf(entries: seq<Entry>, name: string): (r: Option<nat>)
    ensures r.Some? ==> r.value < |entries| && entries[r.value].name == name
                        && forall j :: 0 <= j < r.value ==> entries[j].name != name
    ensures r.None? ==> forall j :: 0 <= j < |entries| ==> entries[j].name != name
  {
    if entries == [] then None
    else if entries[0].name == name then Some(0)
    else match IndexOf(entries[1..], name)
      case None => None
      case Some(i) => Some(i + 1)
  }

  /** The file that `dir/name` denotes, if it denotes a file. */
  function FileAt(t: Tree, dir: string, name: string): Option<Entry> {
    if dir !in t then None
    else match IndexOf(t[dir], name)
      case None => None
      case Some(i) => if t[dir][i].kind == File then Some(t[dir][i]) else None
  }

  // ---------------------------------------------------------------- create_dir_all

  /** `d` does not exist and a file in its parent already has its name. */
  predicate Blocked(t: Tree, d: string) {
    d !in t && Parent(d).Some? && FileAt(t, Parent(d).value, BaseName(d)).Some?
  }

  /** `create_dir` of one directory, done only when it does not exist yet. */
  function MakeDir(t: Tree, d: string, now: int): Tree {
    if d in t then t
    else
      var t1 := t[d := []];
      match Parent(d)
      case None => t1
      case Some(q) =>
        if q in t1 && IndexOf(t1[q], BaseName(d)).None?
        then t1[q := t1[q] + [Entry(BaseName(d), Directory, Some(now), None)]]
        else t1
  }

  function MakeDirs(t: Tree, ds: seq<string>, now: int): Tree
    decreases |ds|
  {
    if ds == [] then t else MakeDirs(MakeDir(t, ds[0], now), ds[1..], now)
  }

  /** Some missing ancestor strictly above `p` has its name taken by a file. */
  predicate AboveBlocked(t: Tree, p: string) {
    match Parent(p)
    case None => false
    case Some(q) => exists d :: d in Ancestors(q) && Blocked(t, d)
  }

  /**
   * `fs::create_dir_all(p)`: make every missing ancestor, or fail and make none. A file in
   * the way strictly above `p` stops path resolution ("Not a directory"); a file named `p`
   * itself makes the final `mkdir` fail ("File exists").
   */
  function DirsCreated(t: Tree, p: string, now: int): Result<Tree, IoError> {
    if AnyBlocked(t, p) then Err(BlockedError(t, p)) else Ok(MakeDirs(t, Ancestors(p), now))
  }

  /** Some missing ancestor of `p`, or `p` itself, cannot be made because a file has its name. */
  predicate AnyBlocked(t: Tree, p: string) {
    exists d :: d in Ancestors(p) && Blocked(t, d)
  }

  /** The error `create_dir_all(p)` reports when it is blocked. */
  function BlockedError(t: Tree, p: string): IoError {
    if AboveBlocked(t, p) then NotADirectory else FileExists
  }

  /** A blocked ancestor is either strictly above `p` or `p` itself. */
  lemma BlockedSplit(t: Tree, p: string)
    ensures AnyBlocked(t, p) <==> AboveBlocked(t, p) || Blocked(t, p)
  {
    match Parent(p)
    case None =>
      assert Ancestors(p) == [p];
    case Some(q) =>
      assert Ancestors(p) == Ancestors(q) + [p];
  }

  /**
   * A file `dir/a` standing where the intermediate directory of `dir/a/b` should be stops
   * `create_dir_all(dir/a/b)` with "Not a directory".
   */
  lemma FileAboveTargetIsNotADirectory(t: Tree, dir: string, a: string, b: string, now: int)
    requires '/' !in a && '/' !in b
    requires Join(dir, a) !in t && FileAt(t, dir, a).Some?
    ensures DirsCreated(t, Join(Join(dir, a), b), now) == Err(NotADirectory)
  {
    JoinSplits(Join(dir, a), b);
    JoinSplits(dir, a);
    assert Blocked(t, Join(dir, a));
    assert Join(dir, a) in Ancestors(Join(dir, a));
  }

  lemma MakeDirFrame(t: Tree, d: string, now: int, k: string)
    requires k != d && Parent(d) != Some(k)
    ensures (k in MakeDir(t, d, now) <==> k in t)
    ensures k in t ==> MakeDir(t, d, now)[k] == t[k]
  {
  }

  lemma {:induction false} MakeDirsFrame(t: Tree, ds: seq<string>, now: int, k: string)
    requires k !in ds && forall d :: d in ds ==> Parent(d) != Some(k)
    ensures (k in MakeDirs(t, ds, now) <==> k in t)
    ensures k in t ==> MakeDirs(t, ds, now)[k] == t[k]
    decreases |ds|
  {
    if ds != [] {
      MakeDirFrame(t, ds[0], now, k);
      MakeDirsFrame(MakeDir(t, ds[0], now), ds[1..], now, k);
    }
  }

  /** `create_dir_all(p)` touches no directory outside the ancestors of `p`. */
  lemma CreatedOnlyAncestors(t: Tree, p: string, now: int, k: string)
    requires k !in Ancestors(p)
    ensures (k in MakeDirs(t, Ancestors(p), now) <==> k in t)
    ensures k in t ==> MakeDirs(t, Ancestors(p), now)[k] == t[k]
  {
    AncestorsParentClosed(p);
    MakeDirsFrame(t, Ancestors(p), now, k);
  }

  lemma MakeDirKeepsFiles(t: Tree, d: string, now: int, dir: string, name: string)
    ensures FileAt(MakeDir(t, d, now), dir, name) == FileAt(t, dir, name)
  {
    if d !in t && Parent(d).Some? {
      var q := Parent(d).value;
      var t1 := t[d := []];
      if q in t1 && IndexOf(t1[q], BaseName(d)).None? && dir == q {
        var l := t1[q] + [Entry(BaseName(d), Directory, Some(now), None)];
        IndexOfAppend(t1[q], Entry(BaseName(d), Directory, Some(now), None), name);
      }
    }
  }

  lemma {:induction false} IndexOfAppend(l: seq<Entry>, e: Entry, name: string)
    ensures IndexOf(l + [e], name) == if IndexOf(l, name).Some? then IndexOf(l, name)
                                     else if e.name == name then Some(|l|) else None
  {
    if l == [] {
      assert [] + [e] == [e];
    } else {
      assert (l + [e])[1..] == l[1..] + [e];
      IndexOfAppend(l[1..], e, name);
    }
  }

  lemma {:induction false} MakeDirsKeepFiles(t: Tree, ds: seq<string>, now: int, dir: string, name: string)
    ensures FileAt(MakeDirs(t, ds, now), dir, name) == FileAt(t, dir, name)
    decreases |ds|
  {
    if ds != [] {
      MakeDirKeepsFiles(t, ds[0], now, dir, name);
      MakeDirsKeepFiles(MakeDir(t, ds[0], now), ds[1..], now, dir, name);
    }
  }

  lemma {:induction false} MakeDirsKeepKeys(t: Tree, ds: seq<string>, now: int)
    ensures t.Keys <= MakeDirs(t, ds, now).Keys
    ensures forall d :: d in ds ==> d in MakeDirs(t, ds, now)
    decreases |ds|
  {
    if ds != [] {
      MakeDirsKeepKeys(MakeDir(t, ds[0], now), ds[1..], now);
    }
  }

  /** When every directory already exists, `create_dir_all` changes nothing. */
  lemma {:induction false} MakeDirsExisting(t: Tree, ds: seq<string>, now: int)
    requires forall d :: d in ds ==> d in t
    ensures MakeDirs(t, ds, now) == t
    decreases |ds|
  {
    if ds != [] {
      assert MakeDir(t, ds[0], now) == t;
      MakeDirsExisting(t, ds[1..], now);
    }
  }

  lemma {:induction false} MakeDirsSnoc(t: Tree, ds: seq<string>, d: string, now: int)
    ensures MakeDirs(t, ds + [d], now) == MakeDir(MakeDirs(t, ds, now), d, now)
    decreases |ds|
  {
    if ds == [] {
      assert ds + [d] == [d];
    } else {
      assert (ds + [d])[1..] == ds[1..] + [d];
      MakeDirsSnoc(MakeDir(t, ds[0], now), ds[1..], d, now);
    }
  }

  /** After `create_dir_all(p)`, `p` keeps its entries, or is new and empty. */
  lemma CreatedTarget(t: Tree, p: string, now: int)
    ensures p in MakeDirs(t, Ancestors(p), now)
    ensures MakeDirs(t, Ancestors(p), now)[p] == if p in t then t[p] else []
  {
    match Parent(p)
    case None =>
      assert Ancestors(p) == [p];
      assert Ancestors(p)[1..] == [];
    case Some(q) =>
      AncestorsWithin(q);
      AncestorsParentClosed(q);
      forall a | a in Ancestors(q) ensures a != p && Parent(a) != Some(p) {
        assert Within(q, a);
      }
      MakeDirsFrame(t, Ancestors(q), now, p);
      MakeDirsSnoc(t, Ancestors(q), p, now);
  }

  // ---------------------------------------------------------------- files

  /** `fs::write(dir/name, text)`: create the file at the end of the listing, or truncate and refill it. */
  function FileWritten(t: Tree, dir: string, name: string, text: string, now: int): Result<Tree, IoError> {
    if dir !in t then Err(NoSuchFile)
    else match IndexOf(t[dir], name)
      case None => Ok(t[dir := t[dir] + [Entry(name, File, Some(now), Some(text))]])
      case Some(i) =>
        if t[dir][i].kind == Directory then Err(IsADirectory)
        else Ok(t[dir := t[dir][i := t[dir][i].(text := Some(text))]])
  }

  /** `fs::remove_file(dir/name)`. */
  function FileRemoved(t: Tree, dir: string, name: string): Result<Tree, IoError> {
    if dir !in t then Err(NoSuchFile)
    else match IndexOf(t[dir], name)
      case None => Err(NoSuchFile)
      case Some(i) =>
        if t[dir][i].kind == Directory then Err(IsADirectory)
        else Ok(t[dir := t[dir][..i] + t[dir][i + 1..]])
  }

  /** `fs::remove_dir_all(root)`: `root` and every directory below it disappear. */
  function TreeRemoved(t: Tree, root: string): (r: Tree)
    ensures forall k :: k in r <==> k in t && !Within(k, root)
    ensures forall k :: k in r ==> r[k] == t[k]
  {
    map k | k in t && !Within(k, root) :: t[k]
  }

  /** `fs::read_to_string(dir/name)`. */
  function TextOf(t: Tree, dir: string, name: string): Result<string, IoError> {
    if dir !in t then Err(NoSuchFile)
    else match IndexOf(t[dir], name)
      case None => Err(NoSuchFile)
      case Some(i) =>
        if t[dir][i].kind == Directory then Err(IsADirectory)
        else if t[dir][i].text.None? then Err(NotUtf8)
        else Ok(t[dir][i].text.value)
  }

  /** Writing `dir/name` changes that file only; every other file and directory stays as it was. */
  lemma WrittenFrame(t: Tree, dir: string, name: string, text: string, now: int)
    requires FileWritten(t, dir, name, text, now).Ok?
    ensures var t' := FileWritten(t, dir, name, text, now).value;
      && t'.Keys == t.Keys
      && (forall k :: k in t && k != dir ==> t'[k] == t[k])
      && (forall n :: n != name ==> FileAt(t', dir, n) == FileAt(t, dir, n))
      && FileAt(t', dir, name).Some?
      && FileAt(t', dir, name).value.text == Some(text)
      && FileAt(t', dir, name).value.created
         == (if FileAt(t, dir, name).Some? then FileAt(t, dir, name).value.created else Some(now))
  {
    var l := t[dir];
    match IndexOf(l, name)
    case None =>
      var e := Entry(name, File, Some(now), Some(text));
      IndexOfAppend(l, e, name);
      forall n | n != name ensures IndexOf(l + [e], n) == IndexOf(l, n) {
        IndexOfAppend(l, e, n);
      }
    case Some(i) =>
      var l' := l[i := l[i].(text := Some(text))];
      forall n ensures IndexOf(l', n) == IndexOf(l, n) {
        IndexOfSameNames(l, l', n);
      }
  }

  /** Listings with the same names in the same order find every name at the same place. */
  lemma {:induction false} IndexOfSameNames(l: seq<Entry>, l': seq<Entry>, name: string)
    requires |l| == |l'| && forall j :: 0 <= j < |l| ==> l[j].name == l'[j].name
    ensures IndexOf(l, name) == IndexOf(l', name)
  {
    if l != [] {
      IndexOfSameNames(l[1..], l'[1..], name);
    }
  }

  /** The whole file system, as `std::fs` sees it. */
  class Disk {
    var tree: Tree

    constructor(tree: Tree)
      ensures this.tree == tree
    {
      this.tree := tree;
    }

    /** `fs::read_dir`: the entries of an existing directory, in directory order. */
    method ReadDir(dir: string) returns (r: Result<seq<Entry>, IoError>)
      ensures dir in tree ==> r == Ok(tree[dir])
      ensures dir !in tree ==> r == Err(NoSuchFile)
    {
      if dir in tree {
        r := Ok(tree[dir]);
      } else {
        r := Err(NoSuchFile);
      }
    }

    method CreateDirAll(p: string, now: int) returns (r: Result<(), IoError>)
      modifies this
      ensures DirsCreated(old(tree), p, now).Ok? ==> r == Ok(()) && tree == DirsCreated(old(tree), p, now).value
      ensures DirsCreated(old(tree), p, now).Err? ==> r == Err(DirsCreated(old(tree), p, now).error) && tree == old(tree)
    {
      var created := DirsCreated(tree, p, now);
      if created.Err? {
        return Err(created.error);
      }
      tree := created.value;
      r := Ok(());
    }

    method Write(dir: string, name: string, text: string, now: int) returns (r: Result<(), IoError>)
      modifies this
      ensures FileWritten(old(tree), dir, name, text, now).Ok? ==>
                r == Ok(()) && tree == FileWritten(old(tree), dir, name, text, now).value
      ensures FileWritten(old(tree), dir, name, text, now).Err? ==>
                r == Err(FileWritten(old(tree), dir, name, text, now).error) && tree == old(tree)
    {
      var written := FileWritten(tree, dir, name, text, now);
      if written.Err? {
        return Err(written.error);
      }
      tree := written.value;
      r := Ok(());
    }

    method ReadToString(dir: string, name: string) returns (r: Result<string, IoError>)
      ensures r == TextOf(tree, dir, name)
    {
      r := TextOf(tree, dir, name);
    }

    method RemoveFile(dir: string, name: string) returns (r: Result<(), IoError>)
      modifies this
      ensures FileRemoved(old(tree), dir, name).Ok? ==> r == Ok(()) && tree == FileRemoved(old(tree), dir, name).value
      ensures FileRemoved(old(tree), dir, name).Err? ==>
                r == Err(FileRemoved(old(tree), dir, name).error) && tree == old(tree)
    {
      var removed := FileRemoved(tree, dir, name);
      if removed.Err? {
        return Err(removed.error);
      }
      tree := removed.value;
      r := Ok(());
    }

    method RemoveDirAll(root: string) returns (r: Result<(), IoError>)
      modifies this
      ensures root in old(tree) ==> r == Ok(()) && tree == TreeRemoved(old(tree), root)
      ensures root !in old(tree) ==> r == Err(NoSuchFile) && tree == old(tree)
    {
      if root !in tree {
        return Err(NoSuchFile);
      }
      tree := TreeRemoved(tree, root);
      r := Ok(());
    }
  }
}
