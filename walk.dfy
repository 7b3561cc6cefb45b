/**
  The walk over a project tree (`_collect_dependencies`, `get_dependencies`):
  which manifests are read, in which order, and how their URLs end up
  grouped by the folder that holds each manifest.
 */
module Walk {
  import opened Errors
  import opened Manifest

  /**
    A directory entry as `iterdir` lists it: a file with its lines, or a
    sub-directory with its own entries, in listing order.
   */
  datatype Entry =
    | File(name: string, lines: seq<string>)
    | Folder(name: string, children: seq<Entry>)

  /** A manifest the walk reads: the folder holding it and its lines. */
  datatype Found = Found(folder: Path, lines: seq<string>)

  /**
    The manifests `_collect_dependencies` reads in a directory at `dir`
    whose entries are `children`, in the order it reads them: a
    sub-directory is entered only when `recursive`, and a file is read only
    when it is named `build.zig.zon`.
   */
  function Manifests(children: seq<Entry>, dir: Path, recursive: bool): seq<Found>
    decreases children
  {
    if children == [] then []
    else Manifests(children[..|children| - 1], dir, recursive) + EntryManifests(children[|children| - 1], dir, recursive)
  }

  /** The manifests one entry of the directory at `dir` contributes. */
  function EntryManifests(e: Entry, dir: Path, recursive: bool): seq<Found>
    decreases e
  {
    match e
    case Folder(name, sub) => if recursive then Manifests(sub, dir + [name], recursive) else []
    case File(name, lines) => if name == ZON then [Found(dir, lines)] else []
  }

  /** Walking the entries in two parts visits them in listing order. */
  lemma {:induction false} ManifestsAppend(a: seq<Entry>, b: seq<Entry>, dir: Path, recursive: bool)
    ensures Manifests(a + b, dir, recursive) == Manifests(a, dir, recursive) + Manifests(b, dir, recursive)
    decreases |b|
  {
    if b == [] {
      assert a + b == a;
    } else {
      var b' := b[..|b| - 1];
      assert (a + b)[..|a + b| - 1] == a + b';
      assert (a + b)[|a + b| - 1] == b[|b| - 1];
      ManifestsAppend(a, b', dir, recursive);
    }
  }

  /**
    Without `recursive`, the walk reads exactly the files named
    `build.zig.zon` directly in the root, and groups them under the root.
   */
  lemma {:induction false} NonRecursiveReadsRootOnly(children: seq<Entry>, dir: Path, m: Found)
    ensures m in Manifests(children, dir, false) <==>
              m.folder == dir && exists k :: 0 <= k < |children| && children[k] == File(ZON, m.lines)
  {
    if children != [] {
      var init := children[..|children| - 1];
      NonRecursiveReadsRootOnly(init, dir, m);
      assert forall k :: 0 <= k < |init| ==> init[k] == children[k];
      if m.folder == dir && children[|children| - 1] == File(ZON, m.lines) {
        assert m in Manifests(children, dir, false);
      }
    }
  }

  /**
    `m` is a manifest somewhere in the tree whose root, at `dir`, has the
    entries `children`.
   */
  ghost predicate ManifestIn(children: seq<Entry>, dir: Path, m: Found) {
    exists k :: 0 <= k < |children| && ManifestBelow(children[k], dir, m)
  }

  /**
    `m` is the entry `e` of the directory at `dir` (a file named
    `build.zig.zon`, paired with `dir`), or a manifest at any depth below it
    (paired with its own parent folder).
   */
  ghost predicate ManifestBelow(e: Entry, dir: Path, m: Found) {
    match e
    case File(name, lines) => name == ZON && m == Found(dir, lines)
    case Folder(name, sub) => exists k :: 0 <= k < |sub| && ManifestBelow(sub[k], dir + [name], m)
  }

  /**
    With `recursive`, the walk reads every manifest at any depth, each with
    its own parent folder, and nothing else.
   */
  lemma {:induction false} RecursiveReadsEveryManifest(children: seq<Entry>, dir: Path, m: Found)
    ensures m in Manifests(children, dir, true) <==> ManifestIn(children, dir, m)
    decreases children
  {
    if children != [] {
      var init, last := children[..|children| - 1], children[|children| - 1];
      RecursiveReadsEveryManifest(init, dir, m);
      EntryReadsEveryManifest(last, dir, m);
      assert forall k :: 0 <= k < |init| ==> init[k] == children[k];
      if ManifestIn(children, dir, m) {
        var k :| 0 <= k < |children| && ManifestBelow(children[k], dir, m);
        if k < |init| {
          assert ManifestIn(init, dir, m);
        }
      }
    }
  }

  /** The same for the manifests one entry contributes. */
  lemma {:induction false} EntryReadsEveryManifest(e: Entry, dir: Path, m: Found)
    ensures m in EntryManifests(e, dir, true) <==> ManifestBelow(e, dir, m)
    decreases e
  {
    match e
    case File(name, lines) =>
    case Folder(name, sub) => RecursiveReadsEveryManifest(sub, dir + [name], m);
  }

  /**
    Reading the manifests one after the other into the accumulator; the
    first error stops the walk.
   */
  function GroupAll(ms: seq<Found>, g: Groups): (r: Result<Groups>)
    requires Valid(g)
    ensures r.Ok? ==> Valid(r.value)
  {
    if ms == [] then Ok(g)
    else
      match GroupAll(ms[..|ms| - 1], g)
      case Err(e) => Err(e)
      case Ok(g') => AddManifest(g', ms[|ms| - 1].folder, ms[|ms| - 1].lines)
  }

  /** Reading two runs of manifests one after the other. */
  lemma {:induction false} GroupAllAppend(a: seq<Found>, b: seq<Found>, g: Groups)
    requires Valid(g)
    ensures GroupAll(a + b, g) == match GroupAll(a, g) case Err(e) => Err(e) case Ok(g') => GroupAll(b, g')
    decreases |b|
  {
    if b == [] {
      assert a + b == a;
    } else {
      var b' := b[..|b| - 1];
      assert (a + b)[..|a + b| - 1] == a + b';
      assert (a + b)[|a + b| - 1] == b[|b| - 1];
      GroupAllAppend(a, b', g);
    }
  }

  /** Reading the manifests of one more entry of a directory. */
  lemma GroupAllStep(children: seq<Entry>, i: nat, dir: Path, recursive: bool, g: Groups)
    requires i < |children| && Valid(g)
    ensures GroupAll(Manifests(children[..i + 1], dir, recursive), g) ==
              match GroupAll(Manifests(children[..i], dir, recursive), g)
              case Err(e) => Err(e)
              case Ok(g') => GroupAll(EntryManifests(children[i], dir, recursive), g')
  {
    assert children[..i + 1][..i] == children[..i];
    GroupAllAppend(Manifests(children[..i], dir, recursive), EntryManifests(children[i], dir, recursive), g);
  }

  /** An error while reading the first `n` entries is the error of the whole walk. */
  lemma GroupAllErrPrefix(children: seq<Entry>, n: nat, dir: Path, recursive: bool, g: Groups)
    requires n <= |children| && Valid(g)
    requires GroupAll(Manifests(children[..n], dir, recursive), g).Err?
    ensures GroupAll(Manifests(children, dir, recursive), g) == GroupAll(Manifests(children[..n], dir, recursive), g)
  {
    ManifestsAppend(children[..n], children[n..], dir, recursive);
    assert children[..n] + children[n..] == children;
    GroupAllAppend(Manifests(children[..n], dir, recursive), Manifests(children[n..], dir, recursive), g);
  }

  /** Every manifest in `ms` reads without error. */
  ghost predicate AllRead(ms: seq<Found>) {
    forall k :: 0 <= k < |ms| ==> ManifestUrls(ms[k].lines).Ok?
  }

  /** The walk over `ms` succeeds exactly when every manifest in it reads without error. */
  lemma {:induction false} GroupAllOk(ms: seq<Found>, g: Groups)
    requires Valid(g)
    ensures GroupAll(ms, g).Ok? <==> AllRead(ms)
  {
    if ms != [] {
      var init := ms[..|ms| - 1];
      GroupAllOk(init, g);
      AllReadSnoc(ms);
    }
  }

  /** All of `ms` reads cleanly when all before the last does and the last does too. */
  lemma AllReadSnoc(ms: seq<Found>)
    requires ms != []
    ensures AllRead(ms) <==> AllRead(ms[..|ms| - 1]) && ManifestUrls(ms[|ms| - 1].lines).Ok?
  {
    assert forall k :: 0 <= k < |ms| - 1 ==> ms[..|ms| - 1][k] == ms[k];
  }

  /** The URLs of the manifests in `ms` that sit in folder `f`, in reading order. */
  ghost function FolderUrls(ms: seq<Found>, f: Path): seq<string>
    requires AllRead(ms)
  {
    if ms == [] then []
    else
      var m := ms[|ms| - 1];
      FolderUrls(ms[..|ms| - 1], f) + if m.folder == f then ManifestUrls(m.lines).value else []
  }

  /**
    Grouping by parent folder: after the walk, the group of each folder is
    what it held before, followed by the URLs of the manifests in that
    folder, in reading order.
   */
  lemma {:induction false} GroupAllGroupsByFolder(ms: seq<Found>, g: Groups, f: Path)
    requires Valid(g) && AllRead(ms)
    ensures GroupAll(ms, g).Ok?
    ensures Lookup(GroupAll(ms, g).value, f) == Lookup(g, f) + FolderUrls(ms, f)
  {
    GroupAllOk(ms, g);
    if ms != [] {
      var init := ms[..|ms| - 1];
      var tail := GroupAllLookupLast(ms, g, f);
      GroupAllGroupsByFolder(init, g, f);
      Regroup(Lookup(GroupAll(ms, g).value, f), Lookup(GroupAll(init, g).value, f), Lookup(g, f), FolderUrls(init, f), tail, FolderUrls(ms, f));
    }
  }

  /** Regrouping the pieces of a group that grew by `tail`. */
  lemma Regroup(now: seq<string>, before: seq<string>, start: seq<string>, read: seq<string>, tail: seq<string>, all: seq<string>)
    requires now == before + tail && before == start + read && all == read + tail
    ensures now == start + all
  {
  }

  /**
    The last manifest read extends the group of `f` by its URLs when it sits
    in `f`, and by nothing otherwise.
   */
  lemma GroupAllLookupLast(ms: seq<Found>, g: Groups, f: Path) returns (tail: seq<string>)
    requires Valid(g) && ms != [] && AllRead(ms)
    ensures AllRead(ms[..|ms| - 1])
    ensures GroupAll(ms, g).Ok? && GroupAll(ms[..|ms| - 1], g).Ok?
    ensures Lookup(GroupAll(ms, g).value, f) == Lookup(GroupAll(ms[..|ms| - 1], g).value, f) + tail
    ensures FolderUrls(ms, f) == FolderUrls(ms[..|ms| - 1], f) + tail
  {
    var m := ms[|ms| - 1];
    var us := ManifestUrls(m.lines).value;
    tail := if m.folder == f then us else [];
    AllReadPrefix(ms);
    GroupAllLast(ms, g);
    GroupAllOk(ms, g);
    AppendAllSpec(GroupAll(ms[..|ms| - 1], g).value, m.folder, us);
  }

  /** Every manifest of a prefix reads without error too. */
  lemma AllReadPrefix(ms: seq<Found>)
    requires ms != [] && AllRead(ms)
    ensures AllRead(ms[..|ms| - 1])
  {
    assert forall k :: 0 <= k < |ms| - 1 ==> ms[..|ms| - 1][k] == ms[k];
  }

  /** The last manifest read appends its URLs to the group of its own folder. */
  lemma GroupAllLast(ms: seq<Found>, g: Groups)
    requires Valid(g) && ms != [] && AllRead(ms)
    ensures GroupAll(ms[..|ms| - 1], g).Ok?
    ensures GroupAll(ms, g) ==
              Ok(AppendAll(GroupAll(ms[..|ms| - 1], g).value, ms[|ms| - 1].folder, ManifestUrls(ms[|ms| - 1].lines).value))
  {
    AllReadPrefix(ms);
    GroupAllOk(ms[..|ms| - 1], g);
  }

  /**
    A folder has a group after the walk exactly when it had one before or
    a manifest in it declared a URL; no group is ever empty.
   */
  lemma GroupAllKeys(ms: seq<Found>, g: Groups, f: Path)
    requires Valid(g) && AllRead(ms)
    ensures GroupAll(ms, g).Ok?
    ensures f in GroupAll(ms, g).value.urls <==> f in g.urls || FolderUrls(ms, f) != []
  {
    GroupAllGroupsByFolder(ms, g, f);
  }

  /**
    The folders that gain a key while `ms` is read, in the order they gain
    it: the folder of a manifest that declares a URL, the first time, unless
    it was among the `known` ones already.
   */
  ghost function NewFolders(ms: seq<Found>, known: seq<Path>): seq<Path>
    requires AllRead(ms)
  {
    if ms == [] then []
    else
      var prev := NewFolders(ms[..|ms| - 1], known);
      var m := ms[|ms| - 1];
      if ManifestUrls(m.lines).value != [] && m.folder !in known && m.folder !in prev then prev + [m.folder]
      else prev
  }

  /**
    The key order after the walk, which is the order `dependencies.items()`
    visits the groups in: the keys held before, then each new folder in
    the order its first URL was read.
   */
  lemma {:induction false} GroupAllFolders(ms: seq<Found>, g: Groups)
    requires Valid(g) && AllRead(ms)
    ensures GroupAll(ms, g).Ok?
    ensures GroupAll(ms, g).value.folders == g.folders + NewFolders(ms, g.folders)
  {
    GroupAllOk(ms, g);
    if ms != [] {
      var init, m := ms[..|ms| - 1], ms[|ms| - 1];
      GroupAllLast(ms, g);
      AllReadPrefix(ms);
      GroupAllFolders(init, g);
      var mid := GroupAll(init, g).value;
      AppendAllFolders(mid, m.folder, ManifestUrls(m.lines).value);
      assert m.folder in mid.urls <==> m.folder in g.folders + NewFolders(init, g.folders);
    }
  }

  /** A folder collects no URL exactly when none of its manifests declares one. */
  lemma {:induction false} FolderUrlsEmpty(ms: seq<Found>, f: Path)
    requires AllRead(ms)
    ensures FolderUrls(ms, f) == [] <==>
              forall k :: 0 <= k < |ms| && ms[k].folder == f ==> ManifestUrls(ms[k].lines) == Ok([])
  {
    if ms != [] {
      var init, m := ms[..|ms| - 1], ms[|ms| - 1];
      AllReadSnoc(ms);
      FolderUrlsEmpty(init, f);
      assert FolderUrls(ms, f) == [] <==>
               FolderUrls(init, f) == [] && (m.folder == f ==> ManifestUrls(m.lines) == Ok([]));
      assert forall k :: 0 <= k < |init| ==> init[k] == ms[k];
    }
  }

  /**
    The walk from an empty accumulator ends with no group at all exactly
    when no manifest in scope declares a URL.
   */
  lemma NoGroupsIffNoUrls(ms: seq<Found>)
    requires AllRead(ms)
    ensures GroupAll(ms, Empty).Ok?
    ensures GroupAll(ms, Empty).value.folders == [] <==>
              forall k :: 0 <= k < |ms| ==> ManifestUrls(ms[k].lines) == Ok([])
  {
    GroupAllOk(ms, Empty);
    var r := GroupAll(ms, Empty).value;
    if r.folders == [] {
      forall k | 0 <= k < |ms|
        ensures ManifestUrls(ms[k].lines) == Ok([])
      {
        GroupAllKeys(ms, Empty, ms[k].folder);
        FolderUrlsEmpty(ms, ms[k].folder);
      }
    } else {
      var f := r.folders[0];
      GroupAllKeys(ms, Empty, f);
      FolderUrlsEmpty(ms, f);
    }
  }

  /**
    `_collect_dependencies(directory, dependencies, recursive=...)`: reads
    the manifests of the directory at `dir` (and, when `recursive`, of every
    directory below it) into the accumulator.
   */
  method CollectDependencies(children: seq<Entry>, dir: Path, recursive: bool, g: Groups)
    returns (r: Result<Groups>)
    requires Valid(g)
    ensures r == GroupAll(Manifests(children, dir, recursive), g)
    decreases children
  {
    var acc := g;
    for i := 0 to |children|
      invariant Valid(acc)
      invariant GroupAll(Manifests(children[..i], dir, recursive), g) == Ok(acc)
    {
      var step: Result<Groups> := Ok(acc);
      match children[i] {
        case Folder(name, sub) =>
          if recursive {
            step := CollectDependencies(sub, dir + [name], recursive, acc);
          }
        case File(name, lines) =>
          if name == ZON {
            step := FindDependencies(lines, dir, acc);
            assert [Found(dir, lines)][..0] == [];
          }
      }
      assert step == GroupAll(EntryManifests(children[i], dir, recursive), acc);
      GroupAllStep(children, i, dir, recursive, g);
      if step.Err? {
        GroupAllErrPrefix(children, i + 1, dir, recursive, g);
        return step;
      }
      acc := step.value;
    }
    assert children[..|children|] == children;
    return Ok(acc);
  }

  /**
    `get_dependencies(root, recursive=...)`: the URLs of the manifests in
    scope, grouped by folder, starting from an empty accumulator.
   */
  method GetDependencies(root: seq<Entry>, rootPath: Path, recursive: bool) returns (r: Result<Groups>)
    ensures r == GroupAll(Manifests(root, rootPath, recursive), Empty)
    ensures r.Ok? ==> Valid(r.value)
  {
    r := CollectDependencies(root, rootPath, recursive, Empty);
  }
}
