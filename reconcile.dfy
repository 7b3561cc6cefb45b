/**
  The reconciler and the entry point (`get_base`, `update_package` and the
  body of `main` after argument parsing): every dependency URL found is
  compared with its latest revision through the hash oracle, reported on
  one line, and saved when it is stale and `--update` is given.
 */
module Reconcile {
  import opened Errors
  import opened Text
  import opened Manifest
  import opened Walk

  /** How many characters of each hash an "updated" line shows. */
  const HASH_DISPLAY_LEN: nat := 7

  /** Separates a URL's base from its revision fragment. */
  const FragmentMark: char := '#'

  /** Written, without a trailing newline, when no dependency URL was found. */
  const NoManifestMessage: string :=
    "no " + ZON + " file found (or no URLs in it). did you run the command from the wrong directory?"

  /**
    `get_base(url)`: the text before the first `#`; a URL without any `#`
    raises "Unsupported URL format".
   */
  function GetBase(url: string): (r: Result<string>)
    ensures r.Ok? <==> FragmentMark in url
    ensures r.Err? ==> r.error == UnsupportedUrlFormat
    ensures r.Ok? ==> FragmentMark !in r.value && r.value + [FragmentMark] <= url
  {
    SplitFirstFields(url, FragmentMark);
    var parts := Split(url, FragmentMark);
    if |parts| == 1 then Err(UnsupportedUrlFormat) else Ok(parts[0])
  }

  /** The base of `base#fragment` is `base`, whatever the fragment holds. */
  lemma GetBaseOfFragment(base: string, fragment: string)
    requires FragmentMark !in base
    ensures GetBase(base + [FragmentMark] + fragment) == Ok(base)
  {
    var url := base + [FragmentMark] + fragment;
    IndexOfAfter(base, FragmentMark, fragment);
    SplitFirstFields(url, FragmentMark);
    assert url[..|base|] == base;
  }

  /** The base of a pinned tarball URL is the URL without its revision. */
  lemma GetBaseExample()
    ensures GetBase("https://example.com/pkg.tar.gz#abcdef1234") == Ok("https://example.com/pkg.tar.gz")
    ensures GetBase("https://example.com/pkg.tar.gz") == Err(UnsupportedUrlFormat)
  {
    GetBaseOfFragment("https://example.com/pkg.tar.gz", "abcdef1234");
    assert "https://example.com/pkg.tar.gz" + [FragmentMark] + "abcdef1234" == "https://example.com/pkg.tar.gz#abcdef1234";
  }

  /** A `zig fetch --save <base>` run in `folder`. */
  datatype Save = Save(folder: Path, base: string)

  /**
    `update_package(folder, url)`: saves the base of `url` in the folder
    where it was declared; fails, saving nothing, on a URL without `#`.
   */
  function UpdatePackage(folder: Path, url: string): (r: Result<Save>)
    ensures r.Ok? <==> FragmentMark in url
    ensures r.Ok? ==> r.value.folder == folder && r.value == Save(folder, GetBase(url).value)
  {
    match GetBase(url)
    case Err(e) => Err(e)
    case Ok(base) => Ok(Save(folder, base))
  }

  /** What the comparison of the two hashes of one dependency decides. */
  datatype Outcome = UpToDate | OutOfDate | Updated(current: string, latest: string)

  /**
    Equal hashes mean up to date; otherwise the dependency is updated when
    `update` is set and reported out of date when it is not.
   */
  function Resolve(current: string, latest: string, update: bool): (o: Outcome)
    ensures o.UpToDate? <==> current == latest
    ensures o.Updated? <==> current != latest && update
    ensures o.OutOfDate? <==> current != latest && !update
    ensures o.Updated? ==> o.current == current && o.latest == latest
  {
    if current == latest then UpToDate
    else if update then Updated(current, latest)
    else OutOfDate
  }

  /** `[<base>] already up to date`. */
  function UpToDateLine(base: string): string {
    "[" + base + "] already up to date\n"
  }

  /** `[<base>] out of date`. */
  function OutOfDateLine(base: string): string {
    "[" + base + "] out of date\n"
  }

  /** `[<base>] updated <current[:7]> -> <latest[:7]>`. */
  function UpdatedLine(base: string, current: string, latest: string): string {
    "[" + base + "] updated " + Take(current, HASH_DISPLAY_LEN) + " -> " + Take(latest, HASH_DISPLAY_LEN) + "\n"
  }

  /**
    The line written for one dependency: it names the base URL in brackets
    and ends the line.
   */
  function Render(base: string, o: Outcome): (line: string)
    ensures "[" + base + "]" <= line
    ensures line[|line| - 1] == '\n'
  {
    match o
    case UpToDate => UpToDateLine(base)
    case OutOfDate => OutOfDateLine(base)
    case Updated(current, latest) => UpdatedLine(base, current, latest)
  }

  /** One dependency URL, with the folder of the manifest that declares it. */
  datatype Declaration = Declaration(folder: Path, url: string)

  /** What reconciling one dependency decided, and the save it made (none or one). */
  datatype Report = Report(base: string, outcome: Outcome, saves: seq<Save>)

  /**
    One iteration of the inner loop of `main`: the base, the two hashes,
    the decision, the save (if any), and what the line will say.
   */
  function ReconcileOne(d: Declaration, update: bool, hash: string -> string): (r: Result<Report>)
    ensures r.Ok? <==> FragmentMark in d.url
    ensures r.Err? ==> r.error == UnsupportedUrlFormat
  {
    match GetBase(d.url)
    case Err(e) => Err(e)
    case Ok(base) =>
      var o := Resolve(hash(d.url), hash(base), update);
      if o.Updated? then
        match UpdatePackage(d.folder, d.url)
        case Err(e) => Err(e)
        case Ok(s) => Ok(Report(base, o, [s]))
      else Ok(Report(base, o, []))
  }

  /**
    The three cases for a URL with a fragment: equal hashes are up to date
    and never saved; differing hashes are saved in the declaring folder
    when `update` is set, and only reported out of date otherwise.
   */
  lemma ReconcileOneCases(d: Declaration, update: bool, hash: string -> string)
    requires FragmentMark in d.url
    ensures var base := GetBase(d.url).value;
            var current, latest := hash(d.url), hash(base);
            ReconcileOne(d, update, hash) ==
              if current == latest then Ok(Report(base, UpToDate, []))
              else if update then Ok(Report(base, Updated(current, latest), [Save(d.folder, base)]))
              else Ok(Report(base, OutOfDate, []))
  {
  }

  /**
    The body of the inner loop of `main` for one dependency: `get_base`,
    the two hash queries, then `update_package` only for a stale URL with
    `update`; the report says which line to write.
   */
  method ReconcileUrl(d: Declaration, update: bool, hash: string -> string) returns (r: Result<Report>)
    ensures r == ReconcileOne(d, update, hash)
  {
    var base := GetBase(d.url);
    if base.Err? {
      return Err(base.error);
    }
    var current, latest := hash(d.url), hash(base.value);
    if current == latest {
      r := Ok(Report(base.value, UpToDate, []));
    } else if update {
      var saved := UpdatePackage(d.folder, d.url);
      r := Ok(Report(base.value, Updated(current, latest), [saved.value]));
    } else {
      r := Ok(Report(base.value, OutOfDate, []));
    }
  }

  /** The line each report writes, in order. */
  function Lines(reports: seq<Report>): (out: seq<string>)
    ensures |out| == |reports|
  {
    seq(|reports|, k requires 0 <= k < |reports| => Render(reports[k].base, reports[k].outcome))
  }

  /** Writing the line of one more report. */
  lemma LinesSnoc(reports: seq<Report>, rep: Report)
    ensures Lines(reports + [rep]) == Lines(reports) + [Render(rep.base, rep.outcome)]
  {
  }

  /** How a run ended: normally, or by an unhandled exception. */
  datatype Status = Completed | Raised(error: Error)

  /** The reports of the dependencies reached, the saves made, and how the loop ended. */
  datatype Transcript = Transcript(reports: seq<Report>, saves: seq<Save>, status: Status)

  /**
    Reconciling the dependencies one after the other, in order; the first
    exception ends the run, and what was reported before it stays.
   */
  function ReconcileAll(ds: seq<Declaration>, update: bool, hash: string -> string): (t: Transcript)
    ensures |t.reports| <= |ds|
  {
    if ds == [] then Transcript([], [], Completed)
    else
      var prev := ReconcileAll(ds[..|ds| - 1], update, hash);
      if prev.status.Raised? then prev
      else
        match ReconcileOne(ds[|ds| - 1], update, hash)
        case Err(e) => Transcript(prev.reports, prev.saves, Raised(e))
        case Ok(rep) => Transcript(prev.reports + [rep], prev.saves + rep.saves, Completed)
  }

  /** Reconciling one more dependency. */
  lemma ReconcileAllSnoc(ds: seq<Declaration>, d: Declaration, update: bool, hash: string -> string)
    ensures ReconcileAll(ds + [d], update, hash) ==
              var prev := ReconcileAll(ds, update, hash);
              if prev.status.Raised? then prev
              else
                match ReconcileOne(d, update, hash)
                case Err(e) => Transcript(prev.reports, prev.saves, Raised(e))
                case Ok(rep) => Transcript(prev.reports + [rep], prev.saves + rep.saves, Completed)
  {
    assert (ds + [d])[..|ds|] == ds;
  }

  /** Once an exception is raised, the dependencies after it change nothing. */
  lemma {:induction false} RaisedStays(a: seq<Declaration>, b: seq<Declaration>, update: bool, hash: string -> string)
    requires ReconcileAll(a, update, hash).status.Raised?
    ensures ReconcileAll(a + b, update, hash) == ReconcileAll(a, update, hash)
    decreases |b|
  {
    if b == [] {
      assert a + b == a;
    } else {
      var b' := b[..|b| - 1];
      assert (a + b)[..|a + b| - 1] == a + b';
      RaisedStays(a, b', update, hash);
    }
  }

  /**
    The run over `ds` reports on every dependency, in order, until the
    first URL without `#`, where it stops with "Unsupported URL format".
   */
  lemma {:induction false} ReconcileAllReports(ds: seq<Declaration>, update: bool, hash: string -> string)
    ensures var t := ReconcileAll(ds, update, hash);
            && (forall k :: 0 <= k < |t.reports| ==> ReconcileOne(ds[k], update, hash) == Ok(t.reports[k]))
            && (t.status.Completed? ==> |t.reports| == |ds|)
            && (t.status.Raised? ==>
                  |t.reports| < |ds| && FragmentMark !in ds[|t.reports|].url && t.status.error == UnsupportedUrlFormat)
  {
    if ds != [] {
      var init := ds[..|ds| - 1];
      ReconcileAllReports(init, update, hash);
      assert forall k :: 0 <= k < |init| ==> init[k] == ds[k];
    }
  }

  /** `s` is the save that reconciling `d` makes. */
  ghost predicate SaveFor(d: Declaration, s: Save, update: bool, hash: string -> string) {
    && update
    && FragmentMark in d.url
    && var base := GetBase(d.url).value;
       hash(d.url) != hash(base) && s == Save(d.folder, base)
  }

  /** The saves one dependency makes are the one `SaveFor` describes, if any. */
  lemma ReconcileOneSaves(d: Declaration, update: bool, hash: string -> string)
    requires FragmentMark in d.url
    ensures var saves := ReconcileOne(d, update, hash).value.saves;
            |saves| <= 1 && forall s :: s in saves <==> SaveFor(d, s, update, hash)
  {
    ReconcileOneCases(d, update, hash);
  }

  /** The saves of the reports, one report after the other. */
  function SavesOf(reports: seq<Report>): seq<Save> {
    if reports == [] then [] else SavesOf(reports[..|reports| - 1]) + reports[|reports| - 1].saves
  }

  /** The saves of a run are those of its reports, in the order of the reports. */
  lemma {:induction false} SavesInOrder(ds: seq<Declaration>, update: bool, hash: string -> string)
    ensures var t := ReconcileAll(ds, update, hash);
            t.saves == SavesOf(t.reports)
  {
    if ds != [] {
      var prev := ReconcileAll(ds[..|ds| - 1], update, hash);
      SavesInOrder(ds[..|ds| - 1], update, hash);
      if prev.status.Completed? && FragmentMark in ds[|ds| - 1].url {
        var rep := ReconcileOne(ds[|ds| - 1], update, hash).value;
        assert (prev.reports + [rep])[..|prev.reports|] == prev.reports;
      }
    }
  }

  /**
    The run over `ds` saves exactly the stale dependencies it reached, each
    in the folder that declares it, and only when `update` is set.
   */
  lemma ReconcileAllSaves(ds: seq<Declaration>, update: bool, hash: string -> string)
    ensures var t := ReconcileAll(ds, update, hash);
            && t.saves == SavesOf(t.reports)
            && |t.saves| <= |t.reports|
            && (forall s :: s in t.saves <==> exists k :: 0 <= k < |t.reports| && SaveFor(ds[k], s, update, hash))
  {
    SavesInOrder(ds, update, hash);
    SavesReached(ds, update, hash);
  }

  /** Which saves a run makes, regardless of their order. */
  lemma {:induction false} SavesReached(ds: seq<Declaration>, update: bool, hash: string -> string)
    ensures var t := ReconcileAll(ds, update, hash);
            && |t.saves| <= |t.reports|
            && (forall s :: s in t.saves <==> exists k :: 0 <= k < |t.reports| && SaveFor(ds[k], s, update, hash))
  {
    if ds != [] {
      var init, d := ds[..|ds| - 1], ds[|ds| - 1];
      SavesReached(init, update, hash);
      var prev := ReconcileAll(init, update, hash);
      assert forall k :: 0 <= k < |prev.reports| ==> init[k] == ds[k];
      if prev.status.Completed? && FragmentMark in d.url {
        ReconcileAllReports(init, update, hash);
        ReconcileOneSaves(d, update, hash);
        var rep := ReconcileOne(d, update, hash).value;
        var n := |prev.reports|;
        assert ds[n] == d;
        assert ReconcileAll(ds, update, hash) == Transcript(prev.reports + [rep], prev.saves + rep.saves, Completed);
        forall s
          ensures (exists k :: 0 <= k < n + 1 && SaveFor(ds[k], s, update, hash)) <==>
                  (exists k :: 0 <= k < n && SaveFor(ds[k], s, update, hash)) || SaveFor(d, s, update, hash)
        {
          if SaveFor(d, s, update, hash) {
            assert SaveFor(ds[n], s, update, hash);
          }
        }
      }
    }
  }

  /**
    A stale URL listed twice is saved twice, once per listing: saves are
    not merged.
   */
  lemma RepeatedStaleUrlSavedTwice(d: Declaration, hash: string -> string)
    requires FragmentMark in d.url
    requires hash(d.url) != hash(GetBase(d.url).value)
    ensures var s := Save(d.folder, GetBase(d.url).value);
            ReconcileAll([d, d], true, hash).saves == [s, s]
  {
    var base := GetBase(d.url).value;
    var rep := Report(base, Updated(hash(d.url), hash(base)), [Save(d.folder, base)]);
    ReconcileOneCases(d, true, hash);
    assert [d][..0] == [];
    assert ReconcileAll([d], true, hash) == Transcript([rep], [Save(d.folder, base)], Completed);
    assert [d, d][..1] == [d];
  }

  /** Without `--update`, nothing is ever saved. */
  lemma {:induction false} NoSavesWithoutUpdate(ds: seq<Declaration>, hash: string -> string)
    ensures ReconcileAll(ds, false, hash).saves == []
  {
    if ds != [] {
      NoSavesWithoutUpdate(ds[..|ds| - 1], hash);
    }
  }

  /** The dependencies of one group, in list order. */
  function InGroup(folder: Path, urls: seq<string>): (ds: seq<Declaration>)
    ensures |ds| == |urls|
    ensures forall k :: 0 <= k < |urls| ==> ds[k] == Declaration(folder, urls[k])
  {
    seq(|urls|, k requires 0 <= k < |urls| => Declaration(folder, urls[k]))
  }

  /** One more URL of a group. */
  lemma InGroupSnoc(folder: Path, urls: seq<string>, j: nat)
    requires j < |urls|
    ensures InGroup(folder, urls[..j + 1]) == InGroup(folder, urls[..j]) + [Declaration(folder, urls[j])]
    ensures InGroup(folder, urls[..j + 1]) <= InGroup(folder, urls)
  {
  }

  /** The dependencies of the groups of `folders`, group after group. */
  function DeclarationsOf(folders: seq<Path>, g: Groups): seq<Declaration> {
    if folders == [] then []
    else DeclarationsOf(folders[..|folders| - 1], g) + InGroup(folders[|folders| - 1], Lookup(g, folders[|folders| - 1]))
  }

  /** `dependencies.items()` flattened: the order in which `main` visits the URLs. */
  function Declarations(g: Groups): seq<Declaration> {
    DeclarationsOf(g.folders, g)
  }

  /** One more group. */
  lemma DeclarationsOfSnoc(folders: seq<Path>, i: nat, g: Groups)
    requires i < |folders|
    ensures DeclarationsOf(folders[..i + 1], g) == DeclarationsOf(folders[..i], g) + InGroup(folders[i], Lookup(g, folders[i]))
  {
    assert folders[..i + 1][..i] == folders[..i];
  }

  /** The groups of a prefix of the folders come first. */
  lemma {:induction false} DeclarationsOfPrefix(folders: seq<Path>, n: nat, g: Groups)
    requires n <= |folders|
    ensures DeclarationsOf(folders[..n], g) <= DeclarationsOf(folders, g)
    decreases |folders|
  {
    if n < |folders| {
      var init := folders[..|folders| - 1];
      assert init[..n] == folders[..n];
      DeclarationsOfPrefix(init, n, g);
    } else {
      assert folders[..n] == folders;
    }
  }

  /** The dependencies of one group are its URLs, each with the group's folder. */
  lemma InGroupMembers(folder: Path, urls: seq<string>, d: Declaration)
    ensures d in InGroup(folder, urls) <==> d.folder == folder && d.url in urls
  {
    var group := InGroup(folder, urls);
    if d in group {
      var k :| 0 <= k < |group| && group[k] == d;
    }
    if d.folder == folder && d.url in urls {
      var k :| 0 <= k < |urls| && urls[k] == d.url;
      assert group[k] == d;
    }
  }

  /** The groups of `folders` contribute exactly their URLs, each with its folder. */
  lemma {:induction false} DeclarationsOfCover(folders: seq<Path>, g: Groups, d: Declaration)
    ensures d in DeclarationsOf(folders, g) <==> d.folder in folders && d.url in Lookup(g, d.folder)
  {
    if folders != [] {
      var init, f := folders[..|folders| - 1], folders[|folders| - 1];
      DeclarationsOfCover(init, g, d);
      InGroupMembers(f, Lookup(g, f), d);
      assert folders == init + [f];
    }
  }

  /**
    The URLs `main` visits are exactly those of the groups, with their
    folders: no URL is skipped and none is invented.
   */
  lemma DeclarationsCover(g: Groups, d: Declaration)
    requires Valid(g)
    ensures d in Declarations(g) <==> d.folder in g.urls && d.url in g.urls[d.folder]
  {
    DeclarationsOfCover(g.folders, g, d);
  }

  /**
    The reconcile loops of `main` (`for folder, urls in
    dependencies.items(): for url in urls: ...`): the lines written, in
    order, the saves made, and how the loops ended.
   */
  method Reconcile(g: Groups, update: bool, hash: string -> string)
    returns (out: seq<string>, saves: seq<Save>, status: Status)
    requires Valid(g)
    ensures var t := ReconcileAll(Declarations(g), update, hash);
            out == Lines(t.reports) && saves == t.saves && status == t.status
  {
    out, saves := [], [];
    ghost var done: seq<Declaration> := [];
    ghost var reports: seq<Report> := [];
    for i := 0 to |g.folders|
      invariant done == DeclarationsOf(g.folders[..i], g)
      invariant Transcript(reports, saves, Completed) == ReconcileAll(done, update, hash)
      invariant out == Lines(reports)
    {
      var folder := g.folders[i];
      var urls := g.urls[folder];
      assert done + InGroup(folder, urls[..0]) == done;
      for j := 0 to |urls|
        invariant Transcript(reports, saves, Completed) == ReconcileAll(done + InGroup(folder, urls[..j]), update, hash)
        invariant out == Lines(reports)
      {
        var r := ReconcileUrl(Declaration(folder, urls[j]), update, hash);
        if r.Err? {
          RaisedEndsRun(g, i, j, done, update, hash);
          return out, saves, Raised(r.error);
        }
        ReconcileStep(g, i, j, done, update, hash);
        saves := saves + r.value.saves;
        out := out + [Render(r.value.base, r.value.outcome)];
        reports := reports + [r.value];
      }
      assert urls[..|urls|] == urls;
      DeclarationsOfSnoc(g.folders, i, g);
      done := done + InGroup(folder, urls);
    }
    assert g.folders[..|g.folders|] == g.folders;
    status := Completed;
  }

  /**
    Reconciling the `j`-th URL of the `i`-th group after the run so far
    completed adds its report, its line and its save.
   */
  lemma ReconcileStep(g: Groups, i: nat, j: nat, done: seq<Declaration>, update: bool, hash: string -> string)
    requires Valid(g) && i < |g.folders| && j < |g.urls[g.folders[i]]|
    requires var url := g.urls[g.folders[i]][j]; FragmentMark in url
    requires ReconcileAll(done + InGroup(g.folders[i], g.urls[g.folders[i]][..j]), update, hash).status.Completed?
    ensures var folder := g.folders[i];
            var prev := ReconcileAll(done + InGroup(folder, g.urls[folder][..j]), update, hash);
            var rep := ReconcileOne(Declaration(folder, g.urls[folder][j]), update, hash).value;
            && ReconcileAll(done + InGroup(folder, g.urls[folder][..j + 1]), update, hash) ==
                 Transcript(prev.reports + [rep], prev.saves + rep.saves, Completed)
            && Lines(prev.reports + [rep]) == Lines(prev.reports) + [Render(rep.base, rep.outcome)]
  {
    var folder := g.folders[i];
    var urls := g.urls[folder];
    var d := Declaration(folder, urls[j]);
    var before := done + InGroup(folder, urls[..j]);
    InGroupSnoc(folder, urls, j);
    assert done + InGroup(folder, urls[..j + 1]) == before + [d];
    ReconcileAllSnoc(before, d, update, hash);
    LinesSnoc(ReconcileAll(before, update, hash).reports, ReconcileOne(d, update, hash).value);
  }

  /**
    An exception at the `j`-th URL of the `i`-th group is where the whole
    run over the groups ends, keeping what was reported before it.
   */
  lemma RaisedEndsRun(g: Groups, i: nat, j: nat, done: seq<Declaration>, update: bool, hash: string -> string)
    requires Valid(g) && i < |g.folders| && j < |g.urls[g.folders[i]]|
    requires FragmentMark !in g.urls[g.folders[i]][j]
    requires done == DeclarationsOf(g.folders[..i], g)
    requires ReconcileAll(done + InGroup(g.folders[i], g.urls[g.folders[i]][..j]), update, hash).status.Completed?
    ensures var prev := ReconcileAll(done + InGroup(g.folders[i], g.urls[g.folders[i]][..j]), update, hash);
            ReconcileAll(Declarations(g), update, hash) == Transcript(prev.reports, prev.saves, Raised(UnsupportedUrlFormat))
  {
    var folder := g.folders[i];
    var urls := g.urls[folder];
    var d := Declaration(folder, urls[j]);
    var before := done + InGroup(folder, urls[..j]);
    var reached := ReachedIsPrefix(g, i, j, done);
    assert reached == before + [d];
    ReconcileAllSnoc(before, d, update, hash);
    var all := Declarations(g);
    assert all == reached + all[|reached|..];
    RaisedStays(reached, all[|reached|..], update, hash);
  }

  /** The URLs up to the `j`-th of the `i`-th group are where the visit order starts. */
  lemma ReachedIsPrefix(g: Groups, i: nat, j: nat, done: seq<Declaration>) returns (reached: seq<Declaration>)
    requires Valid(g) && i < |g.folders| && j < |g.urls[g.folders[i]]|
    requires done == DeclarationsOf(g.folders[..i], g)
    ensures var folder := g.folders[i];
            var urls := g.urls[folder];
            && reached == done + InGroup(folder, urls[..j]) + [Declaration(folder, urls[j])]
            && reached <= Declarations(g)
  {
    var folder := g.folders[i];
    var urls := g.urls[folder];
    InGroupSnoc(folder, urls, j);
    reached := done + InGroup(folder, urls[..j + 1]);
    DeclarationsOfPrefix(g.folders, i + 1, g);
    DeclarationsOfSnoc(g.folders, i, g);
    PrefixOfPrefix(reached, done + InGroup(folder, urls), Declarations(g));
  }

  /** Prefixes chain. */
  lemma PrefixOfPrefix(a: seq<Declaration>, b: seq<Declaration>, c: seq<Declaration>)
    requires a <= b && b <= c
    ensures a <= c
  {
  }

  /** The exit status: 0 on normal completion, 1 after an unhandled exception. */
  function ExitCode(status: Status): (code: int)
    ensures code == 0 <==> status.Completed?
  {
    if status.Completed? then 0 else 1
  }

  /** What the whole program leaves behind: its output, its saves and how it ended. */
  datatype Run = Run(out: seq<string>, saves: seq<Save>, status: Status)

  /**
    `main` after its arguments are parsed: gather the groups, report that
    nothing was found when there is no group at all, and reconcile
    otherwise.
   */
  function Tool(root: seq<Entry>, rootPath: Path, recursive: bool, update: bool, hash: string -> string): Run {
    match GroupAll(Manifests(root, rootPath, recursive), Empty)
    case Err(e) => Run([], [], Raised(e))
    case Ok(g) =>
      if g.folders == [] then Run([NoManifestMessage], [], Completed)
      else
        var t := ReconcileAll(Declarations(g), update, hash);
        Run(Lines(t.reports), t.saves, t.status)
  }

  /** `main`, lines 160 to 184: the whole run over the tree at `rootPath`. */
  method RunTool(root: seq<Entry>, rootPath: Path, recursive: bool, update: bool, hash: string -> string)
    returns (out: seq<string>, saves: seq<Save>, status: Status)
    ensures Run(out, saves, status) == Tool(root, rootPath, recursive, update, hash)
  {
    var dependencies := GetDependencies(root, rootPath, recursive);
    if dependencies.Err? {
      return [], [], Raised(dependencies.error);
    }
    if dependencies.value.folders == [] {
      return [NoManifestMessage], [], Completed;
    }
    out, saves, status := Reconcile(dependencies.value, update, hash);
  }

  /** No output of the reconcile loops is the "nothing found" message. */
  lemma ReconcileNeverSaysNothingFound(reports: seq<Report>)
    ensures Lines(reports) != [NoManifestMessage]
  {
    if |reports| == 1 {
      var line := Render(reports[0].base, reports[0].outcome);
      assert Lines(reports)[0] == line;
      assert line[0] == '[';
      assert NoManifestMessage[0] == 'n';
    }
  }

  /**
    The "nothing found" message is the whole output exactly when every
    manifest in scope reads without error and declares no URL; the run then
    saves nothing and exits with 0.
   */
  lemma NoManifestIff(root: seq<Entry>, rootPath: Path, recursive: bool, update: bool, hash: string -> string)
    ensures var ms := Manifests(root, rootPath, recursive);
            var r := Tool(root, rootPath, recursive, update, hash);
            && (r.out == [NoManifestMessage] <==>
                  AllRead(ms) && forall k :: 0 <= k < |ms| ==> ManifestUrls(ms[k].lines) == Ok([]))
            && (r.out == [NoManifestMessage] ==> r.saves == [] && ExitCode(r.status) == 0)
  {
    var ms := Manifests(root, rootPath, recursive);
    GroupAllOk(ms, Empty);
    if AllRead(ms) {
      NoGroupsIffNoUrls(ms);
      var g := GroupAll(ms, Empty).value;
      ReconcileNeverSaysNothingFound(ReconcileAll(Declarations(g), update, hash).reports);
    }
  }

  /** The walk over a root holding only one manifest reads that manifest into the root's group. */
  lemma SingleManifestGroups(lines: seq<string>, url: string, rootPath: Path, recursive: bool)
    requires ManifestUrls(lines) == Ok([url])
    ensures GroupAll(Manifests([File(ZON, lines)], rootPath, recursive), Empty) ==
              Ok(Groups([rootPath], map[rootPath := [url]]))
  {
    var root := [File(ZON, lines)];
    assert root[..0] == [];
    var ms := [Found(rootPath, lines)];
    assert Manifests(root, rootPath, recursive) == ms;
    assert ms[..0] == [];
    assert [url][..0] == [];
    assert AppendAll(Empty, rootPath, [url]) == Groups([rootPath], map[rootPath := [url]]);
  }

  /** A single group holding a single URL is visited as that one dependency. */
  lemma SingleDeclaration(folder: Path, url: string)
    ensures Declarations(Groups([folder], map[folder := [url]])) == [Declaration(folder, url)]
  {
    var g := Groups([folder], map[folder := [url]]);
    assert [folder][..0] == [];
    assert Lookup(g, folder) == [url];
    assert InGroup(folder, [url]) == [Declaration(folder, url)];
    assert DeclarationsOf([folder], g) == DeclarationsOf([], g) + InGroup(folder, [url]);
  }

  /** Reconciling one dependency whose hashes agree: one up-to-date report, no save. */
  lemma SingleUpToDateReport(d: Declaration, update: bool, hash: string -> string)
    requires FragmentMark in d.url
    requires hash(d.url) == hash(GetBase(d.url).value)
    ensures var base := GetBase(d.url).value;
            ReconcileAll([d], update, hash) == Transcript([Report(base, UpToDate, [])], [], Completed)
            && Lines([Report(base, UpToDate, [])]) == [UpToDateLine(base)]
  {
    assert [d][..0] == [];
    ReconcileOneCases(d, update, hash);
  }

  /**
    A tree whose only manifest, at the root, declares one URL whose pinned
    and latest hashes agree: one "already up to date" line, no save, exit 0.
   */
  lemma SingleUpToDateDependency(lines: seq<string>, url: string, rootPath: Path, recursive: bool, update: bool, hash: string -> string)
    requires ManifestUrls(lines) == Ok([url])
    requires FragmentMark in url
    requires hash(url) == hash(GetBase(url).value)
    ensures Tool([File(ZON, lines)], rootPath, recursive, update, hash) ==
              Run([UpToDateLine(GetBase(url).value)], [], Completed)
  {
    SingleManifestGroups(lines, url, rootPath, recursive);
    SingleDeclaration(rootPath, url);
    SingleUpToDateReport(Declaration(rootPath, url), update, hash);
  }
}
