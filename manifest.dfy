/**
  Reading one `build.zig.zon` manifest (`_find_dependencies`): the
  line-oriented heuristic that picks out `.url = "..."` values, and the
  folder-keyed accumulator those values are appended to.
 */
module Manifest {
  import opened Errors
  import opened Text

  /** The manifest file name (`ZON`). */
  const ZON: string := "build.zig.zon"

  /** A stripped line starting with this is a comment. */
  const CommentMarker: string := "//"

  /** A stripped line starting with this declares a dependency URL. */
  const UrlField: string := ".url"

  const Quote: char := '"'

  /** A folder, as the sequence of its path components. */
  type Path = seq<string>

  /** What one line of a manifest contributes. */
  datatype LineKind =
    | Ignored           // a comment, or any line not starting with `.url`
    | Url(value: string)
    | Malformed         // a `.url` line without a double quote: `IndexError`

  /** A stripped line that the heuristic treats as a `.url` declaration. */
  predicate IsUrlLine(line: string) {
    !StartsWith(line, CommentMarker) && StartsWith(line, UrlField)
  }

  /**
    `v` is the text of `line` after its first double quote (at `i`), up to
    the next double quote or the end of the line.
   */
  ghost predicate FirstQuotedAt(line: string, v: string, i: nat) {
    && i + 1 + |v| <= |line|
    && line[i] == Quote
    && Quote !in line[..i]
    && line[i + 1..i + 1 + |v|] == v
    && Quote !in v
    && (i + 1 + |v| == |line| || line[i + 1 + |v|] == Quote)
  }

  /**
    One iteration of the loop in `_find_dependencies`: strip the line, skip
    comments, and for a `.url` line take field 1 of `split('"')`.
   */
  function ClassifyLine(raw: string): LineKind {
    var line := Strip(raw);
    if StartsWith(line, CommentMarker) then Ignored
    else if StartsWith(line, UrlField) then
      var fields := Split(line, Quote);
      if |fields| < 2 then Malformed else Url(fields[1])
    else Ignored
  }

  /**
    A stripped line is ignored exactly when it is a comment or does not
    start with `.url` (so a comment mentioning `.url` contributes nothing),
    and a `.url` line fails exactly when it holds no double quote.
   */
  lemma ClassifyLineKinds(raw: string)
    ensures ClassifyLine(raw).Ignored? <==> !IsUrlLine(Strip(raw))
    ensures ClassifyLine(raw).Malformed? <==> IsUrlLine(Strip(raw)) && Quote !in Strip(raw)
  {
    SplitFirstFields(Strip(raw), Quote);
  }

  /**
    The value taken from a `.url` line is the text after its first double
    quote, up to the next double quote or the end of the line.
   */
  lemma ClassifyUrlLine(raw: string)
    requires ClassifyLine(raw).Url?
    ensures exists i :: 0 <= i < |Strip(raw)| && FirstQuotedAt(Strip(raw), ClassifyLine(raw).value, i)
  {
    var line := Strip(raw);
    var v := ClassifyLine(raw).value;
    SplitFirstFields(line, Quote);
    var i := IndexOf(line, Quote);
    var t := line[i + 1..];
    assert v == t[..IndexOf(t, Quote)];
    assert line[i + 1..i + 1 + |v|] == v;
    assert FirstQuotedAt(line, v, i);
  }

  /**
    A leading U+001C is stripped like any whitespace (`str.isspace()` holds
    for it), so the line still declares its URL.
   */
  lemma SeparatorStrippedExample()
    ensures ClassifyLine("\U{001C}.url = \"a#b\",") == Url("a#b")
  {
    var line := ".url = \"a#b\",";
    StripSeparatorExample();
    SplitQuoteExample();
    assert StartsWith(line, UrlField) && !StartsWith(line, CommentMarker);
  }

  /** Stripping the example line removes its leading U+001C only. */
  lemma StripSeparatorExample()
    ensures Strip("\U{001C}.url = \"a#b\",") == ".url = \"a#b\","
  {
    var raw := "\U{001C}.url = \"a#b\",";
    var line := ".url = \"a#b\",";
    assert raw[1..] == line;
    assert TrimStart(line) == line;
    assert TrimStart(raw) == line;
    assert TrimEnd(line) == line;
  }

  /** Field 1 of the example line split on double quotes is `a#b`. */
  lemma SplitQuoteExample()
    ensures |Split(".url = \"a#b\",", Quote)| >= 2
    ensures Split(".url = \"a#b\",", Quote)[1] == "a#b"
  {
    assert ".url = \"a#b\"," == ".url = " + [Quote] + "a#b" + [Quote] + ",";
    assert Quote !in ".url = " && Quote !in "a#b";
    SplitSecondField(".url = ", "a#b", ",", Quote);
  }

  /**
    What the lines contribute, in order, or the error of the first
    malformed one: the accumulation done by the loop of `_find_dependencies`.
   */
  function Harvest(kinds: seq<LineKind>): (r: Result<seq<string>>)
    ensures r.Ok? ==> |r.value| <= |kinds|
  {
    if kinds == [] then Ok([])
    else
      match Harvest(kinds[..|kinds| - 1])
      case Err(e) => Err(e)
      case Ok(urls) =>
        match kinds[|kinds| - 1]
        case Ignored => Ok(urls)
        case Url(v) => Ok(urls + [v])
        case Malformed => Err(IndexError)
  }

  /** The classification of every line of a manifest. */
  function Kinds(lines: seq<string>): (ks: seq<LineKind>)
    ensures |ks| == |lines|
    ensures forall k :: 0 <= k < |lines| ==> ks[k] == ClassifyLine(lines[k])
  {
    seq(|lines|, k requires 0 <= k < |lines| => ClassifyLine(lines[k]))
  }

  /**
    The URLs a manifest declares, in line order, or the error the first
    malformed `.url` line raises.
   */
  function ManifestUrls(lines: seq<string>): Result<seq<string>> {
    Harvest(Kinds(lines))
  }

  /** Sequencing two reads: the first error wins, otherwise the URLs are concatenated. */
  function ThenUrls(a: Result<seq<string>>, b: Result<seq<string>>): Result<seq<string>> {
    match a
    case Err(_) => a
    case Ok(x) =>
      match b
      case Err(_) => b
      case Ok(y) => Ok(x + y)
  }

  /** Harvesting two runs of lines one after the other. */
  lemma {:induction false} HarvestAppend(a: seq<LineKind>, b: seq<LineKind>)
    ensures Harvest(a + b) == ThenUrls(Harvest(a), Harvest(b))
    decreases |b|
  {
    if b == [] {
      assert a + b == a;
      match Harvest(a)
      case Err(_) =>
      case Ok(x) => assert x + [] == x;
    } else {
      var b' := b[..|b| - 1];
      assert (a + b)[..|a + b| - 1] == a + b';
      assert (a + b)[|a + b| - 1] == b[|b| - 1];
      HarvestAppend(a, b');
      match Harvest(a)
      case Err(_) =>
      case Ok(x) =>
        match Harvest(b')
        case Err(_) =>
        case Ok(y) =>
          match b[|b| - 1]
          case Ignored =>
          case Malformed =>
          case Url(v) => assert x + (y + [v]) == (x + y) + [v];
    }
  }

  /** Reading a manifest in two parts reads it in line order. */
  lemma ManifestUrlsAppend(a: seq<string>, b: seq<string>)
    ensures ManifestUrls(a + b) == ThenUrls(ManifestUrls(a), ManifestUrls(b))
  {
    assert Kinds(a + b) == Kinds(a) + Kinds(b);
    HarvestAppend(Kinds(a), Kinds(b));
  }

  /**
    What a single line contributes: nothing when it is ignored, its quoted
    value once when it is a `.url` line, and `IndexError` when it has no quote.
   */
  lemma ManifestUrlsOneLine(line: string)
    ensures ManifestUrls([line]) ==
              match ClassifyLine(line)
              case Ignored => Ok([])
              case Url(v) => Ok([v])
              case Malformed => Err(IndexError)
  {
    var ks := Kinds([line]);
    assert ks == [ClassifyLine(line)];
    assert ks[..0] == [];
    assert Harvest(ks[..0]) == Ok([]);
    match ClassifyLine(line)
    case Url(v) => assert [] + [v] == [v];
    case Ignored =>
    case Malformed =>
  }

  /** An error among the first `n` lines is the error of the whole manifest. */
  lemma HarvestErrPrefix(kinds: seq<LineKind>, n: nat)
    requires n <= |kinds| && Harvest(kinds[..n]).Err?
    ensures Harvest(kinds) == Harvest(kinds[..n])
  {
    HarvestAppend(kinds[..n], kinds[n..]);
    assert kinds[..n] + kinds[n..] == kinds;
  }

  /** A manifest reads without error exactly when none of its lines is malformed. */
  lemma {:induction false} HarvestOk(kinds: seq<LineKind>)
    ensures Harvest(kinds).Ok? <==> forall k :: 0 <= k < |kinds| ==> !kinds[k].Malformed?
  {
    if kinds != [] {
      var init := kinds[..|kinds| - 1];
      HarvestOk(init);
      assert forall k :: 0 <= k < |init| ==> init[k] == kinds[k];
    }
  }

  /** A manifest reads without error exactly when none of its lines is malformed. */
  lemma ManifestUrlsOk(lines: seq<string>)
    ensures ManifestUrls(lines).Ok? <==> forall k :: 0 <= k < |lines| ==> !ClassifyLine(lines[k]).Malformed?
  {
    HarvestOk(Kinds(lines));
  }

  /** Harvesting yields nothing, and no error, exactly when every kind is `Ignored`. */
  lemma {:induction false} HarvestNone(kinds: seq<LineKind>)
    ensures Harvest(kinds) == Ok([]) <==> forall k :: 0 <= k < |kinds| ==> kinds[k].Ignored?
  {
    if kinds != [] {
      var init := kinds[..|kinds| - 1];
      HarvestNone(init);
      assert forall k :: 0 <= k < |init| ==> init[k] == kinds[k];
    }
  }

  /**
    A manifest yields no URL and no error exactly when every line is
    ignored: comments (even ones mentioning `.url`) and non-`.url` lines.
   */
  lemma ManifestUrlsNone(lines: seq<string>)
    ensures ManifestUrls(lines) == Ok([]) <==> forall k :: 0 <= k < |lines| ==> ClassifyLine(lines[k]).Ignored?
  {
    HarvestNone(Kinds(lines));
  }

  /**
    The `defaultdict(list)` of the source, made explicit: the folders in the
    order their keys were created, and each folder's URLs.
   */
  datatype Groups = Groups(folders: seq<Path>, urls: map<Path, seq<string>>)

  /** An empty accumulator (`defaultdict(list)`). */
  const Empty: Groups := Groups([], map[])

  /**
    The folder order lists each key once, and a key exists only for a
    folder that received a URL.
   */
  ghost predicate Valid(g: Groups) {
    && (forall i, j :: 0 <= i < j < |g.folders| ==> g.folders[i] != g.folders[j])
    && (forall f :: f in g.urls <==> f in g.folders)
    && (forall f :: f in g.urls ==> g.urls[f] != [])
  }

  /** The URLs recorded for `f`, empty when `f` has no key. */
  function Lookup(g: Groups, f: Path): seq<string> {
    if f in g.urls then g.urls[f] else []
  }

  /**
    `dependencies[folder].append(url)`: get-or-create the group of `folder`
    and append to it.
   */
  function Append(g: Groups, folder: Path, url: string): (r: Groups)
    requires Valid(g)
    ensures Valid(r)
  {
    if folder in g.urls then Groups(g.folders, g.urls[folder := g.urls[folder] + [url]])
    else Groups(g.folders + [folder], g.urls[folder := [url]])
  }

  /**
    Appending extends the group of `folder` by `url` and leaves every other
    group as it was.
   */
  lemma AppendLookup(g: Groups, folder: Path, url: string, f: Path)
    requires Valid(g)
    ensures Lookup(Append(g, folder, url), f) == if f == folder then Lookup(g, f) + [url] else Lookup(g, f)
  {
  }

  /** The key of `folder` is created, last in the order, only when it was missing. */
  lemma AppendFolders(g: Groups, folder: Path, url: string)
    requires Valid(g)
    ensures Append(g, folder, url).folders == if folder in g.urls then g.folders else g.folders + [folder]
    ensures folder in Append(g, folder, url).urls
  {
  }

  /** Appending the URLs of one manifest, one by one. */
  function AppendAll(g: Groups, folder: Path, us: seq<string>): (r: Groups)
    requires Valid(g)
    ensures Valid(r)
  {
    if us == [] then g else Append(AppendAll(g, folder, us[..|us| - 1]), folder, us[|us| - 1])
  }

  /**
    The URLs of a manifest extend the group of its folder in order, every
    other group stays as it was, and a new key appears, last in the order,
    only when at least one URL is appended.
   */
  lemma AppendAllSpec(g: Groups, folder: Path, us: seq<string>)
    requires Valid(g)
    ensures Lookup(AppendAll(g, folder, us), folder) == Lookup(g, folder) + us
    ensures forall f :: f != folder ==> Lookup(AppendAll(g, folder, us), f) == Lookup(g, f)
    ensures AppendAll(g, folder, us).folders ==
              if us == [] || folder in g.urls then g.folders else g.folders + [folder]
  {
    AppendAllOwn(g, folder, us);
    forall f | f != folder
      ensures Lookup(AppendAll(g, folder, us), f) == Lookup(g, f)
    {
      AppendAllOther(g, folder, us, f);
    }
    AppendAllFolders(g, folder, us);
  }

  /** The group of `folder` is extended by the URLs, in order. */
  lemma {:induction false} AppendAllOwn(g: Groups, folder: Path, us: seq<string>)
    requires Valid(g)
    ensures Lookup(AppendAll(g, folder, us), folder) == Lookup(g, folder) + us
  {
    if us != [] {
      var init, v := us[..|us| - 1], us[|us| - 1];
      AppendAllOwn(g, folder, init);
      AppendLookup(AppendAll(g, folder, init), folder, v, folder);
      assert Lookup(g, folder) + init + [v] == Lookup(g, folder) + us;
    }
  }

  /** Every other group stays as it was. */
  lemma {:induction false} AppendAllOther(g: Groups, folder: Path, us: seq<string>, f: Path)
    requires Valid(g) && f != folder
    ensures Lookup(AppendAll(g, folder, us), f) == Lookup(g, f)
  {
    if us != [] {
      var init, v := us[..|us| - 1], us[|us| - 1];
      AppendAllOther(g, folder, init, f);
      AppendLookup(AppendAll(g, folder, init), folder, v, f);
    }
  }

  /** A new key appears, last in the order, only when a URL is appended to a new folder. */
  lemma {:induction false} AppendAllFolders(g: Groups, folder: Path, us: seq<string>)
    requires Valid(g)
    ensures AppendAll(g, folder, us).folders ==
              if us == [] || folder in g.urls then g.folders else g.folders + [folder]
  {
    if us != [] {
      var init, v := us[..|us| - 1], us[|us| - 1];
      var mid := AppendAll(g, folder, init);
      AppendAllFolders(g, folder, init);
      AppendFolders(mid, folder, v);
      if init != [] {
        AppendFolders(AppendAll(g, folder, init[..|init| - 1]), folder, init[|init| - 1]);
      }
    }
  }

  /** Appending one more URL after a run of them. */
  lemma AppendAllSnoc(g: Groups, folder: Path, us: seq<string>, v: string)
    requires Valid(g)
    ensures AppendAll(g, folder, us + [v]) == Append(AppendAll(g, folder, us), folder, v)
  {
    assert (us + [v])[..|us|] == us;
  }

  /** The whole effect of `_find_dependencies(file, dependencies)` on the accumulator. */
  function AddManifest(g: Groups, folder: Path, lines: seq<string>): (r: Result<Groups>)
    requires Valid(g)
    ensures r.Ok? ==> Valid(r.value)
  {
    match ManifestUrls(lines)
    case Err(e) => Err(e)
    case Ok(us) => Ok(AppendAll(g, folder, us))
  }

  /**
    `_find_dependencies`: walks the lines of the manifest in `folder` and
    appends each URL it finds to that folder's group.
   */
  method FindDependencies(lines: seq<string>, folder: Path, g: Groups) returns (r: Result<Groups>)
    requires Valid(g)
    ensures r == AddManifest(g, folder, lines)
  {
    var acc := g;
    ghost var found: seq<string> := [];
    ghost var kinds := Kinds(lines);
    for i := 0 to |lines|
      invariant Harvest(kinds[..i]) == Ok(found)
      invariant acc == AppendAll(g, folder, found)
    {
      var kind := ClassifyLine(lines[i]);
      assert kinds[..i + 1][..i] == kinds[..i];
      match kind
      case Ignored =>
      case Url(v) =>
        AppendAllSnoc(g, folder, found, v);
        acc := Append(acc, folder, v);
        found := found + [v];
      case Malformed =>
        HarvestErrPrefix(kinds, i + 1);
        return Err(IndexError);
    }
    assert kinds[..|lines|] == kinds;
    return Ok(acc);
  }
}
