# zig-deps, modelled in Dafny

`zig-deps` checks whether the dependencies of a Zig project are up to date,
and can update them. It:

- reads every `build.zig.zon` manifest in the project root, or in the whole
  tree with `--recursive`;
- picks out the `.url = "..."` lines and groups the URLs by the folder that
  holds each manifest;
- for every URL, asks `zig fetch` for the hash of the pinned URL and the
  hash of its base (the URL without its `#` revision fragment);
- prints one line per URL: "already up to date", "out of date", or, with
  `--update`, "updated <old> -> <new>" after running `zig fetch --save
  <base>` in that folder.

This project models that core and proves what it does. Its modules follow
the program's stages:

- `Errors` (text.dfy): the two exceptions the core raises (`IndexError`
  and "Unsupported URL format") and a `Result` type.
- `Text` (text.dfy): the parts of Python's `str` the tool relies on.
  These are `strip()`, `startswith`, `split` on one character, and the
  slice `s[:n]`, with their properties (split and join are inverse).
- `Manifest` (manifest.dfy): `_find_dependencies`, in two parts:
  - the per-line heuristic (`ClassifyLine`), the URLs of a whole manifest
    (`ManifestUrls`), and the method `FindDependencies` with its loop;
  - the `defaultdict(list)` accumulator, as `Groups`. It holds the key order
    (Python dicts keep insertion order, and `main` iterates in that order)
    and a map from folder to URLs. `Valid` keeps every group non-empty.
- `Walk` (walk.dfy): `_collect_dependencies` and `get_dependencies`. These
  work over a directory tree given as data (`Entry`), with listing order
  preserved:
  - `Manifests` is the reading order;
  - `GroupAll` is the effect on the accumulator;
  - the method `CollectDependencies` is the recursive walk itself.
- `Reconcile` (reconcile.dfy): `get_base`, `update_package` and lines
  160-184 of `main`:
  - the hash oracle is a function parameter `hash: string -> string`;
  - standard output is the returned sequence of lines;
  - `update_package` becomes a recorded `Save(folder, base)`;
  - an unhandled exception becomes a `Raised` status, which keeps what was
    written before it.

  `ReconcileAll` specifies the loop over the flattened `(folder, url)`
  pairs. The method `Reconcile` is the nested loop; its body for one URL
  is the method `ReconcileUrl`. `RunTool` is the whole of lines 160-184.

Each URL line the model writes includes its trailing `"\n"`, as the
program's `sys.stdout.write` calls do. The "no build.zig.zon file found"
message has no trailing newline, because the program writes none.

## Model

| member | source | states |
|---|---|---|
| `Manifest.ZON` | zig_deps/main.py:21 | the manifest file name, `build.zig.zon` |
| `Text.StartsWith` | zig_deps/main.py:46-53 | `str.startswith`: the prefix test used for `//` and `.url` |
| `Manifest.ClassifyLine` | zig_deps/main.py:44-54 | how one raw line is read: ignored, a URL, or an `IndexError`; its meaning is stated by `ClassifyLineKinds` and `ClassifyUrlLine` |
| `Manifest.ClassifyLineKinds` | zig_deps/main.py:44-54 | a stripped line is ignored exactly when it starts with `//` or does not start with `.url` (so a comment mentioning `.url` contributes nothing); a `.url` line is an `IndexError` exactly when it holds no double quote |
| `Manifest.ClassifyUrlLine` | zig_deps/main.py:53-54 | the value taken from a `.url` line is the text after its first `"`, up to the next `"` or the end of the line |
| `Manifest.SeparatorStrippedExample` | zig_deps/main.py:44-54 | a `.url` line led by the file separator 0x1C is still read as a URL, because `strip()` removes that character |
| `Manifest.StripSeparatorExample` | zig_deps/main.py:44 | `strip()` removes a leading 0x1C from a `.url` line and nothing else |
| `Manifest.SplitQuoteExample` | zig_deps/main.py:54 | field 1 of `.url = "a#b",` split on `"` is `a#b` |
| `Text.Strip` | zig_deps/main.py:44 | `strip()` never lengthens the line; what it keeps is stated by `StripSpec` |
| `Text.StripSpec` | zig_deps/main.py:44 | `strip()` leaves a run of the line that neither starts nor ends with whitespace, cutting away only whitespace on either side; whitespace is every character for which `str.isspace()` holds, the ASCII separators 0x1C-0x1F and the Unicode spaces included |
| `Text.TrimStartSpec` | zig_deps/main.py:44 | the leading cut removes only whitespace and stops at the first non-whitespace character |
| `Text.TrimEndSpec` | zig_deps/main.py:44 | the trailing cut removes only whitespace and stops at the last non-whitespace character |
| `Text.IndexOf` | zig_deps/main.py:54 | the index found is the first occurrence of the separator, or the length when there is none |
| `Text.Split` | zig_deps/main.py:54 | `split(d)` always gives at least one field; the fields are stated by `SplitFirstFields`, `SplitFieldsFree`, `JoinSplit` and `SplitJoin` |
| `Text.SplitFirstFields` | zig_deps/main.py:54 | `split(d)` has a field 1 exactly when `d` occurs; field 0 is the text before the first `d`, field 1 the text between the first and second `d` (or the end) |
| `Text.SplitFieldsFree` | zig_deps/main.py:54 | no field of `split(d)` contains `d` |
| `Text.SplitSecondField` | zig_deps/main.py:54 | field 1 of `a + d + b + d + c` is `b` when neither `a` nor `b` holds `d` |
| `Text.JoinSplit` | zig_deps/main.py:54 | joining the fields of `split(d)` with `d` gives back the original text |
| `Text.SplitJoin` | zig_deps/main.py:54 | splitting a join of `d`-free fields gives back the fields |
| `Text.Take` | zig_deps/main.py:178-179 | `s[:n]` is a prefix of `s` of length `min(n, len(s))` |
| `Manifest.ManifestUrls` | zig_deps/main.py:43-54 | the URLs of one manifest in line order, or the first `IndexError`; stated by `ManifestUrlsOneLine` (what each line gives) and `ManifestUrlsAppend` (lines read in order), with `ManifestUrlsOk` and `ManifestUrlsNone` |
| `Manifest.ManifestUrlsOneLine` | zig_deps/main.py:43-54 | a single line gives no URL when it is ignored, its quoted value exactly once when it is a `.url` line, and `IndexError` when that line has no quote |
| `Manifest.ManifestUrlsAppend` | zig_deps/main.py:43-54 | reading a manifest in two parts gives the URLs of the first part followed by those of the second, or the first error; URLs come out in line order |
| `Manifest.ManifestUrlsOk` | zig_deps/main.py:53-54 | a manifest reads without error exactly when no line is a quote-less `.url` line |
| `Manifest.ManifestUrlsNone` | zig_deps/main.py:44-54 | a manifest yields no URL and no error exactly when every line is ignored |
| `Manifest.Append` | zig_deps/main.py:54 | `dependencies[folder].append(url)` keeps the accumulator valid: keys listed once, every key with a non-empty group |
| `Manifest.AppendLookup` | zig_deps/main.py:54 | appending extends the group of `folder` by the URL and leaves every other group unchanged |
| `Manifest.AppendFolders` | zig_deps/main.py:54 | a folder's key is created, last in the iteration order, only when it was missing |
| `Manifest.AppendAll` | zig_deps/main.py:43-54 | the appends of one manifest's URLs, one by one, keeping the accumulator valid; stated by `AppendAllSpec` |
| `Manifest.AppendAllSpec` | zig_deps/main.py:41-54 | a manifest's URLs extend the group of its parent folder in line order, keeping what the group held; no other group changes; a new key appears only when at least one URL is appended |
| `Manifest.AddManifest` | zig_deps/main.py:37-54 | the accumulator after reading one manifest stays valid |
| `Manifest.FindDependencies` | zig_deps/main.py:37-54 | the loop over the lines leaves the accumulator as `AddManifest` says, or stops at the first quote-less `.url` line with `IndexError` |
| `Walk.Manifests` | zig_deps/main.py:63-67 | the manifests a walk over a directory's entries reads, in listing order; stated by `ManifestsAppend`, `NonRecursiveReadsRootOnly` and `RecursiveReadsEveryManifest` |
| `Walk.EntryManifests` | zig_deps/main.py:64-67 | the manifests one entry contributes: a sub-directory only with `recursive`, a file only when named `build.zig.zon`; stated by `NonRecursiveReadsRootOnly` and `RecursiveReadsEveryManifest` |
| `Walk.ManifestsAppend` | zig_deps/main.py:63-67 | the walk visits the entries of a directory in listing order |
| `Walk.NonRecursiveReadsRootOnly` | zig_deps/main.py:63-67 | without `recursive`, a manifest is read exactly when it is a file named `build.zig.zon` directly in the root, and it is grouped under the root |
| `Walk.RecursiveReadsEveryManifest` | zig_deps/main.py:63-67 | with `recursive`, the walk reads exactly the files named `build.zig.zon` at any depth, each paired with its own parent folder |
| `Walk.GroupAll` | zig_deps/main.py:57-67 | the accumulator stays valid across the whole walk |
| `Walk.GroupAllOk` | zig_deps/main.py:54-67 | the walk succeeds exactly when every manifest it reads is free of quote-less `.url` lines |
| `Walk.GroupAllGroupsByFolder` | zig_deps/main.py:41-67 | after the walk, the group of each folder is what it held before followed by the URLs of the manifests in that folder, in reading order |
| `Walk.GroupAllKeys` | zig_deps/main.py:54-78 | a folder has a key after the walk exactly when it had one before or one of its manifests declares a URL |
| `Walk.GroupAllFolders` | zig_deps/main.py:54-78 | the key order after the walk, which is the order `dependencies.items()` visits: the keys held before, then each folder (per `NewFolders`) in the order its first URL was read |
| `Walk.FolderUrlsEmpty` | zig_deps/main.py:54-67 | a folder collects no URL exactly when none of its manifests declares one |
| `Walk.NoGroupsIffNoUrls` | zig_deps/main.py:70-78 | `get_dependencies` returns an empty mapping exactly when no manifest in scope declares a URL |
| `Walk.CollectDependencies` | zig_deps/main.py:57-67 | the recursive walk leaves the accumulator as `GroupAll` over `Manifests` says, or the first error |
| `Walk.GetDependencies` | zig_deps/main.py:70-78 | starting from an empty accumulator, the walk yields `GroupAll` over the manifests in scope, and a valid mapping |
| `Reconcile.GetBase` | zig_deps/main.py:94-101 | succeeds exactly when the URL holds a `#`; the base holds no `#` and is followed by `#` in the URL; otherwise "Unsupported URL format" |
| `Reconcile.GetBaseOfFragment` | zig_deps/main.py:94-101 | the base of `base#fragment` is `base` whenever `base` has no `#`, whatever the fragment holds (the inverse of appending a fragment) |
| `Reconcile.GetBaseExample` | zig_deps/main.py:94-101 | `https://example.com/pkg.tar.gz#abcdef1234` has base `https://example.com/pkg.tar.gz`; the URL without `#` is an error |
| `Reconcile.UpdatePackage` | zig_deps/main.py:104-118 | the save runs in the declaring folder with the fragment-free base, and fails exactly when the URL has no `#` |
| `Reconcile.Resolve` | zig_deps/main.py:173-182 | equal hashes are up to date; differing hashes are updated (keeping both hashes) exactly when `update` is set, and out of date otherwise |
| `Reconcile.HASH_DISPLAY_LEN` | zig_deps/main.py:20 | each hash in an "updated" line is cut to 7 characters |
| `Reconcile.NoManifestMessage` | zig_deps/main.py:162-165 | the "no build.zig.zon file found" message, without a trailing newline; `NoManifestIff` states when it is written |
| `Reconcile.UpToDateLine` | zig_deps/main.py:174 | the "already up to date" line; `Render` and `SingleUpToDateDependency` state what it holds |
| `Reconcile.UpdatedLine` | zig_deps/main.py:177-180 | the "updated" line with both hashes cut to `HASH_DISPLAY_LEN` characters; `Render` and `Take` state what it holds |
| `Reconcile.OutOfDateLine` | zig_deps/main.py:182 | the "out of date" line; `Render` states what it holds |
| `Reconcile.Render` | zig_deps/main.py:174-182 | every line written for a URL starts with its base in brackets and ends with a newline |
| `Reconcile.ReconcileOne` | zig_deps/main.py:170-182 | a URL is processed exactly when it holds a `#`; otherwise "Unsupported URL format" |
| `Reconcile.ReconcileOneCases` | zig_deps/main.py:170-182 | hashes are queried with the full URL and its base; equal hashes give an up-to-date report and no save, whatever `update` says; differing hashes give one save of `(folder, base)` and both hashes with `update`, and an out-of-date report without a save otherwise |
| `Reconcile.ReconcileUrl` | zig_deps/main.py:170-182 | the body of the inner loop computes exactly the report `ReconcileOne` gives: its base, its outcome and its save, if any |
| `Reconcile.Lines` | zig_deps/main.py:174-182 | one output line per report |
| `Reconcile.ReconcileAll` | zig_deps/main.py:168-184 | no more reports than URLs |
| `Reconcile.ReconcileAllReports` | zig_deps/main.py:168-184 | one report per URL in group order then list order, each the report of that URL; the run stops at the first URL without `#` with "Unsupported URL format", after reporting all URLs before it |
| `Reconcile.ReconcileAllSaves` | zig_deps/main.py:168-182 | the saves are, in order, the saves of the reports one after the other; a save is made exactly for each reached URL whose hashes differ, only with `update`, in that URL's folder with its base; never more saves than lines |
| `Reconcile.SavesInOrder` | zig_deps/main.py:168-182 | the saves of a run are the saves of its reports, concatenated in report order |
| `Reconcile.SavesReached` | zig_deps/main.py:168-182 | a save is made exactly for each reached URL whose hashes differ, only with `update`, and never more saves than lines |
| `Reconcile.RepeatedStaleUrlSavedTwice` | zig_deps/main.py:175-176 | a stale URL listed twice with `update` is saved twice: saves are not merged |
| `Reconcile.NoSavesWithoutUpdate` | zig_deps/main.py:173-182 | without `--update`, nothing is ever saved |
| `Reconcile.InGroupSnoc` | zig_deps/main.py:169 | the URLs of one group are visited in list order: one more URL adds its declaration, with the group's folder, at the end |
| `Reconcile.InGroupMembers` | zig_deps/main.py:169 | a group contributes exactly its URLs, each with the group's folder |
| `Reconcile.DeclarationsOfSnoc` | zig_deps/main.py:168-169 | the URLs of group `i` are visited right after those of the groups before it, in list order |
| `Reconcile.DeclarationsOfPrefix` | zig_deps/main.py:168-169 | the URLs of earlier groups are visited before those of later groups |
| `Reconcile.Declarations` | zig_deps/main.py:168-169 | `dependencies.items()` flattened in visit order; stated by `DeclarationsOfSnoc`, `DeclarationsOfPrefix` and `DeclarationsCover` |
| `Reconcile.DeclarationsCover` | zig_deps/main.py:168-169 | the loops visit exactly the URLs of the mapping, each with its own folder |
| `Reconcile.Reconcile` | zig_deps/main.py:168-184 | the nested loops write exactly the lines of `ReconcileAll`'s reports, make its saves, and end as it does |
| `Reconcile.Tool` | zig_deps/main.py:160-184 | the whole run after argument parsing as a value; stated by `RunTool`, `ExitCode`, `NoManifestIff` and `SingleUpToDateDependency` |
| `Reconcile.RunTool` | zig_deps/main.py:160-184 | `main` after argument parsing: nothing written on a walk error, the single "no build.zig.zon file found" message when the mapping is empty, the reconcile loops otherwise |
| `Reconcile.ExitCode` | zig_deps/main.py:160-184 | exit status 0 exactly when the run completes, including the "nothing found" case |
| `Reconcile.NoManifestIff` | zig_deps/main.py:160-166 | the output is exactly the "nothing found" message when every manifest in scope reads cleanly and declares no URL, and only then; that run saves nothing and exits with 0 |
| `Reconcile.SingleUpToDateDependency` | zig_deps/main.py:160-184 | a root whose one manifest declares one URL with matching hashes: one "already up to date" line, no save, exit 0, with or without `--update` |

## Left out

- `get_hash` and `update_package` run `zig fetch` as subprocesses. The model uses a pure, total hash function instead, and records each save as a `Save(folder, base)` value. So the model does not cover:
  - a failing process (`CalledProcessError`);
  - an oracle that answers the same URL differently on two calls;
  - the decoding of the process output.
- Filesystem access (`iterdir`, `is_dir`, `is_file`, `open`, `readlines`) is replaced by a tree of entries with their names and lines, in listing order. The model does not cover:
  - entries that are neither files nor directories, and symbolic links;
  - read and decoding errors;
  - how file text is cut into lines.
- `argparse`, the `directory` argument validator, `--version`, the `Path.cwd()` default and the `NAME` constant are command-line glue, outside the model.
- `sys.stdout.write` is modelled as the sequence of strings written, not as a stream.
- `Manifest.FindDependencies`: on a `.url` line without a quote, Python creates the folder's key (empty) before raising `IndexError`. The model does not create it. The difference cannot be observed, because the exception ends the run.
- `Reconcile.ExitCode`: the process exit code after an unhandled exception is modelled as 1. The model does not cover the traceback text.
- `Reconcile.ReconcileUrl`: lines and saves are kept in two separate sequences, so the model does not record that `update_package` runs before the "updated" line is written. The order can be seen only when `zig fetch --save` fails, and a failing process is left out above.
