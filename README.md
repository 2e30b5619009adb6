# Interactive cleanup dashboard: the analysis core

A Dafny model of the analysis core of `InteractiveCleanupDashboard` in
`DupTool.py`, a desktop tool that scans a directory tree. The core has five
parts:

- **Duplicate grouping** (`find_duplicates`). It walks the tree and skips
  hidden names, `desktop.ini` and `Thumbs.db`, and files whose `os.stat`
  raises `PermissionError` or `FileNotFoundError`. It buckets the surviving files in a dictionary keyed by (file name,
  byte size). It emits every bucket with more than one member, in the
  dictionary's insertion order, and then sorts the result in descending
  order on a display column chosen by name, falling back to the file name.
- **Import extraction** (`extract_imports`). Over the nodes of one parsed
  file it collects every name of a plain `import`. For each `from m import
  x, ...` it collects only `m.x`, or only `x` when `m` is absent. It then
  drops repeats.
- **Local dependencies** (`find_local_dependencies`). For one Python file,
  this is the extension-less base name of every other Python file that lies
  in its directory or below. What the file actually imports plays no part.
- **Dependency analysis** (`analyze_dependencies`). It takes the `.py` files
  of a walk and makes one record per file that can be read and parsed. A
  file that fails is skipped but still counts as a local dependency of the
  others.
- **Deletion** (the loop of `delete_selected_files`). Each selected path is
  removed on its own. A failure is reported and the loop goes on. The
  removed paths are appended to `logs.txt` as one block: a timestamped
  header, one line per path and a blank line. Nothing is written when no
  path was removed.

The code's loops are modelled as methods with loop invariants. Each method
is proved against a specification function, and the properties of those
functions are lemmas:

- `Duplicates` and the bucket functions in `duplicates.dfy`;
- `Collected` and `Dedup` in `imports.dfy`;
- `LocalSources`, `PythonFiles` and `Analyzed` in `dependencies.dfy`;
- `Succeeded`, `Failures` and `LogBlock` in `deletion.dfy`.

The dictionary of `find_duplicates` is a `map` from key to bucket plus the
sequence of its keys in insertion order. The log file is a class whose text
only grows. Python's `sorted(..., reverse=True)` is modelled as a stable
insertion sort under Python's code-point string order (`stable_sort.dfy`,
`common.dfy`). Every stable sort on the same key gives the same list, so
this choice does not change the result.

Everything the program gets from the operating system is an input to the
model:

- The directory walk is a sequence of entries.
- Each `os.stat` result is part of its entry, already formatted, or
  `Fail` for one of the two errors the scan catches.
- In the dependency analysis, each file's source is its import-relevant
  syntax nodes, or `Unreadable`.
- Each `os.remove` result is one `RemoveOutcome` per selected path.
- The two timestamps are strings.
- The megabyte formatting `f"{size / (1024 * 1024):.2f} MB"` is the
  parameter `fmt`.

Points where the code behaves differently from what its names suggest:

- A from-import whose module is absent or empty contributes its first
  name alone, with no module prefix (`Imports.FromName`).
- Local dependencies are a list that can repeat a name: two `a.py` files
  in different directories give "a" twice
  (`Dependencies.SameStemListedTwice`).
- The dependency walk keeps hidden and denylisted names; only the
  duplicate scan skips them.
- A parse error leaves `extract_imports`, and `analyze_dependencies`
  catches it and skips the file without reporting anything, as it does for
  a read error (`Unreadable`).
- The four sort keys of the duplicate list are `filename`, `path`, `size`
  and `last_modified`.

## Model

| member | source | states |
|---|---|---|
| Duplicates.Join | DupTool.py:207 | the joined path ends with the file name; an absolute file name replaces the directory |
| Duplicates.JoinParts | DupTool.py:207 | for a name that is not absolute, the joined path is the directory, then one '/' unless the directory is empty or ends in '/', then the name |
| Duplicates.JoinLastComponent | DupTool.py:207 | the base name of the joined path is the file name the walk listed, whatever the directory |
| Duplicates.ParseSortKey | DupTool.py:238-240 | the chosen column is the one with that name, and it is the file name exactly when no column has that name |
| Duplicates.ParseColumnName | DupTool.py:239 | each of the four column names selects its own column |
| Duplicates.ScanEntries | DupTool.py:205-230 | the dictionary maps exactly the seen keys, in first-seen order, each to the records of the surviving files with that key, in walk order; hidden and denylisted names and failed stats add nothing |
| Duplicates.CollectDuplicates | DupTool.py:233-235 | the buckets with more than one member are concatenated in key-insertion order |
| Duplicates.FindDuplicates | DupTool.py:200-241 | the result is the stable descending sort of the shared buckets, on the chosen column; it is a permutation of the surviving records whose (name, size) occurs at least twice |
| Duplicates.GroupedIsShared | DupTool.py:232-235 | concatenating the buckets of size at least two neither loses nor adds a record, compared with the reference selection of records whose key repeats |
| Duplicates.DuplicatesArePermutation | DupTool.py:200-241 | the output is a permutation of the surviving records whose key is shared |
| Duplicates.DuplicatesMembership | DupTool.py:219-235 | a record is reported if and only if it survived the filter and stat and at least two survivors have its name and size |
| Duplicates.SurvivorFrom | DupTool.py:205-230 | every surviving record is the record of a walked file with a name not skipped and a successful stat |
| Duplicates.KeptSurvives | DupTool.py:205-230 | every walked file with a name not skipped and a successful stat has its record among the survivors |
| Duplicates.SurvivorOrigin | DupTool.py:205-230 | a record survives if and only if it is the record of a walked file with a name not skipped and a successful stat |
| Duplicates.KeptPairShareBucket | DupTool.py:218-228 | two kept walked files with the same name and size put at least two records under that key |
| Duplicates.DuplicatesComeFromKeptEntries | DupTool.py:209-230 | no reported record has a hidden or denylisted name or comes from a failed stat |
| Duplicates.UnkeptEntryIgnored | DupTool.py:209-230 | inserting a skipped or unstat-able file anywhere in the walk leaves the result unchanged |
| Duplicates.DuplicateKeysRepeat | DupTool.py:233-235 | every (name, size) key in the output occurs there at least twice |
| Duplicates.SameNameAndSizeBothReported | DupTool.py:218-235 | two different walked files, both kept, with the same name and byte size are both reported, whatever their paths and times |
| Duplicates.DuplicatesSorted | DupTool.py:241 | the output is in non-increasing order of the chosen column, and records that tie keep their pre-sort order |
| Duplicates.UnknownSortKeyIsFilename | DupTool.py:239-240 | an unknown sort key gives the same output as "filename" |
| Duplicates.NineMegabytesBeforeTen | DupTool.py:226-241 | sorted on size, a "9.00 MB" record comes before a "10.00 MB" record in the output, because display strings are compared |
| StableSort.SortPermutation | DupTool.py:241 | sorting rearranges and neither adds nor drops |
| StableSort.SortSorted | DupTool.py:241 | the sorted sequence is in non-increasing key order |
| StableSort.SortStable | DupTool.py:241 | elements with equal keys keep their input order |
| Imports.ExtractImports | DupTool.py:278-288 | the result has no repeats and contains a string if and only if some import node contributes it |
| Imports.Dedup | DupTool.py:288 | the list holds each element of its input once and nothing else |
| Imports.CollectedMembers | DupTool.py:282-286 | a string is collected by the walk loop if and only if some node contributes it |
| Imports.OnlyFirstFromName | DupTool.py:286 | `from pkg import a, b, c` yields only "pkg.a" |
| Imports.RepeatedImportReportedOnce | DupTool.py:284-288 | a module imported by two statements is reported once |
| Dependencies.LastDot | DupTool.py:296 | the index is the last '.' of the name, or -1 when there is none |
| Dependencies.StripExt | DupTool.py:296 | the stem is a prefix of the name; it is the name cut at its last '.' whenever something other than dots stands before that dot, and the whole name otherwise |
| Dependencies.PythonModuleName | DupTool.py:296 | a file name loses exactly its ".py" suffix when something other than dots stands before it |
| Dependencies.FindLocalDependencies | DupTool.py:290-302 | the result is the module name of each local source, in list order |
| Dependencies.LocalSourcesMembers | DupTool.py:294-300 | a path is a local source if and only if it is listed, differs from the current file and extends its directory |
| Dependencies.NeverItself | DupTool.py:295 | the current file is never its own local dependency |
| Dependencies.LocalSourcesInOrder | DupTool.py:294-302 | the local sources are a subsequence of the file list |
| Dependencies.SiblingsListEachOther | DupTool.py:299-300 | two different files in one directory list each other, whatever they import |
| Dependencies.SameStemListedTwice | DupTool.py:294-302 | two `a.py` files under the current directory give "a" twice |
| Dependencies.AnalyzedMembers | DupTool.py:248-272 | a walked file gets a record if and only if its name ends in ".py" and it could be read and parsed |
| Dependencies.AnalyzedInOrder | DupTool.py:248-272 | the files that get a record follow the walk order |
| Dependencies.AnalyzeDependencies | DupTool.py:244-272 | one record per `.py` file that can be read and parsed, in walk order; each holds the file's path, its reported imports and its local dependencies among all `.py` files, unreadable ones included |
| Deletion.RemoveSelected | DupTool.py:334-347 | the logged paths are the selected paths whose removal succeeded, in order; the count is their number; one error message per failure, in order |
| Deletion.SucceededMembers | DupTool.py:341-344 | a path is logged if and only if some selection of it was removed |
| Deletion.SucceededInOrder | DupTool.py:337-344 | the logged paths keep the selection order |
| Deletion.EveryPathAccountedFor | DupTool.py:337-347 | the number of logged paths plus the number of error messages equals the number selected |
| Deletion.SecondFailureSkipped | DupTool.py:337-347 | with three selected files where the second fails, the first and third are logged and only the second is reported |
| Deletion.SplitJoin | DupTool.py:353-354 | lines without newlines written one per line read back as the same lines |
| Deletion.LogBlockLines | DupTool.py:352-355 | a written block reads back as the header line, one line per removed path, and one blank line |
| Deletion.LogFile.AppendDeletions | DupTool.py:351-355 | the log text becomes its old text followed by the block for these paths |
| Deletion.DeleteSelectedFiles | DupTool.py:334-355 | the reported count and errors are those of the removal loop; the log grows by one block of the removed paths, or not at all when none was removed; old log text is never changed |

## Left out

- The window, tree views, buttons, `sort_column`, CSV export, message boxes, the confirmation dialog and the re-scan after deletion are presentation. The deletion model starts after a confirmed, non-empty selection.
- `os.walk`, `os.stat`, `open`/`read`, `ast.parse`, `os.remove` and the clock are inputs to the model (see above), not modelled operations.
- Duplicates.ScanEntries: only `PermissionError` and `FileNotFoundError` from `os.stat` are caught (DupTool.py:229). Any other `os.stat` error, such as a symlink loop or a name that is too long, and any error of `datetime.fromtimestamp` on an out-of-range time (DupTool.py:216), escapes and aborts `find_duplicates`. The model has no such abort path: every entry either has a stat result or is skipped.
- Deletion.DeleteSelectedFiles: opening and writing `logs.txt` (DupTool.py:350-355) is not inside a `try`. A failure there escapes after the files are already removed. It can leave a half-written block, and it skips the re-scan and the final "Deleted N files" message. In the model, `LogFile.AppendDeletions` always succeeds.
- Deletion.LogBlockLines: holds only for paths without a newline. A POSIX path may contain '\n', and the source writes it as is (DupTool.py:354), so such a path spans several lines of the log.
- The megabyte string and the `strftime` timestamps are taken as given strings; floating-point formatting is not modelled.
- Dependencies.AnalyzeDependencies: the final `sorted(dependencies, key=lambda x: x[sort_key])` (DupTool.py:275-276) is left out. Its key is not validated, and two of its columns hold lists of strings that Python compares lexicographically element by element. The result is stated before that sort, in walk order.
- Imports.ExtractImports: only the set of reported strings and the absence of repeats is stated, not their order, because `list(set(...))` has no defined order. The order of `ast.walk` is irrelevant for the same reason, so the nodes are taken in any order.
- Dependencies.IsLocalTo: paths are sequences of components, so `os.path.commonpath` is modelled as a component prefix of the directory. The normalisation of `.`, `..` and repeated separators, and the `ValueError` for mixed absolute and relative paths, are not modelled.
- Duplicates.Join models `os.path.join` for POSIX separators only.
- Duplicates.FileRecord also carries the byte size that its key was built from. The source recomputes the key only during the scan.
- Removing an item from the tree view after a successful delete (DupTool.py:345) is presentation and not modelled.
- Strings are sequences of Dafny `char`, which cannot hold lone surrogates. Python represents undecodable bytes in POSIX file names as lone surrogates (the `surrogateescape` error handler), so such names have no counterpart in the model. For all other names, `Common.Below` is Python's code-point order.
