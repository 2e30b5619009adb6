/**
 * The dependency tab: the `.py` files of a walk, the imports of each file
 * that can be read and parsed, and its "local dependencies": every other
 * Python file in its directory or below, whether or not it is imported.
 * A path is the sequence of its components.
 */
module Dependencies {
  import opened Common
  import Imports

  type Path = seq<string>

  /** `os.path.dirname`: every component but the last. */
  function Dir(p: Path): Path
  {
    if p == [] then [] else p[..|p| - 1]
  }

  /** `os.path.basename`: the last component. */
  function BaseName(p: Path): string
  {
    if p == [] then "" else p[|p| - 1]
  }

  /** Index of the last '.' in `s`, or -1 when there is none. */
  function LastDot(s: string): (i: int)
    ensures -1 <= i < |s|
    ensures i >= 0 ==> s[i] == '.'
    ensures forall j :: i < j < |s| ==> s[j] != '.'
  {
    if s == [] then -1
    else if s[|s| - 1] == '.' then |s| - 1
    else LastDot(s[..|s| - 1])
  }

  predicate AllDots(s: string)
  {
    forall j :: 0 <= j < |s| ==> s[j] == '.'
  }

  /**
   * `os.path.splitext(name)[0]`: drop everything from the last '.', unless
   * only dots stand before it (".py" and "..py" keep their whole name).
   */
  function StripExt(name: string): (r: string)
    ensures r <= name
    ensures r != name ==> name[|r|] == '.' && !AllDots(r) && forall j :: |r| < j < |name| ==> name[j] != '.'
    ensures LastDot(name) >= 0 && !AllDots(name[..LastDot(name)]) ==> r == name[..LastDot(name)]
  {
    var i := LastDot(name);
    if i >= 0 && !AllDots(name[..i]) then name[..i] else name
  }

  /** The module name reported for a path: its base name without the extension. */
  function ModuleName(p: Path): string
  {
    StripExt(BaseName(p))
  }

  /** `candidate` is another file whose components extend the directory of `current`. */
  predicate IsLocalTo(current: Path, candidate: Path)
  {
    candidate != current && Dir(current) <= candidate
  }

  /** The files of `all`, in order, that count as local dependencies of `current`. */
  function LocalSources(current: Path, all: seq<Path>): seq<Path>
  {
    if all == [] then []
    else LocalSources(current, all[..|all| - 1]) + (if IsLocalTo(current, all[|all| - 1]) then [all[|all| - 1]] else [])
  }

  /** `names` holds the module name of each source, position for position. */
  predicate NamesOf(names: seq<string>, sources: seq<Path>)
  {
    |names| == |sources| && forall i :: 0 <= i < |names| ==> names[i] == ModuleName(sources[i])
  }

  /** `find_local_dependencies`: the import statements of the file play no part. */
  method FindLocalDependencies(current: Path, all: seq<Path>) returns (deps: seq<string>)
    ensures NamesOf(deps, LocalSources(current, all))
  {
    deps := [];
    var currentDir := Dir(current);
    var i := 0;
    while i < |all|
      invariant 0 <= i <= |all|
      invariant NamesOf(deps, LocalSources(current, all[..i]))
    {
      var file := all[i];
      assert all[..i + 1][..i] == all[..i];
      if file != current {
        var moduleName := ModuleName(file);
        if currentDir <= file {
          deps := deps + [moduleName];
        }
      }
      i := i + 1;
    }
    assert all[..i] == all;
  }

  /** A path is a local source exactly when it is in the list, differs from the current file and lies under its directory. */
  lemma {:induction false} LocalSourcesMembers(current: Path, all: seq<Path>, p: Path)
    ensures p in LocalSources(current, all) <==> p in all && IsLocalTo(current, p)
  {
    if all != [] {
      LocalSourcesMembers(current, all[..|all| - 1], p);
      assert all == all[..|all| - 1] + [all[|all| - 1]];
    }
  }

  /** The current file is never its own local dependency. */
  lemma NeverItself(current: Path, all: seq<Path>)
    ensures current !in LocalSources(current, all)
  {
    LocalSourcesMembers(current, all, current);
  }

  /** The local sources keep the order of the input list. */
  lemma {:induction false} LocalSourcesInOrder(current: Path, all: seq<Path>)
    ensures IsSubsequence(LocalSources(current, all), all)
  {
    if all == [] {
    } else {
      var init, last := all[..|all| - 1], all[|all| - 1];
      LocalSourcesInOrder(current, init);
      assert all == init + [last];
      if IsLocalTo(current, last) {
        SubsequenceAppendBoth(LocalSources(current, init), init, last);
      } else {
        assert LocalSources(current, all) == LocalSources(current, init) + [];
        assert LocalSources(current, all) == LocalSources(current, init);
        SubsequenceExtend(LocalSources(current, init), init, last);
      }
    }
  }

  /** Two different files in one directory each list the other, imports or not. */
  lemma SiblingsListEachOther(p: Path, q: Path, all: seq<Path>)
    requires p in all && q in all && p != q && Dir(p) == Dir(q)
    ensures q in LocalSources(p, all) && p in LocalSources(q, all)
  {
    LocalSourcesMembers(p, all, q);
    LocalSourcesMembers(q, all, p);
  }

  /** A file's name loses exactly its ".py" suffix when something other than dots stands before it. */
  lemma PythonModuleName(stem: string)
    requires !AllDots(stem)
    ensures StripExt(stem + ".py") == stem
  {
    var name := stem + ".py";
    assert name[|stem|] == '.' && name[|stem| + 1] == 'p' && name[|stem| + 2] == 'y';
    assert LastDot(name) == |stem| by {
      assert name == (stem + ".p") + ['y'];
      assert (stem + ".p") == (stem + ".") + ['p'];
      assert name[..|name| - 1] == stem + ".p";
      assert (stem + ".p")[..|stem| + 1] == stem + ".";
    }
    assert name[..|stem|] == stem;
  }

  /**
   * Local dependencies are a list, not a set: two files named `a.py`, one
   * beside the current file and one a directory below, give "a" twice,
   * whatever any of the three files imports.
   */
  lemma SameStemListedTwice(names: seq<string>)
    requires NamesOf(names, LocalSources(["d", "main.py"], [["d", "main.py"], ["d", "a.py"], ["d", "x", "a.py"]]))
    ensures names == ["a", "a"]
  {
    var current, a1, a2 := ["d", "main.py"], ["d", "a.py"], ["d", "x", "a.py"];
    assert "a"[0] != '.';
    PythonModuleName("a");
    assert "a" + ".py" == "a.py";
    assert BaseName(a1) == "a.py" && BaseName(a2) == "a.py";
    assert [current, a1, a2][..2] == [current, a1];
    assert [current, a1][..1] == [current];
    assert [current][..0] == [];
    assert LocalSources(current, [current]) == [];
    assert LocalSources(current, [current, a1]) == [a1];
    assert LocalSources(current, [current, a1, a2]) == [a1, a2];
    assert ModuleName(a1) == "a" && ModuleName(a2) == "a";
  }

  // ---------------------------------------------------------------------
  // analyze_dependencies

  /** What opening, reading and parsing a file gave: its import-relevant nodes, or an error. */
  datatype SourceOutcome = Parsed(nodes: seq<Imports.ImportNode>) | Unreadable

  /** A file listed by the walk: its directory, its name, and what reading and parsing it would give. */
  datatype WalkedFile = WalkedFile(root: Path, filename: string, source: SourceOutcome)

  datatype DependencyRecord = DependencyRecord(file: Path, imports: seq<string>, localDependencies: seq<string>)

  predicate IsPython(name: string)
  {
    |name| >= 3 && name[|name| - 3..] == ".py"
  }

  function PathOf(f: WalkedFile): Path
  {
    f.root + [f.filename]
  }

  /** The walked files whose name ends in ".py", in walk order; hidden names are not excluded here. */
  function PythonFiles(walk: seq<WalkedFile>): seq<WalkedFile>
  {
    if walk == [] then []
    else PythonFiles(walk[..|walk| - 1]) + (if IsPython(walk[|walk| - 1].filename) then [walk[|walk| - 1]] else [])
  }

  function Paths(fs: seq<WalkedFile>): (ps: seq<Path>)
    ensures |ps| == |fs| && forall i :: 0 <= i < |fs| ==> ps[i] == PathOf(fs[i])
  {
    if fs == [] then [] else Paths(fs[..|fs| - 1]) + [PathOf(fs[|fs| - 1])]
  }

  /** The files that could be read and parsed, in order. */
  function Analyzed(fs: seq<WalkedFile>): seq<WalkedFile>
  {
    if fs == [] then []
    else Analyzed(fs[..|fs| - 1]) + (if fs[|fs| - 1].source.Parsed? then [fs[|fs| - 1]] else [])
  }

  /** `rec` is the record of parsed file `f`, whose local dependencies are drawn from `all`. */
  ghost predicate Describes(rec: DependencyRecord, f: WalkedFile, all: seq<Path>)
  {
    && f.source.Parsed?
    && rec.file == PathOf(f)
    && Imports.ReportsImports(rec.imports, f.source.nodes)
    && NamesOf(rec.localDependencies, LocalSources(rec.file, all))
  }

  /** `deps` are the records of the files `fs`, position for position. */
  ghost predicate DescribesAll(deps: seq<DependencyRecord>, fs: seq<WalkedFile>, all: seq<Path>)
  {
    |deps| == |fs| && forall k :: 0 <= k < |deps| ==> Describes(deps[k], fs[k], all)
  }

  /**
   * `analyze_dependencies` up to its final sort: one record per Python file
   * that could be read and parsed, in walk order; a file that fails is
   * skipped but still counts as a local dependency of the others.
   */
  method AnalyzeDependencies(walk: seq<WalkedFile>) returns (deps: seq<DependencyRecord>)
    ensures DescribesAll(deps, Analyzed(PythonFiles(walk)), Paths(PythonFiles(walk)))
  {
    var python: seq<WalkedFile> := [];
    var pythonFiles: seq<Path> := [];
    var i := 0;
    while i < |walk|
      invariant 0 <= i <= |walk|
      invariant python == PythonFiles(walk[..i])
      invariant pythonFiles == Paths(python)
    {
      PythonFilesStep(walk, i);
      if IsPython(walk[i].filename) {
        PathsStep(python, walk[i]);
        python := python + [walk[i]];
        pythonFiles := pythonFiles + [PathOf(walk[i])];
      }
      i := i + 1;
    }
    assert walk[..i] == walk;

    deps := [];
    var j := 0;
    while j < |python|
      invariant 0 <= j <= |python|
      invariant DescribesAll(deps, Analyzed(python[..j]), pythonFiles)
    {
      var f := python[j];
      AnalyzedStep(python, j);
      match f.source {
        case Parsed(nodes) =>
          var imports := Imports.ExtractImports(nodes);
          var localDependencies := FindLocalDependencies(PathOf(f), pythonFiles);
          var record := DependencyRecord(PathOf(f), imports, localDependencies);
          AppendDescribed(deps, Analyzed(python[..j]), record, f, pythonFiles);
          deps := deps + [record];
        case Unreadable =>
      }
      j := j + 1;
    }
    assert python[..j] == python;
  }

  lemma PythonFilesStep(walk: seq<WalkedFile>, i: nat)
    requires i < |walk|
    ensures PythonFiles(walk[..i + 1]) == PythonFiles(walk[..i]) + (if IsPython(walk[i].filename) then [walk[i]] else [])
  {
    assert walk[..i + 1][..i] == walk[..i];
  }

  lemma PathsStep(fs: seq<WalkedFile>, f: WalkedFile)
    ensures Paths(fs + [f]) == Paths(fs) + [PathOf(f)]
  {
    assert (fs + [f])[..|fs|] == fs;
  }

  lemma AnalyzedStep(fs: seq<WalkedFile>, j: nat)
    requires j < |fs|
    ensures Analyzed(fs[..j + 1]) == Analyzed(fs[..j]) + (if fs[j].source.Parsed? then [fs[j]] else [])
  {
    assert fs[..j + 1][..j] == fs[..j];
  }

  lemma AnalyzedAppend(fs: seq<WalkedFile>, f: WalkedFile)
    ensures Analyzed(fs + [f]) == Analyzed(fs) + (if f.source.Parsed? then [f] else [])
  {
    assert (fs + [f])[..|fs|] == fs;
  }

  /** Walking one more file adds it to the analysed files exactly when it is a parsed `.py` file. */
  lemma AnalyzedPythonStep(walk: seq<WalkedFile>)
    requires walk != []
    ensures var last := walk[|walk| - 1];
            Analyzed(PythonFiles(walk)) ==
            Analyzed(PythonFiles(walk[..|walk| - 1])) + (if IsPython(last.filename) && last.source.Parsed? then [last] else [])
  {
    var init, last := walk[..|walk| - 1], walk[|walk| - 1];
    if IsPython(last.filename) {
      AnalyzedAppend(PythonFiles(init), last);
    } else {
      assert PythonFiles(walk) == PythonFiles(init) + [];
      assert PythonFiles(walk) == PythonFiles(init);
    }
  }

  /** A walked file gets a record exactly when its name ends in ".py" and it could be read and parsed. */
  lemma {:induction false} AnalyzedMembers(walk: seq<WalkedFile>, f: WalkedFile)
    ensures f in Analyzed(PythonFiles(walk)) <==> f in walk && IsPython(f.filename) && f.source.Parsed?
  {
    if walk != [] {
      var init := walk[..|walk| - 1];
      AnalyzedMembers(init, f);
      AnalyzedPythonStep(walk);
      assert walk == init + [walk[|walk| - 1]];
    }
  }

  /** The records follow the walk order. */
  lemma {:induction false} AnalyzedInOrder(walk: seq<WalkedFile>)
    ensures IsSubsequence(Analyzed(PythonFiles(walk)), walk)
  {
    if walk != [] {
      var init, last := walk[..|walk| - 1], walk[|walk| - 1];
      AnalyzedInOrder(init);
      AnalyzedPythonStep(walk);
      assert walk == init + [last];
      if IsPython(last.filename) && last.source.Parsed? {
        SubsequenceAppendBoth(Analyzed(PythonFiles(init)), init, last);
      } else {
        assert Analyzed(PythonFiles(walk)) == Analyzed(PythonFiles(init)) + [];
        assert Analyzed(PythonFiles(walk)) == Analyzed(PythonFiles(init));
        SubsequenceExtend(Analyzed(PythonFiles(init)), init, last);
      }
    }
  }

  lemma AppendDescribed(deps: seq<DependencyRecord>, fs: seq<WalkedFile>, rec: DependencyRecord, f: WalkedFile, all: seq<Path>)
    requires DescribesAll(deps, fs, all) && Describes(rec, f, all)
    ensures DescribesAll(deps + [rec], fs + [f], all)
  {
  }
}
