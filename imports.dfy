/**
 * Import extraction over the nodes a syntax-tree walk of one source file
 * yields. Only the two import statement kinds matter; every other node is
 * passed over.
 */
module Imports {
  import opened Common

  /**
   * `import a, b.c` carries its alias names; `from m import x, y` carries its
   * module (absent for `from . import x`) and its names, of which there is
   * always at least one, so the first is a field of its own.
   */
  datatype ImportNode =
    | Import(names: seq<string>)
    | ImportFrom(moduleName: Option<string>, first: string, rest: seq<string>)
    | OtherNode

  /** The one entry a from-import contributes: `moduleName.first`, or `first` when there is no module name or it is empty. */
  function FromName(moduleName: Option<string>, first: string): string
  {
    if moduleName.Some? && moduleName.value != "" then moduleName.value + "." + first else first
  }

  /** Whether node `n` contributes the string `s`. */
  predicate Contributes(n: ImportNode, s: string)
  {
    match n
    case Import(names) => s in names
    case ImportFrom(moduleName, first, _) => s == FromName(moduleName, first)
    case OtherNode => false
  }

  /** Some node of the walk contributes `s`. */
  ghost predicate Imported(nodes: seq<ImportNode>, s: string)
  {
    exists i :: 0 <= i < |nodes| && Contributes(nodes[i], s)
  }

  /** The list the walk loop builds before de-duplication: every contribution in walk order. */
  function Collected(nodes: seq<ImportNode>): seq<string>
  {
    if nodes == [] then []
    else
      Collected(nodes[..|nodes| - 1]) +
      match nodes[|nodes| - 1]
      case Import(names) => names
      case ImportFrom(moduleName, first, _) => [FromName(moduleName, first)]
      case OtherNode => []
  }

  /** `list(set(s))`: each element once. Python leaves the order open; this keeps first occurrences. */
  function Dedup(s: seq<string>): (r: seq<string>)
    ensures NoDups(r)
    ensures forall x :: x in r <==> x in s
  {
    if s == [] then []
    else
      var d := Dedup(s[..|s| - 1]);
      if s[|s| - 1] in d then d else d + [s[|s| - 1]]
  }

  /** What `extract_imports` promises about its result, given the walk's nodes. */
  ghost predicate ReportsImports(r: seq<string>, nodes: seq<ImportNode>)
  {
    NoDups(r) && forall s :: s in r <==> Imported(nodes, s)
  }

  /** `extract_imports` over the nodes of an already parsed file. */
  method ExtractImports(nodes: seq<ImportNode>) returns (r: seq<string>)
    ensures ReportsImports(r, nodes)
  {
    var imports: seq<string> := [];
    var i := 0;
    while i < |nodes|
      invariant 0 <= i <= |nodes|
      invariant imports == Collected(nodes[..i])
    {
      assert nodes[..i + 1][..i] == nodes[..i];
      match nodes[i] {
        case Import(names) =>
          imports := imports + names;
        case ImportFrom(moduleName, first, _) =>
          imports := imports + [FromName(moduleName, first)];
        case OtherNode =>
          assert imports + [] == imports;
      }
      i := i + 1;
    }
    assert nodes[..i] == nodes;
    r := Dedup(imports);
    forall s
      ensures s in r <==> Imported(nodes, s)
    {
      CollectedMembers(nodes, s);
    }
  }

  /** A string is collected exactly when some node contributes it. */
  lemma {:induction false} CollectedMembers(nodes: seq<ImportNode>, s: string)
    ensures s in Collected(nodes) <==> Imported(nodes, s)
  {
    if nodes != [] {
      var init := nodes[..|nodes| - 1];
      CollectedMembers(init, s);
      if Imported(init, s) {
        var i :| 0 <= i < |init| && Contributes(init[i], s);
        assert nodes[i] == init[i];
      }
      if Imported(nodes, s) && !Contributes(nodes[|nodes| - 1], s) {
        var i :| 0 <= i < |nodes| && Contributes(nodes[i], s);
        assert init[i] == nodes[i];
      }
    }
  }

  /** `from pkg import a, b, c` yields `pkg.a` and neither `pkg.b` nor `pkg.c`. */
  lemma OnlyFirstFromName()
    ensures Dedup(Collected([ImportFrom(Some("pkg"), "a", ["b", "c"])])) == ["pkg.a"]
  {
    var nodes := [ImportFrom(Some("pkg"), "a", ["b", "c"])];
    assert nodes[..0] == [];
    assert FromName(Some("pkg"), "a") == "pkg.a";
    assert Collected(nodes) == [] + ["pkg.a"];
    assert Dedup(["pkg.a"][..0]) == [];
  }

  /** A module imported by two statements is reported once. */
  lemma RepeatedImportReportedOnce(m: string)
    ensures Dedup(Collected([Import([m]), OtherNode, Import([m])])) == [m]
  {
    var one := [Import([m])];
    var two := one + [OtherNode];
    var three := two + [Import([m])];
    assert one[..0] == [] && two[..1] == one && three[..2] == two;
    assert Collected(one) == [m];
    assert Collected(two) == [m];
    assert Collected(three) == [m, m];
    assert [m, m][..1] == [m] && [m][..0] == [];
    assert Dedup([m]) == [m];
    assert Dedup([m, m]) == [m];
    assert three == [Import([m]), OtherNode, Import([m])];
  }
}
