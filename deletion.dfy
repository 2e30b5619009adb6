/**
 * Deleting the selected duplicates: every selected path is removed on its
 * own, a failure is reported and the loop goes on, and the removed paths are
 * appended as one block to the deletion log.
 */
module Deletion {
  import opened Common

  /** What `os.remove` did for one selected path. */
  datatype RemoveOutcome = Removed | RemoveFailed(reason: string)

  /** The selected paths whose removal succeeded, in selection order. */
  function Succeeded(selected: seq<string>, outcomes: seq<RemoveOutcome>): seq<string>
    requires |outcomes| == |selected|
  {
    if selected == [] then []
    else
      var n := |selected| - 1;
      Succeeded(selected[..n], outcomes[..n]) + (if outcomes[n].Removed? then [selected[n]] else [])
  }

  /** The error shown for a path that could not be removed. */
  function ErrorMessage(path: string, reason: string): string
  {
    "Could not delete " + path + ": " + reason
  }

  /** One error message per failed removal, in selection order. */
  function Failures(selected: seq<string>, outcomes: seq<RemoveOutcome>): seq<string>
    requires |outcomes| == |selected|
  {
    if selected == [] then []
    else
      var n := |selected| - 1;
      Failures(selected[..n], outcomes[..n]) +
      match outcomes[n]
      case Removed => []
      case RemoveFailed(reason) => [ErrorMessage(selected[n], reason)]
  }

  /** The deletion loop: `outcomes[i]` is what removing `selected[i]` gave. */
  method RemoveSelected(selected: seq<string>, outcomes: seq<RemoveOutcome>)
    returns (deletedCount: nat, logEntries: seq<string>, errors: seq<string>)
    requires |outcomes| == |selected|
    ensures logEntries == Succeeded(selected, outcomes)
    ensures deletedCount == |logEntries|
    ensures errors == Failures(selected, outcomes)
  {
    deletedCount, logEntries, errors := 0, [], [];
    var i := 0;
    while i < |selected|
      invariant 0 <= i <= |selected|
      invariant logEntries == Succeeded(selected[..i], outcomes[..i])
      invariant deletedCount == |logEntries|
      invariant errors == Failures(selected[..i], outcomes[..i])
    {
      var filepath := selected[i];
      assert selected[..i + 1][..i] == selected[..i] && outcomes[..i + 1][..i] == outcomes[..i];
      match outcomes[i] {
        case Removed =>
          deletedCount := deletedCount + 1;
          logEntries := logEntries + [filepath];
          assert errors == errors + [];
        case RemoveFailed(reason) =>
          errors := errors + [ErrorMessage(filepath, reason)];
          assert logEntries == logEntries + [];
      }
      i := i + 1;
    }
    assert selected[..i] == selected && outcomes[..i] == outcomes;
  }

  /** A path is logged exactly when some selection of it was removed. */
  lemma {:induction false} SucceededMembers(selected: seq<string>, outcomes: seq<RemoveOutcome>, p: string)
    requires |outcomes| == |selected|
    ensures p in Succeeded(selected, outcomes) <==>
            exists i :: 0 <= i < |selected| && selected[i] == p && outcomes[i].Removed?
  {
    if selected != [] {
      var n := |selected| - 1;
      SucceededMembers(selected[..n], outcomes[..n], p);
      if p in Succeeded(selected[..n], outcomes[..n]) {
        var i :| 0 <= i < n && selected[..n][i] == p && outcomes[..n][i].Removed?;
        assert selected[i] == p && outcomes[i].Removed?;
      }
      if exists i :: 0 <= i < |selected| && selected[i] == p && outcomes[i].Removed? {
        var i :| 0 <= i < |selected| && selected[i] == p && outcomes[i].Removed?;
        if i < n {
          assert selected[..n][i] == p && outcomes[..n][i].Removed?;
        }
      }
    }
  }

  /** The logged paths keep the selection order. */
  lemma {:induction false} SucceededInOrder(selected: seq<string>, outcomes: seq<RemoveOutcome>)
    requires |outcomes| == |selected|
    ensures IsSubsequence(Succeeded(selected, outcomes), selected)
  {
    if selected != [] {
      var n := |selected| - 1;
      SucceededInOrder(selected[..n], outcomes[..n]);
      assert selected == selected[..n] + [selected[n]];
      if outcomes[n].Removed? {
        SubsequenceAppendBoth(Succeeded(selected[..n], outcomes[..n]), selected[..n], selected[n]);
      } else {
        assert Succeeded(selected, outcomes) == Succeeded(selected[..n], outcomes[..n]) + [];
        assert Succeeded(selected, outcomes) == Succeeded(selected[..n], outcomes[..n]);
        SubsequenceExtend(Succeeded(selected[..n], outcomes[..n]), selected[..n], selected[n]);
      }
    }
  }

  /** The logged paths and the error messages together number exactly the selected paths. */
  lemma {:induction false} EveryPathAccountedFor(selected: seq<string>, outcomes: seq<RemoveOutcome>)
    requires |outcomes| == |selected|
    ensures |Succeeded(selected, outcomes)| + |Failures(selected, outcomes)| == |selected|
  {
    if selected != [] {
      var n := |selected| - 1;
      EveryPathAccountedFor(selected[..n], outcomes[..n]);
    }
  }

  /** Three selected files where the second cannot be removed: the first and third are logged, the second reported. */
  lemma SecondFailureSkipped(a: string, b: string, c: string, reason: string)
    ensures Succeeded([a, b, c], [Removed, RemoveFailed(reason), Removed]) == [a, c]
    ensures Failures([a, b, c], [Removed, RemoveFailed(reason), Removed]) == [ErrorMessage(b, reason)]
  {
    var sel, out := [a, b, c], [Removed, RemoveFailed(reason), Removed];
    assert sel[..2] == [a, b] && out[..2] == [Removed, RemoveFailed(reason)];
    assert sel[..2][..1] == [a] && out[..2][..1] == [Removed];
    assert sel[..2][..1][..0] == [] && out[..2][..1][..0] == [];
    assert Succeeded([a], [Removed]) == [a];
    assert Succeeded([a, b], [Removed, RemoveFailed(reason)]) == [a];
    assert Failures([a], [Removed]) == [];
    assert Failures([a, b], [Removed, RemoveFailed(reason)]) == [ErrorMessage(b, reason)];
  }

  // ---------------------------------------------------------------------
  // The log text

  /** The header line of one deletion block. */
  function Header(timestamp: string): string
  {
    "Deleted Files - " + timestamp + ":"
  }

  /** Each line followed by a newline. */
  function JoinLines(lines: seq<string>): string
  {
    if lines == [] then "" else lines[0] + "\n" + JoinLines(lines[1..])
  }

  /** The block written for one batch: the header, one line per path, then a blank line. */
  function LogBlock(timestamp: string, entries: seq<string>): string
  {
    JoinLines([Header(timestamp)] + entries + [""])
  }

  /** Position of the first newline of `s`, or `|s|` when there is none. */
  function FirstNewline(s: string): (i: nat)
    ensures i <= |s|
    ensures forall j :: 0 <= j < i ==> s[j] != '\n'
    ensures i < |s| ==> s[i] == '\n'
  {
    if s == [] || s[0] == '\n' then 0 else 1 + FirstNewline(s[1..])
  }

  /** Reading text back as lines: each line ends at a newline. */
  function SplitLines(s: string): seq<string>
    decreases |s|
  {
    if s == [] then []
    else
      var i := FirstNewline(s);
      if i == |s| then [s] else [s[..i]] + SplitLines(s[i + 1..])
  }

  predicate NoNewline(s: string)
  {
    forall j :: 0 <= j < |s| ==> s[j] != '\n'
  }

  lemma {:induction false} JoinLinesAppend(lines: seq<string>, l: string)
    ensures JoinLines(lines + [l]) == JoinLines(lines) + l + "\n"
  {
    if lines != [] {
      assert (lines + [l])[1..] == lines[1..] + [l];
      JoinLinesAppend(lines[1..], l);
    } else {
      assert [l][1..] == [];
    }
  }

  lemma FirstNewlineAfter(l: string, rest: string)
    requires NoNewline(l)
    ensures FirstNewline(l + "\n" + rest) == |l|
  {
    var s := l + "\n" + rest;
    assert s[|l|] == '\n';
    assert forall j :: 0 <= j < |l| ==> s[j] == l[j];
  }

  /** Splitting the joined lines gives the lines back. */
  lemma {:induction false} SplitJoin(lines: seq<string>)
    requires forall k :: 0 <= k < |lines| ==> NoNewline(lines[k])
    ensures SplitLines(JoinLines(lines)) == lines
  {
    if lines != [] {
      var l, rest := lines[0], JoinLines(lines[1..]);
      var s := l + "\n" + rest;
      FirstNewlineAfter(l, rest);
      assert s[..|l|] == l;
      assert s[|l| + 1..] == rest;
      SplitJoin(lines[1..]);
      assert lines == [l] + lines[1..];
    }
  }

  /**
   * Read back as lines, a deletion block is one header line, one line per
   * removed path, and one blank line.
   */
  lemma LogBlockLines(timestamp: string, entries: seq<string>)
    requires NoNewline(timestamp)
    requires forall k :: 0 <= k < |entries| ==> NoNewline(entries[k])
    ensures SplitLines(LogBlock(timestamp, entries)) == [Header(timestamp)] + entries + [""]
  {
    var lines := [Header(timestamp)] + entries + [""];
    var h := Header(timestamp);
    assert h == "Deleted Files - " + timestamp + ":";
    forall j | 0 <= j < |h|
      ensures h[j] != '\n'
    {
      if j >= 16 && j < 16 + |timestamp| {
        assert h[j] == timestamp[j - 16];
      }
    }
    forall k | 0 <= k < |lines|
      ensures NoNewline(lines[k])
    {
      if 0 < k < |lines| - 1 {
        assert lines[k] == entries[k - 1];
      }
    }
    SplitJoin(lines);
  }

  /** The file `logs.txt`, opened in append mode: its text only ever grows. */
  class LogFile {
    var text: string

    constructor (initial: string)
      ensures text == initial
    {
      text := initial;
    }

    /** Writes one block: the header with the time of writing, each path on its own line, a blank line. */
    method AppendDeletions(timestamp: string, entries: seq<string>)
      modifies this
      ensures text == old(text) + LogBlock(timestamp, entries)
    {
      text := text + Header(timestamp) + "\n";
      var i := 0;
      while i < |entries|
        invariant 0 <= i <= |entries|
        invariant text == old(text) + JoinLines([Header(timestamp)] + entries[..i])
      {
        JoinLinesAppend([Header(timestamp)] + entries[..i], entries[i]);
        assert [Header(timestamp)] + entries[..i + 1] == [Header(timestamp)] + entries[..i] + [entries[i]];
        text := text + entries[i] + "\n";
        i := i + 1;
      }
      assert entries[..i] == entries;
      JoinLinesAppend([Header(timestamp)] + entries, "");
      text := text + "\n";
    }
  }

  /**
   * `delete_selected_files` after the user confirmed: remove each path, and
   * append a block to the log only when at least one removal succeeded.
   */
  method DeleteSelectedFiles(log: LogFile, selected: seq<string>, outcomes: seq<RemoveOutcome>, timestamp: string)
    returns (deletedCount: nat, errors: seq<string>)
    requires |outcomes| == |selected|
    modifies log
    ensures deletedCount == |Succeeded(selected, outcomes)|
    ensures errors == Failures(selected, outcomes)
    ensures log.text == old(log.text) +
              if Succeeded(selected, outcomes) == [] then "" else LogBlock(timestamp, Succeeded(selected, outcomes))
    ensures old(log.text) <= log.text
  {
    var logEntries;
    deletedCount, logEntries, errors := RemoveSelected(selected, outcomes);
    if logEntries != [] {
      log.AppendDeletions(timestamp, logEntries);
    } else {
      assert log.text == log.text + "";
    }
  }
}
