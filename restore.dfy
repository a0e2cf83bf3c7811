/** What `restoreLayout` and `restoreEditorGroups` do
    (src/services/layoutService.ts), stated as the trace of host operations
    they emit.  Whether a document can be opened is an oracle on its absolute
    path; `openTextDocument` throwing is a missing file. */
module Restore {
  import opened Types
  import opened Host
  import Sorting

  /** The host operations emitted, and whether the pass ran to its end (false:
      an exception escaped and aborted everything after the last operation). */
  datatype Plan = Plan(ops: seq<HostOp>, completed: bool)

  /** How often `op` occurs in `ops`. */
  function Count(ops: seq<HostOp>, op: HostOp): nat
  {
    if ops == [] then 0 else (if ops[0] == op then 1 else 0) + Count(ops[1..], op)
  }

  lemma {:induction false} CountAppend(a: seq<HostOp>, b: seq<HostOp>, op: HostOp)
    ensures Count(a + b, op) == Count(a, op) + Count(b, op)
  {
    if a == [] {
      assert a + b == b;
    } else {
      assert (a + b)[1..] == a[1..] + b;
      CountAppend(a[1..], b, op);
    }
  }

  lemma CountSingle(x: HostOp, op: HostOp)
    ensures Count([x], op) == if x == op then 1 else 0
  {
    assert [x][1..] == [];
  }

  function Splits(ops: seq<HostOp>): nat
  {
    Count(ops, SplitRight) + Count(ops, SplitDown)
  }

  // ---------------------------------------------------------------------------
  // restoreEditorGroups: the split planner

  /** The comparator of `restoreEditorGroups`: by row, then by column. */
  predicate PositionLe(a: EditorGroup, b: EditorGroup)
  {
    a.position.row < b.position.row || (a.position.row == b.position.row && a.position.column <= b.position.column)
  }

  lemma PositionLeIsTotalPreorder()
    ensures Sorting.TotalPreorder(PositionLe)
  {
  }

  /** `[...groups].sort(...)`: a sorted copy. */
  function SortedGroups(groups: seq<EditorGroup>): seq<EditorGroup>
  {
    Sorting.Sort(groups, PositionLe)
  }

  /** Opening a group's first file into the focused group, if it has one. */
  function OpenFirstFile(g: EditorGroup, root: string, paths: PathOps, fileExists: string -> bool): Plan
  {
    if |g.files| == 0 then Plan([], true)
    else
      var absolutePath := paths.join(root, g.files[0].path);
      if fileExists(absolutePath) then Plan([ShowDocument(absolutePath, None, true)], true)
      else Plan([], false)
  }

  predicate FailsToOpen(g: EditorGroup, root: string, paths: PathOps, fileExists: string -> bool)
  {
    !OpenFirstFile(g, root, paths, fileExists).completed
  }

  /** The index of the first group whose file open throws. */
  function FirstFailure(s: seq<EditorGroup>, root: string, paths: PathOps, fileExists: string -> bool): (r: Option<nat>)
    ensures r.None? <==> forall i :: 0 <= i < |s| ==> !FailsToOpen(s[i], root, paths, fileExists)
    ensures r.Some? ==> r.value < |s| && FailsToOpen(s[r.value], root, paths, fileExists) &&
                        forall i :: 0 <= i < r.value ==> !FailsToOpen(s[i], root, paths, fileExists)
  {
    if s == [] then None
    else if FailsToOpen(s[0], root, paths, fileExists) then Some(0)
    else
      var r := FirstFailure(s[1..], root, paths, fileExists);
      assert forall i :: 1 <= i < |s| ==> s[i] == s[1..][i - 1];
      if r.None? then None else Some(r.value + 1)
  }

  /** The loop over the groups after the first: split down when the group's
      row exceeds `currentRow` (and move `currentRow` there), else split right;
      then open the group's first file.  A failing open is not caught. */
  function SplitPlan(rest: seq<EditorGroup>, currentRow: int, root: string, paths: PathOps,
                     fileExists: string -> bool): Plan
  {
    if rest == [] then Plan([], true)
    else
      var g := rest[0];
      var down := g.position.row > currentRow;
      var split := if down then SplitDown else SplitRight;
      var open := OpenFirstFile(g, root, paths, fileExists);
      if !open.completed then Plan([split], false)
      else
        var tail := SplitPlan(rest[1..], if down then g.position.row else currentRow, root, paths, fileExists);
        Plan([split] + open.ops + tail.ops, tail.completed)
  }

  /** `restoreEditorGroups` once the copy is sorted: close all editors, stop
      on an empty list, open the first group's file without a split, then plan
      the rest from `currentRow = 1`. */
  function SortedPlan(sorted: seq<EditorGroup>, root: string, paths: PathOps, fileExists: string -> bool): Plan
  {
    if |sorted| == 0 then Plan([CloseAllEditors], true)
    else
      var first := OpenFirstFile(sorted[0], root, paths, fileExists);
      if !first.completed then Plan([CloseAllEditors], false)
      else
        var rest := SplitPlan(sorted[1..], 1, root, paths, fileExists);
        Plan([CloseAllEditors] + first.ops + rest.ops, rest.completed)
  }

  /** `restoreEditorGroups`: plan over a sorted copy of the groups. */
  function EditorGroupsPlan(groups: seq<EditorGroup>, root: string, paths: PathOps, fileExists: string -> bool): Plan
  {
    SortedPlan(SortedGroups(groups), root, paths, fileExists)
  }

  // ---------------------------------------------------------------------------
  // restoreLayout: files, active file, terminals

  /** One file of the second pass.  A missing document is caught and skipped;
      so is a negative scroll anchor, which `new vscode.Position` rejects after
      the document was shown. */
  function FileOps(f: OpenFile, root: string, paths: PathOps, fileExists: string -> bool): seq<HostOp>
  {
    var absolutePath := paths.join(root, f.path);
    if !fileExists(absolutePath) then []
    else
      [ShowDocument(absolutePath, Some(f.viewColumn), true)] +
      match f.scroll
      case Some(s) => if s.line >= 0 && s.character >= 0 then [SetCursor(s.line, s.character)] else []
      case None => []
  }

  function FilesOps(files: seq<OpenFile>, root: string, paths: PathOps, fileExists: string -> bool): seq<HostOp>
  {
    if files == [] then []
    else FilesOps(files[..|files| - 1], root, paths, fileExists) + FileOps(files[|files| - 1], root, paths, fileExists)
  }

  /** The nested loop over `layout.editorGroups` (in their stored order, not
      the sorted one) and each group's files. */
  function GroupsFileOps(groups: seq<EditorGroup>, root: string, paths: PathOps, fileExists: string -> bool): seq<HostOp>
  {
    if groups == [] then []
    else GroupsFileOps(groups[..|groups| - 1], root, paths, fileExists) + FilesOps(groups[|groups| - 1].files, root, paths, fileExists)
  }

  /** `editorGroups.find(g => g.id === id)`. */
  function FindGroup(groups: seq<EditorGroup>, id: int): (r: Option<EditorGroup>)
    ensures r.None? <==> forall i :: 0 <= i < |groups| ==> groups[i].id != id
    ensures r.Some? ==> exists i :: 0 <= i < |groups| && groups[i] == r.value && groups[i].id == id &&
                          forall j :: 0 <= j < i ==> groups[j].id != id
  {
    if groups == [] then None
    else if groups[0].id == id then Some(groups[0])
    else
      var r := FindGroup(groups[1..], id);
      assert forall i :: 1 <= i < |groups| ==> groups[i] == groups[1..][i - 1];
      r
  }

  /** Re-focusing the active group's active file: skipped when `activeGroup`
      is 0, when no group has that id, or when its `activeFile` is absent or
      empty; a missing document is caught. */
  function ActiveFileOps(layout: WindowLayout, root: string, paths: PathOps, fileExists: string -> bool): seq<HostOp>
  {
    if layout.activeGroup == 0 then []
    else
      match FindGroup(layout.editorGroups, layout.activeGroup)
      case None => []
      case Some(g) =>
        if g.activeFile.None? || g.activeFile.value == "" then []
        else
          var absolutePath := paths.join(root, g.activeFile.value);
          if fileExists(absolutePath) then [ShowDocument(absolutePath, Some(g.position.column), false)] else []
  }

  /** The working directory a recreated terminal gets: the joined path when
      `cwd` is present and non-empty. */
  function TerminalCwd(t: TerminalConfig, root: string, paths: PathOps): Option<string>
  {
    if t.cwd.Some? && t.cwd.value != "" then Some(paths.join(root, t.cwd.value)) else None
  }

  function TerminalOps(ts: seq<TerminalConfig>, root: string, paths: PathOps): seq<HostOp>
  {
    if ts == [] then []
    else
      var t := ts[|ts| - 1];
      TerminalOps(ts[..|ts| - 1], root, paths) +
      [CreateTerminal(t.name, TerminalCwd(t, root, paths))] + (if t.isVisible then [ShowTerminal] else [])
  }

  function RestoreTerminalOps(terminals: Option<seq<TerminalConfig>>, root: string, paths: PathOps): seq<HostOp>
  {
    match terminals
    case None => []
    case Some(ts) => TerminalOps(ts, root, paths)
  }

  /** `restoreLayout`: close all editors, rebuild the groups (an escaping
      failure there aborts the rest), reopen every file, re-focus the active
      file, recreate the terminals. */
  function RestorePlan(layout: WindowLayout, root: string, paths: PathOps, fileExists: string -> bool): Plan
  {
    var groups := EditorGroupsPlan(layout.editorGroups, root, paths, fileExists);
    var ops := [CloseAllEditors] + groups.ops;
    if !groups.completed then Plan(ops, false)
    else
      Plan(ops + GroupsFileOps(layout.editorGroups, root, paths, fileExists)
               + ActiveFileOps(layout, root, paths, fileExists)
               + RestoreTerminalOps(layout.terminals, root, paths), true)
  }

  // ---------------------------------------------------------------------------
  // Properties of the split planner

  /** The planner for the remaining groups splits once per group it reaches;
      it completes exactly when no open fails, and a failure at index `k`
      leaves `k + 1` splits (the failing group's own split included). */
  lemma {:induction false} SplitPlanSplits(rest: seq<EditorGroup>, currentRow: int, root: string, paths: PathOps,
                                           fileExists: string -> bool)
    ensures var p := SplitPlan(rest, currentRow, root, paths, fileExists);
            var failure := FirstFailure(rest, root, paths, fileExists);
            && (p.completed <==> failure.None?)
            && Splits(p.ops) == (if failure.None? then |rest| else failure.value + 1)
  {
    if rest != [] {
      var g := rest[0];
      var down := g.position.row > currentRow;
      var split := if down then SplitDown else SplitRight;
      var open := OpenFirstFile(g, root, paths, fileExists);
      CountSingle(split, SplitRight);
      CountSingle(split, SplitDown);
      if open.completed {
        var next := if down then g.position.row else currentRow;
        var tail := SplitPlan(rest[1..], next, root, paths, fileExists);
        SplitPlanSplits(rest[1..], next, root, paths, fileExists);
        OpenHasNoSplits(g, root, paths, fileExists);
        CountAppend([split] + open.ops, tail.ops, SplitRight);
        CountAppend([split] + open.ops, tail.ops, SplitDown);
        CountAppend([split], open.ops, SplitRight);
        CountAppend([split], open.ops, SplitDown);
      }
    }
  }

  lemma OpenHasNoSplits(g: EditorGroup, root: string, paths: PathOps, fileExists: string -> bool)
    ensures var ops := OpenFirstFile(g, root, paths, fileExists).ops;
            Count(ops, SplitRight) == 0 && Count(ops, SplitDown) == 0
  {
    var ops := OpenFirstFile(g, root, paths, fileExists).ops;
    if ops != [] {
      CountSingle(ops[0], SplitRight);
      CountSingle(ops[0], SplitDown);
      assert ops == [ops[0]];
    }
  }

  /** Groups whose row never exceeds `currentRow` are all split to the right. */
  lemma {:induction false} SplitPlanNoDown(rest: seq<EditorGroup>, currentRow: int, root: string, paths: PathOps,
                                           fileExists: string -> bool)
    requires forall i :: 0 <= i < |rest| ==> rest[i].position.row <= currentRow
    ensures Count(SplitPlan(rest, currentRow, root, paths, fileExists).ops, SplitDown) == 0
  {
    if rest != [] {
      var open := OpenFirstFile(rest[0], root, paths, fileExists);
      if open.completed {
        var tail := SplitPlan(rest[1..], currentRow, root, paths, fileExists);
        SplitPlanNoDown(rest[1..], currentRow, root, paths, fileExists);
        OpenHasNoSplits(rest[0], root, paths, fileExists);
        CountSingle(SplitRight, SplitDown);
        CountAppend([SplitRight] + open.ops, tail.ops, SplitDown);
        CountAppend([SplitRight], open.ops, SplitDown);
      }
    }
  }

  /** The rows above `currentRow` that occur among `rest`. */
  function RowsAbove(rest: seq<EditorGroup>, currentRow: int): set<int>
  {
    set i | 0 <= i < |rest| && rest[i].position.row > currentRow :: rest[i].position.row
  }

  predicate RowsNondecreasing(s: seq<EditorGroup>)
  {
    forall i, j :: 0 <= i < j < |s| ==> s[i].position.row <= s[j].position.row
  }

  /** One step of the planner on `RowsAbove`: the first group's row is new
      exactly when it exceeds `currentRow`. */
  lemma RowsAboveStep(rest: seq<EditorGroup>, currentRow: int)
    requires rest != [] && RowsNondecreasing(rest)
    ensures var r := rest[0].position.row;
            if r > currentRow then
              RowsAbove(rest, currentRow) == {r} + RowsAbove(rest[1..], r) && r !in RowsAbove(rest[1..], r)
            else
              RowsAbove(rest, currentRow) == RowsAbove(rest[1..], currentRow)
  {
    var r := rest[0].position.row;
    var next := if r > currentRow then r else currentRow;
    var tailRows := RowsAbove(rest[1..], next);
    forall x | x in RowsAbove(rest, currentRow) ensures x in (if r > currentRow then {r} + tailRows else tailRows) {
      var i :| 0 <= i < |rest| && rest[i].position.row > currentRow && rest[i].position.row == x;
      if x != r {
        assert i > 0 && rest[1..][i - 1] == rest[i];
      }
    }
    forall x | x in tailRows ensures x in RowsAbove(rest, currentRow) {
      var i :| 0 <= i < |rest[1..]| && rest[1..][i].position.row > next && rest[1..][i].position.row == x;
      assert rest[i + 1] == rest[1..][i];
    }
  }

  /** Over groups in row order, a completed plan splits down once per distinct
      row above `currentRow`. */
  lemma {:induction false} SplitPlanDowns(rest: seq<EditorGroup>, currentRow: int, root: string, paths: PathOps,
                                          fileExists: string -> bool)
    requires RowsNondecreasing(rest)
    requires SplitPlan(rest, currentRow, root, paths, fileExists).completed
    ensures Count(SplitPlan(rest, currentRow, root, paths, fileExists).ops, SplitDown) == |RowsAbove(rest, currentRow)|
  {
    if rest != [] {
      var g := rest[0];
      var down := g.position.row > currentRow;
      var split := if down then SplitDown else SplitRight;
      var open := OpenFirstFile(g, root, paths, fileExists);
      var next := if down then g.position.row else currentRow;
      var tail := SplitPlan(rest[1..], next, root, paths, fileExists);
      assert RowsNondecreasing(rest[1..]);
      SplitPlanDowns(rest[1..], next, root, paths, fileExists);
      OpenHasNoSplits(g, root, paths, fileExists);
      CountSingle(split, SplitDown);
      CountAppend([split] + open.ops, tail.ops, SplitDown);
      CountAppend([split], open.ops, SplitDown);
      RowsAboveStep(rest, currentRow);
    }
  }

  // ---------------------------------------------------------------------------
  // Properties of restoreEditorGroups

  lemma SortedGroupsFacts(groups: seq<EditorGroup>)
    ensures var sorted := SortedGroups(groups);
            && |sorted| == |groups|
            && (forall g :: g in sorted <==> g in groups)
            && RowsNondecreasing(sorted)
  {
    var sorted := SortedGroups(groups);
    PositionLeIsTotalPreorder();
    Sorting.SortSorted(groups, PositionLe);
    forall g ensures g in sorted <==> g in groups {
      assert g in sorted <==> g in multiset(sorted);
    }
  }

  lemma {:induction false} SortedPlanSplits(sorted: seq<EditorGroup>, root: string, paths: PathOps,
                                            fileExists: string -> bool)
    ensures var p := SortedPlan(sorted, root, paths, fileExists);
            var failure := FirstFailure(sorted, root, paths, fileExists);
            && (p.completed <==> failure.None?)
            && (p.completed && sorted != [] ==> Splits(p.ops) == |sorted| - 1)
            && (!p.completed ==> Splits(p.ops) == failure.value)
  {
    CountSingle(CloseAllEditors, SplitRight);
    CountSingle(CloseAllEditors, SplitDown);
    if sorted != [] {
      var first := OpenFirstFile(sorted[0], root, paths, fileExists);
      if first.completed {
        var rest := SplitPlan(sorted[1..], 1, root, paths, fileExists);
        SplitPlanSplits(sorted[1..], 1, root, paths, fileExists);
        OpenHasNoSplits(sorted[0], root, paths, fileExists);
        CountAppend([CloseAllEditors] + first.ops, rest.ops, SplitRight);
        CountAppend([CloseAllEditors] + first.ops, rest.ops, SplitDown);
        CountAppend([CloseAllEditors], first.ops, SplitRight);
        CountAppend([CloseAllEditors], first.ops, SplitDown);
        var f := FirstFailure(sorted[1..], root, paths, fileExists);
        assert forall i :: 1 <= i < |sorted| ==> sorted[i] == sorted[1..][i - 1];
        if f.Some? {
          assert FirstFailure(sorted, root, paths, fileExists) == Some(f.value + 1);
        }
      }
    }
  }

  /** An empty layout closes the editors and stops.  Otherwise the first group
      in row-major order is opened with no split before it; the pass completes
      exactly when no first-file open fails, splitting `n - 1` times, and a
      failure at sorted index `k` stops it after `k` splits. */
  lemma EditorGroupsPlanSplits(groups: seq<EditorGroup>, root: string, paths: PathOps, fileExists: string -> bool)
    ensures var p := EditorGroupsPlan(groups, root, paths, fileExists);
            var sorted := SortedGroups(groups);
            var failure := FirstFailure(sorted, root, paths, fileExists);
            && (groups == [] ==> p == Plan([CloseAllEditors], true))
            && p.ops[0] == CloseAllEditors
            && (p.completed <==> failure.None?)
            && (p.completed && groups != [] ==> Splits(p.ops) == |groups| - 1)
            && (!p.completed ==> Splits(p.ops) == failure.value)
            && (groups != [] && !FailsToOpen(sorted[0], root, paths, fileExists) && |sorted[0].files| > 0 ==>
                  p.ops[1] == ShowDocument(paths.join(root, sorted[0].files[0].path), None, true))
  {
    SortedGroupsFacts(groups);
    SortedPlanSplits(SortedGroups(groups), root, paths, fileExists);
  }

  /** A completed pass splits down once per distinct row greater than 1 among
      the groups after the first, in row-major order. */
  lemma EditorGroupsPlanDowns(groups: seq<EditorGroup>, root: string, paths: PathOps, fileExists: string -> bool)
    requires groups != []
    requires EditorGroupsPlan(groups, root, paths, fileExists).completed
    ensures Count(EditorGroupsPlan(groups, root, paths, fileExists).ops, SplitDown) ==
            |RowsAbove(SortedGroups(groups)[1..], 1)|
  {
    var sorted := SortedGroups(groups);
    SortedGroupsFacts(groups);
    assert EditorGroupsPlan(groups, root, paths, fileExists) == SortedPlan(sorted, root, paths, fileExists);
    var first := OpenFirstFile(sorted[0], root, paths, fileExists);
    var rest := SplitPlan(sorted[1..], 1, root, paths, fileExists);
    assert RowsNondecreasing(sorted[1..]);
    SplitPlanDowns(sorted[1..], 1, root, paths, fileExists);
    OpenHasNoSplits(sorted[0], root, paths, fileExists);
    CountSingle(CloseAllEditors, SplitDown);
    CountAppend([CloseAllEditors] + first.ops, rest.ops, SplitDown);
    CountAppend([CloseAllEditors], first.ops, SplitDown);
  }

  /** When no group sits below row 1 (a captured layout, whose rows are all
      0), every split is a split to the right. */
  lemma NoDownSplitsWithinFirstRow(groups: seq<EditorGroup>, root: string, paths: PathOps, fileExists: string -> bool)
    requires forall g :: g in groups ==> g.position.row <= 1
    ensures Count(EditorGroupsPlan(groups, root, paths, fileExists).ops, SplitDown) == 0
  {
    var sorted := SortedGroups(groups);
    SortedGroupsFacts(groups);
    assert EditorGroupsPlan(groups, root, paths, fileExists) == SortedPlan(sorted, root, paths, fileExists);
    CountSingle(CloseAllEditors, SplitDown);
    if sorted != [] {
      var first := OpenFirstFile(sorted[0], root, paths, fileExists);
      if first.completed {
        var rest := SplitPlan(sorted[1..], 1, root, paths, fileExists);
        assert forall i :: 0 <= i < |sorted[1..]| ==> sorted[1..][i] in groups;
        SplitPlanNoDown(sorted[1..], 1, root, paths, fileExists);
        OpenHasNoSplits(sorted[0], root, paths, fileExists);
        CountAppend([CloseAllEditors] + first.ops, rest.ops, SplitDown);
        CountAppend([CloseAllEditors], first.ops, SplitDown);
      }
    }
  }

  // ---------------------------------------------------------------------------
  // Properties of restoreLayout

  /** Only the group pass can abort a restore: it completes exactly when every
      group's first file opens, however many other files are missing. */
  lemma OnlyGroupPassAborts(layout: WindowLayout, root: string, paths: PathOps, fileExists: string -> bool)
    ensures var p := RestorePlan(layout, root, paths, fileExists);
            && p.ops[..2] == [CloseAllEditors, CloseAllEditors]
            && (p.completed <==> forall g :: g in layout.editorGroups ==> !FailsToOpen(g, root, paths, fileExists))
  {
    var sorted := SortedGroups(layout.editorGroups);
    SortedGroupsFacts(layout.editorGroups);
    EditorGroupsPlanSplits(layout.editorGroups, root, paths, fileExists);
    var p := RestorePlan(layout, root, paths, fileExists);
    if p.completed {
      forall g | g in layout.editorGroups ensures !FailsToOpen(g, root, paths, fileExists) {
        assert g in sorted;
      }
    }
  }

  /** File j, when its document exists, is shown keeping focus in its view
      column, whatever happens to the files around it. */
  lemma {:induction false} FilesOpsShowsFile(files: seq<OpenFile>, root: string, paths: PathOps,
                                             fileExists: string -> bool, j: nat)
    requires j < |files| && fileExists(paths.join(root, files[j].path))
    ensures ShowDocument(paths.join(root, files[j].path), Some(files[j].viewColumn), true)
              in FilesOps(files, root, paths, fileExists)
  {
    var n := |files|;
    var prefix := files[..n - 1];
    var show := ShowDocument(paths.join(root, files[j].path), Some(files[j].viewColumn), true);
    assert FilesOps(files, root, paths, fileExists) ==
           FilesOps(prefix, root, paths, fileExists) + FileOps(files[n - 1], root, paths, fileExists);
    if j < n - 1 {
      assert prefix[j] == files[j];
      FilesOpsShowsFile(prefix, root, paths, fileExists, j);
      assert show in FilesOps(prefix, root, paths, fileExists);
    } else {
      assert FileOps(files[j], root, paths, fileExists)[0] == show;
    }
  }

  /** Each file whose document exists is shown, keeping focus, in its view
      column; a missing file does not stop the later ones. */
  lemma FilesOpsShowsExisting(files: seq<OpenFile>, root: string, paths: PathOps, fileExists: string -> bool)
    ensures var ops := FilesOps(files, root, paths, fileExists);
            forall j :: 0 <= j < |files| && fileExists(paths.join(root, files[j].path)) ==>
              ShowDocument(paths.join(root, files[j].path), Some(files[j].viewColumn), true) in ops
  {
    forall j: nat | j < |files| && fileExists(paths.join(root, files[j].path))
      ensures ShowDocument(paths.join(root, files[j].path), Some(files[j].viewColumn), true)
                in FilesOps(files, root, paths, fileExists)
    {
      FilesOpsShowsFile(files, root, paths, fileExists, j);
    }
  }

  /** Every show of the file pass comes from a listed file that exists. */
  lemma {:induction false} FilesOpsShowsOnlyListed(files: seq<OpenFile>, root: string, paths: PathOps, fileExists: string -> bool)
    ensures var ops := FilesOps(files, root, paths, fileExists);
            forall op :: op in ops && op.ShowDocument? ==>
              exists j :: 0 <= j < |files| && fileExists(op.path) &&
                          op == ShowDocument(paths.join(root, files[j].path), Some(files[j].viewColumn), true)
  {
    if files != [] {
      var prefix := files[..|files| - 1];
      FilesOpsShowsOnlyListed(prefix, root, paths, fileExists);
      assert forall j :: 0 <= j < |prefix| ==> prefix[j] == files[j];
    }
  }

  lemma FilesOpsOpenExisting(files: seq<OpenFile>, root: string, paths: PathOps, fileExists: string -> bool)
    ensures var ops := FilesOps(files, root, paths, fileExists);
            && (forall j :: 0 <= j < |files| && fileExists(paths.join(root, files[j].path)) ==>
                  ShowDocument(paths.join(root, files[j].path), Some(files[j].viewColumn), true) in ops)
            && (forall op :: op in ops && op.ShowDocument? ==>
                  exists j :: 0 <= j < |files| && fileExists(op.path) &&
                              op == ShowDocument(paths.join(root, files[j].path), Some(files[j].viewColumn), true))
  {
    FilesOpsShowsExisting(files, root, paths, fileExists);
    FilesOpsShowsOnlyListed(files, root, paths, fileExists);
  }

  /** Each existing file with a non-negative scroll anchor is shown, and the
      very next operation moves the focused editor's cursor to that anchor. */
  lemma {:induction false} FilesOpsSetCursor(files: seq<OpenFile>, root: string, paths: PathOps, fileExists: string -> bool)
    ensures var ops := FilesOps(files, root, paths, fileExists);
            forall j :: 0 <= j < |files| && fileExists(paths.join(root, files[j].path)) &&
                        files[j].scroll.Some? && files[j].scroll.value.line >= 0 && files[j].scroll.value.character >= 0 ==>
              exists k :: 0 <= k < |ops| - 1 &&
                          ops[k] == ShowDocument(paths.join(root, files[j].path), Some(files[j].viewColumn), true) &&
                          ops[k + 1] == SetCursor(files[j].scroll.value.line, files[j].scroll.value.character)
  {
    if files != [] {
      var n := |files|;
      var prefix := files[..n - 1];
      var before := FilesOps(prefix, root, paths, fileExists);
      var ops := FilesOps(files, root, paths, fileExists);
      FilesOpsSetCursor(prefix, root, paths, fileExists);
      assert ops == before + FileOps(files[n - 1], root, paths, fileExists);
      forall j | 0 <= j < |files| && fileExists(paths.join(root, files[j].path)) &&
                 files[j].scroll.Some? && files[j].scroll.value.line >= 0 && files[j].scroll.value.character >= 0
        ensures exists k :: 0 <= k < |ops| - 1 &&
                  ops[k] == ShowDocument(paths.join(root, files[j].path), Some(files[j].viewColumn), true) &&
                  ops[k + 1] == SetCursor(files[j].scroll.value.line, files[j].scroll.value.character)
      {
        if j < n - 1 {
          assert prefix[j] == files[j];
          var k :| 0 <= k < |before| - 1 &&
                   before[k] == ShowDocument(paths.join(root, prefix[j].path), Some(prefix[j].viewColumn), true) &&
                   before[k + 1] == SetCursor(prefix[j].scroll.value.line, prefix[j].scroll.value.character);
          assert ops[k] == before[k] && ops[k + 1] == before[k + 1];
        } else {
          var s := files[j].scroll.value;
          assert FileOps(files[j], root, paths, fileExists) ==
                 [ShowDocument(paths.join(root, files[j].path), Some(files[j].viewColumn), true), SetCursor(s.line, s.character)];
          var k := |before|;
          assert ops[k] == ShowDocument(paths.join(root, files[j].path), Some(files[j].viewColumn), true);
          assert ops[k + 1] == SetCursor(files[j].scroll.value.line, files[j].scroll.value.character);
        }
      }
      assert ops == FilesOps(files, root, paths, fileExists);
    }
  }

  /** File j of group i, when its document exists, is shown (keeping focus) in
      its own view column. */
  lemma {:induction false} GroupsFileOpsShowsFile(groups: seq<EditorGroup>, root: string, paths: PathOps,
                                                  fileExists: string -> bool, i: nat, j: nat)
    requires i < |groups| && j < |groups[i].files|
    requires fileExists(paths.join(root, groups[i].files[j].path))
    ensures ShowDocument(paths.join(root, groups[i].files[j].path), Some(groups[i].files[j].viewColumn), true)
              in GroupsFileOps(groups, root, paths, fileExists)
  {
    var n := |groups|;
    var prefix := groups[..n - 1];
    var before := GroupsFileOps(prefix, root, paths, fileExists);
    var last := FilesOps(groups[n - 1].files, root, paths, fileExists);
    var show := ShowDocument(paths.join(root, groups[i].files[j].path), Some(groups[i].files[j].viewColumn), true);
    assert GroupsFileOps(groups, root, paths, fileExists) == before + last;
    if i < n - 1 {
      assert prefix[i] == groups[i];
      GroupsFileOpsShowsFile(prefix, root, paths, fileExists, i, j);
      assert show in before;
    } else {
      FilesOpsShowsFile(groups[n - 1].files, root, paths, fileExists, j);
      assert show in last;
    }
  }

  /** Each file of each group whose document exists is shown (keeping focus)
      in its own view column, however many other files are missing. */
  lemma GroupsFileOpsShowsExisting(groups: seq<EditorGroup>, root: string, paths: PathOps, fileExists: string -> bool)
    ensures var ops := GroupsFileOps(groups, root, paths, fileExists);
            forall i, j :: 0 <= i < |groups| && 0 <= j < |groups[i].files| &&
                           fileExists(paths.join(root, groups[i].files[j].path)) ==>
              ShowDocument(paths.join(root, groups[i].files[j].path), Some(groups[i].files[j].viewColumn), true) in ops
  {
    forall i: nat, j: nat | i < |groups| && j < |groups[i].files| && fileExists(paths.join(root, groups[i].files[j].path))
      ensures ShowDocument(paths.join(root, groups[i].files[j].path), Some(groups[i].files[j].viewColumn), true)
                in GroupsFileOps(groups, root, paths, fileExists)
    {
      GroupsFileOpsShowsFile(groups, root, paths, fileExists, i, j);
    }
  }

  /** Nothing else is shown: every show comes from a listed file whose
      document exists. */
  lemma {:induction false} GroupsFileOpsShowsOnlyListed(groups: seq<EditorGroup>, root: string, paths: PathOps,
                                                        fileExists: string -> bool)
    ensures var ops := GroupsFileOps(groups, root, paths, fileExists);
            forall op :: op in ops && op.ShowDocument? ==>
              exists i, j :: 0 <= i < |groups| && 0 <= j < |groups[i].files| && fileExists(op.path) &&
                             op == ShowDocument(paths.join(root, groups[i].files[j].path), Some(groups[i].files[j].viewColumn), true)
  {
    if groups != [] {
      var n := |groups|;
      var prefix := groups[..n - 1];
      var before := GroupsFileOps(prefix, root, paths, fileExists);
      var last := FilesOps(groups[n - 1].files, root, paths, fileExists);
      var ops := GroupsFileOps(groups, root, paths, fileExists);
      assert ops == before + last;
      GroupsFileOpsShowsOnlyListed(prefix, root, paths, fileExists);
      FilesOpsShowsOnlyListed(groups[n - 1].files, root, paths, fileExists);
      forall op | op in ops && op.ShowDocument?
        ensures exists i, j :: 0 <= i < |groups| && 0 <= j < |groups[i].files| && fileExists(op.path) &&
                               op == ShowDocument(paths.join(root, groups[i].files[j].path), Some(groups[i].files[j].viewColumn), true)
      {
        if op in before {
          var i, j :| 0 <= i < |prefix| && 0 <= j < |prefix[i].files| && fileExists(op.path) &&
                      op == ShowDocument(paths.join(root, prefix[i].files[j].path), Some(prefix[i].files[j].viewColumn), true);
          assert prefix[i] == groups[i];
        } else {
          assert op in last;
          var j :| 0 <= j < |groups[n - 1].files| && fileExists(op.path) &&
                   op == ShowDocument(paths.join(root, groups[n - 1].files[j].path), Some(groups[n - 1].files[j].viewColumn), true);
        }
      }
    }
  }

  /** The file pass catches every failure: each file of each group whose
      document exists is shown (keeping focus) in its own view column, however
      many other files are missing, and nothing else is shown. */
  lemma GroupsFileOpsOpenExisting(groups: seq<EditorGroup>, root: string, paths: PathOps, fileExists: string -> bool)
    ensures var ops := GroupsFileOps(groups, root, paths, fileExists);
            && (forall i, j :: 0 <= i < |groups| && 0 <= j < |groups[i].files| &&
                               fileExists(paths.join(root, groups[i].files[j].path)) ==>
                  ShowDocument(paths.join(root, groups[i].files[j].path), Some(groups[i].files[j].viewColumn), true) in ops)
            && (forall op :: op in ops && op.ShowDocument? ==>
                  exists i, j :: 0 <= i < |groups| && 0 <= j < |groups[i].files| && fileExists(op.path) &&
                                 op == ShowDocument(paths.join(root, groups[i].files[j].path), Some(groups[i].files[j].viewColumn), true))
  {
    GroupsFileOpsShowsExisting(groups, root, paths, fileExists);
    GroupsFileOpsShowsOnlyListed(groups, root, paths, fileExists);
  }

  /** When `activeGroup` is non-zero and names a group, the first group with
      that id decides: its non-empty `activeFile` is shown with focus in the
      group's `position.column` if the document exists; otherwise nothing. */
  lemma ActiveFileFocus(layout: WindowLayout, root: string, paths: PathOps, fileExists: string -> bool, i: nat)
    requires i < |layout.editorGroups| && layout.editorGroups[i].id == layout.activeGroup
    requires forall j :: 0 <= j < i ==> layout.editorGroups[j].id != layout.activeGroup
    ensures var g := layout.editorGroups[i];
            ActiveFileOps(layout, root, paths, fileExists) ==
              if layout.activeGroup != 0 && g.activeFile.Some? && g.activeFile.value != "" &&
                 fileExists(paths.join(root, g.activeFile.value))
              then [ShowDocument(paths.join(root, g.activeFile.value), Some(g.position.column), false)]
              else []
  {
    var r := FindGroup(layout.editorGroups, layout.activeGroup);
    var k :| 0 <= k < |layout.editorGroups| && layout.editorGroups[k] == r.value &&
             layout.editorGroups[k].id == layout.activeGroup &&
             forall j :: 0 <= j < k ==> layout.editorGroups[j].id != layout.activeGroup;
    assert k == i;
  }

  /** An `activeGroup` that names no group degrades to no focus step at all:
      the restore is the one of the same layout with `activeGroup` 0. */
  lemma DanglingActiveGroupSkipped(layout: WindowLayout, root: string, paths: PathOps, fileExists: string -> bool)
    requires forall i :: 0 <= i < |layout.editorGroups| ==> layout.editorGroups[i].id != layout.activeGroup
    ensures ActiveFileOps(layout, root, paths, fileExists) == []
    ensures RestorePlan(layout, root, paths, fileExists) == RestorePlan(layout.(activeGroup := 0), root, paths, fileExists)
  {
  }

  /** The terminal creations in `ops`, in order. */
  function Creations(ops: seq<HostOp>): seq<HostOp>
  {
    if ops == [] then []
    else (if ops[0].CreateTerminal? then [ops[0]] else []) + Creations(ops[1..])
  }

  lemma {:induction false} CreationsAppend(a: seq<HostOp>, b: seq<HostOp>)
    ensures Creations(a + b) == Creations(a) + Creations(b)
  {
    if a == [] {
      assert a + b == b;
    } else {
      var head := if a[0].CreateTerminal? then [a[0]] else [];
      assert (a + b)[0] == a[0];
      assert (a + b)[1..] == a[1..] + b;
      CreationsAppend(a[1..], b);
      assert Creations(a + b) == head + (Creations(a[1..]) + Creations(b));
      assert Creations(a) == head + Creations(a[1..]);
      assert head + (Creations(a[1..]) + Creations(b)) == (head + Creations(a[1..])) + Creations(b);
    }
  }

  /** How many records are flagged visible. */
  function VisibleCount(ts: seq<TerminalConfig>): nat
  {
    if ts == [] then 0 else VisibleCount(ts[..|ts| - 1]) + (if ts[|ts| - 1].isVisible then 1 else 0)
  }

  /** One flag per terminal creation in `ops`, in order: whether the very
      next operation shows a terminal. */
  function ShowFlags(ops: seq<HostOp>): seq<bool>
  {
    if ops == [] then []
    else
      var n := |ops|;
      if ops[n - 1].CreateTerminal? then ShowFlags(ops[..n - 1]) + [false]
      else if ops[n - 1] == ShowTerminal && n >= 2 && ops[n - 2].CreateTerminal? then ShowFlags(ops[..n - 2]) + [true]
      else ShowFlags(ops[..n - 1])
  }

  /** `show` follows the creation of exactly the visible records. */
  lemma {:induction false} TerminalShowsFollowVisible(ts: seq<TerminalConfig>, root: string, paths: PathOps)
    ensures var flags := ShowFlags(TerminalOps(ts, root, paths));
            |flags| == |ts| && forall i :: 0 <= i < |ts| ==> (flags[i] <==> ts[i].isVisible)
  {
    if ts != [] {
      var n := |ts|;
      var t := ts[n - 1];
      var prefix := ts[..n - 1];
      var create := CreateTerminal(t.name, TerminalCwd(t, root, paths));
      var before := TerminalOps(prefix, root, paths);
      var ops := TerminalOps(ts, root, paths);
      TerminalShowsFollowVisible(prefix, root, paths);
      assert forall i :: 0 <= i < n - 1 ==> prefix[i] == ts[i];
      if t.isVisible {
        assert ops == before + [create, ShowTerminal];
        assert ops[..|ops| - 2] == before;
        assert ShowFlags(ops) == ShowFlags(before) + [true];
      } else {
        assert ops == before + [create];
        assert ops[..|ops| - 1] == before;
        assert ShowFlags(ops) == ShowFlags(before) + [false];
      }
    }
  }

  /** One terminal is created per record, in order, with the record's name
      and a working directory only when the record has a non-empty one. */
  lemma {:induction false} TerminalCreations(ts: seq<TerminalConfig>, root: string, paths: PathOps)
    ensures var c := Creations(TerminalOps(ts, root, paths));
            && |c| == |ts|
            && (forall i :: 0 <= i < |ts| ==> c[i] == CreateTerminal(ts[i].name, TerminalCwd(ts[i], root, paths)))
            && (forall i :: 0 <= i < |ts| ==> (c[i].cwd.Some? <==> ts[i].cwd.Some? && ts[i].cwd.value != ""))
  {
    if ts != [] {
      var n := |ts|;
      var t := ts[n - 1];
      var prefix := ts[..n - 1];
      var create := CreateTerminal(t.name, TerminalCwd(t, root, paths));
      var show := if t.isVisible then [ShowTerminal] else [];
      TerminalCreations(prefix, root, paths);
      var before := TerminalOps(prefix, root, paths);
      assert TerminalOps(ts, root, paths) == before + [create] + show;
      CreationsAppend(before + [create], show);
      CreationsAppend(before, [create]);
      assert Creations([create]) == [create] by { assert [create][1..] == []; }
      assert Creations(show) == [] by { if show != [] { assert show[1..] == []; } }
      assert forall i :: 0 <= i < n - 1 ==> prefix[i] == ts[i];
    }
  }

  /** `show` is called once per visible record. */
  lemma {:induction false} TerminalShows(ts: seq<TerminalConfig>, root: string, paths: PathOps)
    ensures Count(TerminalOps(ts, root, paths), ShowTerminal) == VisibleCount(ts)
  {
    if ts != [] {
      var n := |ts|;
      var t := ts[n - 1];
      var prefix := ts[..n - 1];
      var create := CreateTerminal(t.name, TerminalCwd(t, root, paths));
      var show := if t.isVisible then [ShowTerminal] else [];
      TerminalShows(prefix, root, paths);
      var before := TerminalOps(prefix, root, paths);
      assert TerminalOps(ts, root, paths) == before + [create] + show;
      CountAppend(before + [create], show, ShowTerminal);
      CountAppend(before, [create], ShowTerminal);
      CountSingle(create, ShowTerminal);
      if t.isVisible { CountSingle(ShowTerminal, ShowTerminal); }
    }
  }
}
