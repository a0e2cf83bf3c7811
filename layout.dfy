/** The `LayoutService` class (src/services/layoutService.ts): the
    currently selected context, capture of the live window and replay of a saved layout.
    Host reads come in as a `Window`; host mutations go out as a `HostOp`
    trace; whether a document exists is the oracle `fileExists`. */
module Layout {
  import opened Types
  import opened Host
  import opened Capture
  import opened Grid
  import opened Restore
  import Sorting

  /** A captured layout keeps its groups in `tabGroups.all` order through the
      restore sort (they all sit at the origin and the sort is stable), and its
      replay never splits down: the captured window comes back as one row. */
  lemma CapturedLayoutRestoresAsOneRow(w: Window, root: string, paths: PathOps, fileExists: string -> bool)
    ensures var groups := CapturedLayout(w, root, paths).editorGroups;
            && SortedGroups(groups) == groups
            && Count(EditorGroupsPlan(groups, root, paths, fileExists).ops, SplitDown) == 0
  {
    var groups := CapturedLayout(w, root, paths).editorGroups;
    CapturedPositionsAtOrigin(w, root, paths);
    assert forall i :: 0 <= i < |groups| ==> groups[i] in groups;
    Sorting.SortKeepsEquivalentOrder(groups, PositionLe);
    NoDownSplitsWithinFirstRow(groups, root, paths, fileExists);
  }

  /** The captured `activeGroup`, when non-zero, is the id of a captured group. */
  lemma CapturedActiveGroupIsRecorded(w: Window, root: string, paths: PathOps)
    ensures var layout := CapturedLayout(w, root, paths);
            layout.activeGroup != 0 ==> exists k :: 0 <= k < |layout.editorGroups| && layout.editorGroups[k].id == layout.activeGroup
  {
    var gs := w.tabGroups;
    var layout := CapturedLayout(w, root, paths);
    CapturedActiveGroupIsLastActive(gs);
    CapturedGroupsShape(gs, root, paths, w.activeTextEditor, SeedLayoutMap(gs), |gs|);
    if layout.activeGroup != 0 {
      var i :| 0 <= i < |gs| && gs[i].isActive && IsTextGroup(gs[i]) && ColumnOf(gs[i]) == layout.activeGroup &&
               forall j :: i < j < |gs| ==> !(gs[j].isActive && IsTextGroup(gs[j]));
      var tg := TextGroups(gs);
      assert gs[i] in gs;
      assert gs[i] in tg;
      var k :| 0 <= k < |tg| && tg[k] == gs[i];
      assert layout.editorGroups[k].id == layout.activeGroup;
    }
  }

  lemma {:induction false} NoneVisible(ts: seq<TerminalConfig>)
    requires forall i :: 0 <= i < |ts| ==> !ts[i].isVisible
    ensures VisibleCount(ts) == 0
  {
    if ts != [] {
      NoneVisible(ts[..|ts| - 1]);
    }
  }

  lemma {:induction false} OneVisible(ts: seq<TerminalConfig>, k: nat)
    requires k < |ts| && ts[k].isVisible
    requires forall i :: 0 <= i < |ts| && i != k ==> !ts[i].isVisible
    ensures VisibleCount(ts) == 1
  {
    var prefix := ts[..|ts| - 1];
    if k == |ts| - 1 {
      NoneVisible(prefix);
    } else {
      OneVisible(prefix, k);
    }
  }

  /** How many terminals carry the active terminal's name. */
  function ActiveOccurrences(names: seq<string>, active: Option<string>): nat
  {
    if names == [] then 0
    else ActiveOccurrences(names[..|names| - 1], active) + (if active == Some(names[|names| - 1]) then 1 else 0)
  }

  lemma {:induction false} VisibleMatchesNames(ts: seq<TerminalConfig>, names: seq<string>, active: Option<string>)
    requires |ts| == |names|
    requires forall i :: 0 <= i < |ts| ==> (ts[i].isVisible <==> active == Some(names[i]))
    ensures VisibleCount(ts) == ActiveOccurrences(names, active)
  {
    if ts != [] {
      var n := |ts|;
      VisibleMatchesNames(ts[..n - 1], names[..n - 1], active);
    }
  }

  /** Every captured terminal named like the active one is visible; only with
      distinct names is that at most one. */
  lemma VisibleCountOfCapture(names: seq<string>, active: Option<string>)
    ensures VisibleCount(CaptureTerminals(names, active)) == ActiveOccurrences(names, active)
    ensures Sorting.Distinct(names) ==>
              VisibleCount(CaptureTerminals(names, active)) == if active.Some? && active.value in names then 1 else 0
  {
    var ts := CaptureTerminals(names, active);
    VisibleMatchesNames(ts, names, active);
    if Sorting.Distinct(names) {
      if active.Some? && active.value in names {
        var k :| 0 <= k < |names| && names[k] == active.value;
        OneVisible(ts, k);
      } else {
        NoneVisible(ts);
      }
    }
  }

  /** Restoring captured terminals recreates each one by name, in order, with
      no working directory, and shows right after its creation exactly each
      terminal named like the active one. */
  lemma CapturedTerminalsRecreated(names: seq<string>, active: Option<string>, root: string, paths: PathOps)
    ensures var ops := TerminalOps(CaptureTerminals(names, active), root, paths);
            && |Creations(ops)| == |names|
            && (forall i :: 0 <= i < |names| ==> Creations(ops)[i] == CreateTerminal(Some(names[i]), None))
            && |ShowFlags(ops)| == |names|
            && (forall i :: 0 <= i < |names| ==> (ShowFlags(ops)[i] <==> active == Some(names[i])))
            && Count(ops, ShowTerminal) == ActiveOccurrences(names, active)
  {
    var ts := CaptureTerminals(names, active);
    TerminalCreations(ts, root, paths);
    TerminalShowsFollowVisible(ts, root, paths);
    TerminalShows(ts, root, paths);
    VisibleCountOfCapture(names, active);
  }

  /** Restoring a captured group shows its document in the group's view column
      and, when that document was the active editor's, is followed by a cursor
      move to the captured position. */
  lemma CapturedScrollRestored(w: Window, root: string, paths: PathOps, fileExists: string -> bool, k: nat)
    requires k < |CapturedLayout(w, root, paths).editorGroups|
    ensures |TextGroups(w.tabGroups)| == |CapturedLayout(w, root, paths).editorGroups|
    ensures var g := CapturedLayout(w, root, paths).editorGroups[k];
            var tg := TextGroups(w.tabGroups)[k];
            var fsPath := TextDocumentOf(tg).value;
            var absolutePath := paths.join(root, paths.relative(root, fsPath));
            var editor := w.activeTextEditor;
            FilesOps(g.files, root, paths, fileExists) ==
              if !fileExists(absolutePath) then []
              else [ShowDocument(absolutePath, Some(ColumnOf(tg)), true)] +
                   (if editor.Some? && editor.value.fsPath == fsPath &&
                       ScrollOf(editor.value).line >= 0 && ScrollOf(editor.value).character >= 0
                    then [SetCursor(ScrollOf(editor.value).line, ScrollOf(editor.value).character)]
                    else [])
  {
    var gs := w.tabGroups;
    CapturedGroupsShape(gs, root, paths, w.activeTextEditor, SeedLayoutMap(gs), |gs|);
    var g := CapturedLayout(w, root, paths).editorGroups[k];
    assert g.files == [g.files[0]];
    assert g.files[..0] == [];
  }

  class LayoutService {
    var currentContext: Option<ProjectContext>
    const workspaceRoot: string
    const paths: PathOps

    /** The service of a workspace whose first folder is `workspaceRoot`. */
    constructor (workspaceRoot: string, paths: PathOps)
      ensures this.workspaceRoot == workspaceRoot && this.paths == paths
      ensures currentContext == None
    {
      this.workspaceRoot := workspaceRoot;
      this.paths := paths;
      currentContext := None;
    }

    method GetCurrentContext() returns (context: Option<ProjectContext>)
      ensures context == currentContext
    {
      context := currentContext;
    }

    method SetCurrentContext(context: Option<ProjectContext>)
      modifies this`currentContext
      ensures currentContext == context
    {
      currentContext := context;
    }

    /** `captureCurrentLayout`: a first pass seeds `layoutMap` for every view
        column, a second pass records each text group and tracks the active
        one, and the terminals are captured last. */
    method CaptureCurrentLayout(w: Window) returns (layout: WindowLayout)
      ensures layout == CapturedLayout(w, workspaceRoot, paths)
    {
      var tabGroups := w.tabGroups;
      var editorGroups: seq<EditorGroup> := [];
      var activeGroup := 0;
      var layoutMap: map<int, GridPosition> := map[];

      var i := 0;
      while i < |tabGroups|
        invariant 0 <= i <= |tabGroups|
        invariant layoutMap == SeedLayoutMap(tabGroups[..i])
      {
        layoutMap := layoutMap[ColumnOf(tabGroups[i]) := GridPosition(0, 0)];
        assert tabGroups[..i + 1][..i] == tabGroups[..i];
        i := i + 1;
      }
      assert tabGroups[..|tabGroups|] == tabGroups;

      i := 0;
      while i < |tabGroups|
        invariant 0 <= i <= |tabGroups|
        invariant editorGroups == CapturedGroups(tabGroups[..i], workspaceRoot, paths, w.activeTextEditor, layoutMap, |tabGroups|)
        invariant activeGroup == CapturedActiveGroup(tabGroups[..i])
      {
        var group := tabGroups[i];
        var activeTab := ActiveTab(group.tabs);
        assert tabGroups[..i + 1][..i] == tabGroups[..i];
        if activeTab.Some? && activeTab.value.input.TextInput? {
          var fsPath := activeTab.value.input.fsPath;
          var viewColumn := ColumnOf(group);
          var relativePath := paths.relative(workspaceRoot, fsPath);
          if group.isActive {
            activeGroup := viewColumn;
          }
          var file := OpenFile(relativePath, viewColumn, None);
          if w.activeTextEditor.Some? && w.activeTextEditor.value.fsPath == fsPath {
            file := file.(scroll := Some(ScrollOf(w.activeTextEditor.value)));
          }
          var position := if viewColumn in layoutMap then layoutMap[viewColumn] else GridPosition(1, viewColumn);
          editorGroups := editorGroups + [EditorGroup(viewColumn, position, OneOver(|tabGroups|), [file], Some(relativePath))];
        }
        i := i + 1;
      }
      layout := WindowLayout(editorGroups, activeGroup, Some(CaptureTerminals(w.terminals, w.activeTerminal)));
    }

    /** `getEditorLayout` (never called by capture): the groups laid out
        row-major in a grid `ceil(sqrt(n))` columns wide.  Every position is a
        cell of that grid, gives back its group's index, and positions strictly
        increase in row-major order, so no two coincide. */
    method GetEditorLayout(w: Window) returns (groups: seq<GridSlot>)
      ensures |groups| == |w.tabGroups|
      ensures forall k :: 0 <= k < |groups| ==>
                groups[k].viewColumn == ColumnOf(w.tabGroups[k]) && groups[k].size == OneOver(|groups|)
      ensures forall k :: 0 <= k < |groups| ==>
                InGrid(groups[k].position, |groups|) &&
                (groups[k].position.row - 1) * CeilSqrt(|groups|) + (groups[k].position.column - 1) == k
      ensures forall j, k :: 0 <= j < k < |groups| ==> RowMajorBefore(groups[j].position, groups[k].position)
    {
      var tabGroups := w.tabGroups;
      var totalGroups := |tabGroups|;
      var numColumns := CeilSqrt(totalGroups);
      groups := [];
      var index := 0;
      while index < totalGroups
        invariant 0 <= index <= totalGroups
        invariant totalGroups > 0 ==> numColumns > 0
        invariant |groups| == index
        invariant forall k :: 0 <= k < index ==>
                    groups[k].viewColumn == ColumnOf(tabGroups[k]) && groups[k].size == OneOver(totalGroups)
        invariant forall k :: 0 <= k < index ==> groups[k].position == PositionAt(k, numColumns)
      {
        var viewColumn := ColumnOf(tabGroups[index]);
        var row := index / numColumns + 1;
        var column := index % numColumns + 1;
        groups := groups + [GridSlot(viewColumn, GridPosition(row, column), OneOver(totalGroups))];
        index := index + 1;
      }
      forall k | 0 <= k < totalGroups
        ensures InGrid(groups[k].position, totalGroups)
        ensures (groups[k].position.row - 1) * numColumns + (groups[k].position.column - 1) == k
      {
        PositionInGrid(k, totalGroups);
      }
      forall j, k | 0 <= j < k < totalGroups
        ensures RowMajorBefore(groups[j].position, groups[k].position)
      {
        PositionsRowMajor(j, k, numColumns);
      }
    }

    /** `restoreEditorGroups`: close all editors, then rebuild the groups in
        row-major order with relative splits, opening each group's first file. */
    method RestoreEditorGroups(groups: seq<EditorGroup>, fileExists: string -> bool)
      returns (ops: seq<HostOp>, completed: bool)
      ensures Plan(ops, completed) == EditorGroupsPlan(groups, workspaceRoot, paths, fileExists)
    {
      var sortedGroups := SortedGroups(groups);
      ops, completed := ReplaySorted(sortedGroups, fileExists);
    }

    /** The body of `restoreEditorGroups` after the sort: the first group's file
        is opened without a split, then each further group gets one split (down
        when its row exceeds `currentRow`, which starts at 1) and its first file. */
    method ReplaySorted(sortedGroups: seq<EditorGroup>, fileExists: string -> bool)
      returns (ops: seq<HostOp>, completed: bool)
      ensures Plan(ops, completed) == SortedPlan(sortedGroups, workspaceRoot, paths, fileExists)
    {
      ghost var plan := SortedPlan(sortedGroups, workspaceRoot, paths, fileExists);
      ops := [CloseAllEditors];
      if |sortedGroups| == 0 {
        completed := true;
        return;
      }
      var firstOps, firstOk := OpenFirst(sortedGroups[0], fileExists);
      if !firstOk {
        completed := false;
        return;
      }
      ops := ops + firstOps;
      var currentRow := 1;
      var i := 1;
      while i < |sortedGroups|
        invariant 1 <= i <= |sortedGroups|
        invariant var tail := SplitPlan(sortedGroups[i..], currentRow, workspaceRoot, paths, fileExists);
                  plan == Plan(ops + tail.ops, tail.completed)
      {
        var group := sortedGroups[i];
        ghost var before := ops;
        ghost var tail := SplitPlan(sortedGroups[i..], currentRow, workspaceRoot, paths, fileExists);
        assert sortedGroups[i..][0] == group && sortedGroups[i..][1..] == sortedGroups[i + 1..];
        var split := if group.position.row > currentRow then SplitDown else SplitRight;
        if group.position.row > currentRow {
          currentRow := group.position.row;
        }
        var groupOps, ok := OpenFirst(group, fileExists);
        ghost var next := SplitPlan(sortedGroups[i + 1..], currentRow, workspaceRoot, paths, fileExists);
        if !ok {
          assert tail == Plan([split], false);
          ops := ops + [split];
          completed := false;
          return;
        }
        assert tail == Plan([split] + groupOps + next.ops, next.completed);
        ops := ops + ([split] + groupOps);
        assert (before + ([split] + groupOps)) + next.ops == before + (([split] + groupOps) + next.ops);
        i := i + 1;
      }
      completed := true;
    }

    /** Opening a group's first file (if any) with `preserveFocus`; a missing
        document throws, which `restoreEditorGroups` does not catch. */
    method OpenFirst(group: EditorGroup, fileExists: string -> bool) returns (ops: seq<HostOp>, ok: bool)
      ensures Plan(ops, ok) == OpenFirstFile(group, workspaceRoot, paths, fileExists)
    {
      ops, ok := [], true;
      if |group.files| > 0 {
        var absolutePath := paths.join(workspaceRoot, group.files[0].path);
        if fileExists(absolutePath) {
          ops := [ShowDocument(absolutePath, None, true)];
        } else {
          ok := false;
        }
      }
    }

    /** `restoreLayout`: close all editors, rebuild the groups (a failure there
        escapes and aborts the rest), reopen every file of every group with
        each failure caught, re-focus the active file, recreate the terminals. */
    method RestoreLayout(layout: WindowLayout, fileExists: string -> bool)
      returns (ops: seq<HostOp>, completed: bool)
      ensures Plan(ops, completed) == RestorePlan(layout, workspaceRoot, paths, fileExists)
    {
      var groupOps, groupsCompleted := RestoreEditorGroups(layout.editorGroups, fileExists);
      ops := [CloseAllEditors] + groupOps;
      if !groupsCompleted {
        completed := false;
        return;
      }
      var fileOps := RestoreFiles(layout.editorGroups, fileExists);
      var activeOps := RestoreActiveFile(layout, fileExists);
      var terminalOps: seq<HostOp> := [];
      if layout.terminals.Some? {
        terminalOps := RestoreTerminals(layout.terminals.value);
      }
      ops := ops + fileOps + activeOps + terminalOps;
      completed := true;
    }

    /** The outer loop of the file pass: every group, in stored order. */
    method RestoreFiles(groups: seq<EditorGroup>, fileExists: string -> bool) returns (ops: seq<HostOp>)
      ensures ops == GroupsFileOps(groups, workspaceRoot, paths, fileExists)
    {
      ops := [];
      var gi := 0;
      while gi < |groups|
        invariant 0 <= gi <= |groups|
        invariant ops == GroupsFileOps(groups[..gi], workspaceRoot, paths, fileExists)
      {
        var groupOps := RestoreGroupFiles(groups[gi].files, fileExists);
        ops := ops + groupOps;
        assert groups[..gi + 1][..gi] == groups[..gi];
        gi := gi + 1;
      }
      assert groups[..|groups|] == groups;
    }

    /** The inner loop of the file pass: each file's open is try/caught, so a
        missing document only skips that file. */
    method RestoreGroupFiles(files: seq<OpenFile>, fileExists: string -> bool) returns (ops: seq<HostOp>)
      ensures ops == FilesOps(files, workspaceRoot, paths, fileExists)
    {
      ops := [];
      var fi := 0;
      while fi < |files|
        invariant 0 <= fi <= |files|
        invariant ops == FilesOps(files[..fi], workspaceRoot, paths, fileExists)
      {
        var file := files[fi];
        var fileOps: seq<HostOp> := [];
        var absolutePath := paths.join(workspaceRoot, file.path);
        if fileExists(absolutePath) {
          fileOps := [ShowDocument(absolutePath, Some(file.viewColumn), true)];
          if file.scroll.Some? {
            var scroll := file.scroll.value;
            if scroll.line >= 0 && scroll.character >= 0 {
              fileOps := fileOps + [SetCursor(scroll.line, scroll.character)];
            }
          }
        }
        assert fileOps == FileOps(file, workspaceRoot, paths, fileExists);
        ops := ops + fileOps;
        assert files[..fi + 1][..fi] == files[..fi];
        fi := fi + 1;
      }
      assert files[..|files|] == files;
    }

    /** Re-focusing the active group's active file, its failure caught. */
    method RestoreActiveFile(layout: WindowLayout, fileExists: string -> bool) returns (ops: seq<HostOp>)
      ensures ops == ActiveFileOps(layout, workspaceRoot, paths, fileExists)
    {
      ops := [];
      if layout.activeGroup != 0 {
        var activeGroup := FindGroup(layout.editorGroups, layout.activeGroup);
        if activeGroup.Some? && activeGroup.value.activeFile.Some? && activeGroup.value.activeFile.value != "" {
          var absolutePath := paths.join(workspaceRoot, activeGroup.value.activeFile.value);
          if fileExists(absolutePath) {
            ops := [ShowDocument(absolutePath, Some(activeGroup.value.position.column), false)];
          }
        }
      }
    }

    /** One `createTerminal` per record, and `show` on the visible ones. */
    method RestoreTerminals(terminals: seq<TerminalConfig>) returns (ops: seq<HostOp>)
      ensures ops == TerminalOps(terminals, workspaceRoot, paths)
    {
      ops := [];
      var ti := 0;
      while ti < |terminals|
        invariant 0 <= ti <= |terminals|
        invariant ops == TerminalOps(terminals[..ti], workspaceRoot, paths)
      {
        var terminal := terminals[ti];
        var cwd := if terminal.cwd.Some? && terminal.cwd.value != "" then Some(paths.join(workspaceRoot, terminal.cwd.value)) else None;
        ops := ops + [CreateTerminal(terminal.name, cwd)];
        if terminal.isVisible {
          ops := ops + [ShowTerminal];
        }
        assert terminals[..ti + 1][..ti] == terminals[..ti];
        ti := ti + 1;
      }
      assert terminals[..|terminals|] == terminals;
    }
  }
}
