/** What `captureCurrentLayout` and `captureTerminals` compute
    (src/services/layoutService.ts), stated as functions over a `Window`
    snapshot, and what is proved about them. */
module Capture {
  import opened Types
  import opened Host

  const Origin := GridPosition(0, 0)

  /** `group.viewColumn || 1`: a falsy view column reads as 1. */
  function ColumnOf(g: TabGroup): (c: int)
    ensures c != 0
  {
    if g.viewColumn == 0 then 1 else g.viewColumn
  }

  /** `tabs.find(tab => tab.isActive)`: the first active tab. */
  function ActiveTab(tabs: seq<Tab>): Option<Tab>
  {
    if tabs == [] then None
    else if tabs[0].isActive then Some(tabs[0])
    else ActiveTab(tabs[1..])
  }

  /** `find` returns a tab iff one is active, and then the first active one. */
  lemma {:induction false} ActiveTabFinds(tabs: seq<Tab>)
    ensures var r := ActiveTab(tabs);
            && (r.Some? <==> exists i :: 0 <= i < |tabs| && tabs[i].isActive)
            && (r.Some? ==> exists i :: 0 <= i < |tabs| && tabs[i] == r.value && tabs[i].isActive &&
                              forall j :: 0 <= j < i ==> !tabs[j].isActive)
  {
    if tabs != [] && !tabs[0].isActive {
      ActiveTabFinds(tabs[1..]);
      assert forall i :: 1 <= i < |tabs| ==> tabs[i] == tabs[1..][i - 1];
      if ActiveTab(tabs).Some? {
        var i :| 0 <= i < |tabs[1..]| && tabs[1..][i] == ActiveTab(tabs).value && tabs[1..][i].isActive &&
                 forall j :: 0 <= j < i ==> !tabs[1..][j].isActive;
        assert tabs[i + 1] == tabs[1..][i];
      }
    }
  }

  /** The absolute path of the group's active tab, when that tab shows a text
      document; `None` for a group that capture skips. */
  function TextDocumentOf(g: TabGroup): Option<string>
  {
    match ActiveTab(g.tabs)
    case Some(Tab(_, TextInput(p))) => Some(p)
    case _ => None
  }

  predicate IsTextGroup(g: TabGroup)
  {
    TextDocumentOf(g).Some?
  }

  /** `visibleRanges[0]?.start.{line,character} || 0`. */
  function ScrollOf(editor: TextEditor): Scroll
  {
    match editor.firstVisible
    case Some(s) => s
    case None => Scroll(0, 0)
  }

  /** The record pushed for one text group: the source's object literal, with
      the position looked up in `layoutMap` and `{row: 1, column: viewColumn}`
      as the fallback. */
  function GroupRecord(g: TabGroup, root: string, paths: PathOps, editor: Option<TextEditor>,
                       layoutMap: map<int, GridPosition>, total: nat): EditorGroup
    requires IsTextGroup(g)
  {
    var viewColumn := ColumnOf(g);
    var fsPath := TextDocumentOf(g).value;
    var relativePath := paths.relative(root, fsPath);
    var scroll := if editor.Some? && editor.value.fsPath == fsPath then Some(ScrollOf(editor.value)) else None;
    var position := if viewColumn in layoutMap then layoutMap[viewColumn] else GridPosition(1, viewColumn);
    EditorGroup(viewColumn, position, OneOver(total), [OpenFile(relativePath, viewColumn, scroll)], Some(relativePath))
  }

  /** The first pass: every view column is seeded with `{row: 0, column: 0}`. */
  function SeedLayoutMap(gs: seq<TabGroup>): map<int, GridPosition>
  {
    if gs == [] then map[]
    else SeedLayoutMap(gs[..|gs| - 1])[ColumnOf(gs[|gs| - 1]) := Origin]
  }

  /** The second pass: one record per text group, in `tabGroups.all` order. */
  function CapturedGroups(gs: seq<TabGroup>, root: string, paths: PathOps, editor: Option<TextEditor>,
                          layoutMap: map<int, GridPosition>, total: nat): seq<EditorGroup>
  {
    if gs == [] then []
    else
      var prev := CapturedGroups(gs[..|gs| - 1], root, paths, editor, layoutMap, total);
      var g := gs[|gs| - 1];
      if IsTextGroup(g) then prev + [GroupRecord(g, root, paths, editor, layoutMap, total)] else prev
  }

  /** `activeGroup`, reassigned for every active group that has a text tab. */
  function CapturedActiveGroup(gs: seq<TabGroup>): int
  {
    if gs == [] then 0
    else
      var g := gs[|gs| - 1];
      if IsTextGroup(g) && g.isActive then ColumnOf(g) else CapturedActiveGroup(gs[..|gs| - 1])
  }

  /** The groups capture keeps, in order. */
  function TextGroups(gs: seq<TabGroup>): (r: seq<TabGroup>)
    ensures forall g :: g in r <==> g in gs && IsTextGroup(g)
    ensures forall i :: 0 <= i < |r| ==> IsTextGroup(r[i])
  {
    if gs == [] then []
    else
      var prev := TextGroups(gs[..|gs| - 1]);
      assert gs == gs[..|gs| - 1] + [gs[|gs| - 1]];
      if IsTextGroup(gs[|gs| - 1]) then prev + [gs[|gs| - 1]] else prev
  }

  /** The filter keeps order: the text groups of `a + b` are those of `a`
      followed by those of `b`. */
  lemma {:induction false} TextGroupsAppend(a: seq<TabGroup>, b: seq<TabGroup>)
    ensures TextGroups(a + b) == TextGroups(a) + TextGroups(b)
  {
    if b == [] {
      assert a + b == a;
    } else {
      var n := |b|;
      TextGroupsAppend(a, b[..n - 1]);
      assert (a + b)[..|a + b| - 1] == a + b[..n - 1];
      assert (a + b)[|a + b| - 1] == b[n - 1];
    }
  }

  /** The last tab group decides the last step of the filter. */
  lemma TextGroupsStep(gs: seq<TabGroup>)
    requires gs != []
    ensures TextGroups(gs) == if IsTextGroup(gs[|gs| - 1]) then TextGroups(gs[..|gs| - 1]) + [gs[|gs| - 1]]
                              else TextGroups(gs[..|gs| - 1])
  {
  }

  /** A window of text groups only is kept whole. */
  lemma {:induction false} TextGroupsKeepAll(gs: seq<TabGroup>)
    requires forall i :: 0 <= i < |gs| ==> IsTextGroup(gs[i])
    ensures TextGroups(gs) == gs
  {
    if gs != [] {
      var n := |gs|;
      var prefix := gs[..n - 1];
      var last := gs[n - 1];
      assert gs == prefix + [last];
      assert IsTextGroup(last);
      forall i | 0 <= i < |prefix| ensures IsTextGroup(prefix[i]) {
        assert prefix[i] == gs[i];
      }
      TextGroupsKeepAll(prefix);
      TextGroupsStep(gs);
    }
  }

  /** A window without a text group keeps nothing. */
  lemma {:induction false} TextGroupsDropAll(gs: seq<TabGroup>)
    requires forall i :: 0 <= i < |gs| ==> !IsTextGroup(gs[i])
    ensures TextGroups(gs) == []
  {
    if gs != [] {
      var n := |gs|;
      var prefix := gs[..n - 1];
      assert forall i :: 0 <= i < n - 1 ==> !IsTextGroup(prefix[i]);
      TextGroupsDropAll(prefix);
      TextGroupsStep(gs);
    }
  }

  /** The indices of the tab groups whose active tab is a text document. */
  function TextIndices(gs: seq<TabGroup>): set<nat>
  {
    set i: nat | i < |gs| && IsTextGroup(gs[i])
  }

  lemma TextIndicesStep(gs: seq<TabGroup>)
    requires gs != []
    ensures TextIndices(gs) == TextIndices(gs[..|gs| - 1]) + (if IsTextGroup(gs[|gs| - 1]) then {|gs| - 1} else {})
  {
    var n := |gs|;
    var prefix := gs[..n - 1];
    forall i: nat | i < n - 1 ensures prefix[i] == gs[i] {}
  }

  /** One kept group per text group. */
  lemma {:induction false} TextGroupsCount(gs: seq<TabGroup>)
    ensures |TextGroups(gs)| == |TextIndices(gs)|
  {
    if gs != [] {
      var n := |gs|;
      var prefix := gs[..n - 1];
      TextGroupsCount(prefix);
      TextGroupsStep(gs);
      TextIndicesStep(gs);
      assert n - 1 !in TextIndices(prefix);
    }
  }

  /** `captureTerminals`: one record per terminal, in order. */
  function CaptureTerminals(names: seq<string>, active: Option<string>): (r: seq<TerminalConfig>)
    ensures |r| == |names|
    ensures forall i :: 0 <= i < |r| ==> r[i].name == Some(names[i]) && r[i].cwd.None?
    ensures forall i :: 0 <= i < |r| ==> (r[i].isVisible <==> active == Some(names[i]))
  {
    if names == [] then []
    else [TerminalConfig(Some(names[0]), None, active == Some(names[0]))] + CaptureTerminals(names[1..], active)
  }

  /** The whole `WindowLayout` capture returns. */
  function CapturedLayout(w: Window, root: string, paths: PathOps): WindowLayout
  {
    WindowLayout(
      CapturedGroups(w.tabGroups, root, paths, w.activeTextEditor, SeedLayoutMap(w.tabGroups), |w.tabGroups|),
      CapturedActiveGroup(w.tabGroups),
      Some(CaptureTerminals(w.terminals, w.activeTerminal)))
  }

  /** One record per text group, in order, each carrying exactly one file in
      its own view column under the workspace-relative path, which is also the
      group's active file. */
  lemma {:induction false} CapturedGroupsShape(gs: seq<TabGroup>, root: string, paths: PathOps,
                                               editor: Option<TextEditor>, layoutMap: map<int, GridPosition>, total: nat)
    ensures var r := CapturedGroups(gs, root, paths, editor, layoutMap, total);
            var tg := TextGroups(gs);
            |r| == |tg| &&
            forall i :: 0 <= i < |r| ==>
              && r[i].id == ColumnOf(tg[i])
              && r[i].size == OneOver(total)
              && |r[i].files| == 1
              && r[i].files[0].viewColumn == r[i].id
              && r[i].files[0].path == paths.relative(root, TextDocumentOf(tg[i]).value)
              && r[i].activeFile == Some(r[i].files[0].path)
              && r[i].files[0].scroll ==
                   (if editor.Some? && editor.value.fsPath == TextDocumentOf(tg[i]).value
                    then Some(ScrollOf(editor.value)) else None)
  {
    if gs != [] {
      CapturedGroupsShape(gs[..|gs| - 1], root, paths, editor, layoutMap, total);
    }
  }

  /** N tab groups showing a text document give N captured groups. */
  lemma CapturedGroupCount(w: Window, root: string, paths: PathOps)
    ensures |CapturedLayout(w, root, paths).editorGroups| == |TextIndices(w.tabGroups)|
  {
    CapturedGroupsShape(w.tabGroups, root, paths, w.activeTextEditor, SeedLayoutMap(w.tabGroups), |w.tabGroups|);
    TextGroupsCount(w.tabGroups);
  }

  /** Every view column of `gs` is a key of the seeded map, bound to the origin. */
  lemma {:induction false} SeedCoversColumns(gs: seq<TabGroup>)
    ensures forall g :: g in gs ==> ColumnOf(g) in SeedLayoutMap(gs)
    ensures forall c :: c in SeedLayoutMap(gs) ==> SeedLayoutMap(gs)[c] == Origin
  {
    if gs != [] {
      SeedCoversColumns(gs[..|gs| - 1]);
      assert gs == gs[..|gs| - 1] + [gs[|gs| - 1]];
    }
  }

  lemma {:induction false} PositionsFromMap(gs: seq<TabGroup>, root: string, paths: PathOps,
                                            editor: Option<TextEditor>, layoutMap: map<int, GridPosition>, total: nat)
    requires forall g :: g in gs ==> ColumnOf(g) in layoutMap && layoutMap[ColumnOf(g)] == Origin
    ensures forall e :: e in CapturedGroups(gs, root, paths, editor, layoutMap, total) ==> e.position == Origin
  {
    if gs != [] {
      assert gs == gs[..|gs| - 1] + [gs[|gs| - 1]];
      PositionsFromMap(gs[..|gs| - 1], root, paths, editor, layoutMap, total);
    }
  }

  /** Every captured group sits at `{row: 0, column: 0}`: the first pass seeds
      every view column, so the `{row: 1, column: viewColumn}` fallback is
      never taken. */
  lemma CapturedPositionsAtOrigin(w: Window, root: string, paths: PathOps)
    ensures forall e :: e in CapturedLayout(w, root, paths).editorGroups ==> e.position == Origin
  {
    SeedCoversColumns(w.tabGroups);
    PositionsFromMap(w.tabGroups, root, paths, w.activeTextEditor, SeedLayoutMap(w.tabGroups), |w.tabGroups|);
  }

  /** `activeGroup` is the view column of the last active group showing a text
      document, and 0 when there is none. */
  lemma {:induction false} CapturedActiveGroupIsLastActive(gs: seq<TabGroup>)
    ensures CapturedActiveGroup(gs) == 0 <==> forall i :: 0 <= i < |gs| ==> !(gs[i].isActive && IsTextGroup(gs[i]))
    ensures CapturedActiveGroup(gs) != 0 ==>
              exists i :: 0 <= i < |gs| && gs[i].isActive && IsTextGroup(gs[i]) &&
                          ColumnOf(gs[i]) == CapturedActiveGroup(gs) &&
                          forall j :: i < j < |gs| ==> !(gs[j].isActive && IsTextGroup(gs[j]))
  {
    if gs != [] {
      var n := |gs|;
      var prev := gs[..n - 1];
      var last := gs[n - 1];
      assert CapturedActiveGroup(gs) == if IsTextGroup(last) && last.isActive then ColumnOf(last) else CapturedActiveGroup(prev);
      if IsTextGroup(last) && last.isActive {
        assert gs[n - 1].isActive && IsTextGroup(gs[n - 1]);
      } else {
        CapturedActiveGroupIsLastActive(prev);
        forall i | 0 <= i < n - 1 ensures gs[i] == prev[i] {}
        if CapturedActiveGroup(prev) != 0 {
          var i :| 0 <= i < |prev| && prev[i].isActive && IsTextGroup(prev[i]) &&
                   ColumnOf(prev[i]) == CapturedActiveGroup(prev) &&
                   forall j :: i < j < |prev| ==> !(prev[j].isActive && IsTextGroup(prev[j]));
          assert gs[i] == prev[i];
          forall j | i < j < n ensures !(gs[j].isActive && IsTextGroup(gs[j])) {
            if j < n - 1 {
              assert gs[j] == prev[j];
            }
          }
        } else {
          forall i | 0 <= i < n ensures !(gs[i].isActive && IsTextGroup(gs[i])) {
            if i < n - 1 {
              assert gs[i] == prev[i];
            }
          }
        }
      }
    }
  }

  /** With distinct terminal names at most one captured record is visible.
      VS Code does not make names distinct; with repeated names every
      terminal named like the active one is flagged visible. */
  lemma AtMostOneVisibleTerminal(names: seq<string>, active: Option<string>)
    requires forall i, j :: 0 <= i < j < |names| ==> names[i] != names[j]
    ensures var r := CaptureTerminals(names, active);
            forall i, j :: 0 <= i < j < |r| ==> !(r[i].isVisible && r[j].isVisible)
  {
  }
}
