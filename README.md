# Project context manager — a verified model

A VS Code extension that saves the window's editor layout and terminals as a
named *context*, lists the saved contexts most recent first, switches to one by
replaying its layout, and overrides the selected one with the current window.
Contexts are kept in `.vscode/project-contexts.json` as a dictionary from id to
context.

This project models three pieces in Dafny:

- **The context store** (`storage.dfy`, class `Storage.FileStorage`).
  Read-modify-write upsert, delete and clear over the `contexts` dictionary.
  A read that fails, or a file without `contexts`, yields the empty
  dictionary. Whether a read fails and whether a write fails are inputs.
- **The layout service** (`capture.dfy`, `grid.dfy`, `restore.dfy`,
  `layout.dfy`, class `Layout.LayoutService`). Capture turns a snapshot of the
  host window (`Host.Window`) into a `WindowLayout`. Restore turns a
  `WindowLayout` into the trace of host operations it issues (`Host.HostOp`:
  close all editors, split right or down, show a document, set the cursor,
  create or show a terminal). The file system's answer to "does this file
  open" is an oracle `fileExists`. Each imperative method of the service is
  proved equal to a specification function, and the properties are lemmas
  about those functions. `OpenFirst` and `RestoreActiveFile` have no loop:
  they exist as methods only to follow the source's `try`/`await` steps, and
  each is specified by its function (`Restore.OpenFirstFile`,
  `Restore.ActiveFileOps`).
- **The three commands** (`commands.dfy`). Save, switch and override are
  classes holding the store and the layout service. They are state
  transitions over the stored dictionary and the selected context, with the
  user's answers, the clock and the write outcome as inputs.

`types.dfy` holds the stored records. `sorting.dfy` holds the stable sort that
stands for `Array.prototype.sort`.

What the code does, as modelled:

- Capture does not use grid inference. Its first pass seeds every view column
  with row 0 and column 0, so every captured group sits at (0, 0). The
  `{row: 1, column: viewColumn}` fallback is unreachable. The grid function
  `getEditorLayout` is never called; it is modelled and proved on its own.
- The split planner's `currentRow` starts at 1, not at the first group's row.
  A captured layout therefore replays as one row of right splits
  (`Layout.CapturedLayoutRestoresAsOneRow`).
- The active file is focused in view column `position.column` of its group,
  not `id`. For a captured layout that column is 0.
- `restoreLayout` closes all editors twice: once itself and once at the start
  of the group pass.
- A failed open in the group pass is not caught. It ends the whole restore,
  so the file, active-file and terminal steps never run. Opens in the file
  and active-file steps are caught one by one.

Overriding twice with no change to the window stores the same layout both
times, because capture is a function of the window (`Capture.CapturedLayout`).

## Model

| member | source | states |
|---|---|---|
| Storage.FileStorage.constructor | src/services/fileStorageService.ts:10-31 | a missing file is created with an empty `contexts` dictionary; an existing file is left as it is |
| Storage.Read | src/services/fileStorageService.ts:33-42 | a failed read or a file without `contexts` gives the empty dictionary; otherwise the stored dictionary |
| Storage.FailedReadLosesOthers | src/services/fileStorageService.ts:33-49 | an upsert after a failed read drops every other stored context and leaves only the saved one; after a successful read the others stay |
| Storage.FileStorage.GetAllContexts | src/services/fileStorageService.ts:33-42 | returns the stored dictionary; a failed read (unreadable or unparsable file), or a file without `contexts`, yields the empty dictionary |
| Storage.FileStorage.SaveContext | src/services/fileStorageService.ts:44-53 | upsert over what the read returned: the context is stored under its id and every other entry read is unchanged; after a failed read, or from a file without `contexts`, the file holds only that context; a failed write reports `SaveFailed` and leaves the file unchanged |
| Storage.FileStorage.DeleteContext | src/services/fileStorageService.ts:55-64 | removes only that id from what the read returned; an absent id rewrites the same dictionary; after a failed read the file holds the empty dictionary; a failed write reports `DeleteFailed` and leaves the file unchanged |
| Storage.FileStorage.ClearAllContexts | src/services/fileStorageService.ts:66-72 | the file holds the empty dictionary, or is unchanged when the write fails |
| Layout.LayoutService.constructor | src/services/layoutService.ts:9-15 | no context is selected at start; the workspace root is fixed |
| Layout.LayoutService.GetCurrentContext | src/services/layoutService.ts:17-19 | returns the selected context |
| Layout.LayoutService.SetCurrentContext | src/services/layoutService.ts:21-23 | replaces the selected context and changes nothing else |
| Layout.LayoutService.CaptureCurrentLayout | src/services/layoutService.ts:25-99 | the two passes over the tab groups (seeding the position map, then recording text groups and the active group) yield exactly `Capture.CapturedLayout` of the window |
| Capture.ColumnOf | src/services/layoutService.ts:38 | a group's view column is never 0: 0 falls back to 1 |
| Capture.ActiveTabFinds | src/services/layoutService.ts:55 | finds a tab iff one is active, and it is the first active tab |
| Capture.TextGroups | src/services/layoutService.ts:54-56 | keeps exactly the groups whose active tab is a text document, each of them a text group |
| Capture.TextGroupsAppend | src/services/layoutService.ts:54-56 | filtering distributes over concatenation, so the kept groups stay in tab-group order |
| Capture.TextGroupsKeepAll | src/services/layoutService.ts:54-56 | when every group is a text group, all are kept, in order |
| Capture.TextGroupsDropAll | src/services/layoutService.ts:54-56 | when no group is a text group, nothing is kept |
| Capture.TextGroupsCount | src/services/layoutService.ts:54-56 | the number of kept groups is the number of indices holding a text group |
| Capture.CapturedGroupsShape | src/services/layoutService.ts:54-88 | one group per text group in tab-group order; id = view column; one file with that view column and the workspace-relative path; `activeFile` = that path; its scroll is the active editor's first visible line and character when that file is the active editor's, and absent otherwise |
| Capture.CapturedGroupCount | src/services/layoutService.ts:54-90 | a captured layout has exactly as many groups as the window has groups showing a text tab |
| Capture.SeedCoversColumns | src/services/layoutService.ts:37-51 | the first pass maps every group's view column, and only to (0, 0) |
| Capture.PositionsFromMap | src/services/layoutService.ts:80 | when the map covers every view column with (0, 0), every recorded position is (0, 0): the fallback is never taken |
| Capture.CapturedPositionsAtOrigin | src/services/layoutService.ts:37-88 | every captured group sits at row 0, column 0 |
| Capture.CapturedActiveGroupIsLastActive | src/services/layoutService.ts:28-62 | `activeGroup` is 0 iff no active group shows a text tab; otherwise it is the view column of the last such group |
| Capture.CaptureTerminals | src/services/layoutService.ts:101-109 | one record per terminal in order, named after it, with no working directory, visible iff its name equals the active terminal's name |
| Capture.AtMostOneVisibleTerminal | src/services/layoutService.ts:107 | with distinct terminal names at most one record is visible |
| Layout.LayoutService.GetEditorLayout | src/services/layoutService.ts:111-143 | one slot per tab group with its view column; with c = ceil(sqrt(n)) each position lies in 1..ceil(n/c) x 1..c and recovers its index; positions are strictly row-major, hence pairwise distinct |
| Grid.CeilSqrt | src/services/layoutService.ts:127 | the least c with c * c >= n |
| Grid.PositionInGrid | src/services/layoutService.ts:126-133 | index i of n lies inside the grid and is recovered as (row - 1) * c + (column - 1) |
| Grid.PositionsRowMajor | src/services/layoutService.ts:132-133 | a smaller index lies in an earlier row, or in the same row at a smaller column |
| Grid.GridIsSquarish | src/services/layoutService.ts:127-128 | the grid has no more rows than columns and room for all n groups |
| Sorting.Insert | src/services/layoutService.ts:213-218 | inserting adds exactly one element to the multiset |
| Sorting.Sort | src/commands/switchContext.ts:23-27 | the sort returns a permutation of its input |
| Sorting.SortSorted | src/services/layoutService.ts:213-218 | under a total preorder the sort's output is ordered |
| Sorting.SortKeepsEquivalentOrder | src/services/layoutService.ts:213-218 | when all elements compare equal the sort returns its input |
| Sorting.InsertTies | src/services/layoutService.ts:213-218 | for any value y, inserting x into a sequence puts x first among the elements tied with y when x ties with y, and keeps the order of the others |
| Sorting.SortIsStable | src/commands/switchContext.ts:23-27 | stability: for every value, the elements tied with it appear in the output in the same order as in the input |
| Sorting.PermutationKeepsDistinct | src/commands/switchContext.ts:23-27 | reordering distinct elements keeps them distinct |
| Restore.PositionLeIsTotalPreorder | src/services/layoutService.ts:213-218 | the row-then-column comparator is a total preorder |
| Restore.SortedGroupsFacts | src/services/layoutService.ts:213-218 | the sorted copy has the same groups, with rows non-decreasing; the caller's sequence is a value and stays as it was |
| Layout.LayoutService.RestoreEditorGroups | src/services/layoutService.ts:211-257 | the operations and the completion flag are those of `Restore.EditorGroupsPlan` |
| Layout.LayoutService.ReplaySorted | src/services/layoutService.ts:220-256 | the split loop with its mutable `currentRow` yields `Restore.SortedPlan` of the sorted groups |
| Layout.LayoutService.OpenFirst | src/services/layoutService.ts:228-232 | opens a group's first file with `preserveFocus`, does nothing for a group without files, and stops the pass when the file cannot be opened |
| Restore.FirstFailure | src/services/layoutService.ts:226-256 | finds a group iff some group's first file cannot be opened, and it is the first such group |
| Restore.SplitPlanSplits | src/services/layoutService.ts:238-256 | the loop completes iff no group fails to open; it issues one split per group, or splits up to and including the failing group |
| Restore.SplitPlanNoDown | src/services/layoutService.ts:241-248 | no down split while no group's row exceeds the current row |
| Restore.SplitPlanDowns | src/services/layoutService.ts:241-248 | for a pass that completes, with rows in order, the number of down splits is the number of distinct rows above the current row |
| Restore.SortedPlanSplits | src/services/layoutService.ts:220-256 | the pass completes iff no group's first file fails to open; it then issues n - 1 splits, or otherwise splits up to the failing group |
| Restore.EditorGroupsPlanSplits | src/services/layoutService.ts:211-257 | no groups: close all and nothing else; otherwise close all, open the first sorted group's first file with no split, then n - 1 splits when every open succeeds; an uncaught failed open ends the pass after that group's split |
| Restore.EditorGroupsPlanDowns | src/services/layoutService.ts:234-248 | for a pass that completes, the down splits number the distinct rows greater than 1 among the sorted groups after the first |
| Restore.NoDownSplitsWithinFirstRow | src/services/layoutService.ts:235-248 | groups all in row 1 or above it replay with right splits only |
| Layout.CapturedLayoutRestoresAsOneRow | src/services/layoutService.ts:213-248 | a captured layout keeps its order through the sort and replays with no down split |
| Layout.LayoutService.RestoreLayout | src/services/layoutService.ts:145-209 | the operations and the completion flag are those of `Restore.RestorePlan` |
| Restore.OnlyGroupPassAborts | src/services/layoutService.ts:145-176 | a restore closes all editors twice, and it completes iff every group's first file opens; the file and active-file steps never abort it |
| Layout.LayoutService.RestoreFiles | src/services/layoutService.ts:153-176 | the nested loop over groups and files yields `Restore.GroupsFileOps` |
| Layout.LayoutService.RestoreGroupFiles | src/services/layoutService.ts:154-175 | the loop over one group's files yields `Restore.FilesOps` |
| Restore.FilesOpsOpenExisting | src/services/layoutService.ts:154-175 | a document is shown in its view column with `preserveFocus` iff its file exists; a missing file is skipped and later files still open |
| Restore.FilesOpsShowsFile | src/services/layoutService.ts:154-175 | a given file whose document exists is shown, keeping focus, in its view column, whatever happens to the files around it |
| Restore.FilesOpsShowsExisting | src/services/layoutService.ts:154-175 | every file whose document exists is shown, keeping focus, in its view column |
| Restore.FilesOpsShowsOnlyListed | src/services/layoutService.ts:154-175 | every show of one group's file pass comes from a listed file whose document exists |
| Restore.FilesOpsSetCursor | src/services/layoutService.ts:164-171 | every existing file with a non-negative scroll position is shown in its view column and immediately followed by a cursor move, on the focused editor, to that line and character |
| Restore.GroupsFileOpsShowsFile | src/services/layoutService.ts:153-176 | a given file of a given group whose document exists is shown, keeping focus, in its view column |
| Restore.GroupsFileOpsShowsExisting | src/services/layoutService.ts:153-176 | every listed file of every group whose document exists is shown |
| Restore.GroupsFileOpsShowsOnlyListed | src/services/layoutService.ts:153-176 | every show of the file pass comes from a listed file whose document exists |
| Restore.GroupsFileOpsOpenExisting | src/services/layoutService.ts:153-176 | across all groups a document is shown iff some group lists it and it exists |
| Restore.FindGroup | src/services/layoutService.ts:180 | finds a group iff one has the id, and it is the first one |
| Layout.LayoutService.RestoreActiveFile | src/services/layoutService.ts:178-194 | yields `Restore.ActiveFileOps` |
| Restore.ActiveFileFocus | src/services/layoutService.ts:178-194 | the first group with the active id decides: no active file, an empty one, or a missing file gives nothing; otherwise one show without `preserveFocus` in view column `position.column` |
| Restore.DanglingActiveGroupSkipped | src/services/layoutService.ts:179-181 | when no group has the active id, the active-file step does nothing and the restore is that of a layout whose `activeGroup` is 0 |
| Layout.LayoutService.RestoreTerminals | src/services/layoutService.ts:196-208 | yields `Restore.TerminalOps` |
| Restore.TerminalCreations | src/services/layoutService.ts:196-208 | one terminal is created per record, in order, with its name; the working directory is joined to the root only when present and non-empty |
| Restore.TerminalShows | src/services/layoutService.ts:204-206 | one `show` per visible record |
| Restore.TerminalShowsFollowVisible | src/services/layoutService.ts:197-208 | per record, in order: the terminal created for record i is shown right after its creation iff record i is visible |
| Layout.VisibleCountOfCapture | src/services/layoutService.ts:101-109 | the captured visible records number the terminals named like the active one; with distinct names, one iff the active terminal is among them, otherwise none |
| Layout.CapturedTerminalsRecreated | src/services/layoutService.ts:196-208 | restoring captured terminals creates each one by name, in order, with no working directory, and shows after each creation exactly the terminals named like the active one; with distinct names, exactly the active one |
| Layout.CapturedScrollRestored | src/services/layoutService.ts:153-176 | a captured group's file is restored by one show in its view column iff it exists, followed by a cursor move, on the focused editor, to the captured first visible line and character when it was the active editor's and that position is non-negative |
| Layout.CapturedActiveGroupIsRecorded | src/services/layoutService.ts:54-88 | a non-zero captured `activeGroup` is the id of a captured group |
| Commands.DigitChar | src/commands/saveContext.ts:29 | a digit value becomes a decimal digit character |
| Commands.DecimalString | src/commands/saveContext.ts:29 | a timestamp's decimal form is a non-empty string of digits, longer than one digit iff the number is at least 10, without a leading zero |
| Commands.DecimalStringInjective | src/commands/saveContext.ts:29 | different timestamps give different decimal strings |
| Commands.SavesAtDistinctTimesDoNotCollide | src/commands/saveContext.ts:28-33 | contexts saved at different clock readings get different ids |
| Commands.SaveContextCommand.Execute | src/commands/saveContext.ts:12-45 | an empty or cancelled name changes nothing; otherwise the new context (id = decimal timestamp, the name, no description, access time now, the captured layout) is upserted into what the store's read returned, and only then selected; a failed write selects nothing; the store stays well keyed and the selection stays stored |
| Commands.Listing | src/commands/switchContext.ts:15 | `Object.values` in the store's key order: one context per key |
| Commands.ByRecency | src/commands/switchContext.ts:23-27 | a permutation of the contexts, most recently accessed first |
| Commands.ByRecencyKeepsTies | src/commands/switchContext.ts:23-27 | two contexts tie exactly when their access times are equal, and for any access time the contexts with that time keep their listing order |
| Commands.PickItems | src/commands/switchContext.ts:30-35 | one entry per context, in order, with its name and access time; marked "Currently Selected" iff its id equals the selected context's id |
| Commands.ListedIdsDistinct | src/commands/switchContext.ts:15-27 | in a well-keyed store the sorted list has no two contexts with the same id |
| Commands.AtMostOneMarked | src/commands/switchContext.ts:33 | in a well-keyed store at most one entry is marked "Currently Selected" |
| Commands.StoredCurrentIsMarked | src/commands/switchContext.ts:33 | when the selected context is stored under its id, its entry is marked |
| Commands.SwitchContextCommand.Execute | src/commands/switchContext.ts:12-60 | an empty store only informs; a cancelled pick changes nothing; otherwise the items list what the first read returned, and the picked context gets access time now, is upserted into what the second read returned, then selected, then its layout replayed; a failed write stops before selection and replay; a replay that stops ends in an error with the context already selected |
| Commands.OverrideContextCommand.Execute | src/commands/overrideContext.ts:11-47 | no selection warns and changes nothing; any answer but "Yes, Override" changes nothing; otherwise the selected context, with access time now and the captured layout and its id, name and description kept, is upserted into what the read returned and then selected; nothing is replayed |

## Left out

- The VS Code API is not called. The window is a snapshot input (`Host.Window`). Editor and terminal changes are an emitted operation trace. The input box, quick pick and confirmation dialog are optional inputs.
- The text of information, warning and error messages, console logging and `toLocaleString` are not modelled. A command ends with a `Commands.Notice` naming which message it shows.
- `async`/`await` is treated as sequential execution.
- `path.relative` and `path.join` are opaque functions of the `Host.PathOps` input.
- JSON, `fs.existsSync`, `mkdirSync`, `readFile` and `writeFile` are abstracted. The file is a `Storage.FileState`. A read's failure and a write's failure are boolean inputs.
- Storage.FileStorage.SaveContext: a failed write is modelled as leaving the file unchanged, so it assumes `writeFile` fails before it truncates the file.
- Storage.FileStorage.DeleteContext: a failed write is modelled as leaving the file unchanged, so it assumes `writeFile` fails before it truncates the file.
- Storage.FileStorage.ClearAllContexts: a failed write is modelled as leaving the file unchanged, so it assumes `writeFile` fails before it truncates the file.
- `size = 1 / n` is floating point. It is kept as the denominator `n` (`Types.Size`).
- `Date.now()` and `new Date()` are one clock reading `now`, in milliseconds.
- `lastAccessed` is an integer timestamp. The `Date` it becomes after a JSON round trip is not modelled.
- `Array.prototype.sort` sorts in place with a library algorithm. Sorting.Sort is a stable insertion sort on a value sequence, so the in-place update of `contextList` is not modelled.
- `Object.values` order is a parameter `keyOrder` listing the store's keys once each.
- The quick pick's answer is an index into the items it was shown.
- `selected.context.lastAccessed = new Date()` mutates the listed object in place. The model builds the updated record as a new value; the listing is discarded afterwards, so nothing observable differs.
- Capture cannot fail in the model, so a failure during capture is not modelled. The save, switch and override commands fail only on a failed write or, for switch, an uncaught failed open during the replay.
- `SetCursor` is emitted whenever a file with a non-negative scroll position is shown, and names no target editor. The code applies it to `activeTextEditor`, the focused editor. Every file is shown with `preserveFocus: true`, so the focused editor is generally not the file just shown. After replaying two groups where the first held the active editor's file, focus sits in the last group, so the captured position lands on that group's editor. This looks like a defect in the code. Which editor receives the cursor is not modelled. A negative line or character makes `Position` throw; that open's try/catch skips the cursor step, as modelled.
- The layout service and store constructors throw when no workspace folder is open. The model starts from a workspace root, so that case is not modelled.
- The configuration service between commands and store only rewraps error messages, so it is not modelled. The extension's activation, command registration and status bar are not modelled either.
- `getContext` by id is not used by the commands, so it is not modelled.
- `Object.values` returns the dictionary's own objects, so `selected.context.lastAccessed = new Date()` also changes the object inside the dictionary just read. That dictionary is discarded before the save reads the file again, so the aliasing has no visible effect; the model, built on values, does not capture it.
