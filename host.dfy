/** The part of the VS Code API the layout engine uses, abstracted.  Reads of
    the window become a `Window` snapshot; every mutation becomes a `HostOp` in
    an emitted trace; `path.relative` and `path.join` are opaque functions. */
module Host {
  import opened Types

  /** `path.relative(from, to)` and `path.join(a, b)`. */
  datatype PathOps = PathOps(relative: (string, string) -> string, join: (string, string) -> string)

  /** A tab's input: a text document (by absolute file-system path) or any
      other kind of editor (diff, notebook, webview, ...). */
  datatype TabInput = TextInput(fsPath: string) | OtherInput

  datatype Tab = Tab(isActive: bool, input: TabInput)

  /** `viewColumn` is a plain number here; 0 stands for the falsy value the
      source replaces by 1. */
  datatype TabGroup = TabGroup(viewColumn: int, isActive: bool, tabs: seq<Tab>)

  /** The active text editor: its document's path and the start of its first
      visible range, if it has one. */
  datatype TextEditor = TextEditor(fsPath: string, firstVisible: Option<Scroll>)

  /** What capture reads from the window, in `tabGroups.all` and
      `window.terminals` order. */
  datatype Window = Window(
    tabGroups: seq<TabGroup>,
    activeTextEditor: Option<TextEditor>,
    terminals: seq<string>,
    activeTerminal: Option<string>)

  /** The mutations restore performs, in order. */
  datatype HostOp =
    | CloseAllEditors                                                    // workbench.action.closeAllEditors
    | SplitRight                                                         // workbench.action.splitEditorRight
    | SplitDown                                                          // workbench.action.splitEditorDown
    | ShowDocument(path: string, viewColumn: Option<int>, preserveFocus: bool)
    | SetCursor(line: int, character: int)                               // selection and revealRange on the active editor
    | CreateTerminal(name: Option<string>, cwd: Option<string>)
    | ShowTerminal                                                       // show() on the terminal just created
}
