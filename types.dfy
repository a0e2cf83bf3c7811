/** The records a saved project context is made of (src/models/types.ts).
    Optional TypeScript properties become `Option` fields; `Date` becomes an
    integer timestamp; the fractional `size` of an editor group is kept as the
    denominator of `1 / parts`. */
module Types {

  datatype Option<+T> = None | Some(value: T)

  /** Absolute grid coordinates of an editor group. */
  datatype GridPosition = GridPosition(row: int, column: int)

  /** A cursor or viewport anchor. */
  datatype Scroll = Scroll(line: int, character: int)

  /** The share of the window a group occupies: `1 / parts`. */
  datatype Size = OneOver(parts: nat)

  datatype OpenFile = OpenFile(path: string, viewColumn: int, scroll: Option<Scroll>)

  datatype EditorGroup = EditorGroup(
    id: int,
    position: GridPosition,
    size: Size,
    files: seq<OpenFile>,
    activeFile: Option<string>)

  datatype TerminalConfig = TerminalConfig(name: Option<string>, cwd: Option<string>, isVisible: bool)

  datatype WindowLayout = WindowLayout(
    editorGroups: seq<EditorGroup>,
    activeGroup: int,
    terminals: Option<seq<TerminalConfig>>)

  datatype ProjectContext = ProjectContext(
    id: string,
    name: string,
    description: Option<string>,
    lastAccessed: int,
    layout: WindowLayout)
}
