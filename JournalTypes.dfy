/** Value types of the journal document, the editor state and the recent-files list
    (src/types/journal.ts, and the JournalState record of src/context/JournalContext.ts). */
module JournalTypes {

  datatype Option<T> = None | Some(value: T)

  /** An ISO-8601 timestamp; its text is never inspected. */
  type Timestamp = string

  /** One inline run of a BlockNote block; `text` may be absent. `rest` is the serialisation
      of its other fields (styles, link), which the export ignores and comparisons see. */
  datatype InlineContent = InlineContent(text: Option<string>, rest: string)

  /** A BlockNote block: its `type`, its inline `content` (absent when the block has none)
      and `props.level` (absent when unset), which the Markdown export reads, and `rest`, the
      serialisation of everything else (id, the other props, nested children). Two blocks
      are equal exactly when their serialisations are, as the editor's comparisons need. */
  datatype Block = Block(blockType: string, content: Option<seq<InlineContent>>, level: Option<nat>, rest: string)

  /** The `content: unknown` of an entry. `Missing` is undefined or null, `Text` a string,
      `Blocks` an array of blocks, and `Opaque` any other JSON value, kept as its
      serialisation and its JavaScript truthiness. */
  datatype Content =
    | Missing
    | Text(text: string)
    | Blocks(blocks: seq<Block>)
    | Opaque(repr: string, truthy: bool)

  /** A node of the tree, tagged by `type`: only folders have children, only entries content.
      `expanded` is optional; absent reads as collapsed. */
  datatype Item =
    | Entry(id: string, name: string, content: Content, created: Timestamp, modified: Timestamp)
    | Folder(id: string, name: string, children: seq<Item>, created: Timestamp, modified: Timestamp,
             expanded: Option<bool>)

  /** The document root: always a folder, with no timestamps and no `expanded` flag. */
  datatype Structure = Structure(id: string, name: string, children: seq<Item>)

  datatype Theme = Light | Dark

  datatype Settings = Settings(sidebarWidth: int, theme: Theme)

  /** The whole persisted document (a `.jb` file). */
  datatype JournalBlock = JournalBlock(
    title: string,
    version: string,
    created: Timestamp,
    modified: Timestamp,
    settings: Settings,
    structure: Structure)

  datatype RecentFile = RecentFile(path: string, title: string, lastModified: Timestamp)

  /** An open tab refers to its entry by id only. */
  datatype TabInfo = TabInfo(id: string, entryId: string, title: string, isDirty: bool)

  datatype EditorState = EditorState(
    openTabs: seq<TabInfo>,
    activeTabId: Option<string>,
    sidebarWidth: int,
    selectedFolderId: Option<string>)

  datatype SaveStatus = Saved | Saving | SaveFailed

  /** The state record held by the provider. */
  datatype JournalState = JournalState(
    currentJournal: Option<JournalBlock>,
    currentFilePath: Option<string>,
    recentFiles: seq<RecentFile>,
    editorState: EditorState,
    isLoading: bool,
    error: Option<string>,
    saveStatus: Option<SaveStatus>,
    lastSaved: Option<string>)

  /** JavaScript truthiness of an optional string (`s || fallback` takes the fallback for "" too). */
  function OrElse(s: Option<string>, fallback: string): string
  {
    if s.Some? && s.value != "" then s.value else fallback
  }
}
