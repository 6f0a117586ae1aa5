# journal-blocks in Dafny

A model of the core of journal-blocks, an Electron desktop journal. A journal is one `.jb`
document. It holds a tree of folders and entries under a fixed root folder, plus settings
(sidebar width, theme). The renderer keeps the open document, the open editor tabs, the
active tab and the selected folder in one state record, changed only by a reducer. A
provider rebuilds the tree for each user action (add, rename, update, delete, move, toggle)
and dispatches the result. The main process keeps the recent-files list, writes the
template of a new document, and converts an entry to Markdown.

Modules, one per part of the program:

- `JournalTypes`: the records of `src/types/journal.ts`, plus the renderer state.
- `JournalTree`: the tree helpers of `src/context/JournalContext.tsx` as pure functions:
  - `findItemById`, `updateItemInTree` and `removeItemFromTree`;
  - `extractItem`, `insertItem` and `isDescendant` from `moveItem`;
  - the updaters each action passes to `updateItemInTree`.
- `JournalReducer`: `journalReducer` as a function from state and action to state, with
  its tab helpers.
- `JournalSession`: the provider as a class whose `state` field is the reducer state. Each
  method is one action, and changes the state only through `Dispatch`. The `forEach` loops
  that dispatch `UPDATE_TAB` and `REMOVE_TAB` are `while` loops.
- `JournalSidebar`: from `src/components/layout/JournalSidebar.tsx`:
  - the display sort;
  - `getExpandedItems`, an imperative recursive traversal;
  - the expansion-change handler and the drop handlers;
  - the width clamp and the dialog submit.
- `JournalTabs`: the keyboard shortcuts of `src/components/layout/JournalTabs.tsx`.
- `JournalEditor`: from `src/components/layout/JournalEditor.tsx`, `findEntryById` and the
  load and save decisions, with the editor as a class holding its document and the id of
  the last loaded entry.
- `MainProcess`: from `main.cjs`:
  - `updateRecentFiles`, an imperative method;
  - the delete filter for recent files;
  - the `create-jb-file` template;
  - the Markdown export, an imperative `+=` loop.
- `Welcome`: `getRelativePath` of `src/components/pages/welcome.tsx`.
- `VersionChecker`: `compareVersions` of `src/hooks/useVersionChecker.ts`.

Inputs that are not deterministic are parameters:
- the clock is a timestamp `now`;
- `generateId` is a `newId`;
- `localeCompare` is an ordering `le` on names, assumed total and transitive;
- the outcome of an IPC call is an argument, `outcome`: the main process answered true or false, or the call was rejected;
- whether the editor throws on stored blocks is `rejected`.

## Model

| member | source | states |
|---|---|---|
| JournalTree.FindItemById | src/context/JournalContext.tsx:192-203 | finds a node exactly when its id occurs in the forest, and the node found carries that id |
| JournalTree.FindIsFirstInPreOrder | src/context/JournalContext.tsx:192-203 | the node found is the first node with that id in depth-first pre-order |
| JournalTree.UpdateItemInTree | src/context/JournalContext.tsx:205-218 | the rebuilt forest has as many top-level nodes as before; what it holds is stated by the Update lemmas below |
| JournalTree.UpdateNoop | src/context/JournalContext.tsx:205-218 | updating with an updater that fixes the matched node leaves the forest unchanged |
| JournalTree.UpdateFind | src/context/JournalContext.tsx:205-218 | after the update, the node with the id is the updater's image of the node found before |
| JournalTree.UpdatePreservesIds | src/context/JournalContext.tsx:205-218 | an updater that keeps id, kind and children keeps every id of the forest in order |
| JournalTree.UpdateKeepsUntouched | src/context/JournalContext.tsx:205-218 | every node whose subtree does not hold the id is unchanged |
| JournalTree.UpdateAbsent | src/context/JournalContext.tsx:205-218 | updating an absent id changes nothing |
| JournalTree.RemoveItemFromTree | src/context/JournalContext.tsx:220-231 | the id is gone at every depth, and no id is added |
| JournalTree.RemoveKeepsOrder | src/context/JournalContext.tsx:220-231 | with unique ids, the surviving ids are exactly the old ones minus the removed subtree, in their old order |
| JournalTree.RemoveAbsent | src/context/JournalContext.tsx:220-231 | removing an absent id changes nothing |
| JournalTree.RemoveFiltersSnapshot | src/context/JournalContext.tsx:220-231 | the result is the top-level filter of the list as the in-place child reassignment left it |
| JournalTree.SnapshotAfterRemove | src/context/JournalContext.tsx:220-231 | the top-level list as the in-place removal leaves it keeps its length; SnapshotTopLevel and SnapshotNested state its contents |
| JournalTree.SnapshotTopLevel | src/context/JournalContext.tsx:220-231 | deleting a top-level node leaves the prior top-level list untouched, because the matched node is never visited |
| JournalTree.SnapshotNested | src/context/JournalContext.tsx:220-231 | deleting a nested node leaves the prior top-level list equal to the result of the removal |
| JournalTree.ExtractItem | src/context/JournalContext.tsx:497-519 | returns the node findItemById finds, and the list unchanged when the id is absent |
| JournalTree.ExtractIds | src/context/JournalContext.tsx:497-519 | the ids of the remaining list plus the ids of the extracted subtree are the old ids |
| JournalTree.SliceIndex | src/context/JournalContext.tsx:522-529 | the `slice` index: a position within the list is kept, and no position or one past the end means the end |
| JournalTree.InsertAt | src/context/JournalContext.tsx:522-529 | the item sits at the slice index, removing it gives back the list, and past the end it is appended |
| JournalTree.InsertItem | src/context/JournalContext.tsx:522-554 | insertItem adds one top-level node for the root and keeps the top-level length for any other parent |
| JournalTree.InsertFind | src/context/JournalContext.tsx:522-554 | inserting under the root or an existing folder makes the new node findable |
| JournalTree.InsertIds | src/context/JournalContext.tsx:522-554 | inserting adds the node's ids when the parent is the root or a folder, and nothing otherwise |
| JournalTree.ExtractInsertRoundTrip | src/context/JournalContext.tsx:497-554 | with unique ids, reinserting the extracted node under its old parent at its old index restores the forest |
| JournalTree.IsDescendant | src/context/JournalContext.tsx:571-582 | the cycle check holds exactly when the target id is in the node's subtree |
| JournalTree.MoveItem | src/context/JournalContext.tsx:493-601 | a move is refused exactly when the id is absent or a folder would go into itself or below itself |
| JournalTree.MoveKeepsNode | src/context/JournalContext.tsx:493-601 | a move to the root, or to a folder outside the moved subtree, keeps the moved node unchanged and every id exactly once; a move to the root with no index appends |
| JournalTree.MovePlacesNode | src/context/JournalContext.tsx:520-601 | a legal move puts the node at the slice index: of the top-level list left by the extraction for the root, or of the target folder's children as the extraction left them |
| JournalTree.MoveLosesNode | src/context/JournalContext.tsx:493-601 | a move to a target that is not a folder after extraction silently drops the node |
| JournalTree.MoveKeepsIdsUnique | src/context/JournalContext.tsx:493-601 | no move duplicates an id |
| JournalTree.AddChild | src/context/JournalContext.tsx:372-441 | adding under the root appends the node at top level; any other parent keeps the top-level length |
| JournalTree.AddChildFind | src/context/JournalContext.tsx:372-441 | adding under the root or a folder appends the node as the folder's last child and makes it findable |
| JournalTree.AddChildDropsNode | src/context/JournalContext.tsx:386-398 | adding under an entry or an unknown id leaves the tree unchanged |
| JournalTree.RenameEffect | src/context/JournalContext.tsx:443-458 | only the named node changes, to the new name with `modified` refreshed for entries only; ids kept |
| JournalTree.UpdateEntryEffect | src/context/JournalContext.tsx:350-366 | only the named node changes, to the new content and `modified`; ids kept |
| JournalTree.ToggleEffect | src/context/JournalContext.tsx:137-166 | the folder's flag flips, with absent counting as collapsed; ids and every node outside the folder are kept |
| JournalTree.ToggleExpanded | src/context/JournalContext.tsx:137-166 | the toggled forest has as many top-level nodes as before; ToggleEffect states the flip |
| JournalReducer.FindTabByEntry | src/context/JournalContext.tsx:62-81 | finds an open tab for the entry exactly when one exists |
| JournalReducer.AddTab | src/context/JournalContext.tsx:62-81 | ADD_TAB: an entry that has a tab keeps the tabs and activates the first tab of that entry; otherwise the tab is appended and activated |
| JournalReducer.OpenTwiceSingleTab | src/context/JournalContext.tsx:62-81 | opening an entry again changes nothing once it has a tab |
| JournalReducer.FindTabAfterAppend | src/context/JournalContext.tsx:62-81 | a new entry's tab is appended and is then found by its entry id |
| JournalReducer.AddTabKeepsValid | src/context/JournalContext.tsx:62-81 | ADD_TAB keeps the tab invariant |
| JournalReducer.RemoveTab | src/context/JournalContext.tsx:83-97 | REMOVE_TAB leaves the filtered tabs; the active tab stays unless it was removed, and then becomes the last remaining tab, or none when no tab is left |
| JournalReducer.FilterTabsConcat | src/context/JournalContext.tsx:86 | the filter works piecewise, so the surviving tabs keep their order |
| JournalReducer.FilterTabsSingle | src/context/JournalContext.tsx:86 | one tab survives exactly when its id is not the removed id |
| JournalReducer.RemoveTabKeepsValid | src/context/JournalContext.tsx:83-97 | REMOVE_TAB keeps the invariant: no active tab iff no tabs, otherwise the active id names an open tab |
| JournalReducer.SetActiveTab | src/context/JournalContext.tsx:99-106 | SET_ACTIVE_TAB sets the active id and nothing else |
| JournalReducer.SetActiveKeepsValid | src/context/JournalContext.tsx:99-106 | activating an open tab keeps the invariant |
| JournalReducer.UpdateTab | src/context/JournalContext.tsx:108-117 | UPDATE_TAB merges the changes into the tab with the id and leaves the others |
| JournalReducer.UpdateTabKeepsValid | src/context/JournalContext.tsx:108-117 | changes that keep the ids keep the invariant |
| JournalReducer.InitialState | src/context/JournalContext.tsx:21-35 | no document, no recent files, no tabs, width 300 |
| JournalReducer.Reduce | src/context/JournalContext.tsx:37-185 | tab actions touch only the tabs; only four actions change the document; only SET_RECENT_FILES changes the recent files; toggling keeps settings and ids |
| JournalReducer.ReduceToggle | src/context/JournalContext.tsx:137-166 | TOGGLE_FOLDER_EXPANDED does nothing without a document; with one, the children are toggled, `modified` is the new time and nothing else changes |
| JournalReducer.ReduceOpen | src/context/JournalContext.tsx:48-58 | SET_CURRENT_JOURNAL installs the document, its path and its sidebar width, and keeps the tabs, recent files and error |
| JournalReducer.ReduceKeepsTabsValid | src/context/JournalContext.tsx:37-185 | every action the provider dispatches keeps the tab invariant |
| JournalReducer.ClearKeepsOnlyRecentFiles | src/context/JournalContext.tsx:175-179 | CLEAR_JOURNAL gives the initial state with the old recent files |
| JournalSession.RenameRetitlesTabs | src/context/JournalContext.tsx:460-465 | every tab of the renamed entry is retitled, no other tab changes, and the invariant holds |
| JournalSession.RetitleFrom | src/context/JournalContext.tsx:460-465 | retitling keeps the number, order, ids and entries of the tabs, the active tab, the width and the selected folder |
| JournalSession.TabsToClose | src/context/JournalContext.tsx:481-485 | a tab is closed exactly when its entry is not found in the list |
| JournalSession.CloseFromEffect | src/context/JournalContext.tsx:485-490 | closing the listed tabs one by one keeps the invariant and drops exactly those tabs |
| JournalSession.DeleteTopLevelClosesOnlyStaleTabs | src/context/JournalContext.tsx:468-491 | deleting a top-level node closes only tabs that were already stale, not those of the deleted subtree |
| JournalSession.DeleteNestedClosesSubtreeTabs | src/context/JournalContext.tsx:468-491 | deleting a nested node closes the stale tabs and the tabs of the deleted subtree |
| JournalSession.SavePayload | src/context/JournalContext.tsx:238-260 | a save happens only with a document and a path, and writes the sidebar width into the settings |
| JournalSession.SaveThenOpenRestoresWidth | src/context/JournalContext.tsx:48-58 | opening what was saved restores the sidebar width, the tree and the path |
| JournalSession.ExportPayload | src/context/JournalContext.tsx:603-614 | an export is requested exactly for an existing entry, with its content and name |
| JournalSession.AddPlacesNode | src/context/JournalContext.tsx:372-441 | with a fresh id the new node is placed when the parent is the root or a folder; the tree is unchanged otherwise; ids stay unique |
| JournalSession.RemoveKeepsTreeOk | src/context/JournalContext.tsx:220-231 | removal keeps the ids unique and the root id absent |
| JournalSession.AddRootFree | src/context/JournalContext.tsx:372-441 | a new node with a non-root id never brings the root id into the tree |
| JournalSession.RootIsNotAnItem | src/context/JournalContext.tsx:443-491 | renaming, updating, toggling or deleting the root id finds nothing and changes nothing |
| JournalSession.JournalSession.constructor | src/context/JournalContext.tsx:233 | the session starts in the initial state |
| JournalSession.JournalSession.Dispatch | src/context/JournalContext.tsx:233 | a dispatch replaces the state with the reducer's result |
| JournalSession.JournalSession.OpenEntry | src/context/JournalContext.tsx:324-340 | an existing entry gets a tab titled by its name; other ids change nothing; the invariant holds |
| JournalSession.JournalSession.CloseTab | src/context/JournalContext.tsx:342-344 | REMOVE_TAB, invariant kept |
| JournalSession.JournalSession.SetActiveTab | src/context/JournalContext.tsx:346-348 | SET_ACTIVE_TAB, invariant kept for an open tab |
| JournalSession.JournalSession.UpdateEntry | src/context/JournalContext.tsx:350-366 | the tree with the content stored on the entry; unique ids kept |
| JournalSession.JournalSession.SetSidebarWidth | src/context/JournalContext.tsx:368-370 | SET_SIDEBAR_WIDTH |
| JournalSession.JournalSession.AddEntry | src/context/JournalContext.tsx:372-405 | appends a new entry to the given parent, the selected folder or the root, and returns its id (empty without a document) |
| JournalSession.JournalSession.AddFolder | src/context/JournalContext.tsx:407-441 | the same for a new folder that starts expanded |
| JournalSession.JournalSession.RenameItem | src/context/JournalContext.tsx:443-466 | renames in the tree, then retitles the matching tabs in a loop; both invariants kept |
| JournalSession.JournalSession.RetitleEach | src/context/JournalContext.tsx:460-465 | the `forEach` loop leaves the editor state RetitleFrom gives and changes nothing else |
| JournalSession.JournalSession.DeleteItem | src/context/JournalContext.tsx:468-491 | removes the node, then closes the tabs whose entries the mutated snapshot no longer has; both invariants kept |
| JournalSession.JournalSession.CloseEach | src/context/JournalContext.tsx:488-490 | the `forEach` loop leaves the editor state CloseFrom gives and changes nothing else |
| JournalSession.JournalSession.MoveItem | src/context/JournalContext.tsx:493-601 | the tree after extract and insert, or unchanged when the move is refused |
| JournalSession.JournalSession.ExportEntry | src/context/JournalContext.tsx:603-614 | requests the export of an existing entry; a true or false answer leaves the state alone, and only a rejected call records `Failed to export entry` |
| JournalSession.JournalSession.SetSelectedFolder | src/context/JournalContext.tsx:616-618 | SET_SELECTED_FOLDER |
| JournalSession.JournalSession.ToggleFolderExpanded | src/context/JournalContext.tsx:620-623 | TOGGLE_FOLDER_EXPANDED; unique ids kept |
| JournalSession.JournalSession.SaveJournal | src/context/JournalContext.tsx:238-260 | writes the payload and sets or clears the save error by the outcome |
| JournalSidebar.SortForDisplay | src/components/layout/JournalSidebar.tsx:230-237 | the display order is a permutation of the children, built as a new sequence |
| JournalSidebar.SortForDisplayOrders | src/components/layout/JournalSidebar.tsx:230-237 | folders come before entries, and items of one kind are in name order |
| JournalSidebar.InsertSortedKeepsOrder | src/components/layout/JournalSidebar.tsx:230-237 | inserting into a sorted list keeps it sorted |
| JournalSidebar.ExpandedIds | src/components/layout/JournalSidebar.tsx:139-153 | at most one id per node of the pre-order listing; ExpandedIdsMember states which ids are listed |
| JournalSidebar.Traverse | src/components/layout/JournalSidebar.tsx:139-153 | the traversal appends the expanded folder ids of the forest in pre-order |
| JournalSidebar.GetExpandedItems | src/components/layout/JournalSidebar.tsx:139-153 | returns the ids of the expanded folders in pre-order |
| JournalSidebar.ExpandedIdsMember | src/components/layout/JournalSidebar.tsx:139-153 | an id is listed iff some node of the forest, even inside a collapsed folder, is an expanded folder with that id |
| JournalSidebar.ToggleFlipsTarget | src/components/layout/JournalSidebar.tsx:463-479 | after toggling, the folder is listed as expanded iff it was collapsed |
| JournalSidebar.ToggleOthersAgree | src/components/layout/JournalSidebar.tsx:463-479 | toggling one folder lists every other id as before |
| JournalSidebar.ExpansionToggle | src/components/layout/JournalSidebar.tsx:469-478 | toggles the first id of the new list missing from the old one if any, else the first id of the old list missing from the new one, else nothing |
| JournalSidebar.ExpansionToggleFindsFolder | src/components/layout/JournalSidebar.tsx:463-479 | the diff between the lists before and after toggling a folder names exactly that folder |
| JournalSidebar.DropOnItem | src/components/layout/JournalSidebar.tsx:194-222 | calls moveItem exactly when the dragged id differs from the target and the target is a folder |
| JournalSidebar.DropOnItemNeverLosesNode | src/components/layout/JournalSidebar.tsx:194-222 | a drop on an item either is refused or keeps the node and every id |
| JournalSidebar.DropOnBackground | src/components/layout/JournalSidebar.tsx:415-424 | moves to the root unless the dragged id is the root |
| JournalSidebar.DropOnBackgroundKeepsNode | src/components/layout/JournalSidebar.tsx:415-424 | a drop on the background appends the node at top level |
| JournalSidebar.ClampWidth | src/components/layout/JournalSidebar.tsx:52-53 | the width stays within [200, 600], and a width inside is kept |
| JournalSidebar.MouseMoveWidth | src/components/layout/JournalSidebar.tsx:335-341 | only while resizing, to a clamped width |
| JournalSidebar.ClampIdempotent | src/components/layout/JournalSidebar.tsx:339 | clamping twice is clamping once |
| JournalSidebar.Trim | src/components/layout/JournalSidebar.tsx:100 | the trimmed name is no longer than the input and has no white space at either end |
| JournalSidebar.TrimProperties | src/components/layout/JournalSidebar.tsx:100 | trim gives the middle slice between white space at both ends, empty iff the input is all white space |
| JournalSidebar.TrimIdempotent | src/components/layout/JournalSidebar.tsx:100 | trimming twice is trimming once |
| JournalSidebar.DialogSubmit | src/components/layout/JournalSidebar.tsx:99-116 | empty or blank input does nothing; otherwise the trimmed name goes to rename, add-entry or add-folder |
| JournalSidebar.DialogNameIsKept | src/components/layout/JournalSidebar.tsx:99-116 | the name passed to the add actions is never replaced by their default |
| JournalTabs.CurrentIndex | src/components/layout/JournalTabs.tsx:35 | the index of the first tab with the active id, or -1 |
| JournalTabs.ActivateAt | src/components/layout/JournalTabs.tsx:38-61 | activating an index outside the tabs fails |
| JournalTabs.HandleKeyDown | src/components/layout/JournalTabs.tsx:30-63 | without tabs or without Ctrl/Cmd nothing happens; an activated id names an open tab; only Ctrl/Cmd+W without Shift closes, and only the active tab |
| JournalTabs.NoTabsNoAction | src/components/layout/JournalTabs.tsx:33 | with no tabs the handler does nothing |
| JournalTabs.ForwardIsCyclic | src/components/layout/JournalTabs.tsx:38-42 | Ctrl/Cmd+Tab activates the next tab, wrapping to the first |
| JournalTabs.BackwardIsCyclic | src/components/layout/JournalTabs.tsx:49-52 | Ctrl/Cmd+Shift+Tab activates the previous tab, wrapping to the last |
| JournalTabs.BackwardUndoesForward | src/components/layout/JournalTabs.tsx:38-52 | forward then backward returns to the tab that was active |
| JournalTabs.BackwardWithoutActiveCrashes | src/components/layout/JournalTabs.tsx:35-52 | without an active open tab, forward goes to the first tab and backward reads index -2 |
| JournalTabs.CloseNeedsActive | src/components/layout/JournalTabs.tsx:43-47 | Ctrl/Cmd+W closes exactly the active tab, and only when there is one |
| JournalTabs.BracketsNeedShift | src/components/layout/JournalTabs.tsx:38-61 | Cmd+[ and Cmd+] act only with Shift held |
| JournalTabs.KeyDownKeepsValid | src/components/layout/JournalTabs.tsx:30-63 | under the invariant the handler never fails, and only activates or closes open tabs |
| JournalEditor.FindEntryById | src/components/layout/JournalEditor.tsx:15-26 | returns only an entry carrying the id |
| JournalEditor.FindEntryIsFirstInPreOrder | src/components/layout/JournalEditor.tsx:15-26 | the first entry with the id in pre-order; folders with the id are passed over |
| JournalEditor.FindEntryIsFindItem | src/components/layout/JournalEditor.tsx:15-26 | with unique ids, the same as findItemById restricted to entries |
| JournalEditor.EditorEntry | src/components/layout/JournalEditor.tsx:32-37 | an entry is looked up only while a document is open |
| JournalEditor.SavedBlocks | src/components/layout/JournalEditor.tsx:98-105 | stored blocks compare as themselves, and missing content as [] |
| JournalEditor.SaveRequest | src/components/layout/JournalEditor.tsx:93-108 | a save is scheduled iff an entry is open, the document is not empty and it differs from the stored blocks |
| JournalEditor.LoadedDocument | src/components/layout/JournalEditor.tsx:57-73 | non-empty stored blocks are loaded when the editor accepts them or already shows them; other non-empty blocks the editor rejects, and anything that is not non-empty blocks, give one empty paragraph |
| JournalEditor.AfterLoad | src/components/layout/JournalEditor.tsx:53-77 | loads only for an entry other than the last loaded, then records its id |
| JournalEditor.LoadAtMostOnce | src/components/layout/JournalEditor.tsx:54-75 | a second load for the same entry changes nothing |
| JournalEditor.LoadThenNoSave | src/components/layout/JournalEditor.tsx:53-108 | right after stored blocks are loaded, no save is scheduled, also when the editor would reject blocks it already shows |
| JournalEditor.RejectedLoadResets | src/components/layout/JournalEditor.tsx:57-68 | rejected blocks that differ from the document reset the editor to an empty paragraph, which a content change would then save over them |
| JournalEditor.SavedDocumentSettles | src/components/layout/JournalEditor.tsx:93-108 | once stored, the same document schedules no save |
| JournalEditor.RestyleIsAChange | src/components/layout/JournalEditor.tsx:57-105 | a bold `hi` over a stored plain `hi` schedules a save, and loading the plain one over the bold one replaces it |
| JournalEditor.EditorSession.Load | src/components/layout/JournalEditor.tsx:53-77 | the load effect as a state change |
| JournalEditor.EditorSession.Edit | src/components/layout/JournalEditor.tsx:93-108 | the new document and the save it schedules |
| MainProcess.PathIndex | main.cjs:73 | the first index of the path, or -1 when it is not listed |
| MainProcess.RecentAfterOpen | main.cjs:70-94 | the list after opening holds one to ten records, each an old one or the new record |
| MainProcess.UpdateRecentFiles | main.cjs:70-94 | the list written after opening a file |
| MainProcess.OpenListedKeepsPlace | main.cjs:73-81 | a listed path is refreshed in place, not moved to the front, and no other record changes |
| MainProcess.OpenNewPrepends | main.cjs:83-87 | a new path goes first and the others shift down |
| MainProcess.OpenedIsListed | main.cjs:73-87 | the opened file is listed afterwards unless a longer list held it at position 10 or later |
| MainProcess.OpenKeepsPathsUnique | main.cjs:70-94 | at most ten records, and distinct paths stay distinct |
| MainProcess.DeleteRecent | main.cjs:183 | every record of the path goes, and all others stay |
| MainProcess.DeleteRecentConcat | main.cjs:183 | deletion works piecewise, so the survivors keep their order |
| MainProcess.DeleteUnlisted | main.cjs:183 | deleting an unlisted path changes nothing |
| MainProcess.DeleteAfterOpen | main.cjs:70-94 | after opening then deleting a file, no record of it is left |
| MainProcess.LastSegment | main.cjs:126 | the last path segment has no slash and ends the path |
| MainProcess.TitleFromPath | main.cjs:126 | the title has no slash |
| MainProcess.TitleStripsExtension | main.cjs:126 | a file `dir/name.jb` gets the title `name` for any non-empty name without a slash |
| MainProcess.TitleKeepsName | main.cjs:126 | a file name that does not end in `.jb` is the title as it is |
| MainProcess.DefaultTitle | main.cjs:126 | `…/My Journal.jb` gives the title `My Journal` |
| MainProcess.NewDocumentShape | main.cjs:125-140 | a new document is empty, version 1.0, width 300, light, rooted at `root` named `Root`, titled without a directory, created and modified at one time |
| MainProcess.MarkdownOf | main.cjs:216-231 | the Markdown starts with the `# name` header |
| MainProcess.ExportToMarkdown | main.cjs:216-231 | the `+=` conversion computes the Markdown of the entry |
| MainProcess.AppendBlocks | main.cjs:221-230 | the loop appends the Markdown of every block in order |
| MainProcess.BlocksMarkdownConcat | main.cjs:221-230 | blocks convert independently and concatenate in order |
| MainProcess.MarkdownStartsWithTitle | main.cjs:216-218 | the text starts with `# name` and a blank line, and a string follows verbatim |
| MainProcess.UnknownBlocksIgnored | main.cjs:221-230 | a block that is not a paragraph or heading with content contributes nothing |
| MainProcess.InlineTextReadsOnlyText | main.cjs:223-227 | the joined text depends only on the `text` of each run |
| MainProcess.BlockMarkdownIgnoresRest | main.cjs:221-230 | blocks that differ only in fields the export does not read give the same Markdown |
| MainProcess.HeadingLevel | main.cjs:226 | the level, or 1 when missing or 0 |
| MainProcess.HeadingLine | main.cjs:225-228 | a heading line is as many `#` as its level, at least one, then a space |
| Welcome.HomeIndex | src/components/pages/welcome.tsx:98 | the first `Users` or `home` part, or -1 |
| Welcome.JoinSplit | src/components/pages/welcome.tsx:97-100 | joining the split parts gives back the path |
| Welcome.RelativePath | src/components/pages/welcome.tsx:96-103 | the result is the path itself or starts with `~/`, and a path naming no home directory is kept |
| Welcome.RelativePathShape | src/components/pages/welcome.tsx:96-103 | a path with `/Users/` or `/home/` always passes the bounds check and is shown behind `~/`; any other path is unchanged |
| Welcome.UnderHome | src/components/pages/welcome.tsx:96-100 | `/home/<user>/<rest>` is shown as `~/<rest>` |
| Welcome.HomeItself | src/components/pages/welcome.tsx:96-100 | `/home/<user>` is shown as `~/` |
| Welcome.RelativePathExample | src/components/pages/welcome.tsx:96-100 | `/home/alice/notes/j.jb` is shown as `~/notes/j.jb` |
| VersionChecker.StripV | src/hooks/useVersionChecker.ts:30 | drops one leading `v` |
| VersionChecker.RemoveDots | src/hooks/useVersionChecker.ts:36-37 | no dot is left |
| VersionChecker.PadEnd | src/hooks/useVersionChecker.ts:40-42 | pads with zeros to the length, keeping the string as a prefix |
| VersionChecker.HasUpdate | src/hooks/useVersionChecker.ts:28-45 | a newer version never has the same digits |
| VersionChecker.HasUpdateIrreflexive | src/hooks/useVersionChecker.ts:28-45 | equal digits are never newer, and of two versions at most one is newer |
| VersionChecker.LeadingVIgnored | src/hooks/useVersionChecker.ts:30 | one leading `v` is ignored, and a second one is kept |
| VersionChecker.DotsIgnored | src/hooks/useVersionChecker.ts:36-37 | dots after the first character are ignored |
| VersionChecker.TrailingZeroIgnored | src/hooks/useVersionChecker.ts:40-44 | a trailing zero on either version never changes the result |
| VersionChecker.PaddingIrrelevant | src/hooks/useVersionChecker.ts:40-44 | the result does not depend on how far both strings are padded |
| VersionChecker.SameMonthOrder | src/hooks/useVersionChecker.ts:28-45 | versions of one year and month are ordered by their day parts |
| VersionChecker.ReleaseExamples | src/hooks/useVersionChecker.ts:17-45 | `v2025.08.190200` is newer than the default `2025.08.180401`, and `v2025.08.180401` is not |

## Left out

- Electron and file I/O are left out:
  - the IPC calls of the provider (`openJournal`, `createJournal`, `loadRecentFiles`, `deleteRecentFile`, `clearRecentFiles`), which only forward what the main process returns to SET_RECENT_FILES, SET_CURRENT_JOURNAL or SET_ERROR;
  - the `fs` and `dialog` calls of `main.cjs`.

  Only the list, template and Markdown transforms are modelled. Clearing the recent files writes `[]`, which needs no model.
- `getRecentFiles` reads the JSON file, or `[]` on an error. The stored list is taken as given; a file that does not parse to a list is not modelled.
- Save debouncing (`debouncedSave`), the editor's save timer and the status bar's simulated status are timers, not sequential logic. The editor model states when a save is scheduled, not when it runs.
- The GitHub `fetch` of the version checker is network access; only `compareVersions` is modelled.
- `localeCompare` is the parameter `le`. Dates formatted for display are left out.
- `JSON.parse(JSON.stringify(…))` deep copies are value identity. Comparing JSON strings is value equality of blocks: each block and each inline run keeps the fields the export reads, plus the serialisation of all its other fields (`rest`), so a change to styles, other props, ids or nested children is a change. Key order inside a serialisation is not modelled.
- BlockNote is left out:
  - its normalisation of the blocks it is given;
  - blocks whose `content` is a string or table content.

  A block's content is a sequence of inline items.
- JournalTree.UpdateItemInTree: the updaters of addEntry and addFolder give any matched node `children: []`, and updateEntry's gives any matched node `content`. An entry with `children`, or a folder with `content`, cannot be written in the datatype, so these extra fields are dropped. No modelled operation reads them, because every one checks `type` first.
- JournalTree.IsDescendant: the source looks a child up again by id inside the moved node. The model follows the child itself. The two agree whenever ids are unique, which every operation preserves.
- JournalTree.RemoveItemFromTree: the in-place reassignment of folder children is modelled on values. The top-level list as deleteItem later reads it is `SnapshotAfterRemove`; no other aliasing is modelled.
- JournalSidebar.IsWhiteSpace covers ASCII white space, no-break space, the byte order mark and the line and paragraph separators, not every Unicode space separator of `String.prototype.trim`.
- JournalSidebar.MouseMoveWidth takes `clientX` as an integer; fractional mouse coordinates are not modelled.
- MainProcess.TitleFromPath is `path.basename(filePath, '.jb')` for POSIX paths. Windows separators and trailing slashes are not modelled.
- VersionChecker.Less compares code points, where JavaScript compares UTF-16 code units; the two differ only for characters outside the Basic Multilingual Plane.
- MainProcess.NewDocumentShape: the template reads the clock twice, for `created` and `modified`, and the model takes one reading `now` for both, so their equality is a consequence of that modelling. The same single `now` stands for the several `new Date()` reads of one provider action in MainProcess.NewDocument, JournalSession.NewEntry, JournalSession.NewFolder and JournalSession.WithAddedNode.
- CLEAR_JOURNAL is modelled in the reducer, but no provider action dispatches it.
- SET_LOADING, SET_SAVE_STATUS and `lastSaved` are modelled as plain field updates; nothing in the core reads them.
