/** journalReducer of src/context/JournalContext.tsx: the tab manager cases, the tree case
    TOGGLE_FOLDER_EXPANDED, CLEAR_JOURNAL and the plain field setters, as a pure function
    from state and action to the next state. */
module JournalReducer {
  import opened JournalTypes
  import opened JournalTree

  // ------------------------------------------------------------------ tabs

  /** Is some open tab's id `tabId`? */
  predicate HasTab(tabs: seq<TabInfo>, tabId: string)
  {
    exists i :: 0 <= i < |tabs| && tabs[i].id == tabId
  }

  predicate TabIdsUnique(tabs: seq<TabInfo>)
  {
    forall i, j :: 0 <= i < j < |tabs| ==> tabs[i].id != tabs[j].id
  }

  predicate EntryIdsUnique(tabs: seq<TabInfo>)
  {
    forall i, j :: 0 <= i < j < |tabs| ==> tabs[i].entryId != tabs[j].entryId
  }

  /** The tab invariant the tab actions keep: at most one tab per id and per entry, and an
      active tab exactly when some tab is open, naming an open tab. */
  predicate TabsValid(es: EditorState)
  {
    TabIdsUnique(es.openTabs) && EntryIdsUnique(es.openTabs) &&
    (es.activeTabId.None? <==> es.openTabs == []) &&
    (es.activeTabId.Some? ==> HasTab(es.openTabs, es.activeTabId.value))
  }

  /** `openTabs.find(tab => tab.entryId === entryId)`. */
  function FindTabByEntry(tabs: seq<TabInfo>, entryId: string): (r: Option<TabInfo>)
    ensures r.Some? ==> r.value in tabs && r.value.entryId == entryId
    ensures r.None? <==> forall i :: 0 <= i < |tabs| ==> tabs[i].entryId != entryId
  {
    if tabs == [] then None
    else if tabs[0].entryId == entryId then Some(tabs[0])
    else FindTabByEntry(tabs[1..], entryId)
  }

  /** ADD_TAB: an entry that already has a tab gets that tab activated; otherwise the tab is
      appended and activated. */
  function AddTab(es: EditorState, tab: TabInfo): (r: EditorState)
    ensures r.sidebarWidth == es.sidebarWidth && r.selectedFolderId == es.selectedFolderId
    ensures es.openTabs <= r.openTabs && |r.openTabs| <= |es.openTabs| + 1
    ensures r.activeTabId.Some? && HasTab(r.openTabs, r.activeTabId.value)
    ensures exists i :: 0 <= i < |r.openTabs| && r.openTabs[i].id == r.activeTabId.value &&
                        r.openTabs[i].entryId == tab.entryId
    ensures FindTabByEntry(es.openTabs, tab.entryId).Some? ==>
              r.openTabs == es.openTabs &&
              r.activeTabId == Some(FindTabByEntry(es.openTabs, tab.entryId).value.id)
    ensures FindTabByEntry(es.openTabs, tab.entryId).None? ==>
              r.openTabs == es.openTabs + [tab] && r.activeTabId == Some(tab.id)
  {
    var existing := FindTabByEntry(es.openTabs, tab.entryId);
    if existing.Some? then
      var i :| 0 <= i < |es.openTabs| && es.openTabs[i] == existing.value;
      es.(activeTabId := Some(existing.value.id))
    else
      var tabs := es.openTabs + [tab];
      assert tabs[|es.openTabs|] == tab;
      es.(openTabs := tabs, activeTabId := Some(tab.id))
  }

  /** `openTabs.filter(tab => tab.id !== tabId)`. */
  function FilterTabs(tabs: seq<TabInfo>, tabId: string): (r: seq<TabInfo>)
    ensures forall t :: t in r <==> t in tabs && t.id != tabId
    ensures |r| <= |tabs|
  {
    if tabs == [] then []
    else (if tabs[0].id == tabId then [] else [tabs[0]]) + FilterTabs(tabs[1..], tabId)
  }

  /** Filtering a concatenation filters each part: the surviving tabs keep their order. */
  lemma {:induction false} FilterTabsConcat(a: seq<TabInfo>, b: seq<TabInfo>, tabId: string)
    ensures FilterTabs(a + b, tabId) == FilterTabs(a, tabId) + FilterTabs(b, tabId)
  {
    if a == [] {
      assert a + b == b;
    } else {
      assert (a + b)[0] == a[0];
      assert (a + b)[1..] == a[1..] + b;
      FilterTabsConcat(a[1..], b, tabId);
    }
  }

  /** A single tab survives exactly when its id is not the removed one. */
  lemma {:induction false} FilterTabsSingle(t: TabInfo, tabId: string)
    ensures t.id == tabId ==> FilterTabs([t], tabId) == []
    ensures t.id != tabId ==> FilterTabs([t], tabId) == [t]
  {
    assert [t][1..] == [];
  }

  /** The id of the last tab, or none when no tab is open. */
  function LastTabId(tabs: seq<TabInfo>): (r: Option<string>)
    ensures r.None? <==> tabs == []
    ensures r.Some? ==> HasTab(tabs, r.value)
  {
    if tabs == [] then None else Some(tabs[|tabs| - 1].id)
  }

  /** REMOVE_TAB: drops the tab; if it was the active one, the last remaining tab becomes active. */
  function RemoveTab(es: EditorState, tabId: string): (r: EditorState)
    ensures r.sidebarWidth == es.sidebarWidth && r.selectedFolderId == es.selectedFolderId
    ensures forall t :: t in r.openTabs <==> t in es.openTabs && t.id != tabId
    ensures r.openTabs == FilterTabs(es.openTabs, tabId)
    ensures es.activeTabId != Some(tabId) ==> r.activeTabId == es.activeTabId
    ensures es.activeTabId == Some(tabId) && r.openTabs == [] ==> r.activeTabId.None?
    ensures es.activeTabId == Some(tabId) && r.openTabs != [] ==>
              r.activeTabId == Some(r.openTabs[|r.openTabs| - 1].id)
  {
    var newTabs := FilterTabs(es.openTabs, tabId);
    es.(openTabs := newTabs,
        activeTabId := if es.activeTabId == Some(tabId) then LastTabId(newTabs) else es.activeTabId)
  }

  /** SET_ACTIVE_TAB: no check that the tab is open. */
  function SetActiveTab(es: EditorState, tabId: string): (r: EditorState)
    ensures r.activeTabId == Some(tabId) && r.openTabs == es.openTabs
    ensures r.sidebarWidth == es.sidebarWidth && r.selectedFolderId == es.selectedFolderId
  {
    es.(activeTabId := Some(tabId))
  }

  /** A `Partial<TabInfo>`: the fields present in the changes. */
  datatype TabChanges = TabChanges(id: Option<string>, entryId: Option<string>, title: Option<string>, isDirty: Option<bool>)

  /** `{ ...tab, ...changes }`. */
  function ApplyChanges(tab: TabInfo, changes: TabChanges): (r: TabInfo)
    ensures changes.id.None? ==> r.id == tab.id
    ensures changes.entryId.None? ==> r.entryId == tab.entryId
    ensures changes.title.Some? ==> r.title == changes.title.value
    ensures changes.isDirty.None? ==> r.isDirty == tab.isDirty
  {
    TabInfo(
      if changes.id.Some? then changes.id.value else tab.id,
      if changes.entryId.Some? then changes.entryId.value else tab.entryId,
      if changes.title.Some? then changes.title.value else tab.title,
      if changes.isDirty.Some? then changes.isDirty.value else tab.isDirty)
  }

  /** UPDATE_TAB: applies the changes to every tab with the id. */
  function UpdateTab(es: EditorState, tabId: string, changes: TabChanges): (r: EditorState)
    ensures |r.openTabs| == |es.openTabs| && r.activeTabId == es.activeTabId
    ensures r.sidebarWidth == es.sidebarWidth && r.selectedFolderId == es.selectedFolderId
    ensures forall i :: 0 <= i < |es.openTabs| ==>
              r.openTabs[i] == if es.openTabs[i].id == tabId then ApplyChanges(es.openTabs[i], changes) else es.openTabs[i]
  {
    var tabs := es.openTabs;
    es.(openTabs := seq(|tabs|, i requires 0 <= i < |tabs| =>
                          if tabs[i].id == tabId then ApplyChanges(tabs[i], changes) else tabs[i]))
  }

  // ------------------------------------------------------------------ tab lemmas

  /** Adding a tab keeps the invariant when the new tab's id is fresh. */
  lemma {:induction false} AddTabKeepsValid(es: EditorState, tab: TabInfo)
    requires TabsValid(es) && !HasTab(es.openTabs, tab.id)
    ensures TabsValid(AddTab(es, tab))
  {
    var r := AddTab(es, tab);
    if FindTabByEntry(es.openTabs, tab.entryId).None? {
      assert r.openTabs == es.openTabs + [tab];
      forall i, j | 0 <= i < j < |r.openTabs|
        ensures r.openTabs[i].id != r.openTabs[j].id && r.openTabs[i].entryId != r.openTabs[j].entryId
      {
        if j == |es.openTabs| {
          assert r.openTabs[i] == es.openTabs[i];
        }
      }
    }
  }

  /** Opening the same entry twice yields one tab: the second ADD_TAB changes nothing. */
  lemma {:induction false} OpenTwiceSingleTab(es: EditorState, first: TabInfo, second: TabInfo)
    requires first.entryId == second.entryId
    ensures AddTab(AddTab(es, first), second) == AddTab(es, first)
  {
    var mid := AddTab(es, first);
    var existing := FindTabByEntry(es.openTabs, first.entryId);
    if existing.Some? {
      assert mid.openTabs == es.openTabs;
    } else {
      assert mid.openTabs == es.openTabs + [first];
      FindTabAfterAppend(es.openTabs, first);
    }
  }

  lemma {:induction false} FindTabAfterAppend(tabs: seq<TabInfo>, tab: TabInfo)
    requires FindTabByEntry(tabs, tab.entryId).None?
    ensures FindTabByEntry(tabs + [tab], tab.entryId) == Some(tab)
  {
    if tabs == [] {
      assert tabs + [tab] == [tab];
    } else {
      assert (tabs + [tab])[1..] == tabs[1..] + [tab];
      FindTabAfterAppend(tabs[1..], tab);
    }
  }

  /** Filtering keeps tab ids and entries unique. */
  lemma {:induction false} FilterTabsUnique(tabs: seq<TabInfo>, tabId: string)
    requires TabIdsUnique(tabs) && EntryIdsUnique(tabs)
    ensures TabIdsUnique(FilterTabs(tabs, tabId)) && EntryIdsUnique(FilterTabs(tabs, tabId))
  {
    if tabs != [] {
      TailUnique(tabs);
      FilterTabsUnique(tabs[1..], tabId);
      if tabs[0].id != tabId {
        var rest := FilterTabs(tabs[1..], tabId);
        HeadDistinct(tabs);
        ConsUnique(tabs[0], rest);
      }
    }
  }

  lemma {:induction false} TailUnique(tabs: seq<TabInfo>)
    requires tabs != [] && TabIdsUnique(tabs) && EntryIdsUnique(tabs)
    ensures TabIdsUnique(tabs[1..]) && EntryIdsUnique(tabs[1..])
  {
    var t := tabs[1..];
    forall i, j | 0 <= i < j < |t| ensures t[i].id != t[j].id && t[i].entryId != t[j].entryId {
      assert t[i] == tabs[i + 1] && t[j] == tabs[j + 1];
    }
  }

  /** No later tab shares the first tab's id or entry. */
  lemma {:induction false} HeadDistinct(tabs: seq<TabInfo>)
    requires tabs != [] && TabIdsUnique(tabs) && EntryIdsUnique(tabs)
    ensures forall u :: u in tabs[1..] ==> u.id != tabs[0].id && u.entryId != tabs[0].entryId
  {
    forall u | u in tabs[1..] ensures u.id != tabs[0].id && u.entryId != tabs[0].entryId {
      var j :| 0 <= j < |tabs[1..]| && tabs[1..][j] == u;
      assert tabs[j + 1] == u;
    }
  }

  lemma {:induction false} ConsUnique(t: TabInfo, rest: seq<TabInfo>)
    requires TabIdsUnique(rest) && EntryIdsUnique(rest)
    requires forall u :: u in rest ==> u.id != t.id && u.entryId != t.entryId
    ensures TabIdsUnique([t] + rest) && EntryIdsUnique([t] + rest)
  {
    var r := [t] + rest;
    forall i, j | 0 <= i < j < |r| ensures r[i].id != r[j].id && r[i].entryId != r[j].entryId {
      assert r[j] == rest[j - 1];
      if i > 0 {
        assert r[i] == rest[i - 1];
      } else {
        assert rest[j - 1] in rest;
      }
    }
  }

  /** Closing a tab keeps the invariant. */
  lemma {:induction false} RemoveTabKeepsValid(es: EditorState, tabId: string)
    requires TabsValid(es)
    ensures TabsValid(RemoveTab(es, tabId))
  {
    var r := RemoveTab(es, tabId);
    FilterTabsUnique(es.openTabs, tabId);
    if es.activeTabId.Some? && es.activeTabId != Some(tabId) {
      var i :| 0 <= i < |es.openTabs| && es.openTabs[i].id == es.activeTabId.value;
      assert es.openTabs[i] in r.openTabs;
    }
  }

  /** Activating an open tab keeps the invariant. */
  lemma {:induction false} SetActiveKeepsValid(es: EditorState, tabId: string)
    requires TabsValid(es) && HasTab(es.openTabs, tabId)
    ensures TabsValid(SetActiveTab(es, tabId))
  {
  }

  /** Changing a tab's title or dirty flag keeps the invariant and the tab ids. */
  lemma {:induction false} UpdateTabKeepsValid(es: EditorState, tabId: string, changes: TabChanges)
    requires TabsValid(es) && changes.id.None? && changes.entryId.None?
    ensures TabsValid(UpdateTab(es, tabId, changes))
  {
    var r := UpdateTab(es, tabId, changes);
    if es.activeTabId.Some? {
      var i :| 0 <= i < |es.openTabs| && es.openTabs[i].id == es.activeTabId.value;
      assert r.openTabs[i].id == es.activeTabId.value;
    }
  }

  // ------------------------------------------------------------------ the reducer

  datatype Action =
    | SetLoading(loading: bool)
    | SetError(message: Option<string>)
    | SetRecentFiles(files: seq<RecentFile>)
    | SetCurrentJournal(journal: JournalBlock, filePath: string)
    | UpdateJournal(updated: JournalBlock)
    | AddTabAction(tab: TabInfo)
    | RemoveTabAction(tabId: string)
    | SetActiveTabAction(tabId: string)
    | UpdateTabAction(tabId: string, changes: TabChanges)
    | SetSidebarWidth(width: int)
    | SetSelectedFolder(selected: Option<string>)
    | ToggleFolderExpanded(folderId: string, now: Timestamp)
    | SetSaveStatus(status: Option<SaveStatus>, lastSaved: Option<string>)
    | ClearJournal

  /** The initial state: no journal, no tabs, a 300-pixel sidebar. */
  function InitialState(): (r: JournalState)
    ensures r.currentJournal.None? && r.recentFiles == [] && TabsValid(r.editorState)
    ensures r.editorState.sidebarWidth == 300
  {
    JournalState(None, None, [], EditorState([], None, 300, None), false, None, None, None)
  }

  /** Is the action one of ADD_TAB, REMOVE_TAB, SET_ACTIVE_TAB, UPDATE_TAB? */
  predicate IsTabAction(action: Action)
  {
    action.AddTabAction? || action.RemoveTabAction? || action.SetActiveTabAction? || action.UpdateTabAction?
  }

  function Reduce(state: JournalState, action: Action): (r: JournalState)
    // the tab cases touch only the tabs and the active tab
    ensures IsTabAction(action) ==>
              r == state.(editorState := r.editorState) &&
              r.editorState.sidebarWidth == state.editorState.sidebarWidth &&
              r.editorState.selectedFolderId == state.editorState.selectedFolderId
    // the document changes only by UPDATE_JOURNAL, SET_CURRENT_JOURNAL, TOGGLE_FOLDER_EXPANDED
    // and CLEAR_JOURNAL
    ensures !(action.UpdateJournal? || action.SetCurrentJournal? || action.ToggleFolderExpanded? || action.ClearJournal?) ==>
              r.currentJournal == state.currentJournal
    // the recent-file list changes only by SET_RECENT_FILES; clearing keeps it
    ensures !action.SetRecentFiles? ==> r.recentFiles == state.recentFiles
    // toggling keeps the title, settings and every id of the tree
    ensures action.ToggleFolderExpanded? && state.currentJournal.Some? ==>
              r.currentJournal.Some? &&
              r.currentJournal.value.settings == state.currentJournal.value.settings &&
              IdList(r.currentJournal.value.structure.children) == IdList(state.currentJournal.value.structure.children)
  {
    match action
    case SetLoading(loading) => state.(isLoading := loading)
    case SetError(message) => state.(error := message)
    case SetRecentFiles(files) => state.(recentFiles := files)
    case SetCurrentJournal(journal, filePath) =>
      state.(currentJournal := Some(journal), currentFilePath := Some(filePath),
             editorState := state.editorState.(sidebarWidth := journal.settings.sidebarWidth))
    case UpdateJournal(updated) => state.(currentJournal := Some(updated))
    case AddTabAction(tab) => state.(editorState := AddTab(state.editorState, tab))
    case RemoveTabAction(tabId) => state.(editorState := RemoveTab(state.editorState, tabId))
    case SetActiveTabAction(tabId) => state.(editorState := SetActiveTab(state.editorState, tabId))
    case UpdateTabAction(tabId, changes) => state.(editorState := UpdateTab(state.editorState, tabId, changes))
    case SetSidebarWidth(width) => state.(editorState := state.editorState.(sidebarWidth := width))
    case SetSelectedFolder(folderId) => state.(editorState := state.editorState.(selectedFolderId := folderId))
    case ToggleFolderExpanded(folderId, now) =>
      if state.currentJournal.None? then state
      else
        var j := state.currentJournal.value;
        ToggleEffect(j.structure.children, folderId, folderId);
        var structure := j.structure.(children := ToggleExpanded(j.structure.children, folderId));
        state.(currentJournal := Some(j.(structure := structure, modified := now)))
    case SetSaveStatus(status, lastSaved) =>
      state.(saveStatus := status, lastSaved := if OrElse(lastSaved, "") != "" then lastSaved else state.lastSaved)
    case ClearJournal => InitialState().(recentFiles := state.recentFiles)
  }

  /** TOGGLE_FOLDER_EXPANDED does nothing without a document; with one, the children are
      toggled, `modified` becomes `now`, and nothing else changes. */
  lemma {:induction false} ReduceToggle(state: JournalState, folderId: string, now: Timestamp)
    ensures state.currentJournal.None? ==> Reduce(state, ToggleFolderExpanded(folderId, now)) == state
    ensures state.currentJournal.Some? ==>
              var j := state.currentJournal.value;
              var r := Reduce(state, ToggleFolderExpanded(folderId, now));
              r == state.(currentJournal := r.currentJournal) &&
              r.currentJournal == Some(j.(structure := r.currentJournal.value.structure, modified := now)) &&
              r.currentJournal.value.structure == j.structure.(children := ToggleExpanded(j.structure.children, folderId))
  {
  }

  /** SET_CURRENT_JOURNAL installs the document, its path and its sidebar width, and leaves the
      tabs, the recent files and the error alone. */
  lemma {:induction false} ReduceOpen(state: JournalState, journal: JournalBlock, filePath: string)
    ensures var r := Reduce(state, SetCurrentJournal(journal, filePath));
            r.currentJournal == Some(journal) && r.currentFilePath == Some(filePath) &&
            r.editorState == state.editorState.(sidebarWidth := journal.settings.sidebarWidth) &&
            r.recentFiles == state.recentFiles && r.error == state.error
  {
  }

  /** The actions the provider dispatches in a way that keeps the tab invariant: a tab added
      with a fresh id, an open tab activated, a tab retitled or marked dirty. */
  predicate KeepsTabs(es: EditorState, action: Action)
  {
    match action
    case AddTabAction(tab) => !HasTab(es.openTabs, tab.id)
    case SetActiveTabAction(tabId) => HasTab(es.openTabs, tabId)
    case UpdateTabAction(_, changes) => changes.id.None? && changes.entryId.None?
    case _ => true
  }

  /** Every such action keeps the tab invariant. */
  lemma {:induction false} ReduceKeepsTabsValid(state: JournalState, action: Action)
    requires TabsValid(state.editorState) && KeepsTabs(state.editorState, action)
    ensures TabsValid(Reduce(state, action).editorState)
  {
    match action
    case AddTabAction(tab) => AddTabKeepsValid(state.editorState, tab);
    case RemoveTabAction(tabId) => RemoveTabKeepsValid(state.editorState, tabId);
    case SetActiveTabAction(tabId) => SetActiveKeepsValid(state.editorState, tabId);
    case UpdateTabAction(tabId, changes) => UpdateTabKeepsValid(state.editorState, tabId, changes);
    case _ =>
  }

  /** CLEAR_JOURNAL forgets everything but the recent files: two states with the same recent
      files clear to the same state, with no journal and no tab. */
  lemma {:induction false} ClearKeepsOnlyRecentFiles(s1: JournalState, s2: JournalState)
    requires s1.recentFiles == s2.recentFiles
    ensures Reduce(s1, ClearJournal) == Reduce(s2, ClearJournal)
    ensures Reduce(s1, ClearJournal).currentJournal.None? && Reduce(s1, ClearJournal).editorState.openTabs == []
    ensures Reduce(s1, ClearJournal).recentFiles == s1.recentFiles
  {
  }
}
