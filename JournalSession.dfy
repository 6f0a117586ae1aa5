/** The provider of src/context/JournalContext.tsx: the state held by `useReducer`, and the
    actions that read it, rebuild the document with the tree functions and dispatch. */
module JournalSession {
  import opened JournalTypes
  import opened JournalTree
  import opened JournalReducer

  /** The top-level items of a document. */
  function Children(j: JournalBlock): seq<Item>
  {
    j.structure.children
  }

  /** `{ ...journal, structure: { ...journal.structure, children } }`. */
  function WithChildren(j: JournalBlock, children: seq<Item>): (r: JournalBlock)
    ensures Children(r) == children && r.settings == j.settings && r.title == j.title
  {
    j.(structure := j.structure.(children := children))
  }

  /** The document tree is well formed: no id twice and no node posing as the root. */
  ghost predicate TreeOk(s: JournalState)
  {
    s.currentJournal.Some? ==>
      UniqueIds(Children(s.currentJournal.value)) && RootId !in IdList(Children(s.currentJournal.value))
  }

  // ------------------------------------------------------------------ renameItem's tab loop

  /** The changes renameItem dispatches for a tab of the renamed entry. */
  function TitleChange(newName: string): TabChanges
  {
    TabChanges(None, None, Some(newName), None)
  }

  /** The editor state after one UPDATE_TAB per tab of `tabs` whose entry is `itemId`, in order. */
  function RetitleFrom(es: EditorState, tabs: seq<TabInfo>, itemId: string, newName: string): (r: EditorState)
    ensures |r.openTabs| == |es.openTabs| && r.activeTabId == es.activeTabId
    ensures r.sidebarWidth == es.sidebarWidth && r.selectedFolderId == es.selectedFolderId
    ensures forall i :: 0 <= i < |es.openTabs| ==> r.openTabs[i].id == es.openTabs[i].id && r.openTabs[i].entryId == es.openTabs[i].entryId
    decreases tabs
  {
    if tabs == [] then es
    else
      var next := if tabs[0].entryId == itemId then UpdateTab(es, tabs[0].id, TitleChange(newName)) else es;
      RetitleFrom(next, tabs[1..], itemId, newName)
  }

  /** Does `tabs` hold a tab of entry `itemId` with id `tabId`? */
  predicate RetitledId(tabs: seq<TabInfo>, itemId: string, tabId: string)
  {
    exists t :: t in tabs && t.entryId == itemId && t.id == tabId
  }

  /** The loop retitles exactly the open tabs whose id is the id of some tab of the renamed
      entry; it changes no tab's id, entry or dirty flag, and nothing else. */
  lemma {:induction false} RetitleFromEffect(es: EditorState, tabs: seq<TabInfo>, itemId: string, newName: string)
    ensures var r := RetitleFrom(es, tabs, itemId, newName);
            |r.openTabs| == |es.openTabs| && r.activeTabId == es.activeTabId &&
            r.sidebarWidth == es.sidebarWidth && r.selectedFolderId == es.selectedFolderId &&
            forall j :: 0 <= j < |es.openTabs| ==>
              r.openTabs[j] == if RetitledId(tabs, itemId, es.openTabs[j].id)
                               then es.openTabs[j].(title := newName) else es.openTabs[j]
    decreases tabs
  {
    if tabs != [] {
      var t := tabs[0];
      var next := if t.entryId == itemId then UpdateTab(es, t.id, TitleChange(newName)) else es;
      RetitleFromEffect(next, tabs[1..], itemId, newName);
      forall j | 0 <= j < |es.openTabs|
        ensures RetitleFrom(es, tabs, itemId, newName).openTabs[j] ==
                if RetitledId(tabs, itemId, es.openTabs[j].id) then es.openTabs[j].(title := newName) else es.openTabs[j]
      {
        var o := es.openTabs[j];
        assert next.openTabs[j].id == o.id;
        if t.entryId == itemId && o.id == t.id {
          assert RetitledId(tabs, itemId, o.id);
        } else {
          assert next.openTabs[j] == o;
          if RetitledId(tabs, itemId, o.id) {
            var u :| u in tabs && u.entryId == itemId && u.id == o.id;
            assert u != t;
            assert u in tabs[1..];
          }
        }
      }
    }
  }

  /** renameItem on a valid tab list retitles exactly the tabs of the renamed entry and keeps
      the tab invariant. */
  lemma {:induction false} RenameRetitlesTabs(es: EditorState, itemId: string, newName: string)
    requires TabsValid(es)
    ensures var r := RetitleFrom(es, es.openTabs, itemId, newName);
            TabsValid(r) && r.activeTabId == es.activeTabId && |r.openTabs| == |es.openTabs| &&
            forall j :: 0 <= j < |es.openTabs| ==>
              r.openTabs[j] == if es.openTabs[j].entryId == itemId
                               then es.openTabs[j].(title := newName) else es.openTabs[j]
  {
    var r := RetitleFrom(es, es.openTabs, itemId, newName);
    RetitleFromEffect(es, es.openTabs, itemId, newName);
    forall j | 0 <= j < |es.openTabs|
      ensures RetitledId(es.openTabs, itemId, es.openTabs[j].id) <==> es.openTabs[j].entryId == itemId
    {
      if RetitledId(es.openTabs, itemId, es.openTabs[j].id) {
        var u :| u in es.openTabs && u.entryId == itemId && u.id == es.openTabs[j].id;
        var k :| 0 <= k < |es.openTabs| && es.openTabs[k] == u;
        assert k == j;
      }
    }
    assert forall j :: 0 <= j < |es.openTabs| ==> r.openTabs[j].id == es.openTabs[j].id;
    assert forall j :: 0 <= j < |es.openTabs| ==> r.openTabs[j].entryId == es.openTabs[j].entryId;
    if es.activeTabId.Some? {
      var k :| 0 <= k < |es.openTabs| && es.openTabs[k].id == es.activeTabId.value;
      assert r.openTabs[k].id == es.activeTabId.value;
    }
  }

  // ------------------------------------------------------------------ deleteItem's tab loop

  /** The tabs deleteItem closes: those whose entry is not found in `items`. */
  function TabsToClose(tabs: seq<TabInfo>, items: seq<Item>): (r: seq<TabInfo>)
    ensures forall t :: t in r <==> t in tabs && FindItemById(items, t.entryId).None?
  {
    if tabs == [] then []
    else (if FindItemById(items, tabs[0].entryId).None? then [tabs[0]] else []) + TabsToClose(tabs[1..], items)
  }

  /** The editor state after one REMOVE_TAB per tab of `tabs`, in order. */
  function CloseFrom(es: EditorState, tabs: seq<TabInfo>): EditorState
    decreases tabs
  {
    if tabs == [] then es else CloseFrom(RemoveTab(es, tabs[0].id), tabs[1..])
  }

  /** REMOVE_TAB through the reducer changes only the editor state. */
  lemma {:induction false} ReduceRemoveTab(s: JournalState, tabId: string)
    ensures Reduce(s, RemoveTabAction(tabId)) == s.(editorState := RemoveTab(s.editorState, tabId))
  {
  }

  /** One step of CloseFrom: closing the tab at `i` and then the rest. */
  lemma {:induction false} CloseFromStep(es: EditorState, toClose: seq<TabInfo>, i: nat)
    requires i < |toClose|
    ensures CloseFrom(RemoveTab(es, toClose[i].id), toClose[i + 1..]) == CloseFrom(es, toClose[i..])
  {
    assert toClose[i..][1..] == toClose[i + 1..];
  }

  /** Does `tabs` hold a tab with id `tabId`? */
  predicate Closes(tabs: seq<TabInfo>, tabId: string)
  {
    exists t :: t in tabs && t.id == tabId
  }

  lemma {:induction false} ClosesCons(tabs: seq<TabInfo>, tabId: string)
    requires tabs != []
    ensures Closes(tabs, tabId) <==> tabs[0].id == tabId || Closes(tabs[1..], tabId)
  {
    if Closes(tabs, tabId) && tabs[0].id != tabId {
      var v :| v in tabs && v.id == tabId;
      assert v in tabs[1..];
    }
    if Closes(tabs[1..], tabId) {
      var v :| v in tabs[1..] && v.id == tabId;
      assert v in tabs;
    }
  }

  lemma {:induction false} FilterKeepsLast(tabs: seq<TabInfo>, tabId: string)
    requires tabs != [] && tabs[|tabs| - 1].id != tabId
    ensures LastTabId(FilterTabs(tabs, tabId)) == LastTabId(tabs)
  {
    var f := FilterTabs(tabs, tabId);
    var g := FilterTabs(tabs[1..], tabId);
    assert f == (if tabs[0].id == tabId then [] else [tabs[0]]) + g;
    if |tabs| > 1 {
      FilterKeepsLast(tabs[1..], tabId);
      assert g != [] && g[|g| - 1].id == tabs[|tabs| - 1].id;
      assert f[|f| - 1] == g[|g| - 1];
    } else {
      assert g == [];
    }
  }

  /** Once the active tab is the last one, closing tabs keeps it so. */
  lemma {:induction false} CloseFromKeepsLast(es: EditorState, tabs: seq<TabInfo>)
    requires es.activeTabId == LastTabId(es.openTabs)
    ensures CloseFrom(es, tabs).activeTabId == LastTabId(CloseFrom(es, tabs).openTabs)
    decreases tabs
  {
    if tabs != [] {
      var next := RemoveTab(es, tabs[0].id);
      if es.activeTabId != Some(tabs[0].id) && es.openTabs != [] {
        FilterKeepsLast(es.openTabs, tabs[0].id);
      }
      CloseFromKeepsLast(next, tabs[1..]);
    }
  }

  /** Closing a list of tabs removes exactly the tabs with their ids; the active tab stays
      unless it is closed, and then the last remaining tab becomes active; the invariant holds. */
  lemma {:induction false} CloseFromEffect(es: EditorState, tabs: seq<TabInfo>)
    requires TabsValid(es)
    ensures var r := CloseFrom(es, tabs);
            TabsValid(r) &&
            r.sidebarWidth == es.sidebarWidth && r.selectedFolderId == es.selectedFolderId &&
            (forall t :: t in r.openTabs <==> t in es.openTabs && !Closes(tabs, t.id)) &&
            (es.activeTabId.Some? && !Closes(tabs, es.activeTabId.value) ==> r.activeTabId == es.activeTabId) &&
            (es.activeTabId.Some? && Closes(tabs, es.activeTabId.value) ==> r.activeTabId == LastTabId(r.openTabs))
    decreases tabs
  {
    if tabs != [] {
      var t := tabs[0];
      var next := RemoveTab(es, t.id);
      var r := CloseFrom(es, tabs);
      RemoveTabKeepsValid(es, t.id);
      CloseFromEffect(next, tabs[1..]);
      forall u ensures u in r.openTabs <==> u in es.openTabs && !Closes(tabs, u.id)
      {
        ClosesCons(tabs, u.id);
      }
      if es.activeTabId.Some? {
        var a := es.activeTabId.value;
        ClosesCons(tabs, a);
        if a == t.id {
          CloseFromKeepsLast(next, tabs[1..]);
        }
      }
    }
  }

  /** The in-place quirk of deleteItem: deleting a top-level node leaves the old list reading as
      before, so the tabs closed are only those whose entry was already missing; a tab on the
      deleted entry, or on any entry inside the deleted folder, stays open. */
  lemma {:induction false} DeleteTopLevelClosesOnlyStaleTabs(items: seq<Item>, itemId: string, tabs: seq<TabInfo>)
    requires UniqueIds(items) && itemId in TopLevelIds(items)
    ensures TabsToClose(tabs, SnapshotAfterRemove(items, itemId)) == TabsToClose(tabs, items)
  {
    SnapshotTopLevel(items, itemId);
  }

  /** Deleting a nested node closes exactly the tabs of the deleted subtree, besides the tabs
      whose entry was already missing. */
  lemma {:induction false} DeleteNestedClosesSubtreeTabs(items: seq<Item>, itemId: string, tabs: seq<TabInfo>)
    requires UniqueIds(items) && FindItemById(items, itemId).Some? && itemId !in TopLevelIds(items)
    ensures forall t :: t in TabsToClose(tabs, SnapshotAfterRemove(items, itemId)) <==>
              t in tabs &&
              (FindItemById(items, t.entryId).None? || t.entryId in SubtreeIds(FindItemById(items, itemId).value))
  {
    var bad := SubtreeIds(FindItemById(items, itemId).value);
    SnapshotNested(items, itemId);
    RemoveKeepsOrder(items, itemId);
    forall t: TabInfo
      ensures FindItemById(RemoveItemFromTree(items, itemId), t.entryId).None? <==>
              FindItemById(items, t.entryId).None? || t.entryId in bad
    {
      WithoutMember(IdList(items), bad, t.entryId);
    }
  }

  // ------------------------------------------------------------------ saveJournal / exportEntry

  /** What saveJournal writes: the document with the current sidebar width in its settings. */
  datatype SaveRequest = SaveRequest(filePath: string, journal: JournalBlock)

  /** saveJournal writes only with both a document and a path. */
  function SavePayload(s: JournalState): (r: Option<SaveRequest>)
    ensures r.Some? <==> s.currentJournal.Some? && s.currentFilePath.Some?
    ensures r.Some? ==>
              r.value.journal.settings.sidebarWidth == s.editorState.sidebarWidth &&
              r.value.journal.settings.theme == s.currentJournal.value.settings.theme &&
              r.value.journal.structure == s.currentJournal.value.structure &&
              r.value.filePath == s.currentFilePath.value
  {
    if s.currentJournal.None? || s.currentFilePath.None? then None
    else
      var j := s.currentJournal.value;
      Some(SaveRequest(s.currentFilePath.value, j.(settings := j.settings.(sidebarWidth := s.editorState.sidebarWidth))))
  }

  /** The sidebar width survives a save and a reopen: opening what was saved restores the
      width, and the document reads as before apart from that setting. */
  lemma {:induction false} SaveThenOpenRestoresWidth(s: JournalState, later: JournalState)
    requires SavePayload(s).Some?
    ensures var saved := SavePayload(s).value;
            var reopened := Reduce(later, SetCurrentJournal(saved.journal, saved.filePath));
            reopened.editorState.sidebarWidth == s.editorState.sidebarWidth &&
            reopened.currentJournal.value.structure == s.currentJournal.value.structure &&
            reopened.currentFilePath == s.currentFilePath
  {
  }

  /** How the write ended: true, false, or an exception. */
  datatype WriteOutcome = Written | NotWritten | WriteThrew

  /** What exportEntry hands to the main process: an entry's content and name. */
  datatype ExportRequest = ExportRequest(content: Content, name: string)

  function ExportPayload(s: JournalState, entryId: string): (r: Option<ExportRequest>)
    ensures r.Some? <==>
              s.currentJournal.Some? && FindItemById(Children(s.currentJournal.value), entryId).Some? &&
              FindItemById(Children(s.currentJournal.value), entryId).value.Entry?
    ensures r.Some? ==>
              var e := FindItemById(Children(s.currentJournal.value), entryId).value;
              r.value.content == e.content && r.value.name == e.name
  {
    if s.currentJournal.None? then None
    else
      var found := FindItemById(Children(s.currentJournal.value), entryId);
      if found.None? || !found.value.Entry? then None
      else Some(ExportRequest(found.value.content, found.value.name))
  }

  // ------------------------------------------------------------------ the provider

  /** The new entry of addEntry. */
  function NewEntry(id: string, name: Option<string>, now: Timestamp): Item
  {
    Entry(id, OrElse(name, "New Entry"), Blocks([]), now, now)
  }

  /** The new folder of addFolder: empty and expanded. */
  function NewFolder(id: string, name: Option<string>, now: Timestamp): Item
  {
    Folder(id, OrElse(name, "New Folder"), [], now, now, Some(true))
  }

  /** `parentId || selectedFolderId || 'root'`. */
  function EffectiveParent(parentId: Option<string>, es: EditorState): string
  {
    OrElse(parentId, OrElse(es.selectedFolderId, RootId))
  }

  /** The document after addEntry or addFolder: the node added under the parent, and the
      document's own `modified` stamped. */
  function WithAddedNode(j: JournalBlock, parentId: string, node: Item, now: Timestamp): JournalBlock
  {
    WithChildren(j, AddChild(Children(j), parentId, node)).(modified := now)
  }

  /** Where a new node lands: with unique ids and a fresh id, it is found exactly when the
      parent is the root or a folder, and otherwise the tree is left as it was. */
  lemma {:induction false} AddPlacesNode(items: seq<Item>, parentId: string, node: Item)
    requires UniqueIds(items) && node.id !in IdList(items) && SubtreeIds(node) == [node.id]
    ensures var r := AddChild(items, parentId, node);
            var placed := parentId == RootId ||
                          (FindItemById(items, parentId).Some? && FindItemById(items, parentId).value.Folder?);
            UniqueIds(r) &&
            (placed ==> FindItemById(r, node.id) == Some(node)) &&
            (!placed ==> r == items)
  {
    var placed := parentId == RootId ||
                   (FindItemById(items, parentId).Some? && FindItemById(items, parentId).value.Folder?);
    if placed {
      AddChildFind(items, parentId, node);
      var r := AddChild(items, parentId, node);
      forall k ensures multiset(IdList(r))[k] <= 1 {
        assert multiset(IdList(r))[k] == multiset(IdList(items))[k] + multiset([node.id])[k];
      }
    } else {
      AddChildDropsNode(items, parentId, node);
    }
  }

  class JournalSession {
    var state: JournalState

    constructor()
      ensures state == InitialState()
    {
      state := InitialState();
    }

    method Dispatch(action: Action)
      modifies this
      ensures state == Reduce(old(state), action)
    {
      state := Reduce(state, action);
    }

    /** openEntry: an entry that is found gets a tab (its existing one, or a new one with
        `tabId`, the generated id, titled with the entry's name); anything else does nothing. */
    method OpenEntry(entryId: string, tabId: string)
      modifies this
      ensures var found := if old(state).currentJournal.Some? then FindItemById(Children(old(state).currentJournal.value), entryId) else None;
              state == if found.Some? && found.value.Entry?
                       then Reduce(old(state), AddTabAction(TabInfo(tabId, entryId, found.value.name, false)))
                       else old(state)
      ensures TabsValid(old(state).editorState) && !HasTab(old(state).editorState.openTabs, tabId) ==>
              TabsValid(state.editorState)
    {
      if state.currentJournal.None? { return; }
      var found := FindItemById(Children(state.currentJournal.value), entryId);
      if found.None? || !found.value.Entry? { return; }
      var tab := TabInfo(tabId, entryId, found.value.name, false);
      if TabsValid(state.editorState) && !HasTab(state.editorState.openTabs, tabId) {
        AddTabKeepsValid(state.editorState, tab);
      }
      Dispatch(AddTabAction(tab));
    }

    method CloseTab(tabId: string)
      modifies this
      ensures state == Reduce(old(state), RemoveTabAction(tabId))
      ensures TabsValid(old(state).editorState) ==> TabsValid(state.editorState)
    {
      if TabsValid(state.editorState) {
        RemoveTabKeepsValid(state.editorState, tabId);
      }
      Dispatch(RemoveTabAction(tabId));
    }

    method SetActiveTab(tabId: string)
      modifies this
      ensures state == Reduce(old(state), SetActiveTabAction(tabId))
      ensures TabsValid(old(state).editorState) && HasTab(old(state).editorState.openTabs, tabId) ==>
              TabsValid(state.editorState)
    {
      Dispatch(SetActiveTabAction(tabId));
    }

    /** updateEntry: the content and `modified` of the node with the id are replaced. */
    method UpdateEntry(entryId: string, content: Content, now: Timestamp)
      modifies this
      ensures old(state).currentJournal.None? ==> state == old(state)
      ensures old(state).currentJournal.Some? ==>
              var j := old(state).currentJournal.value;
              state == old(state).(currentJournal := Some(WithChildren(j, UpdateItemInTree(Children(j), entryId, ContentUpdater(content, now)))))
      ensures TreeOk(old(state)) ==> TreeOk(state)
    {
      if state.currentJournal.None? { return; }
      var j := state.currentJournal.value;
      UpdateEntryEffect(Children(j), entryId, content, now, entryId);
      Dispatch(UpdateJournal(WithChildren(j, UpdateItemInTree(Children(j), entryId, ContentUpdater(content, now)))));
    }

    method SetSidebarWidth(width: int)
      modifies this
      ensures state == Reduce(old(state), Action.SetSidebarWidth(width))
    {
      Dispatch(Action.SetSidebarWidth(width));
    }

    /** addEntry: returns the new id, or "" without a document. */
    method AddEntry(parentId: Option<string>, name: Option<string>, newId: string, now: Timestamp) returns (id: string)
      modifies this
      ensures old(state).currentJournal.None? ==> id == "" && state == old(state)
      ensures old(state).currentJournal.Some? ==>
              id == newId &&
              state == old(state).(currentJournal := Some(WithAddedNode(old(state).currentJournal.value,
                                     EffectiveParent(parentId, old(state).editorState), NewEntry(newId, name, now), now)))
      ensures (TreeOk(old(state)) && old(state).currentJournal.Some? &&
               newId !in IdList(Children(old(state).currentJournal.value)) && newId != RootId) ==> TreeOk(state)
    {
      if state.currentJournal.None? { return ""; }
      var j := state.currentJournal.value;
      var node := NewEntry(newId, name, now);
      var p := EffectiveParent(parentId, state.editorState);
      if TreeOk(state) && newId !in IdList(Children(j)) && newId != RootId {
        AddPlacesNode(Children(j), p, node);
        AddRootFree(Children(j), p, node);
      }
      Dispatch(UpdateJournal(WithAddedNode(j, p, node, now)));
      return newId;
    }

    /** addFolder: returns the new id, or "" without a document. */
    method AddFolder(parentId: Option<string>, name: Option<string>, newId: string, now: Timestamp) returns (id: string)
      modifies this
      ensures old(state).currentJournal.None? ==> id == "" && state == old(state)
      ensures old(state).currentJournal.Some? ==>
              id == newId &&
              state == old(state).(currentJournal := Some(WithAddedNode(old(state).currentJournal.value,
                                     EffectiveParent(parentId, old(state).editorState), NewFolder(newId, name, now), now)))
      ensures (TreeOk(old(state)) && old(state).currentJournal.Some? &&
               newId !in IdList(Children(old(state).currentJournal.value)) && newId != RootId) ==> TreeOk(state)
    {
      if state.currentJournal.None? { return ""; }
      var j := state.currentJournal.value;
      var node := NewFolder(newId, name, now);
      var p := EffectiveParent(parentId, state.editorState);
      if TreeOk(state) && newId !in IdList(Children(j)) && newId != RootId {
        AddPlacesNode(Children(j), p, node);
        AddRootFree(Children(j), p, node);
      }
      Dispatch(UpdateJournal(WithAddedNode(j, p, node, now)));
      return newId;
    }

    /** renameItem: the node is renamed, then one UPDATE_TAB per open tab of it, over the
        tabs as they were before the rename. */
    method RenameItem(itemId: string, newName: string, now: Timestamp)
      modifies this
      ensures old(state).currentJournal.None? ==> state == old(state)
      ensures old(state).currentJournal.Some? ==>
              var j := old(state).currentJournal.value;
              state == old(state).(currentJournal := Some(WithChildren(j, UpdateItemInTree(Children(j), itemId, RenameUpdater(newName, now)))),
                                   editorState := RetitleFrom(old(state).editorState, old(state).editorState.openTabs, itemId, newName))
      ensures TreeOk(old(state)) ==> TreeOk(state)
      ensures TabsValid(old(state).editorState) ==> TabsValid(state.editorState)
    {
      if state.currentJournal.None? { return; }
      var j := state.currentJournal.value;
      var tabs := state.editorState.openTabs;
      ghost var es0 := state.editorState;
      RenameEffect(Children(j), itemId, newName, now, itemId);
      if TabsValid(es0) {
        RenameRetitlesTabs(es0, itemId, newName);
      }
      assert TreeOk(state) ==> TreeOk(state.(currentJournal := Some(WithChildren(j, UpdateItemInTree(Children(j), itemId, RenameUpdater(newName, now))))));
      ghost var s0 := state;
      var updated := WithChildren(j, UpdateItemInTree(Children(j), itemId, RenameUpdater(newName, now)));
      Dispatch(UpdateJournal(updated));
      assert state == s0.(currentJournal := Some(updated));
      RetitleEach(tabs, itemId, newName);
    }

    /** The loop of renameItem: one UPDATE_TAB per tab of `tabs` whose entry is `itemId`. */
    method RetitleEach(tabs: seq<TabInfo>, itemId: string, newName: string)
      modifies this
      ensures state == old(state).(editorState := RetitleFrom(old(state).editorState, tabs, itemId, newName))
    {
      ghost var s1 := state;
      assert tabs[0..] == tabs;
      var i := 0;
      while i < |tabs|
        invariant 0 <= i <= |tabs|
        invariant state == s1.(editorState := state.editorState)
        invariant RetitleFrom(state.editorState, tabs[i..], itemId, newName) == RetitleFrom(s1.editorState, tabs, itemId, newName)
      {
        assert tabs[i..][1..] == tabs[i + 1..];
        if tabs[i].entryId == itemId {
          Dispatch(UpdateTabAction(tabs[i].id, TitleChange(newName)));
        }
        i := i + 1;
      }
      assert tabs[i..] == [];
    }

    /** deleteItem: the node goes with its subtree; then the tabs whose entry is not found in
        the old top-level list, as the in-place removal left it, are closed one by one. */
    method DeleteItem(itemId: string)
      modifies this
      ensures old(state).currentJournal.None? ==> state == old(state)
      ensures old(state).currentJournal.Some? ==>
              var items := Children(old(state).currentJournal.value);
              state == old(state).(currentJournal := Some(WithChildren(old(state).currentJournal.value, RemoveItemFromTree(items, itemId))),
                                   editorState := CloseFrom(old(state).editorState,
                                                            TabsToClose(old(state).editorState.openTabs, SnapshotAfterRemove(items, itemId))))
      ensures TreeOk(old(state)) ==> TreeOk(state)
      ensures TabsValid(old(state).editorState) ==> TabsValid(state.editorState)
    {
      if state.currentJournal.None? { return; }
      var j := state.currentJournal.value;
      var items := Children(j);
      ghost var es0 := state.editorState;
      var toClose := TabsToClose(state.editorState.openTabs, SnapshotAfterRemove(items, itemId));
      assert TabsValid(es0) ==> TabsValid(CloseFrom(es0, toClose)) by {
        if TabsValid(es0) { CloseFromEffect(es0, toClose); }
      }
      assert TreeOk(state) ==> UniqueIds(RemoveItemFromTree(items, itemId)) && RootId !in IdList(RemoveItemFromTree(items, itemId)) by {
        if TreeOk(state) { RemoveKeepsTreeOk(items, itemId); }
      }
      ghost var s0 := state;
      var updated := WithChildren(j, RemoveItemFromTree(items, itemId));
      Dispatch(UpdateJournal(updated));
      assert state == s0.(currentJournal := Some(updated));
      CloseEach(toClose);
    }

    /** The loop of deleteItem: one REMOVE_TAB per tab of `toClose`, in order. */
    method CloseEach(toClose: seq<TabInfo>)
      modifies this
      ensures state == old(state).(editorState := CloseFrom(old(state).editorState, toClose))
    {
      ghost var s1 := state;
      assert toClose[0..] == toClose;
      var i := 0;
      while i < |toClose|
        invariant 0 <= i <= |toClose|
        invariant state == s1.(editorState := state.editorState)
        invariant CloseFrom(state.editorState, toClose[i..]) == CloseFrom(s1.editorState, toClose)
      {
        CloseFromStep(state.editorState, toClose, i);
        ReduceRemoveTab(state, toClose[i].id);
        Dispatch(RemoveTabAction(toClose[i].id));
        i := i + 1;
      }
      assert toClose[i..] == [];
    }

    /** moveItem: nothing happens when the node is absent or the move would put a folder
        inside itself; otherwise the document takes the rebuilt tree. */
    method MoveItem(itemId: string, newParentId: string, index: Option<int>)
      modifies this
      ensures old(state).currentJournal.None? ==> state == old(state)
      ensures old(state).currentJournal.Some? ==>
              var j := old(state).currentJournal.value;
              var moved := JournalTree.MoveItem(Children(j), itemId, newParentId, index);
              state == if moved.None? then old(state) else old(state).(currentJournal := Some(WithChildren(j, moved.value)))
      ensures TreeOk(old(state)) ==> TreeOk(state)
    {
      if state.currentJournal.None? { return; }
      var j := state.currentJournal.value;
      var moved := JournalTree.MoveItem(Children(j), itemId, newParentId, index);
      if moved.None? { return; }
      var updated := WithChildren(j, moved.value);
      assert TreeOk(state) ==> UniqueIds(moved.value) && RootId !in IdList(moved.value) by {
        if TreeOk(state) {
          MoveKeepsIdsUnique(Children(j), itemId, newParentId, index);
          MembersOf(IdList(moved.value), IdList(Children(j)));
        }
      }
      ghost var s0 := state;
      Dispatch(UpdateJournal(updated));
      assert state == s0.(currentJournal := Some(updated));
    }

    /** exportEntry: returns the request handed to the main process. The main process answers
        true (written) or false (cancelled or not written) and both leave the state alone; only
        a rejected call (`WriteThrew`) records an error. */
    method ExportEntry(entryId: string, outcome: WriteOutcome) returns (request: Option<ExportRequest>)
      modifies this
      ensures request == ExportPayload(old(state), entryId)
      ensures !outcome.WriteThrew? ==> state == old(state)
      ensures outcome.WriteThrew? ==>
              state == if request.Some? then Reduce(old(state), SetError(Some("Failed to export entry"))) else old(state)
    {
      request := ExportPayload(state, entryId);
      if request.Some? && outcome.WriteThrew? {
        Dispatch(SetError(Some("Failed to export entry")));
      }
    }

    method SetSelectedFolder(folderId: Option<string>)
      modifies this
      ensures state == Reduce(old(state), Action.SetSelectedFolder(folderId))
    {
      Dispatch(Action.SetSelectedFolder(folderId));
    }

    method ToggleFolderExpanded(folderId: string, now: Timestamp)
      modifies this
      ensures state == Reduce(old(state), Action.ToggleFolderExpanded(folderId, now))
      ensures TreeOk(old(state)) ==> TreeOk(state)
    {
      Dispatch(Action.ToggleFolderExpanded(folderId, now));
    }

    /** saveJournal: returns what is written (nothing without a document and a path), then
        records the outcome as the error message. */
    method SaveJournal(outcome: WriteOutcome) returns (request: Option<SaveRequest>)
      modifies this
      ensures request == SavePayload(old(state))
      ensures request.None? ==> state == old(state)
      ensures request.Some? ==>
              state == Reduce(old(state), SetError(if outcome.Written? then None else Some("Failed to save journal")))
    {
      request := SavePayload(state);
      if request.None? { return; }
      if outcome.Written? {
        Dispatch(SetError(None));
      } else {
        Dispatch(SetError(Some("Failed to save journal")));
      }
    }
  }

  /** Removing a node keeps the ids unique and the root id absent. */
  lemma {:induction false} RemoveKeepsTreeOk(items: seq<Item>, itemId: string)
    requires UniqueIds(items) && RootId !in IdList(items)
    ensures UniqueIds(RemoveItemFromTree(items, itemId)) && RootId !in IdList(RemoveItemFromTree(items, itemId))
  {
    if FindItemById(items, itemId).Some? {
      RemoveKeepsOrder(items, itemId);
      WithoutMember(IdList(items), SubtreeIds(FindItemById(items, itemId).value), RootId);
      WithoutSub(IdList(items), SubtreeIds(FindItemById(items, itemId).value));
      UniqueSub(RemoveItemFromTree(items, itemId), items);
    } else {
      RemoveAbsent(items, itemId);
    }
  }

  /** A new node never poses as the root when its id is not RootId. */
  lemma {:induction false} AddRootFree(items: seq<Item>, parentId: string, node: Item)
    requires RootId !in IdList(items) && node.id != RootId && SubtreeIds(node) == [node.id] && UniqueIds(items)
    requires node.id !in IdList(items)
    ensures RootId !in IdList(AddChild(items, parentId, node))
  {
    var placed := parentId == RootId ||
                   (FindItemById(items, parentId).Some? && FindItemById(items, parentId).value.Folder?);
    if placed {
      AddChildFind(items, parentId, node);
      assert multiset(IdList(AddChild(items, parentId, node)))[RootId] == 0;
    } else {
      AddChildDropsNode(items, parentId, node);
    }
  }

  /** The document root is not one of the items: renaming it, storing content on it,
      toggling it or deleting it finds nothing and leaves the items as they are. */
  lemma {:induction false} RootIsNotAnItem(items: seq<Item>, newName: string, content: Content, now: Timestamp)
    requires RootId !in IdList(items)
    ensures FindItemById(items, RootId).None?
    ensures UpdateItemInTree(items, RootId, RenameUpdater(newName, now)) == items
    ensures UpdateItemInTree(items, RootId, ContentUpdater(content, now)) == items
    ensures ToggleExpanded(items, RootId) == items
    ensures RemoveItemFromTree(items, RootId) == items
  {
    UpdateAbsent(items, RootId, RenameUpdater(newName, now));
    UpdateAbsent(items, RootId, ContentUpdater(content, now));
    ToggleIsUpdate(items, RootId);
    UpdateAbsent(items, RootId, FlipUpdater());
    RemoveAbsent(items, RootId);
  }
}
