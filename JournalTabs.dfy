/** The keyboard shortcuts of src/components/layout/JournalTabs.tsx: handleKeyDown reads the
    open tabs and the active tab id and decides which tab to activate or close. */
module JournalTabs {
  import opened JournalTypes
  import opened JournalReducer

  /** The fields of a `KeyboardEvent` the handler reads. */
  datatype KeyEvent = KeyEvent(key: string, ctrlKey: bool, metaKey: bool, shiftKey: bool)

  /** What the handler does: nothing, `setActiveTab(id)`, `closeTab(id)`, or it throws when it
      reads the id of a tab past either end of the list. */
  datatype KeyOutcome = NoAction | Activate(tabId: string) | Close(tabId: string) | Crash

  /** `openTabs.findIndex(tab => tab.id === activeTabId)`: -1 when no tab matches, which is
      always the case when the active id is null. */
  function CurrentIndex(tabs: seq<TabInfo>, activeTabId: Option<string>): (r: int)
    ensures -1 <= r < |tabs|
    ensures r >= 0 ==> activeTabId.Some? && tabs[r].id == activeTabId.value &&
                       forall i :: 0 <= i < r ==> tabs[i].id != activeTabId.value
    ensures r == -1 <==> activeTabId.None? || forall i :: 0 <= i < |tabs| ==> tabs[i].id != activeTabId.value
  {
    if tabs == [] || activeTabId.None? then -1
    else if tabs[0].id == activeTabId.value then 0
    else
      var k := CurrentIndex(tabs[1..], activeTabId);
      if k == -1 then -1 else k + 1
  }

  /** `(currentIndex + 1) % openTabs.length`; the dividend is never negative, so JavaScript's
      remainder and Dafny's agree. */
  function NextIndex(currentIndex: int, n: nat): int
    requires n > 0
  {
    (currentIndex + 1) % n
  }

  /** `currentIndex === 0 ? openTabs.length - 1 : currentIndex - 1`. */
  function PrevIndex(currentIndex: int, n: nat): int
  {
    if currentIndex == 0 then n - 1 else currentIndex - 1
  }

  /** `setActiveTab(openTabs[index].id)`: an index outside the list reads `undefined.id`. */
  function ActivateAt(tabs: seq<TabInfo>, index: int): (r: KeyOutcome)
    ensures r.Crash? <==> !(0 <= index < |tabs|)
    ensures r.Activate? ==> r.tabId == tabs[index].id
  {
    if 0 <= index < |tabs| then Activate(tabs[index].id) else Crash
  }

  /** handleKeyDown. */
  function HandleKeyDown(es: EditorState, ev: KeyEvent): (r: KeyOutcome)
    ensures es.openTabs == [] || !(ev.ctrlKey || ev.metaKey) ==> r == NoAction
    ensures r.Activate? ==> HasTab(es.openTabs, r.tabId)
    ensures r.Close? ==> es.activeTabId == Some(r.tabId) && r.tabId != "" && !ev.shiftKey && ev.key == "w"
  {
    var tabs := es.openTabs;
    if |tabs| == 0 then NoAction
    else
      var current := CurrentIndex(tabs, es.activeTabId);
      if (ev.ctrlKey || ev.metaKey) && !ev.shiftKey then
        if ev.key == "Tab" then ActivateAt(tabs, NextIndex(current, |tabs|))
        else if ev.key == "w" then
          if OrElse(es.activeTabId, "") != "" then Close(es.activeTabId.value) else NoAction
        else NoAction
      else if (ev.ctrlKey || ev.metaKey) && ev.shiftKey && ev.key == "Tab" then
        ActivateAt(tabs, PrevIndex(current, |tabs|))
      else if ev.metaKey && (ev.key == "[" || ev.key == "]") then
        if ev.key == "[" then ActivateAt(tabs, PrevIndex(current, |tabs|))
        else ActivateAt(tabs, NextIndex(current, |tabs|))
      else NoAction
  }

  /** Ctrl or Cmd with Tab and with Shift: forward and backward. */
  function Forward(ctrl: bool): KeyEvent
  {
    KeyEvent("Tab", ctrl, !ctrl, false)
  }

  function Backward(ctrl: bool): KeyEvent
  {
    KeyEvent("Tab", ctrl, !ctrl, true)
  }

  /** With unique ids the index of the active tab is its position. */
  lemma {:induction false} CurrentIndexOf(tabs: seq<TabInfo>, k: nat)
    requires k < |tabs| && TabIdsUnique(tabs)
    ensures CurrentIndex(tabs, Some(tabs[k].id)) == k
  {
    var r := CurrentIndex(tabs, Some(tabs[k].id));
    assert r != -1;
    assert tabs[r].id == tabs[k].id;
  }

  /** With no open tab no shortcut does anything. */
  lemma {:induction false} NoTabsNoAction(es: EditorState, ev: KeyEvent)
    requires es.openTabs == []
    ensures HandleKeyDown(es, ev) == NoAction
  {
  }

  /** Forward moves to the following tab and wraps from the last to the first. */
  lemma {:induction false} ForwardIsCyclic(es: EditorState, ctrl: bool, k: nat)
    requires k < |es.openTabs| && es.activeTabId == Some(es.openTabs[k].id) && TabIdsUnique(es.openTabs)
    ensures HandleKeyDown(es, Forward(ctrl)) ==
            Activate(es.openTabs[if k == |es.openTabs| - 1 then 0 else k + 1].id)
  {
    var tabs := es.openTabs;
    CurrentIndexOf(tabs, k);
    NextIndexWraps(k, |tabs|);
    assert HandleKeyDown(es, Forward(ctrl)) == ActivateAt(tabs, NextIndex(k, |tabs|));
  }

  lemma NextIndexWraps(k: nat, n: nat)
    requires k < n
    ensures NextIndex(k, n) == if k == n - 1 then 0 else k + 1
  {
    if k == n - 1 {
      assert k + 1 == n;
    } else {
      assert 0 <= k + 1 < n;
    }
  }

  /** Backward moves to the preceding tab and wraps from the first to the last. */
  lemma {:induction false} BackwardIsCyclic(es: EditorState, ctrl: bool, k: nat)
    requires k < |es.openTabs| && es.activeTabId == Some(es.openTabs[k].id) && TabIdsUnique(es.openTabs)
    ensures HandleKeyDown(es, Backward(ctrl)) ==
            Activate(es.openTabs[if k == 0 then |es.openTabs| - 1 else k - 1].id)
  {
    CurrentIndexOf(es.openTabs, k);
  }

  /** Backward undoes forward: activating the next tab and then pressing the backward
      shortcut comes back to the tab that was active. */
  lemma {:induction false} BackwardUndoesForward(es: EditorState, ctrl: bool)
    requires TabsValid(es) && es.openTabs != []
    ensures var fwd := HandleKeyDown(es, Forward(ctrl));
            fwd.Activate? &&
            HandleKeyDown(SetActiveTab(es, fwd.tabId), Backward(ctrl)) == Activate(es.activeTabId.value)
  {
    var tabs := es.openTabs;
    var k :| 0 <= k < |tabs| && tabs[k].id == es.activeTabId.value;
    ForwardIsCyclic(es, ctrl, k);
    var next := if k == |tabs| - 1 then 0 else k + 1;
    var es2 := SetActiveTab(es, tabs[next].id);
    assert es2.openTabs == tabs && es2.activeTabId == Some(tabs[next].id);
    BackwardIsCyclic(es2, ctrl, next);
  }

  /** Without an active tab among the open ones, forward goes to the first tab, while
      backward computes index -2 and fails. */
  lemma {:induction false} BackwardWithoutActiveCrashes(es: EditorState, ctrl: bool)
    requires es.openTabs != [] && (es.activeTabId.None? || !HasTab(es.openTabs, es.activeTabId.value))
    ensures HandleKeyDown(es, Backward(ctrl)) == Crash
    ensures HandleKeyDown(es, Forward(ctrl)) == Activate(es.openTabs[0].id)
  {
    assert CurrentIndex(es.openTabs, es.activeTabId) == -1;
  }

  /** Ctrl/Cmd+W closes the active tab, and only when the active id is set (and not empty). */
  lemma {:induction false} CloseNeedsActive(es: EditorState, ev: KeyEvent)
    ensures HandleKeyDown(es, ev).Close? <==>
            es.openTabs != [] && (ev.ctrlKey || ev.metaKey) && !ev.shiftKey && ev.key == "w" &&
            es.activeTabId.Some? && es.activeTabId.value != ""
    ensures HandleKeyDown(es, ev).Close? ==> HandleKeyDown(es, ev).tabId == es.activeTabId.value
  {
  }

  /** Cmd+[ and Cmd+] act only with Shift held: without it the first branch takes the event
      and ignores every key but Tab and w. */
  lemma {:induction false} BracketsNeedShift(es: EditorState, ev: KeyEvent)
    requires ev.key == "[" || ev.key == "]"
    ensures HandleKeyDown(es, ev) != NoAction ==> ev.metaKey && ev.shiftKey
    ensures es.openTabs != [] && ev.metaKey && ev.shiftKey ==>
            HandleKeyDown(es, ev) ==
            ActivateAt(es.openTabs, if ev.key == "[" then PrevIndex(CurrentIndex(es.openTabs, es.activeTabId), |es.openTabs|)
                                    else NextIndex(CurrentIndex(es.openTabs, es.activeTabId), |es.openTabs|))
  {
  }

  /** Under the tab invariant the handler never fails, and whatever it activates or closes is
      an open tab, so dispatching its outcome keeps the invariant. */
  lemma {:induction false} KeyDownKeepsValid(es: EditorState, ev: KeyEvent)
    requires TabsValid(es)
    ensures var out := HandleKeyDown(es, ev);
            out != Crash &&
            (out.Activate? ==> HasTab(es.openTabs, out.tabId) && TabsValid(SetActiveTab(es, out.tabId))) &&
            (out.Close? ==> HasTab(es.openTabs, out.tabId) && TabsValid(RemoveTab(es, out.tabId)))
  {
    var out := HandleKeyDown(es, ev);
    if es.openTabs != [] {
      var k :| 0 <= k < |es.openTabs| && es.openTabs[k].id == es.activeTabId.value;
      CurrentIndexOf(es.openTabs, k);
    }
    if out.Activate? {
      var i :| 0 <= i < |es.openTabs| && es.openTabs[i].id == out.tabId;
      SetActiveKeepsValid(es, out.tabId);
    }
    if out.Close? {
      RemoveTabKeepsValid(es, out.tabId);
    }
  }
}
