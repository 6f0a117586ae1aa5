/** The rules of src/components/layout/JournalSidebar.tsx that decide something: the display
    order of a folder's children, the collection of expanded folder ids and the handler that
    turns a change of that set into one toggle, which drops become moves, the width clamp of
    the resize handle and the validation of the name dialog. */
module JournalSidebar {
  import opened JournalTypes
  import opened JournalTree

  // ------------------------------------------------------------------ display sort

  /** `localeCompare` taken as an abstract order on names: `le(a, b)` when
      `a.localeCompare(b) <= 0`. It is assumed total and transitive. */
  ghost predicate NameOrder(le: (string, string) -> bool)
  {
    (forall a, b :: le(a, b) || le(b, a)) &&
    (forall a, b, c :: le(a, b) && le(b, c) ==> le(a, c))
  }

  /** The comparator of renderTreeItems, read as "a may come before b": a folder before an
      entry, and two items of the same type by name. */
  predicate DisplayBefore(a: Item, b: Item, le: (string, string) -> bool)
  {
    (a.Folder? && b.Entry?) || (a.Folder? == b.Folder? && le(a.name, b.name))
  }

  /** Every item may come before every later one. */
  predicate DisplaySorted(s: seq<Item>, le: (string, string) -> bool)
  {
    forall i, j :: 0 <= i < j < |s| ==> DisplayBefore(s[i], s[j], le)
  }

  /** Places `x` before the first item it may precede. */
  function InsertSorted(x: Item, s: seq<Item>, le: (string, string) -> bool): (r: seq<Item>)
    ensures multiset(r) == multiset(s) + multiset{x}
  {
    if s == [] then [x]
    else if DisplayBefore(x, s[0], le) then [x] + s
    else
      assert s == [s[0]] + s[1..];
      [s[0]] + InsertSorted(x, s[1..], le)
  }

  /** `[...items].sort(comparator)`: a sorted copy; the stored children are not touched. */
  function SortForDisplay(items: seq<Item>, le: (string, string) -> bool): (r: seq<Item>)
    ensures multiset(r) == multiset(items)
    ensures |r| == |items|
  {
    if items == [] then []
    else
      assert items == [items[0]] + items[1..];
      InsertSorted(items[0], SortForDisplay(items[1..], le), le)
  }

  lemma {:induction false} DisplayTotal(a: Item, b: Item, le: (string, string) -> bool)
    requires NameOrder(le)
    ensures DisplayBefore(a, b, le) || DisplayBefore(b, a, le)
  {
    assert le(a.name, b.name) || le(b.name, a.name);
  }

  lemma {:induction false} DisplayTransitive(a: Item, b: Item, c: Item, le: (string, string) -> bool)
    requires NameOrder(le) && DisplayBefore(a, b, le) && DisplayBefore(b, c, le)
    ensures DisplayBefore(a, c, le)
  {
    if a.Folder? == b.Folder? && b.Folder? == c.Folder? {
      assert le(a.name, b.name) && le(b.name, c.name);
    }
  }

  lemma {:induction false} InsertSortedKeepsOrder(x: Item, s: seq<Item>, le: (string, string) -> bool)
    requires NameOrder(le) && DisplaySorted(s, le)
    ensures DisplaySorted(InsertSorted(x, s, le), le)
  {
    if s != [] && !DisplayBefore(x, s[0], le) {
      DisplayTotal(x, s[0], le);
      InsertSortedKeepsOrder(x, s[1..], le);
      var tail := InsertSorted(x, s[1..], le);
      var r := [s[0]] + tail;
      forall j | 0 < j < |r|
        ensures DisplayBefore(s[0], r[j], le)
      {
        assert r[j] in multiset(tail);
        assert r[j] in multiset(s[1..]) + multiset{x};
        if r[j] != x {
          assert r[j] in s[1..];
        }
      }
    } else if s != [] {
      forall j | 0 < j < |s|
        ensures DisplayBefore(x, s[j], le)
      {
        DisplayTransitive(x, s[0], s[j], le);
      }
    }
  }

  /** The display order is a permutation in which folders come first and items of one type
      follow the name order. */
  lemma {:induction false} SortForDisplayOrders(items: seq<Item>, le: (string, string) -> bool)
    requires NameOrder(le)
    ensures var r := SortForDisplay(items, le);
            multiset(r) == multiset(items) &&
            (forall i, j :: 0 <= i < j < |r| ==> !(r[i].Entry? && r[j].Folder?)) &&
            (forall i, j :: 0 <= i < j < |r| && r[i].Folder? == r[j].Folder? ==> le(r[i].name, r[j].name))
  {
    SortedForDisplay(items, le);
  }

  lemma {:induction false} SortedForDisplay(items: seq<Item>, le: (string, string) -> bool)
    requires NameOrder(le)
    ensures DisplaySorted(SortForDisplay(items, le), le)
  {
    if items != [] {
      SortedForDisplay(items[1..], le);
      InsertSortedKeepsOrder(items[0], SortForDisplay(items[1..], le), le);
    }
  }

  // ------------------------------------------------------------------ getExpandedItems

  /** The ids of the expanded folders of a node list, in its order. */
  function ExpandedOf(nodes: seq<Item>): (r: seq<string>)
    ensures |r| <= |nodes|
  {
    if nodes == [] then []
    else (if IsExpanded(nodes[0]) then [nodes[0].id] else []) + ExpandedOf(nodes[1..])
  }

  /** The ids of every expanded folder of the forest, at any depth, in pre-order. */
  function ExpandedIds(items: seq<Item>): (r: seq<string>)
    ensures |r| <= |PreOrder(items)|
  {
    ExpandedOf(PreOrder(items))
  }

  /** The part one node contributes itself. */
  function OwnExpanded(x: Item): seq<string>
  {
    if IsExpanded(x) then [x.id] else []
  }

  /** traverseItems: walks the list, pushing the id of each expanded folder and then walking
      its children, whether the folder is expanded or not; `acc` is the shared array. */
  method Traverse(items: seq<Item>, acc: seq<string>) returns (expanded: seq<string>)
    ensures expanded == acc + ExpandedIds(items)
    decreases items
  {
    expanded := acc;
    var i := 0;
    while i < |items|
      invariant 0 <= i <= |items|
      invariant expanded == acc + ExpandedIds(items[..i])
    {
      var item := items[i];
      ghost var before := expanded;
      ExpandedPrefix(items, i);
      if item.Folder? {
        if item.expanded == Some(true) {
          expanded := expanded + [item.id];
        }
        assert expanded == before + OwnExpanded(item);
        expanded := Traverse(item.children, expanded);
        assert expanded == acc + (ExpandedIds(items[..i]) + OwnExpanded(item) + ExpandedIds(item.children));
      } else {
        assert OwnExpanded(item) == [];
      }
      i := i + 1;
    }
    assert items[..i] == items;
  }

  /** The walk over the first i + 1 nodes is the walk over the first i, then the node, then
      its children. */
  lemma ExpandedPrefix(items: seq<Item>, i: nat)
    requires i < |items|
    ensures ExpandedIds(items[..i + 1]) ==
            ExpandedIds(items[..i]) + OwnExpanded(items[i]) +
            (if items[i].Folder? then ExpandedIds(items[i].children) else [])
  {
    var item := items[i];
    ExpandedIdsCons(item, []);
    assert [item] + [] == [item];
    PreOrderConcat(items[..i], [item]);
    ExpandedOfConcat(PreOrder(items[..i]), PreOrder([item]));
    assert items[..i + 1] == items[..i] + [item];
  }

  /** getExpandedItems. */
  method GetExpandedItems(items: seq<Item>) returns (expanded: seq<string>)
    ensures expanded == ExpandedIds(items)
  {
    expanded := Traverse(items, []);
  }

  lemma {:induction false} ExpandedOfConcat(a: seq<Item>, b: seq<Item>)
    ensures ExpandedOf(a + b) == ExpandedOf(a) + ExpandedOf(b)
  {
    if a == [] {
      assert a + b == b;
    } else {
      var h := if IsExpanded(a[0]) then [a[0].id] else [];
      assert ExpandedOf(a + b) == h + ExpandedOf(a[1..] + b) by {
        assert (a + b)[0] == a[0];
        assert (a + b)[1..] == a[1..] + b;
      }
      ExpandedOfConcat(a[1..], b);
      assert h + (ExpandedOf(a[1..]) + ExpandedOf(b)) == (h + ExpandedOf(a[1..])) + ExpandedOf(b);
    }
  }

  lemma {:induction false} PreOrderConcat(a: seq<Item>, b: seq<Item>)
    ensures PreOrder(a + b) == PreOrder(a) + PreOrder(b)
  {
    if a == [] {
      assert a + b == b;
    } else {
      assert (a + b)[0] == a[0];
      assert (a + b)[1..] == a[1..] + b;
      PreOrderConcat(a[1..], b);
    }
  }

  /** A node contributes its own id when it is an expanded folder, and then, expanded or
      not, the expanded folders below it: a folder inside a collapsed folder is collected. */
  lemma {:induction false} ExpandedIdsCons(x: Item, rest: seq<Item>)
    ensures ExpandedIds([x] + rest) ==
            OwnExpanded(x) + (if x.Folder? then ExpandedIds(x.children) else []) + ExpandedIds(rest)
  {
    var sub := if x.Folder? then PreOrder(x.children) else [];
    assert ([x] + rest)[0] == x && ([x] + rest)[1..] == rest;
    assert PreOrder([x] + rest) == [x] + sub + PreOrder(rest);
    ExpandedOfConcat([x] + sub, PreOrder(rest));
    ExpandedOfConcat([x], sub);
    assert ExpandedOf([x]) == OwnExpanded(x);
  }

  /** Exactly the expanded folders are collected, never an entry. */
  lemma {:induction false} ExpandedIdsMember(items: seq<Item>, z: string)
    ensures z in ExpandedIds(items) <==> exists n :: n in PreOrder(items) && IsExpanded(n) && n.id == z
  {
    ExpandedOfMember(PreOrder(items), z);
  }

  lemma {:induction false} ExpandedOfMember(nodes: seq<Item>, z: string)
    ensures z in ExpandedOf(nodes) <==> exists n :: n in nodes && IsExpanded(n) && n.id == z
  {
    if nodes != [] {
      ExpandedOfMember(nodes[1..], z);
      assert nodes == [nodes[0]] + nodes[1..];
      if exists n :: n in nodes && IsExpanded(n) && n.id == z {
        var n :| n in nodes && IsExpanded(n) && n.id == z;
        if n != nodes[0] {
          assert n in nodes[1..];
        }
      }
    }
  }

  lemma {:induction false} ExpandedInIdList(items: seq<Item>)
    ensures forall z :: z in ExpandedIds(items) ==> z in IdList(items)
  {
    if items != [] {
      var x := items[0];
      assert items == [x] + items[1..];
      ExpandedIdsCons(x, items[1..]);
      if x.Folder? { ExpandedInIdList(x.children); }
      ExpandedInIdList(items[1..]);
    }
  }

  lemma {:induction false} ToggleAbsent(items: seq<Item>, folderId: string)
    requires folderId !in IdList(items)
    ensures ToggleExpanded(items, folderId) == items
  {
    if items != [] {
      if items[0].Folder? { ToggleAbsent(items[0].children, folderId); }
      ToggleAbsent(items[1..], folderId);
    }
  }

  /** TOGGLE_FOLDER_EXPANDED changes no other folder's membership in the expanded set. */
  lemma {:induction false} ToggleKeepsOthers(items: seq<Item>, folderId: string)
    ensures Without(ExpandedIds(ToggleExpanded(items, folderId)), [folderId]) ==
            Without(ExpandedIds(items), [folderId])
  {
    if items != [] {
      var x := items[0];
      var rest := items[1..];
      var t := ToggleNode(x, folderId);
      assert items == [x] + rest;
      assert ToggleExpanded(items, folderId) == [t] + ToggleExpanded(rest, folderId);
      ExpandedIdsCons(x, rest);
      ExpandedIdsCons(t, ToggleExpanded(rest, folderId));
      var bx := if x.Folder? then ExpandedIds(x.children) else [];
      var bt := if t.Folder? then ExpandedIds(t.children) else [];
      ToggleKeepsOthers(rest, folderId);
      if x.Folder? && x.id != folderId {
        ToggleKeepsOthers(x.children, folderId);
      }
      assert Without(bt, [folderId]) == Without(bx, [folderId]);
      assert Without(OwnExpanded(t), [folderId]) == Without(OwnExpanded(x), [folderId]);
      WithoutConcat(OwnExpanded(x) + bx, ExpandedIds(rest), [folderId]);
      WithoutConcat(OwnExpanded(x), bx, [folderId]);
      WithoutConcat(OwnExpanded(t) + bt, ExpandedIds(ToggleExpanded(rest, folderId)), [folderId]);
      WithoutConcat(OwnExpanded(t), bt, [folderId]);
    }
  }

  /** With unique ids, the toggled folder is in the expanded set afterwards exactly when it is
      a folder that was collapsed. */
  lemma {:induction false} ToggleFlipsTarget(items: seq<Item>, folderId: string)
    requires UniqueIds(items)
    ensures var found := FindItemById(items, folderId);
            folderId in ExpandedIds(ToggleExpanded(items, folderId)) <==>
            found.Some? && found.value.Folder? && !IsExpanded(found.value)
  {
    if items != [] {
      var x := items[0];
      var rest := items[1..];
      var t := ToggleNode(x, folderId);
      UniqueSplit(items);
      assert items == [x] + rest;
      assert ToggleExpanded(items, folderId) == [t] + ToggleExpanded(rest, folderId);
      ExpandedIdsCons(t, ToggleExpanded(rest, folderId));
      if x.id == folderId {
        ToggleAbsent(rest, folderId);
        ExpandedInIdList(rest);
        if x.Folder? { ExpandedInIdList(x.children); }
      } else if x.Folder? && folderId in IdList(x.children) {
        ToggleAbsent(rest, folderId);
        ExpandedInIdList(rest);
        ToggleFlipsTarget(x.children, folderId);
      } else {
        if x.Folder? {
          ToggleAbsent(x.children, folderId);
          ExpandedInIdList(x.children);
        }
        ToggleFlipsTarget(rest, folderId);
      }
    }
  }

  /** The ids that went from one expanded set to the other: onExpandedItemsChange. */
  function ExpansionToggle(current: seq<string>, next: seq<string>): (r: Option<string>)
    ensures r.Some? ==> (r.value in next && r.value !in current) || (r.value in current && r.value !in next)
    ensures (exists z :: z in next && z !in current) ==> r.Some? && r.value in next && r.value !in current
    ensures r.None? <==> forall z :: z in current <==> z in next
    // an added id is the first of `next` missing from `current`
    ensures r.Some? && r.value !in current ==>
              exists k :: 0 <= k < |next| && next[k] == r.value && forall j :: 0 <= j < k ==> next[j] in current
    // a removed id is the first of `current` missing from `next`, and only when nothing was added
    ensures r.Some? && r.value in current ==>
              (forall z :: z in next ==> z in current) &&
              exists k :: 0 <= k < |current| && current[k] == r.value && forall j :: 0 <= j < k ==> current[j] in next
  {
    var added := Without(next, current);
    var removed := Without(current, next);
    if added != [] then
      WithoutMember(next, current, added[0]);
      WithoutFirst(next, current);
      Some(added[0])
    else if removed != [] then
      WithoutMember(current, next, removed[0]);
      WithoutFirst(current, next);
      forall z ensures z in next ==> z in current { WithoutMember(next, current, z); }
      Some(removed[0])
    else
      forall z ensures z in next <==> z in current {
        WithoutMember(next, current, z);
        WithoutMember(current, next, z);
      }
      None
  }

  /** A found node is in the expanded set exactly when it is an expanded folder. */
  lemma {:induction false} FoundExpanded(items: seq<Item>, id: string)
    requires UniqueIds(items) && FindItemById(items, id).Some?
    ensures id in ExpandedIds(items) <==> IsExpanded(FindItemById(items, id).value)
  {
    if IsExpanded(FindItemById(items, id).value) {
      FindInPreOrder(items, id);
      ExpandedIdsMember(items, id);
    }
    if id in ExpandedIds(items) {
      ExpandedOnlyFound(items, id);
    }
  }

  lemma {:induction false} ExpandedOnlyFound(items: seq<Item>, id: string)
    requires UniqueIds(items) && FindItemById(items, id).Some? && id in ExpandedIds(items)
    ensures IsExpanded(FindItemById(items, id).value)
  {
    ExpandedIdsMember(items, id);
    var n :| n in PreOrder(items) && IsExpanded(n) && n.id == id;
    FindIsFirstInPreOrder(items, id);
    FindInPreOrder(items, id);
    PreOrderUnique(items, n, FindItemById(items, id).value);
  }

  /** Toggling a folder leaves the membership of every other id in the expanded set alone. */
  lemma {:induction false} ToggleOthersAgree(items: seq<Item>, folderId: string, z: string)
    requires z != folderId
    ensures z in ExpandedIds(ToggleExpanded(items, folderId)) <==> z in ExpandedIds(items)
  {
    ToggleKeepsOthers(items, folderId);
    WithoutMember(ExpandedIds(ToggleExpanded(items, folderId)), [folderId], z);
    WithoutMember(ExpandedIds(items), [folderId], z);
  }

  /** When the tree view reports the expanded set that toggling one folder produces, the
      handler toggles that folder and no other. */
  lemma {:induction false} ExpansionToggleFindsFolder(items: seq<Item>, folderId: string)
    requires UniqueIds(items) && FindItemById(items, folderId).Some? && FindItemById(items, folderId).value.Folder?
    ensures ExpansionToggle(ExpandedIds(items), ExpandedIds(ToggleExpanded(items, folderId))) == Some(folderId)
  {
    var before := ExpandedIds(items);
    var after := ExpandedIds(ToggleExpanded(items, folderId));
    var wasOpen := IsExpanded(FindItemById(items, folderId).value);
    ToggleFlipsTarget(items, folderId);
    FoundExpanded(items, folderId);
    assert folderId in after <==> !wasOpen;
    assert folderId in before <==> wasOpen;
    var added := Without(after, before);
    var removed := Without(before, after);
    forall z ensures z in added <==> z == folderId && !wasOpen {
      WithoutMember(after, before, z);
      if z != folderId { ToggleOthersAgree(items, folderId, z); }
    }
    forall z ensures z in removed <==> z == folderId && wasOpen {
      WithoutMember(before, after, z);
      if z != folderId { ToggleOthersAgree(items, folderId, z); }
    }
    if !wasOpen {
      assert added[0] in added;
    } else {
      forall z | z in after ensures z in before {
        if z != folderId { ToggleOthersAgree(items, folderId, z); }
      }
      WithoutCovered(after, before);
      assert removed[0] in removed;
    }
  }

  /** The node findItemById returns is in the pre-order listing. */
  lemma {:induction false} FindInPreOrder(items: seq<Item>, id: string)
    requires FindItemById(items, id).Some?
    ensures FindItemById(items, id).value in PreOrder(items)
  {
    FindIsFirstInPreOrder(items, id);
    FirstWithIdIn(PreOrder(items), id);
  }

  lemma {:induction false} FirstWithIdIn(nodes: seq<Item>, id: string)
    requires FirstWithId(nodes, id).Some?
    ensures FirstWithId(nodes, id).value in nodes && FirstWithId(nodes, id).value.id == id
  {
    if nodes[0].id != id {
      FirstWithIdIn(nodes[1..], id);
    }
  }

  /** With unique ids, two nodes of the pre-order listing with the same id are the same node. */
  lemma {:induction false} PreOrderUnique(items: seq<Item>, n: Item, m: Item)
    requires UniqueIds(items) && n in PreOrder(items) && m in PreOrder(items) && n.id == m.id
    requires FirstWithId(PreOrder(items), n.id) == Some(m)
    ensures n == m
  {
    PreOrderIds(items);
    var p := PreOrder(items);
    var i :| 0 <= i < |p| && p[i] == n;
    FirstWithIdIndex(p, n.id);
    var k :| 0 <= k < |p| && p[k] == m && forall l :: 0 <= l < k ==> p[l].id != n.id;
    if i != k {
      assert i > k;
      CountTwo(IdsOf(p), k, i);
    }
  }

  /** The ids of a node list. */
  function IdsOf(nodes: seq<Item>): (r: seq<string>)
    ensures |r| == |nodes| && forall i :: 0 <= i < |nodes| ==> r[i] == nodes[i].id
  {
    if nodes == [] then [] else [nodes[0].id] + IdsOf(nodes[1..])
  }

  lemma {:induction false} PreOrderIds(items: seq<Item>)
    ensures IdsOf(PreOrder(items)) == IdList(items)
  {
    if items != [] {
      var x := items[0];
      var sub := if x.Folder? then PreOrder(x.children) else [];
      if x.Folder? { PreOrderIds(x.children); }
      PreOrderIds(items[1..]);
      IdsOfConcat([x] + sub, PreOrder(items[1..]));
      IdsOfConcat([x], sub);
    }
  }

  lemma {:induction false} IdsOfConcat(a: seq<Item>, b: seq<Item>)
    ensures IdsOf(a + b) == IdsOf(a) + IdsOf(b)
  {
    var l := IdsOf(a + b);
    var r := IdsOf(a) + IdsOf(b);
    forall i | 0 <= i < |l|
      ensures l[i] == r[i]
    {
      if i < |a| {
        assert (a + b)[i] == a[i];
      } else {
        assert (a + b)[i] == b[i - |a|];
      }
    }
  }

  lemma {:induction false} FirstWithIdIndex(nodes: seq<Item>, id: string)
    requires FirstWithId(nodes, id).Some?
    ensures exists k :: 0 <= k < |nodes| && nodes[k] == FirstWithId(nodes, id).value &&
                        forall l :: 0 <= l < k ==> nodes[l].id != id
  {
    if nodes[0].id != id {
      FirstWithIdIndex(nodes[1..], id);
      var k :| 0 <= k < |nodes[1..]| && nodes[1..][k] == FirstWithId(nodes, id).value &&
               forall l :: 0 <= l < k ==> nodes[1..][l].id != id;
      assert nodes[k + 1] == FirstWithId(nodes, id).value;
      assert forall l :: 0 <= l < k + 1 ==> nodes[l].id != id by {
        forall l | 0 <= l < k + 1 ensures nodes[l].id != id {
          if l > 0 { assert nodes[l] == nodes[1..][l - 1]; }
        }
      }
    } else {
      assert nodes[0] == FirstWithId(nodes, id).value;
    }
  }

  /** A value at two positions of a sequence occurs at least twice in it. */
  lemma {:induction false} CountTwo(s: seq<string>, k: nat, i: nat)
    requires k < i < |s| && s[k] == s[i]
    ensures multiset(s)[s[k]] >= 2
  {
    assert s == s[..k] + [s[k]] + s[k + 1..i] + [s[i]] + s[i + 1..];
  }

  // ------------------------------------------------------------------ drag and drop

  /** A moveItem call the sidebar makes; the index is always left out. */
  datatype MoveCall = MoveCall(itemId: string, newParentId: string)

  /** handleDrop on an item: only a dragged item other than the target, dropped on an item
      that resolves to a folder of the open document, is moved there. */
  function DropOnItem(dragged: Option<string>, targetId: string, tree: Option<seq<Item>>): (r: Option<MoveCall>)
    ensures r.Some? <==>
              dragged.Some? && dragged.value != targetId && tree.Some? &&
              FindItemById(tree.value, targetId).Some? && FindItemById(tree.value, targetId).value.Folder?
    ensures r.Some? ==> r.value == MoveCall(dragged.value, targetId)
  {
    if dragged.Some? && dragged.value != targetId then
      if tree.Some? && FindItemById(tree.value, targetId).Some? && FindItemById(tree.value, targetId).value.Folder? then
        Some(MoveCall(dragged.value, targetId))
      else None
    else None
  }

  /** The drop on the tree background moves to the root, unless the dragged id is 'root'. */
  function DropOnBackground(dragged: Option<string>): (r: Option<MoveCall>)
    ensures r.Some? <==> dragged.Some? && dragged.value != RootId
    ensures r.Some? ==> r.value == MoveCall(dragged.value, RootId)
  {
    if dragged.Some? && dragged.value != RootId then Some(MoveCall(dragged.value, RootId)) else None
  }

  /** The guards keep moveItem away from the case where it loses the node: a move the item
      drop asks for is either refused (a folder dropped into its own subtree) or keeps the
      dragged node, unchanged, with all ids. */
  lemma {:induction false} DropOnItemNeverLosesNode(dragged: Option<string>, targetId: string, items: seq<Item>, index: Option<int>)
    requires UniqueIds(items) && DropOnItem(dragged, targetId, Some(items)).Some?
    requires FindItemById(items, dragged.value).Some?
    ensures var moved := JournalTree.MoveItem(items, dragged.value, targetId, index);
            moved.None? ||
            (FindItemById(moved.value, dragged.value) == FindItemById(items, dragged.value) &&
             multiset(IdList(moved.value)) == multiset(IdList(items)))
  {
    var d := dragged.value;
    var node := FindItemById(items, d).value;
    if !(node.Folder? && targetId in SubtreeIds(node) && targetId != RootId) {
      MoveKeepsNode(items, d, targetId, index);
    }
  }

  /** A background drop of an item of the document keeps it, at the end of the top level. */
  lemma {:induction false} DropOnBackgroundKeepsNode(dragged: Option<string>, items: seq<Item>)
    requires UniqueIds(items) && DropOnBackground(dragged).Some? && FindItemById(items, dragged.value).Some?
    ensures var moved := JournalTree.MoveItem(items, dragged.value, RootId, None);
            moved == Some(ExtractItem(items, dragged.value).newItems + [FindItemById(items, dragged.value).value])
  {
    MoveKeepsNode(items, dragged.value, RootId, None);
  }

  // ------------------------------------------------------------------ resize handle

  const SidebarMinWidth: int := 200
  const SidebarMaxWidth: int := 600

  /** `Math.min(Math.max(x, 200), 600)`. */
  function ClampWidth(x: int): (r: int)
    ensures SidebarMinWidth <= r <= SidebarMaxWidth
    ensures SidebarMinWidth <= x <= SidebarMaxWidth ==> r == x
    ensures x < SidebarMinWidth ==> r == SidebarMinWidth
    ensures x > SidebarMaxWidth ==> r == SidebarMaxWidth
  {
    var lower := if x > SidebarMinWidth then x else SidebarMinWidth;
    if lower < SidebarMaxWidth then lower else SidebarMaxWidth
  }

  /** handleMouseMove: while resizing, the new width for the pointer position. */
  function MouseMoveWidth(isResizing: bool, clientX: int): (r: Option<int>)
    ensures r.Some? <==> isResizing
    ensures r.Some? ==> SidebarMinWidth <= r.value <= SidebarMaxWidth
  {
    if isResizing then Some(ClampWidth(clientX)) else None
  }

  /** Clamping is idempotent: a width already produced is kept. */
  lemma {:induction false} ClampIdempotent(x: int)
    ensures ClampWidth(ClampWidth(x)) == ClampWidth(x)
  {
  }

  // ------------------------------------------------------------------ name dialog

  /** The characters `String.prototype.trim` removes that the model recognises: the ASCII
      white space and line terminators, no-break space, the byte order mark and the
      Unicode line and paragraph separators. */
  predicate IsWhiteSpace(c: char)
  {
    c == ' ' || c == '\t' || c == '\n' || c == '\r' || c == '\U{B}' || c == '\U{C}' ||
    c == '\U{A0}' || c == '\U{FEFF}' || c == '\U{2028}' || c == '\U{2029}'
  }

  function TrimStart(s: string): (r: string)
    ensures |r| <= |s| && r == s[|s| - |r|..]
    ensures r == [] || !IsWhiteSpace(r[0])
    ensures forall i :: 0 <= i < |s| - |r| ==> IsWhiteSpace(s[i])
  {
    if s != [] && IsWhiteSpace(s[0]) then
      var r := TrimStart(s[1..]);
      assert s[1..][|s[1..]| - |r|..] == s[|s| - |r|..];
      r
    else s
  }

  function TrimEnd(s: string): (r: string)
    ensures |r| <= |s| && r == s[..|r|]
    ensures r == [] || !IsWhiteSpace(r[|r| - 1])
    ensures forall i :: |r| <= i < |s| ==> IsWhiteSpace(s[i])
  {
    if s != [] && IsWhiteSpace(s[|s| - 1]) then
      var r := TrimEnd(s[..|s| - 1]);
      assert s[..|s| - 1][..|r|] == s[..|r|];
      r
    else s
  }

  /** `String.prototype.trim`. */
  function Trim(s: string): (r: string)
    ensures |r| <= |s|
    ensures r != [] ==> !IsWhiteSpace(r[0]) && !IsWhiteSpace(r[|r| - 1])
  {
    TrimEnd(TrimStart(s))
  }

  /** The trimmed name is the input without its leading and trailing white space: a slice of
      it, with no white space at either end; it is empty exactly when the input is blank. */
  lemma {:induction false} TrimProperties(s: string)
    ensures var r := Trim(s);
            (exists i, j :: 0 <= i <= j <= |s| && r == s[i..j] &&
                            (forall k :: 0 <= k < i ==> IsWhiteSpace(s[k])) &&
                            (forall k :: j <= k < |s| ==> IsWhiteSpace(s[k]))) &&
            (r != [] ==> !IsWhiteSpace(r[0]) && !IsWhiteSpace(r[|r| - 1])) &&
            (r == [] <==> forall k :: 0 <= k < |s| ==> IsWhiteSpace(s[k]))
  {
    var i, j := TrimSlice(s);
    TrimBlank(s, i, j);
  }

  /** Where the trimmed name sits in the input. */
  lemma {:induction false} TrimSlice(s: string) returns (i: nat, j: nat)
    ensures i <= j <= |s| && Trim(s) == s[i..j]
    ensures forall k :: 0 <= k < i ==> IsWhiteSpace(s[k])
    ensures forall k :: j <= k < |s| ==> IsWhiteSpace(s[k])
  {
    var a := TrimStart(s);
    i := |s| - |a|;
    j := TrimEndSlice(s, a, i);
  }

  lemma {:induction false} TrimEndSlice(s: string, a: string, i: nat) returns (j: nat)
    requires i <= |s| && a == s[i..]
    ensures i <= j <= |s| && TrimEnd(a) == s[i..j]
    ensures forall k :: j <= k < |s| ==> IsWhiteSpace(s[k])
  {
    var r := TrimEnd(a);
    j := i + |r|;
    assert r == a[..|r|];
    WhiteTail(s, a, i, |r|);
  }

  lemma {:induction false} WhiteTail(s: string, a: string, i: nat, n: nat)
    requires i <= |s| && a == s[i..]
    requires forall t :: n <= t < |a| ==> IsWhiteSpace(a[t])
    ensures forall k :: i + n <= k < |s| ==> IsWhiteSpace(s[k])
  {
    forall k | i + n <= k < |s| ensures IsWhiteSpace(s[k]) {
      assert s[k] == a[k - i];
    }
  }

  lemma {:induction false} TrimBlank(s: string, i: nat, j: nat)
    requires i <= j <= |s| && Trim(s) == s[i..j]
    requires forall k :: 0 <= k < i ==> IsWhiteSpace(s[k])
    requires forall k :: j <= k < |s| ==> IsWhiteSpace(s[k])
    ensures Trim(s) == [] <==> forall k :: 0 <= k < |s| ==> IsWhiteSpace(s[k])
  {
    if Trim(s) == [] {
      assert i == j;
    } else {
      assert !IsWhiteSpace(s[i]) by {
        assert Trim(s)[0] == s[i];
      }
    }
  }

  lemma {:induction false} TrimIdempotent(s: string)
    ensures Trim(Trim(s)) == Trim(s)
  {
    var r := Trim(s);
    if r != [] {
      assert TrimStart(r) == r;
      assert TrimEnd(r) == r;
    }
  }

  datatype DialogKind = RenameDialog | NewEntryDialog | NewFolderDialog | DeleteDialog | NoDialog

  /** The context action a name dialog submits. */
  datatype DialogCall =
    | RenameCall(itemId: string, newName: string)
    | AddEntryCall(parentId: Option<string>, name: string)
    | AddFolderCall(parentId: Option<string>, name: string)

  /** handleDialogSubmit: a blank input submits nothing; otherwise the trimmed name goes to
      the action of the dialog (rename only with an item; `parentId || undefined`). */
  function DialogSubmit(kind: DialogKind, itemId: Option<string>, parentId: Option<string>, input: string): (r: Option<DialogCall>)
    ensures Trim(input) == "" ==> r.None?
    ensures r.Some? ==> (match r.value
                         case RenameCall(_, n) => n
                         case AddEntryCall(_, n) => n
                         case AddFolderCall(_, n) => n) == Trim(input)
    ensures r.Some? <==> Trim(input) != "" &&
                         (kind.NewEntryDialog? || kind.NewFolderDialog? || (kind.RenameDialog? && itemId.Some?))
    ensures r.Some? && r.value.RenameCall? ==> itemId.Some? && r.value.itemId == itemId.value
    ensures r.Some? && !r.value.RenameCall? ==> r.value.parentId.None? || r.value.parentId.value != ""
  {
    var name := Trim(input);
    var parent := if OrElse(parentId, "") == "" then None else parentId;
    if name == "" then None
    else match kind
      case RenameDialog => if itemId.Some? then Some(RenameCall(itemId.value, name)) else None
      case NewEntryDialog => Some(AddEntryCall(parent, name))
      case NewFolderDialog => Some(AddFolderCall(parent, name))
      case DeleteDialog => None
      case NoDialog => None
  }

  /** A name from the dialog is never blank, so addEntry and addFolder keep it rather than
      falling back to "New Entry" or "New Folder". */
  lemma {:induction false} DialogNameIsKept(kind: DialogKind, itemId: Option<string>, parentId: Option<string>, input: string)
    requires DialogSubmit(kind, itemId, parentId, input).Some?
    ensures var c := DialogSubmit(kind, itemId, parentId, input).value;
            (c.AddEntryCall? || c.AddFolderCall?) ==> OrElse(Some(c.name), "New Entry") == Trim(input) &&
                                                       OrElse(Some(c.name), "New Folder") == Trim(input)
  {
  }
}
