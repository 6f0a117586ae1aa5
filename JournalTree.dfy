/** The tree store of src/context/JournalContext.tsx: lookup, update, removal, extraction,
    insertion and moving of journal items, as pure functions over the item forest
    (the `children` of the document root). */
module JournalTree {
  import opened JournalTypes

  /** The reserved id of the document root. */
  const RootId: string := "root"

  // ------------------------------------------------------------------ views

  /** Ids of a node and of its whole subtree, in depth-first pre-order. */
  function SubtreeIds(x: Item): seq<string>
  {
    [x.id] + (if x.Folder? then IdList(x.children) else [])
  }

  /** Ids of every node of a forest, in depth-first pre-order. */
  function IdList(items: seq<Item>): seq<string>
  {
    if items == [] then [] else SubtreeIds(items[0]) + IdList(items[1..])
  }

  /** Ids of the folders of a forest, in pre-order. */
  function FolderIds(items: seq<Item>): seq<string>
  {
    if items == [] then []
    else (if items[0].Folder? then [items[0].id] + FolderIds(items[0].children) else [])
         + FolderIds(items[1..])
  }

  /** Every node of a forest, in depth-first pre-order. */
  function PreOrder(items: seq<Item>): seq<Item>
  {
    if items == [] then []
    else [items[0]] + (if items[0].Folder? then PreOrder(items[0].children) else [])
         + PreOrder(items[1..])
  }

  /** The first node of a sequence carrying `id`. */
  function FirstWithId(nodes: seq<Item>, id: string): Option<Item>
  {
    if nodes == [] then None
    else if nodes[0].id == id then Some(nodes[0])
    else FirstWithId(nodes[1..], id)
  }

  /** No id occurs twice anywhere in the forest. */
  ghost predicate UniqueIds(items: seq<Item>)
  {
    forall k :: multiset(IdList(items))[k] <= 1
  }

  /** The ids of `s` that are not in `bad`, in their order. */
  function Without(s: seq<string>, bad: seq<string>): seq<string>
  {
    if s == [] then [] else (if s[0] in bad then [] else [s[0]]) + Without(s[1..], bad)
  }

  // ------------------------------------------------------------------ findItemById

  /** Depth-first search that checks a node before its children and stops at the first match. */
  function FindItemById(items: seq<Item>, id: string): (r: Option<Item>)
    ensures r.Some? <==> id in IdList(items)
    ensures r.Some? ==> r.value.id == id
  {
    if items == [] then None
    else if items[0].id == id then Some(items[0])
    else if items[0].Folder? && FindItemById(items[0].children, id).Some? then
      FindItemById(items[0].children, id)
    else FindItemById(items[1..], id)
  }

  // ------------------------------------------------------------------ updateItemInTree

  /** Applies `updater` to every node whose id matches, without descending into a matched
      node; every other folder is rebuilt with its children updated the same way. */
  function UpdateItemInTree(items: seq<Item>, itemId: string, updater: Item -> Item): (r: seq<Item>)
    ensures |r| == |items|
  {
    if items == [] then []
    else [UpdateNode(items[0], itemId, updater)] + UpdateItemInTree(items[1..], itemId, updater)
  }

  function UpdateNode(x: Item, itemId: string, updater: Item -> Item): Item
  {
    if x.id == itemId then updater(x)
    else if x.Folder? then x.(children := UpdateItemInTree(x.children, itemId, updater))
    else x
  }

  /** The updater changes only the node's own attributes: not its id, kind or children. */
  ghost predicate KeepsShape(updater: Item -> Item, itemId: string)
  {
    forall x: Item :: x.id == itemId ==>
      updater(x).id == x.id && updater(x).Folder? == x.Folder? &&
      (x.Folder? ==> updater(x).children == x.children)
  }

  // ------------------------------------------------------------------ removeItemFromTree

  /** Removes every node with the id, with its whole subtree, at any depth. */
  function RemoveItemFromTree(items: seq<Item>, itemId: string): (r: seq<Item>)
    ensures itemId !in IdList(r)
    ensures multiset(IdList(r)) <= multiset(IdList(items))
  {
    if items == [] then []
    else if items[0].id == itemId then RemoveItemFromTree(items[1..], itemId)
    else
      var rest := RemoveItemFromTree(items[1..], itemId);
      IdListCons(PruneChildren(items[0], itemId), rest);
      [PruneChildren(items[0], itemId)] + rest
  }

  /** A surviving node: a folder gets its children filtered (the in-place reassignment). */
  function PruneChildren(x: Item, itemId: string): (r: Item)
    ensures r.id == x.id && r.Folder? == x.Folder?
    ensures itemId != x.id ==> itemId !in SubtreeIds(r)
    ensures multiset(SubtreeIds(r)) <= multiset(SubtreeIds(x))
  {
    if x.Folder? then x.(children := RemoveItemFromTree(x.children, itemId)) else x
  }

  /** The top-level list that was passed to removeItemFromTree, as it reads afterwards:
      `filter` leaves the list itself alone, but every surviving folder had its `children`
      reassigned in place, while a matched node was dropped without being visited. */
  function SnapshotAfterRemove(items: seq<Item>, itemId: string): (r: seq<Item>)
    ensures |r| == |items|
  {
    if items == [] then []
    else [if items[0].id == itemId then items[0] else PruneChildren(items[0], itemId)]
         + SnapshotAfterRemove(items[1..], itemId)
  }

  /** The top-level `filter` by id alone. */
  function DropTopLevel(items: seq<Item>, itemId: string): (r: seq<Item>)
    ensures |r| <= |items|
  {
    if items == [] then []
    else (if items[0].id == itemId then [] else [items[0]]) + DropTopLevel(items[1..], itemId)
  }

  // ------------------------------------------------------------------ extractItem / insertItem

  datatype Extraction = Extraction(item: Option<Item>, newItems: seq<Item>)

  /** Removes the first node (depth-first pre-order) with the id and returns it; ancestors
      are rebuilt. When the id is absent the list comes back unchanged. */
  function ExtractItem(items: seq<Item>, targetId: string): (r: Extraction)
    ensures r.item == FindItemById(items, targetId)
    ensures r.item.None? ==> r.newItems == items
  {
    if items == [] then Extraction(None, items)
    else if items[0].id == targetId then Extraction(Some(items[0]), items[1..])
    else if items[0].Folder? && ExtractItem(items[0].children, targetId).item.Some? then
      var sub := ExtractItem(items[0].children, targetId);
      Extraction(sub.item, [items[0].(children := sub.newItems)] + items[1..])
    else
      var rest := ExtractItem(items[1..], targetId);
      assert rest.item.None? ==> [items[0]] + rest.newItems == items by {
        assert items == [items[0]] + items[1..];
      }
      Extraction(rest.item, [items[0]] + rest.newItems)
  }

  /** Where the first node with the id sits: the id of its parent (RootId at top level,
      given as `parentId`) and its index among that parent's children. */
  datatype Slot = Slot(parentId: string, index: nat)

  ghost function LocateItem(items: seq<Item>, targetId: string, parentId: string, offset: nat): (r: Option<Slot>)
    ensures r.Some? <==> targetId in IdList(items)
    ensures r.Some? ==> r.value.parentId == parentId || r.value.parentId in IdList(items)
  {
    if items == [] then None
    else if items[0].id == targetId then Some(Slot(parentId, offset))
    else if items[0].Folder? && LocateItem(items[0].children, targetId, items[0].id, 0).Some? then
      LocateItem(items[0].children, targetId, items[0].id, 0)
    else LocateItem(items[1..], targetId, parentId, offset + 1)
  }

  /** The index `slice` uses for `position` over a list of length n: a negative position
      counts from the end, a position past the end is the end, and no position means the end. */
  function SliceIndex(n: nat, position: Option<int>): (k: nat)
    ensures k <= n
    ensures position.Some? && 0 <= position.value <= n ==> k == position.value
    ensures position.None? || position.value >= n ==> k == n
  {
    if position.None? then n
    else if position.value < 0 then (if n + position.value < 0 then 0 else n + position.value)
    else if position.value > n then n
    else position.value
  }

  /** `[...items.slice(0, k), item, ...items.slice(k)]`. */
  function InsertAt(items: seq<Item>, position: Option<int>, item: Item): (r: seq<Item>)
    ensures |r| == |items| + 1
    ensures r[SliceIndex(|items|, position)] == item
    ensures r[..SliceIndex(|items|, position)] + r[SliceIndex(|items|, position) + 1..] == items
    ensures position.None? || position.value >= |items| ==> r == items + [item]
  {
    var k := SliceIndex(|items|, position);
    assert (items[..k] + [item] + items[k..])[k + 1..] == items[k..];
    assert items[..k] + items[k..] == items;
    items[..k] + [item] + items[k..]
  }

  /** insertItem: at top level for RootId, otherwise into every folder with that id
      (without descending into it); a matching entry is left alone. */
  function InsertItem(items: seq<Item>, parentId: string, item: Item, position: Option<int>): (r: seq<Item>)
    ensures |r| == if parentId == RootId then |items| + 1 else |items|
    decreases items, 1
  {
    if parentId == RootId then InsertAt(items, position, item)
    else MapInsert(items, parentId, item, position)
  }

  function MapInsert(items: seq<Item>, parentId: string, item: Item, position: Option<int>): (r: seq<Item>)
    ensures |r| == |items|
    decreases items, 0
  {
    if items == [] then []
    else [InsertUnder(items[0], parentId, item, position)] + MapInsert(items[1..], parentId, item, position)
  }

  function InsertUnder(x: Item, parentId: string, item: Item, position: Option<int>): Item
    decreases x, 2
  {
    if x.id == parentId && x.Folder? then x.(children := InsertAt(x.children, position, item))
    else if x.Folder? then x.(children := InsertItem(x.children, parentId, item, position))
    else x
  }

  /** The updater insertItem applies to the matching folder. */
  function InsertUpdater(item: Item, position: Option<int>): Item -> Item
  {
    (x: Item) => if x.Folder? then x.(children := InsertAt(x.children, position, item)) else x
  }

  // ------------------------------------------------------------------ isDescendant / moveItem

  /** The cycle check of moveItem, run on the extracted node: is `potentialParentId` the
      node itself, a child of it, or (through a child folder) further below? */
  function IsDescendant(node: Item, potentialParentId: string): (r: bool)
    ensures r <==> potentialParentId in SubtreeIds(node)
  {
    node.id == potentialParentId || (node.Folder? && SomeChildLeadsTo(node.children, potentialParentId))
  }

  function SomeChildLeadsTo(children: seq<Item>, potentialParentId: string): (r: bool)
    ensures r <==> potentialParentId in IdList(children)
  {
    if children == [] then false
    else
      assert IdList(children) == SubtreeIds(children[0]) + IdList(children[1..]);
      children[0].id == potentialParentId ||
      (children[0].Folder? && IsDescendant(children[0], potentialParentId)) ||
      SomeChildLeadsTo(children[1..], potentialParentId)
  }

  /** moveItem on the forest: None when it returns without dispatching (id absent, or a folder
      aimed at itself or below itself), otherwise the forest after extract and insert. */
  function MoveItem(items: seq<Item>, itemId: string, newParentId: string, index: Option<int>): (r: Option<seq<Item>>)
    ensures r.None? <==>
            FindItemById(items, itemId).None? ||
            (FindItemById(items, itemId).value.Folder? && newParentId != RootId &&
             newParentId in SubtreeIds(FindItemById(items, itemId).value))
  {
    var e := ExtractItem(items, itemId);
    if e.item.None? then None
    else if e.item.value.Folder? && newParentId != RootId && IsDescendant(e.item.value, newParentId) then None
    else Some(InsertItem(e.newItems, newParentId, e.item.value, index))
  }

  // ------------------------------------------------------------------ TOGGLE_FOLDER_EXPANDED

  /** JavaScript truthiness of `expanded` (absent reads as false). */
  predicate IsExpanded(x: Item)
  {
    x.Folder? && x.expanded == Some(true)
  }

  function ToggleExpanded(items: seq<Item>, folderId: string): (r: seq<Item>)
    ensures |r| == |items|
  {
    if items == [] then []
    else [ToggleNode(items[0], folderId)] + ToggleExpanded(items[1..], folderId)
  }

  function ToggleNode(x: Item, folderId: string): Item
  {
    if x.Folder? then
      if x.id == folderId then x.(expanded := Some(!IsExpanded(x)))
      else x.(children := ToggleExpanded(x.children, folderId))
    else x
  }

  // ------------------------------------------------------------------ the rebuilds of the provider actions

  /** The updater of addEntry and addFolder: a folder gets the new node appended; any other
      node is given an empty `children`, which an entry does not keep, so the node is dropped. */
  function AppendUpdater(node: Item): Item -> Item
  {
    (x: Item) => if x.Folder? then x.(children := x.children + [node]) else x
  }

  /** The new top-level children of addEntry and addFolder. */
  function AddChild(items: seq<Item>, parentId: string, node: Item): (r: seq<Item>)
    ensures |r| == if parentId == RootId then |items| + 1 else |items|
    ensures parentId == RootId ==> r[..|items|] == items && r[|items|] == node
  {
    if parentId == RootId then items + [node] else UpdateItemInTree(items, parentId, AppendUpdater(node))
  }

  /** The updater of renameItem: a new name, and for an entry a new `modified`. */
  function RenameUpdater(newName: string, now: Timestamp): Item -> Item
  {
    (x: Item) =>
      match x
      case Entry(id, _, content, created, _) => Entry(id, newName, content, created, now)
      case Folder(id, _, children, created, modified, expanded) => Folder(id, newName, children, created, modified, expanded)
  }

  /** The updater of updateEntry: new content and `modified`. It is applied to whatever node
      has the id; a folder has no content field to keep, so only its `modified` changes. */
  function ContentUpdater(content: Content, now: Timestamp): Item -> Item
  {
    (x: Item) =>
      match x
      case Entry(id, name, _, created, _) => Entry(id, name, content, created, now)
      case Folder(id, name, children, created, _, expanded) => Folder(id, name, children, created, now, expanded)
  }

  /** The updater TOGGLE_FOLDER_EXPANDED applies to the matching folder. */
  function FlipUpdater(): Item -> Item
  {
    (x: Item) => if x.Folder? then x.(expanded := Some(!IsExpanded(x))) else x
  }

  // ================================================================== lemmas

  lemma {:induction false} IdListCons(x: Item, rest: seq<Item>)
    ensures IdList([x] + rest) == SubtreeIds(x) + IdList(rest)
  {
    assert ([x] + rest)[0] == x;
    assert ([x] + rest)[1..] == rest;
  }

  lemma {:induction false} IdMultisetCons(x: Item, rest: seq<Item>)
    ensures multiset(IdList([x] + rest)) == multiset(SubtreeIds(x)) + multiset(IdList(rest))
  {
    IdListCons(x, rest);
  }

  lemma {:induction false} IdListConcat(a: seq<Item>, b: seq<Item>)
    ensures IdList(a + b) == IdList(a) + IdList(b)
  {
    if a == [] {
      assert a + b == b;
    } else {
      assert (a + b)[0] == a[0];
      assert (a + b)[1..] == a[1..] + b;
      IdListConcat(a[1..], b);
    }
  }

  lemma {:induction false} FindConcat(a: seq<Item>, b: seq<Item>, id: string)
    ensures FindItemById(a + b, id) ==
            if FindItemById(a, id).Some? then FindItemById(a, id) else FindItemById(b, id)
  {
    if a == [] {
      assert a + b == b;
    } else {
      assert (a + b)[0] == a[0];
      assert (a + b)[1..] == a[1..] + b;
      FindConcat(a[1..], b, id);
    }
  }

  lemma {:induction false} FirstWithIdConcat(a: seq<Item>, b: seq<Item>, id: string)
    ensures FirstWithId(a + b, id) ==
            if FirstWithId(a, id).Some? then FirstWithId(a, id) else FirstWithId(b, id)
  {
    if a == [] {
      assert a + b == b;
    } else {
      assert (a + b)[0] == a[0];
      assert (a + b)[1..] == a[1..] + b;
      FirstWithIdConcat(a[1..], b, id);
    }
  }

  /** findItemById returns the first node carrying the id in depth-first pre-order. */
  lemma {:induction false} FindIsFirstInPreOrder(items: seq<Item>, id: string)
    ensures FindItemById(items, id) == FirstWithId(PreOrder(items), id)
  {
    if items != [] {
      var x := items[0];
      var sub := if x.Folder? then PreOrder(x.children) else [];
      var tail := sub + PreOrder(items[1..]);
      var pre := PreOrder(items);
      assert pre == [x] + tail;
      assert pre[0] == x && pre[1..] == tail;
      if x.id != id {
        assert FirstWithId(pre, id) == FirstWithId(tail, id);
        FirstWithIdConcat(sub, PreOrder(items[1..]), id);
        FindIsFirstInPreOrder(items[1..], id);
        if x.Folder? {
          FindIsFirstInPreOrder(x.children, id);
        } else {
          assert FirstWithId(sub, id).None?;
        }
      }
    }
  }

  /** The subtree of a found node is part of the forest. */
  lemma {:induction false} FoundSubtreeIds(items: seq<Item>, id: string)
    requires FindItemById(items, id).Some?
    ensures multiset(SubtreeIds(FindItemById(items, id).value)) <= multiset(IdList(items))
  {
    var x := items[0];
    if x.id == id {
    } else if x.Folder? && FindItemById(x.children, id).Some? {
      FoundSubtreeIds(x.children, id);
    } else {
      FoundSubtreeIds(items[1..], id);
    }
  }

  /** Two parts of a forest without repeated ids share no id. */
  lemma {:induction false} DisjointFromUnique(a: seq<string>, b: seq<string>)
    requires forall k :: multiset(a + b)[k] <= 1
    ensures forall z :: z in a ==> z !in b
  {
    forall z | z in a
      ensures z !in b
    {
      assert multiset(a + b)[z] == multiset(a)[z] + multiset(b)[z];
    }
  }

  /** Uniqueness splits over the first node of a forest. */
  lemma {:induction false} UniqueSplit(items: seq<Item>)
    requires items != [] && UniqueIds(items)
    ensures UniqueIds(items[1..])
    ensures items[0].Folder? ==> UniqueIds(items[0].children) && items[0].id !in IdList(items[0].children)
    ensures forall z :: z in SubtreeIds(items[0]) ==> z !in IdList(items[1..])
  {
    var x := items[0];
    var kids := if x.Folder? then IdList(x.children) else [];
    assert IdList(items) == [x.id] + kids + IdList(items[1..]);
    forall k
      ensures multiset(IdList(items[1..]))[k] <= 1 && multiset(kids)[k] <= 1
    {
      assert multiset(IdList(items))[k] == multiset([x.id])[k] + multiset(kids)[k] + multiset(IdList(items[1..]))[k];
    }
    DisjointFromUnique(SubtreeIds(x), IdList(items[1..]));
    if x.Folder? {
      assert multiset(IdList(items))[x.id] >= 1 + multiset(kids)[x.id];
    }
  }

  lemma {:induction false} UniqueSub(small: seq<Item>, big: seq<Item>)
    requires UniqueIds(big) && multiset(IdList(small)) <= multiset(IdList(big))
    ensures UniqueIds(small)
  {
    forall k ensures multiset(IdList(small))[k] <= 1 {
      assert multiset(IdList(small))[k] <= multiset(IdList(big))[k];
    }
  }

  lemma {:induction false} FolderIdsInIdList(items: seq<Item>)
    ensures forall k :: k in FolderIds(items) ==> k in IdList(items)
  {
    if items != [] {
      if items[0].Folder? { FolderIdsInIdList(items[0].children); }
      FolderIdsInIdList(items[1..]);
    }
  }

  // ------------------------------------------------------------------ updateItemInTree lemmas

  /** With the id absent, updateItemInTree rebuilds an equal forest. */
  lemma {:induction false} UpdateAbsent(items: seq<Item>, itemId: string, updater: Item -> Item)
    requires itemId !in IdList(items)
    ensures UpdateItemInTree(items, itemId, updater) == items
  {
    if items != [] {
      if items[0].Folder? { UpdateAbsent(items[0].children, itemId, updater); }
      UpdateAbsent(items[1..], itemId, updater);
    }
  }

  lemma {:induction false} UpdateCons(items: seq<Item>, itemId: string, updater: Item -> Item)
    requires items != []
    ensures var r := UpdateItemInTree(items, itemId, updater);
            r[0] == UpdateNode(items[0], itemId, updater) &&
            r[1..] == UpdateItemInTree(items[1..], itemId, updater)
  {
  }

  /** Where the only node with the id is left as it is by the updater, nothing changes. */
  lemma {:induction false} UpdateNoop(items: seq<Item>, itemId: string, updater: Item -> Item)
    requires multiset(IdList(items))[itemId] <= 1
    requires FindItemById(items, itemId).Some? ==>
             updater(FindItemById(items, itemId).value) == FindItemById(items, itemId).value
    ensures UpdateItemInTree(items, itemId, updater) == items
    decreases items, 1
  {
    if items != [] {
      var x := items[0];
      var rest := items[1..];
      assert UpdateItemInTree(items, itemId, updater) ==
             [UpdateNode(x, itemId, updater)] + UpdateItemInTree(rest, itemId, updater);
      assert UpdateNode(x, itemId, updater) == x && UpdateItemInTree(rest, itemId, updater) == rest by {
        ForestSplit(items, itemId);
        if itemId in SubtreeIds(x) {
          assert itemId !in IdList(rest);
          UpdateAbsent(rest, itemId, updater);
          UpdateNoopNode(x, itemId, updater);
        } else {
          IdListCons(x, []);
          assert [x] + [] == [x];
          assert FindItemById([x], itemId).None?;
          UpdateNoopNode(x, itemId, updater);
          UpdateNoop(rest, itemId, updater);
        }
      }
      assert items == [x] + rest;
    }
  }

  lemma {:induction false} UpdateNoopNode(x: Item, itemId: string, updater: Item -> Item)
    requires multiset(SubtreeIds(x))[itemId] <= 1
    requires FindItemById([x], itemId).Some? ==>
             updater(FindItemById([x], itemId).value) == FindItemById([x], itemId).value
    ensures UpdateNode(x, itemId, updater) == x
    decreases x, 2
  {
    assert [x][0] == x && [x][1..] == [];
    if x.id != itemId && x.Folder? {
      var kids := IdList(x.children);
      assert multiset(SubtreeIds(x))[itemId] == multiset([x.id])[itemId] + multiset(kids)[itemId];
      if FindItemById(x.children, itemId).Some? {
        assert FindItemById([x], itemId) == FindItemById(x.children, itemId);
      }
      UpdateNoop(x.children, itemId, updater);
    }
  }

  /** After the update, the id resolves to the updated form of the node it resolved to. */
  lemma {:induction false} UpdateFind(items: seq<Item>, itemId: string, updater: Item -> Item)
    requires FindItemById(items, itemId).Some? ==> updater(FindItemById(items, itemId).value).id == itemId
    ensures FindItemById(UpdateItemInTree(items, itemId, updater), itemId) ==
            if FindItemById(items, itemId).Some? then Some(updater(FindItemById(items, itemId).value)) else None
  {
    if items != [] {
      var x := items[0];
      UpdateCons(items, itemId, updater);
      if x.id == itemId {
      } else if x.Folder? && FindItemById(x.children, itemId).Some? {
        UpdateFind(x.children, itemId, updater);
      } else {
        if x.Folder? { UpdateAbsent(x.children, itemId, updater); }
        UpdateFind(items[1..], itemId, updater);
      }
    }
  }

  /** An updater that keeps the node's id, kind and children keeps the id list. */
  lemma {:induction false} UpdatePreservesIds(items: seq<Item>, itemId: string, updater: Item -> Item)
    requires KeepsShape(updater, itemId)
    ensures IdList(UpdateItemInTree(items, itemId, updater)) == IdList(items)
  {
    if items != [] {
      var x := items[0];
      UpdateCons(items, itemId, updater);
      if x.id != itemId && x.Folder? { UpdatePreservesIds(x.children, itemId, updater); }
      UpdatePreservesIds(items[1..], itemId, updater);
      IdListCons(UpdateNode(x, itemId, updater), UpdateItemInTree(items[1..], itemId, updater));
    }
  }

  /** Every node whose subtree does not hold the id comes out of the update unchanged. */
  lemma {:induction false} UpdateKeepsUntouched(items: seq<Item>, itemId: string, updater: Item -> Item, k: string)
    requires KeepsShape(updater, itemId)
    requires FindItemById(items, k).Some? && itemId !in SubtreeIds(FindItemById(items, k).value)
    ensures FindItemById(UpdateItemInTree(items, itemId, updater), k) == FindItemById(items, k)
  {
    var x := items[0];
    UpdateCons(items, itemId, updater);
    var r0 := UpdateNode(x, itemId, updater);
    if x.id == k {
      if x.Folder? { UpdateAbsent(x.children, itemId, updater); }
    } else if x.Folder? && FindItemById(x.children, k).Some? {
      if x.id != itemId { UpdateKeepsUntouched(x.children, itemId, updater, k); }
    } else {
      if x.Folder? && x.id != itemId { UpdatePreservesIds(x.children, itemId, updater); }
      assert r0.id == x.id && r0.Folder? == x.Folder?;
      assert r0.Folder? ==> FindItemById(r0.children, k).None?;
      UpdateKeepsUntouched(items[1..], itemId, updater, k);
    }
  }

  /** With the id at most once, the update changes the id multiset exactly as the updater
      changes the matched node's subtree. */
  lemma {:induction false} UpdateIdsMultiset(items: seq<Item>, itemId: string, updater: Item -> Item, added: multiset<string>)
    requires multiset(IdList(items))[itemId] <= 1
    requires FindItemById(items, itemId).Some? ==>
             multiset(SubtreeIds(updater(FindItemById(items, itemId).value))) ==
             multiset(SubtreeIds(FindItemById(items, itemId).value)) + added
    ensures multiset(IdList(UpdateItemInTree(items, itemId, updater))) ==
            multiset(IdList(items)) + (if itemId in IdList(items) then added else multiset{})
    decreases items, 1
  {
    if items != [] {
      UpdateSplit(items, itemId, updater);
      ForestSplit(items, itemId);
      if itemId in SubtreeIds(items[0]) {
        UpdateIdsHere(items, itemId, updater, added);
      } else {
        UpdateIdsAfter(items, itemId, updater, added);
      }
    }
  }

  lemma {:induction false} UpdateIdsHere(items: seq<Item>, itemId: string, updater: Item -> Item, added: multiset<string>)
    requires items != [] && itemId in SubtreeIds(items[0])
    requires multiset(IdList(items))[itemId] <= 1
    requires FindItemById([items[0]], itemId).Some? ==>
             multiset(SubtreeIds(updater(FindItemById([items[0]], itemId).value))) ==
             multiset(SubtreeIds(FindItemById([items[0]], itemId).value)) + added
    ensures multiset(IdList(UpdateItemInTree(items, itemId, updater))) == multiset(IdList(items)) + added
    decreases items, 0
  {
    var x := items[0];
    UpdateSplit(items, itemId, updater);
    ForestSplit(items, itemId);
    UpdateAbsent(items[1..], itemId, updater);
    UpdateIdsNode(x, itemId, updater, added);
  }

  lemma {:induction false} UpdateIdsAfter(items: seq<Item>, itemId: string, updater: Item -> Item, added: multiset<string>)
    requires items != [] && itemId !in SubtreeIds(items[0])
    requires multiset(IdList(items[1..]))[itemId] <= 1
    requires FindItemById(items[1..], itemId).Some? ==>
             multiset(SubtreeIds(updater(FindItemById(items[1..], itemId).value))) ==
             multiset(SubtreeIds(FindItemById(items[1..], itemId).value)) + added
    ensures multiset(IdList(UpdateItemInTree(items, itemId, updater))) ==
            multiset(IdList(items)) + (if itemId in IdList(items[1..]) then added else multiset{})
    decreases items, 0
  {
    var x := items[0];
    UpdateSplit(items, itemId, updater);
    ForestSplit(items, itemId);
    UpdateNodeAbsent(x, itemId, updater);
    UpdateIdsMultiset(items[1..], itemId, updater, added);
  }

  lemma {:induction false} UpdateNodeAbsent(x: Item, itemId: string, updater: Item -> Item)
    requires itemId !in SubtreeIds(x)
    ensures UpdateNode(x, itemId, updater) == x
  {
    if x.Folder? {
      assert itemId !in IdList(x.children);
      UpdateAbsent(x.children, itemId, updater);
    }
  }

  /** One step of updateItemInTree, seen through the id lists. */
  lemma {:induction false} UpdateSplit(items: seq<Item>, itemId: string, updater: Item -> Item)
    requires items != []
    ensures multiset(IdList(UpdateItemInTree(items, itemId, updater))) ==
            multiset(SubtreeIds(UpdateNode(items[0], itemId, updater))) +
            multiset(IdList(UpdateItemInTree(items[1..], itemId, updater)))
  {
    UpdateCons(items, itemId, updater);
    var r := UpdateItemInTree(items, itemId, updater);
    assert r == [r[0]] + r[1..];
    IdListCons(r[0], r[1..]);
  }

  /** A forest seen as its first node and the rest: ids, their counts and the lookup. */
  lemma {:induction false} ForestSplit(items: seq<Item>, itemId: string)
    requires items != []
    ensures IdList(items) == SubtreeIds(items[0]) + IdList(items[1..])
    ensures multiset(IdList(items)) == multiset(SubtreeIds(items[0])) + multiset(IdList(items[1..]))
    ensures itemId in SubtreeIds(items[0]) ==>
              FindItemById(items, itemId) == FindItemById([items[0]], itemId) &&
              (itemId !in IdList(items[1..]) || multiset(IdList(items))[itemId] > 1)
    ensures itemId !in SubtreeIds(items[0]) ==> FindItemById(items, itemId) == FindItemById(items[1..], itemId)
  {
    var x := items[0];
    IdListCons(x, []);
    assert items == [x] + items[1..];
    FindConcat([x], items[1..], itemId);
    assert multiset(IdList(items))[itemId] == multiset(SubtreeIds(x))[itemId] + multiset(IdList(items[1..]))[itemId];
  }

  lemma {:induction false} UpdateIdsNode(x: Item, itemId: string, updater: Item -> Item, added: multiset<string>)
    requires itemId in SubtreeIds(x) && multiset(SubtreeIds(x))[itemId] <= 1
    requires FindItemById([x], itemId).Some? ==>
             multiset(SubtreeIds(updater(FindItemById([x], itemId).value))) ==
             multiset(SubtreeIds(FindItemById([x], itemId).value)) + added
    ensures multiset(SubtreeIds(UpdateNode(x, itemId, updater))) == multiset(SubtreeIds(x)) + added
    decreases x, 2
  {
    FindCons(x, [], itemId);
    assert [x] + [] == [x];
    if x.id != itemId {
      UpdateIdsBelowNode(x, itemId, updater, added);
    }
  }

  lemma {:induction false} UpdateIdsBelowNode(x: Item, itemId: string, updater: Item -> Item, added: multiset<string>)
    requires x.id != itemId && itemId in SubtreeIds(x) && multiset(SubtreeIds(x))[itemId] <= 1
    requires FindItemById(x.children, itemId).Some? ==>
             multiset(SubtreeIds(updater(FindItemById(x.children, itemId).value))) ==
             multiset(SubtreeIds(FindItemById(x.children, itemId).value)) + added
    ensures multiset(SubtreeIds(UpdateNode(x, itemId, updater))) == multiset(SubtreeIds(x)) + added
    decreases x, 1
  {
    assert x.Folder?;
    var kids := IdList(x.children);
    assert SubtreeIds(x) == [x.id] + kids;
    assert itemId in kids;
    assert multiset(kids)[itemId] <= 1 by {
      assert multiset(SubtreeIds(x)) == multiset([x.id]) + multiset(kids);
    }
    UpdateIdsMultiset(x.children, itemId, updater, added);
    var y := UpdateNode(x, itemId, updater);
    assert SubtreeIds(y) == [x.id] + IdList(UpdateItemInTree(x.children, itemId, updater));
  }

  // ------------------------------------------------------------------ Without

  lemma {:induction false} WithoutConcat(a: seq<string>, b: seq<string>, bad: seq<string>)
    ensures Without(a + b, bad) == Without(a, bad) + Without(b, bad)
  {
    if a == [] {
      assert a + b == b;
    } else {
      assert (a + b)[0] == a[0];
      assert (a + b)[1..] == a[1..] + b;
      WithoutConcat(a[1..], b, bad);
    }
  }

  lemma {:induction false} WithoutDisjoint(s: seq<string>, bad: seq<string>)
    requires forall z :: z in s ==> z !in bad
    ensures Without(s, bad) == s
  {
    if s != [] {
      WithoutDisjoint(s[1..], bad);
    }
  }

  lemma {:induction false} WithoutCovered(s: seq<string>, bad: seq<string>)
    requires forall z :: z in s ==> z in bad
    ensures Without(s, bad) == []
  {
    if s != [] {
      WithoutCovered(s[1..], bad);
    }
  }

  lemma {:induction false} WithoutMember(s: seq<string>, bad: seq<string>, z: string)
    ensures z in Without(s, bad) <==> z in s && z !in bad
  {
    if s != [] {
      WithoutMember(s[1..], bad, z);
      assert s == [s[0]] + s[1..];
    }
  }

  /** The first kept id is the first one of `s` outside `bad`: everything before it is in `bad`. */
  lemma {:induction false} WithoutFirst(s: seq<string>, bad: seq<string>)
    requires Without(s, bad) != []
    ensures Without(s, bad)[0] !in bad
    ensures exists k :: 0 <= k < |s| && s[k] == Without(s, bad)[0] && forall j :: 0 <= j < k ==> s[j] in bad
  {
    if s[0] in bad {
      assert Without(s, bad) == Without(s[1..], bad);
      WithoutFirst(s[1..], bad);
      var k :| 0 <= k < |s[1..]| && s[1..][k] == Without(s[1..], bad)[0] && forall j :: 0 <= j < k ==> s[1..][j] in bad;
      assert s[k + 1] == Without(s, bad)[0];
      assert forall j :: 0 <= j < k + 1 ==> s[j] in bad by {
        forall j | 0 <= j < k + 1 ensures s[j] in bad {
          if j > 0 { assert s[j] == s[1..][j - 1]; }
        }
      }
    } else {
      assert Without(s, bad)[0] == s[0];
    }
  }

  /** Dropping ids never adds any. */
  lemma {:induction false} WithoutSub(s: seq<string>, bad: seq<string>)
    ensures multiset(Without(s, bad)) <= multiset(s)
  {
    if s != [] {
      WithoutSub(s[1..], bad);
      assert s == [s[0]] + s[1..];
    }
  }

  lemma {:induction false} MembersOf(a: seq<string>, b: seq<string>)
    requires multiset(a) <= multiset(b)
    ensures forall z :: z in a ==> z in b
  {
    forall z | z in a
      ensures z in b
    {
      assert multiset(a)[z] >= 1;
    }
  }

  // ------------------------------------------------------------------ removeItemFromTree lemmas

  /** With the id absent, removeItemFromTree rebuilds an equal forest. */
  lemma {:induction false} RemoveAbsent(items: seq<Item>, itemId: string)
    requires itemId !in IdList(items)
    ensures RemoveItemFromTree(items, itemId) == items
  {
    if items != [] {
      if items[0].Folder? { RemoveAbsent(items[0].children, itemId); }
      RemoveAbsent(items[1..], itemId);
    }
  }

  /** With unique ids, removal deletes exactly the subtree of the node found, and every
      other id keeps its place in the pre-order. */
  lemma {:induction false} RemoveKeepsOrder(items: seq<Item>, itemId: string)
    requires UniqueIds(items) && FindItemById(items, itemId).Some?
    ensures IdList(RemoveItemFromTree(items, itemId)) ==
            Without(IdList(items), SubtreeIds(FindItemById(items, itemId).value))
    decreases items, 1
  {
    var x := items[0];
    if x.id == itemId {
      RemoveHere(items, itemId);
    } else if x.Folder? && FindItemById(x.children, itemId).Some? {
      RemoveBelow(items, itemId);
    } else {
      RemoveAfter(items, itemId);
    }
  }

  lemma {:induction false} RemoveHere(items: seq<Item>, itemId: string)
    requires UniqueIds(items) && items != [] && items[0].id == itemId
    ensures IdList(RemoveItemFromTree(items, itemId)) == Without(IdList(items), SubtreeIds(items[0]))
    decreases items, 0
  {
    var x := items[0];
    var rest := items[1..];
    UniqueSplit(items);
    RemoveAbsent(rest, itemId);
    assert IdList(items) == SubtreeIds(x) + IdList(rest);
    WithoutConcat(SubtreeIds(x), IdList(rest), SubtreeIds(x));
    WithoutCovered(SubtreeIds(x), SubtreeIds(x));
    WithoutDisjoint(IdList(rest), SubtreeIds(x));
  }

  lemma {:induction false} RemoveBelow(items: seq<Item>, itemId: string)
    requires UniqueIds(items) && items != [] && items[0].id != itemId
    requires items[0].Folder? && FindItemById(items[0].children, itemId).Some?
    ensures IdList(RemoveItemFromTree(items, itemId)) ==
            Without(IdList(items), SubtreeIds(FindItemById(items[0].children, itemId).value))
    decreases items, 0
  {
    var x := items[0];
    var rest := items[1..];
    var kids := x.children;
    var bad := SubtreeIds(FindItemById(kids, itemId).value);
    UniqueSplit(items);
    RemoveKeepsOrderIn(x, itemId);
    RemoveAbsent(rest, itemId);
    FoundSubtreeIds(kids, itemId);
    MembersOf(bad, IdList(kids));
    assert IdList(items) == [x.id] + IdList(kids) + IdList(rest);
    IdListCons(PruneChildren(x, itemId), rest);
    assert IdList(RemoveItemFromTree(items, itemId)) ==
           [x.id] + IdList(RemoveItemFromTree(kids, itemId)) + IdList(rest);
    WithoutConcat([x.id] + IdList(kids), IdList(rest), bad);
    WithoutConcat([x.id], IdList(kids), bad);
    WithoutDisjoint([x.id], bad);
    WithoutDisjoint(IdList(rest), bad);
  }

  /** The induction step into a folder's children. */
  lemma {:induction false} RemoveKeepsOrderIn(x: Item, itemId: string)
    requires x.Folder? && UniqueIds(x.children) && FindItemById(x.children, itemId).Some?
    ensures IdList(RemoveItemFromTree(x.children, itemId)) ==
            Without(IdList(x.children), SubtreeIds(FindItemById(x.children, itemId).value))
    decreases x, 2
  {
    RemoveKeepsOrder(x.children, itemId);
  }

  lemma {:induction false} RemoveAfter(items: seq<Item>, itemId: string)
    requires UniqueIds(items) && items != [] && itemId !in SubtreeIds(items[0])
    requires FindItemById(items[1..], itemId).Some?
    ensures IdList(RemoveItemFromTree(items, itemId)) ==
            Without(IdList(items), SubtreeIds(FindItemById(items[1..], itemId).value))
    decreases items, 0
  {
    var x := items[0];
    var rest := items[1..];
    var bad := SubtreeIds(FindItemById(rest, itemId).value);
    UniqueSplit(items);
    if x.Folder? { RemoveAbsent(x.children, itemId); }
    assert PruneChildren(x, itemId) == x;
    RemoveKeepsOrder(rest, itemId);
    FoundSubtreeIds(rest, itemId);
    MembersOf(bad, IdList(rest));
    assert IdList(items) == SubtreeIds(x) + IdList(rest);
    IdListCons(x, RemoveItemFromTree(rest, itemId));
    WithoutConcat(SubtreeIds(x), IdList(rest), bad);
    WithoutDisjoint(SubtreeIds(x), bad);
  }

  // ------------------------------------------------------------------ the snapshot deleteItem reads

  /** Ids of the top-level nodes. */
  function TopLevelIds(items: seq<Item>): (r: seq<string>)
    ensures forall k :: k in r ==> k in IdList(items)
  {
    if items == [] then [] else [items[0].id] + TopLevelIds(items[1..])
  }

  /** The new children are the snapshot with matched top-level nodes filtered out. */
  lemma {:induction false} RemoveFiltersSnapshot(items: seq<Item>, itemId: string)
    ensures RemoveItemFromTree(items, itemId) == DropTopLevel(SnapshotAfterRemove(items, itemId), itemId)
  {
    if items != [] {
      RemoveFiltersSnapshot(items[1..], itemId);
      var snap := SnapshotAfterRemove(items, itemId);
      assert snap[0] == (if items[0].id == itemId then items[0] else PruneChildren(items[0], itemId));
      assert snap[1..] == SnapshotAfterRemove(items[1..], itemId);
    }
  }

  lemma {:induction false} SnapshotAbsent(items: seq<Item>, itemId: string)
    requires itemId !in IdList(items)
    ensures SnapshotAfterRemove(items, itemId) == items
  {
    if items != [] {
      if items[0].Folder? { RemoveAbsent(items[0].children, itemId); }
      SnapshotAbsent(items[1..], itemId);
    }
  }

  /** Deleting a top-level node leaves the old top-level list reading exactly as before:
      the matched node is skipped, and with unique ids no other folder holds the id. */
  lemma {:induction false} SnapshotTopLevel(items: seq<Item>, itemId: string)
    requires UniqueIds(items) && itemId in TopLevelIds(items)
    ensures SnapshotAfterRemove(items, itemId) == items
    decreases items, 1
  {
    var x := items[0];
    UniqueSplit(items);
    if x.id == itemId {
      SnapshotAbsent(items[1..], itemId);
    } else {
      assert itemId in TopLevelIds(items[1..]);
      assert itemId !in SubtreeIds(x);
      SnapshotTopLevelStep(items, itemId);
    }
  }

  /** Deleting a nested node leaves the old top-level list reading as the new one. */
  lemma {:induction false} SnapshotNested(items: seq<Item>, itemId: string)
    requires itemId !in TopLevelIds(items)
    ensures SnapshotAfterRemove(items, itemId) == RemoveItemFromTree(items, itemId)
  {
    if items != [] {
      SnapshotNested(items[1..], itemId);
    }
  }

  lemma {:induction false} SnapshotTopLevelStep(items: seq<Item>, itemId: string)
    requires items != [] && UniqueIds(items[1..]) && itemId in TopLevelIds(items[1..])
    requires itemId !in SubtreeIds(items[0])
    ensures SnapshotAfterRemove(items, itemId) == items
    decreases items, 0
  {
    var x := items[0];
    var rest := items[1..];
    assert x.id != itemId;
    assert PruneChildren(x, itemId) == x by {
      if x.Folder? {
        assert itemId !in IdList(x.children);
        RemoveAbsent(x.children, itemId);
      }
    }
    assert SnapshotAfterRemove(items, itemId) == [x] + SnapshotAfterRemove(rest, itemId);
    SnapshotTopLevel(rest, itemId);
    assert items == [x] + rest;
  }

  // ------------------------------------------------------------------ extractItem lemmas

  /** Extraction splits the id multiset between the remaining forest and the extracted subtree. */
  lemma {:induction false} ExtractIds(items: seq<Item>, targetId: string)
    requires targetId in IdList(items)
    ensures multiset(IdList(items)) ==
            multiset(IdList(ExtractItem(items, targetId).newItems)) +
            multiset(SubtreeIds(ExtractItem(items, targetId).item.value))
    decreases items, 2
  {
    var x := items[0];
    if x.id == targetId {
      ExtractIdsHere(items, targetId);
    } else if x.Folder? && ExtractItem(x.children, targetId).item.Some? {
      ExtractIdsBelow(items, targetId);
    } else {
      ExtractIdsAfter(items, targetId);
    }
  }

  lemma {:induction false} ExtractIdsHere(items: seq<Item>, targetId: string)
    requires items != [] && items[0].id == targetId
    ensures multiset(IdList(items)) ==
            multiset(IdList(ExtractItem(items, targetId).newItems)) +
            multiset(SubtreeIds(ExtractItem(items, targetId).item.value))
  {
    var x := items[0];
    IdListCons(x, items[1..]);
    assert items == [x] + items[1..];
    assert ExtractItem(items, targetId) == Extraction(Some(x), items[1..]);
  }

  lemma {:induction false} ExtractIdsBelow(items: seq<Item>, targetId: string)
    requires items != [] && items[0].id != targetId
    requires items[0].Folder? && ExtractItem(items[0].children, targetId).item.Some?
    ensures multiset(IdList(items)) ==
            multiset(IdList(ExtractItem(items, targetId).newItems)) +
            multiset(SubtreeIds(ExtractItem(items, targetId).item.value))
    decreases items, 1
  {
    var x := items[0];
    var rest := items[1..];
    var sub := ExtractItem(x.children, targetId);
    var y := x.(children := sub.newItems);
    var e := ExtractItem(items, targetId);
    assert e == Extraction(sub.item, [y] + rest);
    ExtractIdsIn(x, targetId);
    assert items == [x] + rest;
    IdMultisetCons(x, rest);
    IdMultisetCons(y, rest);
    FolderIdMultiset(x, x.children);
    FolderIdMultiset(x, sub.newItems);
    Regroup(multiset([x.id]), multiset(IdList(x.children)), multiset(IdList(rest)),
            multiset(IdList(sub.newItems)), multiset(SubtreeIds(sub.item.value)));
  }

  /** The ids of a folder with the given children. */
  lemma {:induction false} FolderIdMultiset(x: Item, kids: seq<Item>)
    requires x.Folder?
    ensures multiset(SubtreeIds(x.(children := kids))) == multiset([x.id]) + multiset(IdList(kids))
  {
  }

  /** Moving part of a folder's ids out of the forest. */
  lemma {:induction false} Regroup(head: multiset<string>, kids: multiset<string>, rest: multiset<string>,
                                   newKids: multiset<string>, moved: multiset<string>)
    requires kids == newKids + moved
    ensures (head + kids) + rest == ((head + newKids) + rest) + moved
  {
  }

  lemma {:induction false} ExtractIdsAfter(items: seq<Item>, targetId: string)
    requires targetId in IdList(items) && items != [] && items[0].id != targetId
    requires !(items[0].Folder? && ExtractItem(items[0].children, targetId).item.Some?)
    ensures multiset(IdList(items)) ==
            multiset(IdList(ExtractItem(items, targetId).newItems)) +
            multiset(SubtreeIds(ExtractItem(items, targetId).item.value))
    decreases items, 1
  {
    var x := items[0];
    var rest := items[1..];
    ExtractAfterStep(items, targetId);
    assert items == [x] + rest;
    IdListCons(x, rest);
    IdMultisetCons(x, rest);
    var sub := ExtractItem(rest, targetId);
    ExtractIds(rest, targetId);
    IdMultisetCons(x, sub.newItems);
    RegroupAfter(multiset(SubtreeIds(x)), multiset(IdList(rest)),
                 multiset(IdList(sub.newItems)), multiset(SubtreeIds(sub.item.value)));
  }

  /** Moving part of the later siblings' ids out of the forest. */
  lemma {:induction false} RegroupAfter(head: multiset<string>, rest: multiset<string>,
                                        newRest: multiset<string>, moved: multiset<string>)
    requires rest == newRest + moved
    ensures head + rest == (head + newRest) + moved
  {
  }

  /** Extraction past a first node that does not hold the id. */
  lemma {:induction false} ExtractAfterStep(items: seq<Item>, targetId: string)
    requires items != [] && items[0].id != targetId
    requires !(items[0].Folder? && ExtractItem(items[0].children, targetId).item.Some?)
    ensures targetId !in SubtreeIds(items[0])
    ensures ExtractItem(items, targetId) ==
            Extraction(ExtractItem(items[1..], targetId).item, [items[0]] + ExtractItem(items[1..], targetId).newItems)
  {
    var x := items[0];
    if x.Folder? { assert FindItemById(x.children, targetId).None?; }
  }

  lemma {:induction false} ExtractIdsIn(x: Item, targetId: string)
    requires x.Folder? && targetId in IdList(x.children)
    ensures multiset(IdList(x.children)) ==
            multiset(IdList(ExtractItem(x.children, targetId).newItems)) +
            multiset(SubtreeIds(ExtractItem(x.children, targetId).item.value))
    decreases x, 3
  {
    ExtractIds(x.children, targetId);
  }

  /** A folder outside the extracted subtree is still a folder after extraction. */
  lemma {:induction false} ExtractKeepsFolder(items: seq<Item>, targetId: string, folderId: string)
    requires targetId in IdList(items)
    requires FindItemById(items, folderId).Some? && FindItemById(items, folderId).value.Folder?
    requires folderId !in SubtreeIds(FindItemById(items, targetId).value)
    ensures FindItemById(ExtractItem(items, targetId).newItems, folderId).Some?
    ensures FindItemById(ExtractItem(items, targetId).newItems, folderId).value.Folder?
    decreases items, 1
  {
    var x := items[0];
    if x.id == targetId {
    } else if x.Folder? && ExtractItem(x.children, targetId).item.Some? {
      ExtractKeepsFolderBelow(items, targetId, folderId);
    } else {
      ExtractKeepsFolderAfter(items, targetId, folderId);
    }
  }

  lemma {:induction false} ExtractKeepsFolderBelow(items: seq<Item>, targetId: string, folderId: string)
    requires items != [] && items[0].id != targetId && items[0].Folder?
    requires targetId in IdList(items[0].children)
    requires FindItemById(items, folderId).Some? && FindItemById(items, folderId).value.Folder?
    requires folderId !in SubtreeIds(FindItemById(items[0].children, targetId).value)
    ensures FindItemById(ExtractItem(items, targetId).newItems, folderId).Some?
    ensures FindItemById(ExtractItem(items, targetId).newItems, folderId).value.Folder?
    decreases items, 0
  {
    var x := items[0];
    var sub := ExtractItem(x.children, targetId);
    var r := ExtractItem(items, targetId).newItems;
    assert r == [x.(children := sub.newItems)] + items[1..];
    assert r[0] == x.(children := sub.newItems) && r[1..] == items[1..];
    if x.id == folderId {
    } else if FindItemById(x.children, folderId).Some? {
      ExtractKeepsFolderIn(x, targetId, folderId);
    } else {
      ExtractIdsIn(x, targetId);
      assert folderId !in IdList(sub.newItems) by {
        MembersOf(IdList(sub.newItems), IdList(x.children));
      }
    }
  }

  lemma {:induction false} ExtractKeepsFolderIn(x: Item, targetId: string, folderId: string)
    requires x.Folder? && targetId in IdList(x.children)
    requires FindItemById(x.children, folderId).Some? && FindItemById(x.children, folderId).value.Folder?
    requires folderId !in SubtreeIds(FindItemById(x.children, targetId).value)
    ensures FindItemById(ExtractItem(x.children, targetId).newItems, folderId).Some?
    ensures FindItemById(ExtractItem(x.children, targetId).newItems, folderId).value.Folder?
    decreases x, 2
  {
    ExtractKeepsFolder(x.children, targetId, folderId);
  }

  lemma {:induction false} ExtractKeepsFolderAfter(items: seq<Item>, targetId: string, folderId: string)
    requires items != [] && targetId !in SubtreeIds(items[0]) && targetId in IdList(items[1..])
    requires FindItemById(items, folderId).Some? && FindItemById(items, folderId).value.Folder?
    requires folderId !in SubtreeIds(FindItemById(items[1..], targetId).value)
    ensures FindItemById(ExtractItem(items, targetId).newItems, folderId).Some?
    ensures FindItemById(ExtractItem(items, targetId).newItems, folderId).value.Folder?
    decreases items, 0
  {
    var x := items[0];
    var rest := ExtractItem(items[1..], targetId);
    var r := ExtractItem(items, targetId).newItems;
    assert r == [x] + rest.newItems;
    assert r[0] == x && r[1..] == rest.newItems;
    if folderId !in SubtreeIds(x) {
      ExtractKeepsFolder(items[1..], targetId, folderId);
    }
  }

  // ------------------------------------------------------------------ insertItem lemmas

  lemma {:induction false} MapInsertConcat(a: seq<Item>, b: seq<Item>, parentId: string, item: Item, position: Option<int>)
    ensures MapInsert(a + b, parentId, item, position) ==
            MapInsert(a, parentId, item, position) + MapInsert(b, parentId, item, position)
  {
    if a == [] {
      assert a + b == b;
    } else {
      assert (a + b)[0] == a[0];
      assert (a + b)[1..] == a[1..] + b;
      MapInsertConcat(a[1..], b, parentId, item, position);
    }
  }

  /** Below the root, insertItem is updateItemInTree with the folder-insertion updater. */
  lemma {:induction false} MapInsertIsUpdate(items: seq<Item>, parentId: string, item: Item, position: Option<int>)
    requires parentId != RootId
    ensures MapInsert(items, parentId, item, position) ==
            UpdateItemInTree(items, parentId, InsertUpdater(item, position))
  {
    if items != [] {
      var y := items[0];
      if y.Folder? {
        MapInsertIsUpdate(y.children, parentId, item, position);
        assert InsertItem(y.children, parentId, item, position) == MapInsert(y.children, parentId, item, position);
      }
      assert InsertUnder(y, parentId, item, position) == UpdateNode(y, parentId, InsertUpdater(item, position));
      MapInsertIsUpdate(items[1..], parentId, item, position);
      UpdateCons(items, parentId, InsertUpdater(item, position));
    }
  }

  /** Below the root, insertItem changes nothing when the id names no folder. */
  lemma {:induction false} MapInsertNoFolder(items: seq<Item>, parentId: string, item: Item, position: Option<int>)
    requires parentId != RootId && multiset(IdList(items))[parentId] <= 1
    requires !(FindItemById(items, parentId).Some? && FindItemById(items, parentId).value.Folder?)
    ensures MapInsert(items, parentId, item, position) == items
  {
    MapInsertIsUpdate(items, parentId, item, position);
    UpdateNoop(items, parentId, InsertUpdater(item, position));
  }

  /** The two halves around the insertion point. */
  lemma {:induction false} InsertAtSplit(items: seq<Item>, position: Option<int>, item: Item) returns (k: nat)
    ensures k == SliceIndex(|items|, position)
    ensures InsertAt(items, position, item) == items[..k] + ([item] + items[k..])
    ensures items == items[..k] + items[k..]
  {
    k := SliceIndex(|items|, position);
    assert items[..k] + [item] + items[k..] == items[..k] + ([item] + items[k..]);
  }

  lemma {:induction false} IdsInsertAt(items: seq<Item>, position: Option<int>, item: Item)
    ensures multiset(IdList(InsertAt(items, position, item))) == multiset(IdList(items)) + multiset(SubtreeIds(item))
  {
    var k := InsertAtSplit(items, position, item);
    IdListConcat(items[..k], [item] + items[k..]);
    IdListConcat(items[..k], items[k..]);
    IdListCons(item, items[k..]);
  }

  /** insertItem adds the inserted subtree's ids when the parent is the root or a folder,
      and nothing otherwise. */
  lemma {:induction false} InsertIds(items: seq<Item>, parentId: string, item: Item, position: Option<int>)
    requires parentId == RootId || multiset(IdList(items))[parentId] <= 1
    ensures multiset(IdList(InsertItem(items, parentId, item, position))) ==
            multiset(IdList(items)) +
            (if parentId == RootId || (FindItemById(items, parentId).Some? && FindItemById(items, parentId).value.Folder?)
             then multiset(SubtreeIds(item)) else multiset{})
  {
    if parentId == RootId {
      IdsInsertAt(items, position, item);
    } else {
      MapInsertIds(items, parentId, item, position);
    }
  }

  lemma {:induction false} MapInsertIds(items: seq<Item>, parentId: string, item: Item, position: Option<int>)
    requires parentId != RootId && multiset(IdList(items))[parentId] <= 1
    ensures multiset(IdList(MapInsert(items, parentId, item, position))) ==
            multiset(IdList(items)) +
            (if FindItemById(items, parentId).Some? && FindItemById(items, parentId).value.Folder?
             then multiset(SubtreeIds(item)) else multiset{})
  {
    var found := FindItemById(items, parentId);
    var added := if found.Some? && found.value.Folder? then multiset(SubtreeIds(item)) else multiset{};
    if found.Some? {
      InsertUpdaterIds(found.value, item, position);
    }
    MapInsertIsUpdate(items, parentId, item, position);
    UpdateIdsMultiset(items, parentId, InsertUpdater(item, position), added);
  }

  lemma {:induction false} InsertUpdaterIds(f: Item, item: Item, position: Option<int>)
    ensures multiset(SubtreeIds(InsertUpdater(item, position)(f))) ==
            multiset(SubtreeIds(f)) + (if f.Folder? then multiset(SubtreeIds(item)) else multiset{})
  {
    if f.Folder? {
      IdsInsertAt(f.children, position, item);
      assert SubtreeIds(InsertUpdater(item, position)(f)) == [f.id] + IdList(InsertAt(f.children, position, item));
    }
  }

  /** An inserted node with a fresh id is found afterwards, unchanged, when the parent is the
      root or names a folder. */
  lemma {:induction false} InsertFind(items: seq<Item>, parentId: string, item: Item, position: Option<int>)
    requires item.id !in IdList(items)
    requires parentId == RootId || (FindItemById(items, parentId).Some? && FindItemById(items, parentId).value.Folder?)
    ensures FindItemById(InsertItem(items, parentId, item, position), item.id) == Some(item)
    decreases items, 1
  {
    if parentId == RootId {
      InsertFindTop(items, item, position);
    } else {
      MapInsertFind(items, parentId, item, position);
    }
  }

  lemma {:induction false} InsertFindTop(items: seq<Item>, item: Item, position: Option<int>)
    requires item.id !in IdList(items)
    ensures FindItemById(InsertAt(items, position, item), item.id) == Some(item)
  {
    var k := InsertAtSplit(items, position, item);
    IdListConcat(items[..k], items[k..]);
    FindConcat(items[..k], [item] + items[k..], item.id);
    assert ([item] + items[k..])[0] == item;
  }

  /** `FindItemById` on a node followed by its later siblings. */
  lemma {:induction false} FindCons(x: Item, rest: seq<Item>, id: string)
    ensures FindItemById([x] + rest, id) ==
            if x.id == id then Some(x)
            else if x.Folder? && FindItemById(x.children, id).Some? then FindItemById(x.children, id)
            else FindItemById(rest, id)
  {
    var q := [x] + rest;
    assert q[0] == x && q[1..] == rest;
  }

  lemma {:induction false} MapInsertCons(items: seq<Item>, parentId: string, item: Item, position: Option<int>)
    requires items != []
    ensures MapInsert(items, parentId, item, position) ==
            [InsertUnder(items[0], parentId, item, position)] + MapInsert(items[1..], parentId, item, position)
  {
  }

  lemma {:induction false} MapInsertFind(items: seq<Item>, parentId: string, item: Item, position: Option<int>)
    requires parentId != RootId && item.id !in IdList(items)
    requires FindItemById(items, parentId).Some? && FindItemById(items, parentId).value.Folder?
    ensures FindItemById(MapInsert(items, parentId, item, position), item.id) == Some(item)
    decreases items, 0
  {
    var y := items[0];
    MapInsertCons(items, parentId, item, position);
    IdListCons(y, items[1..]);
    assert items == [y] + items[1..];
    FindCons(y, items[1..], parentId);
    FindCons(y, items[1..], item.id);
    FindCons(InsertUnder(y, parentId, item, position), MapInsert(items[1..], parentId, item, position), item.id);
    if y.id == parentId {
      InsertFindTop(y.children, item, position);
    } else if y.Folder? && FindItemById(y.children, parentId).Some? {
      InsertFindIn(y, parentId, item, position);
    } else {
      InsertUnderAbsent(y, parentId, item, position);
      MapInsertFind(items[1..], parentId, item, position);
    }
  }

  /** A node whose subtree does not hold a matching folder is left as it is. */
  lemma {:induction false} InsertUnderAbsent(y: Item, parentId: string, item: Item, position: Option<int>)
    requires parentId != RootId && y.id != parentId
    requires !(y.Folder? && FindItemById(y.children, parentId).Some?)
    ensures InsertUnder(y, parentId, item, position) == y
  {
    assert parentId !in SubtreeIds(y);
    NodeInsertAbsent(y, parentId, item, position);
  }

  lemma {:induction false} InsertFindIn(y: Item, parentId: string, item: Item, position: Option<int>)
    requires y.Folder? && item.id !in IdList(y.children)
    requires parentId == RootId ||
             (FindItemById(y.children, parentId).Some? && FindItemById(y.children, parentId).value.Folder?)
    ensures FindItemById(InsertItem(y.children, parentId, item, position), item.id) == Some(item)
    decreases y, 2
  {
    InsertFind(y.children, parentId, item, position);
  }

  /** Below the root, insertItem changes nothing when the id is absent. */
  lemma {:induction false} MapInsertAbsent(items: seq<Item>, parentId: string, item: Item, position: Option<int>)
    requires parentId != RootId && parentId !in IdList(items)
    ensures MapInsert(items, parentId, item, position) == items
    decreases items
  {
    if items != [] {
      var y := items[0];
      MapInsertCons(items, parentId, item, position);
      IdListCons(y, items[1..]);
      assert items == [y] + items[1..];
      NodeInsertAbsent(y, parentId, item, position);
      MapInsertAbsent(items[1..], parentId, item, position);
    }
  }

  lemma {:induction false} NodeInsertAbsent(y: Item, parentId: string, item: Item, position: Option<int>)
    requires parentId != RootId && parentId !in SubtreeIds(y)
    ensures InsertUnder(y, parentId, item, position) == y
    decreases y
  {
    if y.Folder? {
      assert parentId !in IdList(y.children);
      MapInsertAbsent(y.children, parentId, item, position);
      assert InsertItem(y.children, parentId, item, position) == y.children;
    }
  }

  // ------------------------------------------------------------------ round trip

  /** Inserting the extracted node back at the slot it was taken from restores the forest.
      `pre` is the part of the sibling list before `items`, so the slot's index counts from it. */
  lemma {:induction false} ExtractInsertFrom(pre: seq<Item>, items: seq<Item>, targetId: string, parentId: string)
    requires UniqueIds(pre + items) && RootId !in IdList(pre + items)
    requires parentId !in IdList(pre + items) && targetId in IdList(items)
    ensures var e := ExtractItem(items, targetId);
            var s := LocateItem(items, targetId, parentId, |pre|).value;
            (s.parentId == parentId ==> InsertAt(pre + e.newItems, Some(s.index), e.item.value) == pre + items) &&
            (s.parentId != parentId ==>
               s.parentId != RootId && s.parentId in IdList(items) &&
               MapInsert(pre + e.newItems, s.parentId, e.item.value, Some(s.index)) == pre + items)
    decreases items, 2
  {
    var x := items[0];
    if x.id == targetId {
      ExtractInsertHere(pre, items, targetId, parentId);
    } else if x.Folder? && ExtractItem(x.children, targetId).item.Some? {
      ExtractInsertBelow(pre, items, targetId, parentId);
    } else {
      ExtractInsertAfter(pre, items, targetId, parentId);
    }
  }

  lemma {:induction false} ExtractInsertHere(pre: seq<Item>, items: seq<Item>, targetId: string, parentId: string)
    requires items != [] && items[0].id == targetId
    ensures var e := ExtractItem(items, targetId);
            var s := LocateItem(items, targetId, parentId, |pre|).value;
            s.parentId == parentId && InsertAt(pre + e.newItems, Some(s.index), e.item.value) == pre + items
  {
    var x := items[0];
    var rest := items[1..];
    assert ExtractItem(items, targetId) == Extraction(Some(x), rest);
    assert LocateItem(items, targetId, parentId, |pre|) == Some(Slot(parentId, |pre|));
    var p := pre + rest;
    assert SliceIndex(|p|, Some(|pre|)) == |pre|;
    assert p[..|pre|] == pre && p[|pre|..] == rest;
    assert InsertAt(p, Some(|pre|), x) == pre + [x] + rest;
    assert pre + items == pre + [x] + rest;
  }

  lemma {:induction false} ExtractInsertAfter(pre: seq<Item>, items: seq<Item>, targetId: string, parentId: string)
    requires UniqueIds(pre + items) && RootId !in IdList(pre + items)
    requires parentId !in IdList(pre + items) && targetId in IdList(items)
    requires items != [] && items[0].id != targetId
    requires !(items[0].Folder? && ExtractItem(items[0].children, targetId).item.Some?)
    ensures var e := ExtractItem(items, targetId);
            var s := LocateItem(items, targetId, parentId, |pre|).value;
            (s.parentId == parentId ==> InsertAt(pre + e.newItems, Some(s.index), e.item.value) == pre + items) &&
            (s.parentId != parentId ==>
               s.parentId != RootId && s.parentId in IdList(items) &&
               MapInsert(pre + e.newItems, s.parentId, e.item.value, Some(s.index)) == pre + items)
    decreases items, 1
  {
    var x := items[0];
    var rest := items[1..];
    var pre' := pre + [x];
    ShiftOne(pre, items);
    AfterIds(items, targetId);
    AfterLocate(items, targetId, parentId, |pre|);
    AfterExtract(pre, items, targetId);
    ExtractInsertFrom(pre', rest, targetId, parentId);
  }

  /** Moving the first node of `items` to the end of `pre`. */
  lemma {:induction false} ShiftOne(pre: seq<Item>, items: seq<Item>)
    requires items != []
    ensures pre + items == (pre + [items[0]]) + items[1..]
    ensures |pre + [items[0]]| == |pre| + 1
  {
    assert items == [items[0]] + items[1..];
  }

  /** One step past a node that does not hold the id: extraction, location and ids all
      continue in the rest of the list. */
  lemma {:induction false} AfterIds(items: seq<Item>, targetId: string)
    requires targetId in IdList(items) && items != [] && items[0].id != targetId
    requires !(items[0].Folder? && ExtractItem(items[0].children, targetId).item.Some?)
    ensures targetId !in SubtreeIds(items[0])
    ensures targetId in IdList(items[1..]) && IdList(items) == SubtreeIds(items[0]) + IdList(items[1..])
  {
    var x := items[0];
    if x.Folder? {
      assert FindItemById(x.children, targetId).None?;
    }
  }

  lemma {:induction false} AfterLocate(items: seq<Item>, targetId: string, parentId: string, offset: nat)
    requires items != [] && targetId !in SubtreeIds(items[0])
    ensures LocateItem(items, targetId, parentId, offset) == LocateItem(items[1..], targetId, parentId, offset + 1)
  {
    var x := items[0];
    if x.Folder? {
      assert targetId !in IdList(x.children);
      assert LocateItem(x.children, targetId, x.id, 0).None?;
    }
  }

  lemma {:induction false} AfterExtract(pre: seq<Item>, items: seq<Item>, targetId: string)
    requires items != [] && items[0].id != targetId
    requires !(items[0].Folder? && ExtractItem(items[0].children, targetId).item.Some?)
    ensures pre + ExtractItem(items, targetId).newItems == (pre + [items[0]]) + ExtractItem(items[1..], targetId).newItems
    ensures ExtractItem(items, targetId).item == ExtractItem(items[1..], targetId).item
  {
    var x := items[0];
    var sub := ExtractItem(items[1..], targetId);
    assert ExtractItem(items, targetId) == Extraction(sub.item, [x] + sub.newItems);
    assert pre + ([x] + sub.newItems) == (pre + [x]) + sub.newItems;
  }

  lemma {:induction false} ExtractInsertBelow(pre: seq<Item>, items: seq<Item>, targetId: string, parentId: string)
    requires UniqueIds(pre + items) && RootId !in IdList(pre + items)
    requires parentId !in IdList(pre + items)
    requires items != [] && items[0].id != targetId && items[0].Folder? && targetId in IdList(items[0].children)
    ensures var e := ExtractItem(items, targetId);
            var s := LocateItem(items, targetId, parentId, |pre|).value;
            s.parentId != parentId && s.parentId != RootId && s.parentId in IdList(items) &&
            MapInsert(pre + e.newItems, s.parentId, e.item.value, Some(s.index)) == pre + items
    decreases items, 0
  {
    var x := items[0];
    var rest := items[1..];
    var sub := ExtractItem(x.children, targetId);
    var s := LocateItem(x.children, targetId, x.id, 0).value;
    var x' := x.(children := sub.newItems);
    BelowLocate(items, targetId, parentId, |pre|);
    BelowExtract(pre, items, targetId);
    UniqueFolderIn(pre, items);
    InsertUnderRestores(x, targetId);
    BelowDisjoint(pre, items, s.parentId, parentId);
    MapInsertAround(pre, [x'], rest, s.parentId, sub.item.value, Some(s.index));
    ShiftOne(pre, items);
  }

  /** The first node holds the id below it: location continues in its children. */
  lemma {:induction false} BelowLocate(items: seq<Item>, targetId: string, parentId: string, offset: nat)
    requires items != [] && items[0].id != targetId && items[0].Folder? && targetId in IdList(items[0].children)
    ensures LocateItem(items, targetId, parentId, offset) == LocateItem(items[0].children, targetId, items[0].id, 0)
  {
  }

  /** The first node holds the id below it: extraction rebuilds that node only. */
  lemma {:induction false} BelowExtract(pre: seq<Item>, items: seq<Item>, targetId: string)
    requires items != [] && items[0].id != targetId && items[0].Folder? && targetId in IdList(items[0].children)
    ensures var sub := ExtractItem(items[0].children, targetId);
            ExtractItem(items, targetId).item == sub.item &&
            pre + ExtractItem(items, targetId).newItems == pre + [items[0].(children := sub.newItems)] + items[1..]
  {
    var sub := ExtractItem(items[0].children, targetId);
    var e := ExtractItem(items, targetId);
    assert e == Extraction(sub.item, [items[0].(children := sub.newItems)] + items[1..]);
  }

  /** With unique ids, an id of the first node's subtree occurs nowhere else. */
  lemma {:induction false} BelowDisjoint(pre: seq<Item>, items: seq<Item>, q: string, parentId: string)
    requires UniqueIds(pre + items) && parentId !in IdList(pre + items)
    requires items != [] && q in SubtreeIds(items[0])
    ensures q !in IdList(pre) && q !in IdList(items[1..]) && q in IdList(items) && q != parentId
  {
    var x := items[0];
    assert items == [x] + items[1..];
    IdListConcat(pre, items);
    IdListCons(x, items[1..]);
    UniqueSuffix(pre, items);
    UniqueSplit(items);
  }

  /** The later part of a forest without repeated ids has none either, and shares no id
      with the earlier part. */
  lemma {:induction false} UniqueSuffix(pre: seq<Item>, items: seq<Item>)
    requires UniqueIds(pre + items)
    ensures UniqueIds(items)
    ensures forall z :: z in IdList(pre) ==> z !in IdList(items)
  {
    IdListConcat(pre, items);
    DisjointFromUnique(IdList(pre), IdList(items));
    UniqueSub(items, pre + items);
  }

  /** Below the root, insertItem only touches the part of the forest holding the parent id. */
  lemma {:induction false} MapInsertAround(pre: seq<Item>, mid: seq<Item>, post: seq<Item>, parentId: string, item: Item, position: Option<int>)
    requires parentId != RootId && parentId !in IdList(pre) && parentId !in IdList(post)
    ensures MapInsert(pre + mid + post, parentId, item, position) ==
            pre + MapInsert(mid, parentId, item, position) + post
  {
    MapInsertAbsent(pre, parentId, item, position);
    MapInsertAbsent(post, parentId, item, position);
    MapInsertConcat(pre + mid, post, parentId, item, position);
    MapInsertConcat(pre, mid, parentId, item, position);
  }

  lemma {:induction false} UniqueFolderIn(pre: seq<Item>, items: seq<Item>)
    requires UniqueIds(pre + items) && RootId !in IdList(pre + items) && items != [] && items[0].Folder?
    ensures UniqueIds(items[0].children) && RootId !in IdList(items[0].children)
    ensures items[0].id !in IdList(items[0].children) && items[0].id != RootId
  {
    IdListConcat(pre, items);
    IdListCons(items[0], items[1..]);
    assert items == [items[0]] + items[1..];
    UniqueSub(items, pre + items);
    UniqueSplit(items);
  }

  /** Re-inserting into a folder whose children lost the node restores the folder. */
  lemma {:induction false} InsertUnderRestores(x: Item, targetId: string)
    requires x.Folder? && UniqueIds(x.children) && RootId !in IdList(x.children)
    requires x.id !in IdList(x.children) && x.id != RootId && targetId in IdList(x.children)
    ensures var e := ExtractItem(x.children, targetId);
            var s := LocateItem(x.children, targetId, x.id, 0).value;
            s.parentId in SubtreeIds(x) && s.parentId != RootId &&
            MapInsert([x.(children := e.newItems)], s.parentId, e.item.value, Some(s.index)) == [x]
    decreases x, 3
  {
    var e := ExtractItem(x.children, targetId);
    var s := LocateItem(x.children, targetId, x.id, 0).value;
    var x' := x.(children := e.newItems);
    ExtractInsertIn(x, targetId);
    assert MapInsert([x'], s.parentId, e.item.value, Some(s.index)) ==
           [InsertUnder(x', s.parentId, e.item.value, Some(s.index))];
    if s.parentId == x.id {
      assert InsertUnder(x', s.parentId, e.item.value, Some(s.index)) == x'.(children := x.children);
    } else {
      assert InsertUnder(x', s.parentId, e.item.value, Some(s.index)) == x'.(children := x.children);
    }
  }

  lemma {:induction false} ExtractInsertIn(x: Item, targetId: string)
    requires x.Folder? && UniqueIds(x.children) && RootId !in IdList(x.children)
    requires x.id !in IdList(x.children) && x.id != RootId && targetId in IdList(x.children)
    ensures var e := ExtractItem(x.children, targetId);
            var s := LocateItem(x.children, targetId, x.id, 0).value;
            (s.parentId == x.id ==> InsertAt(e.newItems, Some(s.index), e.item.value) == x.children) &&
            (s.parentId != x.id ==>
               s.parentId != RootId && s.parentId in IdList(x.children) &&
               MapInsert(e.newItems, s.parentId, e.item.value, Some(s.index)) == x.children)
    decreases x, 2
  {
    assert [] + x.children == x.children;
    ExtractInsertFrom([], x.children, targetId, x.id);
    assert [] + ExtractItem(x.children, targetId).newItems == ExtractItem(x.children, targetId).newItems;
  }

  /** moveItem's undo: extracting a node and inserting it back at the parent and index it was
      taken from gives back the original forest. */
  lemma {:induction false} ExtractInsertRoundTrip(items: seq<Item>, targetId: string)
    requires UniqueIds(items) && RootId !in IdList(items) && targetId in IdList(items)
    ensures var e := ExtractItem(items, targetId);
            var s := LocateItem(items, targetId, RootId, 0).value;
            InsertItem(e.newItems, s.parentId, e.item.value, Some(s.index)) == items
  {
    assert [] + items == items;
    ExtractInsertFrom([], items, targetId, RootId);
    assert [] + ExtractItem(items, targetId).newItems == ExtractItem(items, targetId).newItems;
  }

  // ------------------------------------------------------------------ isDescendant / moveItem lemmas

  /** A legal move onto the root or onto a folder outside the moved subtree keeps the node,
      unchanged, and keeps the ids (so they stay unique); with no index it goes to the end. */
  lemma {:induction false} MoveKeepsNode(items: seq<Item>, itemId: string, newParentId: string, index: Option<int>)
    requires UniqueIds(items) && FindItemById(items, itemId).Some?
    requires newParentId == RootId ||
             (newParentId !in SubtreeIds(FindItemById(items, itemId).value) &&
              FindItemById(items, newParentId).Some? && FindItemById(items, newParentId).value.Folder?)
    ensures MoveItem(items, itemId, newParentId, index).Some?
    ensures var r := MoveItem(items, itemId, newParentId, index).value;
            FindItemById(r, itemId) == FindItemById(items, itemId) &&
            multiset(IdList(r)) == multiset(IdList(items)) && UniqueIds(r)
    ensures newParentId == RootId && index.None? ==>
            MoveItem(items, itemId, newParentId, index) ==
            Some(ExtractItem(items, itemId).newItems + [FindItemById(items, itemId).value])
  {
    var e := ExtractItem(items, itemId);
    var x := e.item.value;
    ExtractIds(items, itemId);
    assert multiset(SubtreeIds(x))[itemId] >= 1;
    assert itemId !in IdList(e.newItems) by {
      assert multiset(IdList(items))[itemId] <= 1;
    }
    if newParentId != RootId {
      ExtractKeepsFolder(items, itemId, newParentId);
      assert multiset(IdList(e.newItems))[newParentId] <= multiset(IdList(items))[newParentId];
    }
    InsertFind(e.newItems, newParentId, x, index);
    InsertIds(e.newItems, newParentId, x, index);
  }

  /** Where a legal move puts the node: at the slice index of the top-level list left by the
      extraction for the root, or at the slice index of the target folder's children as the
      extraction left them. */
  lemma {:induction false} MovePlacesNode(items: seq<Item>, itemId: string, newParentId: string, index: Option<int>)
    requires UniqueIds(items) && FindItemById(items, itemId).Some?
    requires newParentId == RootId ||
             (newParentId !in SubtreeIds(FindItemById(items, itemId).value) &&
              FindItemById(items, newParentId).Some? && FindItemById(items, newParentId).value.Folder?)
    ensures newParentId == RootId ==>
            MoveItem(items, itemId, newParentId, index) ==
            Some(InsertAt(ExtractItem(items, itemId).newItems, index, FindItemById(items, itemId).value))
    ensures newParentId != RootId ==>
            var rest := ExtractItem(items, itemId).newItems;
            FindItemById(rest, newParentId).Some? && FindItemById(rest, newParentId).value.Folder? &&
            var f := FindItemById(rest, newParentId).value;
            MoveItem(items, itemId, newParentId, index).Some? &&
            FindItemById(MoveItem(items, itemId, newParentId, index).value, newParentId) ==
              Some(f.(children := InsertAt(f.children, index, FindItemById(items, itemId).value)))
  {
    MoveKeepsNode(items, itemId, newParentId, index);
    if newParentId != RootId {
      var rest := ExtractItem(items, itemId).newItems;
      var x := FindItemById(items, itemId).value;
      ExtractKeepsFolder(items, itemId, newParentId);
      MapInsertIsUpdate(rest, newParentId, x, index);
      UpdateFind(rest, newParentId, InsertUpdater(x, index));
    }
  }

  /** The quirk callers guard against: when the target is not the root and no folder with that
      id remains after extraction, the node is extracted and not re-inserted, so it is lost. */
  lemma {:induction false} MoveLosesNode(items: seq<Item>, itemId: string, newParentId: string, index: Option<int>)
    requires UniqueIds(items) && FindItemById(items, itemId).Some? && newParentId != RootId
    requires !(FindItemById(items, itemId).value.Folder? && newParentId in SubtreeIds(FindItemById(items, itemId).value))
    requires var rest := ExtractItem(items, itemId).newItems;
             !(FindItemById(rest, newParentId).Some? && FindItemById(rest, newParentId).value.Folder?)
    ensures MoveItem(items, itemId, newParentId, index) == Some(ExtractItem(items, itemId).newItems)
    ensures itemId !in IdList(ExtractItem(items, itemId).newItems)
  {
    var e := ExtractItem(items, itemId);
    var x := e.item.value;
    ExtractIds(items, itemId);
    assert multiset(SubtreeIds(x))[itemId] >= 1;
    assert multiset(IdList(items))[itemId] <= 1;
    assert multiset(IdList(e.newItems))[newParentId] <= multiset(IdList(items))[newParentId];
    MapInsertNoFolder(e.newItems, newParentId, x, index);
  }

  // ------------------------------------------------------------------ provider rebuilds

  /** Two updaters that agree on the nodes with the id give the same update. */
  lemma {:induction false} UpdateSameUpdater(items: seq<Item>, itemId: string, f: Item -> Item, g: Item -> Item)
    requires forall x: Item :: x.id == itemId ==> f(x) == g(x)
    ensures UpdateItemInTree(items, itemId, f) == UpdateItemInTree(items, itemId, g)
  {
    if items != [] {
      if items[0].Folder? { UpdateSameUpdater(items[0].children, itemId, f, g); }
      UpdateSameUpdater(items[1..], itemId, f, g);
    }
  }

  /** Adding a child is inserting it at the end of the parent. */
  lemma {:induction false} AddChildIsInsert(items: seq<Item>, parentId: string, node: Item)
    ensures AddChild(items, parentId, node) == InsertItem(items, parentId, node, None)
  {
    if parentId != RootId {
      UpdateSameUpdater(items, parentId, AppendUpdater(node), InsertUpdater(node, None));
      MapInsertIsUpdate(items, parentId, node, None);
    }
  }

  /** A new node added under the root or under a folder is found afterwards, as it was built,
      as the last child of that folder, and adds exactly its own ids. */
  lemma {:induction false} AddChildFind(items: seq<Item>, parentId: string, node: Item)
    requires node.id !in IdList(items) && multiset(IdList(items))[parentId] <= 1
    requires parentId == RootId || (FindItemById(items, parentId).Some? && FindItemById(items, parentId).value.Folder?)
    ensures FindItemById(AddChild(items, parentId, node), node.id) == Some(node)
    ensures multiset(IdList(AddChild(items, parentId, node))) == multiset(IdList(items)) + multiset(SubtreeIds(node))
    ensures parentId != RootId ==>
            var f := FindItemById(items, parentId).value;
            FindItemById(AddChild(items, parentId, node), parentId) == Some(f.(children := f.children + [node]))
  {
    AddChildIsInsert(items, parentId, node);
    InsertFind(items, parentId, node, None);
    InsertIds(items, parentId, node, None);
    if parentId != RootId {
      UpdateFind(items, parentId, AppendUpdater(node));
    }
  }

  /** addEntry or addFolder aimed at an entry, or at an id that is not there, leaves the
      forest as it was: the new node is dropped. */
  lemma {:induction false} AddChildDropsNode(items: seq<Item>, parentId: string, node: Item)
    requires parentId != RootId && multiset(IdList(items))[parentId] <= 1
    requires !(FindItemById(items, parentId).Some? && FindItemById(items, parentId).value.Folder?)
    ensures AddChild(items, parentId, node) == items
  {
    UpdateNoop(items, parentId, AppendUpdater(node));
  }

  /** Renaming sets the found node's name (and an entry's `modified`) and changes no other
      node and no id. */
  lemma {:induction false} RenameEffect(items: seq<Item>, itemId: string, newName: string, now: Timestamp, k: string)
    ensures var r := UpdateItemInTree(items, itemId, RenameUpdater(newName, now));
            IdList(r) == IdList(items) &&
            FindItemById(r, itemId) ==
              (if FindItemById(items, itemId).Some? then Some(RenameUpdater(newName, now)(FindItemById(items, itemId).value)) else None) &&
            (FindItemById(items, k).Some? && itemId !in SubtreeIds(FindItemById(items, k).value) ==>
               FindItemById(r, k) == FindItemById(items, k))
  {
    var u := RenameUpdater(newName, now);
    assert KeepsShape(u, itemId);
    UpdatePreservesIds(items, itemId, u);
    UpdateFind(items, itemId, u);
    if FindItemById(items, k).Some? && itemId !in SubtreeIds(FindItemById(items, k).value) {
      UpdateKeepsUntouched(items, itemId, u, k);
    }
  }

  /** updateEntry stores the content on the entry found, and changes no other node and no id. */
  lemma {:induction false} UpdateEntryEffect(items: seq<Item>, entryId: string, content: Content, now: Timestamp, k: string)
    ensures var r := UpdateItemInTree(items, entryId, ContentUpdater(content, now));
            IdList(r) == IdList(items) &&
            FindItemById(r, entryId) ==
              (if FindItemById(items, entryId).Some? then Some(ContentUpdater(content, now)(FindItemById(items, entryId).value)) else None) &&
            (FindItemById(items, k).Some? && entryId !in SubtreeIds(FindItemById(items, k).value) ==>
               FindItemById(r, k) == FindItemById(items, k))
  {
    var u := ContentUpdater(content, now);
    assert KeepsShape(u, entryId);
    UpdatePreservesIds(items, entryId, u);
    UpdateFind(items, entryId, u);
    if FindItemById(items, k).Some? && entryId !in SubtreeIds(FindItemById(items, k).value) {
      UpdateKeepsUntouched(items, entryId, u, k);
    }
  }

  /** TOGGLE_FOLDER_EXPANDED is updateItemInTree with the flip updater. */
  lemma {:induction false} ToggleIsUpdate(items: seq<Item>, folderId: string)
    ensures ToggleExpanded(items, folderId) == UpdateItemInTree(items, folderId, FlipUpdater())
  {
    if items != [] {
      if items[0].Folder? { ToggleIsUpdate(items[0].children, folderId); }
      ToggleIsUpdate(items[1..], folderId);
    }
  }

  /** Toggling flips the found folder's flag (absent counts as collapsed), keeps every id and
      leaves every node outside that folder unchanged. */
  lemma {:induction false} ToggleEffect(items: seq<Item>, folderId: string, k: string)
    ensures var r := ToggleExpanded(items, folderId);
            IdList(r) == IdList(items) &&
            (FindItemById(items, folderId).Some? && FindItemById(items, folderId).value.Folder? ==>
               FindItemById(r, folderId).Some? &&
               IsExpanded(FindItemById(r, folderId).value) == !IsExpanded(FindItemById(items, folderId).value)) &&
            (FindItemById(items, k).Some? && folderId !in SubtreeIds(FindItemById(items, k).value) ==>
               FindItemById(r, k) == FindItemById(items, k))
  {
    var u := FlipUpdater();
    ToggleIsUpdate(items, folderId);
    assert KeepsShape(u, folderId);
    UpdatePreservesIds(items, folderId, u);
    UpdateFind(items, folderId, u);
    if FindItemById(items, k).Some? && folderId !in SubtreeIds(FindItemById(items, k).value) {
      UpdateKeepsUntouched(items, folderId, u, k);
    }
  }

  /** Every move that happens takes no id twice: the ids afterwards are a sub-multiset of the
      ids before (equal when the node is re-inserted), so unique ids stay unique. */
  lemma {:induction false} MoveKeepsIdsUnique(items: seq<Item>, itemId: string, newParentId: string, index: Option<int>)
    requires UniqueIds(items) && MoveItem(items, itemId, newParentId, index).Some?
    ensures multiset(IdList(MoveItem(items, itemId, newParentId, index).value)) <= multiset(IdList(items))
    ensures UniqueIds(MoveItem(items, itemId, newParentId, index).value)
  {
    var e := ExtractItem(items, itemId);
    var x := e.item.value;
    var r := MoveItem(items, itemId, newParentId, index).value;
    ExtractIds(items, itemId);
    assert multiset(IdList(e.newItems))[newParentId] <= multiset(IdList(items))[newParentId];
    if newParentId == RootId || (FindItemById(e.newItems, newParentId).Some? && FindItemById(e.newItems, newParentId).value.Folder?) {
      InsertIds(e.newItems, newParentId, x, index);
    } else {
      MapInsertNoFolder(e.newItems, newParentId, x, index);
    }
    UniqueSub(r, items);
  }
}
