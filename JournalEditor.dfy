/** The entry editor of src/components/layout/JournalEditor.tsx: the lookup of the open entry,
    the effect that loads its stored blocks into the editor once per entry, and the decision
    to schedule a save when the editor document changes. */
module JournalEditor {
  import opened JournalTypes
  import opened JournalTree

  // ------------------------------------------------------------------ findEntryById

  /** Depth-first search for an entry with the id: a folder with that id is passed over, and
      its children are still searched. */
  function FindEntryById(items: seq<Item>, id: string): (r: Option<Item>)
    ensures r.Some? ==> r.value.Entry? && r.value.id == id
  {
    if items == [] then None
    else if items[0].id == id && items[0].Entry? then Some(items[0])
    else if items[0].Folder? && FindEntryById(items[0].children, id).Some? then
      FindEntryById(items[0].children, id)
    else FindEntryById(items[1..], id)
  }

  /** The first entry with the id in a node list. */
  function FirstEntryWithId(nodes: seq<Item>, id: string): (r: Option<Item>)
  {
    if nodes == [] then None
    else if nodes[0].id == id && nodes[0].Entry? then Some(nodes[0])
    else FirstEntryWithId(nodes[1..], id)
  }

  lemma {:induction false} FirstEntryConcat(a: seq<Item>, b: seq<Item>, id: string)
    ensures FirstEntryWithId(a + b, id) ==
            if FirstEntryWithId(a, id).Some? then FirstEntryWithId(a, id) else FirstEntryWithId(b, id)
  {
    if a == [] {
      assert a + b == b;
    } else {
      assert (a + b)[0] == a[0];
      assert (a + b)[1..] == a[1..] + b;
      FirstEntryConcat(a[1..], b, id);
    }
  }

  /** findEntryById returns the first entry with the id in depth-first pre-order, and null
      when there is none. */
  lemma {:induction false} FindEntryIsFirstInPreOrder(items: seq<Item>, id: string)
    ensures FindEntryById(items, id) == FirstEntryWithId(PreOrder(items), id)
  {
    if items != [] {
      var x := items[0];
      var sub := if x.Folder? then PreOrder(x.children) else [];
      assert PreOrder(items) == [x] + sub + PreOrder(items[1..]);
      FirstEntryConcat([x] + sub, PreOrder(items[1..]), id);
      FirstEntryConcat([x], sub, id);
      if x.Folder? { FindEntryIsFirstInPreOrder(x.children, id); }
      FindEntryIsFirstInPreOrder(items[1..], id);
    }
  }

  /** With unique ids, findEntryById is findItemById restricted to entries. */
  lemma {:induction false} FindEntryIsFindItem(items: seq<Item>, id: string)
    requires UniqueIds(items)
    ensures FindEntryById(items, id) ==
            if FindItemById(items, id).Some? && FindItemById(items, id).value.Entry? then FindItemById(items, id) else None
  {
    if items != [] {
      var x := items[0];
      UniqueSplit(items);
      if x.Folder? { FindEntryIsFindItem(x.children, id); }
      FindEntryIsFindItem(items[1..], id);
      if x.id == id && x.Folder? {
        assert FindEntryById(x.children, id).None?;
      }
    }
  }

  /** The entry an editor tab shows: looked up only while a document is open. */
  function EditorEntry(journal: Option<JournalBlock>, entryId: string): (r: Option<Item>)
    ensures r.Some? ==> journal.Some? && r == FindEntryById(journal.value.structure.children, entryId)
  {
    if journal.Some? then FindEntryById(journal.value.structure.children, entryId) else None
  }

  // ------------------------------------------------------------------ load and save decisions

  /** `[{ type: "paragraph", content: "" }]`: the document of an empty editor. */
  function EmptyDocument(): seq<Block>
  {
    [Block("paragraph", Some([]), None, "")]
  }

  /** `entry.content || []` as the save check reads it: the block array it compares with, or
      None for a stored value that is not an array (and so never equal to the document). */
  function SavedBlocks(content: Content): (r: Option<seq<Block>>)
    ensures content.Blocks? ==> r == Some(content.blocks)
    ensures content.Missing? ==> r == Some([])
  {
    match content
    case Missing => Some([])
    case Text(t) => if t == "" then Some([]) else None
    case Blocks(blocks) => Some(blocks)
    case Opaque(_, truthy) => if truthy then None else Some([])
  }

  /** handleContentChange: a save of `document` is scheduled only for an open entry, a
      non-empty document, and a document that differs from what is stored. */
  function SaveRequest(document: seq<Block>, entry: Option<Item>): (r: Option<seq<Block>>)
    ensures r.Some? <==> entry.Some? && entry.value.Entry? && |document| > 0 &&
                         SavedBlocks(entry.value.content) != Some(document)
    ensures r.Some? ==> r.value == document
  {
    if entry.Some? && entry.value.Entry? && |document| > 0 && SavedBlocks(entry.value.content) != Some(document) then
      Some(document)
    else None
  }

  /** What the editor shows and which entry it last loaded. */
  datatype EditorView = EditorView(document: seq<Block>, loadedEntryId: Option<string>)

  /** The blocks the load effect leaves in the editor: non-empty stored blocks equal to the
      current document are left alone (the editor is not called, so it cannot throw); other
      non-empty stored blocks replace the document unless the editor throws on them; anything
      else gives an empty paragraph. */
  function LoadedDocument(current: seq<Block>, content: Content, rejected: bool): (r: seq<Block>)
    ensures content.Blocks? && |content.blocks| > 0 && (!rejected || current == content.blocks) ==>
              r == content.blocks
    ensures content.Blocks? && |content.blocks| > 0 && rejected && current != content.blocks ==>
              r == EmptyDocument()
    ensures !(content.Blocks? && |content.blocks| > 0) ==> r == EmptyDocument()
  {
    if content.Blocks? && |content.blocks| > 0 then
      if current == content.blocks then current
      else if rejected then EmptyDocument()
      else content.blocks
    else EmptyDocument()
  }

  /** The load effect: it runs only for an entry other than the one last loaded, and then
      records that entry's id. `rejected` is the editor throwing on the stored blocks. */
  function AfterLoad(v: EditorView, entry: Option<Item>, rejected: bool): (r: EditorView)
    ensures entry.None? || !entry.value.Entry? || v.loadedEntryId == Some(entry.value.id) ==> r == v
    ensures entry.Some? && entry.value.Entry? && v.loadedEntryId != Some(entry.value.id) ==>
            r.loadedEntryId == Some(entry.value.id)
  {
    if entry.Some? && entry.value.Entry? && v.loadedEntryId != Some(entry.value.id) then
      EditorView(LoadedDocument(v.document, entry.value.content, rejected), Some(entry.value.id))
    else v
  }

  /** Content is loaded at most once per entry id: a second run of the effect for the same
      entry changes nothing, whatever the editor does. */
  lemma {:induction false} LoadAtMostOnce(v: EditorView, entry: Option<Item>, rejected: bool, rejectedAgain: bool)
    ensures AfterLoad(AfterLoad(v, entry, rejected), entry, rejectedAgain) == AfterLoad(v, entry, rejected)
  {
  }

  /** Loading and saving agree: right after stored blocks are loaded, the editor document
      equals them and no save is scheduled. This holds when the editor accepts the blocks, and
      also when it would reject them but already shows them. */
  lemma {:induction false} LoadThenNoSave(v: EditorView, entry: Option<Item>, rejected: bool)
    requires entry.Some? && entry.value.Entry? && entry.value.content.Blocks? && |entry.value.content.blocks| > 0
    requires v.loadedEntryId != Some(entry.value.id)
    requires !rejected || v.document == entry.value.content.blocks
    ensures AfterLoad(v, entry, rejected).document == entry.value.content.blocks
    ensures SaveRequest(AfterLoad(v, entry, rejected).document, entry).None?
  {
  }

  /** A rejection only matters when the blocks differ from what the editor shows: then the
      editor falls back to an empty paragraph, and a content change reporting that paragraph
      would schedule a save of it over the stored blocks. */
  lemma {:induction false} RejectedLoadResets(v: EditorView, entry: Option<Item>)
    requires entry.Some? && entry.value.Entry? && entry.value.content.Blocks? && |entry.value.content.blocks| > 0
    requires v.loadedEntryId != Some(entry.value.id) && v.document != entry.value.content.blocks
    ensures AfterLoad(v, entry, true).document == EmptyDocument()
    ensures AfterLoad(v, entry, true).loadedEntryId == Some(entry.value.id)
    ensures entry.value.content.blocks != EmptyDocument() ==>
              SaveRequest(AfterLoad(v, entry, true).document, entry) == Some(EmptyDocument())
  {
  }

  /** An edit that only restyles text is a change: a bold "hi" over a stored plain "hi"
      schedules a save, and loading the plain one over the bold one replaces it. */
  lemma {:induction false} RestyleIsAChange(id: string, now: Timestamp)
    ensures var plain := [Block("paragraph", Some([InlineContent(Some("hi"), "")]), None, "")];
            var bold := [Block("paragraph", Some([InlineContent(Some("hi"), "bold")]), None, "")];
            var entry := Entry(id, "Note", Blocks(plain), now, now);
            SaveRequest(bold, Some(entry)) == Some(bold) && LoadedDocument(bold, Blocks(plain), false) == plain
  {
    var plain := [Block("paragraph", Some([InlineContent(Some("hi"), "")]), None, "")];
    var bold := [Block("paragraph", Some([InlineContent(Some("hi"), "bold")]), None, "")];
    assert bold[0].content.value[0].rest != plain[0].content.value[0].rest;
  }

  /** Once updateEntry has stored the document, the same document schedules no further save. */
  lemma {:induction false} SavedDocumentSettles(document: seq<Block>, entry: Item, now: Timestamp)
    requires entry.Entry?
    ensures SaveRequest(document, Some(ContentUpdater(Blocks(document), now)(entry))).None?
  {
  }

  /** The editor component's state: its document and the last loaded entry id. */
  class EditorSession {
    var document: seq<Block>
    var loadedEntryId: Option<string>

    /** useBlockNote's initial content, and no entry loaded yet. */
    constructor()
      ensures document == EmptyDocument() && loadedEntryId.None?
    {
      document := EmptyDocument();
      loadedEntryId := None;
    }

    function View(): EditorView
      reads this
    {
      EditorView(document, loadedEntryId)
    }

    /** The load effect, replacing the editor blocks and recording the entry id. */
    method Load(entry: Option<Item>, rejected: bool)
      modifies this
      ensures View() == AfterLoad(old(View()), entry, rejected)
    {
      if entry.Some? && entry.value.Entry? && loadedEntryId != Some(entry.value.id) {
        var content := entry.value.content;
        if content.Blocks? && |content.blocks| > 0 {
          if document != content.blocks {
            if rejected {
              document := EmptyDocument();
            } else {
              document := content.blocks;
            }
          }
        } else {
          document := EmptyDocument();
        }
        loadedEntryId := Some(entry.value.id);
      }
    }

    /** handleContentChange after the user edits: the new document, and the save it schedules. */
    method Edit(newDocument: seq<Block>, entry: Option<Item>) returns (scheduled: Option<seq<Block>>)
      modifies this
      ensures document == newDocument && loadedEntryId == old(loadedEntryId)
      ensures scheduled == SaveRequest(newDocument, entry)
    {
      document := newDocument;
      scheduled := SaveRequest(document, entry);
    }
  }
}
