/** The Electron main process of main.cjs, without its file and dialog I/O: the recent-files
    list kept in `~/.journal-blocks-recent.json`, the document a new `.jb` file starts with,
    and the conversion of an entry to Markdown for export. */
module MainProcess {
  import opened JournalTypes
  import opened JournalTree

  // ------------------------------------------------------------------ recent files

  /** At most this many recent files are kept. */
  const MaxRecentFiles: nat := 10

  /** `recent.findIndex(f => f.path === filePath)`. */
  function PathIndex(recent: seq<RecentFile>, filePath: string): (r: int)
    ensures -1 <= r < |recent|
    ensures r >= 0 ==> recent[r].path == filePath && forall j :: 0 <= j < r ==> recent[j].path != filePath
    ensures r == -1 <==> forall j :: 0 <= j < |recent| ==> recent[j].path != filePath
  {
    if recent == [] then -1
    else if recent[0].path == filePath then 0
    else
      var k := PathIndex(recent[1..], filePath);
      if k == -1 then -1 else k + 1
  }

  /** `list.slice(0, 10)`. */
  function KeepFirst(list: seq<RecentFile>): (r: seq<RecentFile>)
    ensures |r| == if |list| < MaxRecentFiles then |list| else MaxRecentFiles
    ensures r == list[..|r|]
  {
    if |list| <= MaxRecentFiles then list else list[..MaxRecentFiles]
  }

  /** The list updateRecentFiles writes: the record of an already listed path replaced where
      it stands, a new path put in front, and the first ten kept. */
  function RecentAfterOpen(recent: seq<RecentFile>, filePath: string, title: string, now: Timestamp): (r: seq<RecentFile>)
    ensures 1 <= |r| <= MaxRecentFiles
    ensures forall f :: f in r ==> f in recent || f == RecentFile(filePath, title, now)
  {
    var newFile := RecentFile(filePath, title, now);
    var existing := PathIndex(recent, filePath);
    KeepFirst(if existing >= 0 then recent[existing := newFile] else [newFile] + recent)
  }

  /** updateRecentFiles, as the in-place updates of the array read back from disk. */
  method UpdateRecentFiles(recent: seq<RecentFile>, filePath: string, title: string, now: Timestamp)
    returns (trimmed: seq<RecentFile>)
    ensures trimmed == RecentAfterOpen(recent, filePath, title, now)
  {
    var list := recent;
    var i := 0;
    while i < |list| && list[i].path != filePath
      invariant 0 <= i <= |list|
      invariant forall j :: 0 <= j < i ==> list[j].path != filePath
    {
      i := i + 1;
    }
    var existing := if i < |list| then i else -1;
    assert existing == PathIndex(recent, filePath);
    var newFile := RecentFile(filePath, title, now);
    if existing >= 0 {
      list := list[existing := newFile];
    } else {
      list := [newFile] + list;
    }
    trimmed := if |list| <= MaxRecentFiles then list else list[..MaxRecentFiles];
  }

  /** Opening a listed file refreshes its record in place: it does not move to the front,
      and no other record changes. */
  lemma {:induction false} OpenListedKeepsPlace(recent: seq<RecentFile>, filePath: string, title: string, now: Timestamp, i: nat)
    requires i < |recent| && recent[i].path == filePath && forall j :: 0 <= j < i ==> recent[j].path != filePath
    ensures var r := RecentAfterOpen(recent, filePath, title, now);
            |r| == (if |recent| < MaxRecentFiles then |recent| else MaxRecentFiles) &&
            (i < MaxRecentFiles ==> r[i] == RecentFile(filePath, title, now)) &&
            forall j :: 0 <= j < |r| && j != i ==> r[j] == recent[j]
  {
    assert PathIndex(recent, filePath) == i;
  }

  /** Opening a file not yet listed puts it first and shifts the others down, dropping the
      tenth when the list is full. */
  lemma {:induction false} OpenNewPrepends(recent: seq<RecentFile>, filePath: string, title: string, now: Timestamp)
    requires forall j :: 0 <= j < |recent| ==> recent[j].path != filePath
    ensures var r := RecentAfterOpen(recent, filePath, title, now);
            |r| >= 1 && r[0] == RecentFile(filePath, title, now) &&
            r[1..] == recent[..|r| - 1]
  {
  }

  /** The opened file is in the list afterwards unless an older, longer list held it at
      position 10 or later, where the slice drops it. */
  lemma {:induction false} OpenedIsListed(recent: seq<RecentFile>, filePath: string, title: string, now: Timestamp)
    ensures RecentFile(filePath, title, now) in RecentAfterOpen(recent, filePath, title, now) <==>
            PathIndex(recent, filePath) < MaxRecentFiles as int
  {
    var r := RecentAfterOpen(recent, filePath, title, now);
    var k := PathIndex(recent, filePath);
    var f := RecentFile(filePath, title, now);
    if k >= 0 {
      var list := recent[k := f];
      if k < MaxRecentFiles {
        assert r[k] == f;
      } else {
        forall j | 0 <= j < |r| ensures r[j] != f {
          assert r[j] == recent[j];
        }
      }
    } else {
      assert r[0] == f;
    }
  }

  /** Paths without repeats stay without repeats, and the list never exceeds ten records. */
  lemma {:induction false} OpenKeepsPathsUnique(recent: seq<RecentFile>, filePath: string, title: string, now: Timestamp)
    requires forall i, j :: 0 <= i < j < |recent| ==> recent[i].path != recent[j].path
    ensures var r := RecentAfterOpen(recent, filePath, title, now);
            |r| <= MaxRecentFiles && forall i, j :: 0 <= i < j < |r| ==> r[i].path != r[j].path
  {
    var k := PathIndex(recent, filePath);
    var f := RecentFile(filePath, title, now);
    var list := if k >= 0 then recent[k := f] else [f] + recent;
    forall i, j | 0 <= i < j < |list| ensures list[i].path != list[j].path {
      if k < 0 {
        if i > 0 { assert list[i] == recent[i - 1] && list[j] == recent[j - 1]; }
        else { assert list[j] == recent[j - 1]; }
      }
    }
  }

  /** delete-recent-file: every record of the path goes, the others stay in order. */
  function DeleteRecent(recent: seq<RecentFile>, filePath: string): (r: seq<RecentFile>)
    ensures forall f :: f in r <==> f in recent && f.path != filePath
    ensures |r| <= |recent|
  {
    if recent == [] then []
    else (if recent[0].path == filePath then [] else [recent[0]]) + DeleteRecent(recent[1..], filePath)
  }

  /** Deletion works piecewise, so the surviving records keep their relative order. */
  lemma {:induction false} DeleteRecentConcat(a: seq<RecentFile>, b: seq<RecentFile>, filePath: string)
    ensures DeleteRecent(a + b, filePath) == DeleteRecent(a, filePath) + DeleteRecent(b, filePath)
  {
    if a == [] {
      assert a + b == b;
    } else {
      assert (a + b)[0] == a[0];
      assert (a + b)[1..] == a[1..] + b;
      DeleteRecentConcat(a[1..], b, filePath);
    }
  }

  /** Deleting a path that is not listed changes nothing. */
  lemma {:induction false} DeleteUnlisted(recent: seq<RecentFile>, filePath: string)
    requires forall j :: 0 <= j < |recent| ==> recent[j].path != filePath
    ensures DeleteRecent(recent, filePath) == recent
  {
    if recent != [] {
      DeleteUnlisted(recent[1..], filePath);
      assert recent == [recent[0]] + recent[1..];
    }
  }

  /** Deleting a file right after opening it leaves no record of it. */
  lemma {:induction false} DeleteAfterOpen(recent: seq<RecentFile>, filePath: string, title: string, now: Timestamp)
    ensures forall f :: f in DeleteRecent(RecentAfterOpen(recent, filePath, title, now), filePath) ==> f.path != filePath
  {
  }

  // ------------------------------------------------------------------ create-jb-file

  /** The last segment of a POSIX path. */
  function LastSegment(p: string): (r: string)
    ensures '/' !in r
    ensures |r| <= |p| && r == p[|p| - |r|..]
  {
    if p == [] then []
    else if p[|p| - 1] == '/' then []
    else
      var r := LastSegment(p[..|p| - 1]);
      assert p[..|p| - 1][|p| - 1 - |r|..] == p[|p| - 1 - |r|..|p| - 1];
      r + [p[|p| - 1]]
  }

  /** `path.basename(filePath, '.jb')`: the last segment, without a trailing `.jb` unless
      that is all there is. */
  function TitleFromPath(filePath: string): (r: string)
    ensures '/' !in r
  {
    var b := LastSegment(filePath);
    if |b| > 3 && b[|b| - 3..] == ".jb" then b[..|b| - 3] else b
  }

  /** The document create-jb-file writes. */
  function NewDocument(filePath: string, now: Timestamp): JournalBlock
  {
    JournalBlock(TitleFromPath(filePath), "1.0", now, now, Settings(300, Light), Structure(RootId, "Root", []))
  }

  /** The last segment of `dir/name` is `name`. */
  lemma {:induction false} LastSegmentOf(dir: string, name: string)
    requires '/' !in name
    ensures LastSegment(dir + "/" + name) == name
  {
    LastSegmentSlash(dir);
    LastSegmentAppend(dir + "/", name);
  }

  lemma {:induction false} LastSegmentSlash(q: string)
    ensures LastSegment(q + ['/']) == []
  {
    var p := q + ['/'];
    assert p[|p| - 1] == '/';
  }

  lemma {:induction false} LastSegmentSnoc(q: string, c: char)
    requires c != '/'
    ensures LastSegment(q + [c]) == LastSegment(q) + [c]
  {
    var p := q + [c];
    assert p[|p| - 1] == c && p[..|p| - 1] == q;
  }

  /** A slash-free name is its slash-free front and its last character. */
  lemma {:induction false} SplitLastChar(pre: string, name: string)
    requires '/' !in name && name != []
    ensures pre + name == (pre + name[..|name| - 1]) + [name[|name| - 1]]
    ensures '/' !in name[..|name| - 1]
  {
    var init := name[..|name| - 1];
    assert name == init + [name[|name| - 1]];
    assert forall k | 0 <= k < |init| :: init[k] == name[k];
  }

  /** A name without a slash after a path ending in a slash is the last segment. */
  lemma {:induction false} LastSegmentAppend(pre: string, name: string)
    requires '/' !in name && LastSegment(pre) == []
    ensures LastSegment(pre + name) == name
    decreases |name|
  {
    if name != [] {
      var init := name[..|name| - 1];
      var c := name[|name| - 1];
      SplitLastChar(pre, name);
      LastSegmentAppend(pre, init);
      LastSegmentSnoc(pre + init, c);
    } else {
      assert pre + name == pre;
    }
  }

  /** `dir/name.jb` gets the title `name`, for any non-empty name without a slash. */
  lemma {:induction false} TitleStripsExtension(dir: string, name: string)
    requires '/' !in name && name != []
    ensures TitleFromPath(dir + "/" + (name + ".jb")) == name
  {
    var b := name + ".jb";
    assert '/' !in b by {
      assert forall k | 0 <= k < |b| :: b[k] == if k < |name| then name[k] else ".jb"[k - |name|];
    }
    LastSegmentOf(dir, b);
    assert b[|b| - 3..] == ".jb" && b[..|b| - 3] == name;
  }

  /** A name that does not end in `.jb` is kept whole. */
  lemma {:induction false} TitleKeepsName(dir: string, name: string)
    requires '/' !in name && (|name| <= 3 || name[|name| - 3..] != ".jb")
    ensures TitleFromPath(dir + "/" + name) == name
  {
    LastSegmentOf(dir, name);
  }

  /** A pin on concrete inputs, beside the general TitleStripsExtension and TitleKeepsName:
      a file chosen as `…/My Journal.jb` gets the title `My Journal`; a name without the
      extension is kept whole. */
  lemma {:induction false} DefaultTitle()
    ensures TitleFromPath("/home/alice/My Journal.jb") == "My Journal"
    ensures TitleFromPath("/home/alice/notes") == "notes"
  {
    ExampleTitleWithExtension();
    ExampleTitleWithoutExtension();
  }

  /** Pin: the `.jb` case of DefaultTitle. */
  lemma {:induction false} ExampleTitleWithExtension()
    ensures TitleFromPath("/home/alice/My Journal.jb") == "My Journal"
  {
    var path := "/home/alice/My Journal.jb";
    assert path == "/home/alice" + "/" + ("My Journal" + ".jb");
    TitleStripsExtension("/home/alice", "My Journal");
  }

  /** Pin: the case of DefaultTitle without the extension. */
  lemma {:induction false} ExampleTitleWithoutExtension()
    ensures TitleFromPath("/home/alice/notes") == "notes"
  {
    TitleKeepsName("/home/alice", "notes");
    assert "/home/alice" + "/" + "notes" == "/home/alice/notes";
  }

  /** A new document is empty, has version 1.0, the default width and light theme, and a
      title with no directory in it; its root is the reserved folder id. */
  lemma {:induction false} NewDocumentShape(filePath: string, now: Timestamp)
    ensures var d := NewDocument(filePath, now);
            d.structure.children == [] && d.structure.id == RootId && d.version == "1.0" &&
            d.structure.name == "Root" && d.settings == Settings(300, Light) && '/' !in d.title &&
            d.created == d.modified
  {
  }

  // ------------------------------------------------------------------ export-to-markdown

  /** `block.content.map(item => item.text || '').join('')`. */
  function InlineText(items: seq<InlineContent>): string
  {
    if items == [] then ""
    else (if items[0].text.Some? then items[0].text.value else "") + InlineText(items[1..])
  }

  /** `'#'.repeat(n)`. */
  function Hashes(n: nat): (r: string)
    ensures |r| == n && forall i :: 0 <= i < n ==> r[i] == '#'
  {
    if n == 0 then "" else "#" + Hashes(n - 1)
  }

  /** `block.props?.level || 1`. */
  function HeadingLevel(b: Block): (r: nat)
    ensures r >= 1
    ensures b.level.Some? && b.level.value > 0 ==> r == b.level.value
  {
    if b.level.Some? && b.level.value > 0 then b.level.value else 1
  }

  /** What one block adds: paragraphs and headings with content, nothing else. */
  function BlockMarkdown(b: Block): string
  {
    if b.blockType == "paragraph" && b.content.Some? then InlineText(b.content.value) + "\n\n"
    else if b.blockType == "heading" && b.content.Some? then
      Hashes(HeadingLevel(b)) + " " + InlineText(b.content.value) + "\n\n"
    else ""
  }

  /** The export reads only the text of the inline runs: styles and links are dropped. */
  lemma {:induction false} InlineTextReadsOnlyText(a: seq<InlineContent>, b: seq<InlineContent>)
    requires |a| == |b| && forall i :: 0 <= i < |a| ==> a[i].text == b[i].text
    ensures InlineText(a) == InlineText(b)
  {
    if a != [] {
      InlineTextReadsOnlyText(a[1..], b[1..]);
    }
  }

  /** Two blocks that differ only in what the export does not read (ids, other props, nested
      children, styles) convert to the same Markdown. */
  lemma {:induction false} BlockMarkdownIgnoresRest(b: Block, c: Block)
    requires b.blockType == c.blockType && b.level == c.level && b.content.Some? == c.content.Some?
    requires b.content.Some? ==>
               |b.content.value| == |c.content.value| &&
               forall i :: 0 <= i < |b.content.value| ==> b.content.value[i].text == c.content.value[i].text
    ensures BlockMarkdown(b) == BlockMarkdown(c)
  {
    if b.content.Some? {
      InlineTextReadsOnlyText(b.content.value, c.content.value);
    }
  }

  function BlocksMarkdown(blocks: seq<Block>): string
  {
    if blocks == [] then "" else BlockMarkdown(blocks[0]) + BlocksMarkdown(blocks[1..])
  }

  function MarkdownHeader(entryName: string): string
  {
    "# " + entryName + "\n\n"
  }

  /** The whole file: the title line, then a string verbatim, or the blocks one after the
      other; any other content adds nothing. */
  function MarkdownOf(content: Content, entryName: string): (r: string)
    ensures MarkdownHeader(entryName) <= r
  {
    MarkdownHeader(entryName) +
    match content
    case Text(t) => t
    case Blocks(blocks) => BlocksMarkdown(blocks)
    case _ => ""
  }

  /** The export handler's conversion, appending to the text as it goes. */
  method ExportToMarkdown(content: Content, entryName: string) returns (markdown: string)
    ensures markdown == MarkdownOf(content, entryName)
  {
    markdown := "# " + entryName + "\n\n";
    if content.Text? {
      markdown := markdown + content.text;
    } else if content.Blocks? {
      markdown := AppendBlocks(markdown, content.blocks);
    }
  }

  /** The `forEach` over the blocks with its `markdown +=` steps. */
  method AppendBlocks(start: string, blocks: seq<Block>) returns (markdown: string)
    ensures markdown == start + BlocksMarkdown(blocks)
  {
    markdown := start;
    var i := 0;
    while i < |blocks|
      invariant 0 <= i <= |blocks|
      invariant markdown == start + BlocksMarkdown(blocks[..i])
    {
      AppendStep(start, blocks, i, markdown);
      markdown := markdown + BlockMarkdown(blocks[i]);
      i := i + 1;
    }
    assert blocks[..i] == blocks;
  }

  lemma {:induction false} AppendStep(start: string, blocks: seq<Block>, i: nat, markdown: string)
    requires i < |blocks| && markdown == start + BlocksMarkdown(blocks[..i])
    ensures markdown + BlockMarkdown(blocks[i]) == start + BlocksMarkdown(blocks[..i + 1])
  {
    BlocksMarkdownStep(blocks, i);
    StringAssoc(start, BlocksMarkdown(blocks[..i]), BlockMarkdown(blocks[i]));
  }

  lemma {:induction false} StringAssoc(a: string, b: string, c: string)
    ensures (a + b) + c == a + (b + c)
  {
  }

  /** The blocks are converted independently and their text is concatenated in order. */
  lemma {:induction false} BlocksMarkdownConcat(a: seq<Block>, b: seq<Block>)
    ensures BlocksMarkdown(a + b) == BlocksMarkdown(a) + BlocksMarkdown(b)
  {
    if a == [] {
      assert a + b == b;
    } else {
      assert (a + b)[0] == a[0];
      assert (a + b)[1..] == a[1..] + b;
      BlocksMarkdownConcat(a[1..], b);
    }
  }

  /** Every export starts with the title line, and a string is appended verbatim. */
  lemma {:induction false} MarkdownStartsWithTitle(content: Content, entryName: string)
    ensures MarkdownOf(content, entryName)[..|entryName| + 4] == "# " + entryName + "\n\n"
    ensures content.Text? ==> MarkdownOf(content, entryName)[|entryName| + 4..] == content.text
  {
  }

  /** A block other than a paragraph or heading with content contributes nothing: dropping
      such blocks does not change the export. */
  lemma {:induction false} UnknownBlocksIgnored(blocks: seq<Block>, i: nat)
    requires i < |blocks|
    requires !((blocks[i].blockType == "paragraph" || blocks[i].blockType == "heading") && blocks[i].content.Some?)
    ensures BlocksMarkdown(blocks[..i] + blocks[i + 1..]) == BlocksMarkdown(blocks)
  {
    SilentBlock(blocks[i]);
    DropSilentBlock(blocks, i);
  }

  lemma {:induction false} SilentBlock(b: Block)
    requires !((b.blockType == "paragraph" || b.blockType == "heading") && b.content.Some?)
    ensures BlockMarkdown(b) == ""
  {
  }

  lemma {:induction false} DropSilentBlock(blocks: seq<Block>, i: nat)
    requires i < |blocks| && BlockMarkdown(blocks[i]) == ""
    ensures BlocksMarkdown(blocks[..i] + blocks[i + 1..]) == BlocksMarkdown(blocks)
  {
    var rest := blocks[i + 1..];
    assert blocks == blocks[..i] + ([blocks[i]] + rest);
    BlocksMarkdownConcat(blocks[..i], [blocks[i]] + rest);
    BlocksMarkdownConcat(blocks[..i], rest);
    BlocksMarkdownCons(blocks[i], rest);
  }

  lemma {:induction false} BlocksMarkdownCons(b: Block, rest: seq<Block>)
    ensures BlocksMarkdown([b] + rest) == BlockMarkdown(b) + BlocksMarkdown(rest)
  {
    var q := [b] + rest;
    assert q[0] == b && q[1..] == rest;
  }

  lemma {:induction false} BlocksMarkdownStep(blocks: seq<Block>, i: nat)
    requires i < |blocks|
    ensures BlocksMarkdown(blocks[..i + 1]) == BlocksMarkdown(blocks[..i]) + BlockMarkdown(blocks[i])
  {
    assert blocks[..i + 1] == blocks[..i] + [blocks[i]];
    BlocksMarkdownConcat(blocks[..i], [blocks[i]]);
    BlocksMarkdownCons(blocks[i], []);
    assert [blocks[i]] + [] == [blocks[i]];
  }

  /** A heading line starts with at least one `#` (level 1 when the level is missing or 0),
      exactly as many as its level, followed by a space. */
  lemma {:induction false} HeadingLine(b: Block)
    requires b.blockType == "heading" && b.content.Some?
    ensures var line := BlockMarkdown(b);
            var n := HeadingLevel(b);
            n >= 1 && |line| > n && line[..n] == Hashes(n) && line[n] == ' ' &&
            (b.level.None? || b.level.value == 0 ==> n == 1)
  {
  }
}
