/** `get_context_items` and `copy_context`: the checked items, resolved to
    their current text, formatted as fenced blocks for the clipboard. */
module Export {
  import opened Text
  import opened FileSystem
  import opened Items
  import opened DirTree

  const NoContent := "[No content available]"
  /** What `read_file(None)` returns: `open` rejects `None` with a `TypeError`,
      which the error handler turns into an inline note. */
  const NoPathError := ErrorOpen + "expected str, bytes or os.PathLike object, not NoneType" + ErrorClose
  const Fence := "```"
  const Newline := "\n"

  /** One record of `get_context_items`. `path` is the item's `link_path`,
      `None` when that entry is missing or `None`. */
  datatype ContextItem = ContextItem(name: string, isLink: bool, path: Option<string>, content: string, isDir: bool)

  /** Checked items that `get_context_items` processes without raising: a
      live folder link needs a path to draw, and a live file link needs the
      `link_path` entry (a `None` there is read, and reported, as an error). */
  predicate Exportable(it: Item) {
    it.isLink ==> if it.isDir then it.linkPath.PathTo? else !it.linkPath.NoPathKey?
  }

  predicate CheckedExportable(items: seq<Item>) {
    forall j :: 0 <= j < |items| && items[j].checked ==> Exportable(items[j])
  }

  predicate AnyChecked(items: seq<Item>) {
    exists j :: 0 <= j < |items| && items[j].checked
  }

  /** `item.get("link_path")`. */
  function StoredPath(lp: LinkPath): (r: Option<string>)
    ensures r.Some? <==> lp.PathTo?
    ensures r.Some? ==> r.value == lp.path
  {
    if lp.PathTo? then Some(lp.path) else None
  }

  /** The text exported for an item: a live folder is drawn afresh, a live
      file is read afresh, a cold item gives what it stored. */
  function Resolve(host: Host, cfg: TreeConfig, it: Item): (c: string)
    requires Exportable(it)
    ensures it.isLink && it.isDir ==> c == GenerateDirectoryStructure(host, cfg, it.linkPath.path) && c != []
    ensures it.isLink && !it.isDir && it.linkPath.PathTo? ==> c == ReadFile(host, it.linkPath.path)
    ensures it.isLink && !it.isDir && it.linkPath.NullPath? ==> c == NoPathError
    ensures !it.isLink && it.content.Some? ==> c == it.content.value
    ensures !it.isLink && it.content.None? ==> c == NoContent
  {
    if it.isLink && it.isDir then GenerateDirectoryStructure(host, cfg, it.linkPath.path)
    else if it.isLink then
      match it.linkPath
      case PathTo(p) => ReadFile(host, p)
      case _ => NoPathError
    else
      match it.content
      case Some(text) => text
      case None => NoContent
  }

  /** The record of one checked item: its name, kind and stored path as they
      are, and its text resolved. */
  function ContextOf(host: Host, cfg: TreeConfig, it: Item): (c: ContextItem)
    requires Exportable(it)
    ensures c.name == it.name && c.isLink == it.isLink && c.isDir == it.isDir
    ensures c.path.Some? <==> it.linkPath.PathTo?
    ensures c.path.Some? ==> c.path.value == it.linkPath.path
    ensures c.content == Resolve(host, cfg, it)
  {
    ContextItem(it.name, it.isLink, StoredPath(it.linkPath), Resolve(host, cfg, it), it.isDir)
  }

  // ---------------------------------------------------------------------------
  // get_context_items

  /** Reference: the positions of the checked items from `i` on, in order. */
  function CheckedFrom(items: seq<Item>, i: nat): (idx: seq<nat>)
    requires i <= |items|
    ensures forall k :: 0 <= k < |idx| ==> i <= idx[k] < |items| && items[idx[k]].checked
    decreases |items| - i
  {
    if i == |items| then []
    else if items[i].checked then [i] + CheckedFrom(items, i + 1)
    else CheckedFrom(items, i + 1)
  }

  /** The positions come in increasing order. */
  lemma {:induction false} CheckedFromIncreasing(items: seq<Item>, i: nat)
    requires i <= |items|
    ensures Increasing(CheckedFrom(items, i))
    decreases |items| - i
  {
    if i < |items| {
      CheckedFromIncreasing(items, i + 1);
      var rest := CheckedFrom(items, i + 1);
      if items[i].checked {
        var idx := [i] + rest;
        assert CheckedFrom(items, i) == idx;
        forall k, m | 0 <= k < m < |idx|
          ensures idx[k] < idx[m]
        {
          assert idx[m] == rest[m - 1] && i + 1 <= rest[m - 1];
          if k > 0 {
            assert idx[k] == rest[k - 1];
          }
        }
      } else {
        assert CheckedFrom(items, i) == rest;
      }
    }
  }

  predicate Increasing(idx: seq<nat>) {
    forall k, m :: 0 <= k < m < |idx| ==> idx[k] < idx[m]
  }

  /** No checked item is missed. */
  lemma {:induction false} CheckedFromComplete(items: seq<Item>, i: nat)
    requires i <= |items|
    ensures forall j :: i <= j < |items| && items[j].checked ==> j in CheckedFrom(items, i)
    decreases |items| - i
  {
    if i < |items| {
      CheckedFromComplete(items, i + 1);
    }
  }

  /** The loop of `get_context_items` from position `i`. */
  function ContextFrom(items: seq<Item>, host: Host, cfg: TreeConfig, i: nat): (r: seq<ContextItem>)
    requires i <= |items| && CheckedExportable(items)
    ensures |r| <= |items| - i
    decreases |items| - i
  {
    if i == |items| then []
    else
      var rest := ContextFrom(items, host, cfg, i + 1);
      if items[i].checked then [ContextOf(host, cfg, items[i])] + rest else rest
  }

  /** `get_context_items`. */
  function GetContextItems(items: seq<Item>, host: Host, cfg: TreeConfig): (r: seq<ContextItem>)
    requires CheckedExportable(items)
    ensures r == [] <==> !AnyChecked(items)
  {
    ContextFromEmpty(items, host, cfg, 0);
    ContextFrom(items, host, cfg, 0)
  }

  lemma {:induction false} ContextFromEmpty(items: seq<Item>, host: Host, cfg: TreeConfig, i: nat)
    requires i <= |items| && CheckedExportable(items)
    ensures ContextFrom(items, host, cfg, i) == [] <==> forall j :: i <= j < |items| ==> !items[j].checked
    decreases |items| - i
  {
    if i < |items| {
      ContextFromEmpty(items, host, cfg, i + 1);
    }
  }

  /** The records for the items at positions `idx`, in that order. */
  function ResolveAt(items: seq<Item>, host: Host, cfg: TreeConfig, idx: seq<nat>): (r: seq<ContextItem>)
    requires forall k :: 0 <= k < |idx| ==> idx[k] < |items| && items[idx[k]].checked
    requires CheckedExportable(items)
    ensures |r| == |idx|
    ensures forall k :: 0 <= k < |r| ==> r[k] == ContextOf(host, cfg, items[idx[k]])
  {
    if idx == [] then [] else [ContextOf(host, cfg, items[idx[0]])] + ResolveAt(items, host, cfg, idx[1..])
  }

  lemma {:induction false} ContextFromFollowsChecked(items: seq<Item>, host: Host, cfg: TreeConfig, i: nat)
    requires i <= |items| && CheckedExportable(items)
    ensures ContextFrom(items, host, cfg, i) == ResolveAt(items, host, cfg, CheckedFrom(items, i))
    decreases |items| - i
  {
    if i < |items| {
      ContextFromFollowsChecked(items, host, cfg, i + 1);
      if items[i].checked {
        var idx := CheckedFrom(items, i);
        assert idx[1..] == CheckedFrom(items, i + 1);
      }
    }
  }

  /** The context items are exactly the checked items, in their order, each
      resolved: the k-th record comes from the k-th checked item. */
  lemma ContextItemsFollowChecked(items: seq<Item>, host: Host, cfg: TreeConfig)
    requires CheckedExportable(items)
    ensures var r := GetContextItems(items, host, cfg);
            var idx := CheckedFrom(items, 0);
            && |r| == |idx|
            && (forall k :: 0 <= k < |r| ==> r[k] == ContextOf(host, cfg, items[idx[k]]))
            && Increasing(idx)
            && (forall j :: 0 <= j < |items| && items[j].checked ==> j in idx)
  {
    ContextFromFollowsChecked(items, host, cfg, 0);
    CheckedFromIncreasing(items, 0);
    CheckedFromComplete(items, 0);
  }

  // ---------------------------------------------------------------------------
  // copy_context

  /** The first line of a block: the path of a link (`None` printed as such),
      the name of anything else. */
  function Header(c: ContextItem): (h: string)
    ensures !c.isLink ==> h == c.name
    ensures c.isLink && c.path.Some? ==> h == c.path.value
    ensures c.isLink && c.path.None? ==> h == "None"
  {
    if c.isLink then (if c.path.Some? then c.path.value else "None") else c.name
  }

  /** The five lines `copy_context` appends per record. */
  function Block(c: ContextItem): (b: seq<string>)
    ensures |b| == 5 && b[0] == Header(c) && b[2] == c.content
    ensures b[1] == b[3] == Fence && b[4] == ""
  {
    [Header(c), Fence, c.content, Fence, ""]
  }

  function FormatLines(ctx: seq<ContextItem>): (r: seq<string>)
    ensures |r| == 5 * |ctx|
  {
    if ctx == [] then [] else Block(ctx[0]) + FormatLines(ctx[1..])
  }

  /** The text `copy_context` hands to the clipboard, or nothing when no item
      is checked. */
  function ExportText(items: seq<Item>, host: Host, cfg: TreeConfig): (t: Option<string>)
    requires CheckedExportable(items)
    ensures t.None? <==> !AnyChecked(items)
  {
    var ctx := GetContextItems(items, host, cfg);
    if ctx == [] then None else Some(Join(FormatLines(ctx), Newline))
  }

  /** `copy_context`, given whether the clipboard accepts the text: true
      exactly when some item is checked and the copy goes through. */
  function CopyContext(items: seq<Item>, host: Host, cfg: TreeConfig, clipboardAccepts: bool): (ok: bool)
    requires CheckedExportable(items)
    ensures ok <==> AnyChecked(items) && clipboardAccepts
  {
    ExportText(items, host, cfg).Some? && clipboardAccepts
  }

  /** Reference layout of one record: header, fenced content, blank line. */
  function BlockText(c: ContextItem): string {
    Header(c) + Newline + Fence + Newline + c.content + Newline + Fence + Newline + Newline
  }

  function Blocks(ctx: seq<ContextItem>): string {
    if ctx == [] then [] else BlockText(ctx[0]) + Blocks(ctx[1..])
  }

  /** Joining the five lines of a block. */
  lemma JoinFive(a: string, b: string, c: string, d: string, e: string, sep: string)
    ensures Join([a, b, c, d, e], sep) == a + sep + b + sep + c + sep + d + sep + e
  {
    assert [d, e][1..] == [e];
    assert Join([d, e], sep) == d + sep + e;
    assert [c, d, e][1..] == [d, e];
    assert Join([c, d, e], sep) == c + sep + (d + sep + e);
    assert [b, c, d, e][1..] == [c, d, e];
    assert Join([b, c, d, e], sep) == b + sep + (c + sep + (d + sep + e));
    assert [a, b, c, d, e][1..] == [b, c, d, e];
    assert Join([a, b, c, d, e], sep) == a + sep + (b + sep + (c + sep + (d + sep + e)));
  }

  lemma JoinBlock(c: ContextItem)
    ensures Join(Block(c), Newline) + Newline == BlockText(c)
  {
    JoinFive(Header(c), Fence, c.content, Fence, "", Newline);
  }

  lemma {:induction false} JoinBlocks(ctx: seq<ContextItem>)
    requires ctx != []
    ensures Join(FormatLines(ctx), Newline) + Newline == Blocks(ctx)
  {
    JoinBlock(ctx[0]);
    if |ctx| > 1 {
      JoinBlocks(ctx[1..]);
      JoinAppend(Block(ctx[0]), FormatLines(ctx[1..]), Newline);
    } else {
      assert FormatLines(ctx) == Block(ctx[0]) by {
        assert FormatLines(ctx[1..]) == [];
      }
      assert Blocks(ctx[1..]) == [];
    }
  }

  /** With its final newline restored, the exported text is the blocks of the
      checked items one after another, each `header`, a fence, the content, a
      fence and an empty line. */
  lemma ExportLayout(items: seq<Item>, host: Host, cfg: TreeConfig)
    requires CheckedExportable(items) && AnyChecked(items)
    ensures ExportText(items, host, cfg) == Some(Join(FormatLines(GetContextItems(items, host, cfg)), Newline))
    ensures ExportText(items, host, cfg).value + Newline == Blocks(GetContextItems(items, host, cfg))
  {
    JoinBlocks(GetContextItems(items, host, cfg));
  }

  /** After `clear_context` nothing is exported and nothing is copied. */
  lemma ExportAfterClear(items: seq<Item>, host: Host, cfg: TreeConfig, clipboardAccepts: bool)
    ensures CheckedExportable(ClearContext(items))
    ensures ExportText(ClearContext(items), host, cfg) == None
    ensures !CopyContext(ClearContext(items), host, cfg, clipboardAccepts)
  {
  }

  predicate OnlyColdChecked(items: seq<Item>) {
    forall j :: 0 <= j < |items| && items[j].checked ==> !items[j].isLink
  }

  lemma {:induction false} ColdContextFrom(items: seq<Item>, h1: Host, h2: Host, c1: TreeConfig, c2: TreeConfig, i: nat)
    requires i <= |items| && OnlyColdChecked(items)
    ensures ContextFrom(items, h1, c1, i) == ContextFrom(items, h2, c2, i)
    decreases |items| - i
  {
    if i < |items| {
      ColdContextFrom(items, h1, h2, c1, c2, i + 1);
    }
  }

  /** When only cold items are checked the export does not consult the file
      system or the tree settings. */
  lemma ColdExportHostIndependent(items: seq<Item>, h1: Host, h2: Host, c1: TreeConfig, c2: TreeConfig)
    requires OnlyColdChecked(items)
    ensures CheckedExportable(items)
    ensures ExportText(items, h1, c1) == ExportText(items, h2, c2)
  {
    ColdContextFrom(items, h1, h2, c1, c2, 0);
  }

  function ExampleItems(): seq<Item> {
    [Item("A", false, NoPathKey, Some("hello"), true, false), Item("B", false, NoPathKey, Some("x"), false, false)]
  }

  lemma ExampleContext(host: Host, cfg: TreeConfig)
    ensures GetContextItems(ExampleItems(), host, cfg) == [ContextItem("A", false, None, "hello", false)]
  {
    assert ContextFrom(ExampleItems(), host, cfg, 1) == [];
  }

  lemma ExampleJoin()
    ensures Join(FormatLines([ContextItem("A", false, None, "hello", false)]), Newline)
         == "A" + Newline + Fence + Newline + "hello" + Newline + Fence + Newline
  {
    var c := ContextItem("A", false, None, "hello", false);
    assert FormatLines([c]) == Block(c) by {
      assert [c][1..] == [];
    }
    JoinFive("A", Fence, "hello", Fence, "", Newline);
    assert "A" + Newline + Fence + Newline + "hello" + Newline + Fence + Newline + ""
        == "A" + Newline + Fence + Newline + "hello" + Newline + Fence + Newline;
  }

  /** A checked cold item `A` holding `hello` next to an unchecked one. */
  lemma ExportExample(host: Host, cfg: TreeConfig)
    ensures ExportText(ExampleItems(), host, cfg)
         == Some("A" + Newline + Fence + Newline + "hello" + Newline + Fence + Newline)
  {
    ExampleContext(host, cfg);
    ExampleJoin();
  }
}
