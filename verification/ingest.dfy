/** The constructors of `AppLogic`: dropping a file, dropping a folder and
    pasting the clipboard. Each either leaves the items alone or appends one
    new item at the end. */
module Ingest {
  import opened Text
  import opened Paths
  import opened FileSystem
  import opened Items
  import opened UniqueNames
  import opened DirTree

  /** The paperclip and space that begin the names of captured folders and clipboard items. */
  const Clip := "\U{1F4CE} "
  const ClipboardPrefix := Clip + "clipboard-"

  /** `f"{basename(p)}-{basename(dirname(p))}"`: the entry's own name, then its parent's. */
  function DropName(p: string): (r: string)
    ensures NoSep(r)
    ensures |r| == |Basename(p)| + 1 + |Basename(Dirname(p))|
    ensures r[..|Basename(p)| + 1] == Basename(p) + "-" && r[|Basename(p)| + 1..] == Basename(Dirname(p))
  {
    Dashed(Basename(p), Basename(Dirname(p)))
  }

  /** `f"{own}-{parent}"` for two names without a separator. */
  function Dashed(own: string, parent: string): (r: string)
    requires NoSep(own) && NoSep(parent)
    ensures NoSep(r)
    ensures |r| == |own| + 1 + |parent|
    ensures r[..|own| + 1] == own + "-" && r[|own| + 1..] == parent
  {
    var r := (own + "-") + parent;
    assert r[..|own| + 1] == own + "-";
    assert r[|own| + 1..] == parent;
    r
  }

  /** Nothing added and the items unchanged, or the new item appended at the end. */
  predicate Appended(items: seq<Item>, s: Step<Option<Item>>) {
    if s.result.None? then s.items == items else s.items == items + [s.result.value]
  }

  /** Appending an item whose key is absent keeps keys unique. */
  lemma AppendKeepsUnique(items: seq<Item>, it: Item)
    requires UniqueKeys(items) && !KeyPresent(items, it.name, it.isLink)
    ensures UniqueKeys(items + [it])
  {
    var r := items + [it];
    forall i, j | 0 <= i < j < |r|
      ensures !SameKey(r[i], r[j])
    {
      if j == |items| {
        assert r[i] == items[i];
        assert !HasKey(items[i], it.name, it.isLink);
      }
    }
  }

  // ---------------------------------------------------------------------------
  // process_file_drop

  /** `process_file_drop`: a file link stores the absolute path; a cold file
      stores the text read, unless that text is empty. Nothing happens when an
      item with the same name and kind exists. */
  function ProcessFileDrop(items: seq<Item>, host: Host, path: string, isLink: bool): (s: Step<Option<Item>>)
    ensures Appended(items, s)
    ensures s.result.None? <==> KeyPresent(items, DropName(path), isLink)
    ensures s.result.Some? ==>
              var it := s.result.value;
              && HasKey(it, DropName(path), isLink) && !it.checked && !it.isDir
              && (isLink ==> it.linkPath == PathTo(host.absPath(path)) && it.content == None)
              && (!isLink ==> it.linkPath == NullPath
                              && (it.content == None <==> ReadFile(host, path) == [])
                              && (it.content.Some? ==> it.content.value == ReadFile(host, path)))
  {
    var name := DropName(path);
    if FindItem(items, name, isLink).Some? then
      Step(None, items)
    else
      var text := if isLink then [] else ReadFile(host, path);
      var content := if text != [] then Some(text) else None;
      var linkPath := if isLink then PathTo(host.absPath(path)) else NullPath;
      var it := Item(name, isLink, linkPath, content, false, false);
      Step(Some(it), items + [it])
  }

  /** Dropping the same file a second time changes nothing. */
  lemma FileDropIdempotent(items: seq<Item>, host: Host, path: string, isLink: bool)
    ensures var once := ProcessFileDrop(items, host, path, isLink);
            ProcessFileDrop(once.items, host, path, isLink) == Step(None, once.items)
  {
    var once := ProcessFileDrop(items, host, path, isLink);
    if once.result.Some? {
      assert HasKey(once.items[|items|], DropName(path), isLink);
    }
  }

  /** A file drop never creates a second item with a key already in use. */
  lemma FileDropKeepsUnique(items: seq<Item>, host: Host, path: string, isLink: bool)
    requires UniqueKeys(items)
    ensures UniqueKeys(ProcessFileDrop(items, host, path, isLink).items)
  {
    var s := ProcessFileDrop(items, host, path, isLink);
    if s.result.Some? {
      AppendKeepsUnique(items, s.result.value);
    }
  }

  /** A file `file` in a directory `dir` is named after both: `file-<last part of dir>`. */
  lemma DropNameOfJoined(dir: string, file: string)
    requires dir != [] && dir[|dir| - 1] != Sep && !AllSep(dir)
    requires NoSep(file)
    ensures DropName(dir + [Sep] + file) == file + "-" + Basename(dir)
  {
    SplitJoined(dir, file);
  }

  // ---------------------------------------------------------------------------
  // process_folder_drop

  /** The name prefix a captured folder is numbered under. */
  function FolderPrefix(path: string): (r: string)
    ensures Clip <= r && r[|Clip|..] == DropName(path) + "-"
  {
    var tail := DropName(path) + "-";
    assert (Clip + tail)[..|Clip|] == Clip;
    assert (Clip + tail)[|Clip|..] == tail;
    Clip + tail
  }

  /** `process_folder_drop`: a live folder link stores the absolute path under
      `folder-parent`, whether or not that key is in use; a cold folder stores
      the tree picture under a fresh numbered name. Either way an item is
      added, since the tree picture is never empty. */
  function ProcessFolderDrop(items: seq<Item>, host: Host, cfg: TreeConfig, path: string, isLink: bool)
    : (s: Step<Option<Item>>)
    ensures Appended(items, s)
    ensures s.result.Some?
    ensures var it := s.result.value;
            && it.isLink == isLink && it.isDir && !it.checked
            && (isLink ==> it.name == DropName(path) && it.linkPath == PathTo(host.absPath(path)) && it.content == None)
            && (!isLink ==> it.name == GenerateUniqueName(items, FolderPrefix(path))
                            && FolderPrefix(path) <= it.name && !NameTaken(items, it.name)
                            && it.linkPath == NoPathKey
                            && it.content == Some(GenerateDirectoryStructure(host, cfg, path)))
  {
    if isLink then
      var it := Item(DropName(path), true, PathTo(host.absPath(path)), None, false, true);
      Step(Some(it), items + [it])
    else
      var name := GenerateUniqueName(items, FolderPrefix(path));
      var picture := GenerateDirectoryStructure(host, cfg, path);
      if picture != [] then
        var it := Item(name, false, NoPathKey, Some(picture), false, true);
        Step(Some(it), items + [it])
      else
        Step(None, items)
  }

  /** A cold folder drop keeps keys unique: its name is borne by no item. */
  lemma ColdFolderDropKeepsUnique(items: seq<Item>, host: Host, cfg: TreeConfig, path: string)
    requires UniqueKeys(items)
    ensures UniqueKeys(ProcessFolderDrop(items, host, cfg, path, false).items)
  {
    var it := ProcessFolderDrop(items, host, cfg, path, false).result.value;
    AppendKeepsUnique(items, it);
  }

  /** A live folder drop adds one more item with its key each time, so
      dropping the same folder twice leaves two items with one key. */
  lemma LiveFolderDropDuplicates(items: seq<Item>, host: Host, cfg: TreeConfig, path: string)
    ensures var once := ProcessFolderDrop(items, host, cfg, path, true);
            var twice := ProcessFolderDrop(once.items, host, cfg, path, true);
            && KeyCount(once.items, DropName(path), true) == KeyCount(items, DropName(path), true) + 1
            && KeyCount(twice.items, DropName(path), true) == KeyCount(items, DropName(path), true) + 2
            && !UniqueKeys(twice.items)
  {
    var once := ProcessFolderDrop(items, host, cfg, path, true);
    var twice := ProcessFolderDrop(once.items, host, cfg, path, true);
    var it := once.result.value;
    KeyCountAppend(items, [it], DropName(path), true);
    KeyCountAppend(once.items, [it], DropName(path), true);
    assert [it][1..] == [];
    assert twice.items == once.items + [it];
    assert twice.items[|items|] == it && twice.items[|items| + 1] == it;
  }

  // ---------------------------------------------------------------------------
  // add_clipboard_content

  /** `add_clipboard_content`, given the text on the clipboard: the text with
      surrounding whitespace removed, stored under a fresh numbered name, or
      nothing when the text is all whitespace. */
  function AddClipboardContent(items: seq<Item>, clipboard: string): (s: Step<Option<Item>>)
    ensures Appended(items, s)
    ensures s.result.None? <==> AllSpace(clipboard)
    ensures s.result.Some? ==>
              var it := s.result.value;
              && it.name == GenerateUniqueName(items, ClipboardPrefix)
              && ClipboardPrefix <= it.name && !NameTaken(items, it.name)
              && !it.isLink && !it.isDir && !it.checked && it.linkPath == NoPathKey
              && it.content == Some(Strip(clipboard))
  {
    var text := Strip(clipboard);
    if text != [] then
      var it := Item(GenerateUniqueName(items, ClipboardPrefix), false, NoPathKey, Some(text), false, false);
      Step(Some(it), items + [it])
    else
      Step(None, items)
  }

  lemma ClipboardKeepsUnique(items: seq<Item>, clipboard: string)
    requires UniqueKeys(items)
    ensures UniqueKeys(AddClipboardContent(items, clipboard).items)
  {
    var s := AddClipboardContent(items, clipboard);
    if s.result.Some? {
      AppendKeepsUnique(items, s.result.value);
    }
  }

  /** Pasting two texts that are not all whitespace into an empty store gives
      `📎 clipboard-1` and then `📎 clipboard-2`. */
  lemma ClipboardNumbering(first: string, second: string)
    requires !AllSpace(first) && !AllSpace(second)
    ensures var once := AddClipboardContent([], first);
            var twice := AddClipboardContent(once.items, second);
            && once.items[0].name == ClipboardPrefix + "1"
            && twice.items[1].name == ClipboardPrefix + "2"
  {
    assert NatToString(1) == "1";
    assert NatToString(2) == "2";
    var once := AddClipboardContent([], first);
    var it := once.items[0];
    assert it.name == ClipboardPrefix + "1";
    assert CountPrefixed(once.items, ClipboardPrefix) == 1 by {
      assert once.items[1..] == [];
    }
    assert !NameTaken(once.items, ClipboardPrefix + "2") by {
      assert (ClipboardPrefix + "1")[|ClipboardPrefix|] != (ClipboardPrefix + "2")[|ClipboardPrefix|];
    }
  }

  // ---------------------------------------------------------------------------
  // process_drop

  /** `process_drop`: folders go to the folder constructor, everything else to the file one. */
  function ProcessDrop(items: seq<Item>, host: Host, cfg: TreeConfig, path: string, isDir: bool, isLink: bool)
    : (s: Step<Option<Item>>)
    ensures Appended(items, s)
    ensures s.result.Some? ==> s.result.value.isDir == isDir && s.result.value.isLink == isLink
    ensures isDir ==> s.result.Some?
    ensures !isDir ==> (s.result.None? <==> KeyPresent(items, DropName(path), isLink))
  {
    if isDir then ProcessFolderDrop(items, host, cfg, path, isLink)
    else ProcessFileDrop(items, host, path, isLink)
  }

  /** Every drop except a live folder link keeps keys unique. */
  lemma DropKeepsUnique(items: seq<Item>, host: Host, cfg: TreeConfig, path: string, isDir: bool, isLink: bool)
    requires UniqueKeys(items) && !(isDir && isLink)
    ensures UniqueKeys(ProcessDrop(items, host, cfg, path, isDir, isLink).items)
  {
    if isDir {
      ColdFolderDropKeepsUnique(items, host, cfg, path);
    } else {
      FileDropKeepsUnique(items, host, path, isLink);
    }
  }
}
