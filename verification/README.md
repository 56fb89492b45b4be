# Context items of a clipboard side-panel

A model of the item store of `AppLogic`, the logic behind a small desktop
panel that collects "context items" and copies them to the clipboard. The
items are files, folders and clipboard snippets, and the copy is formatted
for pasting into a chat prompt. The model covers three parts:

- **The item collection** (`Items`, `UniqueNames`, `Ingest`). This is an
  ordered sequence of records keyed by `(name, is_link)`, with these operations:
  - lookup, removal, toggling `checked`, renaming and clearing;
  - the numbered-name search;
  - the three ways an item is created: a dropped file, a dropped folder, or
    the clipboard text.
- **The export** (`Export`). `get_context_items` picks the checked items in
  store order and resolves their content. `copy_context` turns each into a
  header line, a fenced block and a blank line, all joined by newlines.
- **The directory-tree picture** (`DirTree`, `TreeExamples`).
  `generate_directory_structure` draws a folder as an indented tree:
  - directories come before files, and each group is sorted;
  - excluded directories are listed but not descended into;
  - depth is bounded;
  - the connectors are `├── `, `└── `, `│   ` and four blanks.

Supporting modules model the pieces of Python these rely on:

- `Text`: `str(n)` for a counter, `str.strip`, `"\n".join` and code-point
  string ordering.
- `Paths`: `os.path.basename` and `os.path.dirname` on POSIX paths.
- `FileSystem`: the file system, given as a `Host` value.

Every operation is a pure function. An operation that both changes the
items and reports something returns a `Step` holding its result and the
item sequence after it. `ClearContext` returns only the new sequence, and
`GenerateUniqueName` only the name. The mutation of `self.items` in place
becomes the returned sequence.

The file system is a parameter:
- `read` gives a file's text or an error description;
- `absPath` stands for `os.path.abspath`;
- `listDir` gives a directory's listing as a finite tree of `Entry` values;
  the listing is `Unreadable` where `os.listdir` raises.

The clipboard is a parameter too. Its text is a string argument, and whether
`pyperclip.copy` succeeds is a boolean argument.

Where the code behaves in ways a user might not expect, the model follows
the code:

- `update_item_name` rejects a new name that any other item already bears,
  whatever that item's `is_link`. "Other" is decided by record equality. So
  renaming an item to its own name fails when an item of the other kind
  bears that name (`Items.RenameBlockedByOtherKind`).
- A dropped file is named `basename-parentname`. If an item of the same
  kind already has that name, the drop is refused. No name is
  disambiguated further.
- A live folder link is appended without any key check. Dropping the same
  folder twice gives two items with the same key
  (`Ingest.LiveFolderDropDuplicates`). Uniqueness of keys is therefore
  proved for every other constructor only.
- With nothing checked, `copy_context` produces no text and returns false.
- Tree entries are ordered by code point, not by a locale's alphabetical
  order. A directory at the depth limit is still listed; only its contents
  are omitted.
- The tree always has its root line, so a cold folder drop always adds an
  item.

## Model

| member | source | states |
|---|---|---|
| Items.FindItem | logic.py:180-181 | An item is found exactly when some item carries the key `(name, is_link)`. The item found carries that key and is the first such item in the sequence. |
| Items.FindIndex | logic.py:180-181 | The position of the first item carrying the key, or none exactly when no item carries it. |
| Items.FindUnique | logic.py:180-181 | When keys are unique, looking up an item's own key finds that very position. |
| Items.RemoveFirstEqual | logic.py:159 | `list.remove(x)`: when `x` occurs, the sequence loses exactly one element; when it does not, the sequence is unchanged. |
| Items.RemoveFirstEqualAt | logic.py:159 | `list.remove` drops the first element equal to the argument. When no earlier element equals the item at position `i`, that is the sequence with position `i` cut out. |
| Items.RemoveItem | logic.py:157-162 | The result is true exactly when the key is present. If so, the sequence loses exactly the first matching item and keeps the rest in order; if not, it is unchanged. |
| Items.RemoveCounts | logic.py:157-162 | Removing a present key lowers the number of items with that key by one and leaves the count of every other key unchanged. |
| Items.RemoveUnique | logic.py:157-162 | Removal keeps keys unique, and afterwards the removed key is absent. |
| Items.UpdateItemState | logic.py:164-171 | The result is true exactly when the key is present. Only the first matching item changes, and only its `checked` field; length and every other item stay as they were. |
| Items.UpdateStateKeepsKeys | logic.py:164-171 | Toggling keeps every item's key and keeps keys unique. Afterwards the key is still found and its item has the new `checked` value. |
| Items.UpdateStateIdempotent | logic.py:164-171 | Setting the same `checked` value twice gives the same result and items as setting it once. |
| Items.UpdateItemName | logic.py:173-178 | The rename succeeds exactly when the old key is present and no item unequal to the found one bears the new name. On success only the found item's name changes; on failure nothing changes. |
| Items.RenameCollisionRejected | logic.py:174 | If a different item already bears the new name, the rename returns false and leaves the items as they were. |
| Items.RenameKeepsUnique | logic.py:173-178 | A successful rename keeps keys unique, and the new key is then present. |
| Items.RenameToSameName | logic.py:173-178 | Renaming an item to its own name changes nothing. It succeeds exactly when every item bearing that name equals the found item. |
| Items.RenameToSameNameUnique | logic.py:173-178 | With unique keys and no item of the other kind bearing the name, renaming an item to its own name succeeds. |
| Items.RenameBlockedByOtherKind | logic.py:174 | A concrete case: a cold item and a link share the name `notes`, and renaming the cold item to `notes` is refused. |
| Items.ClearContext | logic.py:194-197 | After clearing, no item is checked. Length, order and every field other than `checked` are unchanged. |
| Items.ClearContextIdempotent | logic.py:194-197 | Clearing twice gives the same sequence as clearing once. |
| Items.ClearContextKeepsKeys | logic.py:194-197 | Clearing keeps every item's key and keeps keys unique. |
| UniqueNames.CountPrefixed | logic.py:150 | The count of names starting with the prefix is at most the number of items, and is zero exactly when no item's name starts with the prefix. |
| UniqueNames.CandidateInjective | logic.py:151 | Different counter values give different candidate names. |
| UniqueNames.PendingShrinks | logic.py:152-154 | Each time the loop finds its candidate taken, the number of items bearing a candidate name at or above the counter strictly falls, so the loop ends. |
| UniqueNames.FirstFreeFrom | logic.py:152-154 | The loop from counter `n` stops at the first number whose candidate no item bears. Every candidate before it is taken, and it stops within as many steps as there are items. |
| UniqueNames.UniqueSuffix | logic.py:150-155 | The number chosen is at least one more than the count of names starting with the prefix and at most that plus the number of items. Its candidate is free, and every candidate between the two is taken. |
| UniqueNames.GenerateUniqueName | logic.py:149-155 | The name starts with the prefix, is `prefix + str(n)` for the chosen number, and is borne by no item. |
| UniqueNames.NextAfterTwo | logic.py:149-155 | With `x-1` and `x-2` present, the next name for `x-` is `x-3`. |
| UniqueNames.NextAfterRemoval | logic.py:149-155 | With only `x-2` left, the count proposes `x-2`, which is taken, so the next name is `x-3`. |
| UniqueNames.NextSkipsTaken | logic.py:149-155 | With `x-1` and `x-3` present, the proposed `x-3` is taken and the search moves on to `x-4`. |
| Text.NatToString | logic.py:151 | `str(n)`: a non-empty string of decimal digits with no leading zero, except for zero itself. |
| Text.DecimalRoundTrip | logic.py:151 | Reading back the digits of `str(n)` gives `n`. |
| Text.NatToStringInjective | logic.py:151 | Different numbers have different decimal strings. |
| Text.Strip | logic.py:251 | `str.strip` keeps a contiguous piece of the input. Only Python whitespace lies on either side of it, and the piece neither starts nor ends with whitespace. It is empty exactly when the input is all whitespace. |
| Text.StripIdempotent | logic.py:251 | Stripping twice is stripping once. |
| Text.LexLeTotal | logic.py:81 | Any two names are ordered one way or the other by code point. |
| Text.LexLeTransitive | logic.py:81 | The code-point order on names is transitive. |
| Text.LexLeAntisymmetric | logic.py:81 | Two names each ordered before the other are equal. |
| Text.LexLe | logic.py:81 | Python's `<=` on strings: one string is at most another exactly when it is a prefix of it, or at the first position where they differ it has the smaller code point. |
| Text.Join | logic.py:71 | `sep.join`: no lines give the empty text, and one line gives that line unchanged. |
| Text.JoinAppend | logic.py:71 | Joining two non-empty line lists together is joining each and putting one separator between them. |
| Text.JoinFirst | logic.py:71 | With two or more lines, the joined text starts with the first line and a separator. |
| Paths.Basename | logic.py:29 | The basename is the part of the path after its last `/`: a suffix of the path that holds no `/`. |
| Paths.Dirname | logic.py:30 | The dirname is a prefix of the path. It is empty exactly when the path holds no `/`, and keeps trailing slashes only when it is all slashes. The path is the dirname, a run of slashes, then the basename; when the dirname is all slashes (`/` for `/b`), the basename follows it directly. |
| Paths.SplitJoined | logic.py:29-31 | For a file name with no `/` appended to a directory path, the basename is the file name and the dirname is the directory. |
| FileSystem.ReadFile | logic.py:144-147 | A readable file gives its text. A failed read gives `[Error reading file: ` followed by the error description and `]`. |
| DirTree.InsertCount | logic.py:81 | Inserting an entry into a level adds exactly that entry. |
| DirTree.InsertSorted | logic.py:81 | Inserting into a sorted level keeps it sorted. |
| DirTree.SortByName | logic.py:81 | `sorted(os.listdir(path))`: the result is sorted by name and is a permutation of the listing. |
| DirTree.Keep | logic.py:90-95 | Keeping one kind yields entries of that kind only. |
| DirTree.KeepCount | logic.py:90-95 | Keeping one kind keeps every entry of that kind as many times as it occurs, and nothing else. |
| DirTree.KeepSorted | logic.py:90-95 | Keeping one kind of a sorted level leaves it sorted. |
| DirTree.Known | logic.py:90-95 | Entries that are neither directories nor regular files are dropped, and every other entry is kept. |
| DirTree.Arrange | logic.py:81-106 | A level is arranged as directories then files, each group sorted by name. It holds exactly the directories and files of the listing; everything else is dropped. |
| DirTree.DirsThenFiles | logic.py:98-106 | Putting sorted directories before sorted files gives no file before a directory, and each kind stays sorted. |
| DirTree.ProcessTree | logic.py:73-84 | Every line drawn for a directory starts with the prefix it was drawn under. |
| DirTree.RenderEntries | logic.py:109-142 | Every line drawn for the entries of one level starts with that level's prefix. |
| DirTree.EntryLines | logic.py:112-142 | The lines for one entry open with the entry's own line: the prefix, then below the root its connector (`└── ` exactly for the last entry), then its label. A descended directory's lines follow it directly; any other entry has that one line. |
| DirTree.EntryLinesSize | logic.py:118-142 | An entry's lines are as many as the reference count gives it. |
| DirTree.UnexpandedStep | logic.py:119-128 | An entry that is not descended contributes just its own line, with the connector below the root and bare at the root, before the lines of the following entries. |
| DirTree.EntryBlockAt | logic.py:109-142 | In the lines of a level, each entry's lines stand as one block starting exactly where the blocks of the entries before it end. |
| DirTree.LevelLayout | logic.py:109-142 | For every level drawn within the depth limit and each of its arranged entries: the entry's block starts after the blocks of the entries before it and ends where the next begins. It is non-empty, as long as the reference count gives it, and opens with the entry's own line (connector below the root, bare at the root). |
| DirTree.RenderLayout | logic.py:109-142 | The same layout for any sequence of entries drawn as one level. |
| DirTree.RootLevelInOrder | logic.py:113-120 | At the root level, for every pair of entries `j < k` in arranged order, entry `j`'s bare line stands strictly before entry `k`'s, each at the index the blocks before it fill. |
| DirTree.RenderInOrder | logic.py:113-120 | The same order for any sequence of entries drawn as the root level. |
| DirTree.DirectoryLines | logic.py:63-69 | The first line is the root folder's name followed by `/`. The number of lines is one more than the reference count of the tree. |
| DirTree.GenerateDirectoryStructure | logic.py:63-71 | The picture starts with `root/` and is never empty. When the tree has any line beyond the root, that root line is followed by a newline. |
| DirTree.LevelSizePermutation | logic.py:81 | The number of lines a level contributes does not depend on the order of its entries. |
| DirTree.LevelSizeKnown | logic.py:90-95 | Dropping entries that are neither directories nor files does not change the line count. |
| DirTree.TreeSizeMatches | logic.py:73-142 | The number of lines drawn equals a reference count. A file counts one line. A directory counts one line plus, unless it is excluded or at the depth limit, the lines of its contents. Nothing is counted past the depth limit or for an unreadable directory. |
| DirTree.LevelSizeMatches | logic.py:109-142 | The same count, for the entries of one level from a given position on. |
| DirTree.NoSiblingBelow | logic.py:131 | Lines drawn inside a subdirectory start with a continuation, never with a connector of the enclosing level. |
| DirTree.HeadlinesShape | logic.py:110-114 | Each entry line below the root is the prefix, a four-character connector and the entry's label. The connector is `└── ` exactly for the last entry. |
| DirTree.ConnectorsAtLevel | logic.py:109-142 | Below the root, the lines of a level that carry a connector at that level are the level's entries in arranged order. Each has `├── ` except the last, which alone has `└── `. |
| DirTree.RootLevelBare | logic.py:113-116 | At depth zero every entry appears as its bare label, with no connector. Every other line of that level lies inside a subdirectory, behind `│   ` or four blanks. |
| DirTree.BareLabels | logic.py:116-120 | The bare labels of a level are, position by position, the prefix followed by each entry's label. |
| DirTree.RootLevelPlaced | logic.py:109-142 | At depth zero the bare label of entry `j` is the line at the index the blocks of the entries before it fill, so the labels of `RootLevelBare` appear in arranged order, each directly above its own subdirectory's lines. |
| DirTree.FlatLevel | logic.py:119-128 | A level in which no directory is descended, because each is excluded or the level is at the depth limit, draws exactly one line per entry and nothing else. |
| DirTree.DeepestLevelFlat | logic.py:126-128 | A directory drawn at the depth limit lists its arranged entries, each behind its connector, and descends into none of them. |
| TreeExamples.SortExample | logic.py:81 | `b`, `s`, `a`, `.git`, `k` sort by code point to `.git`, `a`, `b`, `k`, `s`. |
| TreeExamples.ArrangeExample | logic.py:86-106 | That level arranges to `.git/`, `s/`, `a`, `b`. The socket `k` is dropped. |
| TreeExamples.RenderInner | logic.py:109-142 | A single file inside a subdirectory that is not last is drawn as `│   └── m`. |
| TreeExamples.BasenameExample | logic.py:65-66 | The root line for `/home/u/proj` names `proj`. |
| Ingest.DropName | logic.py:29-31 | The drop name holds no `/`. It is the path's basename, a `-`, then the basename of the path's dirname. |
| Ingest.ProcessFileDrop | logic.py:28-39 | A file drop uses the name `basename-parentname`. It adds nothing exactly when an item of the same kind already has that name. Otherwise it appends one unchecked item at the end: a link stores the absolute path; a cold file stores the read text, absent when that text is empty. |
| Ingest.FileDropIdempotent | logic.py:28-39 | Dropping the same file twice adds nothing the second time. |
| Ingest.FileDropKeepsUnique | logic.py:28-39 | A file drop keeps keys unique. |
| Ingest.DropNameOfJoined | logic.py:29-31 | Dropping `dir/file` gives the name `file-` followed by the basename of `dir`. |
| Ingest.FolderPrefix | logic.py:44 | The numbering prefix of a cold folder is the clip marker, then the drop name, then `-`. |
| Ingest.ProcessFolderDrop | logic.py:41-61 | A folder drop always appends one unchecked directory item. A live link is named `folder-parent` and stores the absolute path. A cold folder is named by the numbered-name search over the prefix of the clip marker and `folder-parent-`, so its name is free, and it stores the tree picture. |
| Ingest.ColdFolderDropKeepsUnique | logic.py:41-61 | A cold folder drop keeps keys unique. |
| Ingest.LiveFolderDropDuplicates | logic.py:44-51 | Dropping a live folder link twice adds its key twice, so keys are no longer unique. |
| Ingest.AddClipboardContent | logic.py:250-257 | Clipboard text adds nothing exactly when it is all whitespace. Otherwise it appends one unchecked cold item holding the stripped text, under the name the numbered-name search gives for the clipboard prefix, which no item bears. |
| Ingest.ClipboardKeepsUnique | logic.py:250-257 | Adding clipboard text keeps keys unique. |
| Ingest.ClipboardNumbering | logic.py:250-257 | Two clipboard snippets added to an empty store are named `clipboard-1` and `clipboard-2`, after the clip marker. |
| Ingest.ProcessDrop | logic.py:22-26 | A drop is dispatched by kind: a folder drop always adds an item of the dropped kind, and a file drop adds one unless its key is taken. |
| Ingest.DropKeepsUnique | logic.py:22-61 | Every drop except a live folder link keeps keys unique. |
| Export.StoredPath | logic.py:216 | `item.get("link_path")` is the path exactly when one is stored, and `None` when the entry is missing or `None`. |
| Export.Resolve | logic.py:202-211 | A live folder link is redrawn from disk, giving a non-empty picture. A live file link is read again, and a link whose path is `None` gives the error note. A cold item gives its stored content, or `[No content available]`. |
| Export.ContextOf | logic.py:213-219 | A record keeps the item's name, `is_link` and `is_dir`. Its path is present exactly when the item stores one, and is that path. Its content is the item's resolved text. |
| Export.CheckedFrom | logic.py:200-202 | The positions selected are in range and hold checked items. |
| Export.CheckedFromIncreasing | logic.py:200-202 | The positions selected keep store order. |
| Export.CheckedFromComplete | logic.py:200-202 | No checked item is missed. |
| Export.GetContextItems | logic.py:199-220 | No records are produced exactly when no item is checked. |
| Export.ContextFromFollowsChecked | logic.py:199-220 | The records are, position by position, the resolutions of the checked items. |
| Export.ContextItemsFollowChecked | logic.py:199-220 | One record per checked item, in store order, none missed. Each record holds the item's name, kind, stored path, resolved content and `is_dir`. |
| Export.Header | logic.py:228 | The header of a record is the name of a cold item; for a link it is the stored path, or `None` when there is none. |
| Export.Block | logic.py:230-234 | A record is written as five lines: the header, a fence, the content, a fence and an empty line. |
| Export.FormatLines | logic.py:227-234 | Each record contributes exactly five lines. |
| Export.ExportText | logic.py:222-238 | Text is produced exactly when some item is checked. |
| Export.CopyContext | logic.py:222-248 | The copy reports success exactly when some item is checked and the clipboard accepts the text. |
| Export.JoinBlock | logic.py:227-238 | One record's five lines, joined, read: header, newline, fence, newline, content, newline, fence, newline. |
| Export.JoinBlocks | logic.py:227-238 | The joined lines of all records, plus one final newline, are the records' blocks one after another. |
| Export.ExportLayout | logic.py:222-238 | When something is checked, the text is the joined lines of the records, and adding a newline to it gives the concatenated blocks. |
| Export.ExportAfterClear | logic.py:194-248 | After clearing, the export produces no text and the copy reports failure. |
| Export.ColdContextFrom | logic.py:209-211 | When only cold items are checked, the records do not depend on the file system. |
| Export.ColdExportHostIndependent | logic.py:209-211 | When only cold items are checked, the exported text is the same whatever the file system holds. |
| Export.ExampleContext | logic.py:199-220 | Of a checked cold `A` holding `hello` and an unchecked `B`, only `A` is exported. |
| Export.ExportExample | logic.py:222-238 | For that store, the text is `A`, a fence, `hello`, a fence and an empty line, joined by newlines. |

## Left out

- Persistence of `state.json` (`load_state`, `save_state`) is not modelled. Every mutation is followed by a save, which the returned sequence stands for.
- The window state (`update_window_state`, the opacity, width, height and collapse) is not modelled. It is presentation state with floating-point opacity.
- The clipboard is not modelled. `pyperclip.paste` becomes a string argument, and whether `pyperclip.copy` raises becomes a boolean argument.
- `go_to_directory` is not modelled. It only launches a platform file browser.
- The `print` diagnostics are not modelled.
- The graphical front end, `contextyap.py`, is not part of this model. It only calls these operations and draws their results.
- `os.listdir` exceptions other than a permission error or a missing directory are not modelled. For example, a `NotADirectoryError` on a link to a file would propagate in the source.
- Symbolic-link cycles are not modelled. The listing is a finite tree.
- `os.path.abspath` is an opaque function of the host.
- Windows path syntax is not modelled.
- FileSystem.ReadFile: the exception text inside `[Error reading file: …]` is an opaque description supplied by the host, not Python's message. The one exception is `open(None)`, whose message is spelled out in `Export.NoPathError`.
- Export.Resolve: a checked live folder link with no stored path makes the source raise a `TypeError` at `os.path.basename(None)` (logic.py:65), the first line of `generate_directory_structure`. A live file link without a `link_path` entry raises a `KeyError`. Both are excluded by the precondition `CheckedExportable` rather than modelled as failures.
- Items.Item: `is_link` and `is_dir` missing from a stored record are read as false, as the source's `item.get(…, False)` does. The difference between a missing `checked` entry and a false one is not kept.
- Items.UpdateItemName: distinct items are told apart by record equality, as in the source. Two equal records bearing the same key are the same item to the model as well.
- `TEXT_EXTENSIONS` and `BLOCKED_DIRECTORIES` are not modelled. They are declared in `logic.py` but used by none of these operations.
- DirTree.TreeConfig: the excluded names and the depth limit are a parameter, because the front end may change them at run time. `DefaultConfig` holds the source's defaults.
- TreeExamples: no complete multi-level picture is worked out as a concrete string. The count, connector and depth lemmas state its shape for every tree.
