/** `AppLogic.generate_directory_structure` and `_process_directory_tree`: a
    bounded-depth text picture of a directory, one line per entry, with
    directories before files at each level, each group in sorted order. */
module DirTree {
  import opened Text
  import opened Paths
  import opened FileSystem

  /** The renderer's two settings, `EXCLUDED_DIRS` and `MAX_TREE_DEPTH`,
      which the application may change at run time. */
  datatype TreeConfig = TreeConfig(excluded: seq<string>, maxDepth: nat)

  const DefaultConfig := TreeConfig(["node_modules", ".git", "dist", "build"], 3)

  const Branch := "├── "
  const LastBranch := "└── "
  const Pipe := "│   "
  const Blank := "    "

  // ---------------------------------------------------------------------------
  // Ordering of a level: sorted names, directories first

  predicate SortedByName(s: seq<Entry>) {
    forall i, j :: 0 <= i < j < |s| ==> LexLe(s[i].name, s[j].name)
  }

  /** `x` placed before the first entry of `s` whose name it does not exceed. */
  function InsertByName(x: Entry, s: seq<Entry>): (r: seq<Entry>)
    ensures |r| == |s| + 1
  {
    if s == [] then [x]
    else if LexLe(x.name, s[0].name) then [x] + s
    else [s[0]] + InsertByName(x, s[1..])
  }

  lemma {:induction false} InsertCount(x: Entry, s: seq<Entry>)
    ensures multiset(InsertByName(x, s)) == multiset(s) + multiset{x}
  {
    if s != [] && !LexLe(x.name, s[0].name) {
      InsertCount(x, s[1..]);
      assert s == [s[0]] + s[1..];
    }
  }

  lemma {:induction false} InsertSorted(x: Entry, s: seq<Entry>)
    requires SortedByName(s)
    ensures SortedByName(InsertByName(x, s))
  {
    if s != [] {
      if LexLe(x.name, s[0].name) {
        SortedCons(x, s);
      } else {
        var rest := InsertByName(x, s[1..]);
        assert SortedByName(s[1..]) by {
          forall i, j | 0 <= i < j < |s[1..]|
            ensures LexLe(s[1..][i].name, s[1..][j].name)
          {
            assert s[1..][i] == s[i + 1] && s[1..][j] == s[j + 1];
          }
        }
        InsertSorted(x, s[1..]);
        InsertCount(x, s[1..]);
        LexLeTotal(x.name, s[0].name);
        SortedBehind(x, s, rest);
      }
    }
  }

  lemma SortedCons(x: Entry, s: seq<Entry>)
    requires SortedByName(s) && s != [] && LexLe(x.name, s[0].name)
    ensures SortedByName([x] + s)
  {
    forall j | 0 <= j < |s|
      ensures LexLe(x.name, s[j].name)
    {
      if j > 0 {
        LexLeTransitive(x.name, s[0].name, s[j].name);
      }
    }
    var r := [x] + s;
    forall i, j | 0 <= i < j < |r|
      ensures LexLe(r[i].name, r[j].name)
    {
      if i > 0 {
        assert r[i] == s[i - 1] && r[j] == s[j - 1];
      } else {
        assert r[j] == s[j - 1];
      }
    }
  }

  lemma SortedBehind(x: Entry, s: seq<Entry>, rest: seq<Entry>)
    requires SortedByName(s) && s != [] && LexLe(s[0].name, x.name)
    requires SortedByName(rest) && multiset(rest) == multiset(s[1..]) + multiset{x}
    ensures SortedByName([s[0]] + rest)
  {
    forall j | 0 <= j < |rest|
      ensures LexLe(s[0].name, rest[j].name)
    {
      assert rest[j] in multiset(rest);
      if rest[j] != x {
        assert rest[j] in multiset(s[1..]);
        var k :| 0 <= k < |s[1..]| && s[1..][k] == rest[j];
        assert s[k + 1] == rest[j];
      }
    }
    var r := [s[0]] + rest;
    forall i, j | 0 <= i < j < |r|
      ensures LexLe(r[i].name, r[j].name)
    {
      if i > 0 {
        assert r[i] == rest[i - 1] && r[j] == rest[j - 1];
      } else {
        assert r[j] == rest[j - 1];
      }
    }
  }

  /** `sorted(os.listdir(path))`, applied to the entries themselves. */
  function SortByName(s: seq<Entry>): (r: seq<Entry>)
    ensures SortedByName(r)
    ensures multiset(r) == multiset(s)
  {
    if s == [] then []
    else
      var rest := SortByName(s[1..]);
      InsertSorted(s[0], rest);
      InsertCount(s[0], rest);
      assert s == [s[0]] + s[1..];
      InsertByName(s[0], rest)
  }

  predicate IsKind(e: Entry, wantDir: bool) {
    if wantDir then e.Dir? else e.File?
  }

  /** The directories (`wantDir`) or the regular files of `s`, in their order. */
  function Keep(s: seq<Entry>, wantDir: bool): (r: seq<Entry>)
    ensures forall i :: 0 <= i < |r| ==> IsKind(r[i], wantDir)
  {
    if s == [] then []
    else
      var rest := Keep(s[1..], wantDir);
      if IsKind(s[0], wantDir) then [s[0]] + rest else rest
  }

  /** Keeping one kind keeps every entry of that kind as often as it occurs, and no other. */
  lemma {:induction false} KeepCount(s: seq<Entry>, wantDir: bool)
    ensures forall e :: multiset(Keep(s, wantDir))[e] == if IsKind(e, wantDir) then multiset(s)[e] else 0
  {
    if s != [] {
      KeepCount(s[1..], wantDir);
      assert s == [s[0]] + s[1..];
    }
  }

  /** Keeping one kind preserves name order. */
  lemma {:induction false} KeepSorted(s: seq<Entry>, wantDir: bool)
    requires SortedByName(s)
    ensures SortedByName(Keep(s, wantDir))
  {
    if s != [] {
      var rest := Keep(s[1..], wantDir);
      assert SortedByName(s[1..]) by {
        forall i, j | 0 <= i < j < |s[1..]|
          ensures LexLe(s[1..][i].name, s[1..][j].name)
        {
          assert s[1..][i] == s[i + 1] && s[1..][j] == s[j + 1];
        }
      }
      KeepSorted(s[1..], wantDir);
      KeepCount(s[1..], wantDir);
      if IsKind(s[0], wantDir) {
        forall j | 0 <= j < |rest|
          ensures LexLe(s[0].name, rest[j].name)
        {
          assert rest[j] in multiset(rest);
          assert rest[j] in multiset(s[1..]);
          var k :| 0 <= k < |s[1..]| && s[1..][k] == rest[j];
          assert s[k + 1] == rest[j];
        }
        HeadBeforeSorted(s[0], rest);
      }
    }
  }

  lemma HeadBeforeSorted(x: Entry, rest: seq<Entry>)
    requires SortedByName(rest)
    requires forall j :: 0 <= j < |rest| ==> LexLe(x.name, rest[j].name)
    ensures SortedByName([x] + rest)
  {
    var r := [x] + rest;
    forall i, j | 0 <= i < j < |r|
      ensures LexLe(r[i].name, r[j].name)
    {
      assert r[j] == rest[j - 1];
      if i > 0 {
        assert r[i] == rest[i - 1];
      }
    }
  }

  /** The entries that are a directory or a regular file, in listing order. */
  function Known(s: seq<Entry>): (r: seq<Entry>)
    ensures forall e :: multiset(r)[e] == if e.Special? then 0 else multiset(s)[e]
  {
    if s == [] then []
    else
      var rest := Known(s[1..]);
      assert s == [s[0]] + s[1..];
      if s[0].Special? then rest else [s[0]] + rest
  }

  /** One level as the renderer visits it: directories, then files, each in
      sorted order; names that are neither are dropped. */
  function Arrange(es: seq<Entry>): (r: seq<Entry>)
    ensures forall i :: 0 <= i < |r| ==> r[i].Dir? || r[i].File?
    ensures forall i, j :: 0 <= i < j < |r| && r[j].Dir? ==> r[i].Dir?
    ensures forall i, j :: 0 <= i < j < |r| && r[i].Dir? == r[j].Dir? ==> LexLe(r[i].name, r[j].name)
    ensures multiset(r) == multiset(Known(es))
    ensures forall e :: e in r ==> e in es
  {
    var sorted := SortByName(es);
    var dirs := Keep(sorted, true);
    var files := Keep(sorted, false);
    KeepSorted(sorted, true);
    KeepSorted(sorted, false);
    KeepCount(sorted, true);
    KeepCount(sorted, false);
    DirsThenFiles(dirs, files);
    ArrangeContents(es, sorted, dirs, files);
    dirs + files
  }

  lemma DirsThenFiles(dirs: seq<Entry>, files: seq<Entry>)
    requires forall i :: 0 <= i < |dirs| ==> dirs[i].Dir?
    requires forall i :: 0 <= i < |files| ==> files[i].File?
    requires SortedByName(dirs) && SortedByName(files)
    ensures var r := dirs + files;
            (forall i :: 0 <= i < |r| ==> r[i].Dir? || r[i].File?)
            && (forall i, j :: 0 <= i < j < |r| && r[j].Dir? ==> r[i].Dir?)
            && (forall i, j :: 0 <= i < j < |r| && r[i].Dir? == r[j].Dir? ==> LexLe(r[i].name, r[j].name))
  {
    var r := dirs + files;
    forall i, j | 0 <= i < j < |r| && r[i].Dir? == r[j].Dir?
      ensures LexLe(r[i].name, r[j].name)
    {
      if j < |dirs| {
        assert r[i] == dirs[i] && r[j] == dirs[j];
      } else if i >= |dirs| {
        assert r[i] == files[i - |dirs|] && r[j] == files[j - |dirs|];
      } else {
        assert false;
      }
    }
    forall i, j | 0 <= i < j < |r| && r[j].Dir?
      ensures r[i].Dir?
    {
      if j >= |dirs| {
        assert false;
      }
    }
  }

  lemma ArrangeContents(es: seq<Entry>, sorted: seq<Entry>, dirs: seq<Entry>, files: seq<Entry>)
    requires multiset(sorted) == multiset(es)
    requires forall e :: multiset(dirs)[e] == if IsKind(e, true) then multiset(sorted)[e] else 0
    requires forall e :: multiset(files)[e] == if IsKind(e, false) then multiset(sorted)[e] else 0
    ensures multiset(dirs + files) == multiset(Known(es))
    ensures forall e :: e in dirs + files ==> e in es
  {
    assert forall e :: multiset(dirs + files)[e] == multiset(Known(es))[e];
    forall e | e in dirs + files
      ensures e in es
    {
      assert e in multiset(dirs + files);
    }
  }

  // ---------------------------------------------------------------------------
  // Rendering

  /** How an entry is written: directories carry a trailing slash. */
  function Label(e: Entry): string {
    if e.Dir? then e.name + "/" else e.name
  }

  function Connector(isLast: bool): string {
    if isLast then LastBranch else Branch
  }

  function Continuation(isLast: bool): string {
    if isLast then Blank else Pipe
  }

  predicate Expands(e: Entry, depth: nat, cfg: TreeConfig) {
    e.Dir? && e.name !in cfg.excluded && depth < cfg.maxDepth
  }

  /** `_process_directory_tree(path, result, prefix, depth, _)`: the lines
      appended for the directory whose listing is `l`, every one of them
      beginning with `prefix`. */
  function ProcessTree(l: Listing, prefix: string, depth: nat, cfg: TreeConfig): (r: seq<string>)
    ensures forall k :: 0 <= k < |r| ==> prefix <= r[k]
    decreases l, 1
  {
    if depth > cfg.maxDepth then []
    else
      match l
      case Unreadable => []
      case Listed(es) => RenderEntries(l, Arrange(es), 0, prefix, depth, cfg)
  }

  /** The lines for entries `all[i..]` of one level (the loop of
      `_process_directory_tree`): each entry's lines in turn. */
  function RenderEntries(ghost parent: Listing, all: seq<Entry>, i: nat, prefix: string, depth: nat,
                         cfg: TreeConfig): (r: seq<string>)
    requires parent.Listed? && forall e :: e in all ==> e in parent.entries
    requires i <= |all|
    ensures forall k :: 0 <= k < |r| ==> prefix <= r[k]
    decreases parent, 0, |all| - i
  {
    if i == |all| then []
    else
      assert all[i] in parent.entries;
      var here := EntryLines(all[i], i == |all| - 1, prefix, depth, cfg);
      var rest := RenderEntries(parent, all, i + 1, prefix, depth, cfg);
      PrefixedConcat(prefix, here, rest, []);
      assert here + rest + [] == here + rest;
      here + rest
  }

  /** One pass of the loop body: the entry's own line (behind its connector
      below the root, bare at the root) and, when the entry is a directory
      that is descended, the lines of its contents drawn under the
      continuation of this entry. */
  function EntryLines(e: Entry, isLast: bool, prefix: string, depth: nat, cfg: TreeConfig): (r: seq<string>)
    ensures r != [] && r[0] == (if depth > 0 then prefix + Connector(isLast) else prefix) + Label(e)
    ensures Expands(e, depth, cfg) ==> r[1..] == ProcessTree(e.listing, prefix + Continuation(isLast), depth + 1, cfg)
    ensures !Expands(e, depth, cfg) ==> |r| == 1
    ensures forall k :: 0 <= k < |r| ==> prefix <= r[k]
    decreases e, 2
  {
    var entryPrefix := if depth > 0 then prefix + Connector(isLast) else prefix;
    var below := if Expands(e, depth, cfg)
                 then ProcessTree(e.listing, prefix + Continuation(isLast), depth + 1, cfg)
                 else [];
    PrefixExtends(prefix, entryPrefix[|prefix|..], [entryPrefix + Label(e)]);
    PrefixExtends(prefix, Continuation(isLast), below);
    PrefixedConcat(prefix, [entryPrefix + Label(e)], below, []);
    assert [entryPrefix + Label(e)] + below + [] == [entryPrefix + Label(e)] + below;
    [entryPrefix + Label(e)] + below
  }

  /** Lines that begin with `prefix + ext` begin with `prefix`. */
  lemma PrefixExtends(prefix: string, ext: string, lines: seq<string>)
    requires forall k :: 0 <= k < |lines| ==> prefix + ext <= lines[k]
    ensures forall k :: 0 <= k < |lines| ==> prefix <= lines[k]
  {
    forall k | 0 <= k < |lines|
      ensures prefix <= lines[k]
    {
      assert lines[k][..|prefix|] == (prefix + ext)[..|prefix|];
    }
  }

  lemma PrefixedConcat(prefix: string, a: seq<string>, b: seq<string>, c: seq<string>)
    requires forall k :: 0 <= k < |a| ==> prefix <= a[k]
    requires forall k :: 0 <= k < |b| ==> prefix <= b[k]
    requires forall k :: 0 <= k < |c| ==> prefix <= c[k]
    ensures forall k :: 0 <= k < |a + b + c| ==> prefix <= (a + b + c)[k]
  {
    forall k | 0 <= k < |a + b + c|
      ensures prefix <= (a + b + c)[k]
    {
      if k < |a| {
        assert (a + b + c)[k] == a[k];
      } else if k < |a| + |b| {
        assert (a + b + c)[k] == b[k - |a|];
      } else {
        assert (a + b + c)[k] == c[k - |a| - |b|];
      }
    }
  }

  /** All lines of the picture of `path`: the root line, then the tree. */
  function DirectoryLines(host: Host, cfg: TreeConfig, path: string): (r: seq<string>)
    ensures |r| == 1 + TreeSize(host.listDir(path), 0, cfg)
    ensures r[0] == Basename(path) + "/"
  {
    TreeSizeMatches(host.listDir(path), "", 0, cfg);
    [Basename(path) + "/"] + ProcessTree(host.listDir(path), "", 0, cfg)
  }

  /** `generate_directory_structure(path)`: the lines joined by newlines. The
      text always begins with the root line, so it is never empty. */
  function GenerateDirectoryStructure(host: Host, cfg: TreeConfig, path: string): (text: string)
    ensures Basename(path) + "/" <= text
    ensures TreeSize(host.listDir(path), 0, cfg) > 0 ==> Basename(path) + "/" + "\n" <= text
    ensures text != []
  {
    var lines := DirectoryLines(host, cfg, path);
    var root := Basename(path) + "/";
    assert lines[0] == root;
    if |lines| >= 2 then
      JoinFirst(lines, "\n");
      assert root <= root + "\n";
      Join(lines, "\n")
    else
      Join(lines, "\n")
  }

  // ---------------------------------------------------------------------------
  // Reference count: how many lines a directory contributes, read off the
  // listing in its own order

  function TreeSize(l: Listing, depth: nat, cfg: TreeConfig): nat
    decreases l
  {
    if depth > cfg.maxDepth then 0
    else
      match l
      case Unreadable => 0
      case Listed(es) => LevelSize(es, depth, cfg)
  }

  function LevelSize(es: seq<Entry>, depth: nat, cfg: TreeConfig): nat
    decreases es
  {
    if es == [] then 0 else EntrySize(es[0], depth, cfg) + LevelSize(es[1..], depth, cfg)
  }

  /** A file is one line; a directory is one line plus, unless it is excluded
      or at the depth limit, the lines of its own listing; anything else none. */
  function EntrySize(e: Entry, depth: nat, cfg: TreeConfig): nat
    decreases e
  {
    match e
    case Special(_) => 0
    case File(_) => 1
    case Dir(n, l) => 1 + (if n in cfg.excluded || depth >= cfg.maxDepth then 0 else TreeSize(l, depth + 1, cfg))
  }

  lemma {:induction false} LevelSizeAppend(a: seq<Entry>, b: seq<Entry>, depth: nat, cfg: TreeConfig)
    ensures LevelSize(a + b, depth, cfg) == LevelSize(a, depth, cfg) + LevelSize(b, depth, cfg)
  {
    if a == [] {
      assert a + b == b;
    } else {
      assert (a + b)[1..] == a[1..] + b;
      LevelSizeAppend(a[1..], b, depth, cfg);
    }
  }

  /** The size of a level does not depend on the order of its entries. */
  lemma {:induction false} LevelSizePermutation(a: seq<Entry>, b: seq<Entry>, depth: nat, cfg: TreeConfig)
    requires multiset(a) == multiset(b)
    ensures LevelSize(a, depth, cfg) == LevelSize(b, depth, cfg)
    decreases |a|
  {
    if a == [] {
      assert |b| == |multiset(b)|;
    } else {
      var k := MatchFirst(a, b);
      LevelSizePermutation(a[1..], b[..k] + b[k + 1..], depth, cfg);
      LevelSizeWithout(b, k, depth, cfg);
    }
  }

  /** A position in `b` holding the first entry of `a`, with the rest of both still permutations. */
  lemma MatchFirst(a: seq<Entry>, b: seq<Entry>) returns (k: nat)
    requires a != [] && multiset(a) == multiset(b)
    ensures k < |b| && b[k] == a[0]
    ensures multiset(a[1..]) == multiset(b[..k] + b[k + 1..])
  {
    assert a[0] in multiset(b) by {
      assert a[0] in multiset(a);
    }
    k :| 0 <= k < |b| && b[k] == a[0];
    assert a == [a[0]] + a[1..];
    assert multiset(a[1..]) == multiset(a) - multiset{a[0]};
    MultisetWithout(b, k);
  }

  lemma LevelSizeWithout(b: seq<Entry>, k: nat, depth: nat, cfg: TreeConfig)
    requires k < |b|
    ensures LevelSize(b, depth, cfg) == EntrySize(b[k], depth, cfg) + LevelSize(b[..k] + b[k + 1..], depth, cfg)
  {
    LevelSizeAppend(b[..k], [b[k]] + b[k + 1..], depth, cfg);
    LevelSizeAppend([b[k]], b[k + 1..], depth, cfg);
    LevelSizeAppend(b[..k], b[k + 1..], depth, cfg);
    assert b[..k] + ([b[k]] + b[k + 1..]) == b;
    assert [b[k]][1..] == [];
  }

  lemma MultisetWithout(s: seq<Entry>, k: nat)
    requires k < |s|
    ensures multiset(s[..k] + s[k + 1..]) == multiset(s) - multiset{s[k]}
  {
    assert s == s[..k] + [s[k]] + s[k + 1..];
  }

  /** Dropping the entries that are neither directory nor file changes no count. */
  lemma {:induction false} LevelSizeKnown(es: seq<Entry>, depth: nat, cfg: TreeConfig)
    ensures LevelSize(Known(es), depth, cfg) == LevelSize(es, depth, cfg)
  {
    if es != [] {
      LevelSizeKnown(es[1..], depth, cfg);
      if !es[0].Special? {
        assert ([es[0]] + Known(es[1..]))[1..] == Known(es[1..]);
      }
    }
  }

  /** The renderer writes exactly as many lines as the reference count gives:
      every file and directory within reach once, excluded directories and
      directories at the depth limit without their contents, unreadable
      directories and anything below the depth limit not at all. */
  lemma {:induction false} TreeSizeMatches(l: Listing, prefix: string, depth: nat, cfg: TreeConfig)
    ensures |ProcessTree(l, prefix, depth, cfg)| == TreeSize(l, depth, cfg)
    decreases l, 1
  {
    if depth <= cfg.maxDepth && l.Listed? {
      var es := l.entries;
      var all := Arrange(es);
      LevelSizeMatches(l, all, 0, prefix, depth, cfg);
      assert all[0..] == all;
      LevelSizePermutation(all, Known(es), depth, cfg);
      LevelSizeKnown(es, depth, cfg);
    }
  }

  lemma {:induction false} LevelSizeMatches(parent: Listing, all: seq<Entry>, i: nat, prefix: string, depth: nat,
                                            cfg: TreeConfig)
    requires parent.Listed? && forall e :: e in all ==> e in parent.entries
    requires forall e :: e in all ==> !e.Special?
    requires i <= |all| && depth <= cfg.maxDepth
    ensures |RenderEntries(parent, all, i, prefix, depth, cfg)| == LevelSize(all[i..], depth, cfg)
    decreases parent, 0, |all| - i
  {
    if i < |all| {
      var e := all[i];
      assert e in parent.entries;
      var isLast := i == |all| - 1;
      if Expands(e, depth, cfg) {
        TreeSizeMatches(e.listing, prefix + Continuation(isLast), depth + 1, cfg);
      }
      LevelSizeMatches(parent, all, i + 1, prefix, depth, cfg);
      assert all[i..][1..] == all[i + 1..];
    }
  }

  /** An entry's lines are as many as the reference count gives it. */
  lemma EntryLinesSize(e: Entry, isLast: bool, prefix: string, depth: nat, cfg: TreeConfig)
    requires !e.Special? && depth <= cfg.maxDepth
    ensures |EntryLines(e, isLast, prefix, depth, cfg)| == EntrySize(e, depth, cfg)
  {
    if Expands(e, depth, cfg) {
      TreeSizeMatches(e.listing, prefix + Continuation(isLast), depth + 1, cfg);
    }
  }

  /** One step of `RenderEntries`: the first entry's lines, then the rest. */
  lemma RenderEntriesCons(parent: Listing, all: seq<Entry>, i: nat, prefix: string, depth: nat, cfg: TreeConfig)
    requires parent.Listed? && forall e :: e in all ==> e in parent.entries
    requires i < |all|
    ensures RenderEntries(parent, all, i, prefix, depth, cfg)
            == EntryLines(all[i], i == |all| - 1, prefix, depth, cfg) + RenderEntries(parent, all, i + 1, prefix, depth, cfg)
  {
  }

  lemma LevelSizeSliceCons(all: seq<Entry>, i: nat, j: nat, depth: nat, cfg: TreeConfig)
    requires i < j <= |all|
    ensures LevelSize(all[i..j], depth, cfg) == EntrySize(all[i], depth, cfg) + LevelSize(all[i + 1..j], depth, cfg)
  {
    assert all[i..j][0] == all[i] && all[i..j][1..] == all[i + 1..j];
  }

  lemma LevelSizeSliceEmpty(all: seq<Entry>, i: nat, depth: nat, cfg: TreeConfig)
    requires i <= |all|
    ensures LevelSize(all[i..i], depth, cfg) == 0
  {
    assert all[i..i] == [];
  }

  /** `block` stands in `lines` from index `at` on. */
  predicate BlockAt(lines: seq<string>, at: nat, block: seq<string>) {
    at + |block| <= |lines| && lines[at..at + |block|] == block
  }

  /** A block found at `start` in `rest` lies `|here|` further on in `here + rest`. */
  lemma ShiftBlock(r: seq<string>, here: seq<string>, rest: seq<string>, at: nat, start: nat, block: seq<string>)
    requires r == here + rest && at == |here| + start && BlockAt(rest, start, block)
    ensures BlockAt(r, at, block)
  {
    assert r[at..at + |block|] == rest[start..start + |block|];
  }

  /** The lines of `all[i..]` open with the block of `all[i]`. */
  lemma {:induction false} EntryBlockFirst(parent: Listing, all: seq<Entry>, i: nat, prefix: string, depth: nat,
                                           cfg: TreeConfig)
    requires parent.Listed? && forall e :: e in all ==> e in parent.entries
    requires i < |all|
    ensures BlockAt(RenderEntries(parent, all, i, prefix, depth, cfg), 0, EntryLines(all[i], i == |all| - 1, prefix, depth, cfg))
  {
    var here := EntryLines(all[i], i == |all| - 1, prefix, depth, cfg);
    RenderEntriesCons(parent, all, i, prefix, depth, cfg);
    assert (here + RenderEntries(parent, all, i + 1, prefix, depth, cfg))[0..|here|] == here;
  }

  /** The block of entry `j` in the lines of `all[i + 1..]` is found, moved
      down by the first entry's lines, in the lines of `all[i..]`. */
  lemma {:induction false} EntryBlockStep(parent: Listing, all: seq<Entry>, i: nat, prefix: string, depth: nat,
                                          cfg: TreeConfig, j: nat)
    requires parent.Listed? && forall e :: e in all ==> e in parent.entries
    requires forall e :: e in all ==> !e.Special?
    requires depth <= cfg.maxDepth && i < j < |all|
    requires BlockAt(RenderEntries(parent, all, i + 1, prefix, depth, cfg), LevelSize(all[i + 1..j], depth, cfg),
                     EntryLines(all[j], j == |all| - 1, prefix, depth, cfg))
    ensures BlockAt(RenderEntries(parent, all, i, prefix, depth, cfg), LevelSize(all[i..j], depth, cfg),
                    EntryLines(all[j], j == |all| - 1, prefix, depth, cfg))
  {
    RenderEntriesCons(parent, all, i, prefix, depth, cfg);
    EntryLinesSize(all[i], i == |all| - 1, prefix, depth, cfg);
    LevelSizeSliceCons(all, i, j, depth, cfg);
    ShiftBlock(RenderEntries(parent, all, i, prefix, depth, cfg), EntryLines(all[i], i == |all| - 1, prefix, depth, cfg),
               RenderEntries(parent, all, i + 1, prefix, depth, cfg), LevelSize(all[i..j], depth, cfg),
               LevelSize(all[i + 1..j], depth, cfg), EntryLines(all[j], j == |all| - 1, prefix, depth, cfg));
  }

  /** Within the lines drawn for `all[i..]`, the lines of entry `j` form one
      block that starts after the blocks of the entries before it. So each
      entry's line comes in arranged order, and the lines of a descended
      directory follow its own line, before the next entry's. */
  lemma {:induction false} EntryBlockAt(parent: Listing, all: seq<Entry>, i: nat, prefix: string, depth: nat,
                                        cfg: TreeConfig, j: nat)
    requires parent.Listed? && forall e :: e in all ==> e in parent.entries
    requires forall e :: e in all ==> !e.Special?
    requires depth <= cfg.maxDepth && i <= j < |all|
    ensures BlockAt(RenderEntries(parent, all, i, prefix, depth, cfg), LevelSize(all[i..j], depth, cfg),
                    EntryLines(all[j], j == |all| - 1, prefix, depth, cfg))
    decreases j - i
  {
    if j == i {
      EntryBlockFirst(parent, all, i, prefix, depth, cfg);
      LevelSizeSliceEmpty(all, i, depth, cfg);
    } else {
      EntryBlockAt(parent, all, i + 1, prefix, depth, cfg, j);
      EntryBlockStep(parent, all, i, prefix, depth, cfg, j);
    }
  }

  /** Entry `j` of the level `all` has its place in `lines`: its block starts
      where the blocks of the entries before it end and ends where the next
      begins; it is non-empty, as long as the reference count gives it, and
      opens with the entry's own line (bare at the root, behind its connector
      below it). */
  predicate EntryPlaced(lines: seq<string>, all: seq<Entry>, prefix: string, depth: nat, cfg: TreeConfig, j: nat)
    requires j < |all|
  {
    var at := LevelSize(all[..j], depth, cfg);
    var block := EntryLines(all[j], j == |all| - 1, prefix, depth, cfg);
    && BlockAt(lines, at, block)
    && 1 <= |block| == EntrySize(all[j], depth, cfg)
    && at + |block| == LevelSize(all[..j + 1], depth, cfg)
    && lines[at] == (if depth > 0 then prefix + Connector(j == |all| - 1) else prefix) + Label(all[j])
  }

  /** The layout of one level of the picture: every arranged entry of a
      directory drawn within the depth limit has its place. */
  lemma LevelLayout(es: seq<Entry>, prefix: string, depth: nat, cfg: TreeConfig)
    requires depth <= cfg.maxDepth
    ensures forall j :: 0 <= j < |Arrange(es)| ==>
              EntryPlaced(ProcessTree(Listed(es), prefix, depth, cfg), Arrange(es), prefix, depth, cfg, j)
  {
    ArrangedKnown(es);
    forall j | 0 <= j < |Arrange(es)|
      ensures EntryPlaced(ProcessTree(Listed(es), prefix, depth, cfg), Arrange(es), prefix, depth, cfg, j)
    {
      RenderLayout(Listed(es), Arrange(es), prefix, depth, cfg, j);
    }
  }

  lemma ArrangedKnown(es: seq<Entry>)
    ensures forall e :: e in Arrange(es) ==> e in es && !e.Special?
  {
    var all := Arrange(es);
    forall e | e in all ensures !e.Special? {
      var k :| 0 <= k < |all| && all[k] == e;
    }
  }

  /** `LevelLayout` for any sequence of entries drawn as one level. */
  lemma RenderLayout(parent: Listing, all: seq<Entry>, prefix: string, depth: nat, cfg: TreeConfig, j: nat)
    requires parent.Listed? && forall e :: e in all ==> e in parent.entries
    requires forall e :: e in all ==> !e.Special?
    requires depth <= cfg.maxDepth && j < |all|
    ensures EntryPlaced(RenderEntries(parent, all, 0, prefix, depth, cfg), all, prefix, depth, cfg, j)
  {
    var block := EntryLines(all[j], j == |all| - 1, prefix, depth, cfg);
    EntryBlockAt(parent, all, 0, prefix, depth, cfg, j);
    assert all[0..j] == all[..j];
    EntryLinesSize(all[j], j == |all| - 1, prefix, depth, cfg);
    LevelSizePrefixStep(all, j, depth, cfg);
    BlockHead(RenderEntries(parent, all, 0, prefix, depth, cfg), LevelSize(all[..j], depth, cfg), block);
  }

  lemma LevelSizePrefixStep(all: seq<Entry>, j: nat, depth: nat, cfg: TreeConfig)
    requires j < |all|
    ensures LevelSize(all[..j + 1], depth, cfg) == LevelSize(all[..j], depth, cfg) + EntrySize(all[j], depth, cfg)
  {
    assert all[..j + 1] == all[..j] + [all[j]];
    LevelSizeAppend(all[..j], [all[j]], depth, cfg);
    assert [all[j]][1..] == [];
  }

  lemma BlockHead(lines: seq<string>, at: nat, block: seq<string>)
    requires BlockAt(lines, at, block) && block != []
    ensures lines[at] == block[0]
  {
    assert lines[at..at + |block|][0] == lines[at];
  }

  /** In `lines`, the root-level line of entry `j` of `all` stands strictly
      before that of entry `k`, each at the index the blocks before it fill. */
  predicate BareInOrder(lines: seq<string>, all: seq<Entry>, prefix: string, cfg: TreeConfig, j: nat, k: nat)
    requires j < k < |all|
  {
    && LevelSize(all[..j], 0, cfg) < LevelSize(all[..k], 0, cfg) < |lines|
    && lines[LevelSize(all[..j], 0, cfg)] == prefix + Label(all[j])
    && lines[LevelSize(all[..k], 0, cfg)] == prefix + Label(all[k])
  }

  /** At the root level each arranged entry's bare name stands at the index
      that the lines of the entries before it fill, so the names come in
      arranged order: directories, then files, each by name. */
  lemma RootLevelInOrder(es: seq<Entry>, prefix: string, cfg: TreeConfig)
    ensures forall j, k :: 0 <= j < k < |Arrange(es)| ==>
              BareInOrder(ProcessTree(Listed(es), prefix, 0, cfg), Arrange(es), prefix, cfg, j, k)
  {
    ArrangedKnown(es);
    RenderInOrder(Listed(es), Arrange(es), prefix, cfg);
  }

  /** `RootLevelInOrder` for any sequence of entries drawn as the root level. */
  lemma RenderInOrder(parent: Listing, all: seq<Entry>, prefix: string, cfg: TreeConfig)
    requires parent.Listed? && forall e :: e in all ==> e in parent.entries
    requires forall e :: e in all ==> !e.Special?
    ensures forall j, k :: 0 <= j < k < |all| ==>
              BareInOrder(RenderEntries(parent, all, 0, prefix, 0, cfg), all, prefix, cfg, j, k)
  {
    forall j, k | 0 <= j < k < |all|
      ensures BareInOrder(RenderEntries(parent, all, 0, prefix, 0, cfg), all, prefix, cfg, j, k)
    {
      RenderLayout(parent, all, prefix, 0, cfg, j);
      RenderLayout(parent, all, prefix, 0, cfg, k);
      LevelSizePrefixMono(all, j + 1, k, 0, cfg);
    }
  }


  lemma {:induction false} LevelSizePrefixMono(all: seq<Entry>, a: nat, b: nat, depth: nat, cfg: TreeConfig)
    requires a <= b <= |all|
    ensures LevelSize(all[..a], depth, cfg) <= LevelSize(all[..b], depth, cfg)
    decreases b - a
  {
    if a < b {
      LevelSizePrefixMono(all, a, b - 1, depth, cfg);
      LevelSizePrefixStep(all, b - 1, depth, cfg);
    }
  }

  // ---------------------------------------------------------------------------
  // Connectors

  /** A line that names an entry of the level drawn under `prefix`, as
      opposed to a line of some subdirectory below it. */
  predicate IsSiblingLine(line: string, prefix: string) {
    prefix + Branch <= line || prefix + LastBranch <= line
  }

  function SiblingLines(lines: seq<string>, prefix: string): (r: seq<string>)
    ensures forall k :: 0 <= k < |r| ==> IsSiblingLine(r[k], prefix)
  {
    if lines == [] then []
    else (if IsSiblingLine(lines[0], prefix) then [lines[0]] else []) + SiblingLines(lines[1..], prefix)
  }

  lemma {:induction false} SiblingLinesAppend(a: seq<string>, b: seq<string>, prefix: string)
    ensures SiblingLines(a + b, prefix) == SiblingLines(a, prefix) + SiblingLines(b, prefix)
  {
    if a == [] {
      assert a + b == b;
    } else {
      assert (a + b)[1..] == a[1..] + b;
      SiblingLinesAppend(a[1..], b, prefix);
    }
  }

  /** Lines of a subdirectory start with a continuation glyph, never a connector. */
  lemma {:induction false} NoSiblingBelow(lines: seq<string>, prefix: string, isLast: bool)
    requires forall k :: 0 <= k < |lines| ==> prefix + Continuation(isLast) <= lines[k]
    ensures SiblingLines(lines, prefix) == []
  {
    if lines != [] {
      var line := lines[0];
      assert line[|prefix|] == Continuation(isLast)[0];
      assert Branch[0] != Continuation(isLast)[0] && LastBranch[0] != Continuation(isLast)[0];
      assert (prefix + Branch)[|prefix|] == Branch[0];
      assert (prefix + LastBranch)[|prefix|] == LastBranch[0];
      NoSiblingBelow(lines[1..], prefix, isLast);
    }
  }

  /** The expected entry lines of one level below the root: every entry gets
      `├── ` except the last, which gets `└── `. */
  function Headlines(all: seq<Entry>, i: nat, prefix: string): seq<string>
    requires i <= |all|
  {
    seq(|all| - i, k requires 0 <= k < |all| - i => HeadLine(all, i + k, prefix))
  }

  /** The expected line of the `j`-th entry of a level. */
  function HeadLine(all: seq<Entry>, j: nat, prefix: string): string
    requires j < |all|
  {
    prefix + Connector(j == |all| - 1) + Label(all[j])
  }

  /** `line` is `prefix`, a four-character connector and `shown`, and the
      connector is `└── ` exactly when `isLast`. */
  predicate LineShape(line: string, prefix: string, isLast: bool, shown: string) {
    && (prefix + LastBranch <= line <==> isLast)
    && |prefix| + 4 <= |line| && line[..|prefix|] == prefix && line[|prefix| + 4..] == shown
  }

  /** The expected lines from position `i` are that entry's line, then those
      from `i + 1`. */
  lemma HeadlinesCons(all: seq<Entry>, i: nat, prefix: string)
    requires i < |all|
    ensures Headlines(all, i, prefix) == [HeadLine(all, i, prefix)] + Headlines(all, i + 1, prefix)
  {
    var r := Headlines(all, i, prefix);
    var rest := Headlines(all, i + 1, prefix);
    forall k | 0 <= k < |r|
      ensures r[k] == ([HeadLine(all, i, prefix)] + rest)[k]
    {
      if k > 0 {
        assert (i + 1) + (k - 1) == i + k;
      }
    }
  }

  /** Each expected line is the prefix, a four-character connector and the
      entry's label, and only the last entry's connector is `└── `. */
  lemma HeadlinesShape(all: seq<Entry>, i: nat, prefix: string)
    requires i <= |all|
    ensures forall k :: 0 <= k < |all| - i ==>
              LineShape(Headlines(all, i, prefix)[k], prefix, i + k == |all| - 1, Label(all[i + k]))
  {
    forall k | 0 <= k < |all| - i
      ensures LineShape(Headlines(all, i, prefix)[k], prefix, i + k == |all| - 1, Label(all[i + k]))
    {
      assert Headlines(all, i, prefix)[k] == HeadLine(all, i + k, prefix);
      HeadlineShape(prefix, i + k == |all| - 1, Label(all[i + k]));
    }
  }

  lemma HeadlineShape(prefix: string, isLast: bool, shown: string)
    ensures LineShape(prefix + Connector(isLast) + shown, prefix, isLast, shown)
  {
    var h := prefix + Connector(isLast) + shown;
    assert h[|prefix|] == Connector(isLast)[0];
    assert (prefix + LastBranch)[|prefix|] == LastBranch[0];
    assert h[..|prefix|] == prefix;
    assert h[|prefix| + 4..] == shown;
  }

  /** Below the root, the entry lines of a level are, in order, the entries as
      arranged, each behind `├── ` except the last, which alone gets `└── `;
      lines of subdirectories are not among them. */
  lemma {:induction false} ConnectorsAtLevel(parent: Listing, all: seq<Entry>, i: nat, prefix: string,
                                             depth: nat, cfg: TreeConfig)
    requires parent.Listed? && forall e :: e in all ==> e in parent.entries
    requires i <= |all| && depth >= 1
    ensures SiblingLines(RenderEntries(parent, all, i, prefix, depth, cfg), prefix) == Headlines(all, i, prefix)
    decreases |all| - i
  {
    if i < |all| {
      var e := all[i];
      var isLast := i == |all| - 1;
      var head := prefix + Connector(isLast) + Label(e);
      var below := if Expands(e, depth, cfg)
                   then ProcessTree(e.listing, prefix + Continuation(isLast), depth + 1, cfg)
                   else [];
      var rest := RenderEntries(parent, all, i + 1, prefix, depth, cfg);
      assert RenderEntries(parent, all, i, prefix, depth, cfg) == [head] + below + rest;
      assert IsSiblingLine(head, prefix);
      NoSiblingBelow(below, prefix, isLast);
      SiblingStep(head, below, rest, prefix);
      ConnectorsAtLevel(parent, all, i + 1, prefix, depth, cfg);
      HeadlinesCons(all, i, prefix);
    }
  }

  /** An entry line, the lines of its subdirectory and the following lines:
      only the entry line is a sibling line. */
  lemma SiblingStep(head: string, below: seq<string>, rest: seq<string>, prefix: string)
    requires IsSiblingLine(head, prefix) && SiblingLines(below, prefix) == []
    ensures SiblingLines([head] + below + rest, prefix) == [head] + SiblingLines(rest, prefix)
  {
    SiblingLinesAppend([head] + below, rest, prefix);
    SiblingLinesAppend([head], below, prefix);
    assert SiblingLines([head], prefix) == [head] by {
      assert [head][1..] == [];
    }
  }

  /** At the root level entries carry no connector: every entry appears as its
      bare label, and every other line belongs to a subdirectory. */
  lemma {:induction false} RootLevelBare(parent: Listing, all: seq<Entry>, i: nat, prefix: string, cfg: TreeConfig)
    requires parent.Listed? && forall e :: e in all ==> e in parent.entries
    requires i <= |all|
    ensures var r := RenderEntries(parent, all, i, prefix, 0, cfg);
            (forall k :: 0 <= k < |all| - i ==> BareLabels(all, i, prefix)[k] in r)
            && (forall line :: line in r ==>
                  line in BareLabels(all, i, prefix) || prefix + Pipe <= line || prefix + Blank <= line)
    decreases |all| - i
  {
    if i < |all| {
      var e := all[i];
      var isLast := i == |all| - 1;
      var below := if Expands(e, 0, cfg)
                   then ProcessTree(e.listing, prefix + Continuation(isLast), 1, cfg)
                   else [];
      var rest := RenderEntries(parent, all, i + 1, prefix, 0, cfg);
      var r := RenderEntries(parent, all, i, prefix, 0, cfg);
      var labels := BareLabels(all, i, prefix);
      assert EntryLines(e, isLast, prefix, 0, cfg) == [prefix + Label(e)] + below;
      assert r == [prefix + Label(e)] + below + rest;
      assert labels == [prefix + Label(e)] + BareLabels(all, i + 1, prefix);
      RootLevelBare(parent, all, i + 1, prefix, cfg);
      forall k | 0 <= k < |all| - i
        ensures labels[k] in r
      {
        if k > 0 {
          assert labels[k] == BareLabels(all, i + 1, prefix)[k - 1];
          assert labels[k] in rest;
        }
      }
      forall line | line in r
        ensures line in labels || prefix + Pipe <= line || prefix + Blank <= line
      {
        if line in rest {
          assert line in BareLabels(all, i + 1, prefix) ==> line in labels;
        } else if line in below {
          assert prefix + Continuation(isLast) <= line;
        }
      }
    }
  }

  /** A level in which no directory is descended (each is excluded, or the
      level is at the depth limit) renders one line per entry and nothing else. */
  lemma {:induction false} FlatLevel(parent: Listing, all: seq<Entry>, i: nat, prefix: string, depth: nat,
                                     cfg: TreeConfig)
    requires parent.Listed? && forall e :: e in all ==> e in parent.entries
    requires i <= |all|
    requires forall j :: i <= j < |all| ==> !Expands(all[j], depth, cfg)
    ensures RenderEntries(parent, all, i, prefix, depth, cfg)
            == if depth > 0 then Headlines(all, i, prefix) else BareLabels(all, i, prefix)
    decreases |all| - i
  {
    if i < |all| {
      FlatLevel(parent, all, i + 1, prefix, depth, cfg);
      UnexpandedStep(parent, all, i, prefix, depth, cfg);
      HeadlinesCons(all, i, prefix);
    }
  }

  /** An entry that is not descended contributes its own line only. */
  lemma UnexpandedStep(parent: Listing, all: seq<Entry>, i: nat, prefix: string, depth: nat, cfg: TreeConfig)
    requires parent.Listed? && forall e :: e in all ==> e in parent.entries
    requires i < |all| && !Expands(all[i], depth, cfg)
    ensures RenderEntries(parent, all, i, prefix, depth, cfg)
            == [if depth > 0 then HeadLine(all, i, prefix) else prefix + Label(all[i])]
               + RenderEntries(parent, all, i + 1, prefix, depth, cfg)
  {
  }

  /** A directory at the depth limit lists its entries, each behind its
      connector, without descending into any of them. */
  lemma DeepestLevelFlat(es: seq<Entry>, prefix: string, cfg: TreeConfig)
    requires cfg.maxDepth >= 1
    ensures ProcessTree(Listed(es), prefix, cfg.maxDepth, cfg) == Headlines(Arrange(es), 0, prefix)
  {
    FlatLevel(Listed(es), Arrange(es), 0, prefix, cfg.maxDepth, cfg);
  }

  /** The entries of a level written bare, as at the root level. */
  function BareLabels(all: seq<Entry>, i: nat, prefix: string): (r: seq<string>)
    requires i <= |all|
    ensures |r| == |all| - i
    ensures forall k :: 0 <= k < |r| ==> r[k] == prefix + Label(all[i + k])
    decreases |all| - i
  {
    if i == |all| then [] else [prefix + Label(all[i])] + BareLabels(all, i + 1, prefix)
  }

  /** The bare labels of `RootLevelBare` stand in arranged order: the label of
      entry `j` opens the block of lines that starts where the blocks of the
      entries before it end. */
  lemma RootLevelPlaced(parent: Listing, all: seq<Entry>, i: nat, prefix: string, cfg: TreeConfig)
    requires parent.Listed? && forall e :: e in all ==> e in parent.entries
    requires forall e :: e in all ==> !e.Special?
    requires i <= |all|
    ensures forall j :: i <= j < |all| ==>
              LevelSize(all[i..j], 0, cfg) < |RenderEntries(parent, all, i, prefix, 0, cfg)|
              && RenderEntries(parent, all, i, prefix, 0, cfg)[LevelSize(all[i..j], 0, cfg)]
                 == BareLabels(all, i, prefix)[j - i]
  {
    forall j | i <= j < |all|
      ensures LevelSize(all[i..j], 0, cfg) < |RenderEntries(parent, all, i, prefix, 0, cfg)|
      ensures RenderEntries(parent, all, i, prefix, 0, cfg)[LevelSize(all[i..j], 0, cfg)]
              == BareLabels(all, i, prefix)[j - i]
    {
      EntryBlockAt(parent, all, i, prefix, 0, cfg, j);
      BlockHead(RenderEntries(parent, all, i, prefix, 0, cfg), LevelSize(all[i..j], 0, cfg),
                EntryLines(all[j], j == |all| - 1, prefix, 0, cfg));
    }
  }
}
