/** A worked example of the directory-tree renderer on a fixed listing. */
module TreeExamples {
  import opened Text
  import opened Paths
  import opened FileSystem
  import opened DirTree

  function Git(): Entry { Dir(".git", Listed([File("h")])) }
  function S(): Entry { Dir("s", Listed([File("m")])) }
  function K(): Entry { Special("k") }

  /** Files `b` and `a`, directories `s` (holding `m`) and `.git`, and a socket `k`. */
  function ExampleListing(): seq<Entry> {
    [File("b"), S(), File("a"), Git(), K()]
  }

  lemma Insert1()
    ensures InsertByName(Git(), [K()]) == [Git(), K()]
  {
    assert LexLe(".git", "k");
  }

  lemma Insert2()
    ensures InsertByName(File("a"), [Git(), K()]) == [Git(), File("a"), K()]
  {
    assert !LexLe("a", ".git");
    assert LexLe("a", "k");
    assert [K()][0] == K();
  }

  lemma Insert3()
    ensures InsertByName(S(), [Git(), File("a"), K()]) == [Git(), File("a"), K(), S()]
  {
    assert !LexLe("s", ".git") && !LexLe("s", "a") && !LexLe("s", "k");
    var t := [Git(), File("a"), K()];
    assert t[1..] == [File("a"), K()] && t[1..][1..] == [K()] && t[1..][1..][1..] == [];
  }

  lemma Insert4()
    ensures InsertByName(File("b"), [Git(), File("a"), K(), S()]) == [Git(), File("a"), File("b"), K(), S()]
  {
    assert !LexLe("b", ".git") && !LexLe("b", "a") && LexLe("b", "k");
    var t := [Git(), File("a"), K(), S()];
    assert t[1..] == [File("a"), K(), S()] && t[1..][1..] == [K(), S()];
  }

  /** Names compare by code point, so `.git` < `a` < `b` < `k` < `s`. */
  lemma SortExample()
    ensures SortByName(ExampleListing()) == [Git(), File("a"), File("b"), K(), S()]
  {
    var es := ExampleListing();
    assert es[1..][1..][1..][1..] == [K()];
    assert SortByName([K()]) == [K()];
    Insert1();
    assert SortByName(es[1..][1..][1..]) == [Git(), K()];
    Insert2();
    assert SortByName(es[1..][1..]) == [Git(), File("a"), K()];
    Insert3();
    assert SortByName(es[1..]) == [Git(), File("a"), K(), S()];
    Insert4();
  }

  lemma KeepDirs()
    ensures Keep([Git(), File("a"), File("b"), K(), S()], true) == [Git(), S()]
  {
    var s := [Git(), File("a"), File("b"), K(), S()];
    assert s[1..][1..][1..][1..] == [S()];
    assert Keep([S()], true) == [S()];
    assert Keep(s[1..][1..][1..], true) == [S()];
    assert Keep(s[1..][1..], true) == [S()];
    assert Keep(s[1..], true) == [S()];
  }

  lemma KeepFiles()
    ensures Keep([Git(), File("a"), File("b"), K(), S()], false) == [File("a"), File("b")]
  {
    var s := [Git(), File("a"), File("b"), K(), S()];
    assert s[1..][1..][1..][1..] == [S()];
    assert Keep([S()], false) == [];
    assert Keep(s[1..][1..][1..], false) == [];
    assert Keep(s[1..], false) == [File("a"), File("b")];
  }

  /** Sorting and grouping the example level: directories first, each group
      sorted, the socket gone. */
  lemma ArrangeExample()
    ensures Arrange(ExampleListing()) == [Git(), S(), File("a"), File("b")]
  {
    SortExample();
    KeepDirs();
    KeepFiles();
  }

  lemma ArrangeSingle()
    ensures Arrange([File("m")]) == [File("m")]
  {
    var all := [File("m")];
    assert SortByName(all) == all;
    assert Keep(all, true) == [];
    assert Keep(all, false) == all;
  }

  /** Inside `s/`, drawn under the continuation of an entry that is not last
      (`│   `): its single file is the last entry of its level, so it gets `└── `. */
  lemma RenderInner()
    ensures ProcessTree(S().listing, Pipe, 1, DefaultConfig) == [Pipe + LastBranch + "m"]
  {
    var l := S().listing;
    ArrangeSingle();
    assert RenderEntries(l, [File("m")], 1, Pipe, 1, DefaultConfig) == [];
  }

  /** The root line of a picture of `/home/u/proj` is `proj/`. */
  lemma BasenameExample()
    ensures Basename("/home/u/proj") == "proj"
  {
    SplitPointAfterSep("/home/u", "proj");
    assert "/home/u/proj" == "/home/u" + [Sep] + "proj";
  }
}
