/** `os.path.basename` and `os.path.dirname` with POSIX separators, used to
    derive item names from dropped paths. */
module Paths {

  const Sep: char := '/'

  predicate NoSep(s: string) {
    forall i :: 0 <= i < |s| ==> s[i] != Sep
  }

  predicate AllSep(s: string) {
    forall i :: 0 <= i < |s| ==> s[i] == Sep
  }

  /** One past the last separator of `p`, or 0 when there is none (`p.rfind('/') + 1`). */
  function SplitPoint(p: string): (k: nat)
    ensures k <= |p|
    ensures k == 0 || p[k - 1] == Sep
    ensures NoSep(p[k..])
  {
    if p == [] then 0
    else if p[|p| - 1] == Sep then |p|
    else
      var k := SplitPoint(p[..|p| - 1]);
      assert p[k..] == p[..|p| - 1][k..] + [p[|p| - 1]];
      k
  }

  /** `posixpath.basename(p)`: the longest suffix of `p` without a separator. */
  function Basename(p: string): (r: string)
    ensures NoSep(r)
    ensures exists k :: 0 <= k <= |p| && r == p[k..] && (k == 0 || p[k - 1] == Sep)
  {
    p[SplitPoint(p)..]
  }

  function RStripSep(s: string): (r: string)
    ensures |r| <= |s| && r == s[..|r|]
    ensures AllSep(s[|r|..])
    ensures r == [] || r[|r| - 1] != Sep
  {
    if s != [] && s[|s| - 1] == Sep then
      var r := RStripSep(s[..|s| - 1]);
      assert s[|r|..] == s[..|s| - 1][|r|..] + [Sep];
      r
    else
      s
  }

  /** `posixpath.dirname(p)`: everything up to the last separator, with the
      separators that end it removed unless it consists of separators only. */
  function Dirname(p: string): (r: string)
    ensures |r| <= |p| && r == p[..|r|]
    ensures NoSep(p) ==> r == []
    ensures r == [] || AllSep(r) || r[|r| - 1] != Sep
    ensures exists k :: |r| <= k <= |p| && AllSep(p[|r|..k]) && p[k..] == Basename(p)
    ensures !NoSep(p) ==> r != []
    ensures r != [] && AllSep(r) ==> p[|r|..] == Basename(p)
  {
    var k := SplitPoint(p);
    var head := p[..k];
    if head != [] && !AllSep(head) then
      var r := RStripSep(head);
      assert p[|r|..k] == head[|r|..];
      r
    else
      assert head != [] ==> p[0..k] == head;
      assert head == [] ==> p[k..] == p;
      head
  }

  lemma {:induction false} SplitPointAfterSep(a: string, b: string)
    requires NoSep(b)
    ensures SplitPoint(a + [Sep] + b) == |a| + 1
  {
    var p := a + [Sep] + b;
    if b != [] {
      assert p[..|p| - 1] == a + [Sep] + b[..|b| - 1];
      SplitPointAfterSep(a, b[..|b| - 1]);
    }
  }

  /** Splitting `dir + "/" + file` gives back `dir` and `file`. */
  lemma SplitJoined(dir: string, file: string)
    requires dir != [] && dir[|dir| - 1] != Sep && !AllSep(dir)
    requires NoSep(file)
    ensures Basename(dir + [Sep] + file) == file
    ensures Dirname(dir + [Sep] + file) == dir
  {
    var p := dir + [Sep] + file;
    assert p[|dir| + 1..] == file;
    var k := SplitPoint(p);
    SplitPointAfterSep(dir, file);
    assert p[..k] == dir + [Sep];
    assert RStripSep(dir + [Sep]) == RStripSep(dir) by {
      assert (dir + [Sep])[..|dir|] == dir;
    }
  }
}
