/** The item collection of `AppLogic`: an ordered sequence of records looked
    up by the pair (name, is_link), with lookup, removal, toggling, renaming
    and clearing. Every operation is a pure function from the old sequence to
    the new one. */
module Items {
  import opened Text

  /** The `link_path` entry of an item: not there at all (clipboard items and
      cold folders), there but `None` (cold files), or an absolute path (live
      links). Items are compared as whole records, so the first two differ. */
  datatype LinkPath = NoPathKey | NullPath | PathTo(path: string)

  /** One context item. `content` is the captured text of a cold item (absent
      when nothing was captured). `isDir` marks items that stand for a
      directory. */
  datatype Item = Item(
    name: string,
    isLink: bool,
    linkPath: LinkPath,
    content: Option<string>,
    checked: bool,
    isDir: bool
  )

  /** The result of an operation together with the item sequence after it. */
  datatype Step<T> = Step(result: T, items: seq<Item>)

  predicate HasKey(it: Item, name: string, isLink: bool) {
    it.name == name && it.isLink == isLink
  }

  predicate SameKey(a: Item, b: Item) {
    a.name == b.name && a.isLink == b.isLink
  }

  predicate KeyPresent(items: seq<Item>, name: string, isLink: bool) {
    exists j :: 0 <= j < |items| && HasKey(items[j], name, isLink)
  }

  /** The invariant every constructor except the live-folder drop keeps:
      no two items share a (name, is_link) key. */
  predicate UniqueKeys(items: seq<Item>) {
    forall i, j :: 0 <= i < j < |items| ==> !SameKey(items[i], items[j])
  }

  /** Number of items carrying the key. */
  function KeyCount(items: seq<Item>, name: string, isLink: bool): nat {
    if items == [] then 0
    else (if HasKey(items[0], name, isLink) then 1 else 0) + KeyCount(items[1..], name, isLink)
  }

  // ---------------------------------------------------------------------------
  // find_item

  function FindFrom(items: seq<Item>, name: string, isLink: bool, i: nat): (r: Option<nat>)
    requires i <= |items|
    ensures r.Some? ==> i <= r.value < |items| && HasKey(items[r.value], name, isLink)
                        && forall j :: i <= j < r.value ==> !HasKey(items[j], name, isLink)
    ensures r.None? ==> forall j :: i <= j < |items| ==> !HasKey(items[j], name, isLink)
    decreases |items| - i
  {
    if i == |items| then None
    else if HasKey(items[i], name, isLink) then Some(i)
    else FindFrom(items, name, isLink, i + 1)
  }

  /** Position of the first item carrying the key, if any. */
  function FindIndex(items: seq<Item>, name: string, isLink: bool): (r: Option<nat>)
    ensures r.Some? ==> r.value < |items| && HasKey(items[r.value], name, isLink)
                        && forall j :: 0 <= j < r.value ==> !HasKey(items[j], name, isLink)
    ensures r.None? <==> !KeyPresent(items, name, isLink)
  {
    FindFrom(items, name, isLink, 0)
  }

  /** `find_item`: the first item with the key, or nothing. */
  function FindItem(items: seq<Item>, name: string, isLink: bool): (r: Option<Item>)
    ensures r.Some? <==> KeyPresent(items, name, isLink)
    ensures r.Some? ==> r.value in items && HasKey(r.value, name, isLink)
    ensures r.Some? ==> exists i :: 0 <= i < |items| && items[i] == r.value
                                    && forall j :: 0 <= j < i ==> !HasKey(items[j], name, isLink)
  {
    match FindIndex(items, name, isLink)
    case None => None
    case Some(i) => Some(items[i])
  }

  /** With unique keys, the item found is the only one with its key. */
  lemma FindUnique(items: seq<Item>, i: nat)
    requires UniqueKeys(items) && i < |items|
    ensures FindIndex(items, items[i].name, items[i].isLink) == Some(i)
  {
  }

  // ---------------------------------------------------------------------------
  // remove_item

  /** Python's `list.remove(x)`: drop the first element equal to `x`. */
  function RemoveFirstEqual(items: seq<Item>, x: Item): (r: seq<Item>)
    ensures x in items ==> |r| == |items| - 1
    ensures x !in items ==> r == items
  {
    if items == [] then []
    else if items[0] == x then items[1..]
    else [items[0]] + RemoveFirstEqual(items[1..], x)
  }

  lemma {:induction false} RemoveFirstEqualAt(items: seq<Item>, i: nat)
    requires i < |items|
    requires forall j :: 0 <= j < i ==> items[j] != items[i]
    ensures RemoveFirstEqual(items, items[i]) == items[..i] + items[i + 1..]
  {
    if i > 0 {
      assert items[1..][i - 1] == items[i];
      RemoveFirstEqualAt(items[1..], i - 1);
      assert items[1..][..i - 1] == items[1..i];
      assert items[..i] == [items[0]] + items[1..i];
    }
  }

  /** `remove_item`: deletes the first item with the key and reports whether there was one. */
  function RemoveItem(items: seq<Item>, name: string, isLink: bool): (s: Step<bool>)
    ensures s.result <==> KeyPresent(items, name, isLink)
    ensures !s.result ==> s.items == items
    ensures s.result ==> |s.items| == |items| - 1
    ensures s.result ==> var i := FindIndex(items, name, isLink).value;
                         s.items == items[..i] + items[i + 1..]
  {
    match FindItem(items, name, isLink)
    case None => Step(false, items)
    case Some(it) =>
      var i := FindIndex(items, name, isLink).value;
      RemoveFirstEqualAt(items, i);
      Step(true, RemoveFirstEqual(items, it))
  }

  lemma {:induction false} KeyCountAppend(a: seq<Item>, b: seq<Item>, name: string, isLink: bool)
    ensures KeyCount(a + b, name, isLink) == KeyCount(a, name, isLink) + KeyCount(b, name, isLink)
  {
    if a == [] {
      assert a + b == b;
    } else {
      assert (a + b)[1..] == a[1..] + b;
      KeyCountAppend(a[1..], b, name, isLink);
    }
  }

  /** Removal takes away exactly one item carrying the key and keeps every other key's count. */
  lemma RemoveCounts(items: seq<Item>, name: string, isLink: bool, n: string, l: bool)
    requires KeyPresent(items, name, isLink)
    ensures KeyCount(RemoveItem(items, name, isLink).items, n, l)
            == KeyCount(items, n, l) - (if n == name && l == isLink then 1 else 0)
  {
    var i := FindIndex(items, name, isLink).value;
    assert items == items[..i] + ([items[i]] + items[i + 1..]);
    KeyCountAppend(items[..i], [items[i]] + items[i + 1..], n, l);
    KeyCountAppend([items[i]], items[i + 1..], n, l);
    KeyCountAppend(items[..i], items[i + 1..], n, l);
  }

  /** Removal keeps keys unique, and afterwards the removed key is gone. */
  lemma RemoveUnique(items: seq<Item>, name: string, isLink: bool)
    requires UniqueKeys(items)
    ensures UniqueKeys(RemoveItem(items, name, isLink).items)
    ensures !KeyPresent(RemoveItem(items, name, isLink).items, name, isLink)
  {
    var r := RemoveItem(items, name, isLink).items;
    if KeyPresent(items, name, isLink) {
      var i := FindIndex(items, name, isLink).value;
      assert forall j :: 0 <= j < |r| ==> r[j] == items[if j < i then j else j + 1];
      if KeyPresent(r, name, isLink) {
        var j :| 0 <= j < |r| && HasKey(r[j], name, isLink);
        assert SameKey(items[i], items[if j < i then j else j + 1]);
        assert false;
      }
    }
  }

  // ---------------------------------------------------------------------------
  // update_item_state

  /** `update_item_state`: sets `checked` on the first item with the key. */
  function UpdateItemState(items: seq<Item>, name: string, isLink: bool, checked: bool): (s: Step<bool>)
    ensures s.result <==> KeyPresent(items, name, isLink)
    ensures |s.items| == |items|
    ensures !s.result ==> s.items == items
    ensures s.result ==> var i := FindIndex(items, name, isLink).value;
                         s.items[i].checked == checked
                         && s.items[i] == items[i].(checked := checked)
                         && forall j :: 0 <= j < |items| && j != i ==> s.items[j] == items[j]
  {
    match FindIndex(items, name, isLink)
    case None => Step(false, items)
    case Some(i) => Step(true, items[i := items[i].(checked := checked)])
  }

  /** Toggling changes no key, so it keeps keys unique and is found again with the new flag. */
  lemma UpdateStateKeepsKeys(items: seq<Item>, name: string, isLink: bool, checked: bool)
    requires KeyPresent(items, name, isLink)
    ensures var r := UpdateItemState(items, name, isLink, checked).items;
            (forall j :: 0 <= j < |items| ==> SameKey(r[j], items[j]))
            && (UniqueKeys(items) ==> UniqueKeys(r))
            && FindItem(r, name, isLink).Some?
            && FindItem(r, name, isLink).value.checked == checked
  {
    var r := UpdateItemState(items, name, isLink, checked).items;
    var i := FindIndex(items, name, isLink).value;
    assert FindIndex(r, name, isLink) == Some(i) by {
      var k := FindIndex(r, name, isLink);
      assert forall j :: 0 <= j < |items| ==> (HasKey(r[j], name, isLink) <==> HasKey(items[j], name, isLink));
    }
  }

  /** Setting the same flag twice is the same as setting it once. */
  lemma UpdateStateIdempotent(items: seq<Item>, name: string, isLink: bool, checked: bool)
    ensures var once := UpdateItemState(items, name, isLink, checked);
            UpdateItemState(once.items, name, isLink, checked) == once
  {
    var once := UpdateItemState(items, name, isLink, checked);
    if KeyPresent(items, name, isLink) {
      UpdateStateKeepsKeys(items, name, isLink, checked);
      var i := FindIndex(items, name, isLink).value;
      assert forall j :: 0 <= j < |items| ==> (HasKey(once.items[j], name, isLink) <==> HasKey(items[j], name, isLink));
      assert FindIndex(once.items, name, isLink) == Some(i);
    }
  }

  // ---------------------------------------------------------------------------
  // update_item_name

  /** Some item that is not equal (as a record) to `it` already bears `name`. */
  predicate NameHeldByOther(items: seq<Item>, it: Item, name: string) {
    exists j | 0 <= j < |items| :: items[j] != it && items[j].name == name
  }

  /** `update_item_name`: renames the first item with key (oldName, isLink),
      unless an item other than it already bears `newName`, whatever that
      item's `isLink`. */
  function UpdateItemName(items: seq<Item>, oldName: string, isLink: bool, newName: string): (s: Step<bool>)
    ensures |s.items| == |items|
    ensures s.result <==> KeyPresent(items, oldName, isLink)
                          && !NameHeldByOther(items, FindItem(items, oldName, isLink).value, newName)
    ensures !s.result ==> s.items == items
    ensures s.result ==> var i := FindIndex(items, oldName, isLink).value;
                         s.items[i] == items[i].(name := newName)
                         && forall j :: 0 <= j < |items| && j != i ==> s.items[j] == items[j]
  {
    match FindIndex(items, oldName, isLink)
    case None => Step(false, items)
    case Some(i) =>
      if NameHeldByOther(items, items[i], newName) then Step(false, items)
      else Step(true, items[i := items[i].(name := newName)])
  }

  /** Renaming onto a name another item already bears fails and changes nothing. */
  lemma RenameCollisionRejected(items: seq<Item>, oldName: string, isLink: bool, newName: string, b: nat)
    requires b < |items| && items[b].name == newName
    requires FindItem(items, oldName, isLink).Some? && items[b] != FindItem(items, oldName, isLink).value
    ensures UpdateItemName(items, oldName, isLink, newName) == Step(false, items)
  {
  }

  /** A successful rename keeps keys unique, and the item is then found under its new name. */
  lemma RenameKeepsUnique(items: seq<Item>, oldName: string, isLink: bool, newName: string)
    requires UniqueKeys(items)
    requires UpdateItemName(items, oldName, isLink, newName).result
    ensures var r := UpdateItemName(items, oldName, isLink, newName).items;
            UniqueKeys(r) && KeyPresent(r, newName, isLink)
  {
    var r := UpdateItemName(items, oldName, isLink, newName).items;
    var i := FindIndex(items, oldName, isLink).value;
    forall a, c | 0 <= a < c < |r|
      ensures !SameKey(r[a], r[c])
    {
      if a == i || c == i {
        var o := if a == i then c else a;
        if r[o].name == newName {
          assert items[o] != items[i] by {
            assert !SameKey(items[a], items[c]);
          }
          assert NameHeldByOther(items, items[i], newName);
        }
      } else {
        assert !SameKey(items[a], items[c]);
      }
    }
    assert HasKey(r[i], newName, isLink);
  }

  /** Renaming an item to its own name succeeds exactly when every item bearing
      that name equals the found one, and then nothing changes. */
  lemma RenameToSameName(items: seq<Item>, name: string, isLink: bool)
    requires KeyPresent(items, name, isLink)
    ensures var s := UpdateItemName(items, name, isLink, name);
            var it := FindItem(items, name, isLink).value;
            (s.result <==> forall j :: 0 <= j < |items| && items[j].name == name ==> items[j] == it)
            && s.items == items
  {
    var i := FindIndex(items, name, isLink).value;
    assert items[i := items[i].(name := name)] == items;
  }

  /** With unique keys and no item of the other kind named `name`, renaming to the same name succeeds. */
  lemma RenameToSameNameUnique(items: seq<Item>, name: string, isLink: bool)
    requires UniqueKeys(items) && KeyPresent(items, name, isLink)
    requires !KeyPresent(items, name, !isLink)
    ensures UpdateItemName(items, name, isLink, name) == Step(true, items)
  {
    RenameToSameName(items, name, isLink);
    var i := FindIndex(items, name, isLink).value;
    forall j | 0 <= j < |items| && items[j].name == name
      ensures items[j] == items[i]
    {
      if j != i {
        assert HasKey(items[j], name, isLink);
        assert false;
      }
    }
  }

  /** Renaming compares names only: a cold item cannot take its own name while a
      live link bears it too. */
  lemma RenameBlockedByOtherKind()
    ensures var a := Item("notes", false, NoPathKey, Some("x"), false, false);
            var b := Item("notes", true, PathTo("/tmp/notes"), None, false, false);
            UpdateItemName([a, b], "notes", false, "notes") == Step(false, [a, b])
  {
    var a := Item("notes", false, NoPathKey, Some("x"), false, false);
    var b := Item("notes", true, PathTo("/tmp/notes"), None, false, false);
    assert NameHeldByOther([a, b], a, "notes") by {
      assert [a, b][1] == b;
    }
  }

  // ---------------------------------------------------------------------------
  // clear_context

  /** `clear_context`: every item unchecked, nothing else touched. */
  function ClearContext(items: seq<Item>): (r: seq<Item>)
    ensures |r| == |items|
    ensures forall i :: 0 <= i < |r| ==> !r[i].checked
    ensures forall i :: 0 <= i < |r| ==> r[i].(checked := items[i].checked) == items[i]
  {
    if items == [] then []
    else [items[0].(checked := false)] + ClearContext(items[1..])
  }

  /** Clearing twice is clearing once. */
  lemma ClearContextIdempotent(items: seq<Item>)
    ensures ClearContext(ClearContext(items)) == ClearContext(items)
  {
    var c := ClearContext(items);
    var cc := ClearContext(c);
    forall i | 0 <= i < |c|
      ensures cc[i] == c[i]
    {
      assert cc[i].(checked := c[i].checked) == c[i];
    }
  }

  /** Clearing keeps every key where it was, so unique keys stay unique. */
  lemma ClearContextKeepsKeys(items: seq<Item>)
    ensures forall i :: 0 <= i < |items| ==> SameKey(ClearContext(items)[i], items[i])
    ensures UniqueKeys(items) ==> UniqueKeys(ClearContext(items))
  {
    var c := ClearContext(items);
    forall i | 0 <= i < |items|
      ensures SameKey(c[i], items[i])
    {
      assert c[i].(checked := items[i].checked) == items[i];
    }
  }
}
