/** `AppLogic.generate_unique_name`: the first name `prefix + str(n)`, counting
    up from one more than the number of items whose name starts with `prefix`,
    that no item bears. */
module UniqueNames {
  import opened Text
  import opened Items

  predicate NameTaken(items: seq<Item>, name: string) {
    exists j | 0 <= j < |items| :: items[j].name == name
  }

  function Candidate(prefix: string, n: nat): string {
    prefix + NatToString(n)
  }

  /** Number of items whose name starts with `prefix`. */
  function CountPrefixed(items: seq<Item>, prefix: string): (c: nat)
    ensures c <= |items|
    ensures c == 0 <==> forall j :: 0 <= j < |items| ==> !(prefix <= items[j].name)
  {
    if items == [] then 0
    else
      assert forall j :: 1 <= j < |items| ==> items[j] == items[1..][j - 1];
      (if prefix <= items[0].name then 1 else 0) + CountPrefixed(items[1..], prefix)
  }

  ghost predicate NumberedFrom(name: string, prefix: string, n: nat) {
    exists k: nat :: k >= n && name == Candidate(prefix, k)
  }

  /** Number of items bearing a candidate name numbered `n` or above: every
      step of the search that finds its candidate taken moves past one of them. */
  ghost function Pending(items: seq<Item>, prefix: string, n: nat): (c: nat)
    ensures c <= |items|
  {
    if items == [] then 0
    else (if NumberedFrom(items[0].name, prefix, n) then 1 else 0) + Pending(items[1..], prefix, n)
  }

  lemma CandidateInjective(prefix: string, k: nat, n: nat)
    requires Candidate(prefix, k) == Candidate(prefix, n)
    ensures k == n
  {
    assert Candidate(prefix, k)[|prefix|..] == NatToString(k);
    assert Candidate(prefix, n)[|prefix|..] == NatToString(n);
    NatToStringInjective(k, n);
  }

  /** A taken candidate removes its bearer from the pending count; nothing is added. */
  lemma {:induction false} PendingShrinks(items: seq<Item>, prefix: string, n: nat)
    ensures Pending(items, prefix, n + 1) <= Pending(items, prefix, n)
    ensures NameTaken(items, Candidate(prefix, n)) ==> Pending(items, prefix, n + 1) < Pending(items, prefix, n)
  {
    if items != [] {
      var name := items[0].name;
      PendingShrinks(items[1..], prefix, n);
      if NumberedFrom(name, prefix, n + 1) {
        var k: nat :| k >= n + 1 && name == Candidate(prefix, k);
        assert NumberedFrom(name, prefix, n);
        if name == Candidate(prefix, n) {
          CandidateInjective(prefix, k, n);
        }
      }
      if name == Candidate(prefix, n) {
        assert NumberedFrom(name, prefix, n);
      }
      if NameTaken(items, Candidate(prefix, n)) && name != Candidate(prefix, n) {
        var j :| 0 <= j < |items| && items[j].name == Candidate(prefix, n);
        assert items[1..][j - 1].name == Candidate(prefix, n);
      }
    }
  }

  /** The loop of `generate_unique_name`, from counter value `n`: the first
      candidate not taken, every candidate before it being taken. */
  function FirstFreeFrom(items: seq<Item>, prefix: string, n: nat): (r: nat)
    ensures n <= r <= n + Pending(items, prefix, n)
    ensures !NameTaken(items, Candidate(prefix, r))
    ensures forall k :: n <= k < r ==> NameTaken(items, Candidate(prefix, k))
    decreases Pending(items, prefix, n)
  {
    if NameTaken(items, Candidate(prefix, n)) then
      PendingShrinks(items, prefix, n);
      FirstFreeFrom(items, prefix, n + 1)
    else
      n
  }

  /** The number `generate_unique_name` appends to `prefix`. */
  function UniqueSuffix(items: seq<Item>, prefix: string): (n: nat)
    ensures CountPrefixed(items, prefix) + 1 <= n <= CountPrefixed(items, prefix) + 1 + |items|
    ensures !NameTaken(items, Candidate(prefix, n))
    ensures forall k :: CountPrefixed(items, prefix) + 1 <= k < n ==> NameTaken(items, Candidate(prefix, k))
  {
    FirstFreeFrom(items, prefix, CountPrefixed(items, prefix) + 1)
  }

  /** `generate_unique_name(prefix)`: a name beginning with `prefix` that no item bears. */
  function GenerateUniqueName(items: seq<Item>, prefix: string): (name: string)
    ensures prefix <= name
    ensures !NameTaken(items, name)
    ensures forall j :: 0 <= j < |items| ==> items[j].name != name
    ensures name == Candidate(prefix, UniqueSuffix(items, prefix))
  {
    Candidate(prefix, UniqueSuffix(items, prefix))
  }

  function Cold(name: string): Item {
    Item(name, false, NoPathKey, Some(""), false, false)
  }

  /** With `x-1` and `x-2` present, the count gives `x-3` at once. */
  lemma NextAfterTwo()
    ensures GenerateUniqueName([Cold("x-1"), Cold("x-2")], "x-") == "x-3"
  {
    var a := [Cold("x-1"), Cold("x-2")];
    assert CountPrefixed(a, "x-") == 2;
    assert NatToString(3) == "3";
    assert !NameTaken(a, "x-3");
  }

  /** After `x-1` of `x-1, x-2` is removed the count gives `x-2`, which is
      still taken, so the next name is `x-3`: numbers are not reused. */
  lemma NextAfterRemoval()
    ensures GenerateUniqueName([Cold("x-2")], "x-") == "x-3"
  {
    var b := [Cold("x-2")];
    assert CountPrefixed(b, "x-") == 1;
    assert NatToString(2) == "2";
    assert NameTaken(b, "x-2") by {
      assert b[0].name == "x-2";
    }
    assert NatToString(3) == "3";
    assert !NameTaken(b, "x-3");
    assert FirstFreeFrom(b, "x-", 3) == 3;
  }

  /** With `x-1` and `x-3` present the count gives `x-3`, which is taken, so
      the search moves on to `x-4`. */
  lemma NextSkipsTaken()
    ensures GenerateUniqueName([Cold("x-1"), Cold("x-3")], "x-") == "x-4"
  {
    var c := [Cold("x-1"), Cold("x-3")];
    assert CountPrefixed(c, "x-") == 2;
    assert NatToString(3) == "3";
    assert NameTaken(c, "x-3") by {
      assert c[1].name == "x-3";
    }
    assert NatToString(4) == "4";
    assert !NameTaken(c, "x-4");
    assert FirstFreeFrom(c, "x-", 4) == 4;
  }
}
