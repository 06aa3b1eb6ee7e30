/** Concrete tries showing the behaviour of langconv/trie.py as written: delete prunes
    without looking at values and can replace the root or fail at it, longest_prefix
    skips the root unless the first unit matches, and a path without a value is still
    "in" the trie. */
module Scenarios {
  import opened Arena
  import opened Deletion
  import opened Trie

  /** The arena that insert would build for {'a': 'X', 'ab': 'Y'}. */
  function AandAb(): seq<Node>
  {
    [Node("", "", "", None, map['a' := 1]),
     Node("a", "X", "a", Some(0), map['b' := 2]),
     Node("b", "Y", "ab", Some(1), map[])]
  }

  /** The arena that insert would build for {'a': 'X'}. */
  function OnlyA(): seq<Node>
  {
    [Node("", "", "", None, map['a' := 1]),
     Node("a", "X", "a", Some(0), map[])]
  }

  /** The arena that insert would build for {'ab': 'Y', 'ac': 'Z'}. */
  function AbAc(): seq<Node>
  {
    [Node("", "", "", None, map['a' := 1]),
     Node("a", "", "a", Some(0), map['b' := 2, 'c' := 3]),
     Node("b", "Y", "ab", Some(1), map[]),
     Node("c", "Z", "ac", Some(1), map[])]
  }

  lemma AandAbWellFormed()
    ensures WellFormed(AandAb(), 0)
    ensures Walk(AandAb(), 0, "a") == Some(1) && Walk(AandAb(), 0, "ab") == Some(2)
  {
    var t := AandAb();
    assert NodeOk(t, 0) && NodeOk(t, 1) && NodeOk(t, 2);
    assert "ab"[..1] == "a" && "a"[..0] == "";
  }

  /** Deleting 'ab' from {'a': 'X', 'ab': 'Y'} climbs through 'a' although it holds a
      value and meets the root on line 52: the root is replaced and 'a' is lost too. */
  lemma DeleteLongerKeyDropsShorter()
    ensures WellFormed(AandAb(), 0)
    ensures PlanDelete(AandAb(), 0, "ab") == ResetRoot
    ensures var c := Climbed(AandAb(), 0, "ab");
            c.2 == Deleted && WellFormed(c.0, c.1) && Walk(c.0, c.1, "a").None? && ValueAt(c.0, c.1, "a") == ""
  {
    AandAbWellFormed();
    var t := AandAb();
    var path := PathOf(t, 0, "ab");
    assert "ab"[..0] == "" && "ab"[..1] == "a" && "ab"[..2] == "ab";
    assert path == [0, 1, 2];
    assert LastBranch(t, path, 2).None?;
    ClimbedMeaning(t, 0, "ab", "a");
    ClimbedShape(t, 0, "ab");
  }

  /** Deleting the only key 'a' meets the root at the second parent test of a round, on
      line 60, which reads `children` of None: the outcome is ParentIsNone. */
  lemma DeleteOnlyKeyFails()
    ensures WellFormed(OnlyA(), 0)
    ensures PlanDelete(OnlyA(), 0, "a") == CrashAtRoot
    ensures Climbed(OnlyA(), 0, "a").2 == ParentIsNone
  {
    var t := OnlyA();
    assert NodeOk(t, 0) && NodeOk(t, 1);
    assert "a"[..0] == "";
    var path := PathOf(t, 0, "a");
    assert path == [0, 1];
    ClimbedShape(t, 0, "a");
  }

  /** Deleting 'ab' from {'ab': 'Y', 'ac': 'Z'} stops at the branching node 'a': 'ac'
      keeps its value, 'ab' loses its path. */
  lemma AbAcWellFormed()
    ensures WellFormed(AbAc(), 0)
    ensures Walk(AbAc(), 0, "ab") == Some(2) && Walk(AbAc(), 0, "ac") == Some(3)
    ensures PathOf(AbAc(), 0, "ab") == [0, 1, 2]
  {
    var t := AbAc();
    assert NodeOk(t, 0) && NodeOk(t, 1) && NodeOk(t, 2) && NodeOk(t, 3);
    assert "ab"[..0] == "" && "ab"[..1] == "a" && "ab"[..2] == "ab";
    assert "ac"[..0] == "" && "ac"[..1] == "a";
  }

  lemma DeleteBelowBranchKeepsSibling()
    ensures WellFormed(AbAc(), 0)
    ensures PlanDelete(AbAc(), 0, "ab") == DetachBelow(1)
    ensures var c := Climbed(AbAc(), 0, "ab");
            WellFormed(c.0, c.1) && Walk(c.0, c.1, "ab").None? && ValueAt(c.0, c.1, "ac") == "Z"
  {
    AbAcWellFormed();
    var t := AbAc();
    assert |t[1].children| == 2;
    assert LastBranch(t, [0, 1, 2], 2) == Some(1);
    ClimbedMeaning(t, 0, "ab", "ab");
    ClimbedMeaning(t, 0, "ab", "ac");
  }

  /** longest_prefix("abc") on {'a': 'X', 'ab': 'Y'} finds 'ab'; longest_prefix("") finds
      nothing. */
  lemma LongestPrefixFindsDeepestEntry()
    ensures WellFormed(AandAb(), 0)
    ensures LongestMatch(AandAb(), 0, "abc") == Some(2)
    ensures LongestMatch(AandAb(), 0, "") == None
  {
    AandAbWellFormed();
    var t := AandAb();
    assert "abc"[..2] == "ab" && "abc"[..3] == "abc";
    MatchDepthAt(t, 0, "abc", 2);
  }

  /** The trie {'': 'R', 'a': ''}: a value at the root, a valueless node below it. */
  function ValuedRoot(): seq<Node>
  {
    [Node("", "R", "", None, map['a' := 1]),
     Node("a", "", "a", Some(0), map[])]
  }

  /** longest_prefix counts the root's value only after the first unit has matched: it
      finds nothing for "" and for "x", but the root for "a". */
  lemma LongestPrefixSkipsRootUnlessMatched()
    ensures WellFormed(ValuedRoot(), 0) && ValueAt(ValuedRoot(), 0, "") == "R"
    ensures LongestMatch(ValuedRoot(), 0, "") == None
    ensures LongestMatch(ValuedRoot(), 0, "x") == None
    ensures LongestMatch(ValuedRoot(), 0, "a") == Some(0)
  {
    var t := ValuedRoot();
    assert NodeOk(t, 0) && NodeOk(t, 1);
    assert "a"[..0] == "" && "a"[..1] == "a" && "x"[..0] == "" && "x"[..1] == "x";
    MatchDepthAt(t, 0, "a", 1);
    MatchDepthAt(t, 0, "x", 0);
  }

  /** A prefix of an inserted key is `in` the trie and `trie[prefix]` is "", not a
      KeyError, while a key off every path is a KeyError. */
  method PrefixIsPresentWithoutValue() returns (isIn: bool, prefix: Item, whole: Item, missing: Item)
    ensures isIn && prefix == Found("")
    ensures whole == Found("\U{982D}\U{9AEE}") && missing == KeyError("\U{53D1}")
  {
    var t := new DoubleArrayTrie();
    t.Insert("\U{5934}\U{53D1}", "\U{982D}\U{9AEE}");
    isIn := t.Contains("\U{5934}");
    assert "\U{5934}" <= "\U{5934}\U{53D1}";
    prefix := t.GetItem("\U{5934}");
    whole := t.GetItem("\U{5934}\U{53D1}");
    missing := t.GetItem("\U{53D1}");
    assert !("\U{53D1}" <= "\U{5934}\U{53D1}");
  }

  /** longest_prefix("ab") on {'a': 'X'} climbs back from nowhere deeper to 'a'. */
  lemma LongestPrefixFallsBackToShorterEntry()
    ensures WellFormed(OnlyA(), 0)
    ensures LongestMatch(OnlyA(), 0, "ab") == Some(1)
  {
    var t := OnlyA();
    assert NodeOk(t, 0) && NodeOk(t, 1);
    assert "ab"[..0] == "" && "ab"[..1] == "a" && "ab"[..2] == "ab" && "a"[..0] == "";
    MatchDepthAt(t, 0, "ab", 1);
  }

  /** Inserting a key a second time overwrites its value and creates no node; the value
      read back is the latest one. */
  method OverwriteKeepsSize(key: string, first: string, second: string)
    returns (before: nat, after: nat, item: Item)
    ensures after == before && item == Found(second)
  {
    var t := new DoubleArrayTrie();
    t.Insert(key, first);
    before := |t.nodes|;
    assert key[..|key|] == key;
    MatchDepthAt(t.nodes, t.root, key, |key|);
    t.Insert(key, second);
    after := |t.nodes|;
    item := t.GetItem(key);
  }

  /** On an empty trie longest_prefix finds nothing and search finds only the root. */
  method EmptyTrieMatchesNothing(key: string) returns (longest: Option<nat>, found: Option<nat>)
    ensures longest.None? && (key != [] ==> found.None?)
  {
    var t := new DoubleArrayTrie();
    longest := t.LongestPrefix(key);
    found := t.Search(key);
  }

  /** A trie whose paths are exactly "" and "a" has a leaf at 'a' below a root with one
      child, so deleting the odd-length key 'a' fails at the root. */
  lemma OnlyKeyPlan(nodes: seq<Node>, root: nat)
    requires WellFormed(nodes, root)
    requires forall k :: Walk(nodes, root, k).Some? <==> k <= "a"
    ensures PlanDelete(nodes, root, "a") == CrashAtRoot
  {
    assert "a" <= "a";
    var p := Walk(nodes, root, "a").value;
    forall c ensures c !in nodes[p].children {
      ChildrenArePaths(nodes, root, "a", c);
      assert !("a" + [c] <= "a");
    }
    assert nodes[p].children.Keys == {};
    forall c ensures c in nodes[root].children <==> c == 'a' {
      assert Walk(nodes, root, []) == Some(root);
      ChildrenArePaths(nodes, root, [], c);
      assert [] + [c] == [c];
    }
    assert nodes[root].children.Keys == {'a'};
    var path := PathOf(nodes, root, "a");
    PathEnds(nodes, root, "a");
    assert LastBranch(nodes, path, 0).None?;
  }

  /** The class contracts alone decide what delete does with a trie built by insert:
      after inserting only 'a' into a fresh trie, deleting it fails at the root with
      ParentIsNone, and 'a' is no longer `in` the trie. */
  method InsertThenDeleteOnlyKey() returns (outcome: DeleteOutcome, isIn: bool)
    ensures outcome == ParentIsNone && !isIn
  {
    var t := new DoubleArrayTrie();
    t.Insert("a", "X");
    forall k ensures Walk(t.nodes, t.root, k).Some? <==> k <= "a" {
      assert t.Lookup(k).Some? <==> k <= "a";
    }
    OnlyKeyPlan(t.nodes, t.root);
    outcome := t.Delete("a");
    isIn := t.Contains("a");
  }
}
