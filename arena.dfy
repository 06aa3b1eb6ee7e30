/** The node store of the trie in langconv/trie.py.

    Python's Node objects refer to each other (children dict, parent back-pointer).  Here
    every node lives in an arena, a `seq<Node>`, and a reference to a node is its index.
    The functions of this module read an arena; the class in module Trie updates it. */
module Arena {

  datatype Option<T> = None | Some(value: T)

  /** One trie vertex: the unit it adds (`key`, "" for a root), the value stored at it
      ("" means no entry), the cached key from the root, the parent index, and the
      children indexed by unit. */
  datatype Node = Node(key: string, value: string, fullKey: string, parent: Option<nat>, children: map<char, nat>)
  {
    /** Node.add_child: store `child` under unit `c`; `get_child(c)` then gives `child`,
        every other unit gives what it gave before, and no other field changes. */
    function AddChild(child: nat, c: char): (r: Node)
      ensures r.GetChild(c) == Some(child)
      ensures forall d :: d != c ==> r.GetChild(d) == GetChild(d)
      ensures r.key == key && r.value == value && r.fullKey == fullKey && r.parent == parent
    {
      this.(children := children[c := child])
    }

    /** Node.get_child, which is `dict.get`: the child stored under `c`, None when there
        is none. */
    function GetChild(c: char): (r: Option<nat>)
      ensures r.Some? <==> c in children
      ensures r.Some? ==> r.value == children[c]
    {
      if c in children then Some(children[c]) else None
    }

    /** `children.pop(k, None)`: drop the entry for the one-unit string `k`; the children
        dict only holds one-unit keys, so any other string is absent and nothing changes.
        No other field changes. */
    function PopChild(k: string): (r: Node)
      ensures |k| == 1 ==> r.GetChild(k[0]) == None
      ensures forall d :: (|k| != 1 || d != k[0]) ==> r.GetChild(d) == GetChild(d)
      ensures r.key == key && r.value == value && r.fullKey == fullKey && r.parent == parent
    {
      if |k| == 1 then this.(children := children - {k[0]}) else this
    }
  }

  /** `Node('', '', '')`: a root with no value, no parent and no children, which on its
      own is a well-formed trie. */
  function RootNode(): (r: Node)
    ensures r.value == "" && r.children == map[] && WellFormed([r], 0)
  {
    Node("", "", "", None, map[])
  }

  /** What the tree structure of an arena guarantees about node `i`: a parentless node is a
      root (Node('', '', '')); a node with parent `p` was created after `p`, adds one unit,
      and caches `p`'s key plus that unit; each child entry under `c` is a later node whose
      parent is `i` and whose unit is `c`. */
  predicate NodeOk(nodes: seq<Node>, i: nat)
    requires i < |nodes|
  {
    (nodes[i].parent.None? ==> nodes[i].key == "" && nodes[i].fullKey == "") &&
    (nodes[i].parent.Some? ==>
       var p := nodes[i].parent.value;
       p < i && |nodes[i].key| == 1 && nodes[i].fullKey == nodes[p].fullKey + nodes[i].key) &&
    (forall c :: c in nodes[i].children ==>
       var j := nodes[i].children[c];
       j < |nodes| && nodes[j].parent == Some(i) && nodes[j].key == [c])
  }

  /** The arena invariant: `root` is a parentless node and every node is NodeOk.  Because a
      parent index is always smaller than its child's, the parent links are acyclic. */
  ghost predicate WellFormed(nodes: seq<Node>, root: nat)
  {
    root < |nodes| && nodes[root].parent.None? &&
    forall i :: 0 <= i < |nodes| ==> NodeOk(nodes, i)
  }

  /** The node reached from `root` by following the units of `k`, or None when some unit
      has no matching child.  This is the abstract meaning of DoubleArrayTrie.search. */
  function Walk(nodes: seq<Node>, root: nat, k: string): (r: Option<nat>)
    requires WellFormed(nodes, root)
    ensures r.Some? ==> r.value < |nodes|
    decreases |k|
  {
    if k == [] then Some(root)
    else
      match Walk(nodes, root, k[..|k| - 1])
      case None => None
      case Some(p) =>
        assert NodeOk(nodes, p);
        nodes[p].GetChild(k[|k| - 1])
  }

  /** The value stored under `k`; "" when the path is missing or the node holds no entry. */
  function ValueAt(nodes: seq<Node>, root: nat, k: string): string
    requires WellFormed(nodes, root)
  {
    match Walk(nodes, root, k)
    case None => ""
    case Some(i) => nodes[i].value
  }

  lemma WalkSnoc(nodes: seq<Node>, root: nat, k: string, c: char)
    requires WellFormed(nodes, root)
    ensures Walk(nodes, root, k + [c]) ==
              match Walk(nodes, root, k)
              case None => None
              case Some(p) => nodes[p].GetChild(c)
  {
    assert (k + [c])[..|k|] == k;
  }

  /** The node found for `k` caches `k` as its full key and, unless it is the root, has
      the last unit of `k` as its own key. */
  lemma {:induction false} WalkFullKey(nodes: seq<Node>, root: nat, k: string)
    requires WellFormed(nodes, root)
    requires Walk(nodes, root, k).Some?
    ensures nodes[Walk(nodes, root, k).value].fullKey == k
    ensures k != [] ==> nodes[Walk(nodes, root, k).value].key == [k[|k| - 1]]
    ensures k == [] ==> nodes[Walk(nodes, root, k).value].key == ""
    decreases |k|
  {
    if k == [] {
      assert NodeOk(nodes, root);
    } else {
      var k0 := k[..|k| - 1];
      var c := k[|k| - 1];
      assert k == k0 + [c];
      WalkFullKey(nodes, root, k0);
      var p := Walk(nodes, root, k0).value;
      var i := Walk(nodes, root, k).value;
      assert NodeOk(nodes, p);
      assert NodeOk(nodes, i);
    }
  }

  /** Distinct keys never share a node. */
  lemma WalkInjective(nodes: seq<Node>, root: nat, a: string, b: string)
    requires WellFormed(nodes, root)
    requires Walk(nodes, root, a).Some? && Walk(nodes, root, a) == Walk(nodes, root, b)
    ensures a == b
  {
    WalkFullKey(nodes, root, a);
    WalkFullKey(nodes, root, b);
  }

  /** The parent link of a node on a path leads to the node one unit up the path. */
  lemma WalkParent(nodes: seq<Node>, root: nat, k: string)
    requires WellFormed(nodes, root)
    requires k != [] && Walk(nodes, root, k).Some?
    ensures Walk(nodes, root, k[..|k| - 1]).Some?
    ensures nodes[Walk(nodes, root, k).value].parent == Walk(nodes, root, k[..|k| - 1])
    ensures nodes[Walk(nodes, root, k).value].key == [k[|k| - 1]]
  {
    var p := Walk(nodes, root, k[..|k| - 1]).value;
    assert NodeOk(nodes, p);
  }

  /** The set of keys with a path is prefix-closed. */
  lemma {:induction false} WalkPrefix(nodes: seq<Node>, root: nat, k: string, j: nat)
    requires WellFormed(nodes, root)
    requires Walk(nodes, root, k).Some? && j <= |k|
    ensures Walk(nodes, root, k[..j]).Some?
    decreases |k|
  {
    if j < |k| {
      var k0 := k[..|k| - 1];
      assert k0[..j] == k[..j];
      WalkPrefix(nodes, root, k0, j);
    } else {
      assert k[..j] == k;
    }
  }

  /** search returns None exactly when, at some position, the node reached so far has
      no child for the next unit. */
  lemma {:induction false} WalkNoneIff(nodes: seq<Node>, root: nat, k: string)
    requires WellFormed(nodes, root)
    ensures Walk(nodes, root, k).None? <==>
              exists j :: 0 <= j < |k| && Walk(nodes, root, k[..j]).Some? &&
                          k[j] !in nodes[Walk(nodes, root, k[..j]).value].children
    decreases |k|
  {
    if k != [] {
      var k0 := k[..|k| - 1];
      var c := k[|k| - 1];
      WalkNoneIff(nodes, root, k0);
      assert forall j :: 0 <= j <= |k0| ==> k0[..j] == k[..j];
      if Walk(nodes, root, k).None? {
        if Walk(nodes, root, k0).Some? {
          assert k[..|k0|] == k0;
          assert c !in nodes[Walk(nodes, root, k0).value].children;
        } else {
          var j :| 0 <= j < |k0| && Walk(nodes, root, k0[..j]).Some? &&
                   k0[j] !in nodes[Walk(nodes, root, k0[..j]).value].children;
          assert k[j] == k0[j];
        }
      }
    }
  }

  /** A child entry of the node at `k` is exactly a unit that extends the path. */
  lemma ChildrenArePaths(nodes: seq<Node>, root: nat, k: string, c: char)
    requires WellFormed(nodes, root)
    requires Walk(nodes, root, k).Some?
    ensures c in nodes[Walk(nodes, root, k).value].children <==> Walk(nodes, root, k + [c]).Some?
  {
    WalkSnoc(nodes, root, k, c);
  }

  /** Walk only reads the children maps, so changing values leaves every path as it was. */
  lemma {:induction false} SameChildrenSameWalk(a: seq<Node>, b: seq<Node>, root: nat, k: string)
    requires WellFormed(a, root) && WellFormed(b, root) && |a| == |b|
    requires forall i :: 0 <= i < |a| ==> a[i].children == b[i].children
    ensures Walk(a, root, k) == Walk(b, root, k)
    decreases |k|
  {
    if k != [] {
      SameChildrenSameWalk(a, b, root, k[..|k| - 1]);
    }
  }

  /** Putting a new value into node `i` keeps the arena well formed and every path. */
  lemma SetValue(nodes: seq<Node>, root: nat, i: nat, v: string, k: string)
    requires WellFormed(nodes, root) && i < |nodes|
    ensures WellFormed(nodes[i := nodes[i].(value := v)], root)
    ensures Walk(nodes[i := nodes[i].(value := v)], root, k) == Walk(nodes, root, k)
  {
    var b := nodes[i := nodes[i].(value := v)];
    forall j | 0 <= j < |b| ensures NodeOk(b, j) {
      assert NodeOk(nodes, j);
    }
    SameChildrenSameWalk(b, nodes, root, k);
  }

  /** The arena after insert attaches a fresh child under unit `c` of the node `p` at `k0`
      (trie.py lines 32-33). */
  function Attach(nodes: seq<Node>, p: nat, c: char): (r: seq<Node>)
    requires p < |nodes|
    ensures |r| == |nodes| + 1 && r[p].GetChild(c) == Some(|nodes|)
    ensures r[|nodes|].key == [c] && r[|nodes|].value == "" && r[|nodes|].children == map[]
    ensures r[|nodes|].fullKey == nodes[p].fullKey + [c] && r[|nodes|].parent == Some(p)
  {
    nodes[p := nodes[p].AddChild(|nodes|, c)] + [Node([c], "", nodes[p].fullKey + [c], Some(p), map[])]
  }

  lemma AttachWellFormed(nodes: seq<Node>, root: nat, p: nat, c: char)
    requires WellFormed(nodes, root) && p < |nodes| && c !in nodes[p].children
    ensures WellFormed(Attach(nodes, p, c), root)
  {
    var b := Attach(nodes, p, c);
    forall j | 0 <= j < |b| ensures NodeOk(b, j) {
      if j < |nodes| {
        assert NodeOk(nodes, j);
      }
    }
  }

  /** Attaching a fresh child under the last unit `c` of `k1` at the node `p` for the rest
      of `k1` adds exactly one path, `k1`, leading to the new node, and moves no other. */
  lemma {:induction false} AttachWalk(nodes: seq<Node>, root: nat, k1: string, p: nat, c: char, k: string)
    requires WellFormed(nodes, root)
    requires k1 != [] && c == k1[|k1| - 1] && Walk(nodes, root, k1[..|k1| - 1]) == Some(p)
    requires c !in nodes[p].children
    ensures WellFormed(Attach(nodes, p, c), root)
    ensures Walk(Attach(nodes, p, c), root, k) == if k == k1 then Some(|nodes|) else Walk(nodes, root, k)
    decreases |k|
  {
    var k0 := k1[..|k1| - 1];
    assert k1 == k0 + [c];
    var b := Attach(nodes, p, c);
    AttachWellFormed(nodes, root, p, c);
    if k != [] {
      var kp := k[..|k| - 1];
      var x := k[|k| - 1];
      assert k == kp + [x];
      AttachWalk(nodes, root, k1, p, c, kp);
      if kp == k1 {
        // the new node has no children
        assert Walk(nodes, root, k) == None by {
          WalkSnoc(nodes, root, k0, c);
          assert Walk(nodes, root, kp) == None;
        }
      } else if Walk(nodes, root, kp).Some? {
        var q := Walk(nodes, root, kp).value;
        if q == p {
          WalkInjective(nodes, root, kp, k0);
        }
      }
    }
  }

  /** The arena after `children.pop` removes unit `c` from node `p` (trie.py lines 56, 60). */
  function Detach(nodes: seq<Node>, p: nat, c: char): (r: seq<Node>)
    requires p < |nodes|
    ensures |r| == |nodes| && r[p].GetChild(c) == None
    ensures forall d :: d != c ==> r[p].GetChild(d) == nodes[p].GetChild(d)
    ensures forall i :: 0 <= i < |nodes| ==>
              r[i].key == nodes[i].key && r[i].value == nodes[i].value &&
              r[i].fullKey == nodes[i].fullKey && r[i].parent == nodes[i].parent &&
              (i != p ==> r[i] == nodes[i])
  {
    nodes[p := nodes[p].PopChild([c])]
  }

  lemma DetachWellFormed(nodes: seq<Node>, root: nat, p: nat, c: char)
    requires WellFormed(nodes, root) && p < |nodes|
    ensures WellFormed(Detach(nodes, p, c), root)
  {
    var b := Detach(nodes, p, c);
    forall j | 0 <= j < |b| ensures NodeOk(b, j) {
      assert NodeOk(nodes, j);
    }
  }

  /** Popping the last unit `c` of `k1` from the node `p` for the rest of `k1` cuts off
      exactly the paths that extend `k1`; every other path is untouched. */
  lemma {:induction false} DetachWalk(nodes: seq<Node>, root: nat, k1: string, p: nat, c: char, k: string)
    requires WellFormed(nodes, root)
    requires k1 != [] && c == k1[|k1| - 1] && Walk(nodes, root, k1[..|k1| - 1]) == Some(p)
    ensures WellFormed(Detach(nodes, p, c), root)
    ensures Walk(Detach(nodes, p, c), root, k) == if k1 <= k then None else Walk(nodes, root, k)
    decreases |k|
  {
    var k0 := k1[..|k1| - 1];
    assert k1 == k0 + [c];
    var b := Detach(nodes, p, c);
    DetachWellFormed(nodes, root, p, c);
    if k != [] {
      var kp := k[..|k| - 1];
      var x := k[|k| - 1];
      assert k == kp + [x];
      DetachWalk(nodes, root, k1, p, c, kp);
      if k1 <= kp {
        assert k1 <= k;
      } else if k1 <= k {
        assert kp == k0;
      } else if Walk(nodes, root, kp).Some? {
        var q := Walk(nodes, root, kp).value;
        if q == p {
          WalkInjective(nodes, root, kp, k0);
        }
      }
    }
  }

  /** A root without children has only the empty path. */
  lemma {:induction false} BareRootWalk(nodes: seq<Node>, root: nat, k: string)
    requires WellFormed(nodes, root) && nodes[root].children == map[]
    ensures Walk(nodes, root, k) == if k == [] then Some(root) else None
    decreases |k|
  {
    if k != [] {
      BareRootWalk(nodes, root, k[..|k| - 1]);
    }
  }

  /** Replacing the root by `Node('', '', '')` appended to the arena (trie.py line 54)
      leaves a trie whose only path is the empty key, leading to the new root. */
  lemma FreshRoot(nodes: seq<Node>, root: nat, k: string)
    requires WellFormed(nodes, root)
    ensures WellFormed(nodes + [RootNode()], |nodes|)
    ensures Walk(nodes + [RootNode()], |nodes|, k) == if k == [] then Some(|nodes|) else None
  {
    var b := nodes + [RootNode()];
    forall j | 0 <= j < |b| ensures NodeOk(b, j) {
      if j < |nodes| {
        assert NodeOk(nodes, j);
      }
    }
    BareRootWalk(b, |nodes|, k);
  }

  /** How many units of `k` can be followed from the root: the longest prefix of `k` that
      has a path.  Insert creates one node per unit beyond it. */
  function MatchDepth(nodes: seq<Node>, root: nat, k: string): (d: nat)
    requires WellFormed(nodes, root)
    ensures d <= |k| && Walk(nodes, root, k[..d]).Some?
    ensures forall j :: d < j <= |k| ==> Walk(nodes, root, k[..j]).None?
    decreases |k|
  {
    if Walk(nodes, root, k).Some? then
      assert k[..|k|] == k;
      |k|
    else
      var k0 := k[..|k| - 1];
      assert forall j :: 0 <= j <= |k0| ==> k0[..j] == k[..j];
      assert k[..|k|] == k;
      MatchDepth(nodes, root, k0)
  }

  /** A forward walk that reaches depth `i` and cannot go on has found the match depth. */
  lemma MatchDepthAt(nodes: seq<Node>, root: nat, k: string, i: nat)
    requires WellFormed(nodes, root) && i <= |k| && Walk(nodes, root, k[..i]).Some?
    requires i == |k| || Walk(nodes, root, k[..i + 1]).None?
    ensures MatchDepth(nodes, root, k) == i
  {
    var d := MatchDepth(nodes, root, k);
    if d > i {
      assert k[..d][..i + 1] == k[..i + 1];
      WalkPrefix(nodes, root, k[..d], i + 1);
      assert false;
    }
  }

  /** The walk-up of longest_prefix (trie.py lines 72-73) started at the node for `k[..j]`:
      the deepest depth at most `j` whose node holds a value, or None when none does. */
  function NearestValued(nodes: seq<Node>, root: nat, k: string, j: nat): (r: Option<nat>)
    requires WellFormed(nodes, root)
    requires j <= |k| && Walk(nodes, root, k[..j]).Some?
    ensures r.Some? ==> r.value <= j && ValueAt(nodes, root, k[..r.value]) != ""
    ensures r.Some? ==> forall d :: r.value < d <= j ==> ValueAt(nodes, root, k[..d]) == ""
    ensures r.None? ==> forall d :: 0 <= d <= j ==> ValueAt(nodes, root, k[..d]) == ""
    decreases j
  {
    if nodes[Walk(nodes, root, k[..j]).value].value != "" then Some(j)
    else if j == 0 then None
    else
      WalkPrefix(nodes, root, k[..j], j - 1);
      assert k[..j][..j - 1] == k[..j - 1];
      NearestValued(nodes, root, k, j - 1)
  }

  /** The depth of the key longest_prefix finds: no match when not even the first unit can
      be followed, otherwise the nearest valued node at or above the deepest node reached. */
  function LongestMatch(nodes: seq<Node>, root: nat, k: string): (r: Option<nat>)
    requires WellFormed(nodes, root)
    ensures r.Some? ==> r.value <= |k| && ValueAt(nodes, root, k[..r.value]) != ""
    ensures r.Some? ==> forall d :: r.value < d <= |k| ==> ValueAt(nodes, root, k[..d]) == ""
    ensures r.None? <==> (MatchDepth(nodes, root, k) == 0 ||
                          forall d :: 0 <= d <= |k| ==> ValueAt(nodes, root, k[..d]) == "")
  {
    var m := MatchDepth(nodes, root, k);
    if m == 0 then None else NearestValued(nodes, root, k, m)
  }

  /** At least one unit of `k` can be followed exactly when `k` is non-empty and the root
      has a child for its first unit. */
  lemma MatchDepthZeroIff(nodes: seq<Node>, root: nat, k: string)
    requires WellFormed(nodes, root)
    ensures MatchDepth(nodes, root, k) == 0 <==> (k == [] || k[0] !in nodes[root].children)
  {
    var d := MatchDepth(nodes, root, k);
    if k != [] {
      WalkSnoc(nodes, root, [], k[0]);
      assert [] + [k[0]] == k[..1];
      assert k[..0] == [];
      if d > 0 {
        WalkPrefix(nodes, root, k[..d], 1);
        assert k[..d][..1] == k[..1];
      }
    }
  }

  /** The prefix test on trie.py line 68 cannot fail: the `full_key` of the node for
      `k[..j+1]` is exactly `k[..j+1]`, Python's slice `k[0:len(full_key)]`. */
  lemma PrefixCheckHolds(nodes: seq<Node>, root: nat, k: string, j: nat)
    requires WellFormed(nodes, root)
    requires j < |k| && Walk(nodes, root, k[..j + 1]).Some?
    ensures var fk := nodes[Walk(nodes, root, k[..j + 1]).value].fullKey;
            |fk| <= |k| && k[..|fk|] == fk
  {
    WalkFullKey(nodes, root, k[..j + 1]);
  }

  /** The path of `k`: entry `j` is the node for `k[..j]`. */
  function PathOf(nodes: seq<Node>, root: nat, k: string): (path: seq<nat>)
    requires WellFormed(nodes, root) && Walk(nodes, root, k).Some?
    ensures |path| == |k| + 1
    ensures forall j {:trigger path[j]} :: 0 <= j <= |k| ==> Walk(nodes, root, k[..j]) == Some(path[j])
    decreases |k|
  {
    if k == [] then [root]
    else
      var k0 := k[..|k| - 1];
      WalkPrefix(nodes, root, k, |k| - 1);
      assert forall j :: 0 <= j <= |k0| ==> k0[..j] == k[..j];
      assert k[..|k|] == k;
      PathOf(nodes, root, k0) + [Walk(nodes, root, k).value]
  }

  /** Where delete's pruning stops when it starts below depth `j` of `path`: the deepest
      depth under `j` whose node has more than one child, or None when every node above is
      a single-child link. */
  function LastBranch(nodes: seq<Node>, path: seq<nat>, j: nat): (r: Option<nat>)
    requires j < |path| && forall i :: 0 <= i < |path| ==> path[i] < |nodes|
    ensures r.Some? ==> r.value < j && |nodes[path[r.value]].children| > 1
    ensures r.Some? ==> forall i :: r.value < i < j ==> |nodes[path[i]].children| <= 1
    ensures r.None? ==> forall i :: 0 <= i < j ==> |nodes[path[i]].children| <= 1
    decreases j
  {
    if j == 0 then None
    else if |nodes[path[j - 1]].children| > 1 then Some(j - 1)
    else LastBranch(nodes, path, j - 1)
  }

  /** How delete (trie.py lines 46-61) treats key `k`. */
  datatype Pruning =
    | NoNode                   // no path: nothing happens (line 48)
    | ClearOnly                // the node has children: only its value is cleared
    | DetachBelow(depth: nat)  // the single-child chain below `depth` is cut off
    | ResetRoot                // the chain reaches the root on line 52: a fresh root (line 54)
    | CrashAtRoot              // the chain reaches the root on line 57: line 60 reads None.children

  /** The pruning delete performs, read off the trie before the call.  The climb on lines
      51-61 removes nodes two at a time and never looks at their values, so it removes the
      whole chain of single-child ancestors up to the nearest node with another child; when
      there is none, the parity of the key length decides which of the two parent tests
      meets the root. */
  ghost function PlanDelete(nodes: seq<Node>, root: nat, k: string): (r: Pruning)
    requires WellFormed(nodes, root)
    ensures r.DetachBelow? ==> r.depth < |k|
  {
    match Walk(nodes, root, k)
    case None => NoNode
    case Some(p) =>
      if |nodes[p].children| > 0 then ClearOnly
      else
        match LastBranch(nodes, PathOf(nodes, root, k), |k|)
        case Some(e) => DetachBelow(e)
        case None => if |k| % 2 == 0 then ResetRoot else CrashAtRoot
  }

  /** Distinct depths of a path are distinct nodes. */
  lemma PathDistinct(nodes: seq<Node>, root: nat, k: string, i: nat, j: nat)
    requires WellFormed(nodes, root) && Walk(nodes, root, k).Some? && i <= |k| && j <= |k|
    requires PathOf(nodes, root, k)[i] == PathOf(nodes, root, k)[j]
    ensures i == j
  {
    WalkInjective(nodes, root, k[..i], k[..j]);
  }

  /** A node on a path other than its last has at least one child (the next one). */
  lemma PathNodesHaveChildren(nodes: seq<Node>, root: nat, k: string, j: nat)
    requires WellFormed(nodes, root) && Walk(nodes, root, k).Some? && j < |k|
    ensures k[j] in nodes[PathOf(nodes, root, k)[j]].children
    ensures |nodes[PathOf(nodes, root, k)[j]].children| >= 1
  {
    var path := PathOf(nodes, root, k);
    WalkSnoc(nodes, root, k[..j], k[j]);
    assert k[..j] + [k[j]] == k[..j + 1];
  }

  lemma SingleChild(m: map<char, nat>, a: char, b: char)
    requires a in m && b in m && |m| <= 1
    ensures a == b
  {
    var rest := m - {a};
    assert |rest| == |m| - 1 == 0;
    assert b !in rest;
  }

  /** When delete climbs all the way to the root, the key was the trie's only branch:
      every path of the trie is a prefix of it.  */
  lemma {:induction false} LoneChainHoldsOnlyPrefixes(nodes: seq<Node>, root: nat, k: string, w: string)
    requires WellFormed(nodes, root) && Walk(nodes, root, k).Some?
    requires |nodes[Walk(nodes, root, k).value].children| == 0
    requires LastBranch(nodes, PathOf(nodes, root, k), |k|).None?
    requires Walk(nodes, root, w).Some?
    ensures w <= k
    decreases |w|
  {
    if w != [] {
      var w0 := w[..|w| - 1];
      var x := w[|w| - 1];
      assert w == w0 + [x];
      WalkPrefix(nodes, root, w, |w| - 1);
      LoneChainHoldsOnlyPrefixes(nodes, root, k, w0);
      var path := PathOf(nodes, root, k);
      var j := |w0|;
      assert k[..j] == w0;
      var p := path[j];
      WalkSnoc(nodes, root, w0, x);
      if j == |k| {
        assert false;
      }
      PathNodesHaveChildren(nodes, root, k, j);
      SingleChild(nodes[p].children, x, k[j]);
      assert w == k[..j + 1];
    }
  }
}
