/** The climb of DoubleArrayTrie.delete (langconv/trie.py lines 46-61) described on the
    arena: after the value of `key` is cleared, every step pops the unit of the current
    node from its parent and moves up, without looking at values. */
module Deletion {
  import opened Arena

  /** The arena `b` part way up the climb from the node of `key` in `n0`: only the value of
      `key`'s node has changed, and the entry `key[j]` has been popped from the children of
      the path node at depth `j` for every `d <= j < |key|`. */
  ghost predicate Cut(n0: seq<Node>, b: seq<Node>, root: nat, key: string, d: nat)
  {
    CutShape(n0, b, root, key, d) && (forall k :: CutAt(n0, b, root, key, d, k))
  }

  /** The node fields of a cut arena. */
  ghost predicate CutShape(n0: seq<Node>, b: seq<Node>, root: nat, key: string, d: nat)
  {
    WellFormed(n0, root) && Walk(n0, root, key).Some? && d <= |key| &&
    WellFormed(b, root) &&
    ValueCleared(n0, b, PathOf(n0, root, key)[|key|]) &&
    PoppedBelow(n0, b, PathOf(n0, root, key), key, d)
  }

  /** `b` is `n0` with the value of node `p` cleared, as far as units, full keys, parents
      and values go. */
  ghost predicate ValueCleared(n0: seq<Node>, b: seq<Node>, p: nat)
  {
    |b| == |n0| &&
    forall i :: 0 <= i < |n0| ==>
      b[i].key == n0[i].key && b[i].fullKey == n0[i].fullKey && b[i].parent == n0[i].parent &&
      b[i].value == (if i == p then "" else n0[i].value)
  }

  /** The children along `path` in `b`: as in `n0` above depth `d`, the entry `key[d]`
      popped at depth `d`. */
  ghost predicate PoppedBelow(n0: seq<Node>, b: seq<Node>, path: seq<nat>, key: string, d: nat)
  {
    d < |path| == |key| + 1 && |b| == |n0| && (forall j :: 0 <= j < |path| ==> path[j] < |n0|) &&
    (forall j :: 0 <= j < d ==> b[path[j]].children == n0[path[j]].children) &&
    b[path[d]].children == (if d < |key| then n0[path[d]].children - {key[d]} else n0[path[d]].children)
  }

  /** The path of `k` in a cut arena: gone when it runs through the last popped entry,
      as before otherwise. */
  ghost predicate CutAt(n0: seq<Node>, b: seq<Node>, root: nat, key: string, d: nat, k: string)
  {
    WellFormed(n0, root) && WellFormed(b, root) &&
    Walk(b, root, k) == if d < |key| && key[..d + 1] <= k then None else Walk(n0, root, k)
  }

  /** The climb state: the parity of the depth and, once the climb has left the node of
      `key`, that this node has no children and no branch was passed on the way up. */
  ghost predicate Chain(n0: seq<Node>, root: nat, key: string, d: nat)
  {
    WellFormed(n0, root) && Walk(n0, root, key).Some? && d <= |key| &&
    var path := PathOf(n0, root, key);
    (d < |key| ==> |n0[path[|key|]].children| == 0 &&
                   LastBranch(n0, path, |key|) == LastBranch(n0, path, d + 1))
  }

  /** The first and last entries of the path of `key`. */
  lemma PathEnds(nodes: seq<Node>, root: nat, key: string)
    requires WellFormed(nodes, root) && Walk(nodes, root, key).Some?
    ensures PathOf(nodes, root, key)[0] == root
    ensures Walk(nodes, root, key) == Some(PathOf(nodes, root, key)[|key|])
  {
    assert key[..0] == [];
    assert key[..|key|] == key;
  }

  /** Consecutive path nodes are linked: the node at depth `d` is the child under
      `key[d - 1]` of the node at depth `d - 1`, its parent, and holds that unit. */
  lemma PathLinks(nodes: seq<Node>, root: nat, key: string, d: nat)
    requires WellFormed(nodes, root) && Walk(nodes, root, key).Some? && 0 < d <= |key|
    ensures var path := PathOf(nodes, root, key);
      key[d - 1] in nodes[path[d - 1]].children && nodes[path[d - 1]].children[key[d - 1]] == path[d] &&
      nodes[path[d]].parent == Some(path[d - 1]) && nodes[path[d]].key == [key[d - 1]]
  {
    var path := PathOf(nodes, root, key);
    var p := path[d - 1];
    assert Walk(nodes, root, key[..d - 1]) == Some(p);
    assert key[..d - 1] + [key[d - 1]] == key[..d];
    WalkSnoc(nodes, root, key[..d - 1], key[d - 1]);
    assert nodes[p].GetChild(key[d - 1]) == Some(path[d]);
    assert NodeOk(nodes, p);
  }

  /** Line 50: clearing the value of `key`'s node starts the climb with nothing popped. */
  lemma CutStart(n0: seq<Node>, root: nat, key: string)
    requires WellFormed(n0, root) && Walk(n0, root, key).Some?
    ensures var i := Walk(n0, root, key).value;
      Cut(n0, n0[i := n0[i].(value := "")], root, key, |key|) && Chain(n0, root, key, |key|)
  {
    var i := Walk(n0, root, key).value;
    var b := n0[i := n0[i].(value := "")];
    CutStartShape(n0, root, key);
    forall k ensures CutAt(n0, b, root, key, |key|, k) {
      SetValue(n0, root, i, "", k);
    }
  }

  lemma CutStartShape(n0: seq<Node>, root: nat, key: string)
    requires WellFormed(n0, root) && Walk(n0, root, key).Some?
    ensures var i := Walk(n0, root, key).value;
      CutShape(n0, n0[i := n0[i].(value := "")], root, key, |key|)
  {
    var i := Walk(n0, root, key).value;
    var b := n0[i := n0[i].(value := "")];
    var path := PathOf(n0, root, key);
    PathEnds(n0, root, key);
    SetValue(n0, root, i, "", key);
    CutStartFields(n0, b, i, path[|key|]);
  }

  /** Clearing one value changes nothing else. */
  lemma CutStartFields(n0: seq<Node>, b: seq<Node>, i: nat, p: nat)
    requires i < |n0| && b == n0[i := n0[i].(value := "")] && p == i
    ensures |b| == |n0|
    ensures forall x :: 0 <= x < |n0| ==>
              b[x].key == n0[x].key && b[x].fullKey == n0[x].fullKey && b[x].parent == n0[x].parent &&
              b[x].value == (if x == p then "" else n0[x].value) && b[x].children == n0[x].children
  {
  }

  /** The parent test on lines 52 and 60: only the path node at depth 0, the root, has no
      parent, and the unit a node holds is the one its parent lists it under. */
  lemma ParentOnPath(n0: seq<Node>, b: seq<Node>, root: nat, key: string, d: nat)
    requires Cut(n0, b, root, key, d)
    ensures var path := PathOf(n0, root, key);
      path[d] < |b| &&
      b[path[d]].parent == (if d == 0 then None else Some(path[d - 1])) &&
      (d > 0 ==> b[path[d]].key == [key[d - 1]])
  {
    PathEnds(n0, root, key);
    if d > 0 {
      PathLinks(n0, root, key, d);
    }
  }

  /** One pop of the climb (lines 56 and 60): removing the unit `key[d1]` from the path
      node at depth `d1 = d - 1` cuts the arena one level higher. */
  lemma CutStep(n0: seq<Node>, b: seq<Node>, root: nat, key: string, d: nat, d1: nat)
    requires Cut(n0, b, root, key, d) && d1 + 1 == d
    ensures PathOf(n0, root, key)[d1] < |b|
    ensures Cut(n0, Detach(b, PathOf(n0, root, key)[d1], key[d1]), root, key, d1)
  {
    var path := PathOf(n0, root, key);
    var p := path[d1];
    var a := Detach(b, p, key[d1]);
    PathLinks(n0, root, key, d);
    DetachWellFormed(b, root, p, key[d1]);
    forall j | 0 <= j < d1 ensures a[path[j]].children == n0[path[j]].children {
      if path[j] == p {
        PathDistinct(n0, root, key, j, d1);
      }
    }
    if p == path[d] {
      PathDistinct(n0, root, key, d1, d);
    }
    CutWalkStep(n0, b, root, key, d, d1);
  }

  lemma CutWalkStep(n0: seq<Node>, b: seq<Node>, root: nat, key: string, d: nat, d1: nat)
    requires Cut(n0, b, root, key, d) && d1 + 1 == d
    ensures PathOf(n0, root, key)[d1] < |b|
    ensures forall k :: CutAt(n0, Detach(b, PathOf(n0, root, key)[d1], key[d1]), root, key, d1, k)
  {
    var path := PathOf(n0, root, key);
    var p := path[d1];
    var k1 := key[..d];
    assert k1[..d1] == key[..d1];
    assert CutAt(n0, b, root, key, d, key[..d1]);
    forall k ensures CutAt(n0, Detach(b, p, key[d1]), root, key, d1, k) {
      DetachWalk(b, root, k1, p, key[d1], k);
      assert CutAt(n0, b, root, key, d, k);
      if d < |key| && key[..d + 1] <= k {
        assert key[..d + 1][..d] == k1;
      }
    }
  }

  /** How delete ends: normally, or with the AttributeError that trie.py line 60 raises
      when it reads `children` of the root's missing parent. */
  datatype DeleteOutcome = Deleted | ParentIsNone

  /** The arena, the root and the outcome that delete of `key` leaves behind, read off the
      plan of the trie before the call (the path of `key` exists). */
  ghost function Climbed(n0: seq<Node>, root: nat, key: string): (r: (seq<Node>, nat, DeleteOutcome))
    requires WellFormed(n0, root) && Walk(n0, root, key).Some?
    ensures r.1 == root || (r.1 == |n0| && |r.0| == |n0| + 1 && r.0[r.1] == RootNode())
  {
    match PlanDelete(n0, root, key)
    case NoNode => (n0, root, Deleted)
    case ClearOnly => (Pruned(n0, root, key, |key|), root, Deleted)
    case DetachBelow(e) => (Pruned(n0, root, key, e), root, Deleted)
    case ResetRoot => (Pruned(n0, root, key, 0) + [RootNode()], |n0|, Deleted)
    case CrashAtRoot => (Pruned(n0, root, key, 0), root, ParentIsNone)
  }

  /** The arena once the climb of delete has reached depth `d` of the path of `key`:
      line 50 has cleared the value of `key`'s node, and lines 56 and 60 have popped the
      entry `key[j]` from the path node at depth `j`, for `j` from `|key| - 1` down to `d`. */
  ghost function Pruned(n0: seq<Node>, root: nat, key: string, d: nat): (b: seq<Node>)
    requires WellFormed(n0, root) && Walk(n0, root, key).Some? && d <= |key|
    ensures |b| == |n0|
    decreases |key| - d
  {
    var path := PathOf(n0, root, key);
    if d == |key| then
      n0[path[d] := n0[path[d]].(value := "")]
    else
      Detach(Pruned(n0, root, key, d + 1), path[d], key[d])
  }

  /** A pruned arena is a cut arena. */
  lemma {:induction false} PrunedCut(n0: seq<Node>, root: nat, key: string, d: nat)
    requires WellFormed(n0, root) && Walk(n0, root, key).Some? && d <= |key|
    ensures Cut(n0, Pruned(n0, root, key, d), root, key, d)
    decreases |key| - d
  {
    if d == |key| {
      PathEnds(n0, root, key);
      CutStart(n0, root, key);
    } else {
      PrunedCut(n0, root, key, d + 1);
      CutStep(n0, Pruned(n0, root, key, d + 1), root, key, d + 1, d);
    }
  }

  /** The node the climb stands on at depth `d`: its parent (none for the root), the unit
      it holds, and its children, which have lost the entry of the popped node below. */
  lemma PrunedNode(n0: seq<Node>, root: nat, key: string, d: nat)
    requires WellFormed(n0, root) && Walk(n0, root, key).Some? && d <= |key|
    ensures var b := Pruned(n0, root, key, d);
      var path := PathOf(n0, root, key);
      WellFormed(b, root) && path[d] < |b| &&
      b[path[d]].parent == (if d == 0 then None else Some(path[d - 1])) &&
      (d > 0 ==> b[path[d]].key == [key[d - 1]]) &&
      b[path[d]].children ==
        (if d < |key| then n0[path[d]].children - {key[d]} else n0[path[d]].children)
  {
    PrunedCut(n0, root, key, d);
    ParentOnPath(n0, Pruned(n0, root, key, d), root, key, d);
  }

  /** What one pop of the climb needs, at the path node of depth `d` left without
      children: its parent link and unit, and, below the root, that popping it from its
      parent gives the arena one level up and keeps the climb state. */
  lemma PopStep(n0: seq<Node>, root: nat, key: string, d: nat)
    requires Chain(n0, root, key, d)
    requires |Pruned(n0, root, key, d)[PathOf(n0, root, key)[d]].children| == 0
    ensures var b := Pruned(n0, root, key, d);
      var path := PathOf(n0, root, key);
      path[d] < |b| &&
      b[path[d]].parent == (if d == 0 then None else Some(path[d - 1])) &&
      (d > 0 ==> path[d - 1] < |b| && b[path[d]].key == [key[d - 1]] &&
                 b[path[d - 1] := b[path[d - 1]].PopChild(b[path[d]].key)] == Pruned(n0, root, key, d - 1) &&
                 Chain(n0, root, key, d - 1))
  {
    PrunedNode(n0, root, key, d);
    if d > 0 {
      ChainStep(n0, root, key, d);
    }
  }

  /** Going up from a node left without children (the loop test on line 51 and the test
      on line 58) keeps the climb state one level higher. */
  lemma ChainStep(n0: seq<Node>, root: nat, key: string, d: nat)
    requires Chain(n0, root, key, d) && 0 < d
    requires |Pruned(n0, root, key, d)[PathOf(n0, root, key)[d]].children| == 0
    ensures Chain(n0, root, key, d - 1)
  {
    PrunedNode(n0, root, key, d);
    if d < |key| {
      PathNodesHaveChildren(n0, root, key, d);
    }
  }

  /** The climb stops at a node that still has children: the whole key was a branch of its
      own (no pop at all), or the nearest branching ancestor is at depth `d`. */
  lemma ChainStops(n0: seq<Node>, root: nat, key: string, d: nat)
    requires Chain(n0, root, key, d)
    requires |Pruned(n0, root, key, d)[PathOf(n0, root, key)[d]].children| != 0
    ensures PlanDelete(n0, root, key) == if d == |key| then ClearOnly else DetachBelow(d)
    ensures Climbed(n0, root, key) == (Pruned(n0, root, key, d), root, Deleted)
  {
    PrunedNode(n0, root, key, d);
    PathEnds(n0, root, key);
    if d < |key| {
      PathNodesHaveChildren(n0, root, key, d);
    }
  }

  /** The climb reaches the root after `rounds` full rounds of two pops: every node above
      the key had a single child, and the parity of the key length tells which parent test
      met the root. */
  lemma ChainReachesRoot(n0: seq<Node>, root: nat, key: string, rounds: nat)
    requires Chain(n0, root, key, 0)
    requires |Pruned(n0, root, key, 0)[PathOf(n0, root, key)[0]].children| == 0
    requires |key| == 2 * rounds || |key| == 2 * rounds + 1
    ensures PlanDelete(n0, root, key) == if |key| == 2 * rounds then ResetRoot else CrashAtRoot
    ensures Climbed(n0, root, key) ==
            if |key| == 2 * rounds then (Pruned(n0, root, key, 0) + [RootNode()], |n0|, Deleted)
            else (Pruned(n0, root, key, 0), root, ParentIsNone)
  {
    Parity(|key|, rounds);
    PrunedNode(n0, root, key, 0);
    PathEnds(n0, root, key);
    if 0 < |key| {
      PathNodesHaveChildren(n0, root, key, 0);
    }
  }

  lemma Parity(n: nat, rounds: nat)
    requires n == 2 * rounds || n == 2 * rounds + 1
    ensures n % 2 == 0 <==> n == 2 * rounds
  {
  }

  /** What a cut arena holds: the paths through the last popped entry are gone and with
      them their values; `key` has lost its value; everything else is as before. */
  lemma CutMeaning(n0: seq<Node>, b: seq<Node>, root: nat, key: string, d: nat, k: string)
    requires Cut(n0, b, root, key, d)
    ensures Walk(b, root, k) == if d < |key| && key[..d + 1] <= k then None else Walk(n0, root, k)
    ensures ValueAt(b, root, k) ==
            if (d < |key| && key[..d + 1] <= k) || k == key then "" else ValueAt(n0, root, k)
  {
    assert CutAt(n0, b, root, key, d, k);
    PathEnds(n0, root, key);
    if k == key && d < |key| {
      assert key[..d + 1] <= k;
    }
    if Walk(n0, root, k) == Walk(n0, root, key) {
      WalkInjective(n0, root, k, key);
    }
  }

  /** The pruned arena: well formed, the same nodes with the same units, full keys and
      parents, the value of `key`'s node cleared, and the paths through the entry popped
      last gone together with their values. */
  lemma PrunedMeaning(n0: seq<Node>, root: nat, key: string, d: nat, k: string)
    requires WellFormed(n0, root) && Walk(n0, root, key).Some? && d <= |key|
    ensures var b := Pruned(n0, root, key, d);
      WellFormed(b, root) &&
      Walk(b, root, k) == (if d < |key| && key[..d + 1] <= k then None else Walk(n0, root, k)) &&
      ValueAt(b, root, k) ==
        (if (d < |key| && key[..d + 1] <= k) || k == key then "" else ValueAt(n0, root, k)) &&
      (forall i :: 0 <= i < |n0| ==>
         b[i].key == n0[i].key && b[i].fullKey == n0[i].fullKey && b[i].parent == n0[i].parent &&
         b[i].value == (if Walk(n0, root, key) == Some(i) then "" else n0[i].value))
  {
    PrunedCut(n0, root, key, d);
    PathEnds(n0, root, key);
    CutMeaning(n0, Pruned(n0, root, key, d), root, key, d, k);
  }

  /** The crash on line 60 leaves the arena pruned up to the root; because the key was the
      trie's only branch, only the root's path is left, still holding its value. */
  lemma CrashMeaning(n0: seq<Node>, root: nat, key: string, k: string)
    requires WellFormed(n0, root) && PlanDelete(n0, root, key).CrashAtRoot?
    ensures Walk(n0, root, key).Some? && WellFormed(Pruned(n0, root, key, 0), root)
    ensures Walk(Pruned(n0, root, key, 0), root, k) == if k == [] then Some(root) else None
    ensures ValueAt(Pruned(n0, root, key, 0), root, k) == if k == [] then ValueAt(n0, root, []) else ""
  {
    PathEnds(n0, root, key);
    PrunedMeaning(n0, root, key, 0, k);
    if Walk(n0, root, k).Some? {
      LoneChainHoldsOnlyPrefixes(n0, root, key, k);
      if k != [] {
        assert key[..1] == k[..1];
      }
    }
  }

  /** The shape of what delete of a key with a path leaves behind: a well-formed arena,
      the outcome ParentIsNone exactly at the crash on line 60, a new root node appended
      exactly when the climb meets the root on line 52, and every old node with its unit,
      full key and parent, only the value of `key`'s node cleared. */
  lemma ClimbedShape(n0: seq<Node>, root: nat, key: string)
    requires WellFormed(n0, root) && Walk(n0, root, key).Some?
    ensures var c := Climbed(n0, root, key);
      var plan := PlanDelete(n0, root, key);
      WellFormed(c.0, c.1) &&
      (c.2 == ParentIsNone <==> plan.CrashAtRoot?) &&
      c.1 == (if plan.ResetRoot? then |n0| else root) &&
      |c.0| == |n0| + (if plan.ResetRoot? then 1 else 0) &&
      (plan.ResetRoot? ==> c.0[c.1] == RootNode()) &&
      (forall i :: 0 <= i < |n0| ==>
         c.0[i].key == n0[i].key && c.0[i].fullKey == n0[i].fullKey && c.0[i].parent == n0[i].parent &&
         c.0[i].value == (if Walk(n0, root, key) == Some(i) then "" else n0[i].value))
  {
    match PlanDelete(n0, root, key)
    case ClearOnly =>
      PrunedMeaning(n0, root, key, |key|, []);
    case DetachBelow(e) =>
      PrunedMeaning(n0, root, key, e, []);
    case ResetRoot =>
      PrunedMeaning(n0, root, key, 0, []);
      FreshRoot(Pruned(n0, root, key, 0), root, []);
    case CrashAtRoot =>
      PrunedMeaning(n0, root, key, 0, []);
  }

  /** The paths and values delete of a key with a path leaves behind, by plan: only the
      value of `key` cleared; the single-child chain below the nearest branching ancestor
      cut off with every value on it; a fresh root and nothing else; or, at the crash on
      line 60, only the old root's path with its value. */
  lemma ClimbedMeaning(n0: seq<Node>, root: nat, key: string, k: string)
    requires WellFormed(n0, root) && Walk(n0, root, key).Some?
    ensures WellFormed(Climbed(n0, root, key).0, Climbed(n0, root, key).1)
    ensures var c := Climbed(n0, root, key);
      var plan := PlanDelete(n0, root, key);
      (plan.ClearOnly? ==>
         Walk(c.0, c.1, k) == Walk(n0, root, k) &&
         ValueAt(c.0, c.1, k) == if k == key then "" else ValueAt(n0, root, k)) &&
      (plan.DetachBelow? ==>
         Walk(c.0, c.1, k) == (if key[..plan.depth + 1] <= k then None else Walk(n0, root, k)) &&
         ValueAt(c.0, c.1, k) == if key[..plan.depth + 1] <= k then "" else ValueAt(n0, root, k)) &&
      (plan.ResetRoot? ==>
         Walk(c.0, c.1, k) == (if k == [] then Some(c.1) else None) && ValueAt(c.0, c.1, k) == "") &&
      (plan.CrashAtRoot? ==>
         Walk(c.0, c.1, k) == (if k == [] then Some(root) else None) &&
         ValueAt(c.0, c.1, k) == if k == [] then ValueAt(n0, root, []) else "")
  {
    match PlanDelete(n0, root, key)
    case ClearOnly =>
      PrunedMeaning(n0, root, key, |key|, k);
    case DetachBelow(e) =>
      PrunedMeaning(n0, root, key, e, k);
      assert key[..e + 1] <= key;
    case ResetRoot =>
      PrunedMeaning(n0, root, key, 0, k);
      FreshRoot(Pruned(n0, root, key, 0), root, k);
    case CrashAtRoot =>
      CrashMeaning(n0, root, key, k);
  }

  /** Delete's effect on the trie, by plan, for every key at once: `b` and `r` are the
      arena and root the climb leaves behind. */
  lemma DeleteEffect(n0: seq<Node>, root: nat, key: string, b: seq<Node>, r: nat, o: DeleteOutcome)
    requires WellFormed(n0, root) && Walk(n0, root, key).Some?
    requires (b, r, o) == Climbed(n0, root, key)
    ensures WellFormed(b, r)
    ensures o == ParentIsNone <==> PlanDelete(n0, root, key).CrashAtRoot?
    ensures r == if PlanDelete(n0, root, key).ResetRoot? then |n0| else root
    ensures |b| == |n0| + if PlanDelete(n0, root, key).ResetRoot? then 1 else 0
    ensures PlanDelete(n0, root, key).ResetRoot? ==> b[r] == RootNode()
    ensures forall i :: 0 <= i < |n0| ==>
              b[i].key == n0[i].key && b[i].fullKey == n0[i].fullKey && b[i].parent == n0[i].parent &&
              b[i].value == if Walk(n0, root, key) == Some(i) then "" else n0[i].value
    ensures PlanDelete(n0, root, key).ClearOnly? ==>
              forall k :: Walk(b, r, k) == Walk(n0, root, k) &&
                          ValueAt(b, r, k) == if k == key then "" else ValueAt(n0, root, k)
    ensures PlanDelete(n0, root, key).DetachBelow? ==>
              var e := PlanDelete(n0, root, key).depth;
              forall k :: Walk(b, r, k) == (if key[..e + 1] <= k then None else Walk(n0, root, k)) &&
                          ValueAt(b, r, k) == if key[..e + 1] <= k then "" else ValueAt(n0, root, k)
    ensures PlanDelete(n0, root, key).ResetRoot? ==>
              forall k :: Walk(b, r, k) == (if k == [] then Some(r) else None) && ValueAt(b, r, k) == ""
    ensures PlanDelete(n0, root, key).CrashAtRoot? ==>
              forall k :: Walk(b, r, k) == (if k == [] then Some(r) else None) &&
                          ValueAt(b, r, k) == if k == [] then ValueAt(n0, root, []) else ""
  {
    ClimbedShape(n0, root, key);
    forall k
      ensures PlanDelete(n0, root, key).ClearOnly? ==>
                Walk(b, r, k) == Walk(n0, root, k) &&
                ValueAt(b, r, k) == if k == key then "" else ValueAt(n0, root, k)
      ensures PlanDelete(n0, root, key).DetachBelow? ==>
                var e := PlanDelete(n0, root, key).depth;
                Walk(b, r, k) == (if key[..e + 1] <= k then None else Walk(n0, root, k)) &&
                ValueAt(b, r, k) == if key[..e + 1] <= k then "" else ValueAt(n0, root, k)
      ensures PlanDelete(n0, root, key).ResetRoot? ==>
                Walk(b, r, k) == (if k == [] then Some(r) else None) && ValueAt(b, r, k) == ""
      ensures PlanDelete(n0, root, key).CrashAtRoot? ==>
                Walk(b, r, k) == (if k == [] then Some(r) else None) &&
                ValueAt(b, r, k) == if k == [] then ValueAt(n0, root, []) else ""
    {
      ClimbedMeaning(n0, root, key, k);
    }
  }
}
