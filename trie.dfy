/** DoubleArrayTrie of langconv/trie.py: despite its name a pointer trie, mapping strings
    to strings, where the value "" stands for "no entry".  The nodes live in the arena
    `nodes`; `root` is the index of the current root node. */
module Trie {
  import opened Arena
  import opened Insertion
  import opened Deletion

  /** What `trie[key]` gives: the value of the node found, or KeyError for a missing path. */
  datatype Item = Found(value: string) | KeyError(key: string)

  class DoubleArrayTrie {
    var nodes: seq<Node>
    var root: nat

    ghost predicate Valid()
      reads this
    {
      WellFormed(nodes, root)
    }

    /** The node that the path of `k` leads to, if the path exists. */
    function Lookup(k: string): Option<nat>
      reads this
      requires Valid()
    {
      Walk(nodes, root, k)
    }

    /** The value stored under `k`, "" for no entry. */
    function Value(k: string): string
      reads this
      requires Valid()
    {
      ValueAt(nodes, root, k)
    }

    /** The default instance: a single root `Node('', '', '')` (trie.py line 25). */
    constructor ()
      ensures Valid() && nodes == [RootNode()] && root == 0
      ensures forall k :: Lookup(k) == if k == [] then Some(root) else None
    {
      nodes := [RootNode()];
      root := 0;
      new;
      assert NodeOk(nodes, 0);
      forall k ensures Lookup(k) == if k == [] then Some(root) else None {
        BareRootWalk(nodes, root, k);
      }
    }

    /** search: follow the units of `key` from the root; None as soon as one is missing,
        otherwise the node reached, whether or not it holds a value. */
    method Search(key: string) returns (r: Option<nat>)
      requires Valid()
      ensures r == Lookup(key)
      ensures r.Some? ==> nodes[r.value].fullKey == key
      ensures r.None? <==> exists j :: 0 <= j < |key| && Lookup(key[..j]).Some? &&
                                       key[j] !in nodes[Lookup(key[..j]).value].children
    {
      var node := root;
      var i := 0;
      while i < |key|
        invariant 0 <= i <= |key| && Walk(nodes, root, key[..i]) == Some(node)
      {
        var childNode := nodes[node].GetChild(key[i]);
        WalkSnoc(nodes, root, key[..i], key[i]);
        assert key[..i] + [key[i]] == key[..i + 1];
        if childNode.None? {
          if Walk(nodes, root, key).Some? {
            WalkPrefix(nodes, root, key, i + 1);
          }
          WalkNoneIff(nodes, root, key);
          return None;
        }
        node := childNode.value;
        i := i + 1;
      }
      assert key[..i] == key;
      WalkFullKey(nodes, root, key);
      WalkNoneIff(nodes, root, key);
      r := Some(node);
    }

    /** Lines 32-33 of insert: a fresh node for unit `c` under `node`, with no value,
        `node`'s full key extended by `c` and a link back to `node`, put at the end of the
        arena and registered as `node`'s child. */
    method AddChildNode(node: nat, c: char) returns (child: nat)
      requires node < |nodes|
      modifies this
      ensures child == |old(nodes)| && root == old(root)
      ensures nodes == Attach(old(nodes), node, c)
    {
      child := |nodes|;
      nodes := nodes + [Node([c], "", nodes[node].fullKey + [c], Some(node), map[])];
      nodes := nodes[node := nodes[node].AddChild(child, c)];
    }

    /** The walk of insert (trie.py lines 28-34): follow `key` from the root, creating a
        node for every unit that has none, and give back the node reached. */
    method CreatePath(key: string) returns (node: nat)
      requires Valid()
      modifies this
      ensures root == old(root)
      ensures InsertProgress(old(nodes), nodes, root, key, old(MatchDepth(nodes, root, key)), |key|, node)
    {
      ghost var n0 := nodes;
      ghost var root0 := root;
      ghost var m := MatchDepth(nodes, root, key);
      node := root;
      var i := 0;
      assert key[..0] == [];
      while i < |key|
        invariant root == root0 && InsertProgress(n0, nodes, root0, key, m, i, node)
      {
        node := FollowOrCreate(n0, key, m, i, node);
        i := i + 1;
      }
      assert n0 == old(nodes) && m == old(MatchDepth(nodes, root, key));
    }

    /** One pass of insert's loop (trie.py lines 30-34) at `node`, reached by the first `i`
        units of `key`: move to the child for unit `key[i]`, creating it first when missing. */
    method FollowOrCreate(ghost n0: seq<Node>, key: string, ghost m: nat, i: nat, node: nat) returns (next: nat)
      requires InsertProgress(n0, nodes, root, key, m, i, node) && i < |key|
      modifies this
      ensures root == old(root) && InsertProgress(n0, nodes, root, key, m, i + 1, next)
    {
      var c := key[i];
      var childNode := nodes[node].GetChild(c);
      InsertStep(n0, nodes, root, key, m, i, i + 1, node);
      if childNode.None? {
        var newIndex := AddChildNode(node, c);
        childNode := Some(newIndex);
      }
      next := childNode.value;
    }

    /** insert: walk `key`, creating a node (unit, no value, parent's full key plus the
        unit, parent link) for every missing unit, then store `value` at the last node. */
    method Insert(key: string, value: string)
      requires Valid()
      modifies this
      ensures Valid() && root == old(root)
      ensures |nodes| == |old(nodes)| + |key| - old(MatchDepth(nodes, root, key))
      ensures Lookup(key).Some? && nodes[Lookup(key).value].fullKey == key
      ensures nodes[Lookup(key).value].value == value && Value(key) == value
      ensures forall k :: k != key ==> Value(k) == old(Value(k))
      ensures forall k :: old(Lookup(k)).Some? ==> Lookup(k) == old(Lookup(k))
      ensures forall k :: Lookup(k).Some? <==> (old(Lookup(k)).Some? || k <= key)
      ensures forall k :: k <= key && old(MatchDepth(nodes, root, key)) < |k| ==>
                Lookup(k).Some? && Lookup(k).value == |old(nodes)| + |k| - old(MatchDepth(nodes, root, key)) - 1
      ensures forall i :: 0 <= i < |old(nodes)| ==>
                nodes[i].key == old(nodes)[i].key && nodes[i].fullKey == old(nodes)[i].fullKey &&
                nodes[i].parent == old(nodes)[i].parent
    {
      ghost var n0 := nodes;
      ghost var m := MatchDepth(nodes, root, key);
      var node := CreatePath(key);
      InsertFinish(n0, nodes, root, key, m, node, value);
      nodes := nodes[node := nodes[node].(value := value)];
      assert n0 == old(nodes) && m == old(MatchDepth(nodes, root, key));
    }

    /** delete (trie.py lines 46-61): nothing for a key without a path; otherwise clear the
        node's value and prune the chain of single-child ancestors, values and all, as the
        plan of the trie before the call says.  ParentIsNone is the AttributeError raised
        on line 60 when the second parent test of a round meets the root; the trie is left
        as it stood at that moment. */
    method Delete(key: string) returns (outcome: DeleteOutcome)
      requires Valid()
      modifies this
      ensures Valid()
      ensures outcome == ParentIsNone <==> old(PlanDelete(nodes, root, key)).CrashAtRoot?
      ensures old(PlanDelete(nodes, root, key)).NoNode? ==> nodes == old(nodes) && root == old(root)
      ensures root == if old(PlanDelete(nodes, root, key)).ResetRoot? then |old(nodes)| else old(root)
      ensures |nodes| == |old(nodes)| + if old(PlanDelete(nodes, root, key)).ResetRoot? then 1 else 0
      ensures old(PlanDelete(nodes, root, key)).ClearOnly? ==>
                forall k :: Lookup(k) == old(Lookup(k)) &&
                            Value(k) == if k == key then "" else old(Value(k))
      ensures old(PlanDelete(nodes, root, key)).DetachBelow? ==>
                var e := old(PlanDelete(nodes, root, key)).depth;
                forall k :: Lookup(k) == (if key[..e + 1] <= k then None else old(Lookup(k))) &&
                            Value(k) == if key[..e + 1] <= k then "" else old(Value(k))
      ensures old(PlanDelete(nodes, root, key)).ResetRoot? ==>
                nodes[root] == RootNode() &&
                forall k :: Lookup(k) == (if k == [] then Some(root) else None) && Value(k) == ""
      ensures old(PlanDelete(nodes, root, key)).CrashAtRoot? ==>
                forall k :: Lookup(k) == (if k == [] then Some(root) else None) &&
                            Value(k) == if k == [] then old(Value([])) else ""
      ensures forall i :: 0 <= i < |old(nodes)| ==>
                nodes[i].key == old(nodes)[i].key && nodes[i].fullKey == old(nodes)[i].fullKey &&
                nodes[i].parent == old(nodes)[i].parent &&
                nodes[i].value == if old(Lookup(key)) == Some(i) then "" else old(nodes)[i].value
      ensures Value(key) == ""
    {
      var found := Search(key);
      if found.None? {
        return Deleted;
      }
      ghost var n0 := nodes;
      ghost var root0 := root;
      var node := found.value;
      PathEnds(n0, root, key);
      nodes := nodes[node := nodes[node].(value := "")];
      assert nodes == Pruned(n0, root, key, |key|);
      outcome := Climb(n0, key, node);
      DeleteEffect(n0, root0, key, nodes, root, outcome);
      assert n0 == old(nodes) && root0 == old(root);
    }

    /** longest_prefix (trie.py lines 63-74): follow `key` as far as it goes, remembering the
        last node reached (none when not even the first unit matches), then climb parents
        to the nearest node with a value.  The answer is the node of the longest valued
        prefix of `key`, except that the root counts only once the first unit has matched. */
    method LongestPrefix(key: string) returns (r: Option<nat>)
      requires Valid()
      ensures r == match LongestMatch(nodes, root, key)
                   case None => None
                   case Some(d) => Lookup(key[..d])
      ensures r.Some? ==> nodes[r.value].value != "" &&
                          |nodes[r.value].fullKey| <= |key| && key[..|nodes[r.value].fullKey|] == nodes[r.value].fullKey
      ensures r.Some? ==> forall d :: |nodes[r.value].fullKey| < d <= |key| ==> Value(key[..d]) == ""
      ensures r.None? <==> (key == [] || key[0] !in nodes[root].children ||
                            forall d :: 0 <= d <= |key| ==> Value(key[..d]) == "")
    {
      var longest := FollowMatch(key);
      r := ClimbToValued(key, longest, MatchDepth(nodes, root, key));
      if r.Some? {
        WalkFullKey(nodes, root, key[..LongestMatch(nodes, root, key).value]);
      }
      MatchDepthZeroIff(nodes, root, key);
    }

    /** The first loop of longest_prefix (lines 64-71): the node of the longest prefix of
        `key` that has a path, or None when that prefix is empty.  The full-key test on line
        68 never fails. */
    method FollowMatch(key: string) returns (longest: Option<nat>)
      requires Valid()
      ensures longest == if MatchDepth(nodes, root, key) == 0 then None
                         else Lookup(key[..MatchDepth(nodes, root, key)])
    {
      var node := root;
      longest := None;
      var i := 0;
      assert key[..0] == [];
      while i < |key|
        invariant 0 <= i <= |key| && Walk(nodes, root, key[..i]) == Some(node)
        invariant longest == if i == 0 then None else Some(node)
      {
        var childNode := nodes[node].GetChild(key[i]);
        WalkSnoc(nodes, root, key[..i], key[i]);
        assert key[..i] + [key[i]] == key[..i + 1];
        if childNode.None? {
          break;
        }
        PrefixCheckHolds(nodes, root, key, i);
        var fk := nodes[childNode.value].fullKey;
        if |fk| > |key| || key[..|fk|] != fk {
          break;
        }
        node := childNode.value;
        longest := Some(node);
        i := i + 1;
      }
      MatchDepthAt(nodes, root, key, i);
    }

    /** The second loop of longest_prefix (lines 72-73), from `start`, the node of
        `key[..j]` or None: climb parents while the node holds no value. */
    method ClimbToValued(key: string, start: Option<nat>, ghost j: nat) returns (r: Option<nat>)
      requires Valid() && j <= |key| && (start.Some? ==> Lookup(key[..j]) == start)
      ensures r == if start.None? then None
                   else match NearestValued(nodes, root, key, j)
                        case None => None
                        case Some(d) => Lookup(key[..d])
    {
      r := start;
      ghost var i: nat := j;
      while r.Some? && nodes[r.value].value == ""
        invariant i <= j <= |key| && (r.Some? ==> Walk(nodes, root, key[..i]) == r)
        invariant start.Some? ==> Walk(nodes, root, key[..j]).Some?
        invariant (if start.None? then None else NearestValued(nodes, root, key, j)) ==
                  (if r.None? then None else NearestValued(nodes, root, key, i))
        decreases if r.Some? then i + 1 else 0
      {
        if i > 0 {
          WalkParent(nodes, root, key[..i]);
          assert key[..i][..i - 1] == key[..i - 1];
        } else {
          assert key[..i] == [];
        }
        r := nodes[r.value].parent;
        if i > 0 {
          i := i - 1;
        }
      }
    }

    /** `key in trie` (trie.py lines 76-77): whether the path of `key` exists, whether or
        not its node holds a value. */
    method Contains(key: string) returns (b: bool)
      requires Valid()
      ensures b <==> Lookup(key).Some?
      ensures b ==> nodes[Lookup(key).value].fullKey == key
    {
      var found := Search(key);
      b := found.Some?;
    }

    /** `trie[key]` (trie.py lines 79-83): KeyError for a missing path, otherwise the value
        of the node reached, which is "" for a prefix that was never inserted. */
    method GetItem(key: string) returns (item: Item)
      requires Valid()
      ensures item.KeyError? <==> Lookup(key).None?
      ensures item.KeyError? ==> item.key == key
      ensures item.Found? ==> item.value == Value(key)
    {
      var found := Search(key);
      if found.None? {
        return KeyError(key);
      }
      item := Found(nodes[found.value].value);
    }

    /** `trie[key] = value` (trie.py lines 85-86): insert. */
    method SetItem(key: string, value: string)
      requires Valid()
      modifies this
      ensures Valid() && root == old(root)
      ensures |nodes| == |old(nodes)| + |key| - old(MatchDepth(nodes, root, key))
      ensures Lookup(key).Some? && nodes[Lookup(key).value].fullKey == key
      ensures nodes[Lookup(key).value].value == value && Value(key) == value
      ensures forall k :: k != key ==> Value(k) == old(Value(k))
      ensures forall k :: old(Lookup(k)).Some? ==> Lookup(k) == old(Lookup(k))
      ensures forall k :: Lookup(k).Some? <==> (old(Lookup(k)).Some? || k <= key)
      ensures forall k :: k <= key && old(MatchDepth(nodes, root, key)) < |k| ==>
                Lookup(k).Some? && Lookup(k).value == |old(nodes)| + |k| - old(MatchDepth(nodes, root, key)) - 1
      ensures forall i :: 0 <= i < |old(nodes)| ==>
                nodes[i].key == old(nodes)[i].key && nodes[i].fullKey == old(nodes)[i].fullKey &&
                nodes[i].parent == old(nodes)[i].parent
    {
      Insert(key, value);
    }

    /** `del trie[key]` (trie.py lines 88-89): delete. */
    method DelItem(key: string) returns (outcome: DeleteOutcome)
      requires Valid()
      modifies this
      ensures Valid()
      ensures outcome == ParentIsNone <==> old(PlanDelete(nodes, root, key)).CrashAtRoot?
      ensures old(PlanDelete(nodes, root, key)).NoNode? ==> nodes == old(nodes) && root == old(root)
      ensures root == if old(PlanDelete(nodes, root, key)).ResetRoot? then |old(nodes)| else old(root)
      ensures |nodes| == |old(nodes)| + if old(PlanDelete(nodes, root, key)).ResetRoot? then 1 else 0
      ensures old(PlanDelete(nodes, root, key)).ClearOnly? ==>
                forall k :: Lookup(k) == old(Lookup(k)) &&
                            Value(k) == if k == key then "" else old(Value(k))
      ensures old(PlanDelete(nodes, root, key)).DetachBelow? ==>
                var e := old(PlanDelete(nodes, root, key)).depth;
                forall k :: Lookup(k) == (if key[..e + 1] <= k then None else old(Lookup(k))) &&
                            Value(k) == if key[..e + 1] <= k then "" else old(Value(k))
      ensures old(PlanDelete(nodes, root, key)).ResetRoot? ==>
                nodes[root] == RootNode() &&
                forall k :: Lookup(k) == (if k == [] then Some(root) else None) && Value(k) == ""
      ensures old(PlanDelete(nodes, root, key)).CrashAtRoot? ==>
                forall k :: Lookup(k) == (if k == [] then Some(root) else None) &&
                            Value(k) == if k == [] then old(Value([])) else ""
      ensures forall i :: 0 <= i < |old(nodes)| ==>
                nodes[i].key == old(nodes)[i].key && nodes[i].fullKey == old(nodes)[i].fullKey &&
                nodes[i].parent == old(nodes)[i].parent &&
                nodes[i].value == if old(Lookup(key)) == Some(i) then "" else old(nodes)[i].value
      ensures Value(key) == ""
    {
      outcome := Delete(key);
    }

    /** from_dict (trie.py lines 91-96): a default trie into which every entry of
        `dictionary` is inserted.  Whatever order the entries come in, the trie stores
        exactly their values, and its paths are the prefixes of their keys. */
    static method FromDict(dictionary: map<string, string>) returns (t: DoubleArrayTrie)
      ensures fresh(t) && t.Valid() && Represents(t.nodes, t.root, dictionary)
    {
      t := new DoubleArrayTrie();
      var rest := dictionary.Keys;
      BareRootRepresents(t.nodes, t.root);
      assert dictionary - rest == map[];
      while rest != {}
        invariant fresh(t) && t.Valid() && rest <= dictionary.Keys
        invariant Represents(t.nodes, t.root, dictionary - rest)
        decreases |rest|
      {
        var key :| key in rest;
        t.InsertEntry(dictionary - rest, key, dictionary[key]);
        assert (dictionary - rest)[key := dictionary[key]] == dictionary - (rest - {key});
        rest := rest - {key};
      }
      assert dictionary - rest == dictionary;
    }

    /** One pass of the from_dict loop (trie.py line 95): inserting an entry into a trie that
        holds `entries` gives a trie that holds them with `key` mapped to `value`. */
    method InsertEntry(ghost entries: map<string, string>, key: string, value: string)
      requires Valid() && Represents(nodes, root, entries)
      modifies this
      ensures Valid() && Represents(nodes, root, entries[key := value])
    {
      ghost var n0 := nodes;
      Insert(key, value);
      forall k
        ensures k != key ==> ValueAt(nodes, root, k) == ValueAt(n0, root, k)
        ensures Walk(nodes, root, k).Some? <==> (Walk(n0, root, k).Some? || k <= key)
      {
        assert k != key ==> Value(k) == old(Value(k));
        assert Lookup(k).Some? <==> (old(Lookup(k)).Some? || k <= key);
      }
      InsertRepresents(n0, root, nodes, root, entries, key, value);
    }

    /** The climb of delete (trie.py lines 51-61) from `start`, the node of `key` whose
        value line 50 has just cleared: pop the current node from its parent and move up,
        twice per round and without looking at values, until a node keeps children or a
        parent test meets the root. */
    method Climb(ghost n0: seq<Node>, key: string, start: nat) returns (outcome: DeleteOutcome)
      requires WellFormed(n0, root) && Walk(n0, root, key).Some?
      requires nodes == Pruned(n0, root, key, |key|) && start == PathOf(n0, root, key)[|key|]
      modifies this
      ensures (nodes, root, outcome) == Climbed(n0, old(root), key)
    {
      ghost var root0 := root;
      ghost var path := PathOf(n0, root0, key);
      ghost var d: nat := |key|;
      ghost var rounds: nat := 0;
      var node := start;
      PrunedNode(n0, root0, key, d);
      var stop: Option<DeleteOutcome> := None;
      while |nodes[node].children| == 0
        invariant root == root0 && nodes == Pruned(n0, root0, key, d) && Chain(n0, root0, key, d)
        invariant node == path[d] && node < |nodes| && d + 2 * rounds == |key| && stop.None?
        decreases d
      {
        var next;
        next, stop := ClimbRound(n0, key, d, rounds, node);
        if stop.Some? {
          break;
        }
        node := next;
        d := d - 2;
        rounds := rounds + 1;
      }
      if stop.None? {
        ChainStops(n0, root0, key, d);
        outcome := Deleted;
      } else {
        outcome := stop.value;
      }
    }

    /** One round of the climb (the body of the loop on trie.py lines 51-61), from `node`,
        the path node at depth `d` left without children: pop it from its parent, or put a
        fresh root in place when it has none; move up and stop if the parent keeps other
        children; otherwise pop the parent from the grandparent, raising ParentIsNone when
        there is none, and move up again. */
    method ClimbRound(ghost n0: seq<Node>, key: string, ghost d: nat, ghost rounds: nat, node: nat)
      returns (next: nat, stop: Option<DeleteOutcome>)
      requires WellFormed(n0, root) && Walk(n0, root, key).Some? && d + 2 * rounds == |key|
      requires nodes == Pruned(n0, root, key, d) && node == PathOf(n0, root, key)[d]
      requires Chain(n0, root, key, d) && node < |nodes| && |nodes[node].children| == 0
      modifies this
      ensures stop.Some? ==> (nodes, root, stop.value) == Climbed(n0, old(root), key)
      ensures stop.None? ==>
                2 <= d && root == old(root) && next == PathOf(n0, root, key)[d - 2] && next < |nodes| &&
                nodes == Pruned(n0, root, key, d - 2) && Chain(n0, root, key, d - 2)
    {
      ghost var root0 := root;
      var parent := PopFromParent(n0, key, d, node);
      if parent.None? {
        ChainReachesRoot(n0, root0, key, rounds);
        var newRoot := |nodes|;
        nodes := nodes + [RootNode()];
        root := newRoot;
        return 0, Some(Deleted);
      }
      next := parent.value;
      if |nodes[next].children| > 0 {
        ChainStops(n0, root0, key, d - 1);
        return next, Some(Deleted);
      }
      var grand := PopFromParent(n0, key, d - 1, next);
      if grand.None? {
        ChainReachesRoot(n0, root0, key, rounds);
        return next, Some(ParentIsNone);
      }
      next := grand.value;
      stop := None;
    }

    /** One pop of the climb (trie.py lines 52-57 and 60-61), made when `node`, the path
        node at depth `d`, has no children left: its parent loses the child entry for
        `node`'s unit and is returned; None, with nothing changed, when `node` is the root
        and has no parent. */
    method PopFromParent(ghost n0: seq<Node>, key: string, ghost d: nat, node: nat) returns (parent: Option<nat>)
      requires WellFormed(n0, root) && Walk(n0, root, key).Some? && d <= |key|
      requires nodes == Pruned(n0, root, key, d) && node == PathOf(n0, root, key)[d]
      requires Chain(n0, root, key, d) && node < |nodes| && |nodes[node].children| == 0
      modifies this
      ensures root == old(root) && (parent.None? <==> d == 0)
      ensures parent.None? ==> nodes == old(nodes)
      ensures parent.Some? ==>
                parent.value == PathOf(n0, root, key)[d - 1] && parent.value < |nodes| &&
                nodes == Pruned(n0, root, key, d - 1) && Chain(n0, root, key, d - 1)
    {
      PopStep(n0, root, key, d);
      parent := nodes[node].parent;
      if parent.Some? {
        nodes := nodes[parent.value := nodes[parent.value].PopChild(nodes[node].key)];
      }
    }
  }
}
