# A verified model of the character trie of langconv

`langconv/trie.py` holds the prefix tree that langconv uses for phrase conversion. It maps
strings (sequences of characters) to replacement strings and answers longest-prefix
queries. Its class is called `DoubleArrayTrie`, but it is a plain pointer trie. Each `Node`
has:

- its unit (`key`), a single character, or "" for a root;
- a `value`, where "" means "no entry";
- a cached `full_key`;
- a `parent` back-pointer;
- a `children` dict from character to node.

The Dafny model keeps this imperative shape.

- **Arena** (`arena.dfy`). Python's node objects become the datatype `Arena.Node`. They
  live in an arena `seq<Node>`, and a reference to a node is its index.
  - `WellFormed(nodes, root)` is the tree invariant that `insert` maintains:
    - a child caches its parent's full key plus its unit;
    - parent links and child entries agree;
    - every child was created after its parent, so the structure is acyclic.
  - `Walk(nodes, root, k)` follows the units of `k` and gives the node reached.
    `ValueAt` gives the value stored there.
  - `MatchDepth`, `NearestValued`, `LongestMatch`, `PathOf`, `LastBranch` and `PlanDelete`
    describe, as functions of the trie before a call, what the loops of `insert`,
    `longest_prefix` and `delete` do.
- **Trie** (`trie.dfy`). The class `Trie.DoubleArrayTrie` has the fields `nodes` and
  `root`. Its methods are the Python methods, with their loops.
  - `Lookup(k)` and `Value(k)` are the trie's observable meaning: the node of a path and
    the value stored under a key.
  - Every method is proved against these and against the arena functions.
- **Insertion** (`insertion.dfy`) and **Deletion** (`deletion.dfy`) hold the lemmas that
  the loops of `insert` and `delete` rest on. Deletion also defines
  `Climbed(nodes, root, key)`: the arena, root and outcome that the climb of `delete`
  leaves.
- **Scenarios** (`scenarios.dfy`) works through small tries to show the behaviours
  described below.

## The behaviour of trie.py as written

The model follows the code, including where it departs from the obvious design of a
prefix map.

### `delete` prunes without looking at values

After clearing the value of the key's node, `delete` climbs by two nodes per round
(trie.py lines 51-61). No test in that loop reads a value: the loop test on line 51,
the pop on line 56, the test on line 58 and the pop on line 60 look only at parents and
children. So the climb removes the whole chain of single-child ancestors, stored values
included, up to the nearest node that keeps another child.

For example, with `{'a': 'X', 'ab': 'Y'}`, deleting `'ab'` also loses `'a'`
(`Scenarios.DeleteLongerKeyDropsShorter`). A design that prunes only valueless nodes would
keep `'a'`.

### `delete` can replace the root or stop at it

When the chain reaches the root, the parity of the key length decides which parent test
meets it:

- **On line 52 (even length).** `self.root` becomes a fresh `Node('', '', '')`. The old
  root's value is lost.
- **On line 60 (odd length).** The pop on line 56 has just moved `node` to the root, and
  line 60 reads `node.parent.children` with `node.parent` None, so Python raises
  `AttributeError`. The model returns the outcome `ParentIsNone`, with the trie as it
  stood at that point. Deleting the only key `'a'` is such a case
  (`Scenarios.DeleteOnlyKeyFails`).

The pruning `delete` performs is named up front by `Arena.PlanDelete`, and each case's
effect is stated by `Trie.DoubleArrayTrie.Delete`:

| case | when it applies |
|---|---|
| `NoNode` | the key has no path |
| `ClearOnly` | the key's node still has children |
| `DetachBelow(depth)` | the chain stops at a branching node |
| `ResetRoot` | the chain reaches the root on line 52 |
| `CrashAtRoot` | the chain reaches the root through the pop on line 56, and line 60 fails |

### `longest_prefix` skips the root unless the first unit matched

In the code, `longest_match` starts as None. The root can be an answer only by climbing
back to it after at least one unit has been followed (lines 65-73).

In this model, `LongestMatch` is None when the first unit cannot be followed. Otherwise it
is the nearest valued node at or above the deepest node reached. So the root's value
(stored by inserting `''`) is ignored for an empty input and for one whose first unit has
no child (`Scenarios.LongestPrefixSkipsRootUnlessMatched`). The `full_key` test on line 68
can never fail (`Arena.PrefixCheckHolds`).

### `in` and `trie[key]` test only the path

`__contains__` and `__getitem__` test only that the path of the key exists (lines 76-83).
A prefix of an inserted key is `in` the trie, and `trie[prefix]` is `''` rather than a
`KeyError`. `KeyError` comes only from a missing path.

## Model

| member | source | states |
|---|---|---|
| `Arena.Node.AddChild` | langconv/trie.py:16-17 | after `add_child(child, c)`, `get_child(c)` gives `child`, every other unit gives what it gave before, and the node's other fields are kept |
| `Arena.Node.GetChild` | langconv/trie.py:19-20 | `children.get(c)`: the child stored under `c`, and None exactly when there is none |
| `Arena.Node.PopChild` | langconv/trie.py:56 | `children.pop(k, None)` for a one-unit `k` removes exactly that unit; for any other string nothing changes; value, parent, key and full key are kept |
| `Arena.RootNode` | langconv/trie.py:25 | `Node('', '', '')` holds no value and no children, and on its own is a well-formed trie; see `Arena.BareRootWalk` and `Arena.FreshRoot` |
| `Arena.Walk` | langconv/trie.py:37-44 | the node reached by following a key is an index of the arena |
| `Arena.WalkFullKey` | langconv/trie.py:32 | the node reached by `k` caches `full_key == k` and has the last unit of `k` as its `key` ("" for the root) |
| `Arena.WalkNoneIff` | langconv/trie.py:39-42 | a key has no path exactly when some unit has no child under the node its prefix reaches |
| `Arena.WalkInjective` | langconv/trie.py:32 | two keys that reach the same node are equal |
| `Arena.WalkParent` | langconv/trie.py:32 | the parent of the node for `k` is the node for `k` minus its last unit, and the node's `key` is that unit |
| `Arena.WalkPrefix` | langconv/trie.py:37-44 | every prefix of a key with a path has a path |
| `Arena.WalkSnoc` | langconv/trie.py:39-43 | one more unit is one more `get_child` step from the node reached so far |
| `Arena.ChildrenArePaths` | langconv/trie.py:19-20 | a unit is among a node's children exactly when the key extended by it has a path |
| `Arena.SameChildrenSameWalk` | langconv/trie.py:37-44 | the paths of a trie depend only on the children of its nodes, not on values |
| `Arena.SetValue` | langconv/trie.py:35 | storing a value at a node keeps the tree invariant and every path |
| `Arena.Attach` | langconv/trie.py:32-33 | the new node goes at the end of the arena with the unit, no value, no children, the parent's full key plus the unit and a parent link, and the parent's `get_child` for the unit gives it; that no other path moves is `Arena.AttachWalk` |
| `Arena.AttachWellFormed` | langconv/trie.py:32-33 | creating a child for an absent unit keeps the tree invariant |
| `Arena.AttachWalk` | langconv/trie.py:32-33 | after attaching a new node for `k1`, `k1` leads to the new node and every other key leads where it did before |
| `Arena.Detach` | langconv/trie.py:56 | the parent loses exactly the child entry for the unit, and no other node changes; see `Arena.DetachWalk` |
| `Arena.DetachWellFormed` | langconv/trie.py:56 | removing a child entry keeps the tree invariant |
| `Arena.DetachWalk` | langconv/trie.py:56 | after the node for `k1` is popped from its parent, every key with prefix `k1` loses its path and every other key keeps it |
| `Arena.BareRootWalk` | langconv/trie.py:25 | a root without children gives a path to "" only |
| `Arena.FreshRoot` | langconv/trie.py:54 | replacing the root by a fresh `Node('', '', '')` gives a well-formed trie in which only "" has a path |
| `Arena.MatchDepth` | langconv/trie.py:29-34 | the longest prefix of a key that has a path: its prefix of that length has a path and no longer prefix has |
| `Arena.MatchDepthAt` | langconv/trie.py:66-69 | a forward walk that reaches depth `i` and cannot go on has found the match depth |
| `Arena.MatchDepthZeroIff` | langconv/trie.py:64-69 | no unit can be followed exactly when the key is empty or the root has no child for its first unit |
| `Arena.PrefixCheckHolds` | langconv/trie.py:68 | the `full_key` of each child reached is a prefix of the key, so the test on line 68 never breaks the loop |
| `Arena.NearestValued` | langconv/trie.py:72-73 | the walk-up from depth `j` finds the deepest depth at most `j` whose node holds a value; None only when every depth up to `j` is valueless |
| `Arena.LongestMatch` | langconv/trie.py:63-74 | the depth found holds a value and no deeper prefix does; None exactly when not even one unit matches or no prefix holds a value |
| `Arena.PathOf` | langconv/trie.py:38-43 | the path of a key lists, for each depth, the node reached by that prefix |
| `Arena.LastBranch` | langconv/trie.py:58 | the deepest depth under `j` whose node has more than one child, with every node in between having at most one |
| `Arena.PlanDelete` | langconv/trie.py:46-61 | detaching happens strictly above the key's own node |
| `Arena.LoneChainHoldsOnlyPrefixes` | langconv/trie.py:51-61 | when the key's node is a leaf and no path node branches, every path in the trie is a prefix of the key, so the climb to the root empties the trie |
| `Insertion.InsertStep` | langconv/trie.py:30-34 | one pass of insert's loop keeps the walk invariant in both branches: following an existing child, or attaching a new node |
| `Insertion.InsertStepExisting` | langconv/trie.py:30 | following an existing child creates nothing and advances the walk |
| `Insertion.InsertStepAttach` | langconv/trie.py:31-33 | attaching a node for a missing unit advances the walk with the new node at the end of the arena |
| `Insertion.AttachGrows` | langconv/trie.py:32-33 | beyond the match depth, each new node extends the key's path by one and leaves every older path alone |
| `Insertion.Stored` | langconv/trie.py:35 | only the value of the node reached changes; see `Insertion.StoredValue` and `Insertion.StoredPaths` |
| `Insertion.StoredPaths` | langconv/trie.py:27-35 | after insert the old paths are kept, and the new ones are exactly the prefixes of the key |
| `Insertion.StoredValue` | langconv/trie.py:35 | insert changes the value of no key but its own |
| `Insertion.InsertFinish` | langconv/trie.py:27-35 | after insert the key leads to a node with `full_key == key` and the new value; every other value and every old path is kept; the new paths are the prefixes of the key; one node is created per unit beyond the match depth; old nodes keep their key, full key and parent |
| `Insertion.BareRootRepresents` | langconv/trie.py:25 | the default trie represents the empty map |
| `Insertion.InsertRepresents` | langconv/trie.py:95 | a trie that represents `entries` represents `entries[key := value]` after an insert |
| `Deletion.Climbed` | langconv/trie.py:46-61 | delete either keeps the root or installs a fresh `Node('', '', '')` at the end of the arena; its meaning per case is in `Deletion.ClimbedShape` and `Deletion.ClimbedMeaning` |
| `Deletion.Pruned` | langconv/trie.py:50-61 | pruning keeps the size of the arena |
| `Deletion.PrunedMeaning` | langconv/trie.py:50-61 | after clearing the value and popping the path nodes below depth `d`, keys under the cut lose path and value, the key loses its value, everything else is kept, and no node's key, full key or parent changes |
| `Deletion.CutMeaning` | langconv/trie.py:56 | cutting the path below depth `d` removes the paths and values of exactly the keys under the cut |
| `Deletion.PopStep` | langconv/trie.py:52-57 | popping a leaf of the path from its parent is one step of the pruning, and the parent is the path node one level up |
| `Deletion.ChainStops` | langconv/trie.py:58-59 | when the climb meets a node that keeps children, delete stops there: only the value is cleared if it is the key's own node, otherwise the chain below it is detached |
| `Deletion.ChainReachesRoot` | langconv/trie.py:52-60 | when the climb reaches the root, an even key length means a fresh root and outcome Deleted, and an odd one means outcome ParentIsNone with the trie as pruned |
| `Deletion.CrashMeaning` | langconv/trie.py:60 | when delete fails at the root, only "" keeps a path, and only the root's value survives |
| `Deletion.ClimbedShape` | langconv/trie.py:46-61 | delete keeps the tree invariant, fails exactly in the CrashAtRoot case, moves the root only for ResetRoot, and changes no node's key, full key or parent, clearing only the key's value |
| `Deletion.ClimbedMeaning` | langconv/trie.py:46-61 | the paths and values after delete in each pruning case |
| `Deletion.DeleteEffect` | langconv/trie.py:46-61 | the whole effect of delete on an arena, for every key at once |
| `Trie.DoubleArrayTrie.constructor` | langconv/trie.py:25 | the default trie is a bare root in which only "" has a path |
| `Trie.DoubleArrayTrie.Search` | langconv/trie.py:37-44 | gives the node of the key's path, whether or not it holds a value, and that node's `full_key` is the key; None exactly when some unit has no matching child |
| `Trie.DoubleArrayTrie.AddChildNode` | langconv/trie.py:32-33 | appends a node with the unit, no value, the parent's full key plus the unit and a parent link, and registers it as the parent's child |
| `Trie.DoubleArrayTrie.CreatePath` | langconv/trie.py:28-34 | the walk of insert, creating every missing node, ends at the node of the key with the insert invariant intact |
| `Trie.DoubleArrayTrie.FollowOrCreate` | langconv/trie.py:30-34 | one pass of the loop moves to the child for the next unit, creating it when missing |
| `Trie.DoubleArrayTrie.Insert` | langconv/trie.py:27-35 | the key then leads to a node with `full_key == key` holding the value; every other key's value is unchanged; old paths stay, and the new ones are the prefixes of the key; exactly `|key| - MatchDepth` nodes are created, so re-inserting creates none |
| `Trie.DoubleArrayTrie.Delete` | langconv/trie.py:46-61 | for each pruning case: no change for a missing path; for a node with children only its value is cleared; otherwise the paths and values of every key below the last branching node are lost, or the root is replaced, or ParentIsNone is returned with only the root's value left; the key's value is "" afterwards |
| `Trie.DoubleArrayTrie.Climb` | langconv/trie.py:51-61 | the climb leaves exactly the arena, root and outcome of `Climbed` |
| `Trie.DoubleArrayTrie.ClimbRound` | langconv/trie.py:52-61 | one round either ends the climb with the result of `Climbed`, or moves two levels up with the arena pruned to that depth |
| `Trie.DoubleArrayTrie.PopFromParent` | langconv/trie.py:52-57 | pops the leaf from its parent and gives the parent, or gives None with nothing changed at the root |
| `Trie.DoubleArrayTrie.LongestPrefix` | langconv/trie.py:63-74 | the result is the node of `LongestMatch`; it holds a value, its `full_key` is a prefix of the input, no longer prefix holds a value; None exactly when the input is empty, its first unit has no child, or no prefix holds a value |
| `Trie.DoubleArrayTrie.FollowMatch` | langconv/trie.py:64-71 | the descent stops at the node of the match depth, and gives None when not even one unit matched |
| `Trie.DoubleArrayTrie.ClimbToValued` | langconv/trie.py:72-73 | the walk-up gives the node of the nearest valued depth at or above the start |
| `Trie.DoubleArrayTrie.Contains` | langconv/trie.py:76-77 | true exactly when the key's path exists, valued or not |
| `Trie.DoubleArrayTrie.GetItem` | langconv/trie.py:79-83 | KeyError exactly when the key's path is missing; otherwise the node's value, which is "" for a prefix never inserted |
| `Trie.DoubleArrayTrie.SetItem` | langconv/trie.py:85-86 | the same effect as insert |
| `Trie.DoubleArrayTrie.DelItem` | langconv/trie.py:88-89 | the same effect as delete |
| `Trie.DoubleArrayTrie.FromDict` | langconv/trie.py:91-96 | the new trie stores exactly the dictionary's values under its keys, "" elsewhere, and its paths are the prefixes of the keys, whatever order the entries come in |
| `Trie.DoubleArrayTrie.InsertEntry` | langconv/trie.py:95 | inserting one entry into a trie that represents `entries` gives a trie that represents `entries` with that entry added |
| `Scenarios.AandAbWellFormed` | langconv/trie.py:27-35 | the arena insert would build for `{'a': 'X', 'ab': 'Y'}` is well formed, with paths for 'a' and 'ab' |
| `Scenarios.DeleteLongerKeyDropsShorter` | langconv/trie.py:51-61 | deleting 'ab' from `{'a': 'X', 'ab': 'Y'}` resets the root and leaves 'a' without path or value |
| `Scenarios.DeleteOnlyKeyFails` | langconv/trie.py:56-60 | deleting 'a' from `{'a': 'X'}` ends in ParentIsNone |
| `Scenarios.AbAcWellFormed` | langconv/trie.py:27-35 | the arena insert would build for `{'ab': 'Y', 'ac': 'Z'}` is well formed, and 'ab' has the path root, 'a', 'ab' |
| `Scenarios.DeleteBelowBranchKeepsSibling` | langconv/trie.py:50-59 | deleting 'ab' from `{'ab': 'Y', 'ac': 'Z'}` detaches only the 'b' node; 'ac' keeps its value |
| `Scenarios.LongestPrefixFindsDeepestEntry` | langconv/trie.py:63-74 | on `{'a': 'X', 'ab': 'Y'}`, longest_prefix("abc") finds 'ab', and longest_prefix("") finds nothing |
| `Scenarios.LongestPrefixSkipsRootUnlessMatched` | langconv/trie.py:64-73 | with a valued root and a child 'a', the inputs "" and "x" find nothing, while "a" climbs back to the root |
| `Scenarios.LongestPrefixFallsBackToShorterEntry` | langconv/trie.py:72-73 | on `{'a': 'X'}`, longest_prefix("ab") climbs back to 'a' |
| `Scenarios.PrefixIsPresentWithoutValue` | langconv/trie.py:76-83 | after inserting a two-character key, its one-character prefix is `in` the trie and `trie[prefix]` is "", the whole key gives its value, and a key off every path is a KeyError |
| `Scenarios.OverwriteKeepsSize` | langconv/trie.py:29-35 | inserting the same key twice creates no node the second time, and `trie[key]` gives the second value |
| `Scenarios.EmptyTrieMatchesNothing` | langconv/trie.py:63-74 | on a fresh trie longest_prefix finds nothing for any input, and search finds nothing for any non-empty key |
| `Scenarios.OnlyKeyPlan` | langconv/trie.py:51-60 | in a trie whose only paths are "" and 'a', deleting 'a' reaches the root through the pop on line 56 and fails on line 60 |
| `Scenarios.InsertThenDeleteOnlyKey` | langconv/trie.py:46-61 | on a fresh trie, inserting 'a' and then deleting it gives ParentIsNone, and 'a' is no longer `in` the trie; this follows from the contracts of insert and delete alone |

## Left out

- The `attrs` decorators and `field` defaults (trie.py lines 1, 8, 13-14, 23, 25) are
  foreign library code. The constructor and `AddChildNode` set the fields and their
  defaults directly.
- The `hasattr(node, 'children')` probes on lines 51 and 58 are always true, because
  `children` always exists. The model tests only the number of children.
- Object identity and aliasing are modelled by arena indices. Nodes that `delete` pops,
  and the old root after line 54, stay in the arena but can no longer be reached from the
  root. The model does not reclaim them.
- Python exceptions are values. `KeyError` (line 82) is the `KeyError` case of `Item`, and
  the `AttributeError` of line 60 is the outcome `ParentIsNone`.
- A node's value is a string, and "" stands for "no entry", as in the source. There is no
  separate absent marker.
- Characters are Dafny `char`s, with no Unicode normalisation.
- `Trie.DoubleArrayTrie.FromDict` takes a Dafny `map`, so it states its result through
  `Represents` (values and paths). It says nothing about the order in which nodes sit in the
  arena, because that order depends on Python's dict iteration order, which the model
  does not fix.
- The greedy text-rewriting loop that calls `longest_prefix`, and the loading of
  dictionaries, are not part of trie.py. Other files of langconv are not part of this
  model.
