/** The walk of DoubleArrayTrie.insert (langconv/trie.py lines 27-35) described on the
    arena: the units of the key that already have a path are followed, every later unit
    gets a fresh node at the end of the arena, and the value is stored at the last node. */
module Insertion {
  import opened Arena

  /** How far insert has got after following `i` units of `key` from the arena `n0`:
      the first `m` units (those with a path already) reuse nodes, every later one has
      added one fresh node at the end of the arena, and nothing else has changed. */
  ghost predicate InsertProgress(n0: seq<Node>, b: seq<Node>, root: nat, key: string, m: nat, i: nat, node: nat)
  {
    InsertShape(n0, b, root, key, m, i, node) && FieldsKept(n0, b) &&
    (forall k :: GrownAt(n0, b, root, key, m, i, k))
  }

  /** Both arenas are well formed, `node` is where the first `i` units of `key` lead, and
      the arena has grown by one node per unit followed beyond the first `m`. */
  ghost predicate InsertShape(n0: seq<Node>, b: seq<Node>, root: nat, key: string, m: nat, i: nat, node: nat)
  {
    WellFormed(n0, root) && m == MatchDepth(n0, root, key) && i <= |key| &&
    WellFormed(b, root) && Walk(b, root, key[..i]) == Some(node) &&
    (i <= m ==> b == n0) &&
    (m < i ==> |b| == |n0| + i - m && node == |b| - 1 && b[node].children == map[])
  }

  /** The nodes of `n0` keep their unit, full key, parent and value in `b`; the nodes
      added after them hold no value. */
  ghost predicate FieldsKept(n0: seq<Node>, b: seq<Node>)
  {
    |n0| <= |b| &&
    (forall j :: 0 <= j < |n0| ==>
       b[j].key == n0[j].key && b[j].fullKey == n0[j].fullKey &&
       b[j].parent == n0[j].parent && b[j].value == n0[j].value) &&
    (forall j :: |n0| <= j < |b| ==> b[j].value == "")
  }

  /** The path of `k` after insert has followed `i` units: one of the new nodes when `k` is
      one of the prefixes of `key` longer than `m` and at most `i`, the old one otherwise. */
  ghost predicate GrownAt(n0: seq<Node>, b: seq<Node>, root: nat, key: string, m: nat, i: nat, k: string)
  {
    WellFormed(n0, root) && WellFormed(b, root) && i <= |key| &&
    Walk(b, root, k) == if m < |k| <= i && k == key[..|k|] then Some(|n0| + |k| - m - 1) else Walk(n0, root, k)
  }

  /** One step of insert's walk (trie.py lines 29-34): the unit's child is followed, or a
      fresh node is created for it at the end of the arena. */
  lemma InsertStep(n0: seq<Node>, b: seq<Node>, root: nat, key: string, m: nat, i: nat, i1: nat, node: nat)
    requires InsertProgress(n0, b, root, key, m, i, node) && i < |key| && i1 == i + 1
    ensures node < |b|
    ensures key[i] in b[node].children ==>
              InsertProgress(n0, b, root, key, m, i1, b[node].children[key[i]])
    ensures key[i] !in b[node].children ==>
              InsertProgress(n0, Attach(b, node, key[i]), root, key, m, i1, |b|)
  {
    if key[i] in b[node].children {
      InsertStepExisting(n0, b, root, key, m, i, node);
    } else {
      InsertStepAttach(n0, b, root, key, m, i, i1, node);
    }
  }

  /** A unit that already has a child is one of the first `m`. */
  lemma InsertStepExisting(n0: seq<Node>, b: seq<Node>, root: nat, key: string, m: nat, i: nat, node: nat)
    requires InsertProgress(n0, b, root, key, m, i, node) && i < |key|
    requires key[i] in b[node].children
    ensures InsertProgress(n0, b, root, key, m, i + 1, b[node].children[key[i]])
  {
    WalkSnoc(b, root, key[..i], key[i]);
    assert key[..i] + [key[i]] == key[..i + 1];
  }

  /** A unit without a child gets a fresh node at the end of the arena (lines 31-33). */
  lemma InsertStepAttach(n0: seq<Node>, b: seq<Node>, root: nat, key: string, m: nat, i: nat, i1: nat, node: nat)
    requires InsertProgress(n0, b, root, key, m, i, node) && i < |key| && i1 == i + 1
    requires key[i] !in b[node].children
    ensures node < |b| && InsertProgress(n0, Attach(b, node, key[i]), root, key, m, i1, |b|)
  {
    var c := key[i];
    assert key[..i1][..i] == key[..i];
    if i < m {
      WalkPrefix(n0, root, key[..m], i1);
      assert key[..m][..i1] == key[..i1];
      WalkSnoc(b, root, key[..i], c);
      assert false;
    }
    var a := Attach(b, node, c);
    AttachWellFormed(b, root, node, c);
    AttachGrows(n0, b, root, key, m, i, i1, node);
    AttachWalk(b, root, key[..i1], node, c, key[..i1]);
    assert forall j :: 0 <= j < |n0| ==>
       a[j].key == n0[j].key && a[j].fullKey == n0[j].fullKey &&
       a[j].parent == n0[j].parent && a[j].value == n0[j].value;
    assert forall j :: |n0| <= j < |a| ==> a[j].value == "";
  }

  lemma AttachGrows(n0: seq<Node>, b: seq<Node>, root: nat, key: string, m: nat, i: nat, i1: nat, node: nat)
    requires InsertProgress(n0, b, root, key, m, i, node) && m <= i < |key| && i1 == i + 1
    requires key[i] !in b[node].children
    ensures node < |b| && WellFormed(Attach(b, node, key[i]), root)
    ensures forall k :: GrownAt(n0, Attach(b, node, key[i]), root, key, m, i1, k)
  {
    var c := key[i];
    assert key[..i1][..i] == key[..i];
    var a := Attach(b, node, c);
    assert |b| == |n0| + i - m;
    AttachWellFormed(b, root, node, c);
    forall k ensures GrownAt(n0, a, root, key, m, i1, k) {
      AttachWalk(b, root, key[..i1], node, c, k);
      assert GrownAt(n0, b, root, key, m, i, k);
    }
  }

  /** The arena once insert has stored `value` at the node of `key`. */
  function Stored(b: seq<Node>, node: nat, value: string): (r: seq<Node>)
    requires node < |b|
    ensures |r| == |b| && r[node].value == value
    ensures r[node].key == b[node].key && r[node].fullKey == b[node].fullKey
    ensures r[node].parent == b[node].parent && r[node].children == b[node].children
    ensures forall i :: 0 <= i < |b| && i != node ==> r[i] == b[i]
  {
    b[node := b[node].(value := value)]
  }

  /** Storing the value: every path is where it was after the walk. */
  lemma StoredWalk(n0: seq<Node>, b: seq<Node>, root: nat, key: string, m: nat, node: nat, value: string, k: string)
    requires InsertProgress(n0, b, root, key, m, |key|, node)
    ensures node < |b| && WellFormed(Stored(b, node, value), root)
    ensures Walk(Stored(b, node, value), root, k) ==
            if m < |k| <= |key| && k == key[..|k|] then Some(|n0| + |k| - m - 1) else Walk(n0, root, k)
  {
    assert key[..|key|] == key;
    SetValue(b, root, node, value, k);
    assert GrownAt(n0, b, root, key, m, |key|, k);
  }

  /** Storing the value: a path exists afterwards exactly when it existed before or is a
      prefix of `key`. */
  lemma StoredPaths(n0: seq<Node>, b: seq<Node>, root: nat, key: string, m: nat, node: nat, value: string, k: string)
    requires InsertProgress(n0, b, root, key, m, |key|, node)
    ensures node < |b| && WellFormed(Stored(b, node, value), root)
    ensures Walk(n0, root, k).Some? ==> Walk(Stored(b, node, value), root, k) == Walk(n0, root, k)
    ensures Walk(Stored(b, node, value), root, k).Some? <==> (Walk(n0, root, k).Some? || k <= key)
  {
    StoredWalk(n0, b, root, key, m, node, value, k);
    if m < |k| <= |key| && k == key[..|k|] {
      assert Walk(n0, root, key[..|k|]).None?;
    }
    if k <= key && |k| <= m {
      assert k == key[..m][..|k|];
      WalkPrefix(n0, root, key[..m], |k|);
    }
  }

  /** Storing the value: every key other than `key` keeps its value. */
  lemma StoredValue(n0: seq<Node>, b: seq<Node>, root: nat, key: string, m: nat, node: nat, value: string, k: string)
    requires InsertProgress(n0, b, root, key, m, |key|, node) && k != key
    ensures node < |b| && WellFormed(Stored(b, node, value), root)
    ensures ValueAt(Stored(b, node, value), root, k) == ValueAt(n0, root, k)
  {
    var a := Stored(b, node, value);
    StoredWalk(n0, b, root, key, m, node, value, k);
    StoredWalk(n0, b, root, key, m, node, value, key);
    assert key[..|key|] == key;
    if Walk(a, root, k) == Some(node) {
      WalkInjective(a, root, k, key);
    }
    if m < |k| <= |key| && k == key[..|k|] {
      assert Walk(n0, root, key[..|k|]).None?;
    }
  }

  /** Storing the value at the end of the walk (trie.py line 35): what insert as a whole
      has done to the arena `n0`. */
  lemma InsertFinish(n0: seq<Node>, b: seq<Node>, root: nat, key: string, m: nat, node: nat, value: string)
    requires InsertProgress(n0, b, root, key, m, |key|, node)
    ensures node < |b|
    ensures var a := Stored(b, node, value);
      WellFormed(a, root) &&
      |a| == |n0| + |key| - m &&
      Walk(a, root, key) == Some(node) && a[node].fullKey == key && a[node].value == value &&
      ValueAt(a, root, key) == value &&
      (forall k :: k != key ==> ValueAt(a, root, k) == ValueAt(n0, root, k)) &&
      (forall k :: Walk(n0, root, k).Some? ==> Walk(a, root, k) == Walk(n0, root, k)) &&
      (forall k :: Walk(a, root, k).Some? <==> (Walk(n0, root, k).Some? || k <= key)) &&
      (forall k :: k <= key && m < |k| ==> Walk(a, root, k) == Some(|n0| + |k| - m - 1)) &&
      (forall j :: 0 <= j < |n0| ==>
         a[j].key == n0[j].key && a[j].fullKey == n0[j].fullKey && a[j].parent == n0[j].parent)
  {
    assert key[..|key|] == key;
    var a := Stored(b, node, value);
    StoredWalk(n0, b, root, key, m, node, value, key);
    WalkFullKey(a, root, key);
    forall k | k != key ensures ValueAt(a, root, k) == ValueAt(n0, root, k) {
      StoredValue(n0, b, root, key, m, node, value, k);
    }
    forall k
      ensures Walk(n0, root, k).Some? ==> Walk(a, root, k) == Walk(n0, root, k)
      ensures Walk(a, root, k).Some? <==> (Walk(n0, root, k).Some? || k <= key)
    {
      StoredPaths(n0, b, root, key, m, node, value, k);
    }
    forall k | k <= key && m < |k| ensures Walk(a, root, k) == Some(|n0| + |k| - m - 1) {
      StoredWalk(n0, b, root, key, m, node, value, k);
    }
  }

  /** The arena holds the entries of `entries` and nothing else: every key has the value it
      is mapped to ("" for any other key), and the paths are the prefixes of the keys. */
  ghost predicate Represents(nodes: seq<Node>, root: nat, entries: map<string, string>)
    requires WellFormed(nodes, root)
  {
    (forall k :: ValueAt(nodes, root, k) == if k in entries then entries[k] else "") &&
    (forall k :: Walk(nodes, root, k).Some? <==> (k == [] || exists w :: w in entries && k <= w))
  }

  /** A bare root holds no entries. */
  lemma BareRootRepresents(nodes: seq<Node>, root: nat)
    requires WellFormed(nodes, root) && nodes[root].children == map[] && nodes[root].value == ""
    ensures Represents(nodes, root, map[])
  {
    forall k ensures Walk(nodes, root, k) == if k == [] then Some(root) else None {
      BareRootWalk(nodes, root, k);
    }
  }

  /** An insert, described by what it keeps and changes, extends the entries a trie holds
      by one: the entry for `key` is set to `value`. */
  lemma InsertRepresents(n0: seq<Node>, r0: nat, b: seq<Node>, r: nat,
                         entries: map<string, string>, key: string, value: string)
    requires WellFormed(n0, r0) && WellFormed(b, r) && Represents(n0, r0, entries)
    requires ValueAt(b, r, key) == value
    requires forall k :: k != key ==> ValueAt(b, r, k) == ValueAt(n0, r0, k)
    requires forall k :: Walk(b, r, k).Some? <==> (Walk(n0, r0, k).Some? || k <= key)
    ensures Represents(b, r, entries[key := value])
  {
    var e := entries[key := value];
    forall k ensures Walk(b, r, k).Some? <==> (k == [] || exists w :: w in e && k <= w) {
      if k <= key {
        assert key in e;
      }
      if Walk(n0, r0, k).Some? && k != [] {
        var w :| w in entries && k <= w;
        assert w in e;
      }
    }
  }
}
