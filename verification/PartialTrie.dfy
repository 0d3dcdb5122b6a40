/** The node type of a partial Merkle Patricia trie, its content and its canonical shape. */
module PartialTrie {
  import opened Wrappers
  import opened Nibbles

  type H256 = h: Bytes | |h| == 32 witness seq(32, _ => 0)

  /** What a key can lead to: a value, or the digest of a subtree that is not stored. */
  datatype Entry = Val(value: Bytes) | HashOf(hash: H256)

  datatype Node =
    | Empty
    | Hash(hash: H256)
    | Branch(children: seq<Node>, value: Bytes)
    | Extension(nibbles: Key, child: Node)
    | Leaf(nibbles: Key, value: Bytes)
  {
    /** Every branch has sixteen children (the array type of the source). */
    ghost predicate Wf() {
      match this
      case Branch(children, _) => |children| == 16 && forall i :: 0 <= i < 16 ==> children[i].Wf()
      case Extension(_, child) => child.Wf()
      case _ => true
    }
  }

  datatype TrieError =
    | HashNodeInsert(hash: H256)
    | HashNodeDelete(hash: H256)
    | HashNodeExt
    | ExtensionCollapsedIntoHash(key: Key, hash: H256)
    | ExistingHashNode(hash: H256)
    | Panic

  datatype OnOrphanedHashNode = CollapseToExtension | Reject

  // ---------------------------------------------------------------------------------------------
  // Content and canonical shape
  // ---------------------------------------------------------------------------------------------

  /** The entry a trie holds at exactly key k. */
  function Lookup(t: Node, k: Key): Option<Entry>
    requires t.Wf()
    decreases t
  {
    match t
    case Empty => None
    case Hash(h) => if k == [] then Some(HashOf(h)) else None
    case Branch(children, value) =>
      if k != [] then Lookup(children[k[0]], k[1..])
      else if value != [] then Some(Val(value)) else None
    case Extension(n, child) => if n <= k then Lookup(child, k[|n|..]) else None
    case Leaf(n, value) => if n == k then Some(Val(value)) else None
  }

  /** The slots of a branch that are in use. */
  function UsedSlots(children: seq<Node>): set<nat> {
    set i: nat | i < |children| && !children[i].Empty?
  }

  /** Number of things a branch holds directly: used slots, plus one for a value. */
  function Fanout(children: seq<Node>, value: Bytes): nat {
    |UsedSlots(children)| + if value != [] then 1 else 0
  }

  /** The shape every Ethereum trie has: no redundant branch, no chained extensions. */
  ghost predicate Canonical(t: Node)
    decreases t
  {
    match t
    case Empty => true
    case Hash(_) => true
    case Branch(children, value) =>
      && |children| == 16
      && (forall i :: 0 <= i < 16 ==> Canonical(children[i]))
      && Fanout(children, value) >= 2
    case Extension(n, child) => n != [] && (child.Branch? || child.Hash?) && Canonical(child)
    case Leaf(_, value) => value != []
  }

  ghost predicate SameContent(a: Node, b: Node)
    requires a.Wf() && b.Wf()
  {
    forall k :: Lookup(a, k) == Lookup(b, k)
  }

  // ---------------------------------------------------------------------------------------------
  // Canonical tries are determined by their content
  // ---------------------------------------------------------------------------------------------

  lemma UsedSlotsBound(children: seq<Node>, i: nat, j: nat)
    requires i < |children| && j < |children| && i != j && !children[i].Empty? && !children[j].Empty?
    ensures |UsedSlots(children)| >= 2
  {
    assert {i, j} <= UsedSlots(children);
    SubsetSize({i, j}, UsedSlots(children));
  }

  /** A canonical branch leads to two keys that part at once. */
  lemma {:induction false} BranchForks(t: Node) returns (k1: Key, k2: Key)
    requires t.Branch? && Canonical(t) && t.Wf()
    ensures Lookup(t, k1).Some? && Lookup(t, k2).Some?
    ensures k1 != [] && (k2 == [] || k1[0] != k2[0])
    decreases t, 0
  {
    var used := UsedSlots(t.children);
    assert used != {};
    var i :| i in used;
    var r1 := SomeKey(t.children[i]);
    k1 := [i] + r1;
    if t.value != [] {
      k2 := [];
    } else {
      assert |used - {i}| >= 1;
      var j :| j in used - {i};
      var r2 := SomeKey(t.children[j]);
      k2 := [j] + r2;
    }
  }

  lemma {:induction false} SomeKey(t: Node) returns (k: Key)
    requires !t.Empty? && Canonical(t) && t.Wf()
    ensures Lookup(t, k).Some?
    decreases t, 1
  {
    match t
    case Hash(_) => k := [];
    case Branch(_, _) => var k1, _ := BranchForks(t); k := k1;
    case Extension(n, child) =>
      var r := SomeKey(child);
      k := n + r;
      assert k[|n|..] == r;
    case Leaf(n, _) => k := n;
  }

  lemma ExtensionLookup(n: Key, child: Node, k: Key)
    requires child.Wf()
    ensures Lookup(Extension(n, child), n + k) == Lookup(child, k)
  {
    assert (n + k)[|n|..] == k;
  }

  /** A node below which keys part: a branch, with or without an extension in front. */
  predicate Forks(t: Node) {
    t.Branch? || (t.Extension? && t.child.Branch?)
  }

  lemma ForkHasTwoKeys(t: Node) returns (k1: Key, k2: Key)
    requires Forks(t) && Canonical(t) && t.Wf()
    ensures Lookup(t, k1).Some? && Lookup(t, k2).Some? && k1 != k2
  {
    if t.Branch? {
      k1, k2 := BranchForks(t);
    } else {
      var r1, r2 := BranchForks(t.child);
      ExtensionLookup(t.nibbles, t.child, r1);
      ExtensionLookup(t.nibbles, t.child, r2);
      k1, k2 := t.nibbles + r1, t.nibbles + r2;
      assert k1[|t.nibbles|..] == r1 && k2[|t.nibbles|..] == r2;
    }
  }

  /** Any other canonical node holds a single key. */
  function OnlyKey(t: Node): Key
    requires !Forks(t)
  {
    match t
    case Extension(n, _) => n
    case Leaf(n, _) => n
    case _ => []
  }

  lemma OneKey(t: Node, k: Key)
    requires !Forks(t) && !t.Empty? && Canonical(t) && t.Wf()
    ensures Lookup(t, k).Some? <==> k == OnlyKey(t)
  {
  }

  lemma ForksAlike(a: Node, b: Node)
    requires Canonical(a) && Canonical(b) && a.Wf() && b.Wf() && SameContent(a, b)
    requires !a.Empty? && !b.Empty? && Forks(a)
    ensures Forks(b)
  {
    var k1, k2 := ForkHasTwoKeys(a);
    assert Lookup(b, k1).Some? && Lookup(b, k2).Some?;
    if !Forks(b) {
      OneKey(b, k1);
      OneKey(b, k2);
    }
  }

  /** The nibbles of an extension over a branch are the longest prefix its keys share. */
  lemma ForkPrefix(n: Key, branch: Node, p: Key)
    requires branch.Branch? && Canonical(branch) && branch.Wf()
    requires forall k :: Lookup(Extension(n, branch), k).Some? ==> p <= k
    ensures p <= n
  {
    var k1, k2 := BranchForks(branch);
    ExtensionLookup(n, branch, k1);
    ExtensionLookup(n, branch, k2);
    assert p <= n + k1 && p <= n + k2;
  }

  lemma BranchIsNotExtension(a: Node, b: Node)
    requires Canonical(a) && Canonical(b) && a.Wf() && b.Wf() && SameContent(a, b)
    requires a.Branch?
    ensures !b.Extension?
  {
    var k1, k2 := BranchForks(a);
    assert Lookup(b, k1).Some? && Lookup(b, k2).Some?;
  }

  /** Two canonical tries with the same content are the same trie. */
  lemma {:induction false} CanonicalUnique(a: Node, b: Node)
    requires Canonical(a) && Canonical(b) && a.Wf() && b.Wf() && SameContent(a, b)
    ensures a == b
    decreases a, 1
  {
    if a.Empty? || b.Empty? {
      if !a.Empty? { var k := SomeKey(a); }
      if !b.Empty? { var k := SomeKey(b); }
    } else if !Forks(a) && !Forks(b) {
      OneKey(a, OnlyKey(a));
      OneKey(b, OnlyKey(a));
      assert Lookup(a, OnlyKey(a)) == Lookup(b, OnlyKey(a));
    } else {
      if Forks(a) { ForksAlike(a, b); } else { ForksAlike(b, a); }
      if a.Branch? {
        BranchIsNotExtension(a, b);
        BranchUnique(a, b);
      } else {
        if b.Branch? { BranchIsNotExtension(b, a); }
        ForkPrefix(a.nibbles, a.child, b.nibbles);
        ForkPrefix(b.nibbles, b.child, a.nibbles);
        forall k ensures Lookup(a.child, k) == Lookup(b.child, k) {
          ExtensionLookup(a.nibbles, a.child, k);
          ExtensionLookup(b.nibbles, b.child, k);
          assert Lookup(a, a.nibbles + k) == Lookup(b, a.nibbles + k);
        }
        CanonicalUnique(a.child, b.child);
      }
    }
  }

  lemma {:induction false} BranchUnique(a: Node, b: Node)
    requires Canonical(a) && Canonical(b) && a.Wf() && b.Wf() && SameContent(a, b)
    requires a.Branch? && b.Branch?
    ensures a == b
    decreases a, 0
  {
    assert Lookup(a, []) == Lookup(b, []);
    forall i | 0 <= i < 16 ensures a.children[i] == b.children[i] {
      forall k ensures Lookup(a.children[i], k) == Lookup(b.children[i], k) {
        assert ([i] + k)[1..] == k;
        assert Lookup(a, [i] + k) == Lookup(b, [i] + k);
      }
      CanonicalUnique(a.children[i], b.children[i]);
    }
    assert a.children == b.children;
  }
}
