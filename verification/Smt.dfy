/** The sparse Merkle tree object: a node store, the map it shadows, and the root. */
module Smt {
  import opened Wrappers
  import opened SmtKeys
  import opened SmtTree
  import opened SmtEdit
  import opened SmtUpdate
  import opened SmtReference

  /** Everything reachable from d can be fetched. */
  ghost predicate Stored(d: Digest, keys: set<Digest>)
    decreases d
  {
    d == Zero ||
    (d.Of? && d in keys &&
     match d.node
     case Internal(l, r) => Stored(l, keys) && Stored(r, keys)
     case LeafNode(_, vh) => vh in keys && vh.Of? && vh.node.ValueNode?
     case ValueNode(_) => true)
  }

  lemma {:induction false} StoredGrows(d: Digest, keys: set<Digest>, more: set<Digest>)
    requires Stored(d, keys) && keys <= more
    ensures Stored(d, more)
    decreases d
  {
    if d.Of? && d.node.Internal? {
      StoredGrows(d.node.left, keys, more);
      StoredGrows(d.node.right, keys, more);
    }
  }

  lemma {:induction false} StoredAt(t: Digest, bits: Bits, i: nat, n: nat, keys: set<Digest>)
    requires PathTo(t, bits, i, n) && Stored(t, keys)
    ensures Stored(At(t, bits, i, n), keys)
    decreases n - i
  {
    if i < n { StoredAt(Child(t, bits[i]), bits, i + 1, n, keys); }
  }

  /** No two keys agree on their first MAX_DEPTH path bits. */
  ghost predicate PartEarly(keys: set<Key>) {
    forall a, b :: a in keys && b in keys && a != b ==> Split(a)[..MAX_DEPTH] != Split(b)[..MAX_DEPTH]
  }

  /** The slot of a node that is its only one in use, or -1. */
  function UniqueSibling(node: SNode): int {
    match node
    case Internal(l, r) => if l != Zero && r == Zero then 0 else if l == Zero && r != Zero then 1 else -1
    case _ => -1
  }

  /** Digests map to the nodes they are digests of. */
  ghost predicate DbSound(db: map<Digest, SNode>) {
    forall d :: d in db ==> d == Of(db[d])
  }

  /** The node at depth i of the key's path. */
  ghost predicate OnPath(root: Digest, k: Key, i: nat, node: SNode) {
    i < 256 && PathTo(root, Split(k), 0, i) && At(root, Split(k), 0, i) == Of(node)
  }

  /** The node at depth `level` of the path, with x in the key's slot. */
  ghost predicate SlotHolds(root: Digest, k: Key, path: seq<SNode>, level: nat, x: Digest)
    requires level < MAX_DEPTH && level < |path|
  {
    && PathTo(root, Split(k), 0, level)
    && var p := At(root, Split(k), 0, level);
    && p.Of? && p.node.Internal? && path[level] == WithChild(p.node, Split(k)[level], x)
  }

  /** Ready for the last loop: the nodes above depth `level` are those on the path, and the node at
      depth `level` already has x in the key's slot. */
  ghost predicate ReadyToRehash(root: Digest, k: Key, path: seq<SNode>, level: int, start: Digest, x: Digest) {
    && -1 <= level < MAX_DEPTH && |path| == level + 1 && PathTo(root, Split(k), 0, level + 1)
    && (level < 0 ==> start == x)
    && (forall i: nat :: i < level ==> OnPath(root, k, i, path[i]))
    && (level >= 0 ==> SlotHolds(root, k, path, level, x))
  }

  /** The same in the middle of that loop, when nodes below are still in the list. */
  ghost predicate Rehashing(root: Digest, k: Key, path: seq<SNode>, level: int, start: Digest, x: Digest) {
    && -1 <= level < MAX_DEPTH && |path| > level && PathTo(root, Split(k), 0, level + 1)
    && (level < 0 ==> start == x)
    && (forall i: nat :: i < level ==> OnPath(root, k, i, path[i]))
    && (level >= 0 ==> SlotHolds(root, k, path, level, x))
  }

  /** One turn of that loop: the node with x in its slot goes into its own parent's slot. */
  lemma RehashStep(root: Digest, k: Key, path: seq<SNode>, level: nat, start: Digest, x: Digest)
    requires Rehashing(root, k, path, level, start, x)
    ensures var y := Of(path[level]);
      && PathTo(root, Split(k), 0, level)
      && ReplaceAt(root, Split(k), 0, level + 1, x) == ReplaceAt(root, Split(k), 0, level, y)
      && (level > 0 ==> path[level - 1].Internal?)
      && Rehashing(root, k, if level > 0 then path[level - 1 := WithChild(path[level - 1], Split(k)[level - 1], y)] else path,
                   level - 1, y, y)
  {
    ReplaceStep(root, Split(k), 0, level + 1, x);
    if level > 0 {
      PathShorter(root, Split(k), 0, level);
      assert OnPath(root, k, level - 1, path[level - 1]);
    }
  }

  /** The changed node can be stored: both its children are. */
  lemma SlotStored(root: Digest, k: Key, path: seq<SNode>, level: nat, x: Digest, before: set<Digest>, keys: set<Digest>)
    requires level < MAX_DEPTH && level < |path| && SlotHolds(root, k, path, level, x)
    requires Stored(root, before) && before <= keys && Stored(x, keys)
    ensures Stored(Of(path[level]), keys + {Of(path[level])})
  {
    StoredAt(root, Split(k), 0, level, before);
    var p := At(root, Split(k), 0, level);
    var more := keys + {Of(path[level])};
    StoredGrows(p.node.left, before, more);
    StoredGrows(p.node.right, before, more);
    StoredGrows(x, keys, more);
  }

  class SmtState {
    var db: map<Digest, SNode>
    var kvStore: map<Key, Word>
    var root: Digest

    /** The store holds the whole tree. */
    ghost predicate StoreValid()
      reads this
    {
      DbSound(db) && Stored(root, db.Keys)
    }

    /** The tree is the canonical tree of kvStore. */
    ghost predicate Valid()
      reads this
    {
      StoreValid() && Represents(root, kvStore)
    }

    constructor ()
      ensures Valid() && kvStore == map[] && root == Zero
    {
      db, kvStore, root := map[], map[], Zero;
    }

    method Hash0(node: SNode) returns (d: Digest)
      requires !node.LeafNode?
      modifies this`db
      ensures d == Of(node) && db == old(db)[d := node]
    {
      d := Of(node);
      db := db[d := node];
    }

    method HashKeyHash(k: Key, valueHash: Digest) returns (d: Digest)
      modifies this`db
      ensures d == Of(LeafNode(k, valueHash)) && db == old(db)[d := LeafNode(k, valueHash)]
    {
      d := Of(LeafNode(k, valueHash));
      db := db[d := LeafNode(k, valueHash)];
    }

    /** Follows the key down to a leaf or an empty slot. */
    method Walk(k: Key, ghost kv: map<Key, Word>) returns (siblings: seq<SNode>, level: nat, r: Digest, accKey: Bits)
      requires StoreValid() && Represents(root, kv)
      ensures Reaches(root, k, level, r) && accKey == Split(k)[..level]
      ensures r == Zero || (r.Of? && r.node.LeafNode?)
      ensures |siblings| == level + if r == Zero then 0 else 1
      ensures forall i: nat :: i < |siblings| ==> OnPath(root, k, i, siblings[i])
    {
      r := root;
      level, accKey, siblings := 0, [], [];
      var keys := Split(k);
      Root(keys);
      while r != Zero
        invariant Reaches(root, k, level, r) && accKey == keys[..level]
        invariant |siblings| == level && forall i: nat :: i < level ==> OnPath(root, k, i, siblings[i])
        decreases r
      {
        CanonicalBelow(root, kv, k, level, r);
        StoredAt(root, keys, 0, level, db.Keys);
        var sibling := db[r];
        siblings := siblings + [sibling];
        if sibling.LeafNode? { break; }
        var b := keys[level];
        PathExtends(root, keys, 0, level);
        PathBit(keys, level);
        r := if b then sibling.right else sibling.left;
        accKey := accKey + [b];
        level := level + 1;
      }
    }

    /** The value of a key, or 0 when the walk ends at the leaf of another key. When it ends at an
        empty slot the code does not return; `None` stands for that. */
    method Get(k: Key) returns (v: Option<nat>)
      requires Valid()
      ensures v.Some? ==> v.value == if k in kvStore then kvStore[k] else 0
      ensures k in kvStore ==> v.Some?
      ensures v.None? <==> EndsEmpty(root, k, 0)
    {
      var siblings, level, r, accKey := Walk(k, kvStore);
      EndsEmptyAt(root, k, 0, level, r);
      if r == Zero {
        NothingThere(root, kvStore, k, level, r);
        return None;
      }
      ghost var q, w := FoundLeaf(root, kvStore, k, level, r);
      StoredAt(root, Split(k), 0, level, db.Keys);
      var leaf := siblings[level];
      var valueNode := db[leaf.valueHash];
      var foundKey := Join(accKey, leaf.rem);
      if foundKey == k {
        assert Limbs2F(valueNode.limbs) == kvStore[k];   // the code's own assertion
        v := Some(Limbs2F(valueNode.limbs));
      } else {
        assert k !in kvStore;                            // the code's own assertion
        v := Some(0);
      }
    }

    /** The last loop of `set`: hashes the changed nodes from depth `level` up to the root. */
    method Rehash(k: Key, path: seq<SNode>, top: int, start: Digest, ghost x: Digest)
      requires DbSound(db) && Stored(root, db.Keys) && Stored(x, db.Keys)
      requires ReadyToRehash(root, k, path, top, start, x)
      modifies this`db, this`root
      ensures DbSound(db) && Stored(root, db.Keys)
      ensures root == ReplaceAt(old(root), Split(k), 0, top + 1, x)
    {
      var keys := Split(k);
      var siblings, level, newRoot := path, top, start;
      ghost var cur := x;
      while level >= 0
        invariant -1 <= level <= top && root == old(root)
        invariant DbSound(db) && old(db.Keys) <= db.Keys && Stored(cur, db.Keys)
        invariant Rehashing(root, k, siblings, level, newRoot, cur)
        invariant ReplaceAt(root, keys, 0, level + 1, cur) == ReplaceAt(root, keys, 0, top + 1, x)
        decreases level
      {
        RehashStep(root, k, siblings, level, newRoot, cur);
        newRoot := StoreSlot(k, siblings, level, cur, old(db.Keys));
        cur := newRoot;
        level := level - 1;
        if level >= 0 {
          siblings := siblings[level := WithChild(siblings[level], keys[level], newRoot)];
        }
      }
      root := newRoot;
    }

    /** Hashes and stores the node at depth `level`, which has x in the key's slot. */
    method StoreSlot(k: Key, path: seq<SNode>, level: nat, ghost x: Digest, ghost before: set<Digest>) returns (y: Digest)
      requires level < MAX_DEPTH && level < |path| && SlotHolds(root, k, path, level, x)
      requires DbSound(db) && Stored(root, before) && before <= db.Keys && Stored(x, db.Keys)
      modifies this`db
      ensures y == Of(path[level]) && DbSound(db) && old(db.Keys) <= db.Keys && Stored(y, db.Keys)
    {
      SlotStored(root, k, path, level, x, before, db.Keys);
      y := Of(path[level]);
      db := db[y := path[level]];
      assert db.Keys == old(db.Keys) + {y};
    }

    /** A leaf with its value node, as both are stored. */
    method NewLeaf(rem: Key, value: Word) returns (d: Digest)
      requires DbSound(db)
      modifies this`db
      ensures DbSound(db) && old(db.Keys) <= db.Keys
      ensures d == Of(LeafNode(rem, ValueDigest(value))) && Stored(d, db.Keys)
    {
      var valueHash := Hash0(ValueNode(F2Limbs(value)));
      d := HashKeyHash(rem, valueHash);
    }

    /** The first depth from n on at which two paths part. */
    method ForkPoint(k: Key, found: Key, n: nat) returns (m: nat)
      requires n <= MAX_DEPTH
      requires Split(k)[..n] == Split(found)[..n] && Split(k)[..MAX_DEPTH] != Split(found)[..MAX_DEPTH]
      ensures n <= m < MAX_DEPTH && Split(k)[..m] == Split(found)[..m] && Split(k)[m] != Split(found)[m]
    {
      var keys, foundKeys := Split(k), Split(found);
      m := n;
      while keys[m] == foundKeys[m]
        invariant n <= m < MAX_DEPTH && keys[..m] == foundKeys[..m]
        decreases MAX_DEPTH - m
      {
        PathBit(keys, m);
        PathBit(foundKeys, m);
        m := m + 1;
      }
    }

    /** The chain of internal nodes from a fork at depth m up to depth n. */
    method NewChain(k: Key, newLeaf: Digest, oldLeaf: Digest, n: nat, m: nat) returns (r2: Digest)
      requires DbSound(db) && n <= m < MAX_DEPTH && Stored(newLeaf, db.Keys) && Stored(oldLeaf, db.Keys)
      modifies this`db
      ensures DbSound(db) && old(db.Keys) <= db.Keys
      ensures r2 == ForkChain(k, newLeaf, oldLeaf, n, m) && Stored(r2, db.Keys)
    {
      var keys := Split(k);
      r2 := StoreInternal(if keys[m] then oldLeaf else newLeaf, if keys[m] then newLeaf else oldLeaf);
      var level2: int := m - 1;
      while level2 != n - 1
        invariant n - 1 <= level2 < m && DbSound(db) && old(db.Keys) <= db.Keys && Stored(r2, db.Keys)
        invariant r2 == ForkChain(k, newLeaf, oldLeaf, level2 + 1, m)
      {
        r2 := StoreInternal(if keys[level2] then Zero else r2, if keys[level2] then r2 else Zero);
        level2 := level2 - 1;
      }
    }

    /** Two leaves where there was one, below a chain as long as their paths agree. */
    method NewFork(k: Key, value: Word, found: Key, oldHash: Digest, n: nat, ghost w: Word) returns (r2: Digest, ghost m: nat)
      requires DbSound(db) && n <= MAX_DEPTH && oldHash == ValueDigest(w) && oldHash in db
      requires Split(k)[..n] == Split(found)[..n] && Split(k)[..MAX_DEPTH] != Split(found)[..MAX_DEPTH]
      modifies this`db
      ensures DbSound(db) && old(db.Keys) <= db.Keys
      ensures n <= m < MAX_DEPTH && Split(k)[..m] == Split(found)[..m] && Split(k)[m] != Split(found)[m]
      ensures r2 == ForkChain(k, LeafDigest(k, value, m + 1), LeafDigest(found, w, m + 1), n, m) && Stored(r2, db.Keys)
    {
      var level2 := ForkPoint(k, found, n);
      m := level2;
      var oldLeaf := HashKeyHash(RemoveKeyBits(found, level2 + 1), oldHash);
      ghost var before := db.Keys;
      assert Stored(oldLeaf, before);
      var newLeaf := NewLeaf(RemoveKeyBits(k, level2 + 1), value);
      StoredGrows(oldLeaf, before, db.Keys);
      r2 := NewChain(k, newLeaf, oldLeaf, n, level2);
    }

    method StoreInternal(left: Digest, right: Digest) returns (d: Digest)
      requires DbSound(db) && Stored(left, db.Keys) && Stored(right, db.Keys)
      modifies this`db
      ensures DbSound(db) && old(db.Keys) <= db.Keys
      ensures d == Of(Internal(left, right)) && Stored(d, db.Keys)
    {
      ghost var before := db.Keys;
      d := Hash0(Internal(left, right));
      StoredGrows(left, before, db.Keys);
      StoredGrows(right, before, db.Keys);
    }

    /** How far up a leaf moves that has lost its sibling: to below the first node that has two
        children, or to the root. `path` holds the nodes above the removed leaf, the last one with the
        removed slot cleared. */
    method Climb(k: Key, path: seq<SNode>, n: nat, ghost d: Digest, ghost sibling: Digest) returns (level: int)
      requires 1 <= n <= MAX_DEPTH && Reaches(root, k, n, d) && d != Zero && |path| >= n
      requires forall i: nat :: i < n - 1 ==> OnPath(root, k, i, path[i])
      requires PathTo(root, Split(k), 0, n - 1) && var p := At(root, Split(k), 0, n - 1);
        && p.Of? && p.node.Internal? && path[n - 1] == WithChild(p.node, Split(k)[n - 1], Zero)
        && d == Child(p, Split(k)[n - 1]) && Child(p, !Split(k)[n - 1]) == sibling && sibling != Zero
      ensures -1 <= level < n - 1 && PathTo(root, Split(k), 0, level + 1)
      ensures Lonely(At(root, Split(k), 0, level + 1), Split(k), level + 1, n, sibling)
      ensures level >= 0 ==> PathTo(root, Split(k), 0, level) && var p := At(root, Split(k), 0, level);
        p.Of? && p.node.Internal? && Child(p, !Split(k)[level]) != Zero
    {
      ghost var keys := Split(k);
      level := n - 1;
      var uKey := UniqueSibling(path[level]);
      while uKey >= 0 && level >= 0
        invariant -1 <= level < n && (level == n - 1 ==> uKey >= 0)
        invariant uKey >= 0 && level >= 0 ==> PathTo(root, keys, 0, level) && Lonely(At(root, keys, 0, level), keys, level, n, sibling)
        invariant level < n - 1 ==>
          PathTo(root, keys, 0, level + 1) && Lonely(At(root, keys, 0, level + 1), keys, level + 1, n, sibling)
        invariant uKey < 0 && level >= 0 ==> PathTo(root, keys, 0, level) && var p := At(root, keys, 0, level);
          p.Of? && p.node.Internal? && Child(p, !keys[level]) != Zero
        decreases level
      {
        level := level - 1;
        if level >= 0 {
          uKey := UniqueSibling(path[level]);
          PathShorter(root, keys, 0, level + 1);
        }
      }
    }

    /** What hangs where the value is set: a new leaf, or a fork where another key's leaf was. */
    method NewSubtree(k: Key, value: Word, n: nat, r: Digest, accKey: Bits, ghost kv: map<Key, Word>) returns (x: Digest)
      requires StoreValid() && Represents(root, kv) && value != 0 && PartEarly(kv.Keys + {k})
      requires Reaches(root, k, n, r) && accKey == Split(k)[..n] && (r == Zero || (r.Of? && r.node.LeafNode?))
      modifies this`db
      ensures DbSound(db) && old(db.Keys) <= db.Keys && Stored(x, db.Keys)
      ensures Represents(ReplaceAt(root, Split(k), 0, n, x), kv[k := value])
    {
      if r == Zero {
        x := NewLeaf(RemoveKeyBits(k, n), value);
        PutLeaf(root, kv, k, value, n, r);
        return;
      }
      StoredAt(root, Split(k), 0, n, db.Keys);
      ghost var q, w := FoundLeaf(root, kv, k, n, r);
      var leaf := db[r];
      var found := Join(accKey, leaf.rem);
      if found == k {
        x := NewLeaf(leaf.rem, value);
        PutLeaf(root, kv, k, value, n, r);
      } else {
        LeafContent(r, Split(k)[..n], q, w, q);
        ContentBelow(root, kv, k, n, r, q);
        assert Split(q)[..n] == Split(k)[..n];
        ghost var m;
        x, m := NewFork(k, value, found, leaf.valueHash, n, w);
        PutFork(root, kv, k, value, n, r, q, w, m);
      }
    }

    /** The sibling of a removed leaf is a leaf itself: it moves up. */
    method MoveUp(k: Key, cleared: seq<SNode>, n: nat, r: Digest, other: Digest, side: Bits, ghost kv: map<Key, Word>, ghost w: Word)
        returns (path': seq<SNode>, level: int, newRoot: Digest)
      requires StoreValid() && Represents(root, kv) && n > 0
      requires Reaches(root, k, n, r) && r != Zero && IsLeafOf(r, Split(k)[..n], k, w)
      requires |cleared| >= n && forall i: nat :: i < n - 1 ==> OnPath(root, k, i, cleared[i])
      requires SlotHolds(root, k, cleared, n - 1, Zero) && r == Child(At(root, Split(k), 0, n - 1), Split(k)[n - 1])
      requires other == Child(At(root, Split(k), 0, n - 1), !Split(k)[n - 1]) && other in db && other.Of? && other.node.LeafNode?
      requires side == Split(k)[..n - 1] + [!Split(k)[n - 1]] && Canonical(other, side)
      requires other.node.valueHash in db
      modifies this`db
      ensures DbSound(db) && old(db.Keys) <= db.Keys && Stored(newRoot, db.Keys)
      ensures ReadyToRehash(root, k, path', level, newRoot, newRoot)
      ensures Represents(ReplaceAt(root, Split(k), 0, level + 1, newRoot), kv - {k})
    {
      var node := db[other];
      ghost var q, u := SiblingLeaf(other, side);
      var insKey := Join(side, node.rem);
      level := Climb(k, cleared, n, r, other);
      Lifted(root, kv, k, n, r, w, level + 1, other, side, q, u);
      newRoot := HashKeyHash(RemoveKeyBits(insKey, level + 1), node.valueHash);
      path' := FillSlot(k, cleared, level, newRoot);
    }

    /** The nodes down to depth `level`, the last one with x in the key's slot. */
    method FillSlot(k: Key, path: seq<SNode>, level: int, x: Digest) returns (path': seq<SNode>)
      requires -1 <= level < MAX_DEPTH && |path| > level && PathTo(root, Split(k), 0, level + 1)
      requires forall i: nat :: i <= level ==> OnPath(root, k, i, path[i])
      ensures ReadyToRehash(root, k, path', level, x, x)
    {
      path' := path[..level + 1];
      if level >= 0 {
        PathShorter(root, Split(k), 0, level + 1);
        path' := path'[level := WithChild(path'[level], Split(k)[level], x)];
      }
    }

    /** Takes the leaf of a key out of the tree. */
    method Unlink(k: Key, path: seq<SNode>, n: nat, r: Digest, accKey: Bits, ghost kv: map<Key, Word>, ghost w: Word)
        returns (path': seq<SNode>, level: int, newRoot: Digest, ghost x: Digest)
      requires StoreValid() && Represents(root, kv) && n > 0
      requires Reaches(root, k, n, r) && r != Zero && IsLeafOf(r, Split(k)[..n], k, w)
      requires |path| == n + 1 && forall i: nat :: i < n ==> OnPath(root, k, i, path[i])
      requires accKey == Split(k)[..n - 1]
      modifies this`db
      ensures DbSound(db) && old(db.Keys) <= db.Keys && Stored(x, db.Keys)
      ensures ReadyToRehash(root, k, path', level, newRoot, x)
      ensures Represents(ReplaceAt(root, Split(k), 0, level + 1, x), kv - {k})
    {
      var keys := Split(k);
      level, newRoot := n - 1, root;
      Parent(root, kv, k, n, r);
      ghost var p := At(root, keys, 0, n - 1);
      CanonicalBelow(root, kv, k, n - 1, p);
      StoredAt(root, keys, 0, n - 1, db.Keys);
      var siblings := path[level := WithChild(path[level], keys[level], Zero)];
      var uKey := UniqueSibling(siblings[level]);
      assert uKey == if keys[level] then 0 else 1;   // so the code does not panic here
      var other := if uKey == 1 then siblings[level].right else siblings[level].left;
      assert other == Child(p, !keys[level]);
      var node := db[other];
      if node.LeafNode? {
        path', level, newRoot := MoveUp(k, siblings, n, r, other, accKey + [uKey != 0], kv, w);
        x := newRoot;
      } else {
        x := Zero;
        DropLeaf(root, kv, k, n, r, w);
        path' := siblings[..level + 1];
      }
    }

    /** Puts x at the end of the walk: in the parent's slot, or at the root when there is no parent. */
    method PlaceAbove(k: Key, path: seq<SNode>, n: nat, x: Digest) returns (path': seq<SNode>, newRoot: Digest)
      requires n <= MAX_DEPTH && |path| >= n && PathTo(root, Split(k), 0, n)
      requires forall i: nat :: i < n ==> OnPath(root, k, i, path[i])
      ensures ReadyToRehash(root, k, path', n - 1, newRoot, x)
    {
      path', newRoot := path, root;
      if n > 0 {
        PathShorter(root, Split(k), 0, n);
        path' := path'[n - 1 := WithChild(path'[n - 1], Split(k)[n - 1], x)];
      } else {
        newRoot := x;
      }
      path' := path'[..n];
    }

    /** Nothing is found for a value 0: the nodes on the path are hashed again, unchanged. */
    method LeaveAsIs(k: Key, path: seq<SNode>, n: nat, r: Digest) returns (path': seq<SNode>)
      requires n <= MAX_DEPTH && |path| >= n && Reaches(root, k, n, r)
      requires forall i: nat :: i < n ==> OnPath(root, k, i, path[i])
      ensures ReadyToRehash(root, k, path', n - 1, root, r)
    {
      if n > 0 { PathShorter(root, Split(k), 0, n); }
      path' := path[..n];
    }

    /** Takes a key out, if it is there. */
    method Clear(k: Key, path: seq<SNode>, n: nat, r: Digest, accKey: Bits, ghost kv: map<Key, Word>)
        returns (path': seq<SNode>, level: int, newRoot: Digest, ghost x: Digest)
      requires StoreValid() && Represents(root, kv)
      requires Reaches(root, k, n, r) && accKey == Split(k)[..n] && (r == Zero || (r.Of? && r.node.LeafNode?))
      requires |path| == n + if r == Zero then 0 else 1
      requires forall i: nat :: i < |path| ==> OnPath(root, k, i, path[i])
      modifies this`db
      ensures DbSound(db) && old(db.Keys) <= db.Keys && Stored(x, db.Keys)
      ensures ReadyToRehash(root, k, path', level, newRoot, x)
      ensures Represents(ReplaceAt(root, Split(k), 0, level + 1, x), kv - {k})
    {
      if r != Zero {
        ghost var q, w := FoundLeaf(root, kv, k, n, r);
        if Join(accKey, r.node.rem) == k {
          path', level, newRoot, x := ClearLeaf(k, path, n, r, accKey, kv, w);
          return;
        }
      }
      NothingThere(root, kv, k, n, r);
      path', level, newRoot, x := KeepAsIs(k, path, n, r, kv);
    }

    /** The key's leaf is at the end of the walk. */
    method ClearLeaf(k: Key, path: seq<SNode>, n: nat, r: Digest, accKey: Bits, ghost kv: map<Key, Word>, ghost w: Word)
        returns (path': seq<SNode>, level: int, newRoot: Digest, ghost x: Digest)
      requires StoreValid() && Represents(root, kv)
      requires Reaches(root, k, n, r) && accKey == Split(k)[..n] && r != Zero && IsLeafOf(r, Split(k)[..n], k, w)
      requires |path| == n + 1 && forall i: nat :: i < |path| ==> OnPath(root, k, i, path[i])
      modifies this`db
      ensures DbSound(db) && old(db.Keys) <= db.Keys && Stored(x, db.Keys)
      ensures ReadyToRehash(root, k, path', level, newRoot, x)
      ensures Represents(ReplaceAt(root, Split(k), 0, level + 1, x), kv - {k})
    {
      if n > 0 {
        assert accKey[..n - 1] == Split(k)[..n - 1];
        path', level, newRoot, x := Unlink(k, path, n, r, accKey[..n - 1], kv, w);
      } else {
        assert Split(k)[..0] == [];
        DropRoot(root, kv, k, w);
        path', level, newRoot, x := [], -1, Zero, Zero;
      }
    }

    /** The key is not there: what is at the end of the walk stays. */
    method KeepAsIs(k: Key, path: seq<SNode>, n: nat, r: Digest, ghost kv: map<Key, Word>)
        returns (path': seq<SNode>, level: int, newRoot: Digest, ghost x: Digest)
      requires StoreValid() && Represents(root, kv) && kv - {k} == kv && Reaches(root, k, n, r)
      requires |path| >= n && forall i: nat :: i < n ==> OnPath(root, k, i, path[i])
      ensures Stored(x, db.Keys) && ReadyToRehash(root, k, path', level, newRoot, x)
      ensures Represents(ReplaceAt(root, Split(k), 0, level + 1, x), kv - {k})
    {
      StoredAt(root, Split(k), 0, n, db.Keys);
      ReplaceSame(root, Split(k), 0, n);
      path' := LeaveAsIs(k, path, n, r);
      level, newRoot, x := n - 1, root, r;
    }

    /** Puts a value in. */
    method Put(k: Key, value: Word, path: seq<SNode>, n: nat, r: Digest, accKey: Bits, ghost kv: map<Key, Word>)
        returns (path': seq<SNode>, level: int, newRoot: Digest, ghost x: Digest)
      requires StoreValid() && Represents(root, kv) && value != 0 && PartEarly(kv.Keys + {k})
      requires Reaches(root, k, n, r) && accKey == Split(k)[..n] && (r == Zero || (r.Of? && r.node.LeafNode?))
      requires |path| >= n && forall i: nat :: i < |path| ==> OnPath(root, k, i, path[i])
      modifies this`db
      ensures DbSound(db) && old(db.Keys) <= db.Keys && Stored(x, db.Keys)
      ensures ReadyToRehash(root, k, path', level, newRoot, x)
      ensures Represents(ReplaceAt(root, Split(k), 0, level + 1, x), kv[k := value])
    {
      var sub := NewSubtree(k, value, n, r, accKey, kv);
      path', newRoot := PlaceAbove(k, path, n, sub);
      level, x := n - 1, sub;
    }

    /** Sets the value of a key; the value 0 takes the key out. The tree holds kv, which `Delete` has
        already taken the key from in the shadow map. */
    method Set(k: Key, value: Word, ghost kv: map<Key, Word>)
      requires StoreValid() && Represents(root, kv)
      requires kvStore == kv || (value == 0 && kvStore == kv - {k})
      requires value != 0 ==> PartEarly(kv.Keys + {k})
      modifies this
      ensures Valid()
      ensures kvStore == if value == 0 then kv - {k} else kv[k := value]
      ensures IsRootOf(root, kvStore, 0)
    {
      kvStore := if value == 0 then kvStore - {k} else kvStore[k := value];
      assert kv - {k} - {k} == kv - {k};
      var siblings, n, r, accKey := Walk(k, kv);
      SetAt(k, value, siblings, n, r, accKey, kv);
      RootIs(root, kvStore);
    }

    /** The tree after the walk: taking the key out or putting it in, and hashing up to the root. */
    method SetAt(k: Key, value: Word, siblings: seq<SNode>, n: nat, r: Digest, accKey: Bits, ghost kv: map<Key, Word>)
      requires StoreValid() && Represents(root, kv) && (value != 0 ==> PartEarly(kv.Keys + {k}))
      requires Reaches(root, k, n, r) && accKey == Split(k)[..n] && (r == Zero || (r.Of? && r.node.LeafNode?))
      requires |siblings| == n + if r == Zero then 0 else 1
      requires forall i: nat :: i < |siblings| ==> OnPath(root, k, i, siblings[i])
      modifies this`db, this`root
      ensures StoreValid() && Represents(root, if value == 0 then kv - {k} else kv[k := value])
    {
      var path: seq<SNode>, level: int, newRoot: Digest;
      ghost var x: Digest;
      if value == 0 {
        path, level, newRoot, x := Clear(k, siblings, n, r, accKey, kv);
      } else {
        path, level, newRoot, x := Put(k, value, siblings, n, r, accKey, kv);
      }
      StoredGrows(root, old(db.Keys), db.Keys);
      Rehash(k, path, level, newRoot, x);
    }

    method Delete(k: Key)
      requires Valid()
      modifies this
      ensures Valid() && kvStore == old(kvStore) - {k} && IsRootOf(root, kvStore, 0)
    {
      ghost var kv := kvStore;
      kvStore := kvStore - {k};
      Set(k, 0, kv);
    }
  }

  lemma SiblingLeaf(d: Digest, side: Bits) returns (q: Key, u: Word)
    requires Canonical(d, side) && d.Of? && d.node.LeafNode?
    ensures IsLeafOf(d, side, q, u) && Join(side, d.node.rem) == q && d.node.valueHash == ValueDigest(u)
  {
    var q', u' :| IsLeafOf(d, side, q', u');
    q, u := q', u';
    JoinSplit(q, |side|);
    assert Split(q)[..|side|] == side;
  }

  lemma LiftReady(root: Digest, k: Key, n: nat, d: Digest, w: Word, c: nat, sibling: Digest, q: Key, u: Word)
    requires Reaches(root, k, n, d) && c < n && PathTo(root, Split(k), 0, c)
    requires Lonely(At(root, Split(k), 0, c), Split(k), c, n, sibling)
    requires IsLeafOf(d, Split(k)[..n], k, w) && IsLeafOf(sibling, Split(k)[..n - 1] + [!Split(k)[n - 1]], q, u)
    ensures LonelyPair(root, k, n, d, w, c, sibling, q, u)
  {
    PathCompose(root, Split(k), 0, c, n);
  }

  /** The sibling leaf at its new depth makes the tree of the map without the key. */
  lemma Lifted(root: Digest, kv: map<Key, Word>, k: Key, n: nat, d: Digest, w: Word, c: nat, sibling: Digest, side: Bits, q: Key, u: Word)
    requires Represents(root, kv) && Reaches(root, k, n, d) && c < n && PathTo(root, Split(k), 0, c)
    requires Lonely(At(root, Split(k), 0, c), Split(k), c, n, sibling)
    requires IsLeafOf(d, Split(k)[..n], k, w) && side == Split(k)[..n - 1] + [!Split(k)[n - 1]] && IsLeafOf(sibling, side, q, u)
    requires c > 0 ==> PathTo(root, Split(k), 0, c - 1) && var p := At(root, Split(k), 0, c - 1);
      p.Of? && p.node.Internal? && Child(p, !Split(k)[c - 1]) != Zero
    ensures Represents(ReplaceAt(root, Split(k), 0, c, LeafDigest(q, u, c)), kv - {k})
  {
    LiftReady(root, k, n, d, w, c, sibling, q, u);
    LiftLeaf(root, kv, k, n, d, w, c, sibling, q, u);
  }

  /** The walk for the key ends at an empty slot. */
  predicate EndsEmpty(d: Digest, k: Key, n: nat)
    decreases d
  {
    if d.Of? && d.node.Internal? && n < 256 then EndsEmpty(Child(d, Split(k)[n]), k, n + 1) else d == Zero
  }

  lemma {:induction false} EndsEmptyAt(t: Digest, k: Key, i: nat, n: nat, d: Digest)
    requires PathTo(t, Split(k), i, n) && At(t, Split(k), i, n) == d && n <= MAX_DEPTH
    requires d == Zero || (d.Of? && d.node.LeafNode?)
    ensures EndsEmpty(t, k, i) <==> d == Zero
    decreases n - i
  {
    if i < n { EndsEmptyAt(Child(t, Split(k)[i]), k, i + 1, n, d); }
  }
}
