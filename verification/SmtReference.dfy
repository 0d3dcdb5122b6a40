/** The root of the sparse tree as a function of the map alone, number by number: what `set` keeps up to date
    step by step is this. */
module SmtReference {
  import opened Wrappers
  import opened Arithmetic
  import opened SmtKeys
  import opened SmtTree
  import opened SmtUpdate
  import opened SmtWords

  function ShiftedRight(x: nat, s: nat): nat {
    DivMod(x, Pow2(s));
    x / Pow2(s)
  }

  /** Bit n of a key's path is bit n / 4 of limb n % 4. */
  predicate KeyBit(k: Key, n: nat) {
    ShiftedRight(k[n % 4], n / 4) % 2 == 1
  }

  /** A leaf at depth n: the limbs of the key without the bits used above, and the digest of the eight 32-bit limbs
      of the value. */
  ghost predicate IsLeafAt(d: Digest, k: Key, v: Word, n: nat) {
    && d.Of? && d.node.LeafNode? && d.node.valueHash.Of? && d.node.valueHash.node.ValueNode?
    && (forall j: nat :: j < 4 ==> d.node.rem[j] == ShiftedRight(k[j], n / 4 + if j < n % 4 then 1 else 0))
    && |d.node.valueHash.node.limbs| == 8
    && (forall i: nat :: i < 8 ==> d.node.valueHash.node.limbs[i] == ShiftedRight(v, 32 * i) % 0x1_0000_0000)
  }

  /** The entries whose keys have the given bit at place n of their paths. */
  function Half(kv: map<Key, Word>, n: nat, b: bool): (h: map<Key, Word>)
    ensures h.Keys <= kv.Keys
  {
    map k | k in kv && KeyBit(k, n) == b :: kv[k]
  }

  /** The digest of a map whose keys agree on their first n path bits: `Zero` for no key, a leaf for one, and for more
      the node over the digests of the two halves, the one for bit 0 on the left. */
  ghost predicate IsRootOf(d: Digest, kv: map<Key, Word>, n: nat)
    decreases d
  {
    if kv == map[] then d == Zero
    else if exists k :: kv.Keys == {k} then forall k :: kv.Keys == {k} ==> IsLeafAt(d, k, kv[k], n)
    else
      && d.Of? && d.node.Internal?
      && IsRootOf(d.node.left, Half(kv, n, false), n + 1)
      && IsRootOf(d.node.right, Half(kv, n, true), n + 1)
  }

  // ---------------------------------------------------------------------------------------------
  // It determines the digest
  // ---------------------------------------------------------------------------------------------

  lemma LeafIsDetermined(a: Digest, b: Digest, k: Key, v: Word, n: nat)
    requires IsLeafAt(a, k, v, n) && IsLeafAt(b, k, v, n)
    ensures a == b
  {
    assert a.node.rem == b.node.rem by {
      forall j: nat | j < 4 ensures a.node.rem[j] == b.node.rem[j] { }
    }
    assert a.node.valueHash.node.limbs == b.node.valueHash.node.limbs;
  }

  /** At most one digest is the root of a map. */
  lemma {:induction false} RootIsDetermined(a: Digest, b: Digest, kv: map<Key, Word>, n: nat)
    requires IsRootOf(a, kv, n) && IsRootOf(b, kv, n)
    ensures a == b
    decreases a
  {
    if kv != map[] {
      if k :| kv.Keys == {k} {
        LeafIsDetermined(a, b, k, kv[k], n);
      } else {
        RootIsDetermined(a.node.left, b.node.left, Half(kv, n, false), n + 1);
        RootIsDetermined(a.node.right, b.node.right, Half(kv, n, true), n + 1);
      }
    }
  }

  // ---------------------------------------------------------------------------------------------
  // The canonical tree is it
  // ---------------------------------------------------------------------------------------------

  lemma LeafDigestIs(k: Key, v: Word, n: nat)
    requires n <= MAX_DEPTH
    ensures IsLeafAt(LeafDigest(k, v, n), k, v, n)
  {
    var d := LeafDigest(k, v, n);
    LimbsOfValue(v);
    Pow2Of32();
    forall j: nat | j < 4 ensures d.node.rem[j] == ShiftedRight(k[j], n / 4 + if j < n % 4 then 1 else 0) {
      RestBits(k, n, j, 0);
    }
    forall i: nat | i < 8 ensures d.node.valueHash.node.limbs[i] == ShiftedRight(v, 32 * i) % 0x1_0000_0000 { }
  }

  lemma KeyBitIs(k: Key, n: nat)
    requires n < 256
    ensures KeyBit(k, n) == Split(k)[n]
  {
    PathBit(k, n / 4, n % 4);
    assert 4 * (n / 4) + n % 4 == n;
  }

  /** The tree below the path holds exactly the entries of the map. */
  ghost predicate Agrees(d: Digest, path: Bits, kv: map<Key, Word>) {
    && (forall k :: k in kv ==> On(path, k) && kv[k] != 0)
    && (forall k :: On(path, k) ==> Content(d, |path|, k) == if k in kv then kv[k] else 0)
  }

  lemma HalfAgrees(d: Digest, path: Bits, kv: map<Key, Word>, b: bool)
    requires d.Of? && d.node.Internal? && |path| < MAX_DEPTH && Agrees(d, path, kv)
    ensures Agrees(Child(d, b), path + [b], Half(kv, |path|, b))
  {
    var h := Half(kv, |path|, b);
    forall k | k in h ensures On(path + [b], k) && h[k] != 0 {
      KeyBitIs(k, |path|);
      OnChild(path, b, k);
    }
    forall k | On(path + [b], k) ensures Content(Child(d, b), |path| + 1, k) == if k in h then h[k] else 0 {
      OnChild(path, b, k);
      KeyBitIs(k, |path|);
      FromChild(d, path, b, k);
    }
  }

  lemma OneEntry(d: Digest, path: Bits, kv: map<Key, Word>, k: Key, v: Word)
    requires Agrees(d, path, kv) && IsLeafOf(d, path, k, v)
    ensures kv == map[k := v]
  {
    assert On(path, k);
    LeafContent(d, path, k, v, k);
    forall q | q in kv ensures q == k { LeafContent(d, path, k, v, q); }
    assert kv.Keys == {k};
  }

  lemma LeafIsRoot(d: Digest, path: Bits, kv: map<Key, Word>)
    requires Canonical(d, path) && Agrees(d, path, kv) && d.Of? && d.node.LeafNode?
    ensures IsRootOf(d, kv, |path|)
  {
    var k, v :| IsLeafOf(d, path, k, v);
    OneEntry(d, path, kv, k, v);
    LeafDigestIs(k, v, |path|);
    assert kv.Keys == {k};
  }

  lemma NoEntry(path: Bits, kv: map<Key, Word>)
    requires Agrees(Zero, path, kv)
    ensures kv == map[]
  {
    forall k ensures k !in kv { assert On(path, k) ==> Content(Zero, |path|, k) == 0; }
  }

  lemma TwoEntries(d: Digest, path: Bits, kv: map<Key, Word>)
    requires Canonical(d, path) && d.Of? && d.node.Internal? && Agrees(d, path, kv)
    ensures kv != map[] && !exists k :: kv.Keys == {k}
  {
    var k1, k2 := TwoKeys(d, path);
    assert k1 in kv.Keys && k2 in kv.Keys;
  }

  lemma {:induction false} CanonicalIsRoot(d: Digest, path: Bits, kv: map<Key, Word>)
    requires Canonical(d, path) && Agrees(d, path, kv)
    ensures IsRootOf(d, kv, |path|)
    decreases d
  {
    if d == Zero {
      NoEntry(path, kv);
    } else if d.node.LeafNode? {
      LeafIsRoot(d, path, kv);
    } else {
      TwoEntries(d, path, kv);
      HalfAgrees(d, path, kv, false);
      HalfAgrees(d, path, kv, true);
      CanonicalIsRoot(d.node.left, path + [false], Half(kv, |path|, false));
      CanonicalIsRoot(d.node.right, path + [true], Half(kv, |path|, true));
    }
  }

  /** The root that the tree keeps is that of its map. */
  lemma RootIs(root: Digest, kv: map<Key, Word>)
    requires Represents(root, kv)
    ensures IsRootOf(root, kv, 0)
  {
    CanonicalIsRoot(root, [], kv);
  }
}
