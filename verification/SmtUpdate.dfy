/** The six ways in which `set` changes the tree, and that each is the right change of the map. */
module SmtUpdate {
  import opened Wrappers
  import opened SmtKeys
  import opened SmtTree
  import opened SmtEdit

  /** The tree is the canonical tree of the map. */
  ghost predicate Represents(root: Digest, kv: map<Key, Word>) {
    && Canonical(root, [])
    && (forall k :: k in kv ==> kv[k] != 0)
    && (forall k :: Content(root, 0, k) == if k in kv then kv[k] else 0)
  }

  /** The root depends only on the map. */
  lemma RootDeterminedByMap(a: Digest, b: Digest, kv: map<Key, Word>)
    requires Represents(a, kv) && Represents(b, kv)
    ensures a == b
  {
    assert SameContent(a, b, []);
    CanonicalUnique(a, b, []);
  }

  lemma Root(bits: Bits)
    ensures bits[..0] == []
  {
  }

  /** What hangs at depth n on the path of a key. */
  ghost predicate Reaches(root: Digest, k: Key, n: nat, d: Digest) {
    n <= MAX_DEPTH && PathTo(root, Split(k), 0, n) && At(root, Split(k), 0, n) == d
  }

  lemma SamePath(k: Key, p: Key, n: nat)
    requires n <= 256
    ensures Split(p)[..n] == Split(k)[..n] <==> forall m :: 0 <= m < n ==> Split(p)[m] == Split(k)[m]
  {
    if Split(p)[..n] == Split(k)[..n] {
      forall m | 0 <= m < n ensures Split(p)[m] == Split(k)[m] {
        assert Split(p)[m] == Split(p)[..n][m];
      }
    }
  }

  /** Below depth n on the path of k, x holds what the map says. */
  ghost predicate HoldsBelow(x: Digest, k: Key, n: nat, kv: map<Key, Word>)
    requires n <= MAX_DEPTH
  {
    forall q :: Split(q)[..n] == Split(k)[..n] ==> Content(x, n, q) == if q in kv then kv[q] else 0
  }

  /** The maps agree off the path of k. */
  ghost predicate SameOff(kv: map<Key, Word>, kv': map<Key, Word>, k: Key, n: nat)
    requires n <= MAX_DEPTH
  {
    forall q :: Split(q)[..n] != Split(k)[..n] ==> (q in kv' <==> q in kv) && (q in kv ==> kv'[q] == kv[q])
  }

  /** New content from new subtree: enough to look at the keys that follow the path. */
  lemma Replaced(root: Digest, kv: map<Key, Word>, k: Key, n: nat, d: Digest, x: Digest, kv': map<Key, Word>)
    requires Represents(root, kv) && Reaches(root, k, n, d) && Canonical(x, Split(k)[..n])
    requires n > 0 ==> PathTo(root, Split(k), 0, n - 1) && var p := At(root, Split(k), 0, n - 1);
      p.Of? && p.node.Internal? && Leaves(x) + Leaves(Child(p, !Split(k)[n - 1])) >= 2
    requires forall q :: q in kv' ==> kv'[q] != 0
    requires HoldsBelow(x, k, n, kv') && SameOff(kv, kv', k, n)
    ensures Represents(ReplaceAt(root, Split(k), 0, n, x), kv')
  {
    var bits := Split(k);
    Root(bits);
    ReplaceCanonical(root, bits, 0, n, x);
    forall q ensures Content(ReplaceAt(root, bits, 0, n, x), 0, q) == if q in kv' then kv'[q] else 0 {
      ReplaceContent(root, bits, 0, n, x, q);
      SamePath(k, q, n);
    }
  }

  lemma ContentBelow(root: Digest, kv: map<Key, Word>, k: Key, n: nat, d: Digest, q: Key)
    requires Represents(root, kv) && Reaches(root, k, n, d) && Split(q)[..n] == Split(k)[..n]
    ensures Content(d, n, q) == if q in kv then kv[q] else 0
  {
    SamePath(k, q, n);
    ContentAt(root, Split(k), 0, n, q);
  }

  lemma CanonicalBelow(root: Digest, kv: map<Key, Word>, k: Key, n: nat, d: Digest)
    requires Represents(root, kv) && Reaches(root, k, n, d)
    ensures Canonical(d, Split(k)[..n])
  {
    Root(Split(k));
    CanonicalAt(root, Split(k), 0, n);
  }

  /** The parent of a place, and how many leaves it has on the other side. */
  lemma Parent(root: Digest, kv: map<Key, Word>, k: Key, n: nat, d: Digest)
    requires Represents(root, kv) && Reaches(root, k, n, d) && n > 0
    ensures PathTo(root, Split(k), 0, n - 1)
    ensures var p := At(root, Split(k), 0, n - 1);
      && Reaches(root, k, n - 1, p) && p.Of? && p.node.Internal? && d == Child(p, Split(k)[n - 1])
      && Leaves(d) + Leaves(Child(p, !Split(k)[n - 1])) >= 2
  {
    PathShorter(root, Split(k), 0, n);
    CanonicalBelow(root, kv, k, n - 1, At(root, Split(k), 0, n - 1));
  }

  /** A leaf set where there is nothing, or where there is a leaf for the same key. */
  lemma PutLeaf(root: Digest, kv: map<Key, Word>, k: Key, v: Word, n: nat, d: Digest)
    requires Represents(root, kv) && Reaches(root, k, n, d) && v != 0
    requires d == Zero || exists w :: IsLeafOf(d, Split(k)[..n], k, w)
    ensures Represents(ReplaceAt(root, Split(k), 0, n, LeafDigest(k, v, n)), kv[k := v])
  {
    var x := LeafDigest(k, v, n);
    var path := Split(k)[..n];
    assert IsLeafOf(x, path, k, v);
    forall q | Split(q)[..n] == path ensures Content(x, n, q) == if q == k then v else if q in kv then kv[q] else 0 {
      LeafContent(x, path, k, v, q);
      ContentBelow(root, kv, k, n, d, q);
      if d != Zero {
        var w :| IsLeafOf(d, path, k, w);
        LeafContent(d, path, k, w, q);
      }
    }
    if n > 0 { Parent(root, kv, k, n, d); }
    Replaced(root, kv, k, n, d, x, kv[k := v]);
  }

  /** A leaf set where there is a leaf for another key. */
  lemma PutFork(root: Digest, kv: map<Key, Word>, k: Key, v: Word, n: nat, d: Digest, q: Key, w: Word, m: nat)
    requires Represents(root, kv) && Reaches(root, k, n, d) && v != 0 && IsLeafOf(d, Split(k)[..n], q, w)
    requires n <= m < MAX_DEPTH && Split(k)[..m] == Split(q)[..m] && Split(k)[m] != Split(q)[m]
    ensures Represents(ReplaceAt(root, Split(k), 0, n, ForkChain(k, LeafDigest(k, v, m + 1), LeafDigest(q, w, m + 1), n, m)),
                       kv[k := v])
  {
    var x := ForkChain(k, LeafDigest(k, v, m + 1), LeafDigest(q, w, m + 1), n, m);
    var path := Split(k)[..n];
    ForkCanonical(k, v, q, w, n, m);
    assert k != q;
    forall p | Split(p)[..n] == path ensures Content(x, n, p) == if p == k then v else if p in kv then kv[p] else 0 {
      ForkContent(k, v, q, w, n, m, p);
      ContentBelow(root, kv, k, n, d, p);
      LeafContent(d, path, q, w, p);
    }
    if n > 0 { Parent(root, kv, k, n, d); }
    Replaced(root, kv, k, n, d, x, kv[k := v]);
  }

  /** The last leaf removed. */
  lemma DropRoot(root: Digest, kv: map<Key, Word>, k: Key, w: Word)
    requires Represents(root, kv) && IsLeafOf(root, [], k, w)
    ensures Represents(Zero, kv - {k})
  {
    forall q ensures q in kv <==> q == k {
      LeafContent(root, [], k, w, q);
    }
  }

  /** A leaf removed whose sibling is an internal node. */
  lemma DropLeaf(root: Digest, kv: map<Key, Word>, k: Key, n: nat, d: Digest, w: Word)
    requires Represents(root, kv) && Reaches(root, k, n, d) && n > 0 && IsLeafOf(d, Split(k)[..n], k, w)
    requires PathTo(root, Split(k), 0, n - 1)
    requires var p := At(root, Split(k), 0, n - 1);
      p.Of? && p.node.Internal? && Leaves(Child(p, !Split(k)[n - 1])) >= 2
    ensures Represents(ReplaceAt(root, Split(k), 0, n, Zero), kv - {k})
  {
    forall q | Split(q)[..n] == Split(k)[..n] ensures q in kv <==> q == k {
      ContentBelow(root, kv, k, n, d, q);
      LeafContent(d, Split(k)[..n], k, w, q);
    }
    Replaced(root, kv, k, n, d, Zero, kv - {k});
  }

  /** From depth i down there are only two leaves: the one of the path's key at depth n, and its
      sibling, which belongs to key q. */
  ghost predicate Lonely(t: Digest, bits: Bits, i: nat, n: nat, sibling: Digest)
    decreases n - i
  {
    i < n <= |bits| && t.Of? && t.node.Internal? &&
    if i == n - 1 then Child(t, !bits[i]) == sibling
    else Child(t, !bits[i]) == Zero && Lonely(Child(t, bits[i]), bits, i + 1, n, sibling)
  }

  /** At the parent of the two leaves: one is on the key's side, the other on the other. */
  lemma LonelyParent(t: Digest, k: Key, i: nat, d: Digest, w: Word, sibling: Digest, q: Key, u: Word, p: Key)
    requires i < MAX_DEPTH && t.Of? && t.node.Internal? && Child(t, Split(k)[i]) == d && Child(t, !Split(k)[i]) == sibling
    requires IsLeafOf(d, Split(k)[..i + 1], k, w) && IsLeafOf(sibling, Split(k)[..i] + [!Split(k)[i]], q, u)
    requires Split(p)[..i] == Split(k)[..i]
    ensures Content(t, i, p) == if p == k then w else if p == q then u else 0
    ensures k != q && Split(q)[..i] == Split(k)[..i]
  {
    var side := Split(k)[..i] + [!Split(k)[i]];
    assert Split(q)[..i + 1] == side;
    assert Split(q)[..i] == side[..i] && Split(q)[i] == side[i];
    PathBit(Split(p), i);
    PathBit(Split(k), i);
    if Split(p)[i] == Split(k)[i] {
      LeafContent(d, Split(k)[..i + 1], k, w, p);
    } else {
      assert Split(p)[..i + 1] == side;
      LeafContent(sibling, side, q, u, p);
    }
  }

  /** The path of the sibling's key is that of the key, but for its last bit. */
  lemma SiblingPath(k: Key, n: nat, sibling: Digest, q: Key, u: Word, i: nat)
    requires 0 < n <= 256 && i < n - 1 && IsLeafOf(sibling, Split(k)[..n - 1] + [!Split(k)[n - 1]], q, u)
    ensures Split(q)[i] == Split(k)[i]
  {
    var side := Split(k)[..n - 1] + [!Split(k)[n - 1]];
    assert Split(q)[..n] == side;
    assert Split(q)[..n][i] == side[i];
  }

  lemma {:induction false} LonelyContent(t: Digest, k: Key, i: nat, n: nat, d: Digest, w: Word, sibling: Digest, q: Key, u: Word, p: Key)
    requires i < n <= MAX_DEPTH && Lonely(t, Split(k), i, n, sibling) && PathTo(t, Split(k), i, n) && At(t, Split(k), i, n) == d
    requires IsLeafOf(d, Split(k)[..n], k, w) && IsLeafOf(sibling, Split(k)[..n - 1] + [!Split(k)[n - 1]], q, u)
    requires Split(p)[..i] == Split(k)[..i]
    ensures Content(t, i, p) == if p == k then w else if p == q then u else 0
    ensures k != q && Split(q)[..i] == Split(k)[..i]
    decreases n - i
  {
    var bits := Split(k);
    if i == n - 1 {
      LonelyParent(t, k, i, d, w, sibling, q, u, p);
    } else {
      SiblingPath(k, n, sibling, q, u, i);
      PathBit(Split(p), i);
      PathBit(bits, i);
      LonelyContent(Child(t, bits[i]), k, i + 1, n, d, w, sibling, q, u, if Split(p)[i] == bits[i] then p else k);
      assert Split(q)[..i + 1][..i] == Split(q)[..i] && bits[..i + 1][..i] == bits[..i];
    }
  }

  /** The deleted leaf d and its sibling leaf are all there is below depth c. */
  ghost predicate LonelyPair(root: Digest, k: Key, n: nat, d: Digest, w: Word, c: nat, sibling: Digest, q: Key, u: Word) {
    && c < n <= MAX_DEPTH && PathTo(root, Split(k), 0, c)
    && IsLeafOf(d, Split(k)[..n], k, w)
    && IsLeafOf(sibling, Split(k)[..n - 1] + [!Split(k)[n - 1]], q, u)
    && var t := At(root, Split(k), 0, c);
    && Lonely(t, Split(k), c, n, sibling) && PathTo(t, Split(k), c, n) && At(t, Split(k), c, n) == d
  }

  lemma LiftContent(root: Digest, kv: map<Key, Word>, k: Key, n: nat, d: Digest, w: Word, c: nat, sibling: Digest,
                    q: Key, u: Word, p: Key)
    requires Represents(root, kv) && n > 0 && LonelyPair(root, k, n, d, w, c, sibling, q, u)
    requires Split(p)[..c] == Split(k)[..c]
    ensures k != q && IsLeafOf(LeafDigest(q, u, c), Split(k)[..c], q, u)
    ensures (p in kv <==> p == k || p == q) && (p == q ==> kv[p] == u)
    ensures Content(LeafDigest(q, u, c), c, p) == if p == q then u else 0
  {
    var t := At(root, Split(k), 0, c);
    ContentBelow(root, kv, k, c, t, p);
    LonelyContent(t, k, c, n, d, w, sibling, q, u, p);
    assert Split(k)[..c] <= Split(q);
    LeafContent(LeafDigest(q, u, c), Split(k)[..c], q, u, p);
  }

  lemma LiftedHolds(root: Digest, kv: map<Key, Word>, k: Key, n: nat, d: Digest, w: Word, c: nat, sibling: Digest, q: Key, u: Word)
    requires Represents(root, kv) && n > 0 && LonelyPair(root, k, n, d, w, c, sibling, q, u)
    ensures HoldsBelow(LeafDigest(q, u, c), k, c, kv - {k})
  {
    forall p | Split(p)[..c] == Split(k)[..c]
      ensures Content(LeafDigest(q, u, c), c, p) == if p in kv - {k} then (kv - {k})[p] else 0
    {
      LiftContent(root, kv, k, n, d, w, c, sibling, q, u, p);
    }
  }

  lemma RemovedSameOff(kv: map<Key, Word>, k: Key, n: nat)
    requires n <= MAX_DEPTH
    ensures SameOff(kv, kv - {k}, k, n)
  {
  }

  /** A leaf removed whose sibling is a leaf, which moves up to depth c. */
  lemma LiftLeaf(root: Digest, kv: map<Key, Word>, k: Key, n: nat, d: Digest, w: Word, c: nat, sibling: Digest, q: Key, u: Word)
    requires Represents(root, kv) && n > 0 && LonelyPair(root, k, n, d, w, c, sibling, q, u)
    requires c > 0 ==> PathTo(root, Split(k), 0, c - 1) && var p := At(root, Split(k), 0, c - 1);
      p.Of? && p.node.Internal? && Child(p, !Split(k)[c - 1]) != Zero
    ensures Represents(ReplaceAt(root, Split(k), 0, c, LeafDigest(q, u, c)), kv - {k})
  {
    LiftedHolds(root, kv, k, n, d, w, c, sibling, q, u);
    RemovedSameOff(kv, k, c);
    LiftedLeaf(root, kv, k, n, d, w, c, sibling, q, u);
    if c > 0 { OtherSide(root, kv, k, c - 1); }
    Replaced(root, kv, k, c, At(root, Split(k), 0, c), LeafDigest(q, u, c), kv - {k});
  }

  lemma LiftedLeaf(root: Digest, kv: map<Key, Word>, k: Key, n: nat, d: Digest, w: Word, c: nat, sibling: Digest, q: Key, u: Word)
    requires Represents(root, kv) && n > 0 && LonelyPair(root, k, n, d, w, c, sibling, q, u)
    ensures Canonical(LeafDigest(q, u, c), Split(k)[..c]) && Leaves(LeafDigest(q, u, c)) == 1
    ensures forall p :: Split(p)[..c] != Split(k)[..c] ==> p != k
  {
    LiftContent(root, kv, k, n, d, w, c, sibling, q, u, k);
  }

  lemma OtherSide(root: Digest, kv: map<Key, Word>, k: Key, n: nat)
    requires Represents(root, kv) && n < MAX_DEPTH && PathTo(root, Split(k), 0, n)
    requires var p := At(root, Split(k), 0, n);
      p.Of? && p.node.Internal? && Child(p, !Split(k)[n]) != Zero
    ensures Leaves(Child(At(root, Split(k), 0, n), !Split(k)[n])) >= 1
  {
    var p := At(root, Split(k), 0, n);
    CanonicalBelow(root, kv, k, n, p);
    LeavesOfNonZero(Child(p, !Split(k)[n]), Split(k)[..n] + [!Split(k)[n]]);
  }

  lemma LeavesOfNonZero(d: Digest, path: Bits)
    requires Canonical(d, path) && d != Zero
    ensures Leaves(d) >= 1
  {
  }

  /** Nothing to remove. */
  lemma NothingThere(root: Digest, kv: map<Key, Word>, k: Key, n: nat, d: Digest)
    requires Represents(root, kv) && Reaches(root, k, n, d)
    requires d == Zero || exists q, w :: q != k && IsLeafOf(d, Split(k)[..n], q, w)
    ensures k !in kv && kv - {k} == kv
  {
    ContentBelow(root, kv, k, n, d, k);
    if d != Zero {
      var q, w :| q != k && IsLeafOf(d, Split(k)[..n], q, w);
      LeafContent(d, Split(k)[..n], q, w, k);
    }
  }

  /** The leaf at the end of a walk: the key that is joined from it is its key, and it tells whether
      the map holds the key that was looked for. */
  lemma FoundLeaf(root: Digest, kv: map<Key, Word>, k: Key, n: nat, d: Digest) returns (found: Key, w: Word)
    requires Represents(root, kv) && Reaches(root, k, n, d) && d.Of? && d.node.LeafNode?
    ensures found == Join(Split(k)[..n], d.node.rem) && IsLeafOf(d, Split(k)[..n], found, w)
    ensures d.node.rem == RemoveKeyBits(found, n) && d.node.valueHash == ValueDigest(w) && Limbs2F(F2Limbs(w)) == w
    ensures if found == k then k in kv && kv[k] == w else k !in kv
  {
    CanonicalBelow(root, kv, k, n, d);
    var q, v :| IsLeafOf(d, Split(k)[..n], q, v);
    found, w := q, v;
    assert Split(q)[..n] == Split(k)[..n];
    JoinSplit(q, n);
    WordRoundTrip(v);
    LeafContent(d, Split(k)[..n], q, v, k);
    ContentBelow(root, kv, k, n, d, k);
  }
}
