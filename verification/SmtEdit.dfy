/** Changing a tree along the path of a key: what it does to content and shape. */
module SmtEdit {
  import opened Wrappers
  import opened SmtKeys
  import opened SmtTree

  /** From depth i down to depth n the path runs through internal nodes. */
  ghost predicate PathTo(t: Digest, bits: Bits, i: nat, n: nat)
    decreases n - i
  {
    i <= n <= |bits| &&
    (i == n || (t.Of? && t.node.Internal? && PathTo(Child(t, bits[i]), bits, i + 1, n)))
  }

  ghost function At(t: Digest, bits: Bits, i: nat, n: nat): Digest
    requires PathTo(t, bits, i, n)
    decreases n - i
  {
    if i == n then t else At(Child(t, bits[i]), bits, i + 1, n)
  }

  function WithChild(node: SNode, b: bool, x: Digest): SNode
    requires node.Internal?
  {
    if b then node.(right := x) else node.(left := x)
  }

  /** The tree with the subtree at depth n replaced. */
  ghost function ReplaceAt(t: Digest, bits: Bits, i: nat, n: nat, x: Digest): Digest
    requires PathTo(t, bits, i, n)
    decreases n - i
  {
    if i == n then x
    else Of(WithChild(t.node, bits[i], ReplaceAt(Child(t, bits[i]), bits, i + 1, n, x)))
  }

  lemma {:induction false} PathExtends(t: Digest, bits: Bits, i: nat, n: nat)
    requires PathTo(t, bits, i, n) && n < |bits|
    requires At(t, bits, i, n).Of? && At(t, bits, i, n).node.Internal?
    ensures PathTo(t, bits, i, n + 1) && At(t, bits, i, n + 1) == Child(At(t, bits, i, n), bits[n])
    decreases n - i
  {
    if i < n { PathExtends(Child(t, bits[i]), bits, i + 1, n); }
  }

  lemma {:induction false} PathShorter(t: Digest, bits: Bits, i: nat, n: nat)
    requires PathTo(t, bits, i, n) && i < n
    ensures PathTo(t, bits, i, n - 1)
    ensures var p := At(t, bits, i, n - 1); p.Of? && p.node.Internal? && At(t, bits, i, n) == Child(p, bits[n - 1])
    decreases n - i
  {
    if i < n - 1 { PathShorter(Child(t, bits[i]), bits, i + 1, n); }
  }

  /** Replacing below a node is replacing the node by one with a new child. */
  lemma {:induction false} ReplaceStep(t: Digest, bits: Bits, i: nat, n: nat, x: Digest)
    requires PathTo(t, bits, i, n) && i < n && PathTo(t, bits, i, n - 1)
    requires At(t, bits, i, n - 1).Of? && At(t, bits, i, n - 1).node.Internal?
    ensures ReplaceAt(t, bits, i, n, x)
         == ReplaceAt(t, bits, i, n - 1, Of(WithChild(At(t, bits, i, n - 1).node, bits[n - 1], x)))
    decreases n - i
  {
    if i < n - 1 { ReplaceStep(Child(t, bits[i]), bits, i + 1, n, x); }
  }

  lemma {:induction false} ReplaceSame(t: Digest, bits: Bits, i: nat, n: nat)
    requires PathTo(t, bits, i, n)
    ensures ReplaceAt(t, bits, i, n, At(t, bits, i, n)) == t
    decreases n - i
  {
    if i < n { ReplaceSame(Child(t, bits[i]), bits, i + 1, n); }
  }

  /** Keys that follow the path to depth n see the new subtree, all others see no change. */
  lemma {:induction false} ReplaceContent(t: Digest, bits: Bits, i: nat, n: nat, x: Digest, k: Key)
    requires PathTo(t, bits, i, n) && n <= MAX_DEPTH
    ensures Content(ReplaceAt(t, bits, i, n, x), i, k) ==
      if forall m :: i <= m < n ==> Split(k)[m] == bits[m] then Content(x, n, k) else Content(t, i, k)
    decreases n - i
  {
    if i < n && Split(k)[i] == bits[i] {
      ReplaceContent(Child(t, bits[i]), bits, i + 1, n, x, k);
    }
  }

  lemma {:induction false} ContentAt(t: Digest, bits: Bits, i: nat, n: nat, k: Key)
    requires PathTo(t, bits, i, n) && n <= MAX_DEPTH
    requires forall m :: i <= m < n ==> Split(k)[m] == bits[m]
    ensures Content(t, i, k) == Content(At(t, bits, i, n), n, k)
    decreases n - i
  {
    if i < n { ContentAt(Child(t, bits[i]), bits, i + 1, n, k); }
  }

  lemma PathBit(bits: Bits, i: nat)
    requires i < |bits|
    ensures bits[..i] + [bits[i]] == bits[..i + 1]
  {
  }

  lemma {:induction false} CanonicalAt(t: Digest, bits: Bits, i: nat, n: nat)
    requires PathTo(t, bits, i, n) && Canonical(t, bits[..i])
    ensures Canonical(At(t, bits, i, n), bits[..n])
    ensures i < n ==> n <= MAX_DEPTH
    decreases n - i
  {
    if i < n {
      PathBit(bits, i);
      CanonicalAt(Child(t, bits[i]), bits, i + 1, n);
    }
  }

  /** The new tree is canonical when the new subtree is, and its parent still has two leaves. */
  lemma {:induction false} ReplaceCanonical(t: Digest, bits: Bits, i: nat, n: nat, x: Digest)
    requires PathTo(t, bits, i, n) && Canonical(t, bits[..i]) && Canonical(x, bits[..n])
    requires i < n ==> PathTo(t, bits, i, n - 1) && var p := At(t, bits, i, n - 1);
      p.Of? && p.node.Internal? && Leaves(x) + Leaves(Child(p, !bits[n - 1])) >= 2
    ensures Canonical(ReplaceAt(t, bits, i, n, x), bits[..i])
    ensures i < n ==> Leaves(ReplaceAt(t, bits, i, n, x)) >= 2
    decreases n - i
  {
    if i < n {
      PathBit(bits, i);
      var c := Child(t, bits[i]);
      ReplaceCanonical(c, bits, i + 1, n, x);
      assert Leaves(ReplaceAt(t, bits, i, n, x)) == Leaves(ReplaceAt(c, bits, i + 1, n, x)) + Leaves(Child(t, !bits[i]));
    }
  }

  // ---------------------------------------------------------------------------------------------
  // Two keys in one place
  // ---------------------------------------------------------------------------------------------

  function Node2(b: bool, x: Digest, y: Digest): Digest {
    if b then Of(Internal(y, x)) else Of(Internal(x, y))
  }

  /** A chain of internal nodes from depth n to depth m, where two keys part. */
  function ForkChain(k: Key, x: Digest, y: Digest, n: nat, m: nat): Digest
    requires n <= m < 256
    decreases m - n
  {
    if n == m then Node2(Split(k)[m], x, y)
    else Node2(Split(k)[n], ForkChain(k, x, y, n + 1, m), Zero)
  }

  lemma {:induction false} ForkCanonical(k: Key, v: Word, q: Key, w: Word, n: nat, m: nat)
    requires n <= m < MAX_DEPTH && v != 0 && w != 0
    requires Split(k)[..m] == Split(q)[..m] && Split(k)[m] != Split(q)[m]
    ensures var f := ForkChain(k, LeafDigest(k, v, m + 1), LeafDigest(q, w, m + 1), n, m);
      Canonical(f, Split(k)[..n]) && Leaves(f) == 2
    decreases m - n
  {
    var x, y := LeafDigest(k, v, m + 1), LeafDigest(q, w, m + 1);
    PathBit(Split(k), n);
    if n == m {
      PathBit(Split(q), m);
      assert IsLeafOf(x, Split(k)[..m + 1], k, v);
      assert IsLeafOf(y, Split(q)[..m + 1], q, w);
      assert Canonical(x, Split(k)[..m] + [Split(k)[m]]) && Canonical(y, Split(k)[..m] + [Split(q)[m]]);
    } else {
      ForkCanonical(k, v, q, w, n + 1, m);
    }
  }

  /** Where the two keys part there is a leaf for each. */
  lemma ForkNodeContent(k: Key, v: Word, q: Key, w: Word, m: nat, p: Key)
    requires m < MAX_DEPTH && v != 0 && w != 0 && Split(p)[..m] == Split(k)[..m]
    requires Split(k)[..m] == Split(q)[..m] && Split(k)[m] != Split(q)[m]
    ensures Content(Node2(Split(k)[m], LeafDigest(k, v, m + 1), LeafDigest(q, w, m + 1)), m, p)
         == if p == k then v else if p == q then w else 0
  {
    PathBit(Split(p), m);
    PathBit(Split(k), m);
    PathBit(Split(q), m);
    if Split(p)[m] == Split(k)[m] {
      LeafContent(LeafDigest(k, v, m + 1), Split(k)[..m + 1], k, v, p);
    } else {
      LeafContent(LeafDigest(q, w, m + 1), Split(q)[..m + 1], q, w, p);
    }
  }

  lemma {:induction false} ForkContent(k: Key, v: Word, q: Key, w: Word, n: nat, m: nat, p: Key)
    requires n <= m < MAX_DEPTH && v != 0 && w != 0 && Split(p)[..n] == Split(k)[..n]
    requires Split(k)[..m] == Split(q)[..m] && Split(k)[m] != Split(q)[m]
    ensures Content(ForkChain(k, LeafDigest(k, v, m + 1), LeafDigest(q, w, m + 1), n, m), n, p)
         == if p == k then v else if p == q then w else 0
    decreases m - n
  {
    if n == m {
      ForkNodeContent(k, v, q, w, m, p);
    } else {
      PathBit(Split(p), n);
      PathBit(Split(k), n);
      assert Split(q)[..m][n] == Split(q)[n] && Split(k)[..m][n] == Split(k)[n];
      if Split(p)[n] == Split(k)[n] { ForkContent(k, v, q, w, n + 1, m, p); }
    }
  }

  lemma {:induction false} PathCompose(t: Digest, bits: Bits, i: nat, c: nat, n: nat)
    requires PathTo(t, bits, i, n) && i <= c <= n
    ensures PathTo(t, bits, i, c) && PathTo(At(t, bits, i, c), bits, c, n)
    ensures At(At(t, bits, i, c), bits, c, n) == At(t, bits, i, n)
    decreases n - i
  {
    if i < c { PathCompose(Child(t, bits[i]), bits, i + 1, c, n); }
  }
}
