/** Which insertions and deletions are refused and with which error, told by the entries of the trie alone. */
module TrieRefusals {
  import opened Wrappers
  import opened Nibbles
  import opened PartialTrie
  import opened TrieOps
  import opened InsertContent
  import opened DeleteContent
  import opened DeleteLimits

  // ---------------------------------------------------------------------------------------------
  // Digests on the way of a key
  // ---------------------------------------------------------------------------------------------

  ghost predicate DigestAt(t: Node, q: Key)
    requires t.Wf()
  {
    Lookup(t, q).Some? && Lookup(t, q).value.HashOf?
  }

  /** Among the keys that extend k, the trie holds none but q. */
  ghost predicate OnlyFrom(t: Node, k: Key, q: Key)
    requires t.Wf()
  {
    forall r :: k <= r && Lookup(t, r).Some? ==> r == q
  }

  /** The digest at q is in the way of k: above it, or all there is from k on. */
  ghost predicate InTheWay(t: Node, k: Key, q: Key)
    requires t.Wf()
  {
    DigestAt(t, q) && (q < k || (k <= q && OnlyFrom(t, k, q)))
  }

  lemma BelowSlot(t: Node, i: Nibble, r: Key)
    requires t.Branch? && t.Wf()
    ensures Lookup(t, [i] + r) == Lookup(t.children[i], r)
  {
    assert ([i] + r)[1..] == r;
  }

  lemma SlotPrefix(i: Nibble, a: Key, b: Key)
    ensures [i] + a <= [i] + b <==> a <= b
  {
    PrefixIff([i], a, [i] + b);
    assert ([i] + b)[1..] == b;
  }

  lemma OnlyThroughSlot(t: Node, k: Key, r: Key)
    requires t.Branch? && t.Wf() && k != []
    ensures OnlyFrom(t, k, [k[0]] + r) <==> OnlyFrom(t.children[k[0]], k[1..], r)
  {
    var c, i := t.children[k[0]], k[0];
    assert k == [i] + k[1..];
    if OnlyFrom(t, k, [i] + r) {
      forall x | k[1..] <= x && Lookup(c, x).Some? ensures x == r {
        BelowSlot(t, i, x);
        SlotPrefix(i, k[1..], x);
        assert ([i] + x)[1..] == x && ([i] + r)[1..] == r;
      }
    }
    if OnlyFrom(c, k[1..], r) {
      forall x | k <= x && Lookup(t, x).Some? ensures x == [i] + r {
        assert x[0] == k[0] && x == [i] + x[1..];
        SlotPrefix(i, k[1..], x[1..]);
        assert k[1..] <= x[1..] && Lookup(c, x[1..]).Some?;
      }
    }
  }

  lemma WayThroughSlot(t: Node, k: Key, r: Key)
    requires t.Branch? && t.Wf() && k != []
    ensures InTheWay(t, k, [k[0]] + r) <==> InTheWay(t.children[k[0]], k[1..], r)
  {
    assert k == [k[0]] + k[1..];
    BelowSlot(t, k[0], r);
    SlotPrefix(k[0], r, k[1..]);
    SlotPrefix(k[0], k[1..], r);
    OnlyThroughSlot(t, k, r);
  }

  /** The keys an extension holds from k on are those its child holds from the rest of k on. */
  lemma OnlyBehind(n: Key, child: Node, k: Key, r: Key)
    requires child.Wf() && Agree(n, k)
    ensures OnlyFrom(Extension(n, child), k, n + r) <==> OnlyFrom(child, DropClamped(k, |n|), r)
  {
    var t, rest := Extension(n, child), DropClamped(k, |n|);
    forall x ensures k <= n + x <==> rest <= x {
      if n <= k { PrefixSplit(n, k); PrefixIff(n, rest, n + x); assert (n + x)[|n|..] == x; }
    }
    if OnlyFrom(t, k, n + r) {
      forall x | rest <= x && Lookup(child, x).Some? ensures x == r {
        ExtensionLookup(n, child, x);
        assert (n + x)[|n|..] == x && (n + r)[|n|..] == r;
      }
    }
    if OnlyFrom(child, rest, r) {
      forall x | k <= x && Lookup(t, x).Some? ensures x == n + r {
        PrefixSplit(n, x);
        assert k <= n + x[|n|..] && Lookup(child, x[|n|..]).Some?;
      }
    }
  }

  lemma WayThroughExtension(n: Key, child: Node, k: Key, r: Key)
    requires child.Wf() && Agree(n, k)
    ensures InTheWay(Extension(n, child), k, n + r) <==> InTheWay(child, DropClamped(k, |n|), r)
  {
    ExtensionLookup(n, child, r);
    OnlyBehind(n, child, k, r);
    assert (n + r)[|n|..] == r;
    if n <= k {
      PrefixSplit(n, k);
      PrefixIff(n, r, k);
      PrefixIff(n, k[|n|..], n + r);
    } else {
      assert k <= n + r;
    }
  }

  /** The digest that stops the walk, which is a digest in the way. */
  lemma {:induction false} MetDigest(t: Node, k: Key) returns (q: Key)
    requires t.Wf() && MeetsHash(t, k)
    ensures InTheWay(t, k, q)
    decreases t
  {
    match t
    case Hash(_) => q := [];
    case Branch(children, _) =>
      var r := MetDigest(children[k[0]], k[1..]);
      WayThroughSlot(t, k, r);
      q := [k[0]] + r;
    case Extension(n, child) =>
      var r := MetDigest(child, DropClamped(k, |n|));
      WayThroughExtension(n, child, k, r);
      q := n + r;
  }

  lemma {:induction false} WayMeets(t: Node, k: Key, q: Key)
    requires Canonical(t) && t.Wf() && InTheWay(t, k, q)
    ensures MeetsHash(t, k)
    decreases t
  {
    match t
    case Branch(children, _) =>
      if k == [] {
        var k1, k2 := BranchForks(t);
      } else {
        assert q == [k[0]] + q[1..];
        WayThroughSlot(t, k, q[1..]);
        WayMeets(children[k[0]], k[1..], q[1..]);
      }
    case Extension(n, child) =>
      PrefixSplit(n, q);
      WayThroughExtension(n, child, k, q[|n|..]);
      WayMeets(child, DropClamped(k, |n|), q[|n|..]);
    case _ =>
  }

  /** The walk along k meets a hash node exactly when the trie holds a digest above k, or one below k and
      nothing else there. */
  lemma MeetsHashExactly(t: Node, k: Key)
    requires Canonical(t) && t.Wf()
    ensures MeetsHash(t, k) <==> exists q :: InTheWay(t, k, q)
  {
    if MeetsHash(t, k) { var q := MetDigest(t, k); }
    if q :| InTheWay(t, k, q) { WayMeets(t, k, q); }
  }

  // ---------------------------------------------------------------------------------------------
  // Errors of insertion
  // ---------------------------------------------------------------------------------------------

  /** The error of an insertion at a key with this digest in its way. */
  lemma {:induction false} InsertMeets(t: Node, k: Key, v: Entry) returns (q: Key)
    requires t.Wf() && MeetsHash(t, k)
    ensures InTheWay(t, k, q) && InsertRec(t, k, v) == Err(HashNodeInsert(Lookup(t, q).value.hash))
    decreases t
  {
    match t
    case Hash(_) => q := [];
    case Branch(children, _) =>
      var r := InsertMeets(children[k[0]], k[1..], v);
      WayThroughSlot(t, k, r);
      BelowSlot(t, k[0], r);
      q := [k[0]] + r;
    case Extension(n, child) =>
      var r := InsertMeets(child, DropClamped(k, |n|), v);
      WayThroughExtension(n, child, k, r);
      ExtensionLookup(n, child, r);
      q := n + r;
  }

  /** The key ends inside a leaf: one longer key extends it, and nothing else. */
  ghost predicate EndsInLeaf(t: Node, k: Key, q: Key)
    requires t.Wf()
  {
    k < q && Lookup(t, q).Some? && Lookup(t, q).value.Val? && OnlyFrom(t, k, q)
  }

  lemma LeafThroughSlot(t: Node, k: Key, r: Key)
    requires t.Branch? && t.Wf() && k != []
    ensures EndsInLeaf(t, k, [k[0]] + r) <==> EndsInLeaf(t.children[k[0]], k[1..], r)
  {
    assert k == [k[0]] + k[1..];
    BelowSlot(t, k[0], r);
    SlotPrefix(k[0], k[1..], r);
    OnlyThroughSlot(t, k, r);
  }

  lemma LeafThroughExtension(n: Key, child: Node, k: Key, r: Key)
    requires child.Wf() && n <= k
    ensures EndsInLeaf(Extension(n, child), k, n + r) <==> EndsInLeaf(child, k[|n|..], r)
  {
    ExtensionLookup(n, child, r);
    OnlyBehind(n, child, k, r);
    PrefixSplit(n, k);
    PrefixIff(n, k[|n|..], n + r);
    assert (n + r)[|n|..] == r;
  }

  ghost predicate LeafEnds(t: Node, k: Key)
    requires t.Wf()
  {
    exists q :: EndsInLeaf(t, k, q)
  }

  lemma LeafEndsBelow(t: Node, k: Key)
    requires t.Branch? && t.Wf() && k != []
    ensures LeafEnds(t, k) <==> LeafEnds(t.children[k[0]], k[1..])
  {
    if q :| EndsInLeaf(t, k, q) {
      assert q == [k[0]] + q[1..];
      LeafThroughSlot(t, k, q[1..]);
    }
    if r :| EndsInLeaf(t.children[k[0]], k[1..], r) { LeafThroughSlot(t, k, r); }
  }

  lemma LeafEndsBehind(n: Key, child: Node, k: Key)
    requires child.Wf() && n <= k
    ensures LeafEnds(Extension(n, child), k) <==> LeafEnds(child, k[|n|..])
  {
    if q :| EndsInLeaf(Extension(n, child), k, q) {
      PrefixSplit(n, q);
      LeafThroughExtension(n, child, k, q[|n|..]);
    }
    if r :| EndsInLeaf(child, k[|n|..], r) { LeafThroughExtension(n, child, k, r); }
  }

  /** No key ends in a leaf that stops where two keys part. */
  lemma ForksHaveNoEnd(t: Node, k: Key)
    requires Forks(t) && Canonical(t) && t.Wf() && (t.Branch? ==> k == []) && (t.Extension? ==> k <= t.nibbles)
    ensures !LeafEnds(t, k)
  {
    var k1, k2 := ForkHasTwoKeys(t);
    assert k <= k1 && k <= k2;
  }

  /** The error of an insertion without a digest in its way. */
  lemma {:induction false} BlockedInsert(t: Node, k: Key, v: Entry)
    requires Canonical(t) && t.Wf() && InsertRec(t, k, v).Err? && !MeetsHash(t, k)
    ensures v.HashOf? && InsertRec(t, k, v).error == if LeafEnds(t, k) then Panic else ExistingHashNode(v.hash)
    decreases t
  {
    match t
    case Branch(children, _) =>
      if k == [] {
        ForksHaveNoEnd(t, k);
      } else {
        BlockedInsert(children[k[0]], k[1..], v);
        LeafEndsBelow(t, k);
      }
    case Extension(n, child) =>
      if !Agree(n, k) { SplitNeverFails(n, child, k, v); }
      BlockedInsert(child, DropClamped(k, |n|), v);
      if n <= k {
        LeafEndsBehind(n, child, k);
      } else {
        ForksHaveNoEnd(t, k);
        ForksHaveNoEnd(child, []);
      }
    case Leaf(n, _) =>
      if n == k { assert !LeafEnds(t, k); } else { LeafBlocks(n, t.value, k, v); }
  }

  lemma LeafBlocks(n: Key, value: Bytes, k: Key, v: Entry)
    requires n != k && InsertRec(Leaf(n, value), k, v).Err?
    ensures InsertRec(Leaf(n, value), k, v) == Err(Panic) && v.HashOf? && EndsInLeaf(Leaf(n, value), k, n)
  {
    assert k == k[..|CommonPrefix(n, k)|] == n[..|CommonPrefix(n, k)|];
  }

  /** The outcome of an insertion, told by the entries of the trie. */
  ghost predicate InsertOutcome(t: Node, k: Key, v: Entry, r: Result<Node, TrieError>)
    requires t.Wf()
  {
    if exists q :: InTheWay(t, k, q) then exists q :: InTheWay(t, k, q) && r == Err(HashNodeInsert(Lookup(t, q).value.hash))
    else if v.Val? then r.Ok?
    else if exists q :: EndsInLeaf(t, k, q) then r == Err(Panic)
    else if exists q :: k <= q && Lookup(t, q).Some? then r == Err(ExistingHashNode(v.hash))
    else r.Ok?
  }

  /** An insertion runs into the digest in its way; without one, a value is always inserted, and a digest exactly
      when nothing is held from its key on. */
  lemma InsertDecided(t: Node, k: Key, v: Entry)
    requires Canonical(t) && t.Wf()
    ensures InsertOutcome(t, k, v, InsertRec(t, k, v))
  {
    MeetsHashExactly(t, k);
    InsertFails(t, k, v);
    if MeetsHash(t, k) {
      var q := InsertMeets(t, k, v);
    } else if InsertRec(t, k, v).Err? {
      BlockedInsert(t, k, v);
    }
  }

  // ---------------------------------------------------------------------------------------------
  // Errors of deletion
  // ---------------------------------------------------------------------------------------------

  /** A deletion with a digest in its way is refused with that digest. */
  lemma {:induction false} DeleteMeets(t: Node, k: Key, s: OnOrphanedHashNode) returns (q: Key)
    requires t.Wf() && MeetsHash(t, k)
    ensures InTheWay(t, k, q) && DeleteIntern(t, k, s) == Err(HashNodeDelete(Lookup(t, q).value.hash))
    decreases t
  {
    match t
    case Hash(_) => q := [];
    case Branch(children, _) =>
      var r := DeleteMeets(children[k[0]], k[1..], s);
      WayThroughSlot(t, k, r);
      BelowSlot(t, k[0], r);
      q := [k[0]] + r;
    case Extension(n, child) =>
      var r := DeleteMeets(child, DropClamped(k, |n|), s);
      WayThroughExtension(n, child, k, r);
      ExtensionLookup(n, child, r);
      q := n + r;
  }

  /** The value at k and the digest at q are all there is below the node one nibble above q, and k goes on there. */
  ghost predicate LeftAlone(t: Node, k: Key, q: Key)
    requires t.Wf()
  {
    && DigestAt(t, q) && q != [] && q[..|q| - 1] < k
    && Lookup(t, k).Some? && Lookup(t, k).value.Val?
    && forall r :: q[..|q| - 1] <= r && Lookup(t, r).Some? ==> r == k || r == q
  }

  ghost predicate LeavesAlone(t: Node, k: Key)
    requires t.Wf()
  {
    exists q :: LeftAlone(t, k, q)
  }

  lemma AloneThroughSlot(t: Node, k: Key, r: Key)
    requires t.Branch? && t.Wf() && k != [] && r != []
    ensures LeftAlone(t, k, [k[0]] + r) <==> LeftAlone(t.children[k[0]], k[1..], r)
  {
    var c, i, p := t.children[k[0]], k[0], r[..|r| - 1];
    assert k == [i] + k[1..] && ([i] + r)[..|r|] == [i] + p;
    BelowSlot(t, i, r);
    BelowSlot(t, i, k[1..]);
    SlotPrefix(i, p, k[1..]);
    if LeftAlone(t, k, [i] + r) {
      forall x | p <= x && Lookup(c, x).Some? ensures x == k[1..] || x == r {
        BelowSlot(t, i, x);
        SlotPrefix(i, p, x);
        assert ([i] + x)[1..] == x && ([i] + r)[1..] == r;
      }
    }
    if LeftAlone(c, k[1..], r) {
      forall x | [i] + p <= x && Lookup(t, x).Some? ensures x == k || x == [i] + r {
        assert x[0] == i && x == [i] + x[1..];
        SlotPrefix(i, p, x[1..]);
        assert p <= x[1..] && Lookup(c, x[1..]).Some?;
      }
    }
  }

  lemma AloneThroughExtension(n: Key, child: Node, k: Key, r: Key)
    requires child.Wf() && n <= k && r != []
    ensures LeftAlone(Extension(n, child), k, n + r) <==> LeftAlone(child, k[|n|..], r)
  {
    var t, p := Extension(n, child), r[..|r| - 1];
    PrefixSplit(n, k);
    assert (n + r)[..|n + r| - 1] == n + p;
    ExtensionLookup(n, child, r);
    ExtensionLookup(n, child, k[|n|..]);
    PrefixIff(n, p, k);
    if LeftAlone(t, k, n + r) {
      forall x | p <= x && Lookup(child, x).Some? ensures x == k[|n|..] || x == r {
        ExtensionLookup(n, child, x);
        PrefixIff(n, p, n + x);
        assert (n + x)[|n|..] == x && (n + r)[|n|..] == r;
      }
    }
    if LeftAlone(child, k[|n|..], r) {
      forall x | n + p <= x && Lookup(t, x).Some? ensures x == k || x == n + r {
        PrefixSplit(n, x);
        PrefixIff(n, p, x);
        assert p <= x[|n|..] && Lookup(child, x[|n|..]).Some?;
      }
    }
  }

  /** Where a branch with a leaf and a digest collapses, the two are left alone. */
  lemma HereIsAlone(t: Node, k: Key) returns (q: Key)
    requires t.Branch? && Canonical(t) && t.Wf() && SafeDelete(t, k) && OrphansHere(t, k)
    ensures LeftAlone(t, k, q)
  {
    var c := t.children;
    var j :| 0 <= j < 16 && j != k[0] && c[j].Hash?;
    q := [j];
    LastSlot(c, k[0], j);
    UsedSlotsBound(c, k[0], j);
    assert q[..0] == [] && k == [k[0]] + k[1..];
    BelowSlot(t, k[0], k[1..]);
    forall r | Lookup(t, r).Some? ensures r == k || r == q {
      if r != [] {
        assert r == [r[0]] + r[1..];
        BelowSlot(t, r[0], r[1..]);
        assert !c[r[0]].Empty?;
        assert r[0] == k[0] || r[0] == j;
      }
    }
  }

  lemma {:induction false} OrphanIsAlone(t: Node, k: Key) returns (q: Key)
    requires Canonical(t) && t.Wf() && SafeDelete(t, k) && OrphansHash(t, k)
    ensures LeftAlone(t, k, q)
    decreases t
  {
    match t
    case Branch(children, _) =>
      if OrphansHere(t, k) {
        q := HereIsAlone(t, k);
      } else {
        var r := OrphanIsAlone(children[k[0]], k[1..]);
        AloneThroughSlot(t, k, r);
        q := [k[0]] + r;
      }
    case Extension(n, child) =>
      assert OrphansHash(child, k[|n|..]);
      var r := OrphanIsAlone(child, k[|n|..]);
      AloneThroughExtension(n, child, k, r);
      q := n + r;
  }

  lemma EmptyKeyDigest(c: Node)
    requires Canonical(c) && c.Wf() && DigestAt(c, [])
    ensures c.Hash?
  {
  }

  /** A node that holds a single key, with a value, is a leaf. */
  lemma OneValueIsLeaf(c: Node, k: Key)
    requires Canonical(c) && c.Wf() && Lookup(c, k).Some? && Lookup(c, k).value.Val?
    requires forall r :: Lookup(c, r).Some? ==> r == k
    ensures c.Leaf? && c.nibbles == k
  {
    if Forks(c) { var k1, k2 := ForkHasTwoKeys(c); }
  }

  /** A value and a digest alone under a branch make it collapse. */
  lemma AloneIsHere(t: Node, k: Key, q: Key)
    requires t.Branch? && Canonical(t) && t.Wf() && LeftAlone(t, k, q) && |q| == 1
    ensures OrphansHere(t, k)
  {
    var c, i, j := t.children, k[0], q[0];
    assert q[..0] == [] && q == [j] + [] && k == [i] + k[1..];
    BelowSlot(t, j, []);
    BelowSlot(t, i, k[1..]);
    EmptyKeyDigest(c[j]);
    assert i != j;
    forall r | Lookup(c[i], r).Some? ensures r == k[1..] {
      BelowSlot(t, i, r);
      assert ([i] + r)[0] == i && ([i] + r)[1..] == r;
    }
    OneValueIsLeaf(c[i], k[1..]);
    forall l: nat | l < 16 && !c[l].Empty? ensures l == i || l == j {
      var r := SomeKey(c[l]);
      BelowSlot(t, l, r);
      assert ([l] + r)[0] == l;
    }
    assert UsedSlots(c) <= {i, j};
    SubsetSize(UsedSlots(c), {i, j});
  }

  lemma {:induction false} AloneIsOrphan(t: Node, k: Key, q: Key)
    requires Canonical(t) && t.Wf() && LeftAlone(t, k, q)
    ensures OrphansHash(t, k)
    decreases t
  {
    match t
    case Branch(children, _) =>
      if |q| == 1 {
        AloneIsHere(t, k, q);
      } else {
        var r := q[1..];
        assert q == [q[0]] + r && q[..|q| - 1][0] == q[0] && k[0] == q[0];
        AloneThroughSlot(t, k, r);
        AloneIsOrphan(children[k[0]], k[1..], r);
      }
    case Extension(n, child) =>
      PrefixSplit(n, q);
      PrefixSplit(n, k);
      ExtensionLookup(n, child, k[|n|..]);
      if |q| == |n| {
        EmptyKeyDigest(child);
        assert false;
      } else {
        AloneThroughExtension(n, child, k, q[|n|..]);
        AloneIsOrphan(child, k[|n|..], q[|n|..]);
      }
    case _ =>
  }

  /** Deleting k collapses a branch onto a hash node exactly when a value at k and a digest are left alone. */
  lemma OrphansExactly(t: Node, k: Key)
    requires Canonical(t) && t.Wf() && SafeDelete(t, k)
    ensures OrphansHash(t, k) <==> exists q :: LeftAlone(t, k, q)
  {
    if OrphansHash(t, k) { var q := OrphanIsAlone(t, k); }
    if q :| LeftAlone(t, k, q) { AloneIsOrphan(t, k, q); }
  }

  // ---------------------------------------------------------------------------------------------
  // The digest a refused collapse names
  // ---------------------------------------------------------------------------------------------

  lemma OnlyDigest(n: Key, h: H256, q: Key)
    requires DigestAt(Extension(n, Hash(h)), q)
    ensures Lookup(Extension(n, Hash(h)), q) == Some(HashOf(h))
  {
  }

  /** An extension over a hash node that a deletion leaves holds the digest that was left alone. */
  lemma CollapsedOnto(t: Node, k: Key, s: OnOrphanedHashNode)
    requires Canonical(t) && t.Wf() && SafeDelete(t, k) && DeleteIntern(t, k, s).Ok? && DeleteIntern(t, k, s).value.Some?
    requires var r := DeleteIntern(t, k, s).value.value.0; r.Extension? && r.child.Hash?
    ensures var r := DeleteIntern(t, k, s).value.value.0;
      exists q :: LeftAlone(t, k, q) && Lookup(t, q) == Some(HashOf(r.child.hash))
  {
    var r := DeleteIntern(t, k, s).value.value.0;
    DeleteInternFails(t, k, s);
    var q := OrphanIsAlone(t, k);
    DeleteInternCorrect(t, k, s, q);
    OnlyDigest(r.nibbles, r.child.hash, q);
  }

  /** A refusal that is not for a digest in the way is for one that would be left alone, and names it. */
  ghost predicate NamesOrphan(t: Node, k: Key, e: TrieError)
    requires t.Wf()
  {
    e.ExtensionCollapsedIntoHash? && exists q :: LeftAlone(t, k, q) && Lookup(t, q) == Some(HashOf(e.hash))
  }

  lemma NamedBelow(t: Node, k: Key, e: TrieError)
    requires t.Branch? && t.Wf() && k != [] && NamesOrphan(t.children[k[0]], k[1..], e)
    ensures NamesOrphan(t, k, e)
  {
    var r :| LeftAlone(t.children[k[0]], k[1..], r) && Lookup(t.children[k[0]], r) == Some(HashOf(e.hash));
    AloneThroughSlot(t, k, r);
    BelowSlot(t, k[0], r);
  }

  lemma NamedBehind(n: Key, child: Node, k: Key, e: TrieError)
    requires child.Wf() && n <= k && NamesOrphan(child, k[|n|..], e)
    ensures NamesOrphan(Extension(n, child), k, e)
  {
    var r :| LeftAlone(child, k[|n|..], r) && Lookup(child, r) == Some(HashOf(e.hash));
    AloneThroughExtension(n, child, k, r);
    ExtensionLookup(n, child, r);
  }

  lemma RebuildRefused(t: Node, k: Key, s: OnOrphanedHashNode)
    requires t.Branch? && k != [] && Canonical(t) && t.Wf() && SafeDelete(t, k) && DeleteIntern(t, k, s).Err?
    requires DeleteIntern(t.children[k[0]], k[1..], s).Ok?
    ensures NamesOrphan(t.children[k[0]], k[1..], DeleteIntern(t, k, s).error)
  {
    var c := t.children[k[0]];
    var updated := DeleteIntern(c, k[1..], s).value.value.0;
    DeleteInternCorrect(c, k[1..], s, []);
    if updated.Empty? && |UsedSlots(t.children)| <= 2 {
      OtherUsed(t.children, k[0]);
      assert false;
    }
    CollapsedOnto(c, k[1..], s);
  }

  /** Behind an extension nothing is refused that is not refused below. */
  lemma NotRefusedBehind(t: Node, k: Key, s: OnOrphanedHashNode)
    requires t.Extension? && Agree(t.nibbles, k) && Canonical(t) && t.Wf() && SafeDelete(t, k) && !MeetsHash(t, k)
    requires DeleteIntern(t.child, DropClamped(k, |t.nibbles|), s).Ok?
    ensures DeleteIntern(t, k, s).Ok?
  {
    var rest := DropClamped(k, |t.nibbles|);
    var res := DeleteIntern(t.child, rest, s).value;
    if res.Some? && t.nibbles <= k { DeleteInternCorrect(t.child, rest, s, []); }
  }

  lemma {:induction false} RefusalNames(t: Node, k: Key, s: OnOrphanedHashNode)
    requires Canonical(t) && t.Wf() && SafeDelete(t, k) && DeleteIntern(t, k, s).Err? && !MeetsHash(t, k)
    ensures NamesOrphan(t, k, DeleteIntern(t, k, s).error)
    decreases t
  {
    match t
    case Branch(children, _) =>
      if DeleteIntern(children[k[0]], k[1..], s).Err? {
        RefusalNames(children[k[0]], k[1..], s);
      } else {
        RebuildRefused(t, k, s);
      }
      NamedBelow(t, k, DeleteIntern(t, k, s).error);
    case Extension(n, child) =>
      var rest := DropClamped(k, |n|);
      if DeleteIntern(child, rest, s).Ok? { NotRefusedBehind(t, k, s); }
      RefusalNames(child, rest, s);
      NamedBehind(n, child, k, DeleteIntern(t, k, s).error);
    case _ =>
  }

  lemma RootRefusal(t: Node, k: Key, s: OnOrphanedHashNode)
    requires Canonical(t) && t.Wf() && SafeDelete(t, k) && Delete(t, k, s).Err? && !MeetsHash(t, k)
    ensures NamesOrphan(t, k, Delete(t, k, s).error)
  {
    if DeleteIntern(t, k, s).Err? {
      RefusalNames(t, k, s);
    } else {
      DeleteInternCorrect(t, k, s, []);
      CollapsedOnto(t, k, s);
    }
  }

  /** The outcome of a deletion, told by the entries of the trie. */
  ghost predicate DeleteOutcome(t: Node, k: Key, s: OnOrphanedHashNode, r: Result<Option<(Node, Bytes)>, TrieError>)
    requires t.Wf()
  {
    if exists q :: InTheWay(t, k, q) then exists q :: InTheWay(t, k, q) && r == Err(HashNodeDelete(Lookup(t, q).value.hash))
    else if s.Reject? && exists q :: LeftAlone(t, k, q) then r.Err? && NamesOrphan(t, k, r.error)
    else r.Ok?
  }

  /** A safe deletion runs into the digest in its way; without one it is refused only under `Reject`, and exactly
      when it would leave a digest alone under a branch: the error names that digest. */
  lemma DeleteDecided(t: Node, k: Key, s: OnOrphanedHashNode)
    requires Canonical(t) && t.Wf() && SafeDelete(t, k)
    ensures DeleteOutcome(t, k, s, Delete(t, k, s))
  {
    MeetsHashExactly(t, k);
    OrphansExactly(t, k);
    DeleteFails(t, k, s);
    if MeetsHash(t, k) {
      var q := DeleteMeets(t, k, s);
    } else if Delete(t, k, s).Err? {
      RootRefusal(t, k, s);
    }
  }
}
