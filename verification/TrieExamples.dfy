/** Concrete tries on which the code does not do what its users may expect. The exact conditions are
    in DeleteLimits, InsertContent and RunWitness. */
module TrieExamples {
  import opened Wrappers
  import opened Nibbles
  import opened PartialTrie
  import opened TrieOps
  import opened InsertContent
  import opened InsertMany
  import opened DeleteContent
  import opened TrieHashing
  import opened TrieCommitment
  import opened HashedTrie
  import opened TrackedTrie
  import opened TrieRuns
  import opened TrieSubsets
  import opened Replay
  import opened DeleteWitness
  import opened RunWitness

  function Two(a: Nibble, x: Node, b: Nibble, y: Node, value: Bytes): (t: Node)
    requires x.Wf() && y.Wf()
    ensures t.Wf()
  {
    Branch(WithSlot(WithSlot(EmptyChildren(), a, x), b, y), value)
  }

  lemma TwoChildren(a: Nibble, x: Node, b: Nibble, y: Node, value: Bytes)
    requires x.Wf() && y.Wf() && a != b && !x.Empty? && !y.Empty?
    ensures var c := Two(a, x, b, y, value).children;
      UsedSlots(c) == {a as nat, b as nat} && |UsedSlots(c)| == 2 && OtherSlot(c, a) == Some(b as nat)
    ensures Canonical(x) && Canonical(y) ==> Canonical(Two(a, x, b, y, value))
  {
    var c := Two(a, x, b, y, value).children;
    assert c[a] == x && c[b] == y;
    assert UsedSlots(c) == {a as nat, b as nat};
  }

  /** Deleting a child of a branch that has two children and a value loses the value. */
  lemma CollapseDropsValue(v: Bytes)
    requires v != []
    ensures var t := Two(0, Leaf([], v), 1, Leaf([], v), v);
      && Canonical(t) && Lookup(t, []) == Some(Val(v))
      && Delete(t, [0], Reject) == Ok(Some((Leaf([1], v), v)))
      && Lookup(After(t, [0], Reject), []) == None
  {
    var t := Two(0, Leaf([], v), 1, Leaf([], v), v);
    TwoChildren(0, Leaf([], v), 1, Leaf([], v), v);
    var k: Key := [0];
    assert k[1..] == [] && t.children[0] == Leaf([], v) && t.children[1] == Leaf([], v);
    assert DeleteIntern(t, k, Reject) == Ok(Some((Extension([1], Leaf([], v)), v)));
    var one: Key := [1];
    assert one + [] == one;
  }

  /** A key that ends inside an extension is written to the wrong place. */
  lemma InsertClampsKey(v: Bytes, w: Bytes)
    requires v != [] && w != []
    ensures var t := Extension([5, 6], Two(0, Leaf([], v), 1, Leaf([], v), []));
      && Canonical(t) && InsertRec(t, [5], Val(w)).Ok?
      && var r := InsertRec(t, [5], Val(w)).value;
      && Lookup(r, [5]) == None && Lookup(t, [5, 6]) == None && Lookup(r, [5, 6]) == Some(Val(w))
  {
    TwoChildren(0, Leaf([], v), 1, Leaf([], v), []);
    var branch := Two(0, Leaf([], v), 1, Leaf([], v), []);
    var n: Key := [5, 6];
    var k: Key := [5];
    assert k == n[..1];
    assert InsertRec(Extension(n, branch), k, Val(w)) == Ok(Extension(n, Branch(branch.children, w)));
    assert n[|n|..] == [];
  }

  /** A key that is not in the trie is found when a leaf's key is a prefix of it. */
  lemma GetMatchesPrefix(v: Bytes)
    ensures Get(Leaf([1, 2], v), [1, 2, 3]) == Ok(Some(v)) && Lookup(Leaf([1, 2], v), [1, 2, 3]) == None
  {
    assert [1, 2] == [1, 2, 3][..2];
  }

  /** The trie of the keys 0000, 1110 and 1111. */
  function ThreeKeys(v: Bytes): (t: Node)
    ensures t.Wf()
  {
    Two(0, Leaf([0, 0, 0], v), 1, Extension([1, 1], Low(v)), [])
  }

  function Low(v: Bytes): (t: Node)
    ensures t.Wf()
  {
    Two(0, Leaf([], v), 1, Leaf([], v), [])
  }

  function SplitFork(v: Bytes): (t: Node)
    ensures t.Wf()
  {
    Two(1, Low(v), 0, Leaf([0], v), [])
  }

  function FourKeys(v: Bytes): (t: Node)
    ensures t.Wf()
  {
    Two(0, Leaf([0, 0, 0], v), 1, Extension([1], SplitFork(v)), [])
  }

  lemma ThreeKeysCanonical(v: Bytes)
    requires v != []
    ensures Canonical(ThreeKeys(v)) && Canonical(FourKeys(v)) && Canonical(SplitFork(v))
  {
    TwoChildren(0, Leaf([], v), 1, Leaf([], v), []);
    TwoChildren(0, Leaf([0, 0, 0], v), 1, Extension([1, 1], Low(v)), []);
    TwoChildren(1, Low(v), 0, Leaf([0], v), []);
    TwoChildren(0, Leaf([0, 0, 0], v), 1, Extension([1], SplitFork(v)), []);
  }

  lemma InsertIntoThree(v: Bytes)
    requires v != []
    ensures InsertRec(ThreeKeys(v), [1, 1, 0, 0], Val(v)) == Ok(FourKeys(v))
  {
    var k: Key := [1, 1, 0, 0];
    assert k[1..] == [1, 0, 0];
    SplitOnes(Low(v), v);
    assert WithSlot(ThreeKeys(v).children, 1, Extension([1], SplitFork(v))) == FourKeys(v).children;
  }

  lemma DeleteFromFour(v: Bytes)
    requires v != []
    ensures Delete(FourKeys(v), [0, 0, 0, 0], Reject).Ok?
    ensures CollapseKey(FourKeys(v), [0, 0, 0, 0]) == Some([1, 1])
    ensures SafeDelete(FourKeys(v), [0, 0, 0, 0]) && !EndsInsideExtension(FourKeys(v), [0, 0, 0, 0])
  {
    var t := FourKeys(v);
    var d: Key := [0, 0, 0, 0];
    TwoChildren(0, Leaf([0, 0, 0], v), 1, Extension([1], SplitFork(v)), []);
    assert d[1..] == [0, 0, 0] && t.children[0] == Leaf([0, 0, 0], v) && t.children[1] == Extension([1], SplitFork(v));
    assert DeleteIntern(t, d, Reject) == Ok(Some((Extension([1], Extension([1], SplitFork(v))), v)));
    var one: Key := [1];
    assert one + OwnNibbles(t.children[1]) == [1, 1];
  }

  lemma LastDeletion(t: Node, k: Key)
    requires t.Wf() && DeleteAndReport(t, k, Reject).Ok?
    ensures var r := DeleteAndReport(t, k, Reject).value;
      RunAndReport(t, [Del(k)], Reject) == Ok((r.0, if r.1.Some? then [r.1.value] else []))
  {
    var none: seq<Op> := [Del(k)][1..];
    assert none == [];
    var r := DeleteAndReport(t, k, Reject).value;
    assert RunAndReport(r.0, none, Reject) == Ok((r.0, []));
    var report := if r.1.Some? then [r.1.value] else [];
    assert report + [] == report;
    assert RunAndReport(t, [Del(k)], Reject) == Ok((r.0, report + []));
  }

  lemma OnesStopWithin(v: Bytes)
    ensures StopsWithin(ThreeKeys(v), [1, 1])
  {
    var n: Key := [1, 1];
    var one: Key := [1];
    assert n[1..] == one && one <= n && !(n <= one);
    assert ThreeKeys(v).children[1] == Extension(n, Low(v));
  }

  /** Inserting 1100 splits an extension; deleting 0000 then reports a key that ends inside the
      extension of the trie there was at the start, so the subset for the run cannot be built. */
  lemma ReportStopsWithin(v: Bytes, keccak: Hasher)
    requires v != []
    ensures var t := ThreeKeys(v); var ops := [Put([1, 1, 0, 0], Val(v)), Del([0, 0, 0, 0])];
      && Canonical(t) && RunAndReport(t, ops, Reject).Ok?
      && RunAndReport(t, ops, Reject).value.1 == [[1, 1]]
      && CreateSubset(t, OpKeys(ops) + [[1, 1]], keccak).Err?
  {
    var t := ThreeKeys(v);
    var ops := [Put([1, 1, 0, 0], Val(v)), Del([0, 0, 0, 0])];
    ThreeKeysCanonical(v);
    InsertIntoThree(v);
    DeleteFromFour(v);
    ReportIsCollapseKey(FourKeys(v), [0, 0, 0, 0], Reject);
    assert ops[1..] == [Del([0, 0, 0, 0])];
    LastDeletion(FourKeys(v), [0, 0, 0, 0]);
    OnesStopWithin(v);
    var needed := OpKeys(ops) + [[1, 1]];
    assert needed[2] == [1, 1];
    MarkAllSucceeds(t, Fresh(t), needed);
  }

  lemma OnesPart()
    ensures var n: Key := [1, 1]; var k: Key := [1, 0, 0];
      CommonPrefix(n, k) == [1] && n[2..] == [] && k[2..] == [0] && !Agree(n, k)
  {
    var n: Key := [1, 1];
    var k: Key := [1, 0, 0];
    assert n[1..] == [1] && k[1..] == [0, 0];
    assert CommonPrefixLen(n, k) == 1;
    assert n[1] != k[1];
  }

  lemma SplitOnes(low: Node, v: Bytes)
    requires low.Wf() && v != []
    ensures InsertRec(Extension([1, 1], low), [1, 0, 0], Val(v)) == Ok(Extension([1], Two(1, low, 0, Leaf([0], v), [])))
  {
    var n: Key := [1, 1];
    var k: Key := [1, 0, 0];
    OnesPart();
    SplitIsPlaced(n, low, k, Val(v));
    assert Fork(n, k, low, Val(v)) == Ok(Two(1, low, 0, Leaf([0], v), []));
  }

  // ---------------------------------------------------------------------------------------------
  // Flags and hashes that are out of date
  // ---------------------------------------------------------------------------------------------

  /** A value at key 0 and a digest at key 1: long enough to be hashed. */
  function ValueAndDigest(v: Bytes, h: H256): (t: Node)
    ensures t.Wf()
  {
    Two(0, Leaf([], v), 1, Hash(h), [])
  }

  lemma ValueAndDigestIsHashed(v: Bytes, h: H256, keccak: Hasher)
    ensures Encode(ValueAndDigest(v, h), keccak).Hashed?
  {
    var t := ValueAndDigest(v, h);
    EncodeIsHashed(t, keccak);
    FirstTwo(t.children, keccak);
    assert t.children[1] == Hash(h);
    assert |Append(Encode(t.children[1], keccak))| >= 32;
    assert |Payload(t, keccak)| >= 32;
    assert |NodeBytes(t, keccak)| >= 32;
  }

  /** An empty key set marks nothing: its subset is what the flags there are say. */
  lemma EmptyKeySetShared(t: Node, m: Marks, keccak: Hasher)
    requires t.Wf() && Fits(t, m)
    ensures SharedSubsets(t, m, [[]], keccak) == Ok([Build(t, m, keccak)])
  {
    var none: seq<Key> := [];
    var sets: seq<seq<Key>> := [none];
    assert MarkAll(t, m, none) == Ok(m);
    assert SharedSubsets(t, ResetMarks(t, m), sets[1..], keccak) == Ok([]);
    assert [Build(t, m, keccak)] + [] == [Build(t, m, keccak)];
    assert SharedSubsets(t, m, sets, keccak) == Ok([Build(t, m, keccak)] + []);
  }

  lemma EmptyKeySetSeparate(t: Node, keccak: Hasher)
    requires t.Wf()
    ensures SeparateSubsets(t, [[]], keccak) == Ok([Build(t, Fresh(t), keccak)])
  {
    var none: seq<Key> := [];
    var sets: seq<seq<Key>> := [none];
    assert CreateSubset(t, none, keccak) == Ok(Build(t, Fresh(t), keccak));
    assert SeparateSubsets(t, sets[1..], keccak) == Ok([]);
    assert [Build(t, Fresh(t), keccak)] + [] == [Build(t, Fresh(t), keccak)];
    assert SeparateSubsets(t, sets, keccak) == Ok([Build(t, Fresh(t), keccak)] + []);
  }

  lemma MarkZero(v: Bytes, h: H256)
    ensures var t := ValueAndDigest(v, h); MarkAll(t, Fresh(t), [[0]]).Ok? && MarkAll(t, Fresh(t), [[0]]).value.touched
  {
    var t := ValueAndDigest(v, h);
    var zero: Key := [0];
    assert [zero][1..] == [] && t.children[zero[0]] == Leaf([], v);
    assert Mark(t, Fresh(t), zero).Ok?;
  }

  /** With key sets {0} and {} the second subset of the shared tracked trie is the open root, because
      the root's flag was never cleared; made separately it is the root's digest. */
  lemma StaleRootFlag(v: Bytes, h: H256, keccak: Hasher)
    ensures var t := ValueAndDigest(v, h); var keySets: seq<seq<Key>> := [[[0]], []];
      && SharedSubsets(t, Fresh(t), keySets, keccak).Ok? && SharedSubsets(t, Fresh(t), keySets, keccak).value[1].Branch?
      && SeparateSubsets(t, keySets, keccak).Ok?
      && SeparateSubsets(t, keySets, keccak).value[1] == Hash(RootHash(t, keccak))
      && !Undisturbed(t, keySets, false, keccak)
  {
    var t := ValueAndDigest(v, h);
    var sets: seq<seq<Key>> := [[[0]], []];
    ValueAndDigestIsHashed(v, h, keccak);
    MarkZero(v, h);
    var marked := MarkAll(t, Fresh(t), sets[0]).value;
    assert sets[1..] == [[]];
    EmptyKeySetShared(t, ResetMarks(t, marked), keccak);
    EmptyKeySetSeparate(t, keccak);
    var first := [Build(t, marked, keccak)];
    assert SharedSubsets(t, Fresh(t), sets, keccak) == Ok(first + [Build(t, ResetMarks(t, marked), keccak)]);
    assert SeparateSubsets(t, sets, keccak) == Ok(first + [Build(t, Fresh(t), keccak)]);
    SharedIsSeparate(t, sets, false, keccak);
    assert Fresh(t).(touched := false) == Fresh(t);
  }

  lemma ValueAndDigestCanonical(v: Bytes, h: H256)
    requires v != []
    ensures Canonical(ValueAndDigest(v, h))
    ensures InsertRec(Leaf([0], v), [1], HashOf(h)) == Ok(ValueAndDigest(v, h))
  {
    TwoChildren(0, Leaf([], v), 1, Hash(h), []);
    var n: Key := [0];
    var k: Key := [1];
    assert CommonPrefixLen(n, k) == 0 && n[1..] == [] && k[1..] == [];
  }

  lemma RewriteValue(v: Bytes, w: Bytes, h: H256)
    requires v != [] && w != []
    ensures InsertRec(ValueAndDigest(v, h), [0], Val(w)) == Ok(ValueAndDigest(w, h))
    ensures InsertRec(ValueAndDigest(w, h), [1, 0], Val(w)).Err?
    ensures PlacedKey(ValueAndDigest(v, h), [0]) == [0] && Lookup(ValueAndDigest(v, h), [0]) == Some(Val(v))
  {
    var t := ValueAndDigest(v, h);
    var k: Key := [0];
    assert t.children[0] == Leaf([], v) && k[1..] == [];
    assert WithSlot(t.children, 0, Leaf([], w)) == ValueAndDigest(w, h).children;
    assert ValueAndDigest(w, h).children[1] == Hash(h);
  }

  /** A handle on that trie with its hash cached. */
  method MakeValueAndDigest(v: Bytes, h: H256, keccak: Hasher) returns (a: HashedPartialTrie)
    requires v != []
    ensures fresh(a) && fresh(a.cell) && fresh(a.cells) && a.Coherent(keccak)
    ensures a.Trie() == ValueAndDigest(v, h) && a.cell.hash == Some(RootHash(a.Trie(), keccak))
  {
    a := new HashedPartialTrie(Reject);
    var _ := a.Insert([0], Val(v), keccak);
    ValueAndDigestCanonical(v, h);
    var _ := a.Insert([1], HashOf(h), keccak);
    var _ := a.Intern(keccak);
    ValueAndDigestIsHashed(v, h, keccak);
  }

  /** The second entry of the `extend` is refused below the digest; the first one is in, and the
      cached hash is that of the trie before. */
  method StaleAfterExtend(v: Bytes, w: Bytes, h: H256, keccak: Hasher) returns (a: HashedPartialTrie)
    requires v != [] && w != [] && v != w
    requires TellsApart(ValueAndDigest(v, h), ValueAndDigest(w, h), keccak)
    ensures a.Trie() == ValueAndDigest(w, h) && a.cell.hash == Some(RootHash(ValueAndDigest(v, h), keccak))
    ensures !a.Coherent(keccak)
  {
    a := MakeValueAndDigest(v, h, keccak);
    ValueAndDigestCanonical(v, h);
    RewriteValue(v, w, h);
    var entries := [([0], Val(w)), ([1, 0], Val(w))];
    assert InsertAll(a.Trie(), entries) == (ValueAndDigest(w, h), false) by {
      assert entries[1..] == [([1, 0], Val(w))];
      assert InsertAll(ValueAndDigest(w, h), entries[1..]) == (ValueAndDigest(w, h), false);
    }
    assert ValueAndDigest(v, h) != ValueAndDigest(w, h) by {
      assert ValueAndDigest(v, h).children[0] == Leaf([], v) && ValueAndDigest(w, h).children[0] == Leaf([], w);
    }
    InsertAllIsIdle(a.Trie(), entries);
    FailedExtend(a, entries, keccak);
  }

  /** The other clone writes another value and interns its hash. */
  method StaleAfterClone(v: Bytes, w: Bytes, h: H256, keccak: Hasher) returns (a: HashedPartialTrie, b: HashedPartialTrie)
    requires v != [] && w != [] && v != w
    requires TellsApart(ValueAndDigest(v, h), ValueAndDigest(w, h), keccak)
    ensures a.Trie() == ValueAndDigest(v, h) && b.Trie() == ValueAndDigest(w, h)
    ensures b.Coherent(keccak) && !a.Coherent(keccak)
  {
    a := MakeValueAndDigest(v, h, keccak);
    ValueAndDigestCanonical(v, h);
    RewriteValue(v, w, h);
    ValueAndDigestIsHashed(w, h, keccak);
    b := InsertedClone(a, [0], Val(w), keccak);
  }
}
