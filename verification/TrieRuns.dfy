/** Whole runs of insertions and deletions: the trie is always the canonical trie of the finite map
    that the run has built, whatever the order of the operations. */
module TrieRuns {
  import opened Wrappers
  import opened Nibbles
  import opened PartialTrie
  import opened TrieOps
  import opened InsertContent
  import opened InsertMany
  import opened DeleteContent
  import opened DeleteLimits

  datatype Op = Put(key: Key, entry: Entry) | Del(key: Key)

  function Step(t: Node, op: Op, s: OnOrphanedHashNode): (r: Result<Node, TrieError>)
    requires t.Wf()
    ensures r.Ok? ==> r.value.Wf()
  {
    match op
    case Put(k, v) => InsertRec(t, k, v)
    case Del(k) =>
      var res :- Delete(t, k, s);
      Ok(if res.None? then t else res.value.0)
  }

  function Run(t: Node, ops: seq<Op>, s: OnOrphanedHashNode): (r: Result<Node, TrieError>)
    requires t.Wf()
    ensures r.Ok? ==> r.value.Wf()
    decreases |ops|
  {
    if ops == [] then Ok(t)
    else
      var next :- Step(t, ops[0], s);
      Run(next, ops[1..], s)
  }

  function MapStep(m: map<Key, Entry>, op: Op): map<Key, Entry> {
    match op
    case Put(k, v) => m[k := v]
    case Del(k) => m - {k}
  }

  /** The finite map that the same operations build. */
  function MapAfter(m: map<Key, Entry>, ops: seq<Op>): map<Key, Entry>
    decreases |ops|
  {
    if ops == [] then m else MapAfter(MapStep(m, ops[0]), ops[1..])
  }

  ghost predicate Represents(t: Node, m: map<Key, Entry>) {
    && Canonical(t) && t.Wf()
    && forall q :: Lookup(t, q) == if q in m then Some(m[q]) else None
  }

  /** No key of the universe is a proper prefix of another; keys of one length are an instance. */
  ghost predicate PrefixFree(keys: iset<Key>) {
    forall a, b :: a in keys && b in keys && a <= b ==> a == b
  }

  ghost predicate OpOver(op: Op, keys: iset<Key>) {
    op.key in keys && (op.Put? ==> EntryOk(op.entry))
  }

  ghost predicate Over(ops: seq<Op>, keys: iset<Key>) {
    forall i :: 0 <= i < |ops| ==> OpOver(ops[i], keys)
  }

  lemma FixedLengthIsPrefixFree(n: nat)
    ensures PrefixFree(iset k: Key | |k| == n)
  {
  }

  lemma ValueHere(t: Node)
    requires t.Wf() && t.Branch?
    ensures t.value != [] ==> Lookup(t, []).Some?
  {
  }

  /** The keys of t, moved to path p, are in the universe. */
  ghost predicate HeldUnder(t: Node, p: Key, keys: iset<Key>)
    requires t.Wf()
  {
    forall q :: Lookup(t, q).Some? ==> p + q in keys
  }

  lemma HeldUnderSlot(t: Node, p: Key, j: Nibble, keys: iset<Key>)
    requires t.Branch? && t.Wf() && HeldUnder(t, p, keys)
    ensures HeldUnder(t.children[j], p + [j], keys)
  {
    forall q | Lookup(t.children[j], q).Some? ensures p + [j] + q in keys {
      assert ([j] + q)[1..] == q;
      assert Lookup(t, [j] + q).Some?;
      assert p + ([j] + q) == p + [j] + q;
    }
  }

  lemma HeldUnderExtension(n: Key, child: Node, p: Key, keys: iset<Key>)
    requires child.Wf() && HeldUnder(Extension(n, child), p, keys)
    ensures HeldUnder(child, p + n, keys)
  {
    forall q | Lookup(child, q).Some? ensures p + n + q in keys {
      ExtensionLookup(n, child, q);
      assert p + (n + q) == p + n + q;
    }
  }

  /** A branch holds a key that is not empty, so it can hold no value and no key may end at it. */
  lemma NoValueInBranch(t: Node, p: Key, keys: iset<Key>)
    requires t.Branch? && Canonical(t) && t.Wf() && PrefixFree(keys) && HeldUnder(t, p, keys)
    ensures t.value == [] && p !in keys
  {
    assert p + [] == p;
    ValueHere(t);
    var k1, k2 := BranchForks(t);
    assert p + k1 in keys && p <= p + k1;
  }

  /** On a prefix-free universe no branch has a value and no key ends inside an extension. */
  lemma {:induction false} PrefixFreeIsSafe(t: Node, p: Key, k: Key, keys: iset<Key>)
    requires Canonical(t) && t.Wf() && PrefixFree(keys) && p + k in keys && HeldUnder(t, p, keys)
    ensures !EndsInsideExtension(t, k) && SafeDelete(t, k)
    decreases t
  {
    match t
    case Branch(children, value) =>
      assert p + [] == p;
      NoValueInBranch(t, p, keys);
      if k != [] {
        HeldUnderSlot(t, p, k[0], keys);
        assert p + k == p + [k[0]] + k[1..];
        PrefixFreeIsSafe(children[k[0]], p + [k[0]], k[1..], keys);
      }
    case Extension(n, child) =>
      if n <= k {
        HeldUnderExtension(n, child, p, keys);
        assert p + k == p + n + k[|n|..];
        PrefixFreeIsSafe(child, p + n, k[|n|..], keys);
      } else if k <= n {
        var r := SomeKey(child);
        ExtensionLookup(n, child, r);
      }
    case _ =>
  }

  /** Canonical, with all its keys in a prefix-free universe. */
  ghost predicate Within(t: Node, keys: iset<Key>) {
    Canonical(t) && t.Wf() && forall q :: Lookup(t, q).Some? ==> q in keys
  }

  lemma WithinSafe(t: Node, k: Key, keys: iset<Key>)
    requires Within(t, keys) && PrefixFree(keys) && k in keys
    ensures !EndsInsideExtension(t, k) && SafeDelete(t, k)
  {
    assert [] + k == k;
    forall q | Lookup(t, q).Some? ensures [] + q in keys {
      assert [] + q == q;
    }
    PrefixFreeIsSafe(t, [], k, keys);
  }

  lemma RepresentsSafe(t: Node, m: map<Key, Entry>, k: Key, keys: iset<Key>)
    requires Represents(t, m) && PrefixFree(keys) && k in keys && forall q :: q in m ==> q in keys
    ensures Within(t, keys) && !EndsInsideExtension(t, k) && SafeDelete(t, k)
  {
    WithinSafe(t, k, keys);
  }

  lemma StepRepresents(t: Node, m: map<Key, Entry>, op: Op, s: OnOrphanedHashNode, keys: iset<Key>)
    requires Represents(t, m) && PrefixFree(keys) && OpOver(op, keys) && forall q :: q in m ==> q in keys
    requires Step(t, op, s).Ok?
    ensures Represents(Step(t, op, s).value, MapStep(m, op))
  {
    RepresentsSafe(t, m, op.key, keys);
    match op
    case Put(k, v) =>
      InsertKeepsCanonical(t, k, v);
      forall q { InsertLookup(t, k, v, q); }
    case Del(k) =>
      forall q { DeleteCorrect(t, k, s, q); }
      DeleteCorrect(t, k, s, []);
  }

  lemma StepWithin(t: Node, op: Op, s: OnOrphanedHashNode, keys: iset<Key>)
    requires Within(t, keys) && PrefixFree(keys) && OpOver(op, keys) && Step(t, op, s).Ok?
    ensures Within(Step(t, op, s).value, keys)
  {
    WithinSafe(t, op.key, keys);
    match op
    case Put(k, v) =>
      InsertKeepsCanonical(t, k, v);
      forall q { InsertLookup(t, k, v, q); }
    case Del(k) =>
      forall q { DeleteCorrect(t, k, s, q); }
      DeleteCorrect(t, k, s, []);
  }

  /** Digests of the first trie are still there in the second. */
  ghost predicate DigestsKept(t0: Node, t: Node)
    requires t0.Wf() && t.Wf()
  {
    forall q :: Lookup(t0, q).Some? && Lookup(t0, q).value.HashOf? ==> Lookup(t, q) == Lookup(t0, q)
  }

  lemma StepKeepsDigests(t0: Node, t: Node, op: Op, s: OnOrphanedHashNode, keys: iset<Key>)
    requires t0.Wf() && t.Wf() && DigestsKept(t0, t)
    requires Within(t, keys) && PrefixFree(keys) && OpOver(op, keys) && Step(t, op, s).Ok?
    ensures DigestsKept(t0, Step(t, op, s).value) && !MeetsHash(t, op.key)
  {
    WithinSafe(t, op.key, keys);
    if MeetsHash(t, op.key) {
      if op.Put? { HashBlocks(t, op.key, op.entry); } else { DeleteFails(t, op.key, s); }
    }
    forall q | Lookup(t0, q).Some? && Lookup(t0, q).value.HashOf?
      ensures Lookup(Step(t, op, s).value, q) == Lookup(t0, q)
    {
      DigestMet(t, q);
      match op
      case Put(k, v) => InsertLookup(t, k, v, q);
      case Del(k) => DeleteCorrect(t, k, s, q);
    }
  }

  /** A step that writes no digest brings none in. */
  lemma StepAddsNoDigest(t: Node, op: Op, s: OnOrphanedHashNode, keys: iset<Key>)
    requires Within(t, keys) && PrefixFree(keys) && OpOver(op, keys) && Step(t, op, s).Ok? && (op.Put? ==> op.entry.Val?)
    ensures DigestsKept(Step(t, op, s).value, t)
  {
    WithinSafe(t, op.key, keys);
    forall q | Lookup(Step(t, op, s).value, q).Some? && Lookup(Step(t, op, s).value, q).value.HashOf?
      ensures Lookup(t, q) == Lookup(Step(t, op, s).value, q)
    {
      match op
      case Put(k, v) => InsertLookup(t, k, v, q);
      case Del(k) => DeleteCorrect(t, k, s, q);
    }
  }

  /** After any successful run the trie is the canonical trie of the map the run built. */
  lemma {:induction false} RunRepresents(t: Node, m: map<Key, Entry>, ops: seq<Op>, s: OnOrphanedHashNode, keys: iset<Key>)
    requires Represents(t, m) && PrefixFree(keys) && Over(ops, keys) && forall q :: q in m ==> q in keys
    requires Run(t, ops, s).Ok?
    ensures Represents(Run(t, ops, s).value, MapAfter(m, ops))
    decreases |ops|
  {
    if ops != [] {
      StepRepresents(t, m, ops[0], s, keys);
      RunRepresents(Step(t, ops[0], s).value, MapStep(m, ops[0]), ops[1..], s, keys);
    }
  }

  lemma RepresentsUnique(a: Node, b: Node, m: map<Key, Entry>)
    requires Represents(a, m) && Represents(b, m)
    ensures a == b
  {
    assert SameContent(a, b);
    CanonicalUnique(a, b);
  }

  /** Two successful runs that build the same map end in the same trie, whatever their operations,
      their order and their collapse strategies. */
  lemma HistoryIndependence(ops1: seq<Op>, s1: OnOrphanedHashNode, ops2: seq<Op>, s2: OnOrphanedHashNode, keys: iset<Key>)
    requires PrefixFree(keys) && Over(ops1, keys) && Over(ops2, keys)
    requires Run(Empty, ops1, s1).Ok? && Run(Empty, ops2, s2).Ok?
    requires MapAfter(map[], ops1) == MapAfter(map[], ops2)
    ensures Run(Empty, ops1, s1).value == Run(Empty, ops2, s2).value
  {
    RunRepresents(Empty, map[], ops1, s1, keys);
    RunRepresents(Empty, map[], ops2, s2, keys);
    RepresentsUnique(Run(Empty, ops1, s1).value, Run(Empty, ops2, s2).value, MapAfter(map[], ops1));
  }

  /** Deleting a key that was just inserted gives back the trie there was before. */
  lemma DeleteUndoesInsert(t: Node, m: map<Key, Entry>, k: Key, v: Entry, s: OnOrphanedHashNode, keys: iset<Key>)
    requires Represents(t, m) && PrefixFree(keys) && k in keys && forall q :: q in m ==> q in keys
    requires EntryOk(v) && k !in m
    requires Run(t, [Put(k, v), Del(k)], s).Ok?
    ensures Run(t, [Put(k, v), Del(k)], s).value == t
  {
    RunRepresents(t, m, [Put(k, v), Del(k)], s, keys);
    assert [Put(k, v), Del(k)][1..] == [Del(k)] && [Del(k)][1..] == [];
    assert m[k := v] - {k} == m;
    assert MapAfter(m[k := v], [Del(k)]) == m;
    assert MapAfter(m, [Put(k, v), Del(k)]) == MapAfter(m[k := v], [Del(k)]);
    RepresentsUnique(t, Run(t, [Put(k, v), Del(k)], s).value, m);
  }

  // ---------------------------------------------------------------------------------------------
  // Runs over plain values never fail
  // ---------------------------------------------------------------------------------------------

  /** A walk that meets a hash node meets the digest of a key that agrees with its own. */
  lemma {:induction false} HashOnWalk(t: Node, k: Key) returns (q: Key)
    requires Canonical(t) && t.Wf() && MeetsHash(t, k)
    ensures Lookup(t, q).Some? && Lookup(t, q).value.HashOf? && Agree(q, k)
    decreases t
  {
    match t
    case Branch(children, _) =>
      var r := HashOnWalk(children[k[0]], k[1..]);
      q := [k[0]] + r;
      assert k == [k[0]] + k[1..];
    case Extension(n, child) =>
      var r := HashOnWalk(child, DropClamped(k, |n|));
      q := n + r;
      ExtensionLookup(n, child, r);
      if n <= k { PrefixSplit(n, k); }
    case _ => q := [];
  }

  lemma {:induction false} OrphanedHash(t: Node, k: Key) returns (q: Key)
    requires Canonical(t) && t.Wf() && OrphansHash(t, k)
    ensures Lookup(t, q).Some? && Lookup(t, q).value.HashOf?
    decreases t
  {
    match t
    case Branch(children, _) =>
      if OrphansHere(t, k) {
        var j: Nibble :| j != k[0] && children[j].Hash?;
        q := [j];
      } else {
        var r := OrphanedHash(children[k[0]], k[1..]);
        q := [k[0]] + r;
      }
    case Extension(n, child) =>
      var r := OrphanedHash(child, k[|n|..]);
      q := n + r;
      ExtensionLookup(n, child, r);
  }

  /** Starting from nothing, value insertions and deletions succeed in every order. */
  lemma {:induction false} PlainRunsSucceed(t: Node, m: map<Key, Entry>, ops: seq<Op>, s: OnOrphanedHashNode, keys: iset<Key>)
    requires Represents(t, m) && PrefixFree(keys) && Over(ops, keys) && forall q :: q in m ==> q in keys && m[q].Val?
    requires forall i :: 0 <= i < |ops| ==> ops[i].Put? ==> ops[i].entry.Val?
    ensures Run(t, ops, s).Ok?
    decreases |ops|
  {
    if ops != [] {
      var k := ops[0].key;
      RepresentsSafe(t, m, k, keys);
      if MeetsHash(t, k) { var q := HashOnWalk(t, k); }
      if OrphansHash(t, k) { var q := OrphanedHash(t, k); }
      if ops[0].Put? { InsertFails(t, k, ops[0].entry); } else { DeleteFails(t, k, s); }
      StepRepresents(t, m, ops[0], s, keys);
      PlainRunsSucceed(Step(t, ops[0], s).value, MapStep(m, ops[0]), ops[1..], s, keys);
    }
  }
}
