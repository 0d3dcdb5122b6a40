/** Whole runs of `set` and `delete`, and when `get` has an answer. */
module SmtRuns {
  import opened Wrappers
  import opened SmtKeys
  import opened SmtTree
  import opened SmtEdit
  import opened SmtUpdate
  import opened Smt

  datatype Call = SetCall(key: Key, value: Word) | DeleteCall(key: Key)

  function AfterCall(kv: map<Key, Word>, call: Call): map<Key, Word> {
    if call.SetCall? && call.value != 0 then kv[call.key := call.value] else kv - {call.key}
  }

  function After(kv: map<Key, Word>, calls: seq<Call>): map<Key, Word>
    decreases |calls|
  {
    if calls == [] then kv
    else AfterCall(After(kv, calls[..|calls| - 1]), calls[|calls| - 1])
  }

  function KeysOf(calls: seq<Call>): set<Key> {
    set c <- calls :: c.key
  }

  lemma {:induction false} AfterKeys(kv: map<Key, Word>, calls: seq<Call>)
    ensures After(kv, calls).Keys <= kv.Keys + KeysOf(calls)
    decreases |calls|
  {
    if calls != [] {
      AfterKeys(kv, calls[..|calls| - 1]);
      assert KeysOf(calls[..|calls| - 1]) <= KeysOf(calls);
      assert calls[|calls| - 1].key in KeysOf(calls);
    }
  }

  /** After any run the tree is the canonical tree of the shadow map, and the map is what the calls
      say. */
  method RunCalls(s: SmtState, calls: seq<Call>)
    requires s.Valid() && PartEarly(s.kvStore.Keys + KeysOf(calls))
    modifies s
    ensures s.Valid() && s.kvStore == After(old(s.kvStore), calls)
  {
    ghost var kv := s.kvStore;
    for i := 0 to |calls|
      invariant s.Valid() && s.kvStore == After(kv, calls[..i])
    {
      var call := calls[i];
      assert calls[..i + 1][..i] == calls[..i];
      AfterKeys(kv, calls[..i]);
      assert KeysOf(calls[..i]) <= KeysOf(calls) && call.key in KeysOf(calls);
      match call
      case SetCall(k, v) => s.Set(k, v, s.kvStore);
      case DeleteCall(k) => s.Delete(k);
    }
    assert calls[..|calls|] == calls;
  }

  lemma EqualRootsEqualMaps(root: Digest, kv: map<Key, Word>, kv': map<Key, Word>)
    requires Represents(root, kv) && Represents(root, kv')
    ensures kv == kv'
  {
    forall k ensures k in kv <==> k in kv'
      ensures k in kv ==> kv[k] == kv'[k]
    {
      assert Content(root, 0, k) == if k in kv then kv[k] else 0;
      assert Content(root, 0, k) == if k in kv' then kv'[k] else 0;
    }
  }

  /** Two runs from the empty tree end with the same root exactly when they end with the same map:
      neither the order of the calls nor keys that came and went leave a trace. */
  method CompareRuns(calls1: seq<Call>, calls2: seq<Call>) returns (same: bool)
    requires PartEarly(KeysOf(calls1)) && PartEarly(KeysOf(calls2))
    ensures same <==> After(map[], calls1) == After(map[], calls2)
  {
    var a := new SmtState();
    var b := new SmtState();
    RunCalls(a, calls1);
    RunCalls(b, calls2);
    same := a.root == b.root;
    if same {
      EqualRootsEqualMaps(a.root, a.kvStore, b.kvStore);
    } else if a.kvStore == b.kvStore {
      RootDeterminedByMap(a.root, b.root, a.kvStore);
    }
  }

  // ---------------------------------------------------------------------------------------------
  // When `get` has an answer
  // ---------------------------------------------------------------------------------------------

  ghost predicate SharesBits(a: Key, k: Key, n: nat)
    requires n <= 256
  {
    Split(a)[..n] == Split(k)[..n]
  }

  /** At some depth the path of k leaves a pair of keys of the map, towards a side without keys. */
  ghost predicate LeavesPairAt(kv: map<Key, Word>, k: Key, n: nat, a: Key, b: Key) {
    && n < MAX_DEPTH && a in kv && b in kv && a != b && SharesBits(a, k, n) && SharesBits(b, k, n)
    && forall q :: q in kv ==> !SharesBits(q, k, n + 1)
  }

  lemma {:induction false} WalkEnd(t: Digest, k: Key, i: nat) returns (n: nat, d: Digest)
    requires i <= MAX_DEPTH && Canonical(t, Split(k)[..i])
    ensures i <= n <= MAX_DEPTH && PathTo(t, Split(k), i, n) && At(t, Split(k), i, n) == d
    ensures d == Zero || (d.Of? && d.node.LeafNode?)
    decreases t
  {
    if t.Of? && t.node.Internal? {
      PathBit(Split(k), i);
      n, d := WalkEnd(Child(t, Split(k)[i]), k, i + 1);
    } else {
      n, d := i, t;
    }
  }

  /** `get` reaches its `unreachable!()` exactly when the map is empty or the key's path leaves a pair
      of keys towards an empty side. */
  lemma GetHasNoAnswer(root: Digest, kv: map<Key, Word>, k: Key)
    requires Represents(root, kv)
    ensures EndsEmpty(root, k, 0) <==> kv == map[] || exists n, a, b :: LeavesPairAt(kv, k, n, a, b)
  {
    Root(Split(k));
    var n, d := WalkEnd(root, k, 0);
    EndsEmptyAt(root, k, 0, n, d);
    if d == Zero {
      EmptyEnd(root, kv, k, n);
    } else {
      var q, w := FoundLeaf(root, kv, k, n, d);
      LeafContent(d, Split(k)[..n], q, w, q);
      ContentBelow(root, kv, k, n, d, q);
      forall m, a, b ensures !LeavesPairAt(kv, k, m, a, b) {
        LeafEnd(root, kv, k, n, d, q, w, m, a, b);
      }
    }
  }

  lemma Shorter(a: Key, k: Key, n: nat, m: nat)
    requires m <= n <= 256 && SharesBits(a, k, n)
    ensures SharesBits(a, k, m)
  {
    assert Split(a)[..m] == Split(a)[..n][..m] && Split(k)[..m] == Split(k)[..n][..m];
  }

  lemma LeafEnd(root: Digest, kv: map<Key, Word>, k: Key, n: nat, d: Digest, q: Key, w: Word, m: nat, a: Key, b: Key)
    requires Represents(root, kv) && Reaches(root, k, n, d) && IsLeafOf(d, Split(k)[..n], q, w) && q in kv
    ensures !LeavesPairAt(kv, k, m, a, b)
  {
    assert SharesBits(q, k, n);
    if m < n {
      Shorter(q, k, n, m + 1);
    } else if LeavesPairAt(kv, k, m, a, b) {
      OnlyLeaf(root, kv, k, n, d, q, w, m, a);
      OnlyLeaf(root, kv, k, n, d, q, w, m, b);
    }
  }

  lemma OnlyLeaf(root: Digest, kv: map<Key, Word>, k: Key, n: nat, d: Digest, q: Key, w: Word, m: nat, a: Key)
    requires Represents(root, kv) && Reaches(root, k, n, d) && IsLeafOf(d, Split(k)[..n], q, w)
    requires n <= m <= 256 && SharesBits(a, k, m) && a in kv
    ensures a == q
  {
    Shorter(a, k, m, n);
    assert Split(k)[..n] <= Split(a);
    LeafContent(d, Split(k)[..n], q, w, a);
    ContentBelow(root, kv, k, n, d, a);
  }

  lemma EmptyEnd(root: Digest, kv: map<Key, Word>, k: Key, n: nat)
    requires Represents(root, kv) && Reaches(root, k, n, Zero)
    ensures kv == map[] || exists m, a, b :: LeavesPairAt(kv, k, m, a, b)
  {
    forall q | q in kv ensures !SharesBits(q, k, n) {
      if SharesBits(q, k, n) { ContentBelow(root, kv, k, n, Zero, q); }
    }
    if n == 0 {
      assert forall q :: SharesBits(q, k, 0);
      assert kv.Keys == {};
    } else {
      Parent(root, kv, k, n, Zero);
      var p := At(root, Split(k), 0, n - 1);
      CanonicalBelow(root, kv, k, n - 1, p);
      var a, b := TwoKeys(p, Split(k)[..n - 1]);
      assert SharesBits(a, k, n - 1) && SharesBits(b, k, n - 1);
      ContentBelow(root, kv, k, n - 1, p, a);
      ContentBelow(root, kv, k, n - 1, p, b);
      assert LeavesPairAt(kv, k, n - 1, a, b);
    }
  }
}
