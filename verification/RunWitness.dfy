/** The decoder's witness over a whole run of writes: the keys accessed and the reports of all the
    deletions, collected while the full trie is updated, are enough to replay the run on a subset of
    the trie there was at the start. */
module RunWitness {
  import opened Wrappers
  import opened Nibbles
  import opened PartialTrie
  import opened TrieOps
  import opened InsertContent
  import opened InsertMany
  import opened DeleteContent
  import opened DeleteLimits
  import opened TrieHashing
  import opened TrieRuns
  import opened TrieSubsets
  import opened Replay
  import opened DeleteWitness

  /** Applies the writes and collects what the deletions report. */
  function RunAndReport(t: Node, ops: seq<Op>, s: OnOrphanedHashNode): (r: Result<(Node, seq<Key>), TrieError>)
    requires t.Wf()
    ensures r.Ok? ==> r.value.0.Wf()
    decreases |ops|
  {
    if ops == [] then Ok((t, []))
    else
      match ops[0]
      case Put(k, v) =>
        var next :- InsertRec(t, k, v);
        RunAndReport(next, ops[1..], s)
      case Del(k) =>
        var res :- DeleteAndReport(t, k, s);
        var rest :- RunAndReport(res.0, ops[1..], s);
        Ok((rest.0, (if res.1.Some? then [res.1.value] else []) + rest.1))
  }

  function OpKeys(ops: seq<Op>): seq<Key> {
    seq(|ops|, i requires 0 <= i < |ops| => ops[i].key)
  }

  /** A step keeps the subset standing for the full trie, as long as its key, and the key of the
      child left by a collapse, are clear of hidden nodes. */
  lemma StepReplays(p: Node, t: Node, op: Op, s: OnOrphanedHashNode, hid: Hidden, keys: iset<Key>, keccak: Hasher)
    requires p.Wf() && StandsFor(p, t, hid, keccak)
    requires Within(t, keys) && PrefixFree(keys) && OpOver(op, keys) && Step(t, op, s).Ok?
    requires Clear(op.key, hid)
    requires op.Del? && CollapseKey(t, op.key).Some? ==> Clear(CollapseKey(t, op.key).value, hid)
    ensures Step(p, op, s).Ok? && StandsFor(Step(p, op, s).value, Step(t, op, s).value, hid, keccak)
  {
    WithinSafe(t, op.key, keys);
    match op
    case Put(k, v) =>
      InsertStandsFor(p, t, hid, k, v, keccak);
    case Del(k) => DeleteStandsFor(p, t, hid, k, s, keccak);
  }

  /** What the first deletion of a run reports. */
  function FirstReport(t: Node, op: Op): seq<Key>
    requires t.Wf()
  {
    if op.Del? && CollapseKey(t, op.key).Some? then [CollapseKey(t, op.key).value] else []
  }

  /** A run that collects reports, as its first step and the run behind it. */
  lemma RunHead(t: Node, ops: seq<Op>, s: OnOrphanedHashNode, keys: iset<Key>)
    requires Within(t, keys) && PrefixFree(keys) && Over(ops, keys) && ops != [] && RunAndReport(t, ops, s).Ok?
    ensures Step(t, ops[0], s).Ok? && Within(Step(t, ops[0], s).value, keys)
    ensures RunAndReport(Step(t, ops[0], s).value, ops[1..], s).Ok?
    ensures var rest := RunAndReport(Step(t, ops[0], s).value, ops[1..], s).value;
      RunAndReport(t, ops, s).value == (rest.0, FirstReport(t, ops[0]) + rest.1)
  {
    var op := ops[0];
    WithinSafe(t, op.key, keys);
    if op.Del? { ReportIsCollapseKey(t, op.key, s); }
    assert Step(t, op, s).Ok?;
    StepWithin(t, op, s, keys);
    if op.Put? {
      var later := RunAndReport(Step(t, op, s).value, ops[1..], s).value.1;
      assert [] + later == later;
    }
  }

  ghost predicate AllClear(ks: seq<Key>, hid: Hidden) {
    forall i :: 0 <= i < |ks| ==> Clear(ks[i], hid)
  }

  lemma AllClearParts(a: seq<Key>, b: seq<Key>, hid: Hidden)
    requires AllClear(a + b, hid)
    ensures AllClear(a, hid) && AllClear(b, hid)
  {
    assert forall i :: 0 <= i < |a| ==> (a + b)[i] == a[i];
    assert forall i :: 0 <= i < |b| ==> (a + b)[|a| + i] == b[i];
  }

  /** What is clear for the run is clear for its first step and for the run behind it. */
  lemma HeadClear(t: Node, ops: seq<Op>, rest: seq<Key>, hid: Hidden)
    requires t.Wf() && ops != [] && AllClear(OpKeys(ops), hid) && AllClear(FirstReport(t, ops[0]) + rest, hid)
    ensures Clear(ops[0].key, hid) && AllClear(OpKeys(ops[1..]), hid) && AllClear(rest, hid)
    ensures ops[0].Del? && CollapseKey(t, ops[0].key).Some? ==> Clear(CollapseKey(t, ops[0].key).value, hid)
  {
    AllClearParts(FirstReport(t, ops[0]), rest, hid);
    assert OpKeys(ops) == [ops[0].key] + OpKeys(ops[1..]);
    AllClearParts([ops[0].key], OpKeys(ops[1..]), hid);
    assert Clear([ops[0].key][0], hid);
    if FirstReport(t, ops[0]) != [] { assert Clear(FirstReport(t, ops[0])[0], hid); }
  }

  lemma {:induction false} RunReplays(p: Node, t: Node, ops: seq<Op>, s: OnOrphanedHashNode, hid: Hidden, keys: iset<Key>, keccak: Hasher)
    requires p.Wf() && StandsFor(p, t, hid, keccak)
    requires Within(t, keys) && PrefixFree(keys) && Over(ops, keys) && RunAndReport(t, ops, s).Ok?
    requires AllClear(OpKeys(ops), hid) && AllClear(RunAndReport(t, ops, s).value.1, hid)
    ensures Run(p, ops, s).Ok?
    ensures StandsFor(Run(p, ops, s).value, RunAndReport(t, ops, s).value.0, hid, keccak)
    decreases |ops|
  {
    if ops != [] {
      RunHead(t, ops, s, keys);
      var next := Step(t, ops[0], s).value;
      HeadClear(t, ops, RunAndReport(next, ops[1..], s).value.1, hid);
      StepReplays(p, t, ops[0], s, hid, keys, keccak);
      RunReplays(Step(p, ops[0], s).value, next, ops[1..], s, hid, keys, keccak);
    }
  }

  /** The list has the key, or one that extends it. */
  predicate Covers(needed: seq<Key>, k: Key) {
    exists i :: 0 <= i < |needed| && k <= needed[i]
  }

  predicate CoversAll(needed: seq<Key>, ks: seq<Key>) {
    forall i :: 0 <= i < |ks| ==> Covers(needed, ks[i])
  }

  /** What is off the way of the listed keys is off the way of the keys they cover. */
  lemma CoveredClear(needed: seq<Key>, ks: seq<Key>, hid: Hidden)
    requires CoversAll(needed, ks) && AllClear(needed, hid)
    ensures AllClear(ks, hid)
  {
    forall i, q, x | 0 <= i < |ks| && (q, x) in hid ensures !Reached(ks[i], q, x) {
      assert Covers(needed, ks[i]);
      var j :| 0 <= j < |needed| && ks[i] <= needed[j];
      assert Clear(needed[j], hid);
      if q <= ks[i] { assert q <= needed[j]; }
    }
  }

  /** If a run succeeds on the full trie and the subset for a list that covers its keys and reports
      can be built, then the run succeeds on the subset, which has the full trie's root before and
      after. The list may hold any other keys as well, those of reads for instance. */
  lemma RunWitnessSuffices(t: Node, ops: seq<Op>, s: OnOrphanedHashNode, needed: seq<Key>, keys: iset<Key>, keccak: Hasher)
    requires Within(t, keys) && PrefixFree(keys) && Over(ops, keys) && RunAndReport(t, ops, s).Ok?
    requires CoversAll(needed, OpKeys(ops)) && CoversAll(needed, RunAndReport(t, ops, s).value.1)
    requires CreateSubset(t, needed, keccak).Ok?
    ensures var p := CreateSubset(t, needed, keccak).value;
      && Run(p, ops, s).Ok?
      && RootHash(p, keccak) == RootHash(t, keccak)
      && RootHash(Run(p, ops, s).value, keccak) == RootHash(RunAndReport(t, ops, s).value.0, keccak)
  {
    var p := CreateSubset(t, needed, keccak).value;
    var hid := HiddenAfter(t, needed);
    SubsetStandsFor(t, needed, keccak);
    CoveredClear(needed, OpKeys(ops), hid);
    CoveredClear(needed, RunAndReport(t, ops, s).value.1, hid);
    RunReplays(p, t, ops, s, hid, keys, keccak);
    StandsForSameEncoding(p, t, hid, keccak);
    StandsForSameEncoding(Run(p, ops, s).value, RunAndReport(t, ops, s).value.0, hid, keccak);
  }

  /** The run that collects reports is the plain run. */
  lemma {:induction false} ReportingChangesNothing(t: Node, ops: seq<Op>, s: OnOrphanedHashNode)
    requires t.Wf()
    ensures RunAndReport(t, ops, s).Ok? == Run(t, ops, s).Ok?
    ensures Run(t, ops, s).Ok? ==> RunAndReport(t, ops, s).value.0 == Run(t, ops, s).value
    decreases |ops|
  {
    if ops != [] && Step(t, ops[0], s).Ok? {
      ReportingChangesNothing(Step(t, ops[0], s).value, ops[1..], s);
    }
  }

  // ---------------------------------------------------------------------------------------------
  // When the subset for a run can be built
  // ---------------------------------------------------------------------------------------------

  /** The key runs out strictly inside the nibbles of an extension, having entered them. */
  predicate StopsWithin(t: Node, k: Key)
    requires t.Wf()
    decreases t
  {
    match t
    case Branch(children, _) => k != [] && StopsWithin(children[k[0]], k[1..])
    case Extension(n, child) => if n <= k then StopsWithin(child, k[|n|..]) else k != [] && k <= n
    case _ => false
  }

  /** A digest is stored strictly above the key. */
  ghost predicate PassesHash(t: Node, k: Key)
    requires t.Wf()
  {
    exists q :: q <= k && q != k && Lookup(t, q).Some? && Lookup(t, q).value.HashOf?
  }

  lemma {:induction false} HashStopsMark(t: Node, m: Marks, k: Key, q: Key)
    requires t.Wf() && Fits(t, m) && q <= k && q != k
    requires Lookup(t, q).Some? && Lookup(t, q).value.HashOf?
    ensures Mark(t, m, k).Err? && MeetsHash(t, k)
    decreases t
  {
    match t
    case Branch(children, _) => HashStopsMark(children[k[0]], m.kids[k[0]], k[1..], q[1..]);
    case Extension(n, child) =>
      PrefixSplit(n, k);
      PrefixSplit(n, q);
      assert q == k <==> q[|n|..] == k[|n|..];
      assert n <= k && q[|n|..] <= k[|n|..];
      HashStopsMark(child, m.kids[0], k[|n|..], q[|n|..]);
    case _ =>
  }

  lemma {:induction false} MarkStoppedBy(t: Node, m: Marks, k: Key) returns (q: Key)
    requires Canonical(t) && t.Wf() && Fits(t, m) && Mark(t, m, k).Err? && !StopsWithin(t, k)
    ensures q <= k && q != k && Lookup(t, q).Some? && Lookup(t, q).value.HashOf?
    decreases t
  {
    match t
    case Branch(children, _) =>
      var r := MarkStoppedBy(children[k[0]], m.kids[k[0]], k[1..]);
      q := [k[0]] + r;
      assert k == [k[0]] + k[1..];
    case Extension(n, child) =>
      var r := MarkStoppedBy(child, m.kids[0], k[|n|..]);
      q := n + r;
      ExtensionLookup(n, child, r);
      PrefixSplit(n, k);
    case _ => q := [];
  }

  lemma {:induction false} StopsWithinStopsMark(t: Node, m: Marks, k: Key)
    requires t.Wf() && Fits(t, m) && StopsWithin(t, k)
    ensures Mark(t, m, k).Err?
    decreases t
  {
    match t
    case Branch(children, _) => StopsWithinStopsMark(children[k[0]], m.kids[k[0]], k[1..]);
    case Extension(n, child) => if n <= k { StopsWithinStopsMark(child, m.kids[0], k[|n|..]); }
    case _ =>
  }

  /** Marking a list of keys succeeds exactly when no key stops within an extension or passes a
      digest; the flags that are already set make no difference. */
  lemma {:induction false} MarkAllSucceeds(t: Node, m: Marks, ks: seq<Key>)
    requires Canonical(t) && t.Wf() && Fits(t, m)
    ensures MarkAll(t, m, ks).Ok? <==> forall i :: 0 <= i < |ks| ==> !StopsWithin(t, ks[i]) && !PassesHash(t, ks[i])
    decreases |ks|
  {
    if ks != [] {
      var k := ks[0];
      if StopsWithin(t, k) {
        StopsWithinStopsMark(t, m, k);
      } else if PassesHash(t, k) {
        var q :| q <= k && q != k && Lookup(t, q).Some? && Lookup(t, q).value.HashOf?;
        HashStopsMark(t, m, k, q);
      } else {
        if Mark(t, m, k).Err? { var q := MarkStoppedBy(t, m, k); }
        MarkAllSucceeds(t, Mark(t, m, k).value, ks[1..]);
        assert forall i :: 0 < i < |ks| ==> ks[i] == ks[1..][i - 1];
      }
    }
  }

  ghost predicate NonePasses(t: Node, ks: seq<Key>)
    requires t.Wf()
  {
    forall i :: 0 <= i < |ks| ==> !PassesHash(t, ks[i])
  }

  predicate NoneStops(t: Node, ks: seq<Key>)
    requires t.Wf()
  {
    forall i :: 0 <= i < |ks| ==> !StopsWithin(t, ks[i])
  }

  lemma NoneJoin(t: Node, a: seq<Key>, b: seq<Key>)
    requires t.Wf()
    ensures NonePasses(t, a + b) <==> NonePasses(t, a) && NonePasses(t, b)
    ensures NoneStops(t, a + b) <==> NoneStops(t, a) && NoneStops(t, b)
  {
    assert forall i :: 0 <= i < |a| ==> (a + b)[i] == a[i];
    assert forall i :: 0 <= i < |b| ==> (a + b)[|a| + i] == b[i];
    assert forall i :: |a| <= i < |a + b| ==> (a + b)[i] == b[i - |a|];
  }

  /** None of the keys of a successful run, and none of its reports, passes a digest. */
  lemma {:induction false} RunPassesNoHash(t0: Node, t: Node, ops: seq<Op>, s: OnOrphanedHashNode, keys: iset<Key>)
    requires t0.Wf() && t.Wf() && DigestsKept(t0, t)
    requires Within(t, keys) && PrefixFree(keys) && Over(ops, keys) && RunAndReport(t, ops, s).Ok?
    ensures NonePasses(t0, OpKeys(ops)) && NonePasses(t0, RunAndReport(t, ops, s).value.1)
    decreases |ops|
  {
    if ops != [] {
      var op := ops[0];
      RunHead(t, ops, s, keys);
      var next := Step(t, op, s).value;
      StepKeepsDigests(t0, t, op, s, keys);
      RunPassesNoHash(t0, next, ops[1..], s, keys);
      StepPassesNoHash(t0, t, op, s);
      assert OpKeys(ops) == [op.key] + OpKeys(ops[1..]);
      NoneJoin(t0, [op.key], OpKeys(ops[1..]));
      NoneJoin(t0, FirstReport(t, op), RunAndReport(next, ops[1..], s).value.1);
    }
  }

  lemma StepPassesNoHash(t0: Node, t: Node, op: Op, s: OnOrphanedHashNode)
    requires t0.Wf() && t.Wf() && DigestsKept(t0, t) && Canonical(t) && !MeetsHash(t, op.key)
    ensures NonePasses(t0, [op.key]) && NonePasses(t0, FirstReport(t, op))
  {
    if PassesHash(t0, op.key) { PassesHashLater(t0, t, op.key); }
    if op.Del? && CollapseKey(t, op.key).Some? {
      var r := CollapseKey(t, op.key).value;
      MarkCollapseKey(t, Fresh(t), op.key);
      if PassesHash(t0, r) { PassesHashLater(t0, t, r); }
    }
  }

  lemma PassesHashLater(t0: Node, t: Node, k: Key)
    requires t0.Wf() && t.Wf() && DigestsKept(t0, t) && PassesHash(t0, k)
    ensures MeetsHash(t, k) && Mark(t, Fresh(t), k).Err?
  {
    var q :| q <= k && q != k && Lookup(t0, q).Some? && Lookup(t0, q).value.HashOf?;
    HashStopsMark(t, Fresh(t), k, q);
  }

  lemma {:induction false} NotInsideNotWithin(t: Node, k: Key)
    requires t.Wf() && !EndsInsideExtension(t, k)
    ensures !StopsWithin(t, k)
    decreases t
  {
    match t
    case Branch(children, _) => if k != [] { NotInsideNotWithin(children[k[0]], k[1..]); }
    case Extension(n, child) => if n <= k { NotInsideNotWithin(child, k[|n|..]); }
    case _ =>
  }

  /** The accesses hold the keys of the run, and lie in the universe. */
  ghost predicate Accesses(accesses: seq<Key>, ops: seq<Op>, keys: iset<Key>) {
    && (forall i :: 0 <= i < |accesses| ==> accesses[i] in keys)
    && (forall i :: 0 <= i < |ops| ==> ops[i].key in accesses)
  }

  lemma AccessesStopNowhere(t: Node, accesses: seq<Key>, ops: seq<Op>, keys: iset<Key>)
    requires Within(t, keys) && PrefixFree(keys) && Accesses(accesses, ops, keys)
    ensures NoneStops(t, accesses)
  {
    forall i | 0 <= i < |accesses| ensures !StopsWithin(t, accesses[i]) {
      WithinSafe(t, accesses[i], keys);
      NotInsideNotWithin(t, accesses[i]);
    }
  }

  /** The subset for the accesses and the reports of a run can be built exactly when no access passes
      a digest and no reported key stops within an extension of the trie there was at the start. */
  lemma RunSubsetExists(t: Node, ops: seq<Op>, s: OnOrphanedHashNode, accesses: seq<Key>, keys: iset<Key>, keccak: Hasher)
    requires Within(t, keys) && PrefixFree(keys) && Over(ops, keys) && RunAndReport(t, ops, s).Ok?
    requires Accesses(accesses, ops, keys)
    ensures CreateSubset(t, accesses + RunAndReport(t, ops, s).value.1, keccak).Ok? <==>
      NonePasses(t, accesses) && NoneStops(t, RunAndReport(t, ops, s).value.1)
  {
    var reports := RunAndReport(t, ops, s).value.1;
    RunPassesNoHash(t, t, ops, s, keys);
    MarkAllSucceeds(t, Fresh(t), accesses + reports);
    AccessesStopNowhere(t, accesses, ops, keys);
    NoneJoin(t, accesses, reports);
  }

  // ---------------------------------------------------------------------------------------------
  // A condition on the operations under which it always exists
  // ---------------------------------------------------------------------------------------------

  /** The key enters the nibbles of an extension and leaves, or ends, before they are through. */
  predicate LeavesWithin(t: Node, k: Key)
    requires t.Wf()
    decreases t
  {
    match t
    case Branch(children, _) => k != [] && LeavesWithin(children[k[0]], k[1..])
    case Extension(n, child) =>
      if n <= k then LeavesWithin(child, k[|n|..]) else k != [] && k[0] == n[0]
    case _ => false
  }

  /** Both keys extend r, and they part there. */
  predicate PartAt(r: Key, k1: Key, k2: Key) {
    r <= k1 && r <= k2 && |r| < |k1| && (|r| < |k2| ==> k1[|r|] != k2[|r|])
  }

  /** Keys that part within an extension cannot both follow it. */
  lemma {:induction false} PartWithin(t: Node, r: Key, k1: Key, k2: Key)
    requires t.Wf() && StopsWithin(t, r) && PartAt(r, k1, k2)
    ensures LeavesWithin(t, k1) || LeavesWithin(t, k2)
    decreases t
  {
    match t
    case Branch(children, _) => PartWithin(children[r[0]], r[1..], k1[1..], k2[1..]);
    case Extension(n, child) =>
      if n <= r { PartWithin(child, r[|n|..], k1[|n|..], k2[|n|..]); }
    case _ =>
  }

  lemma {:induction false} HeldFollows(t: Node, k: Key)
    requires t.Wf() && Lookup(t, k).Some?
    ensures !LeavesWithin(t, k)
    decreases t
  {
    match t
    case Branch(children, _) => if k != [] { HeldFollows(children[k[0]], k[1..]); }
    case Extension(n, child) => HeldFollows(child, k[|n|..]);
    case _ =>
  }

  /** A collapse key is held, or two held keys part there. */
  ghost predicate HeldOrFork(t: Node, r: Key)
    requires t.Wf()
  {
    Lookup(t, r).Some? || exists k1, k2 :: Lookup(t, k1).Some? && Lookup(t, k2).Some? && PartAt(r, k1, k2)
  }

  lemma PartBelow(p: Key, r: Key, k1: Key, k2: Key)
    requires PartAt(r, k1, k2)
    ensures PartAt(p + r, p + k1, p + k2)
  {
    assert (p + k1)[|p + r|] == k1[|r|] && (|r| < |k2| ==> (p + k2)[|p + r|] == k2[|r|]);
  }

  /** x is what t holds behind p. */
  ghost predicate SitsAt(t: Node, p: Key, x: Node)
    requires t.Wf() && x.Wf()
  {
    forall q :: Lookup(t, p + q) == Lookup(x, q)
  }

  lemma ForkHeld(t: Node, p: Key, r: Key, k1: Key, k2: Key)
    requires t.Wf() && PartAt(r, k1, k2) && Lookup(t, p + k1).Some? && Lookup(t, p + k2).Some?
    ensures HeldOrFork(t, p + r)
  {
    PartBelow(p, r, k1, k2);
  }

  lemma ForkBelow(t: Node, p: Key, x: Node, r: Key)
    requires t.Wf() && x.Wf() && HeldOrFork(x, r) && SitsAt(t, p, x)
    ensures HeldOrFork(t, p + r)
  {
    if Lookup(x, r).Some? {
      assert Lookup(t, p + r) == Lookup(x, r);
    } else {
      var k1, k2 :| Lookup(x, k1).Some? && Lookup(x, k2).Some? && PartAt(r, k1, k2);
      assert Lookup(t, p + k1) == Lookup(x, k1) && Lookup(t, p + k2) == Lookup(x, k2);
      ForkHeld(t, p, r, k1, k2);
    }
  }

  lemma BehindSits(t: Node)
    requires t.Extension? && t.Wf()
    ensures SitsAt(t, t.nibbles, t.child)
  {
    forall q ensures Lookup(t, t.nibbles + q) == Lookup(t.child, q) { ExtensionLookup(t.nibbles, t.child, q); }
  }

  lemma OwnNibblesFork(x: Node)
    requires Canonical(x) && x.Wf() && !x.Empty?
    ensures HeldOrFork(x, OwnNibbles(x))
  {
    if x.Branch? {
      var k1, k2 := BranchForks(x);
      assert PartAt([], k1, k2);
    } else if x.Extension? {
      if x.child.Branch? {
        var k1, k2 := BranchForks(x.child);
        assert PartAt([], k1, k2);
      }
      BehindSits(x);
      ForkBelow(x, x.nibbles, x.child, []);
      assert x.nibbles + [] == x.nibbles;
    }
  }

  lemma SlotSits(t: Node, j: Nibble)
    requires t.Branch? && t.Wf()
    ensures SitsAt(t, [j], t.children[j])
  {
    forall q: Key ensures Lookup(t, [j] + q) == Lookup(t.children[j], q) { assert ([j] + q)[1..] == q; }
  }

  lemma {:induction false} CollapseKeyForks(t: Node, k: Key)
    requires Canonical(t) && t.Wf() && CollapseKey(t, k).Some?
    ensures HeldOrFork(t, CollapseKey(t, k).value)
    decreases t
  {
    match t
    case Branch(children, _) =>
      var c, rest := children[k[0]], k[1..];
      if c.Leaf? && c.nibbles == rest {
        var j: Nibble := OtherSlot(children, k[0]).value;
        OwnNibblesFork(children[j]);
        SlotSits(t, j);
        ForkBelow(t, [j], children[j], OwnNibbles(children[j]));
      } else {
        CollapseKeyForks(c, rest);
        SlotSits(t, k[0]);
        ForkBelow(t, [k[0]], c, CollapseKey(c, rest).value);
      }
    case Extension(n, child) =>
      CollapseKeyForks(child, k[|n|..]);
      BehindSits(t);
      ForkBelow(t, n, child, CollapseKey(child, k[|n|..]).value);
  }

  /** No insertion of the run leaves the trie within an extension. */
  predicate PutsFollow(t0: Node, ops: seq<Op>)
    requires t0.Wf()
  {
    forall i :: 0 <= i < |ops| && ops[i].Put? ==> !LeavesWithin(t0, ops[i].key)
  }

  ghost predicate HeldFollow(t0: Node, t: Node)
    requires t0.Wf() && t.Wf()
  {
    forall q :: Lookup(t, q).Some? ==> !LeavesWithin(t0, q)
  }

  lemma StepFollows(t0: Node, t: Node, op: Op, s: OnOrphanedHashNode, keys: iset<Key>)
    requires Within(t, keys) && PrefixFree(keys) && OpOver(op, keys) && Step(t, op, s).Ok?
    requires t0.Wf() && HeldFollow(t0, t) && (op.Put? ==> !LeavesWithin(t0, op.key))
    ensures HeldFollow(t0, Step(t, op, s).value)
  {
    WithinSafe(t, op.key, keys);
    forall q | Lookup(Step(t, op, s).value, q).Some? ensures !LeavesWithin(t0, q) {
      match op
      case Put(k, v) => InsertLookup(t, k, v, q);
      case Del(k) => DeleteCorrect(t, k, s, q);
    }
  }

  lemma ReportStopsNowhere(t0: Node, t: Node, op: Op, keys: iset<Key>)
    requires Within(t0, keys) && Within(t, keys) && PrefixFree(keys) && HeldFollow(t0, t)
    ensures NoneStops(t0, FirstReport(t, op))
  {
    if op.Del? && CollapseKey(t, op.key).Some? {
      var r := CollapseKey(t, op.key).value;
      CollapseKeyForks(t, op.key);
      if Lookup(t, r).Some? {
        WithinSafe(t0, r, keys);
        NotInsideNotWithin(t0, r);
      } else if StopsWithin(t0, r) {
        var k1, k2 :| Lookup(t, k1).Some? && Lookup(t, k2).Some? && PartAt(r, k1, k2);
        PartWithin(t0, r, k1, k2);
      }
    }
  }

  lemma {:induction false} RunStopsNowhere(t0: Node, t: Node, ops: seq<Op>, s: OnOrphanedHashNode, keys: iset<Key>)
    requires Within(t0, keys) && Within(t, keys) && PrefixFree(keys) && Over(ops, keys) && RunAndReport(t, ops, s).Ok?
    requires HeldFollow(t0, t) && PutsFollow(t0, ops)
    ensures NoneStops(t0, RunAndReport(t, ops, s).value.1)
    decreases |ops|
  {
    if ops != [] {
      RunHead(t, ops, s, keys);
      var next := Step(t, ops[0], s).value;
      StepFollows(t0, t, ops[0], s, keys);
      RunStopsNowhere(t0, next, ops[1..], s, keys);
      ReportStopsNowhere(t0, t, ops[0], keys);
      NoneJoin(t0, FirstReport(t, ops[0]), RunAndReport(next, ops[1..], s).value.1);
    }
  }

  /** When no insertion of a successful run leaves the starting trie within an extension - when the run
      only overwrites and deletes, for instance - the subset for its accesses and reports can be built. */
  lemma RunSubsetAlwaysExists(t: Node, ops: seq<Op>, s: OnOrphanedHashNode, accesses: seq<Key>, keys: iset<Key>, keccak: Hasher)
    requires Within(t, keys) && PrefixFree(keys) && Over(ops, keys) && RunAndReport(t, ops, s).Ok?
    requires Accesses(accesses, ops, keys) && NonePasses(t, accesses) && PutsFollow(t, ops)
    ensures CreateSubset(t, accesses + RunAndReport(t, ops, s).value.1, keccak).Ok?
  {
    forall q | Lookup(t, q).Some? ensures !LeavesWithin(t, q) { HeldFollows(t, q); }
    RunStopsNowhere(t, t, ops, s, keys);
    RunSubsetExists(t, ops, s, accesses, keys, keccak);
  }
}
