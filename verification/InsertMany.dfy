/** What a single insertion, and a list of insertions up to the first that is refused, leave of a trie. */
module InsertMany {
  import opened Wrappers
  import opened Nibbles
  import opened PartialTrie
  import opened TrieOps
  import opened InsertContent

  // ---------------------------------------------------------------------------------------------
  // Where an entry is written
  // ---------------------------------------------------------------------------------------------

  /** The key an insertion really writes: one that ends inside an extension is clamped to its end. */
  function PlacedKey(t: Node, k: Key): (q: Key)
    requires t.Wf()
    ensures k <= q
    decreases t
  {
    match t
    case Branch(children, _) => if k == [] then [] else [k[0]] + PlacedKey(children[k[0]], k[1..])
    case Extension(n, child) => if Agree(n, k) then n + PlacedKey(child, DropClamped(k, |n|)) else k
    case _ => k
  }

  lemma {:induction false} PlacedAlike(t: Node, k: Key, v: Entry)
    requires Canonical(t) && t.Wf()
    ensures InsertRec(t, PlacedKey(t, k), v) == InsertRec(t, k, v) && !EndsInsideExtension(t, PlacedKey(t, k))
    ensures MeetsHash(t, PlacedKey(t, k)) == MeetsHash(t, k)
    decreases t
  {
    match t
    case Branch(children, _) =>
      if k != [] {
        PlacedAlike(children[k[0]], k[1..], v);
        assert PlacedKey(t, k)[1..] == PlacedKey(children[k[0]], k[1..]);
      }
    case Extension(n, child) =>
      if Agree(n, k) {
        PlacedAlike(child, DropClamped(k, |n|), v);
        assert PlacedKey(t, k)[|n|..] == PlacedKey(child, DropClamped(k, |n|));
      }
    case _ =>
  }

  /** A successful insertion sets the entry at the placed key and changes no other. */
  lemma InsertPlaces(t: Node, k: Key, v: Entry, q: Key)
    requires Canonical(t) && t.Wf() && EntryOk(v) && InsertRec(t, k, v).Ok?
    ensures Lookup(InsertRec(t, k, v).value, q) == Updated(Lookup(t, q), PlacedKey(t, k), v, q)
  {
    PlacedAlike(t, k, v);
    InsertLookup(t, PlacedKey(t, k), v, q);
  }

  lemma {:induction false} DigestMet(t: Node, q: Key)
    requires t.Wf() && Lookup(t, q).Some? && Lookup(t, q).value.HashOf?
    ensures MeetsHash(t, q)
    decreases t
  {
    match t
    case Branch(children, _) => DigestMet(children[q[0]], q[1..]);
    case Extension(n, child) => DigestMet(child, q[|n|..]);
    case _ =>
  }

  /** Only a value can be overwritten, and only by a value. */
  lemma OnlyValuesChange(t: Node, k: Key, v: Entry)
    requires Canonical(t) && t.Wf() && InsertRec(t, k, v).Ok? && Lookup(t, PlacedKey(t, k)).Some?
    ensures Lookup(t, PlacedKey(t, k)).value.Val? && v.Val?
  {
    PlacedAlike(t, k, v);
    InsertFails(t, k, v);
    if Lookup(t, PlacedKey(t, k)).value.HashOf? { DigestMet(t, PlacedKey(t, k)); }
  }

  /** An insertion changes nothing exactly when it writes the value that is already there. */
  lemma InsertIsIdle(t: Node, k: Key, v: Entry)
    requires Canonical(t) && t.Wf() && EntryOk(v) && InsertRec(t, k, v).Ok?
    ensures InsertRec(t, k, v).value == t <==> Lookup(t, PlacedKey(t, k)) == Some(v)
  {
    var r := InsertRec(t, k, v).value;
    InsertPlaces(t, k, v, PlacedKey(t, k));
    if Lookup(t, PlacedKey(t, k)) == Some(v) {
      InsertKeepsCanonical(t, k, v);
      forall q ensures Lookup(r, q) == Lookup(t, q) { InsertPlaces(t, k, v, q); }
      CanonicalUnique(r, t);
    }
  }

  // ---------------------------------------------------------------------------------------------
  // Keys that stay
  // ---------------------------------------------------------------------------------------------

  /** The same kind of entry: two values, or the same digest. */
  predicate SameKind(a: Entry, b: Entry) {
    a == b || (a.Val? && b.Val?)
  }

  /** Every key of a is one of b, with the same kind of entry. */
  ghost predicate StillHolds(a: Node, b: Node)
    requires a.Wf() && b.Wf()
  {
    forall q :: Lookup(a, q).Some? ==> Lookup(b, q).Some? && SameKind(Lookup(a, q).value, Lookup(b, q).value)
  }

  /** An insertion takes no key away; it adds the placed key when that was not held. */
  lemma InsertStillHolds(t: Node, k: Key, v: Entry)
    requires Canonical(t) && t.Wf() && EntryOk(v) && InsertRec(t, k, v).Ok?
    ensures StillHolds(t, InsertRec(t, k, v).value)
    ensures StillHolds(InsertRec(t, k, v).value, t) <==> Lookup(t, PlacedKey(t, k)).Some?
  {
    var r := InsertRec(t, k, v).value;
    forall q ensures Lookup(r, q) == Updated(Lookup(t, q), PlacedKey(t, k), v, q) {
      InsertPlaces(t, k, v, q);
    }
    if Lookup(t, PlacedKey(t, k)).Some? {
      OnlyValuesChange(t, k, v);
    } else {
      assert Lookup(r, PlacedKey(t, k)).Some?;
    }
  }

  /** The trie with every value replaced by one and the same. */
  function Skeleton(t: Node): (s: Node)
    requires t.Wf()
    ensures s.Wf()
    decreases t
  {
    match t
    case Branch(children, value) =>
      Branch(seq(16, i requires 0 <= i < 16 => Skeleton(children[i])), if value == [] then [] else [0])
    case Extension(n, child) => Extension(n, Skeleton(child))
    case Leaf(n, _) => Leaf(n, [0])
    case _ => t
  }

  function Blank(e: Option<Entry>): Option<Entry> {
    if e.Some? && e.value.Val? then Some(Val([0])) else e
  }

  lemma {:induction false} SkeletonLookup(t: Node, q: Key)
    requires t.Wf()
    ensures Lookup(Skeleton(t), q) == Blank(Lookup(t, q))
    decreases t
  {
    match t
    case Branch(children, _) => if q != [] { SkeletonLookup(children[q[0]], q[1..]); }
    case Extension(n, child) => if n <= q { SkeletonLookup(child, q[|n|..]); }
    case _ =>
  }

  lemma {:induction false} SkeletonCanonical(t: Node)
    requires Canonical(t) && t.Wf()
    ensures Canonical(Skeleton(t)) && (Skeleton(t).Empty? <==> t.Empty?)
    decreases t
  {
    match t
    case Branch(children, _) =>
      var blank := Skeleton(t).children;
      forall i | 0 <= i < 16 ensures Canonical(blank[i]) && (blank[i].Empty? <==> children[i].Empty?) {
        SkeletonCanonical(children[i]);
      }
      assert UsedSlots(blank) == UsedSlots(children);
    case Extension(_, child) => SkeletonCanonical(child);
    case _ =>
  }

  /** Where a key is placed, and whether it meets a digest, does not depend on values. */
  lemma {:induction false} SkeletonWalk(t: Node, k: Key)
    requires t.Wf()
    ensures PlacedKey(Skeleton(t), k) == PlacedKey(t, k) && MeetsHash(Skeleton(t), k) == MeetsHash(t, k)
    decreases t
  {
    match t
    case Branch(children, _) => if k != [] { SkeletonWalk(children[k[0]], k[1..]); }
    case Extension(n, child) => if Agree(n, k) { SkeletonWalk(child, DropClamped(k, |n|)); }
    case _ =>
  }

  /** Two tries with the same keys place and refuse the same insertions. */
  lemma SameKeysSameWalk(a: Node, b: Node, k: Key, v: Entry)
    requires Canonical(a) && Canonical(b) && a.Wf() && b.Wf() && StillHolds(a, b) && StillHolds(b, a)
    ensures PlacedKey(a, k) == PlacedKey(b, k) && InsertRec(a, k, v).Err? == InsertRec(b, k, v).Err?
  {
    SkeletonCanonical(a);
    SkeletonCanonical(b);
    forall q ensures Lookup(Skeleton(a), q) == Lookup(Skeleton(b), q) {
      SkeletonLookup(a, q);
      SkeletonLookup(b, q);
    }
    CanonicalUnique(Skeleton(a), Skeleton(b));
    SkeletonWalk(a, k);
    SkeletonWalk(b, k);
    InsertFails(a, k, v);
    InsertFails(b, k, v);
  }

  // ---------------------------------------------------------------------------------------------
  // A list of insertions
  // ---------------------------------------------------------------------------------------------

  /** The trie after inserting entries up to the first failure, and whether all succeeded. */
  function InsertAll(t: Node, entries: seq<(Key, Entry)>): (r: (Node, bool))
    requires t.Wf()
    ensures r.0.Wf()
    decreases |entries|
  {
    if entries == [] then (t, true)
    else
      match InsertRec(t, entries[0].0, entries[0].1)
      case Ok(next) => InsertAll(next, entries[1..])
      case Err(_) => (t, false)
  }

  predicate EntriesOk(entries: seq<(Key, Entry)>) {
    forall i :: 0 <= i < |entries| ==> EntryOk(entries[i].1)
  }

  lemma StillHoldsTrans(a: Node, b: Node, c: Node)
    requires a.Wf() && b.Wf() && c.Wf() && StillHolds(a, b) && StillHolds(b, c)
    ensures StillHolds(a, c)
  {
    forall q | Lookup(a, q).Some?
      ensures Lookup(c, q).Some? && SameKind(Lookup(a, q).value, Lookup(c, q).value)
    {
      assert Lookup(b, q).Some?;
    }
  }

  lemma {:induction false} InsertAllStillHolds(t: Node, entries: seq<(Key, Entry)>)
    requires Canonical(t) && t.Wf() && EntriesOk(entries)
    ensures Canonical(InsertAll(t, entries).0) && StillHolds(t, InsertAll(t, entries).0)
    decreases |entries|
  {
    if entries != [] && InsertRec(t, entries[0].0, entries[0].1).Ok? {
      var next := InsertRec(t, entries[0].0, entries[0].1).value;
      InsertKeepsCanonical(t, entries[0].0, entries[0].1);
      InsertStillHolds(t, entries[0].0, entries[0].1);
      InsertAllStillHolds(next, entries[1..]);
      StillHoldsTrans(t, next, InsertAll(t, entries).0);
    }
  }

  /** The first entry that the trie itself refuses; the number of entries when there is none. */
  function FirstRefused(t: Node, entries: seq<(Key, Entry)>): (n: nat)
    requires t.Wf()
    ensures n <= |entries| && (n < |entries| ==> InsertRec(t, entries[n].0, entries[n].1).Err?)
    ensures forall i :: 0 <= i < n ==> InsertRec(t, entries[i].0, entries[i].1).Ok?
    decreases |entries|
  {
    if entries == [] || InsertRec(t, entries[0].0, entries[0].1).Err? then 0
    else
      var n := FirstRefused(t, entries[1..]);
      assert forall i :: 0 <= i < |entries| - 1 ==> entries[1..][i] == entries[i + 1];
      assert forall i :: 0 < i < n + 1 ==> entries[i] == entries[1..][i - 1];
      n + 1
  }

  /** Entry j is the last of the first n to be placed at its key. */
  predicate LastAtKey(t: Node, entries: seq<(Key, Entry)>, j: nat, n: nat)
    requires t.Wf() && j < n <= |entries|
  {
    forall l :: j < l < n ==> PlacedKey(t, entries[l].0) != PlacedKey(t, entries[j].0)
  }

  /** Every key placed before the first refused entry is held, and gets back the value it had. */
  predicate LeavesAsIs(t: Node, entries: seq<(Key, Entry)>)
    requires t.Wf()
  {
    var n := FirstRefused(t, entries);
    forall j :: 0 <= j < n ==>
      && Lookup(t, PlacedKey(t, entries[j].0)).Some?
      && (LastAtKey(t, entries, j, n) ==> Lookup(t, PlacedKey(t, entries[j].0)) == Some(entries[j].1))
  }

  /** None of the first n entries is placed at a key that the trie does not hold. */
  predicate OnlyHeldKeys(t: Node, entries: seq<(Key, Entry)>, n: nat)
    requires t.Wf() && n <= |entries|
  {
    forall j :: 0 <= j < n ==> Lookup(t, PlacedKey(t, entries[j].0)).Some?
  }

  predicate PlacedAmong(t: Node, entries: seq<(Key, Entry)>, n: nat, q: Key)
    requires t.Wf() && n <= |entries|
  {
    exists j :: 0 <= j < n && PlacedKey(t, entries[j].0) == q
  }

  /** For each key, the last of the first n entries placed there is in r. */
  ghost predicate LastOnesAreIn(t0: Node, entries: seq<(Key, Entry)>, n: nat, r: Node)
    requires t0.Wf() && r.Wf() && n <= |entries|
  {
    forall j :: 0 <= j < n && LastAtKey(t0, entries, j, n) ==> Lookup(r, PlacedKey(t0, entries[j].0)) == Some(entries[j].1)
  }

  /** Where none of the first n entries is placed, r holds what t holds. */
  ghost predicate OthersAreKept(t0: Node, t: Node, entries: seq<(Key, Entry)>, n: nat, r: Node)
    requires t0.Wf() && t.Wf() && r.Wf() && n <= |entries|
  {
    forall q :: !PlacedAmong(t0, entries, n, q) ==> Lookup(r, q) == Lookup(t, q)
  }

  /** What the entries up to the first failure leave of a trie with the keys of t0. */
  ghost predicate NetEffect(t0: Node, t: Node, entries: seq<(Key, Entry)>, n: nat, r: Node)
    requires t0.Wf() && t.Wf() && r.Wf() && n <= |entries|
  {
    && (OnlyHeldKeys(t0, entries, n) <==> StillHolds(r, t0))
    && (OnlyHeldKeys(t0, entries, n) ==> LastOnesAreIn(t0, entries, n, r) && OthersAreKept(t0, t, entries, n, r))
  }

  /** From the effect of the entries behind the first to the effect of all of them. */
  lemma NetEffectStep(t0: Node, t: Node, next: Node, entries: seq<(Key, Entry)>, n: nat, r: Node)
    requires t0.Wf() && t.Wf() && next.Wf() && r.Wf() && entries != [] && n <= |entries[1..]|
    requires Lookup(t0, PlacedKey(t0, entries[0].0)).Some?
    requires forall q :: Lookup(next, q) == Updated(Lookup(t, q), PlacedKey(t0, entries[0].0), entries[0].1, q)
    requires NetEffect(t0, next, entries[1..], n, r)
    ensures NetEffect(t0, t, entries, n + 1, r)
  {
    HeldShift(t0, entries, n);
    if OnlyHeldKeys(t0, entries[1..], n) {
      LastOnesStep(t0, next, entries, n, r);
      forall q | !PlacedAmong(t0, entries, n + 1, q) ensures Lookup(r, q) == Lookup(t, q) {
        AmongShift(t0, entries, n, q);
      }
    }
  }

  lemma LastOnesStep(t0: Node, next: Node, entries: seq<(Key, Entry)>, n: nat, r: Node)
    requires t0.Wf() && next.Wf() && r.Wf() && entries != [] && n <= |entries[1..]|
    requires Lookup(next, PlacedKey(t0, entries[0].0)) == Some(entries[0].1)
    requires LastOnesAreIn(t0, entries[1..], n, r) && OthersAreKept(t0, next, entries[1..], n, r)
    ensures LastOnesAreIn(t0, entries, n + 1, r)
  {
    forall j | 0 <= j < n + 1 && LastAtKey(t0, entries, j, n + 1)
      ensures Lookup(r, PlacedKey(t0, entries[j].0)) == Some(entries[j].1)
    {
      LastShift(t0, entries, j, n);
    }
  }

  lemma HeldShift(t: Node, entries: seq<(Key, Entry)>, n: nat)
    requires t.Wf() && entries != [] && n <= |entries[1..]| && Lookup(t, PlacedKey(t, entries[0].0)).Some?
    ensures OnlyHeldKeys(t, entries, n + 1) <==> OnlyHeldKeys(t, entries[1..], n)
  {
    assert forall j :: 0 < j < |entries| ==> entries[j] == entries[1..][j - 1];
    assert forall j :: 0 <= j < |entries| - 1 ==> entries[1..][j] == entries[j + 1];
  }

  lemma LastShift(t: Node, entries: seq<(Key, Entry)>, j: nat, n: nat)
    requires t.Wf() && entries != [] && n <= |entries[1..]| && j < n + 1
    ensures j > 0 ==> entries[j] == entries[1..][j - 1]
    ensures j > 0 && LastAtKey(t, entries, j, n + 1) ==> LastAtKey(t, entries[1..], j - 1, n)
    ensures j == 0 && LastAtKey(t, entries, j, n + 1) ==> !PlacedAmong(t, entries[1..], n, PlacedKey(t, entries[0].0))
  {
    assert forall l :: 0 <= l < |entries| - 1 ==> entries[1..][l] == entries[l + 1];
  }

  lemma AmongShift(t: Node, entries: seq<(Key, Entry)>, n: nat, q: Key)
    requires t.Wf() && entries != [] && n <= |entries[1..]|
    ensures PlacedAmong(t, entries, n + 1, q) <==> PlacedKey(t, entries[0].0) == q || PlacedAmong(t, entries[1..], n, q)
  {
    assert forall l :: 0 <= l < |entries| - 1 ==> entries[1..][l] == entries[l + 1];
    assert forall l :: 0 < l < |entries| ==> entries[l] == entries[1..][l - 1];
  }

  /** A trie with the keys of t0 takes the same entry, and keeps those keys if the entry's is one. */
  lemma FirstInsertion(t0: Node, t: Node, k: Key, v: Entry)
    requires Canonical(t0) && Canonical(t) && t0.Wf() && t.Wf() && EntryOk(v) && StillHolds(t0, t) && StillHolds(t, t0)
    ensures InsertRec(t, k, v).Ok? == InsertRec(t0, k, v).Ok? && PlacedKey(t, k) == PlacedKey(t0, k)
    ensures InsertRec(t, k, v).Ok? ==> Canonical(InsertRec(t, k, v).value)
    ensures InsertRec(t, k, v).Ok? && Lookup(t0, PlacedKey(t0, k)).Some? ==>
      StillHolds(t0, InsertRec(t, k, v).value) && StillHolds(InsertRec(t, k, v).value, t0)
  {
    SameKeysSameWalk(t0, t, k, v);
    if InsertRec(t, k, v).Ok? {
      InsertKeepsCanonical(t, k, v);
      InsertStillHolds(t, k, v);
      if Lookup(t0, PlacedKey(t0, k)).Some? {
        StillHoldsTrans(t0, t, InsertRec(t, k, v).value);
        StillHoldsTrans(InsertRec(t, k, v).value, t, t0);
      }
    }
  }

  lemma HeldKeyStep(t0: Node, t: Node, entries: seq<(Key, Entry)>, n: nat, r: Node)
    requires t0.Wf() && Canonical(t) && t.Wf() && r.Wf() && entries != [] && n <= |entries[1..]| && EntryOk(entries[0].1)
    requires InsertRec(t, entries[0].0, entries[0].1).Ok? && PlacedKey(t, entries[0].0) == PlacedKey(t0, entries[0].0)
    requires Lookup(t0, PlacedKey(t0, entries[0].0)).Some?
    requires NetEffect(t0, InsertRec(t, entries[0].0, entries[0].1).value, entries[1..], n, r)
    ensures NetEffect(t0, t, entries, n + 1, r)
  {
    var next := InsertRec(t, entries[0].0, entries[0].1).value;
    forall q ensures Lookup(next, q) == Updated(Lookup(t, q), PlacedKey(t0, entries[0].0), entries[0].1, q) {
      InsertPlaces(t, entries[0].0, entries[0].1, q);
    }
    NetEffectStep(t0, t, next, entries, n, r);
  }

  /** An entry at a key that is not held keeps the trie from ever having the keys of t0 again. */
  lemma NewKeyStep(t0: Node, t: Node, entries: seq<(Key, Entry)>, n: nat)
    requires t0.Wf() && Canonical(t) && t.Wf() && EntriesOk(entries) && 0 < n <= |entries|
    requires InsertRec(t, entries[0].0, entries[0].1).Ok? && PlacedKey(t, entries[0].0) == PlacedKey(t0, entries[0].0)
    requires Lookup(t0, PlacedKey(t0, entries[0].0)).None?
    ensures NetEffect(t0, t, entries, n, InsertAll(t, entries).0)
  {
    var (k, v) := entries[0];
    var next := InsertRec(t, k, v).value;
    InsertKeepsCanonical(t, k, v);
    InsertPlaces(t, k, v, PlacedKey(t, k));
    InsertAllStillHolds(next, entries[1..]);
    assert Lookup(InsertAll(t, entries).0, PlacedKey(t, k)).Some?;
    assert !OnlyHeldKeys(t0, entries, n);
  }

  lemma {:induction false} InsertAllNetEffect(t0: Node, t: Node, entries: seq<(Key, Entry)>)
    requires Canonical(t0) && Canonical(t) && t0.Wf() && t.Wf() && EntriesOk(entries)
    requires StillHolds(t0, t) && StillHolds(t, t0)
    ensures NetEffect(t0, t, entries, FirstRefused(t0, entries), InsertAll(t, entries).0)
    decreases |entries|
  {
    if entries != [] {
      var (k, v) := entries[0];
      FirstInsertion(t0, t, k, v);
      if InsertRec(t, k, v).Ok? {
        if Lookup(t0, PlacedKey(t0, k)).Some? {
          InsertAllNetEffect(t0, InsertRec(t, k, v).value, entries[1..]);
          HeldKeyStep(t0, t, entries, FirstRefused(t0, entries[1..]), InsertAll(t, entries).0);
        } else {
          NewKeyStep(t0, t, entries, FirstRefused(t0, entries));
        }
      }
    }
  }

  lemma LastPlaced(t: Node, entries: seq<(Key, Entry)>, n: nat, j: nat) returns (l: nat)
    requires t.Wf() && j < n <= |entries|
    ensures j <= l < n && PlacedKey(t, entries[l].0) == PlacedKey(t, entries[j].0) && LastAtKey(t, entries, l, n)
    decreases n - j
  {
    l := j;
    if !LastAtKey(t, entries, j, n) {
      var i :| j < i < n && PlacedKey(t, entries[i].0) == PlacedKey(t, entries[j].0);
      l := LastPlaced(t, entries, n, i);
    }
  }

  lemma LeavesContent(t: Node, entries: seq<(Key, Entry)>, r: Node, q: Key)
    requires t.Wf() && r.Wf() && LeavesAsIs(t, entries) && NetEffect(t, t, entries, FirstRefused(t, entries), r)
    ensures Lookup(r, q) == Lookup(t, q)
  {
    var n := FirstRefused(t, entries);
    assert OnlyHeldKeys(t, entries, n);
    if PlacedAmong(t, entries, n, q) {
      var j :| 0 <= j < n && PlacedKey(t, entries[j].0) == q;
      var l := LastPlaced(t, entries, n, j);
    }
  }

  lemma IdleLeaves(t: Node, entries: seq<(Key, Entry)>)
    requires t.Wf() && NetEffect(t, t, entries, FirstRefused(t, entries), t)
    ensures LeavesAsIs(t, entries)
  {
    var n := FirstRefused(t, entries);
    assert StillHolds(t, t);
    assert OnlyHeldKeys(t, entries, n) && LastOnesAreIn(t, entries, n, t);
  }

  /** A list of insertions, up to the first that is refused, leaves the trie as it was exactly when
      it writes no new key and writes back, last, the values that were there. */
  lemma InsertAllIsIdle(t: Node, entries: seq<(Key, Entry)>)
    requires Canonical(t) && t.Wf() && EntriesOk(entries)
    ensures InsertAll(t, entries).0 == t <==> LeavesAsIs(t, entries)
  {
    var r := InsertAll(t, entries).0;
    InsertAllNetEffect(t, t, entries);
    InsertAllStillHolds(t, entries);
    if LeavesAsIs(t, entries) {
      forall q ensures Lookup(r, q) == Lookup(t, q) { LeavesContent(t, entries, r, q); }
      CanonicalUnique(r, t);
    } else if r == t {
      IdleLeaves(t, entries);
    }
  }
}
