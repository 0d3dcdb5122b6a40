/** The handle on a trie with cached hashes, and what its operations keep. */
module HashedTrie {
  import opened Wrappers
  import opened Nibbles
  import opened PartialTrie
  import opened TrieOps
  import opened InsertContent
  import opened InsertMany
  import opened DeleteContent
  import opened TrieRuns
  import opened TrieCommitment
  import opened TrieHashing
  import opened HashCache

  /** The hash cell of a handle. Clones of a handle share it. */
  class RootCell {
    var hash: Option<H256>

    constructor ()
      ensures hash.None?
    {
      hash := None;
    }
  }

  class HashedPartialTrie {
    var node: HNode
    const cell: RootCell
    const strategy: OnOrphanedHashNode
    ghost var cells: set<HashCell>

    /** The trie itself. */
    ghost function Trie(): Node
      reads this
    {
      Erase(node)
    }

    /** Every cached hash, in the structure and at the root, is the recomputed one. */
    ghost predicate Coherent(keccak: Hasher)
      reads this, cell, cells
    {
      && Trie().Wf() && Owned(node, cells) && AllRight(cells, keccak)
      && (cell.hash.Some? ==> Encode(Trie(), keccak) == Hashed(cell.hash.value))
    }

    constructor (strategy: OnOrphanedHashNode)
      ensures Trie() == Empty && this.strategy == strategy && fresh(cell) && cells == {}
      ensures forall keccak :: Coherent(keccak)
    {
      node, cells := HEmpty, {};
      this.strategy := strategy;
      cell := new RootCell();
    }

    constructor CloneOf(other: HashedPartialTrie)
      ensures node == other.node && cell == other.cell && cells == other.cells && strategy == other.strategy
    {
      node, cells, cell, strategy := other.node, other.cells, other.cell, other.strategy;
    }

    /** On success the root cell is cleared; on failure nothing changes. */
    method Insert(k: Key, v: Entry, keccak: Hasher) returns (r: Result<(), TrieError>)
      requires Coherent(keccak)
      modifies this`node, this`cells, cell
      ensures Coherent(keccak) && fresh(cells - old(cells)) && old(cells) <= cells
      ensures match InsertRec(old(Trie()), k, v)
        case Ok(t) => r.Ok? && Trie() == t && cell.hash.None?
        case Err(e) => r == Err(e) && Trie() == old(Trie()) && cell.hash == old(cell.hash)
    {
      var w, made := InsertH(node, k, v, cells);
      if w.Err? { return Err(w.error); }
      node, cells := w.value.node, cells + made;
      cell.hash := None;
      r := Ok(());
    }

    /** The root cell is cleared even when the deletion fails. */
    method Delete(k: Key, keccak: Hasher) returns (r: Result<Option<Bytes>, TrieError>)
      requires Coherent(keccak)
      modifies this`node, this`cells, cell
      ensures Coherent(keccak) && fresh(cells - old(cells)) && old(cells) <= cells && cell.hash.None?
      ensures match TrieOps.Delete(old(Trie()), k, strategy)
        case Ok(res) => r == Ok(if res.Some? then Some(res.value.1) else None)
                        && Trie() == After(old(Trie()), k, strategy)
        case Err(e) => r == Err(e) && Trie() == old(Trie())
    {
      var res, made1 := DeleteInternH(node, k, strategy, cells);
      cell.hash := None;
      if res.Err? { return Err(res.error); }
      if res.value.None? { return Ok(None); }
      var w, made2 := TryCollapseH(res.value.value.0, [], strategy, cells + made1);
      if w.Err? { return Err(w.error); }
      node, cells := w.value.node, cells + made1 + made2;
      r := Ok(Some(res.value.value.1));
    }

    /** The hash of the trie; the root cell is read but not filled. */
    method Hash(keccak: Hasher) returns (h: H256)
      requires Coherent(keccak)
      modifies cells
      ensures Coherent(keccak) && h == RootHash(Trie(), keccak)
    {
      if cell.hash.Some? { return cell.hash.value; }
      var e := EncodeNode(node, keccak, cells);
      h := match e case Raw(b) => keccak(b) case Hashed(x) => x;
    }

    /** The hash as a parent or a subset needs it; this fills the root cell. */
    method Intern(keccak: Hasher) returns (e: Encoded)
      requires Coherent(keccak)
      modifies cell, cells
      ensures Coherent(keccak) && e == Encode(Trie(), keccak)
      ensures e.Hashed? ==> cell.hash == Some(e.hash)
    {
      if cell.hash.Some? { return Hashed(cell.hash.value); }
      e := EncodeNode(node, keccak, cells);
      if e.Hashed? { cell.hash := Some(e.hash); }
    }

    /** Inserts entries up to the first that fails. The root cell is cleared only when all succeed. */
    method Extend(entries: seq<(Key, Entry)>, keccak: Hasher) returns (r: Result<(), TrieError>)
      requires Coherent(keccak)
      modifies this`node, this`cells, cell
      ensures fresh(cells - old(cells)) && old(cells) <= cells
      ensures Trie().Wf() && Owned(node, cells) && AllRight(cells, keccak)
      ensures Trie() == InsertAll(old(Trie()), entries).0
      ensures r.Ok? == InsertAll(old(Trie()), entries).1
      ensures cell.hash == if r.Ok? then None else old(cell.hash)
    {
      for i := 0 to |entries|
        invariant fresh(cells - old(cells)) && old(cells) <= cells
        invariant Trie().Wf() && Owned(node, cells) && AllRight(cells, keccak)
        invariant InsertAll(Trie(), entries[i..]) == InsertAll(old(Trie()), entries)
        invariant cell.hash == old(cell.hash)
      {
        assert entries[i..][0] == entries[i] && entries[i..][1..] == entries[i + 1..];
        var w, made := InsertH(node, entries[i].0, entries[i].1, cells);
        if w.Err? { return Err(w.error); }
        node, cells := w.value.node, cells + made;
      }
      cell.hash := None;
      r := Ok(());
    }
  }

  // ---------------------------------------------------------------------------------------------
  // Runs
  // ---------------------------------------------------------------------------------------------

  datatype Call = DoInsert(key: Key, entry: Entry) | DoDelete(key: Key) | DoHash | DoIntern

  /** What a call does to the trie: nothing when it fails. */
  function CallEffect(t: Node, c: Call, s: OnOrphanedHashNode): (r: Node)
    requires t.Wf()
    ensures r.Wf()
  {
    match c
    case DoInsert(k, v) => var res := InsertRec(t, k, v); if res.Ok? then res.value else t
    case DoDelete(k) => if TrieOps.Delete(t, k, s).Ok? then After(t, k, s) else t
    case _ => t
  }

  function CallsEffect(t: Node, calls: seq<Call>, s: OnOrphanedHashNode): (r: Node)
    requires t.Wf()
    ensures r.Wf()
    decreases |calls|
  {
    if calls == [] then t else CallsEffect(CallEffect(t, calls[0], s), calls[1..], s)
  }

  function HashesAlong(t: Node, calls: seq<Call>, s: OnOrphanedHashNode, keccak: Hasher): seq<H256>
    requires t.Wf()
    decreases |calls|
  {
    if calls == [] then []
    else (if calls[0].DoHash? then [RootHash(t, keccak)] else [])
         + HashesAlong(CallEffect(t, calls[0], s), calls[1..], s, keccak)
  }

  /** One call; a hash call hands out the recomputed hash of the trie. */
  method RunCall(h: HashedPartialTrie, c: Call, keccak: Hasher) returns (out: seq<H256>)
    requires h.Coherent(keccak)
    modifies h`node, h`cells, h.cell, h.cells
    ensures h.Coherent(keccak) && fresh(h.cells - old(h.cells)) && old(h.cells) <= h.cells
    ensures h.Trie() == CallEffect(old(h.Trie()), c, h.strategy)
    ensures out == if c.DoHash? then [RootHash(old(h.Trie()), keccak)] else []
  {
    out := [];
    match c {
      case DoInsert(k, v) => var _ := h.Insert(k, v, keccak);
      case DoDelete(k) => var _ := h.Delete(k, keccak);
      case DoHash =>
        var x := h.Hash(keccak);
        out := [x];
      case DoIntern => var _ := h.Intern(keccak);
    }
  }

  /** Any run of insertions, deletions (failed or not) and hash calls keeps every cached hash right,
      and every hash asked for is the recomputed hash of the trie at that moment. */
  method RunCalls(h: HashedPartialTrie, calls: seq<Call>, keccak: Hasher) returns (hashes: seq<H256>)
    requires h.Coherent(keccak)
    modifies h`node, h`cells, h.cell, h.cells
    ensures h.Coherent(keccak) && fresh(h.cells - old(h.cells)) && old(h.cells) <= h.cells
    ensures h.Trie() == CallsEffect(old(h.Trie()), calls, h.strategy)
    ensures hashes == HashesAlong(old(h.Trie()), calls, h.strategy, keccak)
  {
    hashes := [];
    for i := 0 to |calls|
      invariant h.Coherent(keccak) && fresh(h.cells - old(h.cells)) && old(h.cells) <= h.cells
      invariant CallsEffect(h.Trie(), calls[i..], h.strategy) == CallsEffect(old(h.Trie()), calls, h.strategy)
      invariant hashes + HashesAlong(h.Trie(), calls[i..], h.strategy, keccak)
             == HashesAlong(old(h.Trie()), calls, h.strategy, keccak)
    {
      assert calls[i..][0] == calls[i] && calls[i..][1..] == calls[i + 1..];
      var out := RunCall(h, calls[i], keccak);
      ConcatAssoc(hashes, out, HashesAlong(h.Trie(), calls[i + 1..], h.strategy, keccak));
      hashes := hashes + out;
    }
  }

  // ---------------------------------------------------------------------------------------------
  // Where coherence is lost
  // ---------------------------------------------------------------------------------------------

  /** An `extend` that fails half way keeps the old root hash although entries before the failure are
      in. The handle is still right if its cell was empty, or if those entries write no new key and
      write back, last, the values that were there; with a hash function that tells the two tries
      apart, only then. */
  method FailedExtend(a: HashedPartialTrie, entries: seq<(Key, Entry)>, keccak: Hasher)
    requires a.Coherent(keccak) && !InsertAll(a.Trie(), entries).1
    modifies a`node, a`cells, a.cell
    ensures a.Trie() == InsertAll(old(a.Trie()), entries).0 && a.cell.hash == old(a.cell.hash)
    ensures Canonical(old(a.Trie())) && EntriesOk(entries) ==>
      (old(a.cell.hash).None? || LeavesAsIs(old(a.Trie()), entries) ==> a.Coherent(keccak))
    ensures Canonical(old(a.Trie())) && EntriesOk(entries) && TellsApart(old(a.Trie()), a.Trie(), keccak) ==>
      (a.Coherent(keccak) ==> old(a.cell.hash).None? || LeavesAsIs(old(a.Trie()), entries))
  {
    ghost var t := a.Trie();
    var r := a.Extend(entries, keccak);
    if Canonical(t) && EntriesOk(entries) {
      InsertAllIsIdle(t, entries);
      InsertAllStillHolds(t, entries);
      if TellsApart(t, a.Trie(), keccak) { InsertionsChangeEncoding(t, a.Trie(), keccak); }
    }
  }

  /** The write a call makes, if it makes one. */
  function WriteOf(c: Call): Option<Op> {
    match c
    case DoInsert(k, v) => Some(Put(k, v))
    case DoDelete(k) => Some(Del(k))
    case _ => None
  }

  function Writes(calls: seq<Call>): seq<Op>
    decreases |calls|
  {
    if calls == [] then [] else (if WriteOf(calls[0]).Some? then [WriteOf(calls[0]).value] else []) + Writes(calls[1..])
  }

  /** A call over the keys that inserts a value, deletes or hashes. */
  ghost predicate CallOver(c: Call, keys: iset<Key>) {
    match c
    case DoInsert(k, v) => k in keys && EntryOk(v) && v.Val?
    case DoDelete(k) => k in keys
    case _ => true
  }

  ghost predicate CallsOver(calls: seq<Call>, keys: iset<Key>) {
    forall i :: 0 <= i < |calls| ==> CallOver(calls[i], keys)
  }

  lemma CallIsStep(t: Node, c: Call, s: OnOrphanedHashNode)
    requires t.Wf()
    ensures CallEffect(t, c, s) == if WriteOf(c).Some? && Step(t, WriteOf(c).value, s).Ok? then Step(t, WriteOf(c).value, s).value else t
  {
  }

  lemma DigestsKeptTrans(a: Node, b: Node, c: Node)
    requires a.Wf() && b.Wf() && c.Wf() && DigestsKept(a, b) && DigestsKept(b, c)
    ensures DigestsKept(a, c)
  {
  }

  /** Calls that insert values and delete neither bring digests in nor take them out. */
  lemma {:induction false} CallsKeepDigests(t: Node, calls: seq<Call>, s: OnOrphanedHashNode, keys: iset<Key>)
    requires Within(t, keys) && PrefixFree(keys) && CallsOver(calls, keys)
    ensures var r := CallsEffect(t, calls, s); Within(r, keys) && DigestsKept(t, r) && DigestsKept(r, t)
    decreases |calls|
  {
    if calls != [] {
      var next := CallEffect(t, calls[0], s);
      CallKeepsDigests(t, calls[0], s, keys);
      CallsKeepDigests(next, calls[1..], s, keys);
      DigestsKeptTrans(t, next, CallsEffect(t, calls, s));
      DigestsKeptTrans(CallsEffect(t, calls, s), next, t);
    }
  }

  lemma CallKeepsDigests(t: Node, c: Call, s: OnOrphanedHashNode, keys: iset<Key>)
    requires Within(t, keys) && PrefixFree(keys) && CallOver(c, keys)
    ensures var r := CallEffect(t, c, s); Within(r, keys) && DigestsKept(t, r) && DigestsKept(r, t)
  {
    CallIsStep(t, c, s);
    if WriteOf(c).Some? {
      var op := WriteOf(c).value;
      if Step(t, op, s).Ok? {
        StepWithin(t, op, s, keys);
        StepKeepsDigests(t, t, op, s, keys);
        StepAddsNoDigest(t, op, s, keys);
      }
    }
  }

  /** A map from keys of the universe to values. */
  ghost predicate OfValues(m: map<Key, Entry>, keys: iset<Key>) {
    forall q :: q in m ==> q in keys && m[q].Val?
  }

  /** On a trie of values no such call fails, and the calls do to the trie what they do to its map. */
  lemma {:induction false} CallsRepresent(t: Node, m: map<Key, Entry>, calls: seq<Call>, s: OnOrphanedHashNode, keys: iset<Key>)
    requires Represents(t, m) && PrefixFree(keys) && CallsOver(calls, keys) && OfValues(m, keys)
    ensures Represents(CallsEffect(t, calls, s), MapAfter(m, Writes(calls)))
    decreases |calls|
  {
    if calls != [] {
      var c := calls[0];
      CallIsStep(t, c, s);
      if WriteOf(c).Some? {
        var op := WriteOf(c).value;
        assert Writes(calls)[0] == op && Writes(calls)[1..] == Writes(calls[1..]);
        PlainRunsSucceed(t, m, [op], s, keys);
        assert Step(t, op, s).Ok?;
        StepRepresents(t, m, op, s, keys);
        CallsRepresent(Step(t, op, s).value, MapStep(m, op), calls[1..], s, keys);
      } else {
        assert Writes(calls) == Writes(calls[1..]);
        CallsRepresent(t, m, calls[1..], s, keys);
      }
    }
  }

  /** The calls leave the trie, and so its encoding, as it was, exactly when they give back its map. */
  lemma CallsGiveBack(t: Node, m: map<Key, Entry>, calls: seq<Call>, s: OnOrphanedHashNode, keys: iset<Key>)
    requires Represents(t, m) && PrefixFree(keys) && CallsOver(calls, keys) && OfValues(m, keys)
    ensures CallsEffect(t, calls, s) == t <==> MapAfter(m, Writes(calls)) == m
  {
    CallsRepresent(t, m, calls, s, keys);
    if CallsEffect(t, calls, s) == t { RepresentedAlike(t, m, t, MapAfter(m, Writes(calls))); }
    if MapAfter(m, Writes(calls)) == m { RepresentsUnique(t, CallsEffect(t, calls, s), m); }
  }

  lemma CallsChangeEncoding(t: Node, calls: seq<Call>, s: OnOrphanedHashNode, keys: iset<Key>, keccak: Hasher)
    requires Within(t, keys) && PrefixFree(keys) && CallsOver(calls, keys)
    ensures TellsApart(t, CallsEffect(t, calls, s), keccak) ==>
      (Encode(t, keccak) == Encode(CallsEffect(t, calls, s), keccak) <==> CallsEffect(t, calls, s) == t)
  {
    CallsKeepDigests(t, calls, s, keys);
    if TellsApart(t, CallsEffect(t, calls, s), keccak) { ValuesChangeEncoding(t, CallsEffect(t, calls, s), keccak); }
  }

  /** Two clones share a root cell. Whatever is done to one of them, once it has interned its hash the
      other answers with that hash. With values inserted over prefix-free keys, and a hash function
      that tells the two tries apart, the other clone is right only if nothing was cached or the calls
      gave back the trie they started from; on a trie of values, exactly if they give back its map. */
  method DivergedClone(a: HashedPartialTrie, calls: seq<Call>, keccak: Hasher, ghost m: map<Key, Entry>, ghost keys: iset<Key>)
      returns (b: HashedPartialTrie, h: Option<H256>)
    requires a.Coherent(keccak)
    modifies a.cell, a.cells
    ensures a.Trie() == old(a.Trie()) && b.Trie() == CallsEffect(a.Trie(), calls, a.strategy)
    ensures b.Coherent(keccak) && a.cell == b.cell && a.cell.hash == h
    ensures h == if Encode(b.Trie(), keccak).Raw? then None else Some(RootHash(b.Trie(), keccak))
    ensures h.None? || b.Trie() == a.Trie() ==> a.Coherent(keccak)
    ensures Within(a.Trie(), keys) && PrefixFree(keys) && CallsOver(calls, keys) && TellsApart(a.Trie(), b.Trie(), keccak) ==>
      (a.Coherent(keccak) ==> h.None? || b.Trie() == a.Trie())
    ensures Represents(a.Trie(), m) && OfValues(m, keys) && PrefixFree(keys) && CallsOver(calls, keys) ==>
      (b.Trie() == a.Trie() <==> MapAfter(m, Writes(calls)) == m)
  {
    ghost var t := a.Trie();
    b := new HashedPartialTrie.CloneOf(a);
    var _ := RunCalls(b, calls, keccak);
    var _ := b.Intern(keccak);
    h := a.cell.hash;   // what a.hash() now returns, when there is one
    if PrefixFree(keys) && CallsOver(calls, keys) {
      if Within(t, keys) { CallsChangeEncoding(t, calls, a.strategy, keys, keccak); }
      if Represents(t, m) && OfValues(m, keys) { CallsGiveBack(t, m, calls, a.strategy, keys); }
    }
  }

  /** The insertion is refused, or writes what is already there. */
  predicate Harmless(t: Node, k: Key, v: Entry)
    requires t.Wf()
  {
    InsertRec(t, k, v).Err? || Lookup(t, PlacedKey(t, k)) == Some(v)
  }

  /** One insertion into a clone, of a value or a digest, at any key: the other clone stays right if
      the insertion fails, or writes what is already there, or leaves a trie too short to be hashed;
      with a hash function that tells the two tries apart, only then. */
  method InsertedClone(a: HashedPartialTrie, k: Key, v: Entry, keccak: Hasher) returns (b: HashedPartialTrie)
    requires a.Coherent(keccak) && Canonical(a.Trie()) && EntryOk(v)
    modifies a.cell, a.cells
    ensures a.Trie() == old(a.Trie()) && b.Coherent(keccak)
    ensures b.Trie() == CallEffect(a.Trie(), DoInsert(k, v), a.strategy)
    ensures Harmless(a.Trie(), k, v) || Encode(b.Trie(), keccak).Raw? ==> a.Coherent(keccak)
    ensures TellsApart(a.Trie(), b.Trie(), keccak) && a.Coherent(keccak) ==>
      Harmless(a.Trie(), k, v) || Encode(b.Trie(), keccak).Raw?
  {
    ghost var t := a.Trie();
    var calls := [DoInsert(k, v)];
    assert CallsEffect(t, calls, a.strategy) == CallEffect(t, calls[0], a.strategy) by { assert calls[1..] == []; }
    var h;
    b, h := DivergedClone(a, calls, keccak, map[], iset{});
    if InsertRec(t, k, v).Ok? {
      InsertKeepsCanonical(t, k, v);
      InsertStillHolds(t, k, v);
      InsertIsIdle(t, k, v);
      if TellsApart(t, b.Trie(), keccak) { InsertionsChangeEncoding(t, b.Trie(), keccak); }
    }
  }
}
