/** Marking as a build without overflow checks does it: popping more nibbles than a key has left does
    not panic there, the key is simply used up. */
module ClampedMarking {
  import opened Wrappers
  import opened Nibbles
  import opened PartialTrie
  import opened TrieOps
  import opened InsertContent
  import opened DeleteContent
  import opened TrieHashing
  import opened TrieRuns
  import opened TrieSubsets
  import opened RunWitness

  function MarkClamped(t: Node, m: Marks, k: Key): (r: Result<Marks, SubsetError>)
    requires t.Wf() && Fits(t, m)
    ensures r.Ok? ==> Fits(t, r.value)
    decreases t
  {
    match t
    case Empty => Ok(m.(touched := true))
    case Hash(_) => if k == [] then Ok(m.(touched := true)) else Err(HashNodeOnPath)
    case Branch(children, _) =>
      if k == [] then Ok(m.(touched := true))
      else
        var kid :- MarkClamped(children[k[0]], m.kids[k[0]], k[1..]);
        Ok(Marks(true, m.kids[k[0] := kid]))
    case Extension(n, child) =>
      if k == [] then Ok(m)
      else if !Agree(n, k) then Ok(m.(touched := true))
      else
        var kid :- MarkClamped(child, m.kids[0], DropClamped(k, |n|));
        Ok(Marks(true, [kid]))
    case Leaf(_, _) => Ok(m.(touched := true))
  }

  function MarkAllClamped(t: Node, m: Marks, ks: seq<Key>): (r: Result<Marks, SubsetError>)
    requires t.Wf() && Fits(t, m)
    ensures r.Ok? ==> Fits(t, r.value)
    decreases |ks|
  {
    if ks == [] then Ok(m)
    else
      var next :- MarkClamped(t, m, ks[0]);
      MarkAllClamped(t, next, ks[1..])
  }

  function CreateSubsetClamped(t: Node, ks: seq<Key>, keccak: Hasher): (r: Result<Node, SubsetError>)
    requires t.Wf()
    ensures r.Ok? ==> r.value.Wf()
  {
    var m :- MarkAllClamped(t, Fresh(t), ks);
    Ok(Build(t, m, keccak))
  }

  // ---------------------------------------------------------------------------------------------
  // Which key it follows
  // ---------------------------------------------------------------------------------------------

  /** A key that stops within an extension is followed to the end of that extension. */
  function FollowedKey(t: Node, k: Key): (q: Key)
    requires t.Wf()
    ensures k <= q
    decreases t
  {
    match t
    case Branch(children, _) => if k == [] then [] else [k[0]] + FollowedKey(children[k[0]], k[1..])
    case Extension(n, child) =>
      if k == [] then []
      else if n <= k then n + FollowedKey(child, k[|n|..])
      else if k <= n then n
      else k
    case _ => k
  }

  lemma FollowedBehind(n: Key, child: Node, k: Key)
    requires child.Wf() && k != [] && Agree(n, k)
    ensures FollowedKey(Extension(n, child), k) == n + FollowedKey(child, DropClamped(k, |n|))
    ensures FollowedKey(Extension(n, child), k)[|n|..] == FollowedKey(child, DropClamped(k, |n|))
  {
    var rest := DropClamped(k, |n|);
    assert rest == [] ==> FollowedKey(child, rest) == [];
    assert n + [] == n;
  }

  /** Clamped marking is marking of the followed key, and nothing changes for other keys. */
  lemma {:induction false} ClampedIsMark(t: Node, m: Marks, k: Key)
    requires Canonical(t) && t.Wf() && Fits(t, m)
    ensures MarkClamped(t, m, k) == Mark(t, m, FollowedKey(t, k)) && !StopsWithin(t, FollowedKey(t, k))
    ensures !StopsWithin(t, k) ==> FollowedKey(t, k) == k
    decreases t
  {
    match t
    case Branch(children, _) =>
      if k != [] {
        ClampedIsMark(children[k[0]], m.kids[k[0]], k[1..]);
        assert FollowedKey(t, k)[1..] == FollowedKey(children[k[0]], k[1..]);
      }
    case Extension(n, child) =>
      var rest := DropClamped(k, |n|);
      if k != [] && Agree(n, k) {
        ClampedIsMark(child, m.kids[0], rest);
        FollowedBehind(n, child, k);
        if n <= k { PrefixSplit(n, k); }
      }
    case _ =>
  }

  /** A digest above the followed key is above the key itself. */
  lemma {:induction false} FollowedPasses(t: Node, k: Key)
    requires Canonical(t) && t.Wf()
    ensures PassesHash(t, FollowedKey(t, k)) <==> PassesHash(t, k)
  {
    if PassesHash(t, k) {
      var q :| q <= k && q != k && Lookup(t, q).Some? && Lookup(t, q).value.HashOf?;
      assert q <= FollowedKey(t, k);
    }
    if PassesHash(t, FollowedKey(t, k)) {
      var q :| q <= FollowedKey(t, k) && q != FollowedKey(t, k) && Lookup(t, q).Some? && Lookup(t, q).value.HashOf?;
      DigestBefore(t, k, q);
    }
  }

  lemma {:induction false} DigestBefore(t: Node, k: Key, q: Key)
    requires Canonical(t) && t.Wf() && Lookup(t, q).Some? && Lookup(t, q).value.HashOf?
    requires q <= FollowedKey(t, k) && q != FollowedKey(t, k)
    ensures q <= k && q != k
    decreases t
  {
    match t
    case Branch(children, _) =>
      assert k == [k[0]] + k[1..] && q == [q[0]] + q[1..];
      DigestBefore(children[k[0]], k[1..], q[1..]);
    case Extension(n, child) =>
      if n <= k {
        PrefixSplit(n, k);
        PrefixSplit(n, q);
        PrefixIff(n, q[|n|..], FollowedKey(t, k));
        assert FollowedKey(t, k)[|n|..] == FollowedKey(child, k[|n|..]);
        DigestBefore(child, k[|n|..], q[|n|..]);
        PrefixIff(n, q[|n|..], k);
      }
    case _ =>
  }

  function FollowedKeys(t: Node, ks: seq<Key>): (qs: seq<Key>)
    requires t.Wf()
    ensures |qs| == |ks| && forall i :: 0 <= i < |ks| ==> qs[i] == FollowedKey(t, ks[i])
  {
    seq(|ks|, i requires 0 <= i < |ks| => FollowedKey(t, ks[i]))
  }

  lemma {:induction false} AllClampedIsMarkAll(t: Node, m: Marks, ks: seq<Key>)
    requires Canonical(t) && t.Wf() && Fits(t, m)
    ensures MarkAllClamped(t, m, ks) == MarkAll(t, m, FollowedKeys(t, ks))
    decreases |ks|
  {
    if ks != [] {
      ClampedIsMark(t, m, ks[0]);
      var first := MarkClamped(t, m, ks[0]);
      if first.Ok? {
        AllClampedIsMarkAll(t, first.value, ks[1..]);
        assert FollowedKeys(t, ks)[1..] == FollowedKeys(t, ks[1..]);
      }
    }
  }

  /** Where marking with overflow checks succeeds, marking without them gives the same subset. */
  lemma ClampedAgrees(t: Node, ks: seq<Key>, keccak: Hasher)
    requires Canonical(t) && t.Wf() && CreateSubset(t, ks, keccak).Ok?
    ensures CreateSubsetClamped(t, ks, keccak) == CreateSubset(t, ks, keccak)
  {
    MarkAllSucceeds(t, Fresh(t), ks);
    AllClampedIsMarkAll(t, Fresh(t), ks);
    forall i | 0 <= i < |ks| ensures FollowedKey(t, ks[i]) == ks[i] { ClampedIsMark(t, Fresh(t), ks[i]); }
    assert FollowedKeys(t, ks) == ks;
  }

  /** Clamped marking of a list fails only where a key passes a digest. */
  lemma ClampedMarksAll(t: Node, m: Marks, ks: seq<Key>)
    requires Canonical(t) && t.Wf() && Fits(t, m)
    ensures MarkAllClamped(t, m, ks).Ok? <==> NonePasses(t, ks)
  {
    AllClampedIsMarkAll(t, m, ks);
    MarkAllSucceeds(t, m, FollowedKeys(t, ks));
    forall i | 0 <= i < |ks|
      ensures !StopsWithin(t, FollowedKey(t, ks[i])) && (PassesHash(t, FollowedKey(t, ks[i])) <==> PassesHash(t, ks[i]))
    {
      ClampedIsMark(t, m, ks[i]);
      FollowedPasses(t, ks[i]);
    }
    if NonePasses(t, FollowedKeys(t, ks)) {
      forall i | 0 <= i < |ks| ensures !PassesHash(t, ks[i]) { assert !PassesHash(t, FollowedKeys(t, ks)[i]); }
    }
  }

  // ---------------------------------------------------------------------------------------------
  // The witness of a run
  // ---------------------------------------------------------------------------------------------

  lemma CoversBy(needed: seq<Key>, k: Key, i: nat)
    requires i < |needed| && k <= needed[i]
    ensures Covers(needed, k)
  {
  }

  lemma FollowedCovers(t: Node, accesses: seq<Key>, ops: seq<Op>, reports: seq<Key>, keys: iset<Key>)
    requires t.Wf() && Accesses(accesses, ops, keys)
    ensures var needed := FollowedKeys(t, accesses + reports);
      CoversAll(needed, OpKeys(ops)) && CoversAll(needed, reports)
  {
    var needed := FollowedKeys(t, accesses + reports);
    forall i | 0 <= i < |ops| ensures Covers(needed, OpKeys(ops)[i]) {
      var j :| 0 <= j < |accesses| && accesses[j] == ops[i].key;
      CoversBy(needed, OpKeys(ops)[i], j);
    }
    forall i | 0 <= i < |reports| ensures Covers(needed, reports[i]) {
      CoversBy(needed, reports[i], |accesses| + i);
    }
  }

  /** Without overflow checks the witness of a run always works: the subset for the accesses and the
      reports can be built exactly when no access passes a digest, and the run succeeds on it with the
      roots of the full trie. */
  lemma ClampedWitnessSuffices(t: Node, ops: seq<Op>, s: OnOrphanedHashNode, accesses: seq<Key>, keys: iset<Key>, keccak: Hasher)
    requires Within(t, keys) && PrefixFree(keys) && Over(ops, keys) && RunAndReport(t, ops, s).Ok?
    requires Accesses(accesses, ops, keys)
    ensures var built := CreateSubsetClamped(t, accesses + RunAndReport(t, ops, s).value.1, keccak);
      && (built.Ok? <==> NonePasses(t, accesses))
      && (built.Ok? ==>
            && Run(built.value, ops, s).Ok?
            && RootHash(built.value, keccak) == RootHash(t, keccak)
            && RootHash(Run(built.value, ops, s).value, keccak) == RootHash(RunAndReport(t, ops, s).value.0, keccak))
  {
    var reports := RunAndReport(t, ops, s).value.1;
    RunPassesNoHash(t, t, ops, s, keys);
    ClampedMarksAll(t, Fresh(t), accesses + reports);
    NoneJoin(t, accesses, reports);
    AllClampedIsMarkAll(t, Fresh(t), accesses + reports);
    if NonePasses(t, accesses) {
      FollowedCovers(t, accesses, ops, reports, keys);
      RunWitnessSuffices(t, ops, s, FollowedKeys(t, accesses + reports), keys, keccak);
    }
  }
}
