/** How much a subset trie hides: everything that is hashed and that no listed key leads to, and
    nothing that one leads to. Said on the trie, the keys and the result alone. */
module SubsetExtent {
  import opened Wrappers
  import opened Nibbles
  import opened PartialTrie
  import opened TrieHashing
  import opened TrieSubsets
  import opened TrackedTrie
  import opened ClampedMarking

  /** Node x sits at path q of t. */
  ghost predicate SitsAt(t: Node, q: Key, x: Node)
    requires t.Wf()
    decreases t
  {
    || (q == [] && x == t)
    || (match t
        case Branch(children, _) => q != [] && SitsAt(children[q[0]], q[1..], x)
        case Extension(n, child) => n <= q && SitsAt(child, q[|n|..], x)
        case _ => false)
  }

  /** The trie stores a digest at path q or above it. */
  ghost predicate HashedAway(p: Node, q: Key)
    requires p.Wf()
  {
    exists r: Key, h: H256 :: r <= q && SitsAt(p, r, Hash(h))
  }

  /** The key goes through path q of the trie, to the node x that sits there. A key that is used up at an
      extension does not open it. */
  predicate LeadsTo(k: Key, q: Key, x: Node) {
    q <= k && (x.Extension? ==> q != k)
  }

  predicate NoneLeadsTo(ks: seq<Key>, q: Key, x: Node) {
    forall i :: 0 <= i < |ks| ==> !LeadsTo(ks[i], q, x)
  }

  // ---------------------------------------------------------------------------------------------
  // Flags
  // ---------------------------------------------------------------------------------------------

  /** Without flags below the root, everything below it is unflagged. */
  lemma {:induction false} FreshHides(t: Node, flag: bool, q: Key, x: Node)
    requires t.Wf() && SitsAt(t, q, x) && (flag ==> q != [])
    ensures Fits(t, Fresh(t).(touched := flag)) && HiddenAt(t, Fresh(t).(touched := flag), q, x)
    decreases t
  {
    match t
    case Branch(children, _) => if q != [] { FreshHides(children[q[0]], false, q[1..], x); }
    case Extension(n, child) => if !(q == [] && x == t) { FreshHides(child, false, q[|n|..], x); }
    case _ =>
  }

  /** Marking flags no node that its key does not lead to. */
  lemma {:induction false} MarkSpares(t: Node, m: Marks, k: Key, q: Key, x: Node)
    requires t.Wf() && Fits(t, m) && Mark(t, m, k).Ok? && HiddenAt(t, m, q, x) && !LeadsTo(k, q, x)
    ensures HiddenAt(t, Mark(t, m, k).value, q, x)
    decreases t
  {
    match t
    case Branch(children, _) =>
      if k != [] && q != [] && q[0] == k[0] {
        assert k[..1] == [k[0]] == q[..1];
        ReachedBehind([k[0]], k, q, x);
        MarkSpares(children[k[0]], m.kids[k[0]], k[1..], q[1..], x);
      }
    case Extension(n, child) =>
      if !(q == [] && x == t && !m.touched) && n <= k {
        ReachedBehind(n, k, q, x);
        if k != [] { MarkSpares(child, m.kids[0], k[|n|..], q[|n|..], x); }
      }
    case _ =>
  }

  lemma {:induction false} MarkAllSpares(t: Node, m: Marks, ks: seq<Key>, q: Key, x: Node)
    requires t.Wf() && Fits(t, m) && MarkAll(t, m, ks).Ok? && HiddenAt(t, m, q, x) && NoneLeadsTo(ks, q, x)
    ensures HiddenAt(t, MarkAll(t, m, ks).value, q, x)
    decreases |ks|
  {
    if ks != [] {
      MarkSpares(t, m, ks[0], q, x);
      assert forall i :: 0 <= i < |ks| - 1 ==> ks[1..][i] == ks[i + 1];
      MarkAllSpares(t, Mark(t, m, ks[0]).value, ks[1..], q, x);
    }
  }

  // ---------------------------------------------------------------------------------------------
  // What is hidden
  // ---------------------------------------------------------------------------------------------

  lemma HashBelowSlot(children: seq<Node>, value: Bytes, i: Nibble, r: Key, h: H256)
    requires Branch(children, value).Wf() && SitsAt(children[i], r, Hash(h))
    ensures SitsAt(Branch(children, value), [i] + r, Hash(h))
  {
    assert ([i] + r)[1..] == r;
  }

  lemma HashBelowExtension(n: Key, child: Node, r: Key, h: H256)
    requires child.Wf() && SitsAt(child, r, Hash(h))
    ensures SitsAt(Extension(n, child), n + r, Hash(h))
  {
    assert (n + r)[|n|..] == r;
  }

  /** An unflagged node with a hashed encoding is behind a digest. */
  lemma {:induction false} BuildHides(t: Node, m: Marks, q: Key, x: Node, keccak: Hasher) returns (r: Key, h: H256)
    requires t.Wf() && Fits(t, m) && HiddenAt(t, m, q, x) && Encode(x, keccak).Hashed?
    ensures r <= q && SitsAt(Build(t, m, keccak), r, Hash(h))
    decreases t
  {
    if !m.touched && Encode(t, keccak).Hashed? {
      r, h := [], Encode(t, keccak).hash;
    } else {
      match t
      case Branch(children, value) =>
        var below, d := BuildHides(children[q[0]], m.kids[q[0]], q[1..], x, keccak);
        r, h := [q[0]] + below, d;
        HashBelowSlot(Build(t, m, keccak).children, value, q[0], below, h);
      case Extension(n, child) =>
        var below, d := BuildHides(child, m.kids[0], q[|n|..], x, keccak);
        r, h := n + below, d;
        PrefixIff(n, below, q);
        HashBelowExtension(n, Build(child, m.kids[0], keccak), below, h);
      case _ => assert false;
    }
  }

  /** A digest in the subset is a digest of the trie, or stands for an unflagged node. */
  lemma {:induction false} DigestIsUnflagged(t: Node, m: Marks, r: Key, h: H256, keccak: Hasher) returns (y: Node)
    requires t.Wf() && Fits(t, m) && SitsAt(Build(t, m, keccak), r, Hash(h))
    ensures SitsAt(t, r, y) && (y.Hash? || HiddenAt(t, m, r, y))
    decreases t
  {
    y := t;
    if m.touched || !Encode(t, keccak).Hashed? {
      match t
      case Branch(children, value) => y := DigestIsUnflagged(children[r[0]], m.kids[r[0]], r[1..], h, keccak);
      case Extension(n, child) => y := DigestIsUnflagged(child, m.kids[0], r[|n|..], h, keccak);
      case _ =>
    }
  }

  /** Nothing sits behind a digest, and at most one node at a path. */
  lemma {:induction false} SitsAlone(t: Node, r: Key, y: Node, q: Key, x: Node)
    requires Canonical(t) && t.Wf() && SitsAt(t, r, y) && SitsAt(t, q, x) && r <= q
    ensures r == q || y.Hash? ==> x == y
    decreases t
  {
    match t
    case Branch(children, _) => if r != [] { SitsAlone(children[r[0]], r[1..], y, q[1..], x); }
    case Extension(n, child) =>
      if r != [] {
        PrefixSplit(n, r);
        PrefixIff(n, r[|n|..], q);
        SitsAlone(child, r[|n|..], y, q[|n|..], x);
      }
    case _ =>
  }

  /** Keys are passed on from a node to the nodes above it. */
  lemma LeadsThrough(t: Node, k: Key, r: Key, y: Node, q: Key, x: Node)
    requires Canonical(t) && t.Wf() && SitsAt(t, r, y) && SitsAt(t, q, x) && r <= q && LeadsTo(k, q, x)
    ensures LeadsTo(k, r, y)
  {
    SitsAlone(t, r, y, q, x);
  }

  // ---------------------------------------------------------------------------------------------
  // The extent of a subset
  // ---------------------------------------------------------------------------------------------

  /** What marking leaves to hide, whether or not the root had a flag before. */
  lemma OffIsHidden(t: Node, flag: bool, ks: seq<Key>, q: Key, x: Node, keccak: Hasher)
    requires t.Wf() && Fits(t, Fresh(t).(touched := flag)) && MarkAll(t, Fresh(t).(touched := flag), ks).Ok?
    requires SitsAt(t, q, x) && Encode(x, keccak).Hashed? && NoneLeadsTo(ks, q, x) && (flag ==> q != [])
    ensures HashedAway(Build(t, MarkAll(t, Fresh(t).(touched := flag), ks).value, keccak), q)
  {
    FreshHides(t, flag, q, x);
    MarkAllSpares(t, Fresh(t).(touched := flag), ks, q, x);
    var r, h := BuildHides(t, MarkAll(t, Fresh(t).(touched := flag), ks).value, q, x, keccak);
  }

  /** Whatever is hashed and off the way of all listed keys is behind a digest in the subset. */
  lemma SubsetHides(t: Node, ks: seq<Key>, q: Key, x: Node, keccak: Hasher)
    requires t.Wf() && CreateSubset(t, ks, keccak).Ok? && SitsAt(t, q, x) && Encode(x, keccak).Hashed?
    requires forall i :: 0 <= i < |ks| && q <= ks[i] ==> x.Extension? && q == ks[i]
    ensures HashedAway(CreateSubset(t, ks, keccak).value, q)
  {
    assert Fresh(t).(touched := false) == Fresh(t);
    OffIsHidden(t, false, ks, q, x, keccak);
  }

  /** A subset hides a stored node with a hashed encoding exactly when no listed key leads to it: no key
      starts with its path, but for an extension that a key just reaches. */
  lemma SubsetHidesExactly(t: Node, ks: seq<Key>, q: Key, x: Node, keccak: Hasher)
    requires Canonical(t) && t.Wf() && CreateSubset(t, ks, keccak).Ok?
    requires SitsAt(t, q, x) && !x.Hash? && Encode(x, keccak).Hashed?
    ensures HashedAway(CreateSubset(t, ks, keccak).value, q)
      <==> forall i :: 0 <= i < |ks| && q <= ks[i] ==> x.Extension? && q == ks[i]
  {
    var p, m := CreateSubset(t, ks, keccak).value, MarkAll(t, Fresh(t), ks).value;
    if HashedAway(p, q) {
      var r: Key, h: H256 :| r <= q && SitsAt(p, r, Hash(h));
      var y := DigestIsUnflagged(t, m, r, h, keccak);
      SitsAlone(t, r, y, q, x);
      forall i | 0 <= i < |ks| && q <= ks[i] ensures x.Extension? && q == ks[i] {
        MarkAllReaches(t, Fresh(t), ks, r, y);
        if LeadsTo(ks[i], q, x) { LeadsThrough(t, ks[i], r, y, q, x); }
      }
    } else if forall i :: 0 <= i < |ks| && q <= ks[i] ==> x.Extension? && q == ks[i] {
      SubsetHides(t, ks, q, x, keccak);
    }
  }

  /** Result j of several subsets hides path q. */
  ghost predicate HidesIn(results: seq<Node>, j: nat, q: Key) {
    j < |results| && results[j].Wf() && HashedAway(results[j], q)
  }

  lemma HidesBehind(p: Node, rest: seq<Node>, j: nat, q: Key)
    requires HidesIn(rest, j, q)
    ensures HidesIn([p] + rest, j + 1, q)
  {
    assert ([p] + rest)[j + 1] == rest[j];
  }

  lemma {:induction false} SharedHidesOff(t: Node, stale: bool, keySets: seq<seq<Key>>, j: nat, q: Key, x: Node, keccak: Hasher)
    requires t.Wf() && Fits(t, Fresh(t).(touched := stale))
    requires SharedSubsets(t, Fresh(t).(touched := stale), keySets, keccak).Ok?
    requires SitsAt(t, q, x) && Encode(x, keccak).Hashed? && q != [] && j < |keySets| && NoneLeadsTo(keySets[j], q, x)
    ensures HidesIn(SharedSubsets(t, Fresh(t).(touched := stale), keySets, keccak).value, j, q)
    decreases |keySets|
  {
    var marked := MarkAll(t, Fresh(t).(touched := stale), keySets[0]).value;
    var rest := SharedSubsets(t, ResetMarks(t, marked), keySets[1..], keccak).value;
    var p := Build(t, marked, keccak);
    if j == 0 {
      OffIsHidden(t, stale, keySets[0], q, x, keccak);
      assert ([p] + rest)[0] == p;
    } else {
      ResetIsFresh(t, marked);
      SharedHidesOff(t, marked.touched && (t.Branch? || t.Extension?), keySets[1..], j - 1, q, x, keccak);
      HidesBehind(p, rest, j - 1, q);
    }
  }

  /** Each of several subsets from one tracked trie hides what its own keys do not lead to, except that
      the root itself may have been left open. */
  lemma SharedHides(t: Node, keySets: seq<seq<Key>>, j: nat, q: Key, x: Node, keccak: Hasher)
    requires t.Wf() && SharedSubsets(t, Fresh(t), keySets, keccak).Ok? && j < |keySets|
    requires SitsAt(t, q, x) && Encode(x, keccak).Hashed? && q != []
    requires forall i :: 0 <= i < |keySets[j]| && q <= keySets[j][i] ==> x.Extension? && q == keySets[j][i]
    ensures HidesIn(SharedSubsets(t, Fresh(t), keySets, keccak).value, j, q)
  {
    assert Fresh(t).(touched := false) == Fresh(t);
    SharedHidesOff(t, false, keySets, j, q, x, keccak);
  }

  lemma ClampedIsFollowed(t: Node, ks: seq<Key>, keccak: Hasher)
    requires Canonical(t) && t.Wf()
    ensures CreateSubsetClamped(t, ks, keccak) == CreateSubset(t, FollowedKeys(t, ks), keccak)
  {
    AllClampedIsMarkAll(t, Fresh(t), ks);
  }

  /** The same without overflow checks: a key that stops within an extension leads to its end. */
  lemma ClampedHidesExactly(t: Node, ks: seq<Key>, q: Key, x: Node, keccak: Hasher)
    requires Canonical(t) && t.Wf() && CreateSubsetClamped(t, ks, keccak).Ok?
    requires SitsAt(t, q, x) && !x.Hash? && Encode(x, keccak).Hashed?
    ensures HashedAway(CreateSubsetClamped(t, ks, keccak).value, q)
      <==> forall i :: 0 <= i < |ks| && q <= FollowedKey(t, ks[i]) ==> x.Extension? && q == FollowedKey(t, ks[i])
  {
    ClampedIsFollowed(t, ks, keccak);
    SubsetHidesExactly(t, FollowedKeys(t, ks), q, x, keccak);
  }
}
