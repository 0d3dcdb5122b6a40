/** What insertion does to a trie's content, and that it keeps the canonical shape. */
module InsertContent {
  import opened Wrappers
  import opened Nibbles
  import opened PartialTrie
  import opened TrieOps

  /** Values are RLP-encoded by the caller and so never empty. */
  predicate EntryOk(v: Entry) {
    v.Val? ==> v.value != []
  }

  /** The key runs out strictly inside the nibbles of an extension. */
  predicate EndsInsideExtension(t: Node, k: Key)
    requires t.Wf()
    decreases t
  {
    match t
    case Branch(children, _) => k != [] && EndsInsideExtension(children[k[0]], k[1..])
    case Extension(n, child) => if n <= k then EndsInsideExtension(child, k[|n|..]) else k < n
    case _ => false
  }

  /** The walk along the key meets a hash node. */
  predicate MeetsHash(t: Node, k: Key)
    requires t.Wf()
    decreases t
  {
    match t
    case Hash(_) => true
    case Branch(children, _) => k != [] && MeetsHash(children[k[0]], k[1..])
    case Extension(n, child) => Agree(n, k) && MeetsHash(child, DropClamped(k, |n|))
    case _ => false
  }

  function Updated(old_: Option<Entry>, k: Key, v: Entry, q: Key): Option<Entry> {
    if q == k then Some(v) else old_
  }

  lemma NodeOfEntryContent(k: Key, v: Entry, q: Key)
    requires EntryOk(v)
    ensures var e := NodeOfEntry(k, v);
      Canonical(e) && e.Wf() && !e.Empty? && Lookup(e, q) == Updated(None, k, v, q)
  {
  }

  lemma TwoSlots(a: Nibble, x: Node, b: Nibble, y: Node)
    requires a != b && !x.Empty? && !y.Empty? && Canonical(x) && Canonical(y) && x.Wf() && y.Wf()
    ensures var t := Branch(EmptyChildren()[a := x][b := y], []); Canonical(t) && t.Wf()
  {
    UsedSlotsBound(EmptyChildren()[a := x][b := y], a, b);
  }

  lemma OneSlot(a: Nibble, x: Node, value: Bytes)
    requires !x.Empty? && Canonical(x) && x.Wf() && value != []
    ensures var t := Branch(EmptyChildren()[a := x], value); Canonical(t) && t.Wf()
  {
    var used := UsedSlots(EmptyChildren()[a := x]);
    assert a in used;
    assert |used| >= 1;
  }

  /** The branch (with its prefix) that replaces a leaf or extension at the point where two keys part. */
  lemma PlaceBranchCanonical(n: Key, k: Key, existing: Node, v: Entry)
    requires n != k && (|CommonPrefix(n, k)| < |n| || existing.Leaf?)
    requires Canonical(existing) && existing.Wf() && !existing.Empty? && EntryOk(v)
    requires PlaceBranch(n, k, existing, v).Ok?
    ensures var r := PlaceBranch(n, k, existing, v).value; Canonical(r) && !r.Empty?
  {
    var i := |CommonPrefix(n, k)|;
    if i < |k| { NodeOfEntryContent(k[i + 1..], v, []); }
    if i == |n| {
      OneSlot(k[i], NodeOfEntry(k[i + 1..], v), existing.value);
    } else if i == |k| {
      OneSlot(n[i], existing, v.value);
    } else {
      TwoSlots(n[i], existing, k[i], NodeOfEntry(k[i + 1..], v));
    }
  }

  /** Content of the replacement: the new entry, the old value when its key has run out, and
      otherwise what the old node holds below the nibble that the branch consumes. */
  function PlacedContent(n: Key, k: Key, existing: Node, v: Entry, q: Key): Option<Entry>
    requires |CommonPrefix(n, k)| < |n| || existing.Leaf?
    requires existing.Wf()
  {
    var i := |CommonPrefix(n, k)|;
    if q == k then Some(v)
    else if i == |n| then (if q == n then Some(Val(existing.value)) else None)
    else if n[..i + 1] <= q then Lookup(existing, q[i + 1..])
    else None
  }

  /** The key that is the shared prefix itself. */
  lemma ForkLookupHere(n: Key, k: Key, existing: Node, v: Entry, q: Key)
    requires n != k && (|CommonPrefix(n, k)| < |n| || existing.Leaf?)
    requires Canonical(existing) && existing.Wf() && EntryOk(v)
    requires Fork(n, k, existing, v).Ok? && CommonPrefix(n, k) == q
    ensures Lookup(Fork(n, k, existing, v).value, []) == PlacedContent(n, k, existing, v, q)
  {
    var i := |q|;
    if i == |n| { assert n == q; }
    if i == |k| { assert k == q; }
  }

  /** A key behind the shared prefix. */
  lemma ForkLookupBelow(n: Key, k: Key, existing: Node, v: Entry, q: Key)
    requires n != k && (|CommonPrefix(n, k)| < |n| || existing.Leaf?)
    requires Canonical(existing) && existing.Wf() && EntryOk(v)
    requires Fork(n, k, existing, v).Ok? && CommonPrefix(n, k) <= q && |CommonPrefix(n, k)| < |q|
    ensures Lookup(Fork(n, k, existing, v).value, q[|CommonPrefix(n, k)|..]) == PlacedContent(n, k, existing, v, q)
  {
    var i := |CommonPrefix(n, k)|;
    assert q[i..][1..] == q[i + 1..] && q[i..][0] == q[i];
    HeadTail(q, i, k);
    HeadTail(q, i, n);
    if i < |k| { NodeOfEntryContent(k[i + 1..], v, q[i + 1..]); }
  }

  lemma ForkLookup(n: Key, k: Key, existing: Node, v: Entry, q: Key)
    requires n != k && (|CommonPrefix(n, k)| < |n| || existing.Leaf?)
    requires Canonical(existing) && existing.Wf() && EntryOk(v)
    requires Fork(n, k, existing, v).Ok? && CommonPrefix(n, k) <= q
    ensures Lookup(Fork(n, k, existing, v).value, q[|CommonPrefix(n, k)|..]) == PlacedContent(n, k, existing, v, q)
  {
    if |CommonPrefix(n, k)| == |q| {
      ForkLookupHere(n, k, existing, v, q);
    } else {
      ForkLookupBelow(n, k, existing, v, q);
    }
  }

  lemma PlaceBranchLookup(n: Key, k: Key, existing: Node, v: Entry, q: Key)
    requires n != k && (|CommonPrefix(n, k)| < |n| || existing.Leaf?)
    requires Canonical(existing) && existing.Wf() && EntryOk(v)
    requires PlaceBranch(n, k, existing, v).Ok?
    ensures Lookup(PlaceBranch(n, k, existing, v).value, q) == PlacedContent(n, k, existing, v, q)
  {
    var p := CommonPrefix(n, k);
    if p <= q {
      ForkLookup(n, k, existing, v, q);
      assert q[0..] == q;
    } else if |p| < |n| {
      assert n[..|p| + 1][..|p|] == p;
    }
  }

  lemma HeadTail(q: Key, i: nat, k: Key)
    requires i < |q| && i <= |k| && q[..i] == k[..i]
    ensures i < |k| ==> (q == k <==> q[i] == k[i] && q[i + 1..] == k[i + 1..])
    ensures i < |k| ==> (k[..i + 1] <= q <==> q[i] == k[i])
  {
    if i < |k| {
      assert q == q[..i] + [q[i]] + q[i + 1..];
      assert k == k[..i] + [k[i]] + k[i + 1..];
    }
  }

  lemma FilledSlotCanonical(children: seq<Node>, value: Bytes, i: Nibble, x: Node)
    requires Canonical(Branch(children, value)) && Branch(children, value).Wf() && Canonical(x) && x.Wf() && !x.Empty?
    ensures Canonical(Branch(WithSlot(children, i, x), value))
  {
    SubsetSize(UsedSlots(children), UsedSlots(WithSlot(children, i, x)));
  }

  /** A successful insertion keeps the trie canonical. */
  lemma {:induction false} InsertKeepsCanonical(t: Node, k: Key, v: Entry)
    requires Canonical(t) && t.Wf() && EntryOk(v) && InsertRec(t, k, v).Ok?
    ensures var r := InsertRec(t, k, v).value;
      Canonical(r) && !r.Empty? && (t.Branch? ==> r.Branch?)
    decreases t
  {
    match t
    case Empty => NodeOfEntryContent(k, v, []);
    case Branch(children, value) =>
      if k != [] {
        InsertKeepsCanonical(children[k[0]], k[1..], v);
        FilledSlotCanonical(children, value, k[0], InsertRec(children[k[0]], k[1..], v).value);
      }
    case Extension(n, child) =>
      if Agree(n, k) {
        InsertKeepsCanonical(child, DropClamped(k, |n|), v);
      } else {
        var post := n[CommonPrefixLen(n, k) + 1..];
        PlaceBranchCanonical(n, k, if post == [] then child else Extension(post, child), v);
      }
    case Leaf(n, value) =>
      if n != k {
        PlaceBranchCanonical(n, k, Leaf(DropClamped(n, CommonPrefixLen(n, k) + 1), value), v);
      }
  }

  /** What an extension holds, seen from behind its first i + 1 nibbles. */
  lemma ExtensionTail(n: Key, child: Node, i: nat, q: Key)
    requires child.Wf() && i < |n|
    ensures var post := n[i + 1..];
      Lookup(Extension(n, child), q)
        == if n[..i + 1] <= q then Lookup(if post == [] then child else Extension(post, child), q[i + 1..]) else None
  {
    var post := n[i + 1..];
    assert n == n[..i + 1] + post;
    PrefixIff(n[..i + 1], post, q);
    if n <= q { assert q[|n|..] == q[i + 1..][|post|..]; }
  }

  lemma SplitExtensionLookup(n: Key, child: Node, k: Key, v: Entry, q: Key)
    requires Canonical(Extension(n, child)) && child.Wf() && EntryOk(v) && !Agree(n, k)
    requires InsertRec(Extension(n, child), k, v).Ok?
    ensures Lookup(InsertRec(Extension(n, child), k, v).value, q)
         == Updated(Lookup(Extension(n, child), q), k, v, q)
  {
    var i := CommonPrefixLen(n, k);
    var existing := if n[i + 1..] == [] then child else Extension(n[i + 1..], child);
    PlaceBranchLookup(n, k, existing, v, q);
    ExtensionTail(n, child, i, q);
    var was := Lookup(Extension(n, child), q);
    assert was == if n[..i + 1] <= q then Lookup(existing, q[i + 1..]) else None;
    assert PlacedContent(n, k, existing, v, q) == Updated(was, k, v, q);
  }

  lemma SplitLeafLookup(n: Key, value: Bytes, k: Key, v: Entry, q: Key)
    requires value != [] && EntryOk(v) && n != k
    requires InsertRec(Leaf(n, value), k, v).Ok?
    ensures Lookup(InsertRec(Leaf(n, value), k, v).value, q) == Updated(Lookup(Leaf(n, value), q), k, v, q)
  {
    var i := CommonPrefixLen(n, k);
    PlaceBranchLookup(n, k, Leaf(DropClamped(n, i + 1), value), v, q);
    if i < |n| {
      assert n == n[..i + 1] + n[i + 1..];
      if n[..i + 1] <= q { assert q == n[..i + 1] + q[i + 1..]; }
    }
  }

  /** A successful insertion changes the entry at its key and no other, unless the key ends
      inside an extension. */
  lemma {:induction false} InsertLookup(t: Node, k: Key, v: Entry, q: Key)
    requires Canonical(t) && t.Wf() && EntryOk(v) && InsertRec(t, k, v).Ok?
    requires !EndsInsideExtension(t, k)
    ensures Lookup(InsertRec(t, k, v).value, q) == Updated(Lookup(t, q), k, v, q)
    decreases t
  {
    match t
    case Empty => NodeOfEntryContent(k, v, q);
    case Branch(children, value) =>
      if k != [] && q != [] {
        assert q == k <==> q[0] == k[0] && q[1..] == k[1..];
        if q[0] == k[0] {
          InsertLookup(children[k[0]], k[1..], v, q[1..]);
        }
      }
    case Extension(n, child) =>
      if !Agree(n, k) {
        SplitExtensionLookup(n, child, k, v, q);
      } else if n <= q {
        PrefixSplit(n, q);
        PrefixSplit(n, k);
        InsertLookup(child, k[|n|..], v, q[|n|..]);
      }
    case Leaf(n, value) =>
      if n != k { SplitLeafLookup(n, value, k, v, q); }
  }

  /** Insertion is right about its key exactly when the key does not end inside an extension. */
  lemma {:induction false} InsertSetsKey(t: Node, k: Key, v: Entry)
    requires Canonical(t) && t.Wf() && EntryOk(v) && InsertRec(t, k, v).Ok?
    ensures Lookup(InsertRec(t, k, v).value, k) == Some(v) <==> !EndsInsideExtension(t, k)
    decreases t
  {
    if !EndsInsideExtension(t, k) {
      InsertLookup(t, k, v, k);
    } else if t.Branch? {
      InsertSetsKey(t.children[k[0]], k[1..], v);
    } else if t.nibbles <= k {
      InsertSetsKey(t.child, k[|t.nibbles|..], v);
    }
  }

  /** The trie holds the key or one that extends it. */
  ghost predicate HoldsKeyFrom(t: Node, k: Key)
    requires t.Wf()
  {
    exists q :: k <= q && Lookup(t, q).Some?
  }

  lemma {:induction false} BlockingKey(t: Node, k: Key, v: Entry) returns (q: Key)
    requires Canonical(t) && t.Wf() && InsertRec(t, k, v).Err? && !MeetsHash(t, k)
    ensures v.HashOf? && k <= q && Lookup(t, q).Some?
    decreases t
  {
    match t
    case Branch(children, _) =>
      if k == [] {
        q := SomeKey(t);
      } else {
        var r := BlockingKey(children[k[0]], k[1..], v);
        q := [k[0]] + r;
        assert k == [k[0]] + k[1..];
      }
    case Extension(n, child) =>
      assert Agree(n, k) by { if !Agree(n, k) { SplitNeverFails(n, child, k, v); } }
      var r := BlockingKey(child, DropClamped(k, |n|), v);
      q := n + r;
      ExtensionLookup(n, child, r);
      if n <= k { PrefixSplit(n, k); }
    case Leaf(n, _) => q := n;
  }

  lemma SplitNeverFails(n: Key, child: Node, k: Key, v: Entry)
    requires child.Wf() && !Agree(n, k)
    ensures InsertRec(Extension(n, child), k, v).Ok?
  {
  }

  lemma {:induction false} KeyBlocks(t: Node, k: Key, v: Entry, q: Key)
    requires Canonical(t) && t.Wf() && v.HashOf? && k <= q && Lookup(t, q).Some?
    ensures InsertRec(t, k, v).Err?
    decreases t
  {
    match t
    case Branch(children, _) =>
      if k != [] { KeyBlocks(children[k[0]], k[1..], v, q[1..]); }
    case Extension(n, child) =>
      var rest := DropClamped(k, |n|);
      assert Agree(n, k) && rest <= q[|n|..];
      KeyBlocks(child, rest, v, q[|n|..]);
    case _ =>
  }

  lemma {:induction false} HashBlocks(t: Node, k: Key, v: Entry)
    requires t.Wf() && MeetsHash(t, k)
    ensures InsertRec(t, k, v).Err?
    decreases t
  {
    match t
    case Branch(children, _) => HashBlocks(children[k[0]], k[1..], v);
    case Extension(n, child) => HashBlocks(child, DropClamped(k, |n|), v);
    case _ =>
  }

  /** When insertion fails: a value only at a hash node, a digest also where the key or an
      extension of it is already taken. */
  lemma InsertFails(t: Node, k: Key, v: Entry)
    requires Canonical(t) && t.Wf()
    ensures InsertRec(t, k, v).Err? <==> MeetsHash(t, k) || (v.HashOf? && HoldsKeyFrom(t, k))
  {
    if MeetsHash(t, k) {
      HashBlocks(t, k, v);
    } else if InsertRec(t, k, v).Err? {
      var q := BlockingKey(t, k, v);
    } else if v.HashOf? && HoldsKeyFrom(t, k) {
      var q :| k <= q && Lookup(t, q).Some?;
      KeyBlocks(t, k, v, q);
    }
  }
}
