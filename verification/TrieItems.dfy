/** What the iterator enumerates: each entry of the trie once, in order; inserting the entries again
    gives back the trie. */
module TrieItems {
  import opened Wrappers
  import opened Nibbles
  import opened PartialTrie
  import opened TrieOps
  import opened InsertContent
  import opened TrieRuns
  import opened TrieIter

  // ---------------------------------------------------------------------------------------------
  // The items are the content
  // ---------------------------------------------------------------------------------------------

  ghost predicate Held(t: Node, path: Key, x: Item)
    requires t.Wf()
  {
    path <= x.0 && Lookup(t, x.0[|path|..]) == Some(x.1)
  }

  /** An item is enumerated exactly when the trie holds its entry at its key. */
  lemma {:induction false} ItemsAreContent(t: Node, path: Key, x: Item)
    requires t.Wf()
    ensures x in Items(t, path) <==> Held(t, path, x)
    decreases t
  {
    match t
    case Hash(_) => if path <= x.0 && x.0[|path|..] == [] { assert x.0 == path; }
    case Branch(children, value) => BranchItemsAreContent(children, value, 0, path, x);
    case Extension(n, child) =>
      ItemsAreContent(child, path + n, x);
      PrefixIff(path, n, x.0);
      if path + n <= x.0 { assert x.0[|path + n|..] == x.0[|path|..][|n|..]; }
    case Leaf(n, _) =>
      if path <= x.0 { PrefixSplit(path, x.0); }
      assert (path + n)[|path|..] == n;
    case Empty =>
  }

  ghost predicate HeldFrom(children: seq<Node>, value: Bytes, i: nat, path: Key, x: Item)
    requires Branch(children, value).Wf()
  {
    path <= x.0 &&
    var k := x.0[|path|..];
    if k == [] then value != [] && x.1 == Val(value)
    else k[0] >= i && Lookup(children[k[0]], k[1..]) == Some(x.1)
  }

  lemma {:induction false} BranchItemsAreContent(children: seq<Node>, value: Bytes, i: nat, path: Key, x: Item)
    requires Branch(children, value).Wf() && i <= 16
    ensures x in ItemsFrom(children, value, i, path) <==> HeldFrom(children, value, i, path, x)
    decreases children, 16 - i
  {
    if i == 16 {
      if path <= x.0 && x.0[|path|..] == [] { assert x.0 == path; }
    } else {
      ItemsAreContent(children[i], path + [i], x);
      BranchItemsAreContent(children, value, i + 1, path, x);
      PrefixIff(path, [i], x.0);
      if path + [i] <= x.0 { assert x.0[|path + [i]|..] == x.0[|path|..][1..]; }
    }
  }

  // ---------------------------------------------------------------------------------------------
  // Order
  // ---------------------------------------------------------------------------------------------

  /** Lexicographic order, with a key after the keys that extend it. */
  predicate Precedes(a: Key, b: Key) {
    var i := CommonPrefixLen(a, b);
    i < |a| && (i == |b| || a[i] < b[i])
  }

  ghost predicate Increasing(items: seq<Item>) {
    forall i, j :: 0 <= i < j < |items| ==> Precedes(items[i].0, items[j].0)
  }

  lemma ShorterPrefix(path: Key, a: Key, b: Key)
    requires path <= a && path <= b
    ensures CommonPrefixLen(a, b) >= |path|
  {
  }

  lemma PrecedesBelow(path: Key, i: Nibble, a: Key, b: Key)
    requires path + [i] <= a && path <= b && (b == path || b[|path|] > i)
    ensures Precedes(a, b)
  {
    assert path <= a && a[|path|] == i by { PrefixIff(path, [i], a); }
    ShorterPrefix(path, a, b);
  }

  /** The items of any trie come in strictly increasing order, so each comes once. */
  lemma {:induction false} ItemsIncrease(t: Node, path: Key)
    requires t.Wf()
    ensures Increasing(Items(t, path))
    decreases t
  {
    match t
    case Branch(children, value) => BranchItemsIncrease(children, value, 0, path);
    case Extension(n, child) => ItemsIncrease(child, path + n);
    case _ =>
  }

  lemma {:induction false} BranchItemsIncrease(children: seq<Node>, value: Bytes, i: nat, path: Key)
    requires Branch(children, value).Wf() && i <= 16
    ensures Increasing(ItemsFrom(children, value, i, path))
    decreases children, 16 - i
  {
    if i < 16 {
      ItemsIncrease(children[i], path + [i]);
      BranchItemsIncrease(children, value, i + 1, path);
      var xs, ys := Items(children[i], path + [i]), ItemsFrom(children, value, i + 1, path);
      forall x, y | x in xs && y in ys ensures Precedes(x.0, y.0) {
        ItemsAreContent(children[i], path + [i], x);
        BranchItemsAreContent(children, value, i + 1, path, y);
        PrecedesBelow(path, i, x.0, y.0);
      }
      IncreasingConcat(xs, ys);
    }
  }

  lemma IncreasingConcat(xs: seq<Item>, ys: seq<Item>)
    requires Increasing(xs) && Increasing(ys) && forall x, y :: x in xs && y in ys ==> Precedes(x.0, y.0)
    ensures Increasing(xs + ys)
  {
    forall i, j | 0 <= i < j < |xs + ys| ensures Precedes((xs + ys)[i].0, (xs + ys)[j].0) {
      if i < |xs| && |xs| <= j {
        assert (xs + ys)[i] in xs && (xs + ys)[j] in ys;
      }
    }
  }

  /** On keys that are no prefixes of each other the order is the lexicographic one. */
  lemma PrecedesLexicographic(a: Key, b: Key)
    requires !(a <= b) && !(b <= a)
    ensures var i := CommonPrefixLen(a, b); i < |a| && i < |b| && (Precedes(a, b) <==> a[i] < b[i])
  {
  }

  /** In full: a key comes after every key that extends it, and otherwise the first nibble in which two keys differ
      decides. */
  lemma PrecedesExactly(a: Key, b: Key)
    ensures Precedes(a, b) <==> b < a || exists i: nat :: i < |a| && i < |b| && a[..i] == b[..i] && a[i] < b[i]
  {
    if b < a { PrefixLenIs(a, b, |b|); }
    if i: nat :| i < |a| && i < |b| && a[..i] == b[..i] && a[i] < b[i] { PrefixLenIs(a, b, i); }
  }

  // ---------------------------------------------------------------------------------------------
  // Collecting and rebuilding
  // ---------------------------------------------------------------------------------------------

  lemma TakeFirst(items: seq<Item>, rest: seq<Item>)
    requires rest != []
    ensures (items + [rest[0]]) + rest[1..] == items + rest
  {
  }

  /** Running the iterator to its end collects the items of the trie. */
  method Collect(t: Node) returns (items: seq<Item>)
    requires Canonical(t) && t.Wf()
    ensures items == Items(t, [])
  {
    var iter := new PartialTrieIter(t);
    items := [];
    while true
      invariant iter.Valid() && fresh(iter) && items + iter.Remaining() == Items(t, [])
      decreases |iter.Remaining()|
    {
      ghost var rest := iter.Remaining();
      var item := iter.Next();
      if item.None? { break; }
      TakeFirst(items, rest);
      items := items + [item.value];
    }
  }

  /** The collected items are the content of the trie, each entry once and in order. */
  lemma EnumerationCorrect(t: Node)
    requires t.Wf()
    ensures Increasing(Items(t, []))
    ensures forall k, e :: (k, e) in Items(t, []) <==> Lookup(t, k) == Some(e)
  {
    ItemsIncrease(t, []);
    forall k, e ensures (k, e) in Items(t, []) <==> Lookup(t, k) == Some(e) {
      ItemsAreContent(t, [], (k, e));
      assert k[0..] == k;
    }
  }

  function Puts(items: seq<Item>): seq<Op> {
    seq(|items|, i requires 0 <= i < |items| => Put(items[i].0, items[i].1))
  }

  /** Nothing in the way: neither the key, nor a prefix, nor an extension of it is in the map. */
  lemma InsertUnrelated(t: Node, m: map<Key, Entry>, k: Key, v: Entry)
    requires Represents(t, m) && forall q :: q in m ==> !Agree(q, k)
    ensures InsertRec(t, k, v).Ok?
  {
    InsertFails(t, k, v);
    if MeetsHash(t, k) {
      var q := HashOnWalk(t, k);
    }
  }

  /** One item more, unrelated to those in the map. */
  lemma PutStep(t: Node, m: map<Key, Entry>, k: Key, v: Entry, s: OnOrphanedHashNode, keys: iset<Key>)
    requires Represents(t, m) && PrefixFree(keys) && k in keys && EntryOk(v)
    requires forall q :: q in m ==> q in keys && q != k
    ensures InsertRec(t, k, v).Ok? && Represents(InsertRec(t, k, v).value, m[k := v])
  {
    InsertUnrelated(t, m, k, v);
    StepRepresents(t, m, Put(k, v), s, keys);
  }

  /** A map that has the items besides what was in it. */
  ghost predicate Added(m: map<Key, Entry>, items: seq<Item>, r: map<Key, Entry>) {
    && (forall i :: 0 <= i < |items| ==> items[i].0 in r && r[items[i].0] == items[i].1)
    && (forall q :: q in m ==> q in r && r[q] == m[q])
    && (forall q :: q in r ==> q in m || exists i :: 0 <= i < |items| && q == items[i].0)
  }

  lemma AddedOneMore(m: map<Key, Entry>, items: seq<Item>, r: map<Key, Entry>)
    requires items != [] && items[0].0 !in m && Added(m[items[0].0 := items[0].1], items[1..], r)
    ensures Added(m, items, r)
  {
    var k, v := items[0].0, items[0].1;
    assert k in m[k := v];
    forall i | 0 <= i < |items| ensures items[i].0 in r && r[items[i].0] == items[i].1 {
      if i > 0 { assert items[1..][i - 1] == items[i]; }
    }
    forall q | q in r && q !in m ensures exists i :: 0 <= i < |items| && q == items[i].0 {
      if q != k {
        var i :| 0 <= i < |items[1..]| && q == items[1..][i].0;
        assert items[i + 1].0 == q;
      } else {
        assert items[0].0 == q;
      }
    }
  }

  /** Inserting prefix-free items one after the other into an empty trie succeeds. */
  lemma {:induction false} PutsSucceed(t: Node, m: map<Key, Entry>, items: seq<Item>, s: OnOrphanedHashNode, keys: iset<Key>)
    requires Represents(t, m) && PrefixFree(keys)
    requires forall i :: 0 <= i < |items| ==> items[i].0 in keys && EntryOk(items[i].1)
    requires forall i, j :: 0 <= i < j < |items| ==> items[i].0 != items[j].0
    requires forall q :: q in m ==> q in keys && forall i :: 0 <= i < |items| ==> q != items[i].0
    ensures Run(t, Puts(items), s).Ok?
    ensures Added(m, items, MapAfter(m, Puts(items)))
    decreases |items|
  {
    if items != [] {
      var k, v := items[0].0, items[0].1;
      assert Puts(items)[0] == Put(k, v) && Puts(items)[1..] == Puts(items[1..]);
      PutStep(t, m, k, v, s, keys);
      PutsSucceed(InsertRec(t, k, v).value, m[k := v], items[1..], s, keys);
      AddedOneMore(m, items, MapAfter(m, Puts(items)));
    }
  }

  lemma {:induction false} CanonicalEntriesOk(t: Node, k: Key)
    requires Canonical(t) && t.Wf() && Lookup(t, k).Some?
    ensures EntryOk(Lookup(t, k).value)
    decreases t
  {
    match t
    case Branch(children, _) => if k != [] { CanonicalEntriesOk(children[k[0]], k[1..]); }
    case Extension(n, child) => CanonicalEntriesOk(child, k[|n|..]);
    case _ =>
  }

  ghost predicate EntriesOf(t: Node, items: seq<Item>, keys: iset<Key>)
    requires t.Wf()
  {
    forall i :: 0 <= i < |items| ==> items[i].0 in keys && EntryOk(items[i].1) && Lookup(t, items[i].0) == Some(items[i].1)
  }

  predicate DistinctKeys(items: seq<Item>) {
    forall i, j :: 0 <= i < j < |items| ==> items[i].0 != items[j].0
  }

  /** The enumerated items are entries of the trie, under different keys. */
  lemma ItemsAreEntries(t: Node, keys: iset<Key>)
    requires Canonical(t) && t.Wf() && forall k :: Lookup(t, k).Some? ==> k in keys
    ensures EntriesOf(t, Items(t, []), keys) && DistinctKeys(Items(t, []))
  {
    var items := Items(t, []);
    EnumerationCorrect(t);
    forall i | 0 <= i < |items| ensures items[i].0 in keys && EntryOk(items[i].1) && Lookup(t, items[i].0) == Some(items[i].1) {
      assert (items[i].0, items[i].1) in items;
      CanonicalEntriesOk(t, items[i].0);
    }
    forall i, j | 0 <= i < j < |items| ensures items[i].0 != items[j].0 {
      assert Precedes(items[i].0, items[j].0);
    }
  }

  lemma AddedRepresents(t: Node, m: map<Key, Entry>, keys: iset<Key>)
    requires Canonical(t) && t.Wf() && Added(map[], Items(t, []), m) && EntriesOf(t, Items(t, []), keys)
    ensures Represents(t, m)
  {
    EnumerationCorrect(t);
    forall q ensures Lookup(t, q) == if q in m then Some(m[q]) else None {
      if Lookup(t, q).Some? { assert (q, Lookup(t, q).value) in Items(t, []); }
    }
  }

  /** Inserting the enumerated items, hash nodes included, into an empty trie gives back the trie. */
  lemma RebuildFromItems(t: Node, s: OnOrphanedHashNode, keys: iset<Key>)
    requires Canonical(t) && t.Wf() && PrefixFree(keys) && forall k :: Lookup(t, k).Some? ==> k in keys
    ensures Run(Empty, Puts(Items(t, [])), s) == Ok(t)
  {
    var items := Items(t, []);
    var puts := Puts(items);
    ItemsAreEntries(t, keys);
    PutsSucceed(Empty, map[], items, s, keys);
    RunRepresents(Empty, map[], puts, s, keys);
    AddedRepresents(t, MapAfter(map[], puts), keys);
    RepresentsUnique(t, Run(Empty, puts, s).value, MapAfter(map[], puts));
  }
}
