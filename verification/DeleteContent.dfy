/** What deletion does to a trie's content, when it keeps the canonical shape, and when it cannot. */
module DeleteContent {
  import opened Wrappers
  import opened Nibbles
  import opened PartialTrie
  import opened TrieOps

  function Removed(old_: Option<Entry>, k: Key, q: Key): Option<Entry> {
    if q == k then None else old_
  }

  /** Deletion is safe unless it touches a branch value: the branch would keep a single child, or
      be collapsed with its value lost, or the key ends inside an extension above a value. */
  predicate SafeDelete(t: Node, k: Key)
    requires t.Wf()
    decreases t
  {
    match t
    case Branch(children, value) =>
      if k == [] then value == [] || |UsedSlots(children)| >= 2
      else if children[k[0]].Leaf? && children[k[0]].nibbles == k[1..] then
        value == [] || |UsedSlots(children)| >= 3
      else SafeDelete(children[k[0]], k[1..])
    case Extension(n, child) =>
      if n <= k then SafeDelete(child, k[|n|..])
      else if k <= n then child.Branch? ==> child.value == []
      else true
    case _ => true
  }

  /** Canonical, or an extension that still has to be merged with the canonical node below it. */
  ghost predicate Mergeable(t: Node) {
    if t.Extension? then t.nibbles != [] && !t.child.Empty? && Canonical(t.child) else Canonical(t)
  }

  lemma CollapseContent(n: Key, child: Node, k: Key, s: OnOrphanedHashNode, q: Key)
    requires child.Wf() && CollapseExt(n, child, k, s).Ok?
    ensures Lookup(CollapseExt(n, child, k, s).value, q) == Lookup(Extension(n, child), q)
  {
    if child.Extension? || child.Leaf? {
      PrefixIff(n, child.nibbles, q);
      if n <= q { PrefixSplit(n, q); }
      if n + child.nibbles <= q {
        assert q[|n|..][|child.nibbles|..] == q[|n + child.nibbles|..];
      }
    }
  }

  lemma TryCollapseContent(t: Node, k: Key, s: OnOrphanedHashNode, q: Key)
    requires t.Wf() && Mergeable(t) && TryCollapse(t, k, s).Ok?
    ensures var r := TryCollapse(t, k, s).value;
      Canonical(r) && (r.Empty? <==> t.Empty?) && Lookup(r, q) == Lookup(t, q)
  {
    if t.Extension? { CollapseContent(t.nibbles, t.child, k, s, q); }
  }

  /** The single child left when a branch collapses. */
  lemma LastSlot(children: seq<Node>, nib: nat, j: nat)
    requires nib < |children| && !children[nib].Empty? && |UsedSlots(children)| <= 2
    requires j < |children| && j != nib && !children[j].Empty?
    ensures forall i :: 0 <= i < |children| && i != nib && i != j ==> children[i].Empty?
  {
    forall i | 0 <= i < |children| && i != nib && i != j ensures children[i].Empty? {
      if !children[i].Empty? {
        SubsetSize({nib, j, i}, UsedSlots(children));
      }
    }
  }

  /** Emptying one slot of a branch leaves one used slot fewer. */
  lemma SlotFreed(children: seq<Node>, nib: Nibble, x: Node)
    requires |children| == 16 && !children[nib].Empty? && x.Empty?
    ensures |UsedSlots(children[nib := x])| == |UsedSlots(children)| - 1
  {
    assert UsedSlots(children[nib := x]) == UsedSlots(children) - {nib};
  }

  lemma SlotKept(children: seq<Node>, nib: Nibble, x: Node)
    requires |children| == 16 && !children[nib].Empty? && !x.Empty?
    ensures |UsedSlots(children[nib := x])| == |UsedSlots(children)|
  {
    assert UsedSlots(children[nib := x]) == UsedSlots(children);
  }

  /** Rebuilding a branch around a changed child. */
  lemma RebuildCorrect(children: seq<Node>, value: Bytes, nib: Nibble, updated: Node, k: Key,
                       s: OnOrphanedHashNode, q: Key)
    requires var t := Branch(children, value); Canonical(t) && t.Wf()
    requires updated.Wf() && Mergeable(updated) && !children[nib].Empty?
    requires updated.Empty? ==> value == [] || |UsedSlots(children)| >= 3
    requires RebuildBranch(children, value, nib, updated, k, s).Ok?
    ensures var r := RebuildBranch(children, value, nib, updated, k, s).value;
      && Mergeable(r) && (r.Branch? || r.Extension?)
      && Lookup(r, q) == if q != [] && q[0] == nib then Lookup(updated, q[1..])
                         else Lookup(Branch(children, value), q)
  {
    if updated.Empty? && |UsedSlots(children)| <= 2 {
      var j := OtherSlot(children, nib).value;
      LastSlot(children, nib, j);
      if q != [] { assert [j] <= q <==> q[0] == j; }
    } else {
      if q != [] { TryCollapseContent(updated, k, s, q[1..]); } else { TryCollapseContent(updated, k, s, []); }
      var child := TryCollapse(updated, k, s).value;
      if updated.Empty? { SlotFreed(children, nib, child); } else { SlotKept(children, nib, child); }
    }
  }

  /** What a deletion of k from t may give, seen at key q: nothing when k is not there; otherwise the
      trie without k, which one last merge makes canonical, and the value k had. */
  ghost predicate Deleted(t: Node, k: Key, q: Key, r: Option<(Node, Bytes)>)
    requires t.Wf() && (r.Some? ==> r.value.0.Wf())
  {
    match r
    case None => Lookup(t, k).None?
    case Some(res) =>
      && Mergeable(res.0) && Lookup(res.0, q) == Removed(Lookup(t, q), k, q)
      && (res.0.Empty? <==> t.Leaf? && t.nibbles == k)
      && (t.Branch? ==> res.0.Branch? || res.0.Extension?)
      && !t.Empty?
      && Lookup(t, k) == if res.1 != [] then Some(Val(res.1)) else None
  }

  lemma DeletedBelow(t: Node, k: Key, s: OnOrphanedHashNode, q: Key)
    requires t.Branch? && k != [] && Canonical(t) && t.Wf() && SafeDelete(t, k) && DeleteIntern(t, k, s).Ok?
    requires Deleted(t.children[k[0]], k[1..], if q == [] then [] else q[1..], DeleteIntern(t.children[k[0]], k[1..], s).value)
    ensures Deleted(t, k, q, DeleteIntern(t, k, s).value)
  {
    var res := DeleteIntern(t.children[k[0]], k[1..], s).value;
    if res.Some? {
      RebuildCorrect(t.children, t.value, k[0], res.value.0, k[1..], s, q);
      assert q != [] ==> (q == k <==> q[0] == k[0] && q[1..] == k[1..]);
    }
  }

  lemma DeletedBehind(t: Node, k: Key, s: OnOrphanedHashNode, q: Key)
    requires t.Extension? && Agree(t.nibbles, k) && Canonical(t) && t.Wf() && SafeDelete(t, k) && DeleteIntern(t, k, s).Ok?
    requires Deleted(t.child, DropClamped(k, |t.nibbles|), if t.nibbles <= q then q[|t.nibbles|..] else [],
                     DeleteIntern(t.child, DropClamped(k, |t.nibbles|), s).value)
    ensures Deleted(t, k, q, DeleteIntern(t, k, s).value)
  {
    var n := t.nibbles;
    var res := DeleteIntern(t.child, DropClamped(k, |n|), s).value;
    if res.Some? {
      CollapseContent(n, res.value.0, DropClamped(k, |n|), s, q);
      if n <= q && n <= k { PrefixSplit(n, q); PrefixSplit(n, k); }
    }
  }

  /** A safe deletion removes its key and nothing else, and leaves a trie that one last merge makes
      canonical; a key that is not there changes nothing. */
  lemma {:induction false} DeleteInternCorrect(t: Node, k: Key, s: OnOrphanedHashNode, q: Key)
    requires Canonical(t) && t.Wf() && SafeDelete(t, k) && DeleteIntern(t, k, s).Ok?
    ensures Deleted(t, k, q, DeleteIntern(t, k, s).value)
    decreases t
  {
    match t
    case Branch(children, value) =>
      if k != [] {
        DeleteInternCorrect(children[k[0]], k[1..], s, if q == [] then [] else q[1..]);
        DeletedBelow(t, k, s, q);
      }
    case Extension(n, child) =>
      if Agree(n, k) {
        DeleteInternCorrect(child, DropClamped(k, |n|), s, if n <= q then q[|n|..] else []);
        DeletedBehind(t, k, s, q);
      }
    case _ =>
  }

  /** The trie after a deletion that succeeded. */
  function After(t: Node, k: Key, s: OnOrphanedHashNode): (r: Node)
    requires t.Wf() && Delete(t, k, s).Ok?
    ensures r.Wf()
  {
    var res := Delete(t, k, s).value;
    if res.None? then t else res.value.0
  }

  lemma DeleteCorrect(t: Node, k: Key, s: OnOrphanedHashNode, q: Key)
    requires Canonical(t) && t.Wf() && SafeDelete(t, k) && Delete(t, k, s).Ok?
    ensures Canonical(After(t, k, s)) && Lookup(After(t, k, s), q) == Removed(Lookup(t, q), k, q)
    ensures Lookup(t, k) == match Delete(t, k, s).value
      case None => None
      case Some(res) => if res.1 != [] then Some(Val(res.1)) else None
  {
    DeleteInternCorrect(t, k, s, q);
    var res := DeleteIntern(t, k, s).value;
    if res.Some? { TryCollapseContent(res.value.0, [], s, q); }
  }
}
