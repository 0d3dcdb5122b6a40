/** The converse: unsafe deletions go wrong, and exactly which deletions are refused. */
module DeleteLimits {
  import opened Wrappers
  import opened Nibbles
  import opened PartialTrie
  import opened TrieOps
  import opened InsertContent
  import opened DeleteContent

  /** Some branch has lost its reason to exist. */
  ghost predicate HasThinBranch(t: Node)
    decreases t
  {
    match t
    case Branch(children, value) =>
      Fanout(children, value) < 2 || exists i :: 0 <= i < |children| && HasThinBranch(children[i])
    case Extension(_, child) => HasThinBranch(child)
    case _ => false
  }

  lemma ThinIsNotCanonical(t: Node)
    requires t.Wf() && HasThinBranch(t)
    ensures !Canonical(t)
  {
  }

  lemma TryCollapseKeepsThin(t: Node, k: Key, s: OnOrphanedHashNode)
    requires t.Wf() && TryCollapse(t, k, s).Ok? && HasThinBranch(t)
    ensures HasThinBranch(TryCollapse(t, k, s).value)
  {
    if t.Extension? && t.child.Extension? {
      assert HasThinBranch(t.child.child);
    }
  }

  /** Wrong: a thin branch, or a key whose entry is not what a deletion of k leaves. */
  ghost predicate Wrong(t: Node, k: Key, r: Node, q: Key)
    requires t.Wf() && r.Wf()
  {
    HasThinBranch(r) || Lookup(r, q) != Removed(Lookup(t, q), k, q)
  }

  /** What was wrong below a branch is wrong in the branch. */
  lemma WrongBelow(t: Node, k: Key, s: OnOrphanedHashNode, r: Key)
    requires t.Branch? && Canonical(t) && t.Wf() && k != [] && DeleteIntern(t, k, s).Ok?
    requires DeleteIntern(t.children[k[0]], k[1..], s).Ok? && DeleteIntern(t.children[k[0]], k[1..], s).value.Some?
    requires var updated := DeleteIntern(t.children[k[0]], k[1..], s).value.value.0;
      !updated.Empty? && Wrong(t.children[k[0]], k[1..], updated, r)
    ensures DeleteIntern(t, k, s).value.Some? && Wrong(t, k, DeleteIntern(t, k, s).value.value.0, [k[0]] + r)
  {
    var q := [k[0]] + r;
    var updated := DeleteIntern(t.children[k[0]], k[1..], s).value.value.0;
    if updated.Extension? { CollapseContent(updated.nibbles, updated.child, k[1..], s, r); }
    assert q[1..] == r && (q == k <==> r == k[1..]);
    var child := TryCollapse(updated, k[1..], s).value;
    if HasThinBranch(updated) { TryCollapseKeepsThin(updated, k[1..], s); }
    var now := DeleteIntern(t, k, s).value.value.0;
    assert now == Branch(WithSlot(t.children, k[0], child), t.value) && now.children[k[0]] == child;
  }

  lemma WrongBehind(t: Node, k: Key, s: OnOrphanedHashNode, r: Key)
    requires t.Extension? && Canonical(t) && t.Wf() && t.nibbles <= k && DeleteIntern(t, k, s).Ok?
    requires DeleteIntern(t.child, k[|t.nibbles|..], s).Ok? && DeleteIntern(t.child, k[|t.nibbles|..], s).value.Some?
    requires var updated := DeleteIntern(t.child, k[|t.nibbles|..], s).value.value.0;
      !updated.Empty? && Wrong(t.child, k[|t.nibbles|..], updated, r)
    ensures DeleteIntern(t, k, s).value.Some? && !DeleteIntern(t, k, s).value.value.0.Empty?
    ensures Wrong(t, k, DeleteIntern(t, k, s).value.value.0, t.nibbles + r)
  {
    var n, q := t.nibbles, t.nibbles + r;
    var updated := DeleteIntern(t.child, k[|n|..], s).value.value.0;
    CollapseContent(n, updated, k[|n|..], s, q);
    if HasThinBranch(updated) { TryCollapseKeepsThin(Extension(n, updated), k[|n|..], s); }
    ExtensionLookup(n, t.child, r);
    ExtensionLookup(n, updated, r);
    PrefixSplit(n, k);
    assert q == k <==> r == k[|n|..];
  }

  lemma {:induction false} UnsafeInternWrong(t: Node, k: Key, s: OnOrphanedHashNode) returns (q: Key)
    requires Canonical(t) && t.Wf() && !SafeDelete(t, k) && DeleteIntern(t, k, s).Ok?
    ensures var res := DeleteIntern(t, k, s).value;
      res.Some? && !res.value.0.Empty? && Wrong(t, k, res.value.0, q)
    decreases t
  {
    q := [];
    match t
    case Branch(children, value) =>
      if k != [] && !(children[k[0]].Leaf? && children[k[0]].nibbles == k[1..]) {
        var r := UnsafeInternWrong(children[k[0]], k[1..], s);
        WrongBelow(t, k, s, r);
        q := [k[0]] + r;
      }
    case Extension(n, child) =>
      if n <= k {
        var r := UnsafeInternWrong(child, k[|n|..], s);
        WrongBehind(t, k, s, r);
        q := n + r;
      } else {
        q := n;
        assert n[|n|..] == [];
      }
    case _ =>
  }

  /** Deletion does what it should: one entry gone, the trie canonical. */
  ghost predicate DeletesExactly(t: Node, k: Key, r: Node)
    requires t.Wf() && r.Wf()
  {
    Canonical(r) && forall q :: Lookup(r, q) == Removed(Lookup(t, q), k, q)
  }

  /** A deletion that succeeds is right if and only if it is safe. */
  lemma DeleteExact(t: Node, k: Key, s: OnOrphanedHashNode)
    requires Canonical(t) && t.Wf() && Delete(t, k, s).Ok?
    ensures DeletesExactly(t, k, After(t, k, s)) <==> SafeDelete(t, k)
  {
    if SafeDelete(t, k) {
      forall q { DeleteCorrect(t, k, s, q); }
      DeleteCorrect(t, k, s, []);
    } else {
      var q := UnsafeInternWrong(t, k, s);
      var res := DeleteIntern(t, k, s).value.value.0;
      if res.Extension? { CollapseContent(res.nibbles, res.child, [], s, q); }
      if HasThinBranch(res) { TryCollapseKeepsThin(res, [], s); ThinIsNotCanonical(After(t, k, s)); }
    }
  }

  // ---------------------------------------------------------------------------------------------
  // Refused deletions
  // ---------------------------------------------------------------------------------------------

  /** Deleting k collapses this very branch (or the one below this extension) onto a hash node. */
  predicate OrphansHere(t: Node, k: Key)
    requires t.Wf()
    decreases t
  {
    match t
    case Branch(children, _) =>
      && k != []
      && children[k[0]].Leaf? && children[k[0]].nibbles == k[1..]
      && |UsedSlots(children)| <= 2
      && exists j :: 0 <= j < 16 && j != k[0] && children[j].Hash?
    case Extension(n, child) => n <= k && child.Branch? && OrphansHere(child, k[|n|..])
    case _ => false
  }

  /** Deleting k collapses some branch on its path onto a hash node. */
  predicate OrphansHash(t: Node, k: Key)
    requires t.Wf()
    decreases t
  {
    || OrphansHere(t, k)
    || (match t
        case Branch(children, _) => k != [] && OrphansHash(children[k[0]], k[1..])
        case Extension(n, child) => n <= k && OrphansHash(child, k[|n|..])
        case _ => false)
  }

  lemma OtherIsHash(children: seq<Node>, nib: nat, j: nat)
    requires nib < |children| && !children[nib].Empty? && |UsedSlots(children)| <= 2
    requires j < |children| && j != nib && children[j].Hash?
    ensures OtherSlot(children, nib) == Some(j)
  {
    var o := OtherSlot(children, nib).value;
    LastSlot(children, nib, o);
  }

  /** When a deletion below the root is refused, when it leaves an extension over a hash node, and
      that it misses no collapse. */
  ghost predicate RefusedRight(t: Node, k: Key, s: OnOrphanedHashNode, r: Result<Option<(Node, Bytes)>, TrieError>)
    requires t.Wf()
  {
    && (r.Err? <==> MeetsHash(t, k) || (s.Reject? && OrphansHash(t, k) && !OrphansHere(t, k)))
    && (r.Ok? && r.value.Some? ==> (r.value.value.0.Extension? && r.value.value.0.child.Hash? <==> OrphansHere(t, k)))
    && (r.Ok? && r.value.None? ==> !OrphansHash(t, k))
  }

  lemma RefusedBelow(t: Node, k: Key, s: OnOrphanedHashNode)
    requires t.Branch? && k != [] && Canonical(t) && t.Wf() && SafeDelete(t, k)
    requires RefusedRight(t.children[k[0]], k[1..], s, DeleteIntern(t.children[k[0]], k[1..], s))
    ensures RefusedRight(t, k, s, DeleteIntern(t, k, s))
  {
    var nib := k[0];
    var res := DeleteIntern(t.children[nib], k[1..], s);
    if res.Ok? && res.value.Some? {
      DeleteInternCorrect(t.children[nib], k[1..], s, []);
      if res.value.value.0.Empty? && |UsedSlots(t.children)| <= 2 {
        if j :| 0 <= j < 16 && j != nib && t.children[j].Hash? {
          OtherIsHash(t.children, nib, j);
        }
        OtherUsed(t.children, nib);
      }
    }
  }

  lemma OtherUsed(children: seq<Node>, nib: nat)
    requires nib < |children| && |UsedSlots(children)| >= 2
    ensures exists i :: i in UsedSlots(children) - {nib}
  {
    assert |UsedSlots(children) - {nib}| >= 1;
    assert UsedSlots(children) - {nib} != {};
  }

  lemma {:induction false} DeleteInternFails(t: Node, k: Key, s: OnOrphanedHashNode)
    requires Canonical(t) && t.Wf() && SafeDelete(t, k)
    ensures RefusedRight(t, k, s, DeleteIntern(t, k, s))
    decreases t
  {
    match t
    case Branch(children, value) =>
      if k != [] {
        DeleteInternFails(children[k[0]], k[1..], s);
        RefusedBelow(t, k, s);
      }
    case Extension(n, child) =>
      if Agree(n, k) {
        DeleteInternFails(child, DropClamped(k, |n|), s);
        var res := DeleteIntern(child, DropClamped(k, |n|), s);
        if res.Ok? && res.value.Some? { DeleteInternCorrect(child, DropClamped(k, |n|), s, []); }
      }
    case _ =>
  }

  /** A safe deletion is refused exactly when its walk meets a hash node or, under `Reject`, when a
      branch would collapse onto one. */
  lemma DeleteFails(t: Node, k: Key, s: OnOrphanedHashNode)
    requires Canonical(t) && t.Wf() && SafeDelete(t, k)
    ensures Delete(t, k, s).Err? <==> MeetsHash(t, k) || (s.Reject? && OrphansHash(t, k))
  {
    DeleteInternFails(t, k, s);
    var res := DeleteIntern(t, k, s);
    if res.Ok? && res.value.Some? { DeleteInternCorrect(t, k, s, []); }
  }
}
