/** Replaying operations on a subset trie whose hidden nodes all lie off the way of the keys. */
module Replay {
  import opened Wrappers
  import opened Nibbles
  import opened PartialTrie
  import opened TrieOps
  import opened InsertContent
  import opened DeleteContent
  import opened TrieHashing
  import opened TrieSubsets

  /** Nodes of the full trie, with the paths at which they are hidden. */
  type Hidden = iset<(Key, Node)>

  /** The hidden nodes below a path, seen from there. */
  ghost function Under(hid: Hidden, n: Key): Hidden {
    iset e: (Key, Node) | (n + e.0, e.1) in hid
  }

  lemma UnderTwice(hid: Hidden, n: Key, m: Key)
    ensures Under(Under(hid, n), m) == Under(hid, n + m)
  {
    forall e: (Key, Node) ensures e in Under(Under(hid, n), m) <==> e in Under(hid, n + m) {
      assert n + (m + e.0) == n + m + e.0;
    }
  }

  lemma UnderNothing(hid: Hidden)
    ensures Under(hid, []) == hid
  {
    forall e: (Key, Node) ensures e in Under(hid, []) <==> e in hid { assert [] + e.0 == e.0; }
  }

  /** p is t with some of the hidden nodes replaced by their hashes. */
  ghost predicate StandsFor(p: Node, t: Node, hid: Hidden, keccak: Hasher)
    decreases t
  {
    || (p.Hash? && ([], t) in hid && Encode(t, keccak) == Hashed(p.hash))
    || (match t
        case Branch(children, value) =>
          && p.Branch? && p.value == value && |p.children| == |children| && |children| <= 16
          && forall i: nat :: i < |children| ==> StandsFor(p.children[i], children[i], Under(hid, [i]), keccak)
        case Extension(n, child) =>
          p.Extension? && p.nibbles == n && StandsFor(p.child, child, Under(hid, n), keccak)
        case _ => p == t)
  }

  /** No hidden node lies on the way of the key. */
  ghost predicate Clear(k: Key, hid: Hidden) {
    forall q, x :: (q, x) in hid ==> !Reached(k, q, x)
  }

  lemma ClearUnder(n: Key, k: Key, hid: Hidden)
    requires Clear(n + k, hid)
    ensures Clear(k, Under(hid, n))
  {
    forall q, x | (q, x) in Under(hid, n) ensures !Reached(k, q, x) {
      assert !Reached(n + k, n + q, x);
      if q <= k {
        assert n + k == n + q + k[|q|..];
        assert n + q <= n + k && (n + q == n + k ==> q == k);
      }
    }
  }

  /** Everything unflagged is hidden. */
  ghost predicate AllHidden(t: Node, m: Marks, hid: Hidden)
    requires t.Wf() && Fits(t, m)
  {
    forall q: Key, x :: HiddenAt(t, m, q, x) ==> (q, x) in hid
  }

  lemma AllHiddenInSlot(t: Node, m: Marks, i: Nibble, hid: Hidden)
    requires t.Branch? && t.Wf() && Fits(t, m) && AllHidden(t, m, hid)
    ensures AllHidden(t.children[i], m.kids[i], Under(hid, [i]))
  {
    forall q: Key, x | HiddenAt(t.children[i], m.kids[i], q, x) ensures (q, x) in Under(hid, [i]) {
      assert ([i] + q)[1..] == q;
      assert HiddenAt(t, m, [i] + q, x);
    }
  }

  lemma AllHiddenBehind(t: Node, m: Marks, hid: Hidden)
    requires t.Extension? && t.Wf() && Fits(t, m) && AllHidden(t, m, hid)
    ensures AllHidden(t.child, m.kids[0], Under(hid, t.nibbles))
  {
    var n := t.nibbles;
    forall q: Key, x | HiddenAt(t.child, m.kids[0], q, x) ensures (q, x) in Under(hid, n) {
      assert (n + q)[|n|..] == q;
      assert HiddenAt(t, m, n + q, x);
    }
  }

  lemma {:induction false} BuildStandsFor(t: Node, m: Marks, hid: Hidden, keccak: Hasher)
    requires t.Wf() && Fits(t, m) && AllHidden(t, m, hid)
    ensures StandsFor(Build(t, m, keccak), t, hid, keccak)
    decreases t
  {
    if !m.touched && Encode(t, keccak).Hashed? {
      assert HiddenAt(t, m, [], t);
    } else {
      match t
      case Branch(children, _) =>
        forall i: nat | i < 16 ensures StandsFor(Build(children[i], m.kids[i], keccak), children[i], Under(hid, [i]), keccak) {
          AllHiddenInSlot(t, m, i, hid);
          BuildStandsFor(children[i], m.kids[i], Under(hid, [i]), keccak);
        }
      case Extension(n, child) =>
        AllHiddenBehind(t, m, hid);
        BuildStandsFor(child, m.kids[0], Under(hid, n), keccak);
      case _ =>
    }
  }

  lemma {:induction false} StandsForRefl(t: Node, hid: Hidden, keccak: Hasher)
    requires t.Wf()
    ensures StandsFor(t, t, hid, keccak)
    decreases t
  {
    match t
    case Branch(children, _) =>
      forall i: nat | i < 16 ensures StandsFor(children[i], children[i], Under(hid, [i]), keccak) {
        StandsForRefl(children[i], Under(hid, [i]), keccak);
      }
    case Extension(n, child) => StandsForRefl(child, Under(hid, n), keccak);
    case _ =>
  }

  lemma StandsForEmpty(p: Node, t: Node, hid: Hidden, keccak: Hasher)
    requires StandsFor(p, t, hid, keccak)
    ensures p.Empty? <==> t.Empty?
  {
  }

  /** An exposed node: no hash in p where t has more than a hash. */
  ghost predicate Exposed(p: Node, t: Node) {
    p.Hash? ==> t.Hash?
  }

  /** The top of a trie is exposed when some key is clear, unless it is an extension and the key ends there. */
  lemma OnTheWay(p: Node, t: Node, k: Key, hid: Hidden, keccak: Hasher)
    requires StandsFor(p, t, hid, keccak) && Clear(k, hid) && (t.Extension? ==> k != [])
    ensures Exposed(p, t)
  {
  }

  // ---------------------------------------------------------------------------------------------
  // Insertion
  // ---------------------------------------------------------------------------------------------

  ghost predicate ChildrenStandFor(pc: seq<Node>, tc: seq<Node>, hid: Hidden, keccak: Hasher) {
    |pc| == |tc| <= 16 && forall i: nat :: i < |tc| ==> StandsFor(pc[i], tc[i], Under(hid, [i]), keccak)
  }

  lemma SlotStandsFor(pc: seq<Node>, tc: seq<Node>, i: Nibble, p: Node, t: Node, hid: Hidden, keccak: Hasher)
    requires ChildrenStandFor(pc, tc, hid, keccak) && |pc| == 16 && p.Wf() && t.Wf()
    requires forall j :: 0 <= j < 16 ==> pc[j].Wf() && tc[j].Wf()
    requires StandsFor(p, t, Under(hid, [i]), keccak)
    ensures ChildrenStandFor(WithSlot(pc, i, p), WithSlot(tc, i, t), hid, keccak)
  {
  }

  lemma EmptySlotsStandFor(hid: Hidden, keccak: Hasher)
    ensures ChildrenStandFor(EmptyChildren(), EmptyChildren(), hid, keccak)
  {
  }

  lemma ForkStandsFor(n: Key, k: Key, pe: Node, te: Node, v: Entry, hid: Hidden, keccak: Hasher)
    requires n != k && pe.Wf() && te.Wf() && (|CommonPrefix(n, k)| < |n| || (pe == te && te.Leaf?))
    requires Fork(n, k, te, v).Ok?
    requires var i := |CommonPrefix(n, k)|; i < |n| ==> StandsFor(pe, te, Under(hid, [n[i]]), keccak)
    ensures Fork(n, k, pe, v).Ok?
    ensures StandsFor(Fork(n, k, pe, v).value, Fork(n, k, te, v).value, hid, keccak)
  {
    var i := |CommonPrefix(n, k)|;
    var none := EmptyChildren();
    EmptySlotsStandFor(hid, keccak);
    if i < |n| { SlotStandsFor(none, none, n[i], pe, te, hid, keccak); }
    if i < |k| {
      var entry := NodeOfEntry(k[i + 1..], v);
      StandsForRefl(entry, Under(hid, [k[i]]), keccak);
      SlotStandsFor(none, none, k[i], entry, entry, hid, keccak);
      if i < |n| { SlotStandsFor(WithSlot(none, n[i], pe), WithSlot(none, n[i], te), k[i], entry, entry, hid, keccak); }
    }
  }

  lemma {:induction false} InsertStandsFor(p: Node, t: Node, hid: Hidden, k: Key, v: Entry, keccak: Hasher)
    requires p.Wf() && t.Wf() && Canonical(t) && StandsFor(p, t, hid, keccak)
    requires InsertRec(t, k, v).Ok? && !EndsInsideExtension(t, k) && Clear(k, hid)
    ensures InsertRec(p, k, v).Ok?
    ensures StandsFor(InsertRec(p, k, v).value, InsertRec(t, k, v).value, hid, keccak)
    decreases t
  {
    OnTheWay(p, t, k, hid, keccak);
    match t
    case Empty => StandsForRefl(NodeOfEntry(k, v), hid, keccak);
    case Branch(children, value) =>
      if k != [] {
        assert k == [k[0]] + k[1..];
        ClearUnder([k[0]], k[1..], hid);
        InsertStandsFor(p.children[k[0]], children[k[0]], Under(hid, [k[0]]), k[1..], v, keccak);
        SlotStandsFor(p.children, children, k[0], InsertRec(p.children[k[0]], k[1..], v).value,
                      InsertRec(children[k[0]], k[1..], v).value, hid, keccak);
      }
    case Extension(n, child) =>
      if Agree(n, k) {
        PrefixSplit(n, k);
        ClearUnder(n, k[|n|..], hid);
        InsertStandsFor(p.child, child, Under(hid, n), k[|n|..], v, keccak);
      } else {
        SplitStandsFor(p.child, n, child, hid, k, v, keccak);
      }
    case Leaf(n, value) => StandsForRefl(InsertRec(t, k, v).value, hid, keccak);
  }

  /** Corresponding nodes with the same nibbles in front. */
  lemma PrefixedStandsFor(p: Node, t: Node, n: Key, hid: Hidden, keccak: Hasher)
    requires StandsFor(p, t, Under(hid, n), keccak)
    ensures StandsFor(if n == [] then p else Extension(n, p), if n == [] then t else Extension(n, t), hid, keccak)
  {
    UnderNothing(hid);
  }

  lemma UnderParts(hid: Hidden, n: Key, i: nat)
    requires i < |n|
    ensures Under(hid, n) == Under(Under(Under(hid, n[..i]), [n[i]]), n[i + 1..])
  {
    UnderTwice(hid, n[..i], [n[i]]);
    UnderTwice(hid, n[..i] + [n[i]], n[i + 1..]);
    assert n == n[..i] + [n[i]] + n[i + 1..];
  }

  lemma PlaceStandsFor(n: Key, k: Key, pe: Node, te: Node, v: Entry, hid: Hidden, keccak: Hasher)
    requires n != k && pe.Wf() && te.Wf() && |CommonPrefix(n, k)| < |n| && PlaceBranch(n, k, te, v).Ok?
    requires StandsFor(pe, te, Under(Under(hid, CommonPrefix(n, k)), [n[|CommonPrefix(n, k)|]]), keccak)
    ensures PlaceBranch(n, k, pe, v).Ok?
    ensures StandsFor(PlaceBranch(n, k, pe, v).value, PlaceBranch(n, k, te, v).value, hid, keccak)
  {
    ForkStandsFor(n, k, pe, te, v, Under(hid, CommonPrefix(n, k)), keccak);
    PrefixedStandsFor(Fork(n, k, pe, v).value, Fork(n, k, te, v).value, CommonPrefix(n, k), hid, keccak);
  }

  lemma SplitStandsFor(pc: Node, n: Key, tc: Node, hid: Hidden, k: Key, v: Entry, keccak: Hasher)
    requires pc.Wf() && tc.Wf() && !Agree(n, k) && StandsFor(pc, tc, Under(hid, n), keccak)
    requires InsertRec(Extension(n, tc), k, v).Ok?
    ensures InsertRec(Extension(n, pc), k, v).Ok?
    ensures StandsFor(InsertRec(Extension(n, pc), k, v).value, InsertRec(Extension(n, tc), k, v).value, hid, keccak)
  {
    var i := |CommonPrefix(n, k)|;
    SplitIsPlaced(n, pc, k, v);
    SplitIsPlaced(n, tc, k, v);
    UnderParts(hid, n, i);
    PrefixedStandsFor(pc, tc, n[i + 1..], Under(Under(hid, n[..i]), [n[i]]), keccak);
    PlaceStandsFor(n, k, Behind(n, i, pc), Behind(n, i, tc), v, hid, keccak);
  }

  // ---------------------------------------------------------------------------------------------
  // Deletion
  // ---------------------------------------------------------------------------------------------

  function OwnNibbles(t: Node): Key {
    if t.Leaf? || t.Extension? then t.nibbles else []
  }

  /** When deleting k collapses a branch: the key of the child that is left. */
  function CollapseKey(t: Node, k: Key): Option<Key>
    requires t.Wf()
    decreases t
  {
    match t
    case Branch(children, _) =>
      if k == [] then None
      else if children[k[0]].Leaf? && children[k[0]].nibbles == k[1..] then
        if |UsedSlots(children)| > 2 then None
        else
          match OtherSlot(children, k[0])
          case None => None
          case Some(j) => Some([j] + OwnNibbles(children[j]))
      else
        (match CollapseKey(children[k[0]], k[1..])
         case None => None
         case Some(r) => Some([k[0]] + r))
    case Extension(n, child) =>
      if !(n <= k) then None
      else
        (match CollapseKey(child, k[|n|..])
         case None => None
         case Some(r) => Some(n + r))
    case _ => None
  }

  /** The collapse key of a deletion, if there is one, is clear. */
  ghost predicate CollapseClear(t: Node, k: Key, hid: Hidden)
    requires t.Wf()
  {
    CollapseKey(t, k).Some? ==> Clear(CollapseKey(t, k).value, hid)
  }

  lemma UsedSlotsAlike(pc: seq<Node>, tc: seq<Node>, hid: Hidden, keccak: Hasher)
    requires ChildrenStandFor(pc, tc, hid, keccak)
    ensures UsedSlots(pc) == UsedSlots(tc)
  {
    forall i: nat | i < |tc| { StandsForEmpty(pc[i], tc[i], Under(hid, [i]), keccak); }
  }

  lemma OtherSlotAlike(pc: seq<Node>, tc: seq<Node>, nib: nat, from: nat, hid: Hidden, keccak: Hasher)
    requires ChildrenStandFor(pc, tc, hid, keccak) && from <= |tc|
    ensures OtherSlot(pc, nib, from) == OtherSlot(tc, nib, from)
    decreases |tc| - from
  {
    if from < |tc| {
      StandsForEmpty(pc[from], tc[from], Under(hid, [from]), keccak);
      OtherSlotAlike(pc, tc, nib, from + 1, hid, keccak);
    }
  }

  lemma CollapseStandsFor(n: Key, p: Node, t: Node, k: Key, s: OnOrphanedHashNode, hid: Hidden, keccak: Hasher)
    requires p.Wf() && t.Wf() && StandsFor(p, t, Under(hid, n), keccak) && Exposed(p, t)
    requires CollapseExt(n, t, k, s).Ok?
    ensures CollapseExt(n, p, k, s).Ok?
    ensures StandsFor(CollapseExt(n, p, k, s).value, CollapseExt(n, t, k, s).value, hid, keccak)
  {
    if t.Extension? { UnderTwice(hid, n, t.nibbles); }
  }

  /** Corresponding results of a deletion; what a later merge will look at is exposed. */
  ghost predicate Alike(p: Node, t: Node, hid: Hidden, keccak: Hasher) {
    && StandsFor(p, t, hid, keccak) && !p.Hash?
    && (t.Extension? ==> Exposed(p.child, t.child))
  }

  lemma TryCollapseStandsFor(p: Node, t: Node, k: Key, s: OnOrphanedHashNode, hid: Hidden, keccak: Hasher)
    requires p.Wf() && t.Wf() && Alike(p, t, hid, keccak) && TryCollapse(t, k, s).Ok?
    ensures TryCollapse(p, k, s).Ok? && StandsFor(TryCollapse(p, k, s).value, TryCollapse(t, k, s).value, hid, keccak)
  {
    if t.Extension? { CollapseStandsFor(t.nibbles, p.child, t.child, k, s, hid, keccak); }
  }

  lemma RebuildStandsFor(pc: seq<Node>, tc: seq<Node>, value: Bytes, nib: Nibble, p: Node, t: Node, k: Key,
                         s: OnOrphanedHashNode, hid: Hidden, keccak: Hasher)
    requires Branch(pc, value).Wf() && Branch(tc, value).Wf() && p.Wf() && t.Wf()
    requires ChildrenStandFor(pc, tc, hid, keccak)
    requires Alike(p, t, Under(hid, [nib]), keccak) && RebuildBranch(tc, value, nib, t, k, s).Ok?
    requires t.Empty? && |UsedSlots(tc)| <= 2 ==>
      var j := OtherSlot(tc, nib).value; Exposed(pc[j], tc[j])
    ensures RebuildBranch(pc, value, nib, p, k, s).Ok?
    ensures Alike(RebuildBranch(pc, value, nib, p, k, s).value, RebuildBranch(tc, value, nib, t, k, s).value, hid, keccak)
  {
    UsedSlotsAlike(pc, tc, hid, keccak);
    if t.Empty? && |UsedSlots(tc)| <= 2 {
      OtherSlotAlike(pc, tc, nib, 0, hid, keccak);
    } else {
      TryCollapseStandsFor(p, t, k, s, Under(hid, [nib]), keccak);
      SlotStandsFor(pc, tc, nib, TryCollapse(p, k, s).value, TryCollapse(t, k, s).value, hid, keccak);
    }
  }

  /** The same outcome below a root: nothing deleted, or the same value and corresponding nodes. */
  ghost predicate SameDeletion(rp: Option<(Node, Bytes)>, rt: Option<(Node, Bytes)>, hid: Hidden, keccak: Hasher) {
    && rp.Some? == rt.Some?
    && (rt.Some? ==> Alike(rp.value.0, rt.value.0, hid, keccak) && rp.value.1 == rt.value.1)
  }

  /** The child left by a collapse is exposed when its key is clear of hidden nodes. */
  lemma CollapseExposes(pc: seq<Node>, tc: seq<Node>, value: Bytes, k: Key, hid: Hidden, keccak: Hasher)
    requires Branch(tc, value).Wf() && Canonical(Branch(tc, value)) && ChildrenStandFor(pc, tc, hid, keccak) && k != []
    requires tc[k[0]].Leaf? && tc[k[0]].nibbles == k[1..] && |UsedSlots(tc)| <= 2 && OtherSlot(tc, k[0]).Some?
    requires CollapseClear(Branch(tc, value), k, hid)
    ensures var j := OtherSlot(tc, k[0]).value; Exposed(pc[j], tc[j])
  {
    var j: Nibble := OtherSlot(tc, k[0]).value;
    ClearUnder([j], OwnNibbles(tc[j]), hid);
    OnTheWay(pc[j], tc[j], OwnNibbles(tc[j]), Under(hid, [j]), keccak);
  }

  lemma {:induction false} DeleteInternStandsFor(p: Node, t: Node, hid: Hidden, k: Key, s: OnOrphanedHashNode, keccak: Hasher)
    requires p.Wf() && t.Wf() && Canonical(t) && StandsFor(p, t, hid, keccak)
    requires DeleteIntern(t, k, s).Ok? && SafeDelete(t, k) && !EndsInsideExtension(t, k)
    requires Clear(k, hid) && CollapseClear(t, k, hid)
    ensures DeleteIntern(p, k, s).Ok?
    ensures SameDeletion(DeleteIntern(p, k, s).value, DeleteIntern(t, k, s).value, hid, keccak)
    decreases t
  {
    OnTheWay(p, t, k, hid, keccak);
    match t
    case Branch(children, value) =>
      if k != [] {
        BelowBranch(children, value, k, hid);
        DeleteInternStandsFor(p.children[k[0]], children[k[0]], Under(hid, [k[0]]), k[1..], s, keccak);
        CollapsedChildExposed(p.children, children, value, hid, k, s, keccak);
        DeleteAroundChild(p.children, children, value, hid, k, s, keccak);
      }
    case Extension(n, child) =>
      if n <= k {
        BelowExtension(n, child, hid, k);
        DeleteInternStandsFor(p.child, child, Under(hid, n), k[|n|..], s, keccak);
        DeleteBehindExtension(p.child, n, child, hid, k, s, keccak);
      }
    case _ =>
  }

  lemma CollapsedChildExposed(pc: seq<Node>, tc: seq<Node>, value: Bytes, hid: Hidden, k: Key,
                              s: OnOrphanedHashNode, keccak: Hasher)
    requires Branch(tc, value).Wf() && Canonical(Branch(tc, value)) && ChildrenStandFor(pc, tc, hid, keccak) && k != []
    requires DeleteIntern(Branch(tc, value), k, s).Ok? && SafeDelete(tc[k[0]], k[1..]) && CollapseClear(Branch(tc, value), k, hid)
    ensures var rt := DeleteIntern(tc[k[0]], k[1..], s).value;
      rt.Some? && rt.value.0.Empty? && |UsedSlots(tc)| <= 2 ==>
        OtherSlot(tc, k[0]).Some? && Exposed(pc[OtherSlot(tc, k[0]).value], tc[OtherSlot(tc, k[0]).value])
  {
    var rt := DeleteIntern(tc[k[0]], k[1..], s).value;
    if rt.Some? && rt.value.0.Empty? && |UsedSlots(tc)| <= 2 {
      DeleteInternCorrect(tc[k[0]], k[1..], s, []);
      CollapseExposes(pc, tc, value, k, hid, keccak);
    }
  }

  /** Passing from the deletions in a child to the deletions in the branch around it. */
  lemma DeleteAroundChild(pc: seq<Node>, tc: seq<Node>, value: Bytes, hid: Hidden, k: Key, s: OnOrphanedHashNode, keccak: Hasher)
    requires Branch(pc, value).Wf() && Branch(tc, value).Wf() && k != [] && ChildrenStandFor(pc, tc, hid, keccak)
    requires DeleteIntern(Branch(tc, value), k, s).Ok? && DeleteIntern(pc[k[0]], k[1..], s).Ok?
    requires var rp, rt := DeleteIntern(pc[k[0]], k[1..], s).value, DeleteIntern(tc[k[0]], k[1..], s).value;
      && SameDeletion(rp, rt, Under(hid, [k[0]]), keccak)
      && (rt.Some? && rt.value.0.Empty? && |UsedSlots(tc)| <= 2 ==>
          OtherSlot(tc, k[0]).Some? && Exposed(pc[OtherSlot(tc, k[0]).value], tc[OtherSlot(tc, k[0]).value]))
    ensures DeleteIntern(Branch(pc, value), k, s).Ok?
    ensures SameDeletion(DeleteIntern(Branch(pc, value), k, s).value, DeleteIntern(Branch(tc, value), k, s).value, hid, keccak)
  {
    var rp, rt := DeleteIntern(pc[k[0]], k[1..], s).value, DeleteIntern(tc[k[0]], k[1..], s).value;
    if rt.Some? {
      RebuildStandsFor(pc, tc, value, k[0], rp.value.0, rt.value.0, k[1..], s, hid, keccak);
    }
  }

  lemma BelowBranch(tc: seq<Node>, value: Bytes, k: Key, hid: Hidden)
    requires Branch(tc, value).Wf() && k != [] && Clear(k, hid) && CollapseClear(Branch(tc, value), k, hid)
    requires SafeDelete(Branch(tc, value), k)
    ensures SafeDelete(tc[k[0]], k[1..]) && Clear(k[1..], Under(hid, [k[0]])) && CollapseClear(tc[k[0]], k[1..], Under(hid, [k[0]]))
  {
    assert k == [k[0]] + k[1..];
    ClearUnder([k[0]], k[1..], hid);
    var r := CollapseKey(tc[k[0]], k[1..]);
    if r.Some? { ClearUnder([k[0]], r.value, hid); }
  }

  lemma BelowExtension(n: Key, tc: Node, hid: Hidden, k: Key)
    requires Extension(n, tc).Wf() && n <= k && Clear(k, hid) && CollapseClear(Extension(n, tc), k, hid)
    ensures Clear(k[|n|..], Under(hid, n)) && CollapseClear(tc, k[|n|..], Under(hid, n))
  {
    PrefixSplit(n, k);
    ClearUnder(n, k[|n|..], hid);
    var r := CollapseKey(tc, k[|n|..]);
    if r.Some? { ClearUnder(n, r.value, hid); }
  }

  /** Passing from the deletions behind an extension to the deletions in it. */
  lemma DeleteBehindExtension(pc: Node, n: Key, tc: Node, hid: Hidden, k: Key, s: OnOrphanedHashNode, keccak: Hasher)
    requires pc.Wf() && tc.Wf() && Canonical(Extension(n, tc)) && n <= k
    requires DeleteIntern(Extension(n, tc), k, s).Ok? && SafeDelete(Extension(n, tc), k) && DeleteIntern(pc, k[|n|..], s).Ok?
    requires SameDeletion(DeleteIntern(pc, k[|n|..], s).value, DeleteIntern(tc, k[|n|..], s).value, Under(hid, n), keccak)
    ensures DeleteIntern(Extension(n, pc), k, s).Ok?
    ensures SameDeletion(DeleteIntern(Extension(n, pc), k, s).value, DeleteIntern(Extension(n, tc), k, s).value, hid, keccak)
  {
    var rest := k[|n|..];
    var rp, rt := DeleteIntern(pc, rest, s).value, DeleteIntern(tc, rest, s).value;
    if rt.Some? {
      DeleteInternCorrect(tc, rest, s, []);
      CollapseStandsFor(n, rp.value.0, rt.value.0, rest, s, hid, keccak);
    }
  }

  lemma DeleteStandsFor(p: Node, t: Node, hid: Hidden, k: Key, s: OnOrphanedHashNode, keccak: Hasher)
    requires p.Wf() && t.Wf() && Canonical(t) && StandsFor(p, t, hid, keccak)
    requires Delete(t, k, s).Ok? && SafeDelete(t, k) && !EndsInsideExtension(t, k)
    requires Clear(k, hid) && CollapseClear(t, k, hid)
    ensures Delete(p, k, s).Ok?
    ensures var rp, rt := Delete(p, k, s).value, Delete(t, k, s).value;
      && rp.Some? == rt.Some?
      && (rt.Some? ==> StandsFor(rp.value.0, rt.value.0, hid, keccak) && rp.value.1 == rt.value.1)
  {
    DeleteInternStandsFor(p, t, hid, k, s, keccak);
    var rp, rt := DeleteIntern(p, k, s).value, DeleteIntern(t, k, s).value;
    if rt.Some? { TryCollapseStandsFor(rp.value.0, rt.value.0, [], s, hid, keccak); }
  }

  lemma {:induction false} StandsForSameEncoding(p: Node, t: Node, hid: Hidden, keccak: Hasher)
    requires StandsFor(p, t, hid, keccak)
    ensures Encode(p, keccak) == Encode(t, keccak)
    decreases t
  {
    if !p.Hash? {
      match t
      case Branch(children, value) =>
        forall i: nat | i < |children| ensures Encode(p.children[i], keccak) == Encode(children[i], keccak) {
          StandsForSameEncoding(p.children[i], children[i], Under(hid, [i]), keccak);
        }
        assert seq(|children|, i requires 0 <= i < |children| => Encode(children[i], keccak))
            == seq(|p.children|, i requires 0 <= i < |p.children| => Encode(p.children[i], keccak));
      case Extension(n, child) => StandsForSameEncoding(p.child, child, Under(hid, n), keccak);
      case _ =>
    }
  }
}
