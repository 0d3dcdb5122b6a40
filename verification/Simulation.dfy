/** A partial trie, in which large subtrees are replaced by their hashes, stands in for the full one. */
module Simulation {
  import opened Wrappers
  import opened Nibbles
  import opened PartialTrie
  import opened TrieOps
  import opened TrieHashing
  import opened TrieRuns

  /** p is t with some subtrees whose encoding is at least 32 bytes replaced by their hash. */
  ghost predicate PartialOf(p: Node, t: Node, keccak: Hasher)
    decreases t
  {
    || (p.Hash? && Encode(t, keccak) == Hashed(p.hash))
    || (match t
        case Branch(children, value) =>
          && p.Branch? && p.value == value && |p.children| == |children|
          && forall i :: 0 <= i < |children| ==> PartialOf(p.children[i], children[i], keccak)
        case Extension(n, child) => p.Extension? && p.nibbles == n && PartialOf(p.child, child, keccak)
        case _ => p == t)
  }

  /** Hashing a subtree away does not change any encoding above it. */
  lemma {:induction false} PartialSameEncoding(p: Node, t: Node, keccak: Hasher)
    requires PartialOf(p, t, keccak)
    ensures Encode(p, keccak) == Encode(t, keccak)
    decreases t
  {
    if !p.Hash? {
      match t
      case Branch(children, value) =>
        forall i | 0 <= i < |children| ensures Encode(p.children[i], keccak) == Encode(children[i], keccak) {
          PartialSameEncoding(p.children[i], children[i], keccak);
        }
        assert seq(|children|, i requires 0 <= i < |children| => Encode(children[i], keccak))
            == seq(|p.children|, i requires 0 <= i < |p.children| => Encode(p.children[i], keccak));
      case Extension(_, child) => PartialSameEncoding(p.child, child, keccak);
      case _ =>
    }
  }

  lemma {:induction false} PartialRefl(t: Node, keccak: Hasher)
    ensures PartialOf(t, t, keccak)
    decreases t
  {
    match t
    case Branch(children, _) =>
      forall i | 0 <= i < |children| ensures PartialOf(children[i], children[i], keccak) {
        PartialRefl(children[i], keccak);
      }
    case Extension(_, child) => PartialRefl(child, keccak);
    case _ =>
  }

  /** A partial node other than a hash has the constructor of the node it stands for. */
  lemma PartialEmpty(p: Node, t: Node, keccak: Hasher)
    requires PartialOf(p, t, keccak)
    ensures p.Empty? <==> t.Empty?
  {
  }

  // ---------------------------------------------------------------------------------------------
  // Insertion
  // ---------------------------------------------------------------------------------------------

  lemma SlotSimulates(pc: seq<Node>, tc: seq<Node>, i: Nibble, x: Node, y: Node, keccak: Hasher)
    requires |pc| == |tc| == 16 && x.Wf() && y.Wf() && PartialOf(x, y, keccak)
    requires forall j :: 0 <= j < 16 ==> pc[j].Wf() && tc[j].Wf() && PartialOf(pc[j], tc[j], keccak)
    ensures forall j :: 0 <= j < 16 ==> PartialOf(WithSlot(pc, i, x)[j], WithSlot(tc, i, y)[j], keccak)
  {
  }

  lemma EmptySlotsSimulate(keccak: Hasher)
    ensures forall j :: 0 <= j < 16 ==> PartialOf(EmptyChildren()[j], EmptyChildren()[j], keccak)
  {
  }

  lemma ForkSimulates(n: Key, k: Key, pe: Node, te: Node, v: Entry, keccak: Hasher)
    requires n != k && (|CommonPrefix(n, k)| < |n| || (pe == te && te.Leaf?)) && pe.Wf() && te.Wf()
    requires PartialOf(pe, te, keccak) && Fork(n, k, pe, v).Ok?
    ensures Fork(n, k, te, v).Ok? && PartialOf(Fork(n, k, pe, v).value, Fork(n, k, te, v).value, keccak)
  {
    var i := |CommonPrefix(n, k)|;
    var none := EmptyChildren();
    EmptySlotsSimulate(keccak);
    if i < |k| {
      var entry := NodeOfEntry(k[i + 1..], v);
      PartialRefl(entry, keccak);
      SlotSimulates(none, none, k[i], entry, entry, keccak);
      if i < |n| {
        SlotSimulates(none, none, n[i], pe, te, keccak);
        SlotSimulates(WithSlot(none, n[i], pe), WithSlot(none, n[i], te), k[i], entry, entry, keccak);
      }
    } else {
      SlotSimulates(none, none, n[i], pe, te, keccak);
    }
  }

  lemma PlaceBranchSimulates(n: Key, k: Key, pe: Node, te: Node, v: Entry, keccak: Hasher)
    requires n != k && (|CommonPrefix(n, k)| < |n| || (pe == te && te.Leaf?)) && pe.Wf() && te.Wf()
    requires PartialOf(pe, te, keccak) && PlaceBranch(n, k, pe, v).Ok?
    ensures PlaceBranch(n, k, te, v).Ok?
    ensures PartialOf(PlaceBranch(n, k, pe, v).value, PlaceBranch(n, k, te, v).value, keccak)
  {
    ForkSimulates(n, k, pe, te, v, keccak);
  }

  lemma {:induction false} InsertSimulates(p: Node, t: Node, k: Key, v: Entry, keccak: Hasher)
    requires p.Wf() && t.Wf() && PartialOf(p, t, keccak) && InsertRec(p, k, v).Ok?
    ensures InsertRec(t, k, v).Ok?
    ensures PartialOf(InsertRec(p, k, v).value, InsertRec(t, k, v).value, keccak)
    decreases t
  {
    match t
    case Empty => PartialRefl(NodeOfEntry(k, v), keccak);
    case Hash(_) =>
    case Branch(children, _) =>
      if k != [] { InsertSimulates(p.children[k[0]], children[k[0]], k[1..], v, keccak); }
    case Extension(n, child) =>
      if Agree(n, k) {
        InsertSimulates(p.child, child, DropClamped(k, |n|), v, keccak);
      } else {
        var post := n[CommonPrefixLen(n, k) + 1..];
        PlaceBranchSimulates(n, k, if post == [] then p.child else Extension(post, p.child),
                             if post == [] then child else Extension(post, child), v, keccak);
      }
    case Leaf(n, value) => PartialRefl(InsertRec(t, k, v).value, keccak);
  }

  // ---------------------------------------------------------------------------------------------
  // Deletion
  // ---------------------------------------------------------------------------------------------

  lemma OtherSlotSimulates(pc: seq<Node>, tc: seq<Node>, nib: nat, from: nat, keccak: Hasher)
    requires |pc| == |tc| && from <= |pc|
    requires forall i :: 0 <= i < |tc| ==> PartialOf(pc[i], tc[i], keccak)
    ensures OtherSlot(pc, nib, from) == OtherSlot(tc, nib, from)
    decreases |tc| - from
  {
    if from < |tc| { OtherSlotSimulates(pc, tc, nib, from + 1, keccak); }
  }

  lemma UsedSlotsSimulates(pc: seq<Node>, tc: seq<Node>, keccak: Hasher)
    requires |pc| == |tc|
    requires forall i :: 0 <= i < |tc| ==> PartialOf(pc[i], tc[i], keccak)
    ensures UsedSlots(pc) == UsedSlots(tc)
  {
    forall i: nat | i < |tc| { PartialEmpty(pc[i], tc[i], keccak); }
  }

  lemma CollapseSimulates(n: Key, p: Node, t: Node, k: Key, keccak: Hasher)
    requires p.Wf() && t.Wf() && PartialOf(p, t, keccak) && CollapseExt(n, p, k, Reject).Ok?
    ensures CollapseExt(n, t, k, Reject).Ok?
    ensures PartialOf(CollapseExt(n, p, k, Reject).value, CollapseExt(n, t, k, Reject).value, keccak)
  {
  }

  lemma RebuildSimulates(pc: seq<Node>, tc: seq<Node>, value: Bytes, nib: Nibble, p: Node, t: Node, k: Key, keccak: Hasher)
    requires Branch(pc, value).Wf() && Branch(tc, value).Wf() && p.Wf() && t.Wf()
    requires PartialOf(Branch(pc, value), Branch(tc, value), keccak) && PartialOf(p, t, keccak) && !p.Hash?
    requires RebuildBranch(pc, value, nib, p, k, Reject).Ok?
    ensures RebuildBranch(tc, value, nib, t, k, Reject).Ok?
    ensures PartialOf(RebuildBranch(pc, value, nib, p, k, Reject).value,
                      RebuildBranch(tc, value, nib, t, k, Reject).value, keccak)
  {
    UsedSlotsSimulates(pc, tc, keccak);
    OtherSlotSimulates(pc, tc, nib, 0, keccak);
    if p.Extension? { CollapseSimulates(p.nibbles, p.child, t.child, k, keccak); }
  }

  ghost predicate SameOutcome(p: Option<(Node, Bytes)>, t: Option<(Node, Bytes)>, keccak: Hasher) {
    match (p, t)
    case (None, None) => true
    case (Some(a), Some(b)) => PartialOf(a.0, b.0, keccak) && !a.0.Hash? && a.1 == b.1
    case _ => false
  }

  lemma {:induction false} DeleteInternSimulates(p: Node, t: Node, k: Key, keccak: Hasher)
    requires p.Wf() && t.Wf() && PartialOf(p, t, keccak) && DeleteIntern(p, k, Reject).Ok?
    ensures DeleteIntern(t, k, Reject).Ok?
    ensures SameOutcome(DeleteIntern(p, k, Reject).value, DeleteIntern(t, k, Reject).value, keccak)
    decreases t
  {
    match t
    case Branch(children, value) =>
      if k != [] {
        DeleteInternSimulates(p.children[k[0]], children[k[0]], k[1..], keccak);
        var rp, rt := DeleteIntern(p.children[k[0]], k[1..], Reject).value, DeleteIntern(children[k[0]], k[1..], Reject).value;
        if rp.Some? {
          RebuildSimulates(p.children, children, value, k[0], rp.value.0, rt.value.0, k[1..], keccak);
        }
      }
    case Extension(n, child) =>
      if Agree(n, k) {
        var rest := DropClamped(k, |n|);
        DeleteInternSimulates(p.child, child, rest, keccak);
        var rp, rt := DeleteIntern(p.child, rest, Reject).value, DeleteIntern(child, rest, Reject).value;
        if rp.Some? { CollapseSimulates(n, rp.value.0, rt.value.0, rest, keccak); }
      }
    case _ =>
  }

  /** A deletion that succeeds on the partial trie under `Reject` succeeds on the full one, deletes
      the same value, and keeps the one a partial version of the other. */
  lemma DeleteSimulates(p: Node, t: Node, k: Key, keccak: Hasher)
    requires p.Wf() && t.Wf() && PartialOf(p, t, keccak) && Delete(p, k, Reject).Ok?
    ensures Delete(t, k, Reject).Ok?
    ensures match (Delete(p, k, Reject).value, Delete(t, k, Reject).value)
      case (None, None) => true
      case (Some(a), Some(b)) => PartialOf(a.0, b.0, keccak) && a.1 == b.1
      case _ => false
  {
    DeleteInternSimulates(p, t, k, keccak);
    var rp, rt := DeleteIntern(p, k, Reject).value, DeleteIntern(t, k, Reject).value;
    if rp.Some? && rp.value.0.Extension? {
      CollapseSimulates(rp.value.0.nibbles, rp.value.0.child, rt.value.0.child, [], keccak);
    }
  }

  /** Any run that succeeds on a partial trie succeeds on the full one, with the same root hash. */
  lemma {:induction false} RunSimulates(p: Node, t: Node, ops: seq<Op>, keccak: Hasher)
    requires p.Wf() && t.Wf() && PartialOf(p, t, keccak) && Run(p, ops, Reject).Ok?
    ensures Run(t, ops, Reject).Ok?
    ensures PartialOf(Run(p, ops, Reject).value, Run(t, ops, Reject).value, keccak)
    ensures RootHash(Run(p, ops, Reject).value, keccak) == RootHash(Run(t, ops, Reject).value, keccak)
    decreases |ops|
  {
    if ops == [] {
      PartialSameEncoding(p, t, keccak);
    } else {
      match ops[0] {
        case Put(k, v) => InsertSimulates(p, t, k, v, keccak);
        case Del(k) => DeleteSimulates(p, t, k, keccak);
      }
      RunSimulates(Step(p, ops[0], Reject).value, Step(t, ops[0], Reject).value, ops[1..], keccak);
    }
  }
}
