/** The stack-based iterator over leaves and hash nodes. */
module TrieIter {
  import opened Wrappers
  import opened Nibbles
  import opened PartialTrie

  type Item = (Key, Entry)

  // ---------------------------------------------------------------------------------------------
  // The enumeration
  // ---------------------------------------------------------------------------------------------

  /** All entries below a node at the given path: children in order, then the branch value. */
  function Items(t: Node, path: Key): seq<Item>
    requires t.Wf()
    decreases t
  {
    match t
    case Empty => []
    case Hash(h) => [(path, HashOf(h))]
    case Branch(children, value) => ItemsFrom(children, value, 0, path)
    case Extension(n, child) => Items(child, path + n)
    case Leaf(n, value) => [(path + n, Val(value))]
  }

  function ItemsFrom(children: seq<Node>, value: Bytes, i: nat, path: Key): seq<Item>
    requires Branch(children, value).Wf() && i <= 16
    decreases children, 16 - i
  {
    if i == 16 then (if value != [] then [(path, Val(value))] else [])
    else Items(children[i], path + [i]) + ItemsFrom(children, value, i + 1, path)
  }

  // ---------------------------------------------------------------------------------------------
  // The iterator
  // ---------------------------------------------------------------------------------------------

  datatype StackEntry =
    | RootEntry(root: Node)
    | ExtensionEntry(count: nat)
    | BranchEntry(children: seq<Node>, value: Bytes, currNib: nat)

  function DropLast(k: Key, n: nat): Key {
    if n <= |k| then k[..|k| - n] else []
  }

  ghost predicate EntryValid(e: StackEntry) {
    match e
    case RootEntry(t) => Canonical(t) && t.Wf()
    case ExtensionEntry(_) => true
    case BranchEntry(children, value, nib) =>
      Branch(children, value).Wf() && (forall i :: 0 <= i < 16 ==> Canonical(children[i])) && 1 <= nib <= 16
  }

  ghost predicate StackValid(stack: seq<StackEntry>) {
    forall i :: 0 <= i < |stack| ==> EntryValid(stack[i])
  }

  /** What the iterator still has to yield: `key` is the key of the topmost branch once the pending
      extension entries above it are unwound. */
  ghost function Pending(stack: seq<StackEntry>, key: Key): seq<Item>
    requires StackValid(stack)
    decreases |stack|
  {
    if stack == [] then []
    else
      var top, below := stack[|stack| - 1], stack[..|stack| - 1];
      EntryItems(top, key) + Pending(below, DropLast(key, EntryDrop(top)))
  }

  /** What an entry itself still yields. */
  ghost function EntryItems(e: StackEntry, key: Key): seq<Item>
    requires EntryValid(e)
  {
    match e
    case RootEntry(t) => Items(t, [])
    case ExtensionEntry(_) => []
    case BranchEntry(children, value, nib) => ItemsFrom(children, value, nib, key)
  }

  /** How many nibbles the branch key loses when the entry is done. */
  function EntryDrop(e: StackEntry): nat {
    match e
    case RootEntry(_) => 0
    case ExtensionEntry(n) => n
    case BranchEntry(_, _, _) => 1
  }

  lemma PendingPush(stack: seq<StackEntry>, e: StackEntry, key: Key)
    requires StackValid(stack) && EntryValid(e)
    ensures StackValid(stack + [e])
    ensures Pending(stack + [e], key) == EntryItems(e, key) + Pending(stack, DropLast(key, EntryDrop(e)))
  {
    assert (stack + [e])[..|stack|] == stack;
  }

  // Work left, for termination.

  ghost function Weight(t: Node): nat
    requires t.Wf()
    decreases t
  {
    match t
    case Branch(children, _) => 1 + WeightFrom(children, 0)
    case Extension(_, child) => 1 + Weight(child)
    case _ => 0
  }

  ghost function WeightFrom(children: seq<Node>, i: nat): nat
    requires |children| == 16 && i <= 16 && forall j :: 0 <= j < 16 ==> children[j].Wf()
    decreases children, 16 - i
  {
    if i == 16 then 0 else 1 + Weight(children[i]) + WeightFrom(children, i + 1)
  }

  ghost function EntryWeight(e: StackEntry): nat
    requires EntryValid(e)
  {
    match e
    case RootEntry(t) => 1 + Weight(t)
    case ExtensionEntry(_) => 1
    case BranchEntry(children, _, nib) => 1 + WeightFrom(children, nib)
  }

  ghost function StackWeight(stack: seq<StackEntry>): nat
    requires StackValid(stack)
    decreases |stack|
  {
    if stack == [] then 0 else StackWeight(stack[..|stack| - 1]) + EntryWeight(stack[|stack| - 1])
  }

  lemma WeightPush(stack: seq<StackEntry>, e: StackEntry)
    requires StackValid(stack) && EntryValid(e)
    ensures StackValid(stack + [e])
    ensures StackWeight(stack + [e]) == StackWeight(stack) + EntryWeight(e)
  {
    assert (stack + [e])[..|stack|] == stack;
  }

  /** The nibbles of an extension, and the one that led to it, are dropped on the way back up. */
  lemma Unwind(key: Key, currKey: Key, n: Key)
    requires key <= currKey && n != [] && (|currKey| == |key| + 1 || (key == [] && currKey == []))
    ensures DropLast(DropLast(currKey + n, 1), |n|) == key
  {
  }

  /** What is due when going down to t with the stack and the branch key as they are. */
  ghost function Due(t: Node, currKey: Key, stack: seq<StackEntry>, key: Key): seq<Item>
    requires Canonical(t) && t.Wf() && StackValid(stack)
  {
    Items(t, currKey) + Pending(stack, if t.Branch? then DropLast(currKey, 1) else key)
  }

  /** The item of a node that ends the way down, if it has one. */
  function OwnItem(t: Node, currKey: Key): Option<Item> {
    match t
    case Hash(h) => Some((currKey, HashOf(h)))
    case Leaf(n, value) => Some((currKey + n, Val(value)))
    case Extension(n, Hash(h)) => Some((currKey + n, HashOf(h)))
    case _ => None
  }

  lemma EndItems(t: Node, currKey: Key)
    requires Canonical(t) && t.Wf() && !t.Branch? && !(t.Extension? && t.child.Branch?)
    ensures Items(t, currKey) == Before(OwnItem(t, currKey), [])
  {
    if t.Extension? { assert t.child.Hash?; }
  }

  lemma BeforeRest(item: Option<Item>, rest: seq<Item>)
    ensures Before(item, []) + rest == Before(item, rest)
  {
  }

  lemma DueAtEnd(t: Node, currKey: Key, stack: seq<StackEntry>, key: Key)
    requires Canonical(t) && t.Wf() && StackValid(stack) && !t.Branch? && !(t.Extension? && t.child.Branch?)
    ensures Due(t, currKey, stack, key) == Before(OwnItem(t, currKey), Pending(stack, key))
  {
    EndItems(t, currKey);
    BeforeRest(OwnItem(t, currKey), Pending(stack, key));
  }

  /** Entering a branch: its first child now, the rest of it on the stack. */
  lemma EnterBranch(stack: seq<StackEntry>, children: seq<Node>, value: Bytes, currKey: Key, key: Key)
    requires StackValid(stack) && Canonical(Branch(children, value)) && Branch(children, value).Wf()
    ensures var pushed := stack + [BranchEntry(children, value, 1)];
      && StackValid(pushed)
      && Due(children[0], currKey + [0], pushed, currKey) == Due(Branch(children, value), currKey, stack, key)
      && StackWeight(pushed) + Weight(children[0]) <= StackWeight(stack) + Weight(Branch(children, value))
  {
    var entry := BranchEntry(children, value, 1);
    var later := ItemsFrom(children, value, 1, currKey);
    PendingPush(stack, entry, currKey);
    WeightPush(stack, entry);
    assert DropLast(currKey + [0], 1) == currKey;
    assert Items(Branch(children, value), currKey) == Items(children[0], currKey + [0]) + later;
    ConcatAssoc(Items(children[0], currKey + [0]), later, Pending(stack, DropLast(currKey, 1)));
  }

  /** Entering an extension over a branch. */
  lemma EnterExtension(stack: seq<StackEntry>, n: Key, child: Node, key: Key, currKey: Key)
    requires StackValid(stack) && key <= currKey && n != [] && child.Branch? && Canonical(child) && child.Wf()
    requires |currKey| == |key| + 1 || (key == [] && currKey == [])
    ensures var pushed := stack + [ExtensionEntry(|n|)];
      && StackValid(pushed)
      && Due(child, currKey + n, pushed, key) == Due(Extension(n, child), currKey, stack, key)
      && StackWeight(pushed) == StackWeight(stack) + 1
  {
    PendingPush(stack, ExtensionEntry(|n|), DropLast(currKey + n, 1));
    WeightPush(stack, ExtensionEntry(|n|));
    Unwind(key, currKey, n);
    assert [] + Pending(stack, key) == Pending(stack, key);
  }

  /** Moving a branch on to its next slot. */
  lemma NextSlot(below: seq<StackEntry>, children: seq<Node>, value: Bytes, nib: nat, key: Key)
    requires StackValid(below) && EntryValid(BranchEntry(children, value, nib)) && nib < 16
    ensures var was := below + [BranchEntry(children, value, nib)]; var now := below + [BranchEntry(children, value, nib + 1)];
      && StackValid(was) && StackValid(now)
      && Pending(was, key) == Items(children[nib], key + [nib]) + Pending(now, key)
      && StackWeight(now) + Weight(children[nib]) < StackWeight(was)
  {
    PendingPush(below, BranchEntry(children, value, nib), key);
    PendingPush(below, BranchEntry(children, value, nib + 1), key);
    ConcatAssoc(Items(children[nib], key + [nib]), ItemsFrom(children, value, nib + 1, key), Pending(below, DropLast(key, 1)));
    WeightPush(below, BranchEntry(children, value, nib));
    WeightPush(below, BranchEntry(children, value, nib + 1));
  }

  /** A branch whose children are done: its value, if any, is last. */
  lemma LastSlot(below: seq<StackEntry>, children: seq<Node>, value: Bytes, key: Key)
    requires StackValid(below) && EntryValid(BranchEntry(children, value, 16))
    ensures var was := below + [BranchEntry(children, value, 16)];
      && StackValid(was)
      && Pending(was, key) == Before(if value != [] then Some((key, Val(value))) else None, Pending(below, DropLast(key, 1)))
      && StackWeight(below) < StackWeight(was)
  {
    PendingPush(below, BranchEntry(children, value, 16), key);
    WeightPush(below, BranchEntry(children, value, 16));
    assert [] + Pending(below, DropLast(key, 1)) == Pending(below, DropLast(key, 1));
  }

  lemma StepDown(key: Key, nib: Nibble)
    ensures key <= key + [nib] && DropLast(key + [nib], 1) == key
  {
  }

  predicate NoRoot(stack: seq<StackEntry>) {
    forall i :: 0 <= i < |stack| ==> !stack[i].RootEntry?
  }

  /** An item in front of what is pending, if there is one. */
  function Before(item: Option<Item>, rest: seq<Item>): seq<Item> {
    if item.None? then rest else [item.value] + rest
  }

  class PartialTrieIter {
    var key: Key                 // curr_key_after_last_branch
    var stack: seq<StackEntry>   // trie_stack, top at the end

    ghost predicate Valid()
      reads this
    {
      StackValid(stack) && (NoRoot(stack) || (|stack| == 1 && key == []))
    }

    ghost function Remaining(): seq<Item>
      requires Valid()
      reads this
    {
      Pending(stack, key)
    }

    constructor (t: Node)
      requires Canonical(t) && t.Wf()
      ensures Valid() && Remaining() == Items(t, [])
    {
      key := [];
      stack := [RootEntry(t)];
      new;
      assert [] + [RootEntry(t)] == stack;
      PendingPush([], RootEntry(t), []);
      assert Items(t, []) + [] == Items(t, []);
    }

    /** Goes down to the next empty, leaf or hash node, leaving on the stack what has to be done after
        it. Below an extension the branch key is recorded only when there is a branch. */
    method Advance(t: Node, currKey: Key) returns (item: Option<Item>)
      requires StackValid(stack) && NoRoot(stack) && Canonical(t) && t.Wf()
      requires t.Branch? || |currKey| == |key| + 1 || (key == [] && currKey == [])
      requires key <= currKey
      modifies this
      ensures StackValid(stack) && NoRoot(stack)
      ensures Before(item, Remaining()) == Due(t, currKey, old(stack), old(key))
      ensures StackWeight(stack) <= StackWeight(old(stack)) + Weight(t)
      decreases t
    {
      match t {
        case Empty =>
          DueAtEnd(t, currKey, stack, key);
          item := None;
        case Hash(h) =>
          DueAtEnd(t, currKey, stack, key);
          item := Some((currKey, HashOf(h)));
        case Branch(children, value) =>
          EnterBranch(stack, children, value, currKey, key);
          stack := stack + [BranchEntry(children, value, 1)];
          key := currKey;
          item := Advance(children[0], currKey + [0]);
        case Extension(n, child) =>
          if !child.Hash? {
            EnterExtension(stack, n, child, key, currKey);
            stack := stack + [ExtensionEntry(|n|)];
            item := Advance(child, currKey + n);
          } else {
            DueAtEnd(t, currKey, stack, key);
            item := Some((currKey + n, HashOf(child.hash)));
          }
        case Leaf(n, value) =>
          DueAtEnd(t, currKey, stack, key);
          item := Some((currKey + n, Val(value)));
      }
    }

    /** A branch taken off the stack: on to its next child, or out through its value. */
    method TurnBranch(children: seq<Node>, value: Bytes, nib: nat) returns (item: Option<Item>)
      requires StackValid(stack) && NoRoot(stack) && EntryValid(BranchEntry(children, value, nib))
      modifies this
      ensures StackValid(stack) && NoRoot(stack)
      ensures StackValid(old(stack) + [BranchEntry(children, value, nib)])
      ensures Before(item, Pending(stack, key)) == Pending(old(stack) + [BranchEntry(children, value, nib)], old(key))
      ensures StackWeight(stack) < StackWeight(old(stack) + [BranchEntry(children, value, nib)])
    {
      if nib < 16 {
        NextSlot(stack, children, value, nib, key);
        StepDown(key, nib);
        stack := stack + [BranchEntry(children, value, nib + 1)];
        item := Advance(children[nib], key + [nib]);
      } else {
        LastSlot(stack, children, value, key);
        item := if value != [] then Some((key, Val(value))) else None;
        key := DropLast(key, 1);
      }
    }

    /** One turn of the iterator's loop: the top entry is taken off and worked on. */
    method Turn() returns (item: Option<Item>)
      requires Valid() && stack != []
      modifies this
      ensures Valid() && Before(item, Remaining()) == old(Remaining())
      ensures StackWeight(stack) < StackWeight(old(stack))
    {
      var top := stack[|stack| - 1];
      stack := stack[..|stack| - 1];
      assert old(stack) == stack + [top];
      PendingPush(stack, top, key);
      WeightPush(stack, top);
      match top {
        case RootEntry(root) =>
          assert stack == [];
          item := Advance(root, []);
        case ExtensionEntry(n) =>
          key := DropLast(key, n);
          item := None;
        case BranchEntry(children, value, nib) =>
          item := TurnBranch(children, value, nib);
      }
    }

    method Next() returns (item: Option<Item>)
      requires Valid()
      modifies this
      ensures Valid()
      ensures item == if old(Remaining()) == [] then None else Some(old(Remaining())[0])
      ensures Remaining() == if old(Remaining()) == [] then [] else old(Remaining())[1..]
    {
      item := None;
      while item.None? && stack != []
        invariant Valid() && Before(item, Remaining()) == old(Remaining())
        decreases StackWeight(stack)
      {
        item := Turn();
      }
    }
  }
}
