/** Insertion into and deletion from a partial trie, as the recursive functions of the source. */
module TrieOps {
  import opened Wrappers
  import opened Nibbles
  import opened PartialTrie

  // ---------------------------------------------------------------------------------------------
  // Insertion
  // ---------------------------------------------------------------------------------------------

  function NodeOfEntry(k: Key, v: Entry): (t: Node)
    ensures t.Wf()
  {
    match v
    case Val(value) => Leaf(k, value)
    case HashOf(h) => if k == [] then Hash(h) else Extension(k, Hash(h))
  }

  function EmptyChildren(): (c: seq<Node>)
    ensures |c| == 16 && forall i :: 0 <= i < 16 ==> c[i].Empty?
  {
    seq(16, _ => Empty)
  }

  function WithSlot(children: seq<Node>, i: Nibble, x: Node): (c: seq<Node>)
    requires |children| == 16 && x.Wf() && forall j :: 0 <= j < 16 ==> children[j].Wf()
    ensures |c| == 16 && c[i] == x
    ensures forall j :: 0 <= j < 16 ==> c[j].Wf() && (j != i ==> c[j] == children[j])
  {
    children[i := x]
  }

  /** The fresh branch where the keys n and k part; `existing` is the old node without the nibble
      that the branch consumes. A key that has run out puts its value into the branch itself. */
  function Fork(n: Key, k: Key, existing: Node, v: Entry): (r: Result<Node, TrieError>)
    requires n != k && (|CommonPrefix(n, k)| < |n| || existing.Leaf?) && existing.Wf()
    ensures r.Ok? ==> r.value.Wf() && r.value.Branch?
  {
    var i := |CommonPrefix(n, k)|;
    if i == |n| then
      Ok(Branch(WithSlot(EmptyChildren(), k[i], NodeOfEntry(k[i + 1..], v)), existing.value))
    else if i == |k| then
      if v.Val? then Ok(Branch(WithSlot(EmptyChildren(), n[i], existing), v.value)) else Err(Panic)
    else
      Ok(Branch(WithSlot(WithSlot(EmptyChildren(), n[i], existing), k[i], NodeOfEntry(k[i + 1..], v)), []))
  }

  /** The fork, below an extension when the keys share a prefix. */
  function PlaceBranch(n: Key, k: Key, existing: Node, v: Entry): (r: Result<Node, TrieError>)
    requires n != k && (|CommonPrefix(n, k)| < |n| || existing.Leaf?) && existing.Wf()
    ensures r.Ok? ==> r.value.Wf()
  {
    var branch :- Fork(n, k, existing, v);
    Ok(if CommonPrefix(n, k) == [] then branch else Extension(CommonPrefix(n, k), branch))
  }

  function CommonPrefix(n: Key, k: Key): (p: Key)
    ensures p <= n && p <= k
  {
    n[..CommonPrefixLen(n, k)]
  }

  function InsertRec(t: Node, k: Key, v: Entry): (r: Result<Node, TrieError>)
    requires t.Wf()
    ensures r.Ok? ==> r.value.Wf()
    decreases t
  {
    match t
    case Empty => Ok(NodeOfEntry(k, v))
    case Hash(h) => Err(HashNodeInsert(h))
    case Branch(children, value) =>
      if k == [] then
        match v {
          case Val(new_) => Ok(Branch(children, new_))
          case HashOf(h) => Err(ExistingHashNode(h))
        }
      else
        var child :- InsertRec(children[k[0]], k[1..], v);
        Ok(Branch(WithSlot(children, k[0], child), value))
    case Extension(n, child) =>
      if Agree(n, k) then
        var updated :- InsertRec(child, DropClamped(k, |n|), v);
        Ok(Extension(n, updated))
      else
        var post := n[CommonPrefixLen(n, k) + 1..];
        PlaceBranch(n, k, if post == [] then child else Extension(post, child), v)
    case Leaf(n, value) =>
      if n == k then
        match v {
          case Val(new_) => Ok(Leaf(n, new_))
          case HashOf(h) => Err(ExistingHashNode(h))
        }
      else
        PlaceBranch(n, k, Leaf(DropClamped(n, CommonPrefixLen(n, k) + 1), value), v)
  }

  /** The old child of an extension, without the nibbles up to and with the i-th. */
  function Behind(n: Key, i: nat, x: Node): (r: Node)
    requires i < |n| && x.Wf()
    ensures r.Wf()
  {
    if n[i + 1..] == [] then x else Extension(n[i + 1..], x)
  }

  lemma SplitIsPlaced(n: Key, x: Node, k: Key, v: Entry)
    requires x.Wf() && !Agree(n, k)
    ensures |CommonPrefix(n, k)| < |n|
    ensures InsertRec(Extension(n, x), k, v) == PlaceBranch(n, k, Behind(n, |CommonPrefix(n, k)|, x), v)
  {
  }

  // ---------------------------------------------------------------------------------------------
  // Deletion
  // ---------------------------------------------------------------------------------------------

  /** First used slot other than `nib`. */
  function OtherSlot(children: seq<Node>, nib: nat, from: nat := 0): (j: Option<nat>)
    requires from <= |children|
    ensures j.Some? ==> j.value < |children| && j.value != nib && !children[j.value].Empty?
    ensures j.None? ==> forall i :: from <= i < |children| && i != nib ==> children[i].Empty?
    decreases |children| - from
  {
    if from == |children| then None
    else if from != nib && !children[from].Empty? then Some(from)
    else OtherSlot(children, nib, from + 1)
  }

  function CollapseExt(n: Key, child: Node, k: Key, s: OnOrphanedHashNode): (r: Result<Node, TrieError>)
    requires child.Wf()
    ensures r.Ok? ==> r.value.Wf()
  {
    match child
    case Branch(_, _) => Ok(Extension(n, child))
    case Extension(m, grandchild) => Ok(Extension(n + m, grandchild))
    case Leaf(m, value) => Ok(Leaf(n + m, value))
    case Hash(h) => if s.CollapseToExtension? then Ok(Extension(n, child))
                    else Err(ExtensionCollapsedIntoHash(k + n, h))
    case Empty => Err(HashNodeExt)
  }

  function TryCollapse(t: Node, k: Key, s: OnOrphanedHashNode): (r: Result<Node, TrieError>)
    requires t.Wf()
    ensures r.Ok? ==> r.value.Wf()
  {
    if t.Extension? then CollapseExt(t.nibbles, t.child, k, s) else Ok(t)
  }

  /** The branch node after its child in slot `nib` became `updated`. */
  function RebuildBranch(children: seq<Node>, value: Bytes, nib: Nibble, updated: Node, k: Key,
                         s: OnOrphanedHashNode): (r: Result<Node, TrieError>)
    requires Branch(children, value).Wf() && updated.Wf()
    ensures r.Ok? ==> r.value.Wf()
  {
    if updated.Empty? && |UsedSlots(children)| <= 2 then
      match OtherSlot(children, nib)
      case Some(j) => Ok(Extension([j], children[j]))
      case None => Err(Panic)
    else
      var child :- TryCollapse(updated, k, s);
      Ok(Branch(WithSlot(children, nib, child), value))
  }

  /** Below the root: the new node and the deleted value, or None when there is nothing to delete.
      A new node that is an extension may still have to be merged with what is above it. */
  function DeleteIntern(t: Node, k: Key, s: OnOrphanedHashNode): (r: Result<Option<(Node, Bytes)>, TrieError>)
    requires t.Wf()
    ensures r.Ok? && r.value.Some? ==> r.value.value.0.Wf()
    decreases t
  {
    match t
    case Empty => Ok(None)
    case Hash(h) => Err(HashNodeDelete(h))
    case Branch(children, value) =>
      if k == [] then Ok(Some((Branch(children, []), value)))
      else
        var res :- DeleteIntern(children[k[0]], k[1..], s);
        if res.None? then Ok(None)
        else
          var node :- RebuildBranch(children, value, k[0], res.value.0, k[1..], s);
          Ok(Some((node, res.value.1)))
    case Extension(n, child) =>
      if !Agree(n, k) then Ok(None)
      else
        var res :- DeleteIntern(child, DropClamped(k, |n|), s);
        if res.None? then Ok(None)
        else
          var node :- CollapseExt(n, res.value.0, DropClamped(k, |n|), s);
          Ok(Some((node, res.value.1)))
    case Leaf(n, value) => Ok(if n == k then Some((Empty, value)) else None)
  }

  /** Deletion at the root, with the final merge of a top-level extension. */
  function Delete(t: Node, k: Key, s: OnOrphanedHashNode): (r: Result<Option<(Node, Bytes)>, TrieError>)
    requires t.Wf()
    ensures r.Ok? && r.value.Some? ==> r.value.value.0.Wf()
  {
    var res :- DeleteIntern(t, k, s);
    if res.None? then Ok(None)
    else
      var root :- TryCollapse(res.value.0, [], s);
      Ok(Some((root, res.value.1)))
  }

  // ---------------------------------------------------------------------------------------------
  // Lookup by key
  // ---------------------------------------------------------------------------------------------

  function Get(t: Node, k: Key): Result<Option<Bytes>, TrieError>
    requires t.Wf()
    decreases t
  {
    match t
    case Empty => Ok(None)
    case Hash(_) => Ok(None)
    case Branch(children, value) =>
      if k == [] then Ok(if value != [] then Some(value) else None)
      else Get(children[k[0]], k[1..])
    case Extension(n, child) =>
      if |k| < |n| then Err(Panic)
      else if n <= k then Get(child, k[|n|..])
      else Ok(None)
    case Leaf(n, value) => Ok(if Agree(n, k) then Some(value) else None)
  }
}
