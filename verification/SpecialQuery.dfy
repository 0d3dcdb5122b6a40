/** The nodes met while looking for a key, as a lazy iterator and as the list it goes through. */
module SpecialQuery {
  import opened Wrappers
  import opened Nibbles
  import opened PartialTrie

  datatype Segment = EmptySeg | HashSeg | BranchSeg(nibble: Nibble) | ExtensionSeg(nibbles: Key) | LeafSeg(nibbles: Key)

  /** The whole path. With `last`, the final node is listed even when the key does not match it. */
  function Path(t: Node, k: Key, last: bool): seq<Segment>
    requires t.Wf()
    decreases t
  {
    match t
    case Empty => [EmptySeg]
    case Hash(_) => [HashSeg]
    case Branch(children, _) => if k == [] then [] else [BranchSeg(k[0])] + Path(children[k[0]], k[1..], last)
    case Extension(n, child) =>
      if Agree(k, n) then [ExtensionSeg(n)] + Path(child, DropClamped(k, |n|), last)
      else if last then [ExtensionSeg(n)] else []
    case Leaf(n, _) => if k == n || last then [LeafSeg(n)] else []
  }

  function SegmentKey(seg: Segment): Key {
    match seg
    case BranchSeg(nib) => [nib]
    case ExtensionSeg(n) => n
    case LeafSeg(n) => n
    case _ => []
  }

  /** The key that a path spells. */
  function IntoKey(path: seq<Segment>): Key {
    if path == [] then [] else SegmentKey(path[0]) + IntoKey(path[1..])
  }

  class TriePathIter {
    var currNode: Node
    var currKey: Key
    var terminated: bool
    const last: bool

    constructor (t: Node, k: Key, last: bool)
      requires t.Wf()
      ensures Valid() && Remaining() == Path(t, k, last)
    {
      currNode, currKey, terminated := t, k, false;
      this.last := last;
    }

    ghost predicate Valid()
      reads this
    {
      currNode.Wf()
    }

    /** The segments still to come. */
    ghost function Remaining(): seq<Segment>
      requires Valid()
      reads this
    {
      if terminated then [] else Path(currNode, currKey, last)
    }

    method Next() returns (seg: Option<Segment>)
      requires Valid()
      modifies this
      ensures Valid()
      ensures seg == if old(Remaining()) == [] then None else Some(old(Remaining())[0])
      ensures Remaining() == if old(Remaining()) == [] then [] else old(Remaining())[1..]
    {
      if terminated {
        return None;
      }
      match currNode {
        case Empty =>
          terminated := true;
          seg := Some(EmptySeg);
        case Hash(_) =>
          terminated := true;
          seg := Some(HashSeg);
        case Branch(children, _) =>
          if currKey == [] {
            terminated := true;
            return None;
          }
          var nib := currKey[0];
          currKey := currKey[1..];
          currNode := children[nib];
          seg := Some(BranchSeg(nib));
        case Extension(n, child) =>
          if Agree(currKey, n) {
            currKey := DropClamped(currKey, |n|);
            currNode := child;
            seg := Some(ExtensionSeg(n));
          } else {
            terminated := true;
            seg := if last then Some(ExtensionSeg(n)) else None;
          }
        case Leaf(n, _) =>
          terminated := true;
          seg := if currKey == n || last then Some(LeafSeg(n)) else None;
      }
    }
  }

  /** Collecting the iterator gives the path. */
  method CollectPath(t: Node, k: Key, last: bool) returns (path: seq<Segment>)
    requires t.Wf()
    ensures path == Path(t, k, last)
  {
    var iter := new TriePathIter(t, k, last);
    path := [];
    while true
      invariant iter.Valid() && fresh(iter)
      invariant path + iter.Remaining() == Path(t, k, last)
      decreases |iter.Remaining()|
    {
      var seg := iter.Next();
      if seg.None? { return; }
      path := path + [seg.value];
    }
  }
}
