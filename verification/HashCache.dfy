/** The trie with lazily cached hashes: every wrapped node carries a cell, and nodes share subtrees. */
module HashCache {
  import opened Wrappers
  import opened Nibbles
  import opened PartialTrie
  import opened TrieOps
  import opened TrieHashing

  /** The cache cell of a wrapped node. The node it was made for never changes. */
  class HashCell {
    ghost const of: Node
    var hash: Option<H256>

    constructor (ghost of: Node)
      ensures this.of == of && hash.None?
    {
      this.of := of;
      hash := None;
    }

    /** A cached hash is the hash of the node. */
    ghost predicate Right(keccak: Hasher)
      reads this
    {
      hash.Some? ==> Encode(of, keccak) == Hashed(hash.value)
    }
  }

  datatype Wrapped = Wrapped(node: HNode, cell: HashCell)

  datatype HNode =
    | HEmpty
    | HHash(hash: H256)
    | HBranch(children: seq<Wrapped>, value: Bytes)
    | HExtension(nibbles: Key, child: Wrapped)
    | HLeaf(nibbles: Key, value: Bytes)

  /** The trie without its cells. */
  ghost function Erase(n: HNode): Node
    decreases n
  {
    match n
    case HEmpty => Empty
    case HHash(h) => Hash(h)
    case HBranch(children, value) => Branch(seq(|children|, i requires 0 <= i < |children| => Erase(children[i].node)), value)
    case HExtension(k, child) => Extension(k, Erase(child.node))
    case HLeaf(k, value) => Leaf(k, value)
  }

  /** Every cell belongs to the node next to it, and is one of the given cells. */
  ghost predicate Owned(n: HNode, cells: set<HashCell>)
    decreases n
  {
    match n
    case HBranch(children, _) => forall i :: 0 <= i < |children| ==> OwnedWrapped(children[i], cells)
    case HExtension(_, child) => OwnedWrapped(child, cells)
    case _ => true
  }

  ghost predicate OwnedWrapped(w: Wrapped, cells: set<HashCell>)
    decreases w
  {
    w.cell in cells && w.cell.of == Erase(w.node) && Owned(w.node, cells)
  }

  lemma {:induction false} OwnedGrows(n: HNode, cells: set<HashCell>, more: set<HashCell>)
    requires Owned(n, cells) && cells <= more
    ensures Owned(n, more)
    decreases n
  {
    match n
    case HBranch(children, _) =>
      forall i | 0 <= i < |children| ensures OwnedWrapped(children[i], more) {
        OwnedGrows(children[i].node, cells, more);
      }
    case HExtension(_, child) => OwnedGrows(child.node, cells, more);
    case _ =>
  }

  ghost predicate AllRight(cells: set<HashCell>, keccak: Hasher)
    reads cells
  {
    forall c :: c in cells ==> c.Right(keccak)
  }

  // ---------------------------------------------------------------------------------------------
  // Hashing fills cells
  // ---------------------------------------------------------------------------------------------

  method HashIntern(w: Wrapped, keccak: Hasher, ghost cells: set<HashCell>) returns (e: Encoded)
    requires OwnedWrapped(w, cells) && AllRight(cells, keccak)
    modifies cells
    ensures e == Encode(Erase(w.node), keccak) && AllRight(cells, keccak)
    decreases w
  {
    if w.cell.hash.Some? { return Hashed(w.cell.hash.value); }
    e := EncodeNode(w.node, keccak, cells);
    if e.Hashed? { w.cell.hash := Some(e.hash); }
  }

  method EncodeNode(n: HNode, keccak: Hasher, ghost cells: set<HashCell>) returns (e: Encoded)
    requires Owned(n, cells) && AllRight(cells, keccak)
    modifies cells
    ensures e == Encode(Erase(n), keccak) && AllRight(cells, keccak)
    decreases n
  {
    match n {
      case HEmpty => e := Raw([0x80]);
      case HHash(h) => e := Hashed(h);
      case HBranch(children, value) =>
        var encoded: seq<Encoded> := [];
        for i := 0 to |children|
          invariant |encoded| == i && AllRight(cells, keccak)
          invariant forall j :: 0 <= j < i ==> encoded[j] == Encode(Erase(children[j].node), keccak)
        {
          var c := HashIntern(children[i], keccak, cells);
          encoded := encoded + [c];
        }
        assert encoded == seq(|children|, i requires 0 <= i < |children| => Encode(Erase(n).children[i], keccak));
        e := HashIfLarge(RlpList(AppendAll(encoded) + RlpString(value)), keccak);
      case HExtension(k, child) =>
        var c := HashIntern(child, keccak, cells);
        e := HashIfLarge(RlpList(RlpString(HexPrefix(k, false)) + Append(c)), keccak);
      case HLeaf(k, value) =>
        e := HashIfLarge(RlpList(RlpString(HexPrefix(k, true)) + RlpString(value)), keccak);
    }
  }

  // ---------------------------------------------------------------------------------------------
  // Insertion and deletion share subtrees and make new cells
  // ---------------------------------------------------------------------------------------------

  ghost predicate AllEmpty(cells: set<HashCell>)
    reads cells
  {
    forall c :: c in cells ==> c.hash.None?
  }

  method Wrap(n: HNode, ghost cells: set<HashCell>) returns (w: Wrapped, ghost made: set<HashCell>)
    requires Owned(n, cells)
    ensures w.node == n && fresh(made) && AllEmpty(made) && OwnedWrapped(w, cells + made)
  {
    var cell := new HashCell(Erase(n));
    w, made := Wrapped(n, cell), {cell};
    OwnedGrows(n, cells, cells + made);
  }

  method NodeOfEntryH(k: Key, v: Entry) returns (w: Wrapped, ghost made: set<HashCell>)
    ensures Erase(w.node) == NodeOfEntry(k, v)
    ensures fresh(made) && AllEmpty(made) && OwnedWrapped(w, made)
  {
    match v {
      case Val(value) =>
        w, made := Wrap(HLeaf(k, value), {});
        assert {} + made == made;
      case HashOf(h) =>
        w, made := Wrap(HHash(h), {});
        assert {} + made == made;
        if k != [] {
          ghost var more;
          w, more := Wrap(HExtension(k, w), made);
          made := made + more;
        }
    }
  }

  method EmptyChildrenH() returns (c: seq<Wrapped>, ghost made: set<HashCell>)
    ensures |c| == 16 && forall i :: 0 <= i < 16 ==> c[i].node.HEmpty? && OwnedWrapped(c[i], made)
    ensures fresh(made) && AllEmpty(made)
  {
    c, made := [], {};
    for i := 0 to 16
      invariant |c| == i && forall j :: 0 <= j < i ==> c[j].node.HEmpty? && OwnedWrapped(c[j], made)
      invariant fresh(made) && AllEmpty(made)
    {
      var w, more := Wrap(HEmpty, {});
      c, made := c + [w], made + more;
    }
  }

  /** Replacing one child: the trie, and who owns the cells. */
  lemma ReplaceSlot(children: seq<Wrapped>, i: nat, w: Wrapped, value: Bytes, value': Bytes, cells: set<HashCell>, more: set<HashCell>)
    requires i < |children| && Owned(HBranch(children, value'), cells) && OwnedWrapped(w, more) && cells <= more
    ensures Erase(HBranch(children[i := w], value)) == Branch(Erase(HBranch(children, value')).children[i := Erase(w.node)], value)
    ensures Owned(HBranch(children[i := w], value), more)
  {
    OwnedGrows(HBranch(children, value'), cells, more);
  }

  method ForkH(n: Key, k: Key, existing: Wrapped, v: Entry, ghost cells: set<HashCell>)
      returns (r: Result<HNode, TrieError>, ghost made: set<HashCell>)
    requires OwnedWrapped(existing, cells) && Erase(existing.node).Wf()
    requires n != k && (|CommonPrefix(n, k)| < |n| || existing.node.HLeaf?)
    ensures fresh(made) && AllEmpty(made)
    ensures match Fork(n, k, Erase(existing.node), v)
      case Ok(t) => r.Ok? && Erase(r.value) == t && Owned(r.value, cells + made)
      case Err(e) => r == Err(e)
  {
    var i := |CommonPrefix(n, k)|;
    var children, blank := EmptyChildrenH();
    made := blank;
    assert Erase(HBranch(children, [])).children == EmptyChildren();
    if i == |n| {
      var entry, more := NodeOfEntryH(k[i + 1..], v);
      made := blank + more;
      OwnedGrows(entry.node, more, cells + made);
      ReplaceSlot(children, k[i], entry, existing.node.value, [], blank, cells + made);
      r := Ok(HBranch(children[k[i] := entry], existing.node.value));
    } else if i == |k| {
      if v.HashOf? { return Err(Panic), made; }
      OwnedGrows(existing.node, cells, cells + made);
      ReplaceSlot(children, n[i], existing, v.value, [], blank, cells + made);
      r := Ok(HBranch(children[n[i] := existing], v.value));
    } else {
      var entry, more := NodeOfEntryH(k[i + 1..], v);
      made := blank + more;
      OwnedGrows(entry.node, more, cells + made);
      OwnedGrows(existing.node, cells, cells + made);
      ReplaceSlot(children, n[i], existing, [], [], blank, cells + made);
      ReplaceSlot(children[n[i] := existing], k[i], entry, [], [], cells + made, cells + made);
      r := Ok(HBranch(children[n[i] := existing][k[i] := entry], []));
    }
  }

  method PlaceBranchH(n: Key, k: Key, existing: Wrapped, v: Entry, ghost cells: set<HashCell>)
      returns (r: Result<Wrapped, TrieError>, ghost made: set<HashCell>)
    requires OwnedWrapped(existing, cells) && Erase(existing.node).Wf()
    requires n != k && (|CommonPrefix(n, k)| < |n| || existing.node.HLeaf?)
    ensures fresh(made) && AllEmpty(made)
    ensures match PlaceBranch(n, k, Erase(existing.node), v)
      case Ok(t) => r.Ok? && Erase(r.value.node) == t && OwnedWrapped(r.value, cells + made)
      case Err(e) => r == Err(e)
  {
    var fork, made1 := ForkH(n, k, existing, v, cells);
    made := made1;
    if fork.Err? { return Err(fork.error), made; }
    var branch, made2 := Wrap(fork.value, cells + made1);
    made := made + made2;
    assert cells + made1 + made2 == cells + made;
    if CommonPrefix(n, k) == [] { return Ok(branch), made; }
    var ext, made3 := Wrap(HExtension(CommonPrefix(n, k), branch), cells + made);
    assert cells + made + made3 == cells + (made + made3);
    made := made + made3;
    r := Ok(ext);
  }

  method SplitExtensionH(ext: Key, child: Wrapped, k: Key, v: Entry, ghost cells: set<HashCell>)
      returns (r: Result<Wrapped, TrieError>, ghost made: set<HashCell>)
    requires OwnedWrapped(child, cells) && Erase(child.node).Wf() && !Agree(ext, k)
    ensures fresh(made) && AllEmpty(made)
    ensures match InsertRec(Extension(ext, Erase(child.node)), k, v)
      case Ok(t) => r.Ok? && Erase(r.value.node) == t && OwnedWrapped(r.value, cells + made)
      case Err(e) => r == Err(e)
  {
    var i := CommonPrefixLen(ext, k);
    SplitIsPlaced(ext, Erase(child.node), k, v);
    var existing, made1 := BehindH(ext, i, child, cells);
    var w, made2 := PlaceBranchH(ext, k, existing, v, cells + made1);
    UnionRegroup(cells, made1, made2);
    r, made := w, made1 + made2;
  }

  lemma UnionRegroup(a: set<HashCell>, b: set<HashCell>, c: set<HashCell>)
    ensures a + b + c == a + (b + c)
  {
  }

  /** The old child of an extension, without the nibbles up to and with the i-th. */
  method BehindH(ext: Key, i: nat, child: Wrapped, ghost cells: set<HashCell>)
      returns (w: Wrapped, ghost made: set<HashCell>)
    requires i < |ext| && OwnedWrapped(child, cells) && Erase(child.node).Wf()
    ensures fresh(made) && AllEmpty(made) && OwnedWrapped(w, cells + made)
    ensures Erase(w.node) == Behind(ext, i, Erase(child.node))
  {
    if ext[i + 1..] != [] {
      w, made := Wrap(HExtension(ext[i + 1..], child), cells);
    } else {
      w, made := child, {};
      assert cells + {} == cells;
    }
  }

  method SplitLeafH(nibs: Key, value: Bytes, k: Key, v: Entry, ghost cells: set<HashCell>)
      returns (r: Result<Wrapped, TrieError>, ghost made: set<HashCell>)
    requires nibs != k
    ensures fresh(made) && AllEmpty(made)
    ensures match InsertRec(Leaf(nibs, value), k, v)
      case Ok(t) => r.Ok? && Erase(r.value.node) == t && OwnedWrapped(r.value, cells + made)
      case Err(e) => r == Err(e)
  {
    var e, made1 := Wrap(HLeaf(DropClamped(nibs, CommonPrefixLen(nibs, k) + 1), value), cells);
    var w, made2 := PlaceBranchH(nibs, k, e, v, cells + made1);
    assert cells + made1 + made2 == cells + (made1 + made2);
    r, made := w, made1 + made2;
  }

  method InsertH(n: HNode, k: Key, v: Entry, ghost cells: set<HashCell>)
      returns (r: Result<Wrapped, TrieError>, ghost made: set<HashCell>)
    requires Owned(n, cells) && Erase(n).Wf()
    ensures fresh(made) && AllEmpty(made)
    ensures match InsertRec(Erase(n), k, v)
      case Ok(t) => r.Ok? && Erase(r.value.node) == t && OwnedWrapped(r.value, cells + made)
      case Err(e) => r == Err(e)
    decreases n
  {
    made := {};
    match n {
      case HEmpty =>
        var w, m := NodeOfEntryH(k, v);
        OwnedGrows(w.node, m, cells + m);
        r, made := Ok(w), m;
      case HHash(h) => r := Err(HashNodeInsert(h));
      case HBranch(children, value) =>
        if k == [] {
          if v.HashOf? { return Err(ExistingHashNode(v.hash)), made; }
          var w, m := Wrap(HBranch(children, v.value), cells);
          assert Erase(w.node).children == Erase(n).children;
          return Ok(w), m;
        }
        assert Erase(n).children[k[0]].Wf();
        var c, made1 := InsertH(children[k[0]].node, k[1..], v, cells);
        made := made1;
        if c.Err? { return Err(c.error), made; }
        ReplaceSlot(children, k[0], c.value, value, value, cells, cells + made1);
        var w, made2 := Wrap(HBranch(children[k[0] := c.value], value), cells + made1);
        assert cells + made1 + made2 == cells + (made1 + made2);
        r, made := Ok(w), made1 + made2;
      case HExtension(ext, child) =>
        if Agree(ext, k) {
          var c, made1 := InsertH(child.node, DropClamped(k, |ext|), v, cells);
          made := made1;
          if c.Err? { return Err(c.error), made; }
          var w, made2 := Wrap(HExtension(ext, c.value), cells + made1);
          assert cells + made1 + made2 == cells + (made1 + made2);
          r, made := Ok(w), made1 + made2;
        } else {
          r, made := SplitExtensionH(ext, child, k, v, cells);
        }
      case HLeaf(nibs, value) =>
        if nibs == k {
          if v.HashOf? { return Err(ExistingHashNode(v.hash)), made; }
          var w, m := Wrap(HLeaf(nibs, v.value), cells);
          return Ok(w), m;
        }
        r, made := SplitLeafH(nibs, value, k, v, cells);
    }
  }

  method CollapseExtH(n: Key, child: Wrapped, k: Key, s: OnOrphanedHashNode, ghost cells: set<HashCell>)
      returns (r: Result<Wrapped, TrieError>, ghost made: set<HashCell>)
    requires OwnedWrapped(child, cells) && Erase(child.node).Wf()
    ensures fresh(made) && AllEmpty(made)
    ensures match CollapseExt(n, Erase(child.node), k, s)
      case Ok(t) => r.Ok? && Erase(r.value.node) == t && OwnedWrapped(r.value, cells + made)
      case Err(e) => r == Err(e)
  {
    var w: Wrapped;
    match child.node {
      case HBranch(_, _) => w, made := Wrap(HExtension(n, child), cells);
      case HExtension(m, grandchild) => w, made := Wrap(HExtension(n + m, grandchild), cells);
      case HLeaf(m, value) => w, made := Wrap(HLeaf(n + m, value), cells);
      case HHash(h) =>
        if s.Reject? { return Err(ExtensionCollapsedIntoHash(k + n, h)), {}; }
        w, made := Wrap(HExtension(n, child), cells);
      case HEmpty => return Err(HashNodeExt), {};
    }
    r := Ok(w);
  }

  method TryCollapseH(w: Wrapped, k: Key, s: OnOrphanedHashNode, ghost cells: set<HashCell>)
      returns (r: Result<Wrapped, TrieError>, ghost made: set<HashCell>)
    requires OwnedWrapped(w, cells) && Erase(w.node).Wf()
    ensures fresh(made) && AllEmpty(made)
    ensures match TryCollapse(Erase(w.node), k, s)
      case Ok(t) => r.Ok? && Erase(r.value.node) == t && OwnedWrapped(r.value, cells + made)
      case Err(e) => r == Err(e)
  {
    if w.node.HExtension? {
      r, made := CollapseExtH(w.node.nibbles, w.node.child, k, s, cells);
    } else {
      assert cells + {} == cells;
      r, made := Ok(w), {};
    }
  }

  /** Number of used slots, counted one by one. */
  method CountUsed(children: seq<Wrapped>) returns (count: nat)
    ensures count == |UsedSlots(Erase(HBranch(children, [])).children)|
  {
    ghost var erased := Erase(HBranch(children, [])).children;
    count := 0;
    ghost var seen: set<nat> := {};
    for i := 0 to |children|
      invariant seen == (set j: nat | j < i && !erased[j].Empty?) && count == |seen|
    {
      assert erased[i] == Erase(children[i].node);
      if !children[i].node.HEmpty? {
        seen := seen + {i};
        count := count + 1;
      }
    }
    assert seen == UsedSlots(erased);
  }

  method OtherSlotH(children: seq<Wrapped>, nib: nat) returns (j: Option<nat>)
    ensures j == OtherSlot(Erase(HBranch(children, [])).children, nib)
  {
    ghost var erased := Erase(HBranch(children, [])).children;
    for i := 0 to |children|
      invariant OtherSlot(erased, nib) == OtherSlot(erased, nib, i)
    {
      assert erased[i] == Erase(children[i].node);
      if i != nib && !children[i].node.HEmpty? { return Some(i); }
    }
    j := None;
  }

  method RebuildBranchH(children: seq<Wrapped>, value: Bytes, nib: Nibble, updated: Wrapped, k: Key, s: OnOrphanedHashNode,
                        ghost cells: set<HashCell>)
      returns (r: Result<Wrapped, TrieError>, ghost made: set<HashCell>)
    requires Owned(HBranch(children, value), cells) && OwnedWrapped(updated, cells)
    requires Erase(HBranch(children, value)).Wf() && Erase(updated.node).Wf()
    ensures fresh(made) && AllEmpty(made)
    ensures match RebuildBranch(Erase(HBranch(children, value)).children, value, nib, Erase(updated.node), k, s)
      case Ok(t) => r.Ok? && Erase(r.value.node) == t && OwnedWrapped(r.value, cells + made)
      case Err(e) => r == Err(e)
  {
    var used := CountUsed(children);
    if updated.node.HEmpty? && used <= 2 {
      var j := OtherSlotH(children, nib);
      if j.None? { return Err(Panic), {}; }
      var w, m := Wrap(HExtension([j.value], children[j.value]), cells);
      return Ok(w), m;
    }
    var c, made1 := TryCollapseH(updated, k, s, cells);
    made := made1;
    if c.Err? { return Err(c.error), made; }
    ReplaceSlot(children, nib, c.value, value, value, cells, cells + made1);
    var w, made2 := Wrap(HBranch(children[nib := c.value], value), cells + made1);
    assert cells + made1 + made2 == cells + (made1 + made2);
    r, made := Ok(w), made1 + made2;
  }

  method DeleteInternH(n: HNode, k: Key, s: OnOrphanedHashNode, ghost cells: set<HashCell>)
      returns (r: Result<Option<(Wrapped, Bytes)>, TrieError>, ghost made: set<HashCell>)
    requires Owned(n, cells) && Erase(n).Wf()
    ensures fresh(made) && AllEmpty(made)
    ensures DeleteIntern(Erase(n), k, s).Err? ==> r == Err(DeleteIntern(Erase(n), k, s).error)
    ensures DeleteIntern(Erase(n), k, s).Ok? ==> r.Ok? && Matches(r.value, DeleteIntern(Erase(n), k, s).value, cells + made)
    decreases n
  {
    made := {};
    assert cells + {} == cells;
    match n {
      case HEmpty => r := Ok(None);
      case HHash(h) => r := Err(HashNodeDelete(h));
      case HBranch(children, value) =>
        if k == [] {
          var w, m := Wrap(HBranch(children, []), cells);
          assert Erase(w.node).children == Erase(n).children;
          return Ok(Some((w, value))), m;
        }
        assert Erase(n).children[k[0]].Wf();
        var res, made1 := DeleteInternH(children[k[0]].node, k[1..], s, cells);
        made := made1;
        if res.Err? { return Err(res.error), made; }
        if res.value.None? { return Ok(None), made; }
        OwnedGrows(n, cells, cells + made1);
        var w, made2 := RebuildBranchH(children, value, k[0], res.value.value.0, k[1..], s, cells + made1);
        assert cells + made1 + made2 == cells + (made1 + made2);
        made := made1 + made2;
        if w.Err? { return Err(w.error), made; }
        r := Ok(Some((w.value, res.value.value.1)));
      case HExtension(ext, child) =>
        if !Agree(ext, k) { return Ok(None), made; }
        var res, made1 := DeleteInternH(child.node, DropClamped(k, |ext|), s, cells);
        made := made1;
        if res.Err? { return Err(res.error), made; }
        if res.value.None? { return Ok(None), made; }
        var w, made2 := CollapseExtH(ext, res.value.value.0, DropClamped(k, |ext|), s, cells + made1);
        assert cells + made1 + made2 == cells + (made1 + made2);
        made := made1 + made2;
        if w.Err? { return Err(w.error), made; }
        r := Ok(Some((w.value, res.value.value.1)));
      case HLeaf(nibs, value) =>
        if nibs != k { return Ok(None), made; }
        var w, m := Wrap(HEmpty, cells);
        r, made := Ok(Some((w, value))), m;
    }
  }

  /** The result of a deletion on wrapped nodes, against the result on plain nodes. */
  ghost predicate Matches(r: Option<(Wrapped, Bytes)>, t: Option<(Node, Bytes)>, cells: set<HashCell>) {
    && r.Some? == t.Some?
    && (r.Some? ==>
          Erase(r.value.0.node) == t.value.0 && OwnedWrapped(r.value.0, cells) && r.value.1 == t.value.1)
  }
}
