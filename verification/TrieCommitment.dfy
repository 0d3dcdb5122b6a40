/** The root hash commits to the trie: when the hash function tells the encodings of two tries apart,
    equal roots mean equal tries, up to subtrees that one of them hides behind a digest. */
module TrieCommitment {
  import opened Wrappers
  import opened Nibbles
  import opened PartialTrie
  import opened TrieHashing
  import opened RlpItems
  import opened InsertContent
  import opened InsertMany
  import opened TrieOps
  import opened TrieRuns

  // ---------------------------------------------------------------------------------------------
  // What is hashed
  // ---------------------------------------------------------------------------------------------

  function EncodeChildren(children: seq<Node>, keccak: Hasher): (es: seq<Encoded>)
    ensures |es| == |children| && forall i :: 0 <= i < |children| ==> es[i] == Encode(children[i], keccak)
  {
    seq(|children|, i requires 0 <= i < |children| => Encode(children[i], keccak))
  }

  /** The content of a node's RLP list. */
  function Payload(t: Node, keccak: Hasher): Bytes {
    match t
    case Branch(children, value) => AppendAll(EncodeChildren(children, keccak)) + RlpString(value)
    case Extension(n, child) => RlpString(HexPrefix(n, false)) + Append(Encode(child, keccak))
    case Leaf(n, value) => RlpString(HexPrefix(n, true)) + RlpString(value)
    case _ => []
  }

  /** The bytes a node is encoded as, before they are hashed when there are 32 or more. */
  function NodeBytes(t: Node, keccak: Hasher): Bytes {
    if t.Empty? then [0x80] else RlpList(Payload(t, keccak))
  }

  lemma EncodeIsHashed(t: Node, keccak: Hasher)
    ensures Encode(t, keccak) == if t.Hash? then Hashed(t.hash) else HashIfLarge(NodeBytes(t, keccak), keccak)
    ensures t.Branch? ==> forall i :: 0 <= i < |t.children| ==>
      EncodeChildren(t.children, keccak)[i] == Encode(t.children[i], keccak)
  {
    if t.Branch? {
      assert EncodeChildren(t.children, keccak)
          == seq(|t.children|, i requires 0 <= i < |t.children| => Encode(t.children[i], keccak));
    }
  }

  /** The byte strings whose hashes the trie's hash is made of. */
  function Preimages(t: Node, keccak: Hasher): set<Bytes>
    decreases t
  {
    match t
    case Hash(_) => {}
    case Branch(children, _) =>
      {NodeBytes(t, keccak)} + (set i, b | 0 <= i < |children| && b in Preimages(children[i], keccak) :: b)
    case Extension(_, child) => {NodeBytes(t, keccak)} + Preimages(child, keccak)
    case _ => {NodeBytes(t, keccak)}
  }

  /** No two of these byte strings collide. */
  ghost predicate Separates(keccak: Hasher, inputs: set<Bytes>) {
    forall x, y :: x in inputs && y in inputs && keccak(x) == keccak(y) ==> x == y
  }

  /** All encodings have lengths that fit in 64 bits, as they have on the machine. */
  ghost predicate FitsMachine(t: Node, keccak: Hasher)
    decreases t
  {
    && Short(|Payload(t, keccak)|)
    && match t
       case Branch(children, _) => forall i :: 0 <= i < |children| ==> FitsMachine(children[i], keccak)
       case Extension(_, child) => FitsMachine(child, keccak)
       case _ => true
  }

  // ---------------------------------------------------------------------------------------------
  // Reading a node's bytes back
  // ---------------------------------------------------------------------------------------------

  /** A reference to a child is one item, and tells its encoding. */
  lemma ReferenceIsItem(t: Node, keccak: Hasher)
    requires FitsMachine(t, keccak)
    ensures IsItem(Append(Encode(t, keccak)))
    ensures Encode(t, keccak).Raw? ==> Append(Encode(t, keccak))[0] == 0x80 || Append(Encode(t, keccak))[0] >= 0xc0
  {
    EncodeIsHashed(t, keccak);
    if t.Hash? {
      HashIsItem(t.hash);
    } else if t.Empty? {
      assert RlpString([]) == [0x80];
      StringIsItem([]);
    } else {
      ListIsItem(Payload(t, keccak));
      if Encode(t, keccak).Hashed? { HashIsItem(Encode(t, keccak).hash); }
    }
  }

  lemma HashIsItem(h: H256)
    ensures IsItem(RlpString(h)) && RlpString(h)[0] == 0xa0
  {
    StringIsItem(h);
  }

  lemma ReferenceTells(a: Node, b: Node, keccak: Hasher)
    requires FitsMachine(a, keccak) && FitsMachine(b, keccak)
    requires Append(Encode(a, keccak)) == Append(Encode(b, keccak))
    ensures Encode(a, keccak) == Encode(b, keccak)
  {
    var x, y := Encode(a, keccak), Encode(b, keccak);
    ReferenceIsItem(a, keccak);
    ReferenceIsItem(b, keccak);
    if x.Hashed? { HashIsItem(x.hash); }
    if y.Hashed? { HashIsItem(y.hash); }
    if x.Hashed? && y.Hashed? { StringInjective(x.hash, y.hash); }
  }

  lemma {:induction false} ReferencesTell(a: seq<Node>, b: seq<Node>, r: Bytes, s: Bytes, keccak: Hasher)
    requires |a| == |b|
    requires forall i :: 0 <= i < |a| ==> FitsMachine(a[i], keccak) && FitsMachine(b[i], keccak)
    requires AppendAll(EncodeChildren(a, keccak)) + r == AppendAll(EncodeChildren(b, keccak)) + s
    ensures r == s && forall i :: 0 <= i < |a| ==> Encode(a[i], keccak) == Encode(b[i], keccak)
    decreases |a|
  {
    if a == [] {
      assert [] + r == r && [] + s == s;
    } else {
      FirstReference(a, keccak);
      FirstReference(b, keccak);
      var x, y := AppendAll(EncodeChildren(a[1..], keccak)), AppendAll(EncodeChildren(b[1..], keccak));
      ConcatAssoc(Append(Encode(a[0], keccak)), x, r);
      ConcatAssoc(Append(Encode(b[0], keccak)), y, s);
      ReferenceIsItem(a[0], keccak);
      ReferenceIsItem(b[0], keccak);
      ItemsCancel(Append(Encode(a[0], keccak)), Append(Encode(b[0], keccak)), x + r, y + s);
      ReferenceTells(a[0], b[0], keccak);
      ReferencesTell(a[1..], b[1..], r, s, keccak);
      assert forall i :: 0 < i < |a| ==> a[i] == a[1..][i - 1] && b[i] == b[1..][i - 1];
    }
  }

  lemma FirstReference(a: seq<Node>, keccak: Hasher)
    requires a != []
    ensures AppendAll(EncodeChildren(a, keccak))
         == Append(Encode(a[0], keccak)) + AppendAll(EncodeChildren(a[1..], keccak))
  {
    assert EncodeChildren(a, keccak)[1..] == EncodeChildren(a[1..], keccak);
  }

  /** A list of two items is not a list that goes on behind its second. */
  lemma TwoIsNotMore(a: Bytes, b: Bytes, more: Bytes, x: Bytes, y: Bytes)
    requires IsItem(a) && IsItem(b) && IsItem(x) && IsItem(y) && more != []
    ensures a + (b + more) != x + y
  {
    if a + (b + more) == x + y {
      ItemsCancel(a, x, b + more, y);
      assert y == y + [];
      ItemsCancel(b, y, more, []);
    }
  }

  lemma FirstTwo(children: seq<Node>, keccak: Hasher)
    requires |children| >= 2
    ensures AppendAll(EncodeChildren(children, keccak))
         == Append(Encode(children[0], keccak)) + (Append(Encode(children[1], keccak)) + AppendAll(EncodeChildren(children[2..], keccak)))
  {
    FirstReference(children, keccak);
    FirstReference(children[1..], keccak);
    assert children[1..][1..] == children[2..];
  }

  lemma TwoIsNotSeventeen(children: seq<Node>, value: Bytes, x: Bytes, y: Bytes, keccak: Hasher)
    requires |children| == 16 && IsItem(x) && IsItem(y)
    requires forall i :: 0 <= i < 16 ==> FitsMachine(children[i], keccak)
    ensures AppendAll(EncodeChildren(children, keccak)) + RlpString(value) != x + y
  {
    FirstTwo(children, keccak);
    FirstReference(children[2..], keccak);
    ReferenceIsItem(children[0], keccak);
    ReferenceIsItem(children[1], keccak);
    ReferenceIsItem(children[2], keccak);
    var a, b := Append(Encode(children[0], keccak)), Append(Encode(children[1], keccak));
    var rest := AppendAll(EncodeChildren(children[2..], keccak));
    ConcatAssoc(a, b + rest, RlpString(value));
    ConcatAssoc(b, rest, RlpString(value));
    assert rest != [];
    TwoIsNotMore(a, b, rest + RlpString(value), x, y);
  }

  lemma ValueShort(x: Bytes, value: Bytes)
    requires Short(|x + RlpString(value)|)
    ensures Short(|value|)
  {
  }

  lemma PathShort(p: Bytes, x: Bytes)
    requires Short(|RlpString(p) + x|)
    ensures Short(|p|)
  {
  }

  /** Equal in the node itself, with equal references to the children. */
  ghost predicate SameNode(a: Node, b: Node, keccak: Hasher) {
    match a
    case Empty => b.Empty?
    case Hash(_) => a == b
    case Branch(children, value) =>
      && b.Branch? && b.value == value && |children| == |b.children|
      && forall i :: 0 <= i < |children| ==> Encode(children[i], keccak) == Encode(b.children[i], keccak)
    case Extension(n, child) => b.Extension? && b.nibbles == n && Encode(child, keccak) == Encode(b.child, keccak)
    case Leaf(_, _) => a == b
  }

  /** The first item of the list of an extension or a leaf. */
  function Path(t: Node): Bytes
    requires t.Extension? || t.Leaf?
  {
    HexPrefix(t.nibbles, t.Leaf?)
  }

  function Second(t: Node, keccak: Hasher): Bytes
    requires t.Extension? || t.Leaf?
  {
    if t.Leaf? then RlpString(t.value) else Append(Encode(t.child, keccak))
  }

  lemma TwoItems(t: Node, keccak: Hasher)
    requires (t.Extension? || t.Leaf?) && FitsMachine(t, keccak)
    ensures Payload(t, keccak) == RlpString(Path(t)) + Second(t, keccak)
    ensures Short(|Path(t)|) && IsItem(RlpString(Path(t))) && IsItem(Second(t, keccak))
    ensures t.Leaf? ==> Short(|t.value|)
  {
    PathShort(Path(t), Second(t, keccak));
    StringIsItem(Path(t));
    if t.Leaf? {
      ValueShort(RlpString(Path(t)), t.value);
      StringIsItem(t.value);
    } else {
      ReferenceIsItem(t.child, keccak);
    }
  }

  lemma TwoItemsTell(a: Node, b: Node, keccak: Hasher)
    requires (a.Extension? || a.Leaf?) && (b.Extension? || b.Leaf?)
    requires FitsMachine(a, keccak) && FitsMachine(b, keccak) && Payload(a, keccak) == Payload(b, keccak)
    ensures SameNode(a, b, keccak)
  {
    TwoItems(a, keccak);
    TwoItems(b, keccak);
    ItemsCancel(RlpString(Path(a)), RlpString(Path(b)), Second(a, keccak), Second(b, keccak));
    StringInjective(Path(a), Path(b));
    HexPrefixInjective(a.nibbles, a.Leaf?, b.nibbles, b.Leaf?);
    if a.Leaf? {
      StringInjective(a.value, b.value);
    } else {
      ReferenceTells(a.child, b.child, keccak);
    }
  }

  lemma BranchesTell(a: Node, b: Node, keccak: Hasher)
    requires a.Branch? && b.Branch? && a.Wf() && b.Wf()
    requires FitsMachine(a, keccak) && FitsMachine(b, keccak) && Payload(a, keccak) == Payload(b, keccak)
    ensures SameNode(a, b, keccak)
  {
    ReferencesTell(a.children, b.children, RlpString(a.value), RlpString(b.value), keccak);
    ValueShort(AppendAll(EncodeChildren(a.children, keccak)), a.value);
    ValueShort(AppendAll(EncodeChildren(b.children, keccak)), b.value);
    StringInjective(a.value, b.value);
  }

  /** The bytes of a node tell the node, up to what its children's references hide. */
  lemma NodeBytesTell(a: Node, b: Node, keccak: Hasher)
    requires a.Wf() && b.Wf() && !a.Hash? && !b.Hash? && FitsMachine(a, keccak) && FitsMachine(b, keccak)
    requires NodeBytes(a, keccak) == NodeBytes(b, keccak)
    ensures SameNode(a, b, keccak)
  {
    ListIsItem(Payload(a, keccak));
    ListIsItem(Payload(b, keccak));
    if !a.Empty? && !b.Empty? {
      ListInjective(Payload(a, keccak), Payload(b, keccak));
      if a.Branch? && b.Branch? {
        BranchesTell(a, b, keccak);
      } else if a.Branch? {
        TwoItems(b, keccak);
        TwoIsNotSeventeen(a.children, a.value, RlpString(Path(b)), Second(b, keccak), keccak);
      } else if b.Branch? {
        TwoItems(a, keccak);
        TwoIsNotSeventeen(b.children, b.value, RlpString(Path(a)), Second(a, keccak), keccak);
      } else {
        TwoItemsTell(a, b, keccak);
      }
    }
  }

  // ---------------------------------------------------------------------------------------------
  // Equal hashes
  // ---------------------------------------------------------------------------------------------

  /** The same trie, except where one of the two stores a digest and the other the subtree. */
  ghost predicate Alike(a: Node, b: Node)
    decreases a
  {
    if a.Hash? || b.Hash? then !a.Empty? && !b.Empty? && (a.Hash? && b.Hash? ==> a == b)
    else
      match a
      case Branch(children, value) =>
        && b.Branch? && b.value == value && |children| == |b.children|
        && forall i :: 0 <= i < |children| ==> Alike(children[i], b.children[i])
      case Extension(n, child) => b.Extension? && b.nibbles == n && Alike(child, b.child)
      case _ => a == b
  }

  lemma PreimagesBelow(t: Node, i: nat, keccak: Hasher)
    requires t.Branch? && i < |t.children|
    ensures Preimages(t.children[i], keccak) <= Preimages(t, keccak)
  {
    forall b | b in Preimages(t.children[i], keccak) ensures b in Preimages(t, keccak) {
    }
  }

  lemma SeparatesBelow(keccak: Hasher, some: set<Bytes>, all: set<Bytes>)
    requires some <= all && Separates(keccak, all)
    ensures Separates(keccak, some)
  {
  }

  /** An encoding tells the node, when no two of the hashed byte strings collide. */
  lemma EncodingTells(a: Node, b: Node, keccak: Hasher)
    requires a.Wf() && b.Wf() && FitsMachine(a, keccak) && FitsMachine(b, keccak)
    requires !a.Hash? && !b.Hash? && Encode(a, keccak) == Encode(b, keccak)
    requires Separates(keccak, Preimages(a, keccak) + Preimages(b, keccak))
    ensures SameNode(a, b, keccak)
  {
    EncodeIsHashed(a, keccak);
    EncodeIsHashed(b, keccak);
    assert NodeBytes(a, keccak) in Preimages(a, keccak) && NodeBytes(b, keccak) in Preimages(b, keccak);
    NodeBytesTell(a, b, keccak);
  }

  /** Equal encodings mean equal tries, up to subtrees hidden behind digests. */
  lemma {:induction false} EncodingCommits(a: Node, b: Node, keccak: Hasher)
    requires a.Wf() && b.Wf() && FitsMachine(a, keccak) && FitsMachine(b, keccak)
    requires Encode(a, keccak) == Encode(b, keccak)
    requires Separates(keccak, Preimages(a, keccak) + Preimages(b, keccak))
    ensures Alike(a, b)
    decreases a
  {
    if !a.Hash? && !b.Hash? {
      EncodingTells(a, b, keccak);
      match a
      case Branch(children, _) =>
        forall i | 0 <= i < |children| ensures Alike(children[i], b.children[i]) {
          ChildCommits(a, b, i, keccak);
          EncodingCommits(children[i], b.children[i], keccak);
        }
      case Extension(_, child) =>
        SeparatesBelow(keccak, Preimages(child, keccak) + Preimages(b.child, keccak), Preimages(a, keccak) + Preimages(b, keccak));
        EncodingCommits(child, b.child, keccak);
      case _ =>
    }
  }

  lemma ChildCommits(a: Node, b: Node, i: nat, keccak: Hasher)
    requires a.Branch? && b.Branch? && i < |a.children| && i < |b.children|
    requires Separates(keccak, Preimages(a, keccak) + Preimages(b, keccak))
    ensures Separates(keccak, Preimages(a.children[i], keccak) + Preimages(b.children[i], keccak))
  {
    PreimagesBelow(a, i, keccak);
    PreimagesBelow(b, i, keccak);
    SeparatesBelow(keccak, Preimages(a.children[i], keccak) + Preimages(b.children[i], keccak),
                   Preimages(a, keccak) + Preimages(b, keccak));
  }

  /** No part of the trie is hidden. */
  predicate HashFree(t: Node)
    decreases t
  {
    match t
    case Hash(_) => false
    case Branch(children, _) => forall i :: 0 <= i < |children| ==> HashFree(children[i])
    case Extension(_, child) => HashFree(child)
    case _ => true
  }

  lemma {:induction false} AlikeIsSame(a: Node, b: Node)
    requires Alike(a, b) && HashFree(a) && HashFree(b)
    ensures a == b
    decreases a
  {
    match a
    case Branch(children, _) =>
      forall i | 0 <= i < |children| ensures children[i] == b.children[i] { AlikeIsSame(children[i], b.children[i]); }
      assert children == b.children;
    case Extension(_, child) => AlikeIsSame(child, b.child);
    case _ =>
  }

  /** The hash function tells the encodings of the two tries apart. */
  ghost predicate TellsApart(a: Node, b: Node, keccak: Hasher) {
    FitsMachine(a, keccak) && FitsMachine(b, keccak) && Separates(keccak, Preimages(a, keccak) + Preimages(b, keccak))
  }

  /** Two complete canonical tries have the same root hash exactly when they have the same content. */
  lemma RootTellsContent(a: Node, b: Node, keccak: Hasher)
    requires Canonical(a) && Canonical(b) && a.Wf() && b.Wf() && HashFree(a) && HashFree(b)
    requires TellsApart(a, b, keccak)
    ensures RootHash(a, keccak) == RootHash(b, keccak) <==> SameContent(a, b)
  {
    if SameContent(a, b) { CanonicalUnique(a, b); }
    if RootHash(a, keccak) == RootHash(b, keccak) {
      EncodeIsHashed(a, keccak);
      EncodeIsHashed(b, keccak);
      assert NodeBytes(a, keccak) in Preimages(a, keccak) && NodeBytes(b, keccak) in Preimages(b, keccak);
      assert NodeBytes(a, keccak) == NodeBytes(b, keccak);
      EncodingCommits(a, b, keccak);
      AlikeIsSame(a, b);
    }
  }

  lemma {:induction false} NoDigestsHashFree(t: Node)
    requires Canonical(t) && t.Wf() && forall q :: Lookup(t, q).Some? ==> Lookup(t, q).value.Val?
    ensures HashFree(t)
    decreases t
  {
    match t
    case Hash(_) => assert Lookup(t, []).Some?;
    case Branch(children, _) =>
      forall i: Nibble | 0 <= i < 16 ensures HashFree(children[i]) {
        forall q | Lookup(children[i], q).Some? ensures Lookup(children[i], q).value.Val? {
          var full: Key := [i] + q;
          assert full[1..] == q && Lookup(t, full) == Lookup(children[i], q);
        }
        NoDigestsHashFree(children[i]);
      }
    case Extension(n, child) =>
      forall q | Lookup(child, q).Some? ensures Lookup(child, q).value.Val? {
        ExtensionLookup(n, child, q);
      }
      NoDigestsHashFree(child);
    case _ =>
  }

  /** Every insertion of the run writes a value. */
  predicate WritesValues(ops: seq<Op>) {
    forall i :: 0 <= i < |ops| ==> ops[i].Put? ==> ops[i].entry.Val?
  }

  lemma {:induction false} MapOfValues(m: map<Key, Entry>, ops: seq<Op>)
    requires WritesValues(ops) && forall q :: q in m ==> m[q].Val?
    ensures forall q :: q in MapAfter(m, ops) ==> MapAfter(m, ops)[q].Val?
    decreases |ops|
  {
    if ops != [] {
      assert forall i :: 0 <= i < |ops| - 1 ==> ops[1..][i] == ops[i + 1];
      MapOfValues(MapStep(m, ops[0]), ops[1..]);
    }
  }

  /** Two runs of value insertions and deletions from the empty trie end with the same root hash
      exactly when they build the same map. */
  lemma CompareRuns(ops1: seq<Op>, s1: OnOrphanedHashNode, ops2: seq<Op>, s2: OnOrphanedHashNode, keys: iset<Key>, keccak: Hasher)
    requires PrefixFree(keys) && Over(ops1, keys) && Over(ops2, keys) && WritesValues(ops1) && WritesValues(ops2)
    ensures Run(Empty, ops1, s1).Ok? && Run(Empty, ops2, s2).Ok?
    ensures TellsApart(Run(Empty, ops1, s1).value, Run(Empty, ops2, s2).value, keccak) ==>
      (RootHash(Run(Empty, ops1, s1).value, keccak) == RootHash(Run(Empty, ops2, s2).value, keccak)
       <==> MapAfter(map[], ops1) == MapAfter(map[], ops2))
  {
    PlainRunsSucceed(Empty, map[], ops1, s1, keys);
    PlainRunsSucceed(Empty, map[], ops2, s2, keys);
    RunRepresents(Empty, map[], ops1, s1, keys);
    RunRepresents(Empty, map[], ops2, s2, keys);
    MapOfValues(map[], ops1);
    MapOfValues(map[], ops2);
    var a, b := Run(Empty, ops1, s1).value, Run(Empty, ops2, s2).value;
    if TellsApart(a, b, keccak) {
      NoDigestsHashFree(a);
      NoDigestsHashFree(b);
      RootTellsContent(a, b, keccak);
      if SameContent(a, b) { RepresentedAlike(a, MapAfter(map[], ops1), b, MapAfter(map[], ops2)); }
      if MapAfter(map[], ops1) == MapAfter(map[], ops2) { assert SameContent(a, b); }
    }
  }

  lemma RepresentedAlike(a: Node, m: map<Key, Entry>, b: Node, n: map<Key, Entry>)
    requires Represents(a, m) && Represents(b, n) && SameContent(a, b)
    ensures m == n
  {
    forall q ensures (q in m <==> q in n) && (q in m && q in n ==> m[q] == n[q]) {
      assert Lookup(a, q) == Lookup(b, q);
    }
  }

  /** When one trie still holds what the other holds, a digest cannot hide the difference. */
  lemma {:induction false} AlikeAndHeld(a: Node, b: Node)
    requires Canonical(a) && Canonical(b) && a.Wf() && b.Wf() && Alike(a, b) && StillHolds(a, b)
    ensures a == b
    decreases a
  {
    if a.Hash? || b.Hash? {
      if a.Branch? { var k1, k2 := BranchForks(a); } else { var k := SomeKey(a); }
    } else {
      match a
      case Branch(children, value) =>
        forall i | 0 <= i < 16 ensures children[i] == b.children[i] {
          HeldBelow(a, b, i);
          AlikeAndHeld(children[i], b.children[i]);
        }
        assert children == b.children;
      case Extension(n, child) =>
        forall q | Lookup(child, q).Some?
          ensures Lookup(b.child, q).Some? && SameKind(Lookup(child, q).value, Lookup(b.child, q).value)
        {
          ExtensionLookup(n, child, q);
          ExtensionLookup(n, b.child, q);
        }
        AlikeAndHeld(child, b.child);
      case _ =>
    }
  }

  lemma HeldBelow(a: Node, b: Node, i: Nibble)
    requires a.Branch? && b.Branch? && a.Wf() && b.Wf() && StillHolds(a, b)
    ensures StillHolds(a.children[i], b.children[i])
  {
    forall q | Lookup(a.children[i], q).Some?
      ensures Lookup(b.children[i], q).Some? && SameKind(Lookup(a.children[i], q).value, Lookup(b.children[i], q).value)
    {
      var full: Key := [i] + q;
      assert full[1..] == q && Lookup(a, full) == Lookup(a.children[i], q) && Lookup(b, full) == Lookup(b.children[i], q);
    }
  }

  /** Insertions never leave a different trie with the same encoding. */
  lemma InsertionsChangeEncoding(t: Node, r: Node, keccak: Hasher)
    requires Canonical(t) && Canonical(r) && t.Wf() && r.Wf() && StillHolds(t, r) && TellsApart(t, r, keccak)
    ensures Encode(t, keccak) == Encode(r, keccak) <==> t == r
  {
    if Encode(t, keccak) == Encode(r, keccak) {
      EncodingCommits(t, r, keccak);
      AlikeAndHeld(t, r);
    }
  }

  /** Nor can it when both tries have the same digests. */
  lemma {:induction false} AlikeSameDigests(a: Node, b: Node)
    requires Canonical(a) && Canonical(b) && a.Wf() && b.Wf() && Alike(a, b) && DigestsKept(a, b) && DigestsKept(b, a)
    ensures a == b
    decreases a
  {
    if a.Hash? || b.Hash? {
      var none: Key := [];
      assert Lookup(Hash(if a.Hash? then a.hash else b.hash), none).value.HashOf?;
      assert Lookup(a, none) == Lookup(b, none);
    } else {
      match a
      case Branch(children, value) =>
        forall i | 0 <= i < 16 ensures children[i] == b.children[i] {
          DigestsBelow(a, b, i);
          DigestsBelow(b, a, i);
          AlikeSameDigests(children[i], b.children[i]);
        }
        assert children == b.children;
      case Extension(n, child) =>
        DigestsBehind(n, child, b.child);
        DigestsBehind(n, b.child, child);
        AlikeSameDigests(child, b.child);
      case _ =>
    }
  }

  lemma DigestsBelow(a: Node, b: Node, i: Nibble)
    requires a.Branch? && b.Branch? && a.Wf() && b.Wf() && DigestsKept(a, b)
    ensures DigestsKept(a.children[i], b.children[i])
  {
    forall q | Lookup(a.children[i], q).Some? && Lookup(a.children[i], q).value.HashOf?
      ensures Lookup(b.children[i], q) == Lookup(a.children[i], q)
    {
      var full: Key := [i] + q;
      assert full[1..] == q && Lookup(a, full) == Lookup(a.children[i], q) && Lookup(b, full) == Lookup(b.children[i], q);
    }
  }

  lemma DigestsBehind(n: Key, x: Node, y: Node)
    requires x.Wf() && y.Wf() && DigestsKept(Extension(n, x), Extension(n, y))
    ensures DigestsKept(x, y)
  {
    forall q | Lookup(x, q).Some? && Lookup(x, q).value.HashOf? ensures Lookup(y, q) == Lookup(x, q) {
      ExtensionLookup(n, x, q);
      ExtensionLookup(n, y, q);
    }
  }

  /** Changing values and keys around the same digests always shows in the encoding. */
  lemma ValuesChangeEncoding(t: Node, r: Node, keccak: Hasher)
    requires Canonical(t) && Canonical(r) && t.Wf() && r.Wf() && DigestsKept(t, r) && DigestsKept(r, t)
    requires TellsApart(t, r, keccak)
    ensures Encode(t, keccak) == Encode(r, keccak) <==> t == r
  {
    if Encode(t, keccak) == Encode(r, keccak) {
      EncodingCommits(t, r, keccak);
      AlikeSameDigests(t, r);
    }
  }
}
