/** The sparse Merkle tree as a value: nodes, ideal hashes, content and canonical shape. */
module SmtTree {
  import opened Wrappers
  import opened SmtKeys

  const U256: nat := 0x1_0000000000000000_0000000000000000_0000000000000000_0000000000000000
  const U32: nat := 0x1_0000_0000

  type Word = x: nat | x < U256

  /** An ideal hash: the digest of a node determines the node. `Opaque` is a digest of a subtree that
      is not stored. */
  datatype Digest = Zero | Opaque(id: nat) | Of(node: SNode)

  /** The three uses of a twelve-element node. */
  datatype SNode =
    | Internal(left: Digest, right: Digest)
    | LeafNode(rem: Key, valueHash: Digest)
    | ValueNode(limbs: seq<nat>)

  // ---------------------------------------------------------------------------------------------
  // Values as 32-bit limbs
  // ---------------------------------------------------------------------------------------------

  function LimbsOf(x: nat, n: nat): (limbs: seq<nat>)
    ensures |limbs| == n
  {
    if n == 0 then [] else [x % U32] + LimbsOf(x / U32, n - 1)
  }

  /** Eight little-endian 32-bit limbs. */
  function F2Limbs(x: Word): seq<nat> {
    LimbsOf(x, 8)
  }

  function Limbs2F(limbs: seq<nat>): nat {
    if limbs == [] then 0 else limbs[0] + U32 * Limbs2F(limbs[1..])
  }

  function U32Pow(n: nat): nat {
    if n == 0 then 1 else U32 * U32Pow(n - 1)
  }

  lemma {:induction false} LimbsRoundTrip(x: nat, n: nat)
    requires x < U32Pow(n)
    ensures Limbs2F(LimbsOf(x, n)) == x
    decreases n
  {
    if n > 0 {
      assert LimbsOf(x, n)[1..] == LimbsOf(x / U32, n - 1);
      LimbsRoundTrip(x / U32, n - 1);
    }
  }

  /** Packing the limbs of a value gives back the value. */
  lemma WordRoundTrip(x: Word)
    ensures Limbs2F(F2Limbs(x)) == x
  {
    assert U32Pow(8) == U256;
    LimbsRoundTrip(x, 8);
  }

  function ValueDigest(x: Word): Digest {
    Of(ValueNode(F2Limbs(x)))
  }

  // ---------------------------------------------------------------------------------------------
  // Content and canonical shape
  // ---------------------------------------------------------------------------------------------

  /** The value that a leaf's value hash stands for. */
  function StoredValue(d: Digest): nat {
    if d.Of? && d.node.ValueNode? then Limbs2F(d.node.limbs) else 0
  }

  /** The value a tree holds for a key, when it hangs at depth n on the key's path. No canonical
      tree has nodes below MAX_DEPTH. */
  function Content(d: Digest, n: nat, k: Key): nat
    decreases d
  {
    if !d.Of? || n > MAX_DEPTH then 0
    else
      match d.node
      case Internal(l, r) => Content(if Split(k)[n] then r else l, n + 1, k)
      case LeafNode(rem, vh) => if Join(Split(k)[..n], rem) == k then StoredValue(vh) else 0
      case ValueNode(_) => 0
  }

  function Leaves(d: Digest): nat
    decreases d
  {
    if !d.Of? then 0
    else
      match d.node
      case Internal(l, r) => Leaves(l) + Leaves(r)
      case LeafNode(_, _) => 1
      case ValueNode(_) => 0
  }

  function LeafDigest(k: Key, v: Word, n: nat): Digest
    requires n <= MAX_DEPTH
  {
    Of(LeafNode(RemoveKeyBits(k, n), ValueDigest(v)))
  }

  /** The leaf of key k with value v, for the place that the path leads to. */
  ghost predicate IsLeafOf(d: Digest, path: Bits, k: Key, v: Word) {
    |path| <= MAX_DEPTH && path <= Split(k) && v != 0 && d == LeafDigest(k, v, |path|)
  }

  /** The compressed tree: a leaf for a single key, an internal node for two or more. */
  ghost predicate Canonical(d: Digest, path: Bits)
    decreases d
  {
    match d
    case Zero => true
    case Opaque(_) => false
    case Of(node) =>
      match node
      case LeafNode(_, _) => exists k, v :: IsLeafOf(d, path, k, v)
      case Internal(l, r) =>
        |path| < MAX_DEPTH && Canonical(l, path + [false]) && Canonical(r, path + [true]) && Leaves(d) >= 2
      case ValueNode(_) => false
  }

  /** The path of key k continues the given path. */
  predicate On(path: Bits, k: Key) {
    |path| <= MAX_DEPTH && path <= Split(k)
  }

  lemma OnChild(path: Bits, b: bool, k: Key)
    requires |path| < MAX_DEPTH
    ensures On(path + [b], k) <==> On(path, k) && Split(k)[|path|] == b
  {
    if On(path + [b], k) {
      assert (path + [b])[|path|] == Split(k)[|path|];
      assert path <= path + [b];
    }
    if On(path, k) && Split(k)[|path|] == b {
      assert Split(k)[..|path| + 1] == Split(k)[..|path|] + [b];
    }
  }

  /** A leaf answers for its own key and for no other. */
  lemma LeafContent(d: Digest, path: Bits, k: Key, v: Word, q: Key)
    requires IsLeafOf(d, path, k, v) && On(path, q)
    ensures Content(d, |path|, q) == if q == k then v else 0
  {
    assert Split(q)[..|path|] == path == Split(k)[..|path|];
    JoinSplit(k, |path|);
    WordRoundTrip(v);
  }

  lemma {:induction false} SomeKey(d: Digest, path: Bits) returns (k: Key)
    requires Canonical(d, path) && d != Zero
    ensures On(path, k) && Content(d, |path|, k) != 0
    decreases d
  {
    match d.node
    case LeafNode(_, _) =>
      var k', v :| IsLeafOf(d, path, k', v);
      LeafContent(d, path, k', v, k');
      k := k';
    case Internal(l, r) =>
      var b := l == Zero;
      k := SomeKey(if b then r else l, path + [b]);
      OnChild(path, b, k);
  }

  /** An internal node leads to two keys. */
  lemma {:induction false} TwoKeys(d: Digest, path: Bits) returns (k1: Key, k2: Key)
    requires Canonical(d, path) && d.Of? && d.node.Internal?
    ensures On(path, k1) && On(path, k2) && k1 != k2
    ensures Content(d, |path|, k1) != 0 && Content(d, |path|, k2) != 0
    decreases d
  {
    var l, r := d.node.left, d.node.right;
    if l != Zero && r != Zero {
      k1 := SomeKey(l, path + [false]);
      k2 := SomeKey(r, path + [true]);
      FromChild(d, path, false, k1);
      FromChild(d, path, true, k2);
    } else {
      var b := l == Zero;
      assert Leaves(d) == Leaves(l) + Leaves(r) && Leaves(Zero) == 0;
      k1, k2 := TwoKeys(Child(d, b), path + [b]);
      FromChild(d, path, b, k1);
      FromChild(d, path, b, k2);
    }
  }

  function Child(d: Digest, b: bool): Digest
    requires d.Of? && d.node.Internal?
  {
    if b then d.node.right else d.node.left
  }

  /** A key found below a child is found, with the same value, below its parent. */
  lemma FromChild(d: Digest, path: Bits, b: bool, k: Key)
    requires d.Of? && d.node.Internal? && On(path + [b], k)
    ensures On(path, k) && Split(k)[|path|] == b
    ensures Content(d, |path|, k) == Content(Child(d, b), |path| + 1, k)
  {
    OnChild(path, b, k);
  }

  ghost predicate SameContent(a: Digest, b: Digest, path: Bits)
  {
    forall k :: On(path, k) ==> Content(a, |path|, k) == Content(b, |path|, k)
  }

  lemma LeafIsNotInternal(a: Digest, b: Digest, path: Bits)
    requires Canonical(a, path) && Canonical(b, path)
    requires SameContent(a, b, path)
    requires a.Of? && a.node.LeafNode?
    ensures !(b.Of? && b.node.Internal?)
  {
    if b.Of? && b.node.Internal? {
      var k1, k2 := TwoKeys(b, path);
      var k, v :| IsLeafOf(a, path, k, v);
      LeafContent(a, path, k, v, k1);
      LeafContent(a, path, k, v, k2);
    }
  }

  /** Canonical trees in the same place with the same content are the same tree. */
  lemma {:induction false} CanonicalUnique(a: Digest, b: Digest, path: Bits)
    requires Canonical(a, path) && Canonical(b, path)
    requires SameContent(a, b, path)
    ensures a == b
    decreases a
  {
    if a == Zero || b == Zero {
      if a != Zero { var k := SomeKey(a, path); }
      if b != Zero { var k := SomeKey(b, path); }
    } else if a.node.LeafNode? {
      LeafIsNotInternal(a, b, path);
      var k, v :| IsLeafOf(a, path, k, v);
      var k', v' :| IsLeafOf(b, path, k', v');
      LeafContent(a, path, k, v, k);
      LeafContent(b, path, k', v', k);
    } else {
      if b.node.LeafNode? { LeafIsNotInternal(b, a, path); }
      ChildrenSame(a, b, path, false);
      ChildrenSame(a, b, path, true);
      CanonicalUnique(a.node.left, b.node.left, path + [false]);
      CanonicalUnique(a.node.right, b.node.right, path + [true]);
    }
  }

  lemma ChildrenSame(a: Digest, b: Digest, path: Bits, bit: bool)
    requires |path| < MAX_DEPTH && a.Of? && a.node.Internal? && b.Of? && b.node.Internal?
    requires SameContent(a, b, path)
    ensures SameContent(Child(a, bit), Child(b, bit), path + [bit])
  {
    forall k | On(path + [bit], k)
      ensures Content(Child(a, bit), |path| + 1, k) == Content(Child(b, bit), |path| + 1, k)
    {
      OnChild(path, bit, k);
    }
  }
}
