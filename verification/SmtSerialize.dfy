/** The flat vector form of a tree, with everything off the paths of the given keys hashed out. */
module SmtSerialize {
  import opened Wrappers
  import opened Arithmetic
  import opened SmtKeys
  import opened SmtTree
  import opened SmtEdit
  import opened SmtUpdate
  import opened Smt

  const HASH_TYPE: nat := 0
  const INTERNAL_TYPE: nat := 1
  const LEAF_TYPE: nat := 2

  /** A word of the vector. Digests are ideal, so they have words of their own. */
  datatype Cell = Num(n: nat) | HashCell(d: Digest)

  datatype ReadError = OutOfBounds | BadType | BadWord | PointsBack

  /** What a vector stands for. */
  datatype Part = Gap | Hashed(d: Digest) | LeafPart(rem: Key, value: Word) | Fork(left: Part, right: Part)

  function DigestOf(p: Part): Digest {
    match p
    case Gap => Zero
    case Hashed(d) => d
    case LeafPart(rem, value) => Of(LeafNode(rem, ValueDigest(value)))
    case Fork(l, r) => Of(Internal(DigestOf(l), DigestOf(r)))
  }

  // ---------------------------------------------------------------------------------------------
  // Words
  // ---------------------------------------------------------------------------------------------

  function Key2U(k: Key): nat {
    k[0] + U64 * (k[1] + U64 * (k[2] + U64 * k[3]))
  }

  function LimbOf(x: nat): Limb {
    x % U64 % GOLDILOCKS
  }

  function U2K(x: nat): Key {
    [LimbOf(x), LimbOf(x / U64), LimbOf(x / U64 / U64), LimbOf(x / U64 / U64 / U64)]
  }

  lemma Digit(a: Limb, rest: nat)
    ensures LimbOf(a + U64 * rest) == a && (a + U64 * rest) / U64 == rest
  {
    RemainderUnique(a + U64 * rest, U64, rest, a);
    SmallMod(a, GOLDILOCKS);
  }

  lemma KeyRoundTrip(k: Key)
    ensures U2K(Key2U(k)) == k
  {
    var r2 := k[2] + U64 * k[3];
    var r1 := k[1] + U64 * r2;
    Digit(k[0], r1);
    Digit(k[1], r2);
    Digit(k[2], k[3]);
    Digit(k[3], 0);
    assert U2K(Key2U(k)) == [k[0], k[1], k[2], k[3]];
  }

  function U2H(c: Cell): Digest {
    match c
    case HashCell(d) => d
    case Num(n) => if n == 0 then Zero else Opaque(n)
  }

  // ---------------------------------------------------------------------------------------------
  // Reading a vector
  // ---------------------------------------------------------------------------------------------

  function Measure(v: seq<Cell>, ptr: nat): nat {
    if ptr == 0 || ptr > |v| then 0 else |v| - ptr + 1
  }

  /** What the vector holds at ptr. Only children at larger indices, or the empty node at 0, are
      followed. */
  function Decode(v: seq<Cell>, ptr: nat): Result<Part, ReadError>
    decreases Measure(v, ptr)
  {
    if ptr + 1 >= |v| then Err(OutOfBounds)
    else if v[ptr] == Num(HASH_TYPE) then
      Ok(if U2H(v[ptr + 1]) == Zero then Gap else Hashed(U2H(v[ptr + 1])))
    else if ptr + 2 >= |v| then Err(OutOfBounds)
    else if v[ptr] == Num(LEAF_TYPE) then
      if v[ptr + 1].Num? && v[ptr + 2].Num? && v[ptr + 2].n < U256
      then Ok(LeafPart(U2K(v[ptr + 1].n), v[ptr + 2].n))
      else Err(BadWord)
    else if v[ptr] != Num(INTERNAL_TYPE) then Err(BadType)
    else
      var l :- DecodeChild(v, ptr, 0);
      var r :- DecodeChild(v, ptr, 1);
      Ok(Fork(l, r))
  }

  function DecodeChild(v: seq<Cell>, ptr: nat, b: nat): Result<Part, ReadError>
    requires ptr + 2 < |v| && b < 2
    decreases Measure(v, ptr), 0
  {
    var c := v[ptr + 1 + b];
    if !c.Num? then Err(BadWord)
    else if ptr == 0 || 0 < c.n <= ptr then Err(PointsBack)
    else Decode(v, c.n)
  }

  function Rehashed(r: Result<Part, ReadError>): Result<Digest, ReadError> {
    if r.Ok? then Ok(DigestOf(r.value)) else Err(r.error)
  }

  /** The digest of the node at ptr, computed from the vector alone. */
  method HashSerialize(v: seq<Cell>, ptr: nat) returns (d: Result<Digest, ReadError>)
    ensures d == Rehashed(Decode(v, ptr))
    decreases Measure(v, ptr)
  {
    if ptr + 1 >= |v| { return Err(OutOfBounds); }
    if v[ptr] == Num(HASH_TYPE) { return Ok(U2H(v[ptr + 1])); }
    if ptr + 2 >= |v| { return Err(OutOfBounds); }
    if v[ptr] == Num(LEAF_TYPE) {
      if !v[ptr + 1].Num? || !v[ptr + 2].Num? || v[ptr + 2].n >= U256 { return Err(BadWord); }
      return Ok(Of(LeafNode(U2K(v[ptr + 1].n), Of(ValueNode(F2Limbs(v[ptr + 2].n))))));
    }
    if v[ptr] != Num(INTERNAL_TYPE) { return Err(BadType); }
    var node := Internal(Zero, Zero);
    for b := 0 to 2
      invariant node.Internal?
      invariant b > 0 ==> Rehashed(DecodeChild(v, ptr, 0)) == Ok(node.left)
      invariant b > 1 ==> Rehashed(DecodeChild(v, ptr, 1)) == Ok(node.right)
    {
      var c := v[ptr + 1 + b];
      if !c.Num? { return Err(BadWord); }
      if ptr == 0 || 0 < c.n <= ptr { return Err(PointsBack); }
      var child := HashSerialize(v, c.n);
      if child.Err? { return child; }
      node := if b == 0 then node.(left := child.value) else node.(right := child.value);
    }
    d := Ok(Of(node));
  }

  /** Reading looks at the empty node and at what comes after ptr, and nowhere else. */
  lemma {:induction false} DecodeFrame(v: seq<Cell>, w: seq<Cell>, ptr: nat)
    requires Decode(v, ptr).Ok? && 2 <= |v| <= |w| && w[0] == v[0] && w[1] == v[1]
    requires v[0] == Num(HASH_TYPE) && (ptr == 0 || ptr >= 2)
    requires ptr > 0 ==> forall i :: ptr <= i < |v| ==> w[i] == v[i]
    ensures Decode(w, ptr) == Decode(v, ptr)
    decreases Measure(v, ptr)
  {
    if ptr > 0 && v[ptr] == Num(INTERNAL_TYPE) {
      assert DecodeChild(v, ptr, 0).Ok? && DecodeChild(v, ptr, 1).Ok?;
      DecodeFrame(v, w, v[ptr + 1].n);
      DecodeFrame(v, w, v[ptr + 2].n);
    }
  }

  // ---------------------------------------------------------------------------------------------
  // Writing a vector
  // ---------------------------------------------------------------------------------------------

  ghost predicate HasValue(vh: Digest, db: map<Digest, SNode>) {
    vh in db && exists x: Word :: vh == ValueDigest(x)
  }

  /** A tree that can be written: subtrees may be missing from the store, but a stored leaf has a
      stored value, no stored node is empty, and no path is longer than a key. */
  ghost predicate Writable(d: Digest, db: map<Digest, SNode>, n: nat)
    decreases d
  {
    d !in db || (d.Of? && d == Of(db[d]) &&
      match d.node
      case Internal(l, r) => n < 256 && (l != Zero || r != Zero) && Writable(l, db, n + 1) && Writable(r, db, n + 1)
      case LeafNode(_, vh) => HasValue(vh, db)
      case ValueNode(_) => false)
  }

  /** The tree with everything off the kept paths hashed out. */
  function Prune(d: Digest, db: map<Digest, SNode>, path: Bits, keep: set<Bits>): Part
    decreases d
  {
    if !d.Of? || d !in db || path !in keep then if d == Zero then Gap else Hashed(d)
    else
      match d.node
      case Internal(l, r) => Fork(Prune(l, db, path + [false], keep), Prune(r, db, path + [true], keep))
      case LeafNode(rem, vh) => LeafPart(rem, WordOf(vh))
      case ValueNode(_) => Hashed(d)
  }

  function WordOf(vh: Digest): Word {
    if StoredValue(vh) < U256 then StoredValue(vh) else 0
  }

  lemma StoredWord(vh: Digest, db: map<Digest, SNode>)
    requires HasValue(vh, db)
    ensures StoredValue(vh) < U256 && ValueDigest(WordOf(vh)) == vh
    ensures WordOf(vh) == StoredValue(vh)
  {
    var x: Word :| vh == ValueDigest(x);
    WordRoundTrip(x);
  }

  /** Pruning keeps the digest. */
  lemma {:induction false} PruneKeepsDigest(d: Digest, db: map<Digest, SNode>, path: Bits, keep: set<Bits>)
    requires Writable(d, db, |path|)
    ensures DigestOf(Prune(d, db, path, keep)) == d
    decreases d
  {
    if d.Of? && d in db && path in keep {
      match d.node
      case Internal(l, r) =>
        PruneKeepsDigest(l, db, path + [false], keep);
        PruneKeepsDigest(r, db, path + [true], keep);
      case LeafNode(_, vh) => StoredWord(vh, db);
      case ValueNode(_) =>
    }
  }

  // ---------------------------------------------------------------------------------------------
  // How much is pruned
  // ---------------------------------------------------------------------------------------------

  ghost predicate IsPrefixOf(path: Bits, keys: set<Key>) {
    exists k :: k in keys && path <= Split(k)
  }

  ghost predicate KeepsPaths(keep: set<Bits>, keys: set<Key>) {
    forall path :: path in keep <==> IsPrefixOf(path, keys)
  }

  /** Subtree x hangs at the given path below d. */
  ghost predicate HangsAt(d: Digest, path: Bits, x: Digest)
    decreases d
  {
    if path == [] then x == d
    else d.Of? && d.node.Internal? && HangsAt(if path[0] then d.node.right else d.node.left, path[1..], x)
  }

  /** The part has a bare digest at the path or above it. */
  ghost predicate HashedAt(p: Part, path: Bits)
    decreases p
  {
    || p.Hashed?
    || (p.Fork? && path != [] && HashedAt(if path[0] then p.right else p.left, path[1..]))
  }

  /** The path, or one above it, is not kept or leads to a node that is not stored. */
  ghost predicate CutAt(d: Digest, db: map<Digest, SNode>, path: Bits, keep: set<Bits>, q: Bits)
    decreases d
  {
    || path !in keep || d !in db
    || (q != [] && d.Of? && d.node.Internal?
        && CutAt(if q[0] then d.node.right else d.node.left, db, path + [q[0]], keep, q[1..]))
  }

  lemma {:induction false} PruneCuts(d: Digest, db: map<Digest, SNode>, path: Bits, keep: set<Bits>, q: Bits, x: Digest)
    requires Writable(d, db, |path|) && HangsAt(d, q, x) && x != Zero
    ensures HashedAt(Prune(d, db, path, keep), q) <==> CutAt(d, db, path, keep, q)
    decreases d
  {
    if q != [] && d in db && path in keep {
      PruneCuts(if q[0] then d.node.right else d.node.left, db, path + [q[0]], keep, q[1..], x);
    }
  }

  /** Some node on the way down to the path, itself included, is missing from the store. */
  ghost predicate MissesOn(d: Digest, db: map<Digest, SNode>, q: Bits) {
    exists m: nat, y: Digest :: m <= |q| && HangsAt(d, q[..m], y) && y !in db
  }

  lemma MissesStep(d: Digest, db: map<Digest, SNode>, q: Bits)
    requires d.Of? && d.node.Internal? && q != []
    ensures MissesOn(d, db, q) <==> d !in db || MissesOn(if q[0] then d.node.right else d.node.left, db, q[1..])
  {
    var c := if q[0] then d.node.right else d.node.left;
    if MissesOn(d, db, q) {
      var m: nat, y: Digest :| m <= |q| && HangsAt(d, q[..m], y) && y !in db;
      if m > 0 { assert q[..m][1..] == q[1..][..m - 1]; }
    }
    if d !in db { assert HangsAt(d, q[..0], d); }
    if MissesOn(c, db, q[1..]) {
      var m: nat, y: Digest :| m <= |q[1..]| && HangsAt(c, q[1..][..m], y) && y !in db;
      assert q[..m + 1][1..] == q[1..][..m];
      assert HangsAt(d, q[..m + 1], y);
    }
  }

  /** With all prefixes of kept paths kept, a path is cut when it is not kept or a node on it is missing. */
  lemma {:induction false} CutWhere(d: Digest, db: map<Digest, SNode>, path: Bits, keys: set<Key>, keep: set<Bits>, q: Bits, x: Digest)
    requires KeepsPaths(keep, keys) && HangsAt(d, q, x)
    ensures CutAt(d, db, path, keep, q) <==> !IsPrefixOf(path + q, keys) || MissesOn(d, db, q)
    decreases d
  {
    if q == [] {
      assert path + q == path;
      assert HangsAt(d, q[..0], d);
      assert MissesOn(d, db, q) <==> d !in db;
    } else {
      var c := if q[0] then d.node.right else d.node.left;
      assert path + q == (path + [q[0]]) + q[1..];
      MissesStep(d, db, q);
      CutWhere(c, db, path + [q[0]], keys, keep, q[1..], x);
      if IsPrefixOf(path + q, keys) {
        var k :| k in keys && path + q <= Split(k);
        assert path <= Split(k);
      }
    }
  }

  /** The parts hide a subtree exactly when no given key leads to it, or when the store lacks it or a node
      above it. */
  ghost predicate HidesExactly(p: Part, root: Digest, db: map<Digest, SNode>, keys: set<Key>) {
    forall q: Bits, x: Digest :: HangsAt(root, q, x) && x != Zero ==>
      (HashedAt(p, q) <==> MissesOn(root, db, q) || forall k :: k in keys ==> !(q <= Split(k)))
  }

  lemma PruneHidesExactly(root: Digest, db: map<Digest, SNode>, keys: set<Key>, keep: set<Bits>)
    requires Writable(root, db, 0) && KeepsPaths(keep, keys)
    ensures HidesExactly(Prune(root, db, [], keep), root, db, keys)
  {
    forall q: Bits, x: Digest | HangsAt(root, q, x) && x != Zero
      ensures HashedAt(Prune(root, db, [], keep), q)
        <==> MissesOn(root, db, q) || forall k :: k in keys ==> !(q <= Split(k))
    {
      PruneCuts(root, db, [], keep, q, x);
      CutWhere(root, db, [], keys, keep, q, x);
      assert [] + q == q;
    }
  }

  class Output {
    var v: seq<Cell>

    constructor ()
      ensures v == [Num(0), Num(0)]
    {
      v := [Num(0), Num(0)];
    }

    ghost predicate Valid()
      reads this
    {
      |v| >= 2 && v[0] == Num(0) && v[1] == Num(0)
    }

    /** Appends the tree and returns where it starts; the empty tree is at 0. */
    method Serialize(db: map<Digest, SNode>, d: Digest, curBits: Bits, keep: set<Bits>) returns (index: nat)
      requires Valid() && DbSound(db) && Writable(d, db, |curBits|)
      modifies this
      ensures Valid() && old(v) <= v
      ensures index == if d == Zero then 0 else |old(v)|
      ensures Decode(v, index) == Ok(Prune(d, db, curBits, keep))
      ensures d == Zero ==> v == old(v)
      decreases d
    {
      if d == Zero { return 0; }
      index := |v|;
      if curBits !in keep || d !in db {
        v := v + [Num(HASH_TYPE), HashCell(d)];
        return;
      }
      var node := db[d];
      if node.LeafNode? {
        StoredWord(node.valueHash, db);
        KeyRoundTrip(node.rem);
        v := v + [Num(LEAF_TYPE), Num(Key2U(node.rem)), Num(Limbs2F(db[node.valueHash].limbs))];
      } else {
        v := v + [Num(INTERNAL_TYPE), Num(0), Num(0)];
        var iLeft := Serialize(db, node.left, curBits + [false], keep);
        ghost var before := v;
        v := v[index + 1 := Num(iLeft)];
        DecodeFrame(before, v, iLeft);
        ghost var mid := v;
        var iRight := Serialize(db, node.right, curBits + [true], keep);
        ghost var after := v;
        v := v[index + 2 := Num(iRight)];
        PatchedNode(mid, after, v, index, iLeft, iRight);
      }
    }
  }

  /** Once both its pointers are patched in, an internal node stands for its two children. */
  lemma PatchedNode(mid: seq<Cell>, after: seq<Cell>, v: seq<Cell>, index: nat, iLeft: nat, iRight: nat)
    requires 2 <= index && index + 3 <= |mid| && mid[0] == mid[1] == Num(HASH_TYPE) && mid <= after && v == after[index + 2 := Num(iRight)]
    requires mid[index] == Num(INTERNAL_TYPE) && mid[index + 1] == Num(iLeft)
    requires iLeft == 0 || index + 3 <= iLeft
    requires iRight == 0 || index + 3 <= iRight
    requires Decode(mid, iLeft).Ok? && Decode(after, iRight).Ok?
    ensures Decode(v, index) == Ok(Fork(Decode(mid, iLeft).value, Decode(after, iRight).value))
  {
    assert v[index] == Num(INTERNAL_TYPE) && v[index + 1] == Num(iLeft) && v[index + 2] == Num(iRight);
    DecodeFrame(mid, v, iLeft);
    DecodeFrame(after, v, iRight);
    assert DecodeChild(v, index, 0) == Decode(v, iLeft);
    assert DecodeChild(v, index, 1) == Decode(v, iRight);
  }

  // ---------------------------------------------------------------------------------------------
  // Which paths are kept
  // ---------------------------------------------------------------------------------------------

  /** Adds every prefix of a key's path, from the whole path down to the empty one. */
  method IncludePath(k: Key, keep: set<Bits>) returns (keep': set<Bits>)
    ensures forall path :: path in keep' <==> path in keep || path <= Split(k)
  {
    keep' := keep;
    var bits := Split(k);
    while true
      invariant bits <= Split(k)
      invariant forall path :: path in keep' <==> path in keep || (path <= Split(k) && |path| > |bits|)
      decreases |bits|
    {
      keep' := keep' + {bits};
      assert forall path :: path <= Split(k) && |path| == |bits| ==> path == bits;
      if bits == [] { break; }
      bits := bits[..|bits| - 1];
    }
  }

  method SerializeAndPrune(root: Digest, db: map<Digest, SNode>, keys: set<Key>) returns (v: seq<Cell>, ghost keep: set<Bits>)
    requires DbSound(db) && Writable(root, db, 0)
    ensures KeepsPaths(keep, keys)
    ensures Decode(v, 2) == Ok(Prune(root, db, [], keep))
    ensures HidesExactly(Decode(v, 2).value, root, db, keys)
  {
    var included: set<Bits>, todo := {}, keys;
    while todo != {}
      invariant todo <= keys && KeepsPaths(included, keys - todo)
      decreases |todo|
    {
      var k :| k in todo;
      ghost var before := included;
      included := IncludePath(k, included);
      ghost var done := keys - todo;
      todo := todo - {k};
      assert keys - todo == done + {k};
      forall path ensures path in included <==> IsPrefixOf(path, done + {k}) {
        assert path in before <==> IsPrefixOf(path, done);
        if path <= Split(k) { assert k in done + {k}; }
      }
    }
    assert keys - todo == keys;
    keep := included;
    var out := new Output();
    var _ := out.Serialize(db, root, [], included);
    if |out.v| == 2 {
      out.v := out.v + [Num(0), Num(0)];
    }
    v := out.v;
    PruneHidesExactly(root, db, keys, keep);
  }

  /** The pruned vector hashes to the root. */
  method PrunedRootIsRoot(root: Digest, db: map<Digest, SNode>, keys: set<Key>) returns (d: Result<Digest, ReadError>)
    requires DbSound(db) && Writable(root, db, 0)
    ensures d == Ok(root)
  {
    var v, keep := SerializeAndPrune(root, db, keys);
    PruneKeepsDigest(root, db, [], keep);
    d := HashSerialize(v, 2);
  }

  // ---------------------------------------------------------------------------------------------
  // What the kept paths still tell
  // ---------------------------------------------------------------------------------------------

  /** The value a part holds for a key; nothing when the path is hashed out. */
  function PartValue(p: Part, n: nat, k: Key): Option<nat>
    decreases p
  {
    match p
    case Gap => Some(0)
    case Hashed(_) => None
    case LeafPart(rem, value) => Some(if n <= MAX_DEPTH && Join(Split(k)[..n], rem) == k then value else 0)
    case Fork(l, r) => if n > MAX_DEPTH then Some(0) else PartValue(if Split(k)[n] then r else l, n + 1, k)
  }

  lemma {:induction false} StoredIsWritable(d: Digest, path: Bits, db: map<Digest, SNode>)
    requires Canonical(d, path) && Stored(d, db.Keys) && DbSound(db)
    ensures Writable(d, db, |path|)
    decreases d
  {
    if d.Of? {
      match d.node
      case Internal(l, r) =>
        assert Leaves(Zero) == 0;
        StoredIsWritable(l, path + [false], db);
        StoredIsWritable(r, path + [true], db);
      case LeafNode(_, vh) =>
        var k, v :| IsLeafOf(d, path, k, v);
        assert vh == ValueDigest(v);
      case ValueNode(_) =>
    }
  }

  /** Every prefix of the key's path of at least n bits is kept. */
  ghost predicate KeptFrom(keep: set<Bits>, k: Key, n: nat) {
    forall m :: n <= m <= 256 ==> Split(k)[..m] in keep
  }

  /** What a pruned part tells about a key: the right value or nothing, and the value when its path is kept. */
  ghost predicate TellsValue(p: Part, d: Digest, n: nat, keep: set<Bits>, k: Key)
    requires n <= 256
  {
    var seen := PartValue(p, n, k);
    (seen.Some? ==> seen.value == Content(d, n, k)) && (KeptFrom(keep, k, n) ==> seen.Some?)
  }

  lemma PrunedBelow(d: Digest, db: map<Digest, SNode>, path: Bits, keep: set<Bits>, k: Key)
    requires d.Of? && d.node.Internal? && d in db && path in keep && |path| < 256 && On(path, k)
    requires TellsValue(Prune(Child(d, Split(k)[|path|]), db, path + [Split(k)[|path|]], keep), Child(d, Split(k)[|path|]), |path| + 1, keep, k)
    ensures TellsValue(Prune(d, db, path, keep), d, |path|, keep, k)
  {
    if KeptFrom(keep, k, |path|) { assert KeptFrom(keep, k, |path| + 1); }
  }

  /** A kept path is left unpruned down to its leaf or empty slot: the value is still there. Any
      other path still tells the right value, or nothing. */
  lemma {:induction false} PrunedValue(d: Digest, db: map<Digest, SNode>, path: Bits, keep: set<Bits>, k: Key)
    requires Canonical(d, path) && Stored(d, db.Keys) && DbSound(db) && On(path, k)
    ensures TellsValue(Prune(d, db, path, keep), d, |path|, keep, k)
    decreases d
  {
    assert Split(k)[..|path|] == path;
    if d.Of? && d in db && path in keep {
      match d.node
      case Internal(l, r) =>
        var b := Split(k)[|path|];
        OnChild(path, b, k);
        PrunedValue(Child(d, b), db, path + [b], keep, k);
        PrunedBelow(d, db, path, keep, k);
      case LeafNode(_, vh) =>
        StoredIsWritable(d, path, db);
        StoredWord(vh, db);
      case ValueNode(_) =>
    }
  }

  /** The vector of a valid tree: it hashes to the root and holds the value of every given key. */
  method SerializeState(s: SmtState, keys: set<Key>) returns (v: seq<Cell>)
    requires s.Valid()
    ensures Rehashed(Decode(v, 2)) == Ok(s.root)
    ensures forall k :: k in keys ==>
      PartValue(Decode(v, 2).value, 0, k) == Some(if k in s.kvStore then s.kvStore[k] else 0)
    ensures HidesExactly(Decode(v, 2).value, s.root, s.db, keys)
  {
    ghost var keep;
    StoredIsWritable(s.root, [], s.db);
    v, keep := SerializeAndPrune(s.root, s.db, keys);
    PruneKeepsDigest(s.root, s.db, [], keep);
    forall k | k in keys
      ensures PartValue(Decode(v, 2).value, 0, k) == Some(if k in s.kvStore then s.kvStore[k] else 0)
    {
      assert forall n :: 0 <= n <= 256 ==> IsPrefixOf(Split(k)[..n], keys);
      PrunedValue(s.root, s.db, [], keep, k);
    }
  }
}
