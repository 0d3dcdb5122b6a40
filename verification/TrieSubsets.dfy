/** Subset tries: everything that the listed keys do not touch is replaced by its hash. */
module TrieSubsets {
  import opened Wrappers
  import opened Nibbles
  import opened PartialTrie
  import opened TrieOps
  import opened TrieHashing
  import opened Simulation

  /** The `touched` flags of a tracked trie, laid over its nodes. */
  datatype Marks = Marks(touched: bool, kids: seq<Marks>)

  datatype SubsetError = HashNodeOnPath | PoppedTooMuch

  function Children(t: Node): (c: seq<Node>)
    ensures forall i :: 0 <= i < |c| ==> c[i] < t
  {
    match t
    case Branch(children, _) => children
    case Extension(_, child) => [child]
    case _ => []
  }

  ghost predicate Fits(t: Node, m: Marks)
    decreases t
  {
    && |m.kids| == |Children(t)|
    && forall i :: 0 <= i < |Children(t)| ==> Fits(Children(t)[i], m.kids[i])
  }

  /** A tracked trie with no flag set. */
  function Fresh(t: Node): (m: Marks)
    ensures Fits(t, m) && !m.touched
    decreases t
  {
    var c := Children(t);
    Marks(false, seq(|c|, i requires 0 <= i < |c| => Fresh(c[i])))
  }

  /** Flags every node on the way of the key. An extension is left alone when the key is used up. */
  function Mark(t: Node, m: Marks, k: Key): (r: Result<Marks, SubsetError>)
    requires t.Wf() && Fits(t, m)
    ensures r.Ok? ==> Fits(t, r.value)
    decreases t
  {
    match t
    case Empty => Ok(m.(touched := true))
    case Hash(_) => if k == [] then Ok(m.(touched := true)) else Err(HashNodeOnPath)
    case Branch(children, _) =>
      if k == [] then Ok(m.(touched := true))
      else
        var kid :- Mark(children[k[0]], m.kids[k[0]], k[1..]);
        Ok(Marks(true, m.kids[k[0] := kid]))
    case Extension(n, child) =>
      if k == [] then Ok(m)
      else if !Agree(n, k) then Ok(m.(touched := true))
      else if |k| < |n| then Err(PoppedTooMuch)
      else
        var kid :- Mark(child, m.kids[0], k[|n|..]);
        Ok(Marks(true, [kid]))
    case Leaf(_, _) => Ok(m.(touched := true))
  }

  function MarkAll(t: Node, m: Marks, ks: seq<Key>): (r: Result<Marks, SubsetError>)
    requires t.Wf() && Fits(t, m)
    ensures r.Ok? ==> Fits(t, r.value)
    decreases |ks|
  {
    if ks == [] then Ok(m)
    else
      var next :- Mark(t, m, ks[0]);
      MarkAll(t, next, ks[1..])
  }

  /** The subset trie for a set of flags. */
  function Build(t: Node, m: Marks, keccak: Hasher): (p: Node)
    requires Fits(t, m)
    ensures t.Wf() ==> p.Wf()
    decreases t
  {
    if !m.touched && Encode(t, keccak).Hashed? then Hash(Encode(t, keccak).hash)
    else
      match t
      case Branch(children, value) =>
        Branch(seq(|children|, i requires 0 <= i < |children| => Build(children[i], m.kids[i], keccak)), value)
      case Extension(n, child) => Extension(n, Build(child, m.kids[0], keccak))
      case _ => t
  }

  function CreateSubset(t: Node, ks: seq<Key>, keccak: Hasher): (r: Result<Node, SubsetError>)
    requires t.Wf()
    ensures r.Ok? ==> r.value.Wf()
  {
    var m :- MarkAll(t, Fresh(t), ks);
    Ok(Build(t, m, keccak))
  }

  // ---------------------------------------------------------------------------------------------
  // A subset stands for the whole
  // ---------------------------------------------------------------------------------------------

  lemma {:induction false} BuildIsPartial(t: Node, m: Marks, keccak: Hasher)
    requires Fits(t, m)
    ensures PartialOf(Build(t, m, keccak), t, keccak)
    decreases t
  {
    if m.touched || !Encode(t, keccak).Hashed? {
      match t
      case Branch(children, _) =>
        forall i | 0 <= i < |children| ensures PartialOf(Build(children[i], m.kids[i], keccak), children[i], keccak) {
          BuildIsPartial(children[i], m.kids[i], keccak);
        }
      case Extension(_, child) => BuildIsPartial(child, m.kids[0], keccak);
      case _ =>
    }
  }

  /** Node x sits at path q of t and has no flag. */
  ghost predicate HiddenAt(t: Node, m: Marks, q: Key, x: Node)
    requires t.Wf() && Fits(t, m)
    decreases t
  {
    || (q == [] && x == t && !m.touched)
    || (match t
        case Branch(children, _) => q != [] && HiddenAt(children[q[0]], m.kids[q[0]], q[1..], x)
        case Extension(n, child) => n <= q && HiddenAt(child, m.kids[0], q[|n|..], x)
        case _ => false)
  }

  /** The node at the end of a marked path is flagged, except an extension the key just reaches. */
  predicate Reached(k: Key, q: Key, x: Node) {
    q <= k && !(x.Extension? && q == k)
  }

  /** A path behind the first nibbles of a key is on its way exactly when the rest is. */
  lemma ReachedBehind(n: Key, k: Key, q: Key, x: Node)
    requires n <= k && n <= q
    ensures Reached(k, q, x) <==> Reached(k[|n|..], q[|n|..], x)
  {
    PrefixSplit(n, k);
    PrefixSplit(n, q);
    PrefixIff(n, q[|n|..], k);
  }

  lemma {:induction false} MarkReaches(t: Node, m: Marks, k: Key, q: Key, x: Node)
    requires Canonical(t) && t.Wf() && Fits(t, m) && Mark(t, m, k).Ok? && HiddenAt(t, Mark(t, m, k).value, q, x)
    ensures HiddenAt(t, m, q, x) && !Reached(k, q, x)
    decreases t
  {
    match t
    case Branch(children, _) =>
      if k != [] && q != [] && q[0] == k[0] {
        MarkReaches(children[k[0]], m.kids[k[0]], k[1..], q[1..], x);
        assert k[..1] == [k[0]] == q[..1];
        ReachedBehind([k[0]], k, q, x);
      }
    case Extension(n, child) =>
      if k != [] && n <= k && n <= q {
        MarkReaches(child, m.kids[0], k[|n|..], q[|n|..], x);
        ReachedBehind(n, k, q, x);
      }
    case _ =>
  }

  /** What marking a list of keys leaves unflagged is off the way of each of them. */
  lemma {:induction false} MarkAllReaches(t: Node, m: Marks, ks: seq<Key>, q: Key, x: Node)
    requires Canonical(t) && t.Wf() && Fits(t, m) && MarkAll(t, m, ks).Ok? && HiddenAt(t, MarkAll(t, m, ks).value, q, x)
    ensures HiddenAt(t, m, q, x) && forall i :: 0 <= i < |ks| ==> !Reached(ks[i], q, x)
    decreases |ks|
  {
    if ks != [] {
      MarkAllReaches(t, Mark(t, m, ks[0]).value, ks[1..], q, x);
      MarkReaches(t, m, ks[0], q, x);
    }
  }

  /** Where no unflagged node lies on the way of a key, `get` sees no difference. */
  lemma {:induction false} BuildGet(t: Node, m: Marks, k: Key, keccak: Hasher)
    requires Canonical(t) && t.Wf() && Fits(t, m) && Get(t, k).Ok?
    requires forall q, x :: HiddenAt(t, m, q, x) ==> !Reached(k, q, x)
    ensures Get(Build(t, m, keccak), k) == Get(t, k)
    decreases t
  {
    if !m.touched {
      assert HiddenAt(t, m, [], t);
    } else {
      match t
      case Branch(children, _) =>
        if k != [] {
          forall q, x | HiddenAt(children[k[0]], m.kids[k[0]], q, x) ensures !Reached(k[1..], q, x) {
            assert ([k[0]] + q)[1..] == q;
            assert HiddenAt(t, m, [k[0]] + q, x);
            assert q <= k[1..] ==> [k[0]] + q <= k;
          }
          BuildGet(children[k[0]], m.kids[k[0]], k[1..], keccak);
        }
      case Extension(n, child) =>
        if n <= k {
          forall q, x | HiddenAt(child, m.kids[0], q, x) ensures !Reached(k[|n|..], q, x) {
            assert (n + q)[|n|..] == q;
            assert HiddenAt(t, m, n + q, x);
            PrefixSplit(n, k);
            assert q <= k[|n|..] ==> n + q <= k;
          }
          BuildGet(child, m.kids[0], k[|n|..], keccak);
        }
      case _ =>
    }
  }

  /** A subset trie has the root hash of the full trie. */
  lemma SubsetSameRoot(t: Node, ks: seq<Key>, keccak: Hasher)
    requires t.Wf() && CreateSubset(t, ks, keccak).Ok?
    ensures var p := CreateSubset(t, ks, keccak).value;
      PartialOf(p, t, keccak) && RootHash(p, keccak) == RootHash(t, keccak)
  {
    var m := MarkAll(t, Fresh(t), ks).value;
    BuildIsPartial(t, m, keccak);
    PartialSameEncoding(Build(t, m, keccak), t, keccak);
  }

  /** On a listed key, `get` gives on the subset what it gives on the full trie. */
  lemma SubsetSameGet(t: Node, ks: seq<Key>, i: nat, keccak: Hasher)
    requires Canonical(t) && t.Wf() && CreateSubset(t, ks, keccak).Ok?
    requires i < |ks| && Get(t, ks[i]).Ok?
    ensures Get(CreateSubset(t, ks, keccak).value, ks[i]) == Get(t, ks[i])
  {
    var m := MarkAll(t, Fresh(t), ks).value;
    forall q, x | HiddenAt(t, m, q, x) ensures !Reached(ks[i], q, x) {
      MarkAllReaches(t, Fresh(t), ks, q, x);
    }
    BuildGet(t, m, ks[i], keccak);
  }
}
