/** When `get` answers with exactly what the trie holds. */
module TrieGet {
  import opened Wrappers
  import opened Nibbles
  import opened PartialTrie
  import opened TrieOps

  function ValueOf(e: Option<Entry>): Option<Bytes> {
    if e.Some? && e.value.Val? then Some(e.value.value) else None
  }

  /** The walk ends at a leaf that the key only agrees with, or runs out of nibbles in an extension. */
  predicate GetErrs(t: Node, k: Key)
    requires t.Wf()
    decreases t
  {
    match t
    case Branch(children, _) => k != [] && GetErrs(children[k[0]], k[1..])
    case Extension(n, child) => |k| < |n| || (n <= k && GetErrs(child, k[|n|..]))
    case Leaf(n, _) => n != k && Agree(n, k)
    case _ => false
  }

  /** `get` returns the stored value, or nothing when there is none, exactly when its walk does not
      end on such a leaf or extension. */
  lemma {:induction false} GetExact(t: Node, k: Key)
    requires t.Wf()
    ensures Get(t, k) == Ok(ValueOf(Lookup(t, k))) <==> !GetErrs(t, k)
    decreases t
  {
    match t
    case Branch(children, _) => if k != [] { GetExact(children[k[0]], k[1..]); }
    case Extension(n, child) => if n <= k { GetExact(child, k[|n|..]); }
    case _ =>
  }

  /** With keys of one length, `get` is exact on every key of that length. */
  lemma {:induction false} GetFixedLength(t: Node, k: Key)
    requires Canonical(t) && t.Wf()
    requires forall q :: Lookup(t, q).Some? ==> |q| <= |k| && (Lookup(t, q).value.Val? ==> |q| == |k|)
    ensures Get(t, k) == Ok(ValueOf(Lookup(t, k)))
    decreases t
  {
    match t
    case Branch(children, value) =>
      var k1, k2 := BranchForks(t);
      var c := children[k[0]];
      forall q | Lookup(c, q).Some?
        ensures |q| <= |k[1..]| && (Lookup(c, q).value.Val? ==> |q| == |k[1..]|)
      {
        assert ([k[0]] + q)[1..] == q;
        assert Lookup(t, [k[0]] + q) == Lookup(c, q);
      }
      GetFixedLength(c, k[1..]);
    case Extension(n, child) =>
      var r := SomeKey(child);
      ExtensionLookup(n, child, r);
      if n <= k {
        forall q | Lookup(child, q).Some?
          ensures |q| <= |k[|n|..]| && (Lookup(child, q).value.Val? ==> |q| == |k[|n|..]|)
        {
          ExtensionLookup(n, child, q);
        }
        GetFixedLength(child, k[|n|..]);
      }
    case Leaf(n, _) => assert Lookup(t, n).Some?;
    case _ =>
  }
}
