/** Trie keys as sequences of nibbles, and the comparisons the trie code makes on them. */
module Nibbles {

  type Nibble = n: int | 0 <= n < 16
  type Byte = b: int | 0 <= b < 256

  type Key = seq<Nibble>
  type Bytes = seq<Byte>

  /** Equal up to the end of the shorter key. */
  predicate Agree(a: Key, b: Key) {
    a <= b || b <= a
  }

  /** Drops n nibbles from the front, or everything when there are fewer than n. */
  function DropClamped(k: Key, n: nat): Key {
    if n <= |k| then k[n..] else []
  }

  /** Index of the first differing nibble; the shorter length when there is none. */
  function CommonPrefixLen(a: Key, b: Key): (i: nat)
    ensures i <= |a| && i <= |b|
    ensures a[..i] == b[..i]
    ensures i < |a| && i < |b| ==> a[i] != b[i]
  {
    if a == [] || b == [] || a[0] != b[0] then 0
    else
      var j := CommonPrefixLen(a[1..], b[1..]);
      assert a[..j + 1] == [a[0]] + a[1..][..j] && b[..j + 1] == [b[0]] + b[1..][..j];
      j + 1
  }

  lemma PrefixSplit(p: Key, k: Key)
    requires p <= k
    ensures k == p + k[|p|..]
  {
  }

  lemma PrefixIff(p: Key, q: Key, k: Key)
    ensures p + q <= k <==> p <= k && q <= k[|p|..]
  {
    if p <= k && q <= k[|p|..] {
      assert k == p + k[|p|..];
      assert (p + q) <= k;
    }
    if p + q <= k {
      assert k[..|p|] == (p + q)[..|p|] == p;
      assert k[|p|..][..|q|] == (p + q)[|p|..] == q;
    }
  }

  /** Where two keys that agree so far stop agreeing, or one of them ends. */
  lemma {:induction false} PrefixLenIs(a: Key, b: Key, i: nat)
    requires i <= |a| && i <= |b| && a[..i] == b[..i] && (i == |a| || i == |b| || a[i] != b[i])
    ensures i == CommonPrefixLen(a, b)
  {
    var j := CommonPrefixLen(a, b);
    SamePrefix(a, b, i);
    SamePrefix(a, b, j);
  }

  lemma SamePrefix(a: Key, b: Key, i: nat)
    requires i <= |a| && i <= |b| && a[..i] == b[..i]
    ensures forall k :: 0 <= k < i ==> a[k] == b[k]
  {
    forall k | 0 <= k < i ensures a[k] == b[k] { assert a[..i][k] == b[..i][k]; }
  }
}
