/** RLP items can be read back: where an item ends is told by its first bytes. */
module RlpItems {
  import opened Nibbles
  import opened TrieHashing

  function FromBigEndian(b: Bytes): nat {
    if b == [] then 0 else 256 * FromBigEndian(b[..|b| - 1]) + b[|b| - 1]
  }

  lemma {:induction false} BigEndianBack(n: nat)
    ensures FromBigEndian(BigEndian(n)) == n
  {
    if n > 0 {
      BigEndianBack(n / 256);
      assert BigEndian(n)[..|BigEndian(n)| - 1] == BigEndian(n / 256);
    }
  }

  function Pow256(k: nat): (p: nat)
    ensures p > 0
  {
    if k == 0 then 1 else 256 * Pow256(k - 1)
  }

  lemma {:induction false} BigEndianLength(n: nat, k: nat)
    requires n < Pow256(k)
    ensures |BigEndian(n)| <= k
    decreases k
  {
    if n > 0 { BigEndianLength(n / 256, k - 1); }
  }

  /** The length fits in eight bytes, as every length on the machine does. */
  predicate Short(n: nat) {
    n < Pow256(8)
  }

  /** Number of bytes of an item whose length is in the k bytes behind the first. */
  function LongSize(b: Bytes, k: nat): nat {
    if 1 + k <= |b| then 1 + k + FromBigEndian(b[1..1 + k]) else 0
  }

  /** Number of bytes of the first item. */
  function ItemSize(b: Bytes): nat {
    if b == [] then 0
    else if b[0] < 0x80 then 1
    else if b[0] <= 0xb7 then 1 + b[0] - 0x80
    else if b[0] < 0xc0 then LongSize(b, b[0] - 0xb7)
    else if b[0] <= 0xf7 then 1 + b[0] - 0xc0
    else LongSize(b, b[0] - 0xf7)
  }

  /** The bytes are one item, whatever follows them. */
  ghost predicate IsItem(x: Bytes) {
    x != [] && forall rest: Bytes :: ItemSize(x + rest) == |x|
  }

  lemma PrefixLength(offset: Byte, n: nat)
    requires Short(n) && (offset == 0x80 || offset == 0xc0)
    ensures var p := LengthPrefix(offset, n);
      && (n <= 55 ==> p == [offset + n])
      && (n > 55 ==> 0 < |BigEndian(n)| <= 8 && p == [offset + 55 + |BigEndian(n)|] + BigEndian(n))
  {
    BigEndianLength(n, 8);
  }

  lemma PrefixedIsItem(offset: Byte, payload: Bytes)
    requires Short(|payload|) && (offset == 0x80 || offset == 0xc0)
    ensures IsItem(LengthPrefix(offset, |payload|) + payload)
  {
    var n := |payload|;
    PrefixLength(offset, n);
    var x := LengthPrefix(offset, n) + payload;
    forall rest: Bytes ensures ItemSize(x + rest) == |x| {
      if n > 55 {
        assert (x + rest)[1..1 + |BigEndian(n)|] == BigEndian(n);
        BigEndianBack(n);
      }
    }
  }

  lemma StringIsItem(b: Bytes)
    requires Short(|b|)
    ensures IsItem(RlpString(b))
  {
    if !(|b| == 1 && b[0] < 0x80) { PrefixedIsItem(0x80, b); }
  }

  lemma ListIsItem(payload: Bytes)
    requires Short(|payload|)
    ensures IsItem(RlpList(payload)) && RlpList(payload)[0] >= 0xc0
  {
    PrefixLength(0xc0, |payload|);
    PrefixedIsItem(0xc0, payload);
  }

  /** A sequence of items is read in one way only. */
  lemma ItemsCancel(x: Bytes, y: Bytes, r: Bytes, s: Bytes)
    requires IsItem(x) && IsItem(y) && x + r == y + s
    ensures x == y && r == s
  {
    assert ItemSize(x + r) == |x| && ItemSize(y + s) == |y|;
    assert x == (x + r)[..|x|] && y == (y + s)[..|y|];
    assert r == (x + r)[|x|..] && s == (y + s)[|y|..];
  }

  lemma PrefixedInjective(offset: Byte, p: Bytes, q: Bytes)
    requires Short(|p|) && Short(|q|) && (offset == 0x80 || offset == 0xc0)
    requires LengthPrefix(offset, |p|) + p == LengthPrefix(offset, |q|) + q
    ensures p == q
  {
    PrefixLength(offset, |p|);
    PrefixLength(offset, |q|);
    var x, y := LengthPrefix(offset, |p|) + p, LengthPrefix(offset, |q|) + q;
    assert x[0] == y[0];
    if |p| > 55 {
      var k := |BigEndian(|p|)|;
      assert x[1..1 + k] == BigEndian(|p|) && y[1..1 + k] == BigEndian(|q|);
      BigEndianBack(|p|);
      BigEndianBack(|q|);
    }
    assert p == x[|x| - |p|..] && q == y[|y| - |q|..];
  }

  lemma ListInjective(p: Bytes, q: Bytes)
    requires Short(|p|) && Short(|q|) && RlpList(p) == RlpList(q)
    ensures p == q
  {
    PrefixedInjective(0xc0, p, q);
  }

  lemma StringInjective(a: Bytes, b: Bytes)
    requires Short(|a|) && Short(|b|) && RlpString(a) == RlpString(b)
    ensures a == b
  {
    PrefixLength(0x80, |a|);
    PrefixLength(0x80, |b|);
    if !(|a| == 1 && a[0] < 0x80) && !(|b| == 1 && b[0] < 0x80) { PrefixedInjective(0x80, a, b); }
  }

  // ---------------------------------------------------------------------------------------------
  // Hex-prefix
  // ---------------------------------------------------------------------------------------------

  lemma {:induction false} PackInjective(a: Key, b: Key)
    requires |a| % 2 == 0 && |b| % 2 == 0 && PackNibbles(a) == PackNibbles(b)
    ensures a == b
    decreases |a|
  {
    if a != [] && b != [] {
      var x, y := PackNibbles(a), PackNibbles(b);
      assert x[0] == y[0] && x[1..] == PackNibbles(a[2..]) && y[1..] == PackNibbles(b[2..]);
      PackInjective(a[2..], b[2..]);
      assert a == a[..2] + a[2..] && b == b[..2] + b[2..];
      assert a[0] == b[0] && a[1] == b[1];
    }
  }

  /** The flag nibble in front tells the kind of node and the parity, so nothing is lost. */
  lemma HexPrefixInjective(a: Key, aLeaf: bool, b: Key, bLeaf: bool)
    requires HexPrefix(a, aLeaf) == HexPrefix(b, bLeaf)
    ensures a == b && aLeaf == bLeaf
  {
    var x, y := Header(a, aLeaf), Header(b, bLeaf);
    assert HexPrefix(a, aLeaf) == PackNibbles(x + a) && HexPrefix(b, bLeaf) == PackNibbles(y + b);
    PackInjective(x + a, y + b);
    assert (x + a)[0] == x[0] && (y + b)[0] == y[0];
    assert a == (x + a)[|x|..] && b == (y + b)[|y|..];
  }

  function Header(k: Key, isLeaf: bool): Key {
    var flag: Nibble := if isLeaf then 2 else 0;
    if |k| % 2 == 0 then [flag, 0] else [flag + 1]
  }
}
