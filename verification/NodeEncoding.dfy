/** The bytes behind a root hash, number by number: when a node is hashed, what its list holds in which
    order, and how lengths and paths are written. */
module NodeEncoding {
  import opened Wrappers
  import opened Nibbles
  import opened PartialTrie
  import opened TrieHashing
  import opened RlpItems
  import opened TrieCommitment

  // ---------------------------------------------------------------------------------------------
  // When a node is hashed
  // ---------------------------------------------------------------------------------------------

  /** A stored node is referred to by its hash exactly when its encoding has 32 bytes or more. Shorter ones
      stand for themselves; a reference by hash is the string of the 32 bytes of the digest. */
  lemma HashedFrom32(t: Node, keccak: Hasher)
    requires !t.Hash?
    ensures Encode(t, keccak).Hashed? <==> |NodeBytes(t, keccak)| >= 32
    ensures Encode(t, keccak).Hashed? ==>
      Append(Encode(t, keccak)) == [0xa0] + keccak(NodeBytes(t, keccak)) && |Append(Encode(t, keccak))| == 33
    ensures Encode(t, keccak).Raw? ==>
      Append(Encode(t, keccak)) == NodeBytes(t, keccak) && |Append(Encode(t, keccak))| < 32
  {
    EncodeIsHashed(t, keccak);
    if Encode(t, keccak).Hashed? {
      var h: H256 := keccak(NodeBytes(t, keccak));
      StringForm(h);
    }
  }

  /** The root is always hashed, however short its encoding is. */
  lemma RootIsHashed(t: Node, keccak: Hasher)
    ensures RootHash(t, keccak) == if t.Hash? then t.hash else keccak(NodeBytes(t, keccak))
    ensures NodeBytes(Empty, keccak) == [0x80]
  {
    EncodeIsHashed(t, keccak);
  }

  // ---------------------------------------------------------------------------------------------
  // Lengths
  // ---------------------------------------------------------------------------------------------

  lemma FitsInEight(n: nat)
    requires n < 0x1_0000_0000_0000_0000
    ensures Short(n)
  {
    assert Pow256(4) == 256 * (256 * (256 * (256 * Pow256(0))));
    assert Pow256(8) == 256 * (256 * (256 * (256 * Pow256(4))));
  }

  /** Big-endian bytes without leading zeros. */
  lemma {:induction false} BigEndianForm(n: nat)
    ensures FromBigEndian(BigEndian(n)) == n
    ensures n > 0 ==> BigEndian(n) != [] && BigEndian(n)[0] != 0
  {
    BigEndianBack(n);
    if n >= 256 { BigEndianForm(n / 256); }
  }

  /** The bytes of a length of more than 55. */
  ghost predicate LengthBytes(l: Bytes, n: nat) {
    1 <= |l| <= 8 && l[0] != 0 && FromBigEndian(l) == n
  }

  /** A string is its own encoding when it is one byte below 128. Otherwise its length stands in front: in one
      byte from 128 on when it is at most 55, else in bytes of its own, whose number is told from 183 on. */
  lemma StringForm(b: Bytes)
    requires |b| < 0x1_0000_0000_0000_0000
    ensures |b| == 1 && b[0] < 128 ==> RlpString(b) == b
    ensures !(|b| == 1 && b[0] < 128) && |b| <= 55 ==> RlpString(b) == [128 + |b|] + b
    ensures |b| > 55 ==> exists l: Bytes :: LengthBytes(l, |b|) && RlpString(b) == [183 + |l|] + l + b
  {
    FitsInEight(|b|);
    PrefixLength(0x80, |b|);
    BigEndianForm(|b|);
  }

  /** The same for lists, from 192 and from 247 on. */
  lemma ListForm(payload: Bytes)
    requires |payload| < 0x1_0000_0000_0000_0000
    ensures |payload| <= 55 ==> RlpList(payload) == [192 + |payload|] + payload
    ensures |payload| > 55 ==>
      exists l: Bytes :: LengthBytes(l, |payload|) && RlpList(payload) == [247 + |l|] + l + payload
  {
    FitsInEight(|payload|);
    PrefixLength(0xc0, |payload|);
    BigEndianForm(|payload|);
  }

  // ---------------------------------------------------------------------------------------------
  // What a node's list holds
  // ---------------------------------------------------------------------------------------------

  /** A reader: the payload of an encoded list. */
  function ListContent(b: Bytes): Bytes {
    if b == [] || b[0] < 192 then []
    else if b[0] <= 247 then b[1..]
    else
      var header: int := 1 + (b[0] as int - 247);
      if |b| < header then [] else b[header..]
  }

  /** A reader: the items that the bytes are made of. */
  function SplitItems(b: Bytes): seq<Bytes>
    decreases |b|
  {
    if ItemSize(b) == 0 || ItemSize(b) > |b| then []
    else [b[..ItemSize(b)]] + SplitItems(b[ItemSize(b)..])
  }

  lemma ContentBack(payload: Bytes)
    requires Short(|payload|)
    ensures ListContent(RlpList(payload)) == payload
  {
    PrefixLength(0xc0, |payload|);
    if |payload| > 55 {
      var l := BigEndian(|payload|);
      assert RlpList(payload) == [247 + |l|] + l + payload;
    }
  }

  lemma SplitFirst(x: Bytes, rest: Bytes)
    requires IsItem(x)
    ensures SplitItems(x + rest) == [x] + SplitItems(rest)
  {
    assert ItemSize(x + rest) == |x|;
    assert (x + rest)[..|x|] == x && (x + rest)[|x|..] == rest;
  }

  lemma SplitOne(x: Bytes)
    requires IsItem(x)
    ensures SplitItems(x) == [x]
  {
    assert x + [] == x;
    SplitFirst(x, []);
  }

  function References(children: seq<Node>, keccak: Hasher): (refs: seq<Bytes>)
    ensures |refs| == |children| && forall i :: 0 <= i < |children| ==> refs[i] == Append(Encode(children[i], keccak))
  {
    seq(|children|, i requires 0 <= i < |children| => Append(Encode(children[i], keccak)))
  }

  lemma ReferencesStep(children: seq<Node>, keccak: Hasher)
    requires children != []
    ensures References(children, keccak) == [Append(Encode(children[0], keccak))] + References(children[1..], keccak)
  {
  }

  lemma {:induction false} SplitReferences(children: seq<Node>, last: Bytes, keccak: Hasher)
    requires IsItem(last) && forall i :: 0 <= i < |children| ==> FitsMachine(children[i], keccak)
    ensures SplitItems(AppendAll(EncodeChildren(children, keccak)) + last) == References(children, keccak) + [last]
    decreases |children|
  {
    if children == [] {
      assert [] + last == last;
      SplitOne(last);
    } else {
      var first, rest := Append(Encode(children[0], keccak)), AppendAll(EncodeChildren(children[1..], keccak));
      FirstReference(children, keccak);
      ConcatAssoc(first, rest, last);
      ReferenceIsItem(children[0], keccak);
      SplitFirst(first, rest + last);
      SplitReferences(children[1..], last, keccak);
      ReferencesStep(children, keccak);
      ConcatAssoc([first], References(children[1..], keccak), [last]);
    }
  }

  /** Read back, a branch is the list of its sixteen references in order and its value. */
  lemma BranchItems(t: Node, keccak: Hasher)
    requires t.Branch? && t.Wf() && FitsMachine(t, keccak)
    ensures var items := SplitItems(ListContent(NodeBytes(t, keccak)));
      && |items| == 17
      && (forall i :: 0 <= i < 16 ==> items[i] == Append(Encode(t.children[i], keccak)))
      && items[16] == RlpString(t.value)
  {
    ContentBack(Payload(t, keccak));
    ValueShort(AppendAll(EncodeChildren(t.children, keccak)), t.value);
    StringIsItem(t.value);
    SplitReferences(t.children, RlpString(t.value), keccak);
  }

  /** Read back, an extension or a leaf is the list of its path, in hex-prefix form, and of the reference
      to the child or the value. */
  lemma TwoItemsBack(t: Node, keccak: Hasher)
    requires (t.Extension? || t.Leaf?) && FitsMachine(t, keccak)
    ensures SplitItems(ListContent(NodeBytes(t, keccak)))
         == [RlpString(HexPrefix(t.nibbles, t.Leaf?)), if t.Leaf? then RlpString(t.value) else Append(Encode(t.child, keccak))]
  {
    TwoItems(t, keccak);
    ContentBack(Payload(t, keccak));
    var path, second := RlpString(Path(t)), Second(t, keccak);
    SplitFirst(path, second);
    SplitOne(second);
  }

  // ---------------------------------------------------------------------------------------------
  // Paths
  // ---------------------------------------------------------------------------------------------

  lemma {:induction false} PackedAt(k: Key, j: nat)
    requires |k| % 2 == 0
    ensures |PackNibbles(k)| == |k| / 2
    ensures j < |k| / 2 ==> PackNibbles(k)[j] == 16 * (k[2 * j] as int) + k[2 * j + 1]
    decreases |k|
  {
    if k != [] {
      PackedAt(k[2..], if j > 0 then j - 1 else 0);
      if 0 < j < |k| / 2 { assert k[2..][2 * (j - 1)] == k[2 * j] && k[2..][2 * (j - 1) + 1] == k[2 * j + 1]; }
    }
  }

  /** Hex-prefix form, byte by byte. A path of even length: 32 for a leaf and 0 otherwise, then two nibbles a
      byte. */
  lemma HexPrefixEven(k: Key, isLeaf: bool, j: nat)
    requires |k| % 2 == 0
    ensures |HexPrefix(k, isLeaf)| == 1 + |k| / 2
    ensures HexPrefix(k, isLeaf)[0] == if isLeaf then 32 else 0
    ensures j < |k| / 2 ==> HexPrefix(k, isLeaf)[1 + j] == 16 * (k[2 * j] as int) + k[2 * j + 1]
  {
    var flag: Nibble := if isLeaf then 2 else 0;
    var full: Key := [flag, 0] + k;
    PackedAt(full, 0);
    PackedAt(full, 1 + j);
    if j < |k| / 2 { assert full[2 * (1 + j)] == k[2 * j] && full[2 * (1 + j) + 1] == k[2 * j + 1]; }
  }

  /** A path of odd length: 48 for a leaf and 16 otherwise, plus the first nibble, then two nibbles a byte. */
  lemma HexPrefixOdd(k: Key, isLeaf: bool, j: nat)
    requires |k| % 2 == 1
    ensures |HexPrefix(k, isLeaf)| == 1 + |k| / 2
    ensures HexPrefix(k, isLeaf)[0] == (if isLeaf then 48 else 16) + k[0] as int
    ensures j < |k| / 2 ==> HexPrefix(k, isLeaf)[1 + j] == 16 * (k[2 * j + 1] as int) + k[2 * j + 2]
  {
    var flag: Nibble := if isLeaf then 2 else 0;
    var full: Key := [flag + 1] + k;
    PackedAt(full, 0);
    PackedAt(full, 1 + j);
    if j < |k| / 2 { assert full[2 * (1 + j)] == k[2 * j + 1] && full[2 * (1 + j) + 1] == k[2 * j + 2]; }
  }
}
