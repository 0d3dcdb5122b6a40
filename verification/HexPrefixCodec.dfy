/** Hex-prefix paths: the encoder that works on packed nibbles, and the decoder of the trie builder. */
module HexPrefixCodec {
  import opened Arithmetic
  import opened Bitwise
  import opened Nibbles
  import opened PackedNibbles
  import opened NibbleBuffer
  import opened TrieHashing
  import opened RlpItems

  /** The nibbles of a byte string, the high one of each byte first. */
  function NibblesOf(b: Bytes): (k: Key)
    ensures |k| == 2 * |b|
  {
    if b == [] then [] else [b[0] / 16, b[0] % 16] + NibblesOf(b[1..])
  }

  lemma {:induction false} NibblesOfPacked(k: Key)
    requires |k| % 2 == 0
    ensures NibblesOf(PackNibbles(k)) == k
    decreases |k|
  {
    if k != [] {
      var high: int := k[0];
      var b := PackNibbles(k);
      assert b[0] == 16 * high + k[1] && b[1..] == PackNibbles(k[2..]);
      NibblesOfPacked(k[2..]);
      assert k == [k[0], k[1]] + k[2..];
    }
  }

  lemma {:induction false} PackedOfNibbles(b: Bytes)
    ensures PackNibbles(NibblesOf(b)) == b
    decreases |b|
  {
    if b != [] {
      var k := NibblesOf(b);
      assert k[2..] == NibblesOf(b[1..]);
      PackedOfNibbles(b[1..]);
    }
  }

  // ---------------------------------------------------------------------------------------------
  // Words as bytes
  // ---------------------------------------------------------------------------------------------

  /** The last n bytes of a word, highest first. */
  function WordBytes(x: nat, n: nat): (b: Bytes)
    ensures |b| == n
  {
    if n == 0 then [] else WordBytes(x / 256, n - 1) + [x % 256]
  }

  lemma {:induction false} NibblesOfConcat(a: Bytes, b: Bytes)
    ensures NibblesOf(a + b) == NibblesOf(a) + NibblesOf(b)
    decreases |a|
  {
    if a == [] {
      assert a + b == b;
    } else {
      assert (a + b)[1..] == a[1..] + b;
      NibblesOfConcat(a[1..], b);
    }
  }

  lemma OneByte(x: Byte)
    ensures NibblesOf([x]) == [x / 16, x % 16]
  {
    assert [x][1..] == [];
  }

  lemma UnpackTwo(n: nat, x: nat)
    ensures Unpack(n + 2, x) == Unpack(n, x / 256) + [x / 16 % 16, x % 16]
  {
    assert x / 16 / 16 == x / 256;
    assert Unpack(n + 1, x / 16) == Unpack(n, x / 256) + [x / 16 % 16];
  }

  /** Bytes and nibbles of a word are the same digits. */
  lemma {:induction false} WordNibbles(x: nat, n: nat)
    ensures NibblesOf(WordBytes(x, n)) == Unpack(2 * n, x)
    decreases n
  {
    if n > 0 {
      WordNibbles(x / 256, n - 1);
      NibblesOfConcat(WordBytes(x / 256, n - 1), [x % 256]);
      OneByte(x % 256);
      UnpackTwo(2 * n - 2, x);
      ByteDigits(x);
    }
  }

  lemma ByteDigits(x: nat)
    ensures x % 256 / 16 == x / 16 % 16 && x % 256 % 16 == x % 16
  {
    var q, r := x / 256, x % 256;
    assert x == 16 * (16 * q + r / 16) + r % 16;
    assert x / 16 == 16 * q + r / 16;
  }

  lemma NibblesOfLast(init: Bytes, last: Byte)
    ensures NibblesOf(init + [last]) == NibblesOf(init) + [last / 16, last % 16]
  {
    NibblesOfConcat(init, [last]);
    OneByte(last);
  }

  lemma {:induction false} BytesNibbles(b: Bytes)
    ensures Unpack(2 * |b|, FromBigEndian(b)) == NibblesOf(b) && FromBigEndian(b) < Pow2(8 * |b|)
    decreases |b|
  {
    if b != [] {
      var init, last := b[..|b| - 1], b[|b| - 1];
      BytesNibbles(init);
      assert b == init + [last];
      NibblesOfLast(init, last);
      LastByte(FromBigEndian(init), last);
      OneMoreByte(FromBigEndian(init), last, |init|);
      UnpackTwo(2 * |init|, 256 * FromBigEndian(init) + last);
    }
  }

  lemma OneMoreByte(x: nat, b: Byte, n: nat)
    requires x < Pow2(8 * n)
    ensures 256 * x + b < Pow2(8 * (n + 1))
  {
    Pow2Add(8, 8 * n);
    assert Pow2(8) == 256;
  }

  lemma LastByte(x: nat, b: Byte)
    ensures (256 * x + b) / 256 == x && (256 * x + b) / 16 % 16 == b / 16 && (256 * x + b) % 16 == b % 16
  {
    assert (256 * x + b) / 16 == 16 * x + b / 16;
  }

  lemma {:induction false} LastBytes(x: nat, n: nat, m: nat)
    requires m <= n
    ensures WordBytes(x, n)[n - m..] == WordBytes(x, m)
    decreases m
  {
    if m > 0 {
      LastBytes(x / 256, n - 1, m - 1);
      var w := WordBytes(x / 256, n - 1);
      assert (w + [x % 256])[n - m..] == w[n - m..] + [x % 256];
    }
  }

  // ---------------------------------------------------------------------------------------------
  // Encoding
  // ---------------------------------------------------------------------------------------------

  /** Zeros in front of a word's nibbles. */
  lemma LeadingZeros(n: Packed, z: nat)
    requires Valid(n)
    ensures Unpack(z + n.count, n.packed) == Unpack(z, 0) + View(n)
  {
    UnpackConcat(z, 0, n.count, n.packed);
  }

  lemma ZeroNibbles()
    ensures Unpack(1, 0) == [0] && Unpack(2, 0) == [0, 0]
  {
    assert Unpack(0, 0) == [];
    assert Unpack(1, 0) == [0];
  }

  /** The flags go into the high nibble of a byte that has only a low one. */
  lemma FlagByte(low: Nibble, flag: Nibble)
    ensures Or(low, Shl(flag, 4)) == 16 * flag + low
  {
    assert Pow2(4) == 16;
    OrDisjoint(flag, 4, low);
    OrSymmetric(Shl(flag, 4), low);
  }

  /** The bytes that hold a word and one more nibble start with zeros. */
  lemma WordHead(n: Packed)
    requires Valid(n)
    ensures NibblesOf(WordBytes(n.packed, (n.count + 2) / 2)) == (if n.count % 2 == 0 then [0, 0] else [0]) + View(n)
  {
    var m := (n.count + 2) / 2;
    var z := if n.count % 2 == 0 then 2 else 1;
    assert 2 * m == z + n.count;
    WordNibbles(n.packed, m);
    LeadingZeros(n, z);
    ZeroNibbles();
  }

  /** With the flags in its first nibble, the word's bytes are the hex-prefix encoding. */
  lemma FlaggedBytes(n: Packed, isLeaf: bool, w: Bytes, flags: Nibble)
    requires Valid(n) && w == WordBytes(n.packed, (n.count + 2) / 2)
    requires flags == (n.count % 2) + if isLeaf then 2 else 0
    ensures w[0] < 16 && w[0 := 16 * flags + w[0]] == HexPrefix(View(n), isLeaf)
  {
    WordHead(n);
    assert NibblesOf(w)[0] == w[0] / 16;
    var b: Bytes := w[0 := 16 * flags + w[0]];
    assert b[1..] == w[1..];
    assert NibblesOf(b) == [flags] + NibblesOf(w)[1..];
    if n.count % 2 == 0 {
      assert NibblesOf(b) == [flags, 0] + View(n);
    } else {
      assert NibblesOf(b) == [flags] + View(n);
    }
    PackedOfNibbles(b);
  }

  method ToHexPrefix(n: Packed, isLeaf: bool) returns (b: Bytes)
    requires Valid(n)
    ensures b == HexPrefix(View(n), isLeaf)
  {
    var numBytes := (n.count + 2) / 2;
    var flagIdx := 41 - numBytes;
    var bytes := new Byte[41](_ => 0);
    var flags: Nibble := (n.count % 2) + if isLeaf then 2 else 0;
    WriteBytes(bytes, n.packed);
    ghost var word := WordBytes(n.packed, 40);
    LastBytes(n.packed, 40, numBytes);
    FlagWindow(n, isLeaf, bytes[..], word, numBytes, flags);
    bytes[flagIdx] := Or(bytes[flagIdx], Shl(flags, 4));
    b := bytes[flagIdx..41];
  }

  /** The window of the buffer that holds the word's bytes, with the flags put into its first byte. */
  lemma FlagWindow(n: Packed, isLeaf: bool, s: Bytes, word: Bytes, numBytes: nat, flags: Nibble)
    requires Valid(n) && |s| == 41 && s[1..41] == word && numBytes == (n.count + 2) / 2
    requires word[40 - numBytes..] == WordBytes(n.packed, numBytes)
    requires flags == (n.count % 2) + if isLeaf then 2 else 0
    ensures var i := 41 - numBytes; var x := Or(s[i], Shl(flags, 4));
      x < 256 && s[i := x][i..41] == HexPrefix(View(n), isLeaf)
  {
    var w := WordBytes(n.packed, numBytes);
    FlaggedBytes(n, isLeaf, w, flags);
    FlagByte(w[0], flags);
    WindowUpdate(s, word, 41 - numBytes, w, 16 * flags + w[0]);
  }

  lemma WindowUpdate(s: Bytes, word: Bytes, i: nat, w: Bytes, x: Byte)
    requires |s| == 41 && s[1..41] == word && 1 <= i < 41 && word[i - 1..] == w
    ensures s[i] == w[0] && s[i := x][i..41] == w[0 := x]
  {
    TailOfTail(s, i);
    UpdatedHead(s, i, x);
  }

  lemma TailOfTail(s: Bytes, i: nat)
    requires |s| == 41 && 1 <= i < 41
    ensures s[i..41] == s[1..41][i - 1..] && s[i] == s[i..41][0]
  {
  }

  lemma UpdatedHead(s: Bytes, i: nat, x: Byte)
    requires |s| == 41 && i < 41
    ensures s[i := x][i..41] == s[i..41][0 := x]
  {
  }

  method WriteBytes(bytes: array<Byte>, x: nat)
    requires bytes.Length == 41
    modifies bytes
    ensures bytes[1..41] == WordBytes(x, 40)
  {
    var word := WordBytes(x, 40);
    forall i | 0 <= i < 40 { bytes[1 + i] := word[i]; }
  }

  // ---------------------------------------------------------------------------------------------
  // Decoding
  // ---------------------------------------------------------------------------------------------

  predicate IsExtensionNode(path: Bytes)
    requires path != []
  {
    path[0] / 16 == 0 || path[0] / 16 == 1
  }

  predicate IsLeafNode(path: Bytes)
    requires path != []
  {
    path[0] / 16 == 2 || path[0] / 16 == 3
  }

  /** What is left of a path when its flags are taken off. */
  function WithoutFlags(path: Bytes, evenFlag: Nibble): Key
    requires path != []
  {
    var k := NibblesOf(path);
    if k[0] == evenFlag then k[2..] else k[1..]
  }

  /** The path of a leaf (even flag 2) or an extension (even flag 0). Longer or empty byte strings make
      the program panic. */
  method ParsePath(path: Bytes, evenFlag: Nibble) returns (n: Packed)
    requires 0 < |path| <= 33
    ensures Valid(n) && View(n) == WithoutFlags(path, evenFlag)
  {
    BytesNibbles(path);
    assert 4 * (2 * |path|) == 8 * |path|;
    var encoded := new NibblesMut(Packed(2 * |path|, FromBigEndian(path)));
    ghost var k := NibblesOf(path);
    assert encoded.Contents() == k;
    var first := encoded.PopFront();
    HeadAndTail(k, first, encoded.Contents());
    if first == evenFlag {
      var second := encoded.PopFront();
      HeadAndTail(k[1..], second, encoded.Contents());
    }
    n := encoded.Value();
  }

  lemma HeadAndTail(k: Key, first: Nibble, rest: Key)
    requires k == [first] + rest
    ensures k[0] == first && k[1..] == rest && (|rest| > 0 ==> k[2..] == rest[1..])
  {
  }

  /** Decoding an encoded path gives back the nibbles, and its first nibble tells leaves from
      extensions. */
  lemma HexPrefixRoundTrip(k: Key, isLeaf: bool)
    ensures var b := HexPrefix(k, isLeaf);
      && b != [] && (|k| <= 64 ==> |b| <= 33)
      && WithoutFlags(b, if isLeaf then 2 else 0) == k
      && IsLeafNode(b) == isLeaf && IsExtensionNode(b) == !isLeaf
  {
    var flag: Nibble := if isLeaf then 2 else 0;
    var b := HexPrefix(k, isLeaf);
    if |k| % 2 == 0 {
      NibblesOfPacked([flag, 0] + k);
      assert NibblesOf(b)[2..] == k;
    } else {
      NibblesOfPacked([flag + 1] + k);
      assert NibblesOf(b)[1..] == k;
    }
    assert NibblesOf(b)[0] == b[0] / 16;
  }

  /** Encoding and decoding packed nibbles of up to 64 places changes nothing. */
  method EncodeAndParse(n: Packed, isLeaf: bool) returns (m: Packed)
    requires Valid(n) && n.count <= 64
    ensures m == n
  {
    HexPrefixRoundTrip(View(n), isLeaf);
    var b := ToHexPrefix(n, isLeaf);
    m := ParsePath(b, if isLeaf then 2 else 0);
    ViewInjective(m, n);
  }
}
