/** Node encodings and root hashes. Keccak is a parameter: everything holds for every hash function. */
module TrieHashing {
  import opened Nibbles
  import opened PartialTrie

  type Hasher = Bytes -> H256

  datatype Encoded = Raw(bytes: Bytes) | Hashed(hash: H256)

  // ---------------------------------------------------------------------------------------------
  // RLP and hex-prefix, as far as node encodings need them
  // ---------------------------------------------------------------------------------------------

  function BigEndian(n: nat): Bytes {
    if n == 0 then [] else BigEndian(n / 256) + [n % 256]
  }

  /** Lengths fit in 64 bits on the machine, so the tag byte never wraps. */
  function LengthPrefix(offset: Byte, n: nat): Bytes {
    if n <= 55 then [(offset + n) % 256]
    else [(offset + 55 + |BigEndian(n)|) % 256] + BigEndian(n)
  }

  function RlpString(b: Bytes): Bytes {
    if |b| == 1 && b[0] < 0x80 then b else LengthPrefix(0x80, |b|) + b
  }

  function RlpList(payload: Bytes): Bytes {
    LengthPrefix(0xc0, |payload|) + payload
  }

  function PackNibbles(k: Key): Bytes
    requires |k| % 2 == 0
  {
    if k == [] then []
    else
      var high: int := k[0];
      [16 * high + k[1]] + PackNibbles(k[2..])
  }

  /** Hex-prefix encoding, Appendix C of the Ethereum Yellow Paper. */
  function HexPrefix(k: Key, isLeaf: bool): Bytes {
    var flag: Nibble := if isLeaf then 2 else 0;
    if |k| % 2 == 0 then PackNibbles([flag, 0] + k) else PackNibbles([flag + 1] + k)
  }

  // ---------------------------------------------------------------------------------------------
  // Node encodings
  // ---------------------------------------------------------------------------------------------

  function HashIfLarge(bytes: Bytes, keccak: Hasher): Encoded {
    if |bytes| >= 32 then Hashed(keccak(bytes)) else Raw(bytes)
  }

  function Append(e: Encoded): Bytes {
    match e
    case Raw(b) => b
    case Hashed(h) => RlpString(h)
  }

  function AppendAll(es: seq<Encoded>): Bytes {
    if es == [] then [] else Append(es[0]) + AppendAll(es[1..])
  }

  function Encode(t: Node, keccak: Hasher): Encoded
    decreases t
  {
    match t
    case Empty => Raw([0x80])
    case Hash(h) => Hashed(h)
    case Branch(children, value) =>
      var encoded := seq(|children|, i requires 0 <= i < |children| => Encode(children[i], keccak));
      HashIfLarge(RlpList(AppendAll(encoded) + RlpString(value)), keccak)
    case Extension(n, child) =>
      HashIfLarge(RlpList(RlpString(HexPrefix(n, false)) + Append(Encode(child, keccak))), keccak)
    case Leaf(n, value) =>
      HashIfLarge(RlpList(RlpString(HexPrefix(n, true)) + RlpString(value)), keccak)
  }

  /** The hash of a trie: short encodings are hashed too, at the root. */
  function RootHash(t: Node, keccak: Hasher): H256 {
    match Encode(t, keccak)
    case Raw(b) => keccak(b)
    case Hashed(h) => h
  }
}
