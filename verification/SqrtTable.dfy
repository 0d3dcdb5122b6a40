/** The exponent table of the BLS12-381 square root, least significant bit first. */
module SqrtTable {
  import opened Arithmetic

  function Num(b: bool): nat {
    if b then 1 else 0
  }

  /** The number that a sequence of bits denotes. */
  function ValueOf(bits: seq<bool>): nat {
    if bits == [] then 0 else Num(bits[0]) + 2 * ValueOf(bits[1..])
  }

  lemma {:induction false} ValueOfConcat(s: seq<bool>, t: seq<bool>)
    ensures ValueOf(s + t) == ValueOf(s) + Pow2(|s|) * ValueOf(t)
  {
    if s == [] {
      assert s + t == t;
    } else {
      assert (s + t)[1..] == s[1..] + t;
      ValueOfConcat(s[1..], t);
    }
  }

  lemma Cons(b: bool, rest: seq<bool>)
    ensures ValueOf([b] + rest) == Num(b) + 2 * ValueOf(rest)
  {
    assert ([b] + rest)[1..] == rest;
  }

  lemma Three(a: bool, b: bool, c: bool, rest: seq<bool>)
    ensures ValueOf([a, b, c] + rest) == Num(a) + 2 * Num(b) + 4 * Num(c) + 8 * ValueOf(rest)
  {
    Cons(c, rest);
    Cons(b, [c] + rest);
    Cons(a, [b] + ([c] + rest));
    assert [a, b, c] + rest == [a] + ([b] + ([c] + rest));
  }

  lemma FourValue(a: bool, b: bool, c: bool, d: bool, rest: seq<bool>)
    ensures ValueOf([a, b, c, d] + rest) == Num(a) + 2 * Num(b) + 4 * Num(c) + 8 * Num(d) + 16 * ValueOf(rest)
  {
    Three(b, c, d, rest);
    Cons(a, [b, c, d] + rest);
    assert [a, b, c, d] + rest == [a] + ([b, c, d] + rest);
  }

  function Four(a: bool, b: bool, c: bool, d: bool, rest: seq<bool>): (bits: seq<bool>)
    ensures |bits| == 4 + |rest|
    ensures ValueOf(bits) == Num(a) + 2 * Num(b) + 4 * Num(c) + 8 * Num(d) + 16 * ValueOf(rest)
  {
    FourValue(a, b, c, d, rest);
    [a, b, c, d] + rest
  }

  /** Sixteen bits of the table, and what follows them. */
  function Row(b0: bool, b1: bool, b2: bool, b3: bool, b4: bool, b5: bool, b6: bool, b7: bool,
               b8: bool, b9: bool, b10: bool, b11: bool, b12: bool, b13: bool, b14: bool, b15: bool, rest: seq<bool>): (bits: seq<bool>)
    ensures |bits| == 16 + |rest|
    ensures ValueOf(bits) == 65536 * ValueOf(rest)
      + 1 * Num(b0) + 2 * Num(b1) + 4 * Num(b2) + 8 * Num(b3)
      + 16 * Num(b4) + 32 * Num(b5) + 64 * Num(b6) + 128 * Num(b7)
      + 256 * Num(b8) + 512 * Num(b9) + 1024 * Num(b10) + 2048 * Num(b11)
      + 4096 * Num(b12) + 8192 * Num(b13) + 16384 * Num(b14) + 32768 * Num(b15)
  {
    Four(b0, b1, b2, b3, Four(b4, b5, b6, b7, Four(b8, b9, b10, b11, Four(b12, b13, b14, b15, rest))))
  }

  /** Bits 0 to 63 of the table. */
  function Bits0(rest: seq<bool>): (bits: seq<bool>)
    ensures |bits| == 64 + |rest|
    ensures ValueOf(bits) == 0xee7fbfffffffeaab + 0x1_0000000000000000 * ValueOf(rest)
  {
    Row(true, true, false, true, false, true, false, true, false, true, false, true, false, true, true, true,
    Row(true, true, true, true, true, true, true, true, true, true, true, true, true, true, true, true,
    Row(true, true, true, true, true, true, true, true, true, true, true, true, true, true, false, true,
    Row(true, true, true, true, true, true, true, false, false, true, true, true, false, true, true, true,
    rest))))
  }

  /** Bits 64 to 127 of the table. */
  function Bits64(rest: seq<bool>): (bits: seq<bool>)
    ensures |bits| == 64 + |rest|
    ensures ValueOf(bits) == 0x7aaffffac54ffff + 0x1_0000000000000000 * ValueOf(rest)
  {
    Row(true, true, true, true, true, true, true, true, true, true, true, true, true, true, true, true,
    Row(false, false, true, false, true, false, true, false, false, false, true, true, false, true, false, true,
    Row(true, true, true, true, true, true, true, true, true, true, true, true, true, true, true, true,
    Row(false, true, false, true, false, true, false, true, true, true, true, false, false, false, false, false,
    rest))))
  }

  /** Bits 128 to 191 of the table. */
  function Bits128(rest: seq<bool>): (bits: seq<bool>)
    ensures |bits| == 64 + |rest|
    ensures ValueOf(bits) == 0xd9cc34a83dac3d89 + 0x1_0000000000000000 * ValueOf(rest)
  {
    Row(true, false, false, true, false, false, false, true, true, false, true, true, true, true, false, false,
    Row(false, false, true, true, false, true, false, true, true, false, true, true, true, true, false, false,
    Row(false, false, false, true, false, true, false, true, false, false, true, false, true, true, false, false,
    Row(false, false, true, true, false, false, true, true, true, false, false, true, true, false, true, true,
    rest))))
  }

  /** Bits 192 to 255 of the table. */
  function Bits192(rest: seq<bool>): (bits: seq<bool>)
    ensures |bits| == 64 + |rest|
    ensures ValueOf(bits) == 0xd91dd2e13ce144af + 0x1_0000000000000000 * ValueOf(rest)
  {
    Row(true, true, true, true, false, true, false, true, false, false, true, false, false, false, true, false,
    Row(true, false, false, false, false, true, true, true, false, false, true, true, true, true, false, false,
    Row(true, false, false, false, false, true, true, true, false, true, false, false, true, false, true, true,
    Row(true, false, true, true, true, false, false, false, true, false, false, true, true, false, true, true,
    rest))))
  }

  /** Bits 256 to 319 of the table. */
  function Bits256(rest: seq<bool>): (bits: seq<bool>)
    ensures |bits| == 64 + |rest|
    ensures ValueOf(bits) == 0x92c6e9ed90d2eb35 + 0x1_0000000000000000 * ValueOf(rest)
  {
    Row(true, false, true, false, true, true, false, false, true, true, false, true, false, true, true, true,
    Row(false, true, false, false, true, false, true, true, false, false, false, false, true, false, false, true,
    Row(true, false, true, true, false, true, true, true, true, false, false, true, false, true, true, true,
    Row(false, true, true, false, false, false, true, true, false, true, false, false, true, false, false, true,
    rest))))
  }

  /** Bits 320 to 378 of the table. */
  function Bits320(rest: seq<bool>): (bits: seq<bool>)
    ensures |bits| == 59 + |rest|
    ensures ValueOf(bits) == 0x680447a8e5ff9a6 + 0x800000000000000 * ValueOf(rest)
  {
    assert ValueOf([false, true, true] + rest) == 6 + 8 * ValueOf(rest) by {
      Three(false, true, true, rest);
    }
    Row(false, true, true, false, false, true, false, true, true, false, false, true, true, true, true, true,
    Row(true, true, true, true, true, false, true, false, false, true, true, true, false, false, false, true,
    Row(false, true, false, true, true, true, true, false, false, false, true, false, false, false, true, false,
    Four(false, false, false, false,
    Four(false, false, false, true,
    [false, true, true] + rest)))))
  }

  method LowRows(rest: seq<bool>) returns (bits: seq<bool>)
    ensures ValueOf(bits) == 0xd9cc34a83dac3d89_07aaffffac54ffff_ee7fbfffffffeaab + 0x1_0000000000000000_0000000000000000_0000000000000000 * ValueOf(rest)
    ensures |bits| == 192 + |rest|
  {
    bits := Bits0(Bits64(Bits128(rest)));
  }

  method HighRows(rest: seq<bool>) returns (bits: seq<bool>)
    ensures ValueOf(bits) == 0x680447a8e5ff9a6_92c6e9ed90d2eb35_d91dd2e13ce144af + 0x800000000000000_0000000000000000_0000000000000000 * ValueOf(rest)
    ensures |bits| == 187 + |rest|
  {
    bits := Bits192(Bits256(Bits320(rest)));
  }

  /** The whole table denotes (p + 1) / 4 for the base field's order p. */
  method ExponentBits() returns (bits: seq<bool>)
    ensures 4 * ValueOf(bits) == 0x1a0111ea397fe69a_4b1ba7b6434bacd7_64774b84f38512bf_6730d2a0f6b0f624_1eabfffeb153ffff_b9feffffffffaaab + 1 && |bits| == 379
  {
    bits := HighRows([]);
    bits := LowRows(bits);
  }
}
