/** Sparse Merkle tree keys: four field elements whose bits are interleaved into a path. */
module SmtKeys {
  import opened Arithmetic

  const U64: nat := 0x1_0000_0000_0000_0000

  /** Limbs are canonical representatives of field elements. */
  type Limb = x: nat | x < GOLDILOCKS
  type Key = k: seq<Limb> | |k| == 4 witness [0, 0, 0, 0]
  type Bits = seq<bool>

  /** Path bits that can be taken off a key before some limb would be shifted by its whole width. */
  const MAX_DEPTH: nat := 252

  /** How many of the first n path bits come from limb j. */
  function Consumed(n: nat, j: nat): nat {
    n / 4 + if n / 4 * 4 + j < n then 1 else 0
  }

  /** The path of a key: bit 4 * i + j is bit i of limb j. */
  function Split(k: Key): (bits: Bits)
    ensures |bits| == 256
  {
    seq(256, b requires 0 <= b < 256 => Bit(k[b % 4], b / 4))
  }

  function ShiftLimb(x: Limb, s: nat): Limb {
    DivMod(x, Pow2(s));
    x / Pow2(s)
  }

  /** What is left of a key after its first n path bits. */
  function RemoveKeyBits(k: Key, n: nat): Key
    requires n <= MAX_DEPTH
  {
    [ShiftLimb(k[0], Consumed(n, 0)), ShiftLimb(k[1], Consumed(n, 1)),
     ShiftLimb(k[2], Consumed(n, 2)), ShiftLimb(k[3], Consumed(n, 3))]
  }

  /** The bits of limb j among the given path bits, as a number. */
  function Gathered(bits: Bits, j: nat): nat
    decreases |bits|
  {
    if |bits| == 0 then 0
    else
      var i := |bits| - 1;
      Gathered(bits[..i], j) + if i % 4 == j && bits[i] then Pow2(i / 4) else 0
  }

  /** A limb put together from the rest and the gathered bits. The shift drops what leaves 64 bits,
      and field elements are read modulo the field's order. */
  function JoinLimb(bits: Bits, rest: Limb, j: nat): Limb {
    ShiftIn(rest, Consumed(|bits|, j), Gathered(bits, j))
  }

  function ShiftIn(rest: Limb, s: nat, low: nat): Limb {
    (rest * Pow2(s) % U64 + low) % GOLDILOCKS
  }

  /** Puts path bits back in front of a remaining key. */
  function Join(bits: Bits, rem: Key): Key
    requires |bits| <= MAX_DEPTH
  {
    [JoinLimb(bits, rem[0], 0), JoinLimb(bits, rem[1], 1), JoinLimb(bits, rem[2], 2), JoinLimb(bits, rem[3], 3)]
  }

  // ---------------------------------------------------------------------------------------------
  // Taking apart and putting together
  // ---------------------------------------------------------------------------------------------

  lemma ConsumedStep(n: nat, j: nat)
    requires j < 4
    ensures Consumed(n + 1, j) == Consumed(n, j) + if n % 4 == j then 1 else 0
    ensures n % 4 == j ==> Consumed(n, j) == n / 4
  {
  }

  /** The first n path bits of a key hold the low bits of each limb. */
  lemma {:induction false} GatheredOfSplit(k: Key, n: nat, j: nat)
    requires n <= 256 && j < 4
    ensures Gathered(Split(k)[..n], j) == k[j] % Pow2(Consumed(n, j))
    decreases n
  {
    if n > 0 {
      GatheredOfSplit(k, n - 1, j);
      GatheredStep(Split(k), n - 1, j);
      if (n - 1) % 4 == j {
        ConsumedStep(n - 1, j);
        ModStep(k[j], (n - 1) / 4);
      }
    }
  }

  lemma Rejoin(x: Limb, p: nat)
    requires p > 0
    ensures (x / p * p % U64 + x % p) % GOLDILOCKS == x
  {
    DivMod(x, p);
    SmallMod(x / p * p, U64);
    SmallMod(x, GOLDILOCKS);
  }

  lemma JoinLimbSplit(k: Key, n: nat, j: nat)
    requires n <= MAX_DEPTH && j < 4
    ensures JoinLimb(Split(k)[..n], ShiftLimb(k[j], Consumed(n, j)), j) == k[j]
  {
    GatheredOfSplit(k, n, j);
    Rejoin(k[j], Pow2(Consumed(n, j)));
  }

  /** Joining the first n bits of a key's path with the rest gives back the key. */
  lemma JoinSplit(k: Key, n: nat)
    requires n <= MAX_DEPTH
    ensures Join(Split(k)[..n], RemoveKeyBits(k, n)) == k
  {
    JoinLimbSplit(k, n, 0);
    JoinLimbSplit(k, n, 1);
    JoinLimbSplit(k, n, 2);
    JoinLimbSplit(k, n, 3);
  }

  lemma Pow2Of64()
    ensures Pow2(64) == U64
  {
    assert Pow2(4) == 16;
    Pow2Square(4, 16);
    Pow2Square(8, 256);
    Pow2Square(16, 0x1_0000);
    Pow2Square(32, 0x1_0000_0000);
  }

  /** Different keys have different paths. */
  lemma SplitInjective(k1: Key, k2: Key)
    requires Split(k1) == Split(k2)
    ensures k1 == k2
  {
    forall j: nat | j < 4 ensures k1[j] == k2[j] {
      LimbOfSplit(k1, j);
      LimbOfSplit(k2, j);
    }
  }

  /** A limb is what its bits of the path add up to. */
  lemma LimbOfSplit(k: Key, j: nat)
    requires j < 4
    ensures Gathered(Split(k), j) == k[j]
  {
    Pow2Of64();
    GatheredOfSplit(k, 256, j);
    assert Consumed(256, j) == 64;
    assert Split(k)[..256] == Split(k);
    SmallMod(k[j], U64);
  }

  // ---------------------------------------------------------------------------------------------
  // The loops
  // ---------------------------------------------------------------------------------------------

  lemma NextPathBit(k: Key, i: nat, j: nat)
    requires i < 64 && j < 4
    ensures Split(k)[..4 * i + j + 1] == Split(k)[..4 * i + j] + [Bit(k[j], i)]
  {
    assert (4 * i + j) % 4 == j && (4 * i + j) / 4 == i;
  }

  method SplitKey(k: Key) returns (bits: Bits)
    ensures bits == Split(k)
  {
    bits := [];
    var arr: seq<nat> := [k[0], k[1], k[2], k[3]];
    for i := 0 to 64
      invariant |arr| == 4 && forall j: nat :: j < 4 ==> arr[j] == k[j] / Pow2(i)
      invariant bits == Split(k)[..4 * i]
    {
      for j := 0 to 4
        invariant |arr| == 4
        invariant forall l: nat :: l < 4 ==> arr[l] == k[l] / Pow2(if l < j then i + 1 else i)
        invariant bits == Split(k)[..4 * i + j]
      {
        NextPathBit(k, i, j);
        DivPow2Step(k[j], i);
        bits := bits + [arr[j] % 2 == 1];
        arr := arr[j := arr[j] / 2];
      }
    }
    assert Split(k)[..256] == Split(k);
  }

  /** One more bit: it goes to one of the four sums. */
  lemma GatheredStep(bits: Bits, i: nat, j: nat)
    requires i < |bits| && j < 4
    ensures Gathered(bits[..i + 1], j) == Gathered(bits[..i], j) + if i % 4 == j && bits[i] then Pow2(Consumed(i, j)) else 0
    ensures Consumed(i + 1, j) == Consumed(i, j) + if i % 4 == j then 1 else 0
  {
    assert bits[..i + 1][..i] == bits[..i];
    ConsumedStep(i, j);
  }

  method JoinKey(bits: Bits, rem: Key) returns (k: Key)
    requires |bits| <= MAX_DEPTH
    ensures k == Join(bits, rem)
  {
    var n: seq<nat> := [0, 0, 0, 0];
    var accs: seq<nat> := [0, 0, 0, 0];
    for i := 0 to |bits|
      invariant |n| == 4 && |accs| == 4
      invariant forall j: nat :: j < 4 ==> n[j] == Consumed(i, j) && accs[j] == Gathered(bits[..i], j)
    {
      var j := i % 4;
      forall l: nat | l < 4
        ensures Consumed(i + 1, l) == n[l] + if l == j then 1 else 0
        ensures Gathered(bits[..i + 1], l) == accs[l] + if l == j && bits[i] then Pow2(n[l]) else 0
      {
        GatheredStep(bits, i, l);
      }
      if bits[i] { accs := accs[j := accs[j] + Pow2(n[j])]; }   // a free bit is set
      n := n[j := n[j] + 1];
    }
    assert bits[..|bits|] == bits;
    k := [ShiftIn(rem[0], n[0], accs[0]), ShiftIn(rem[1], n[1], accs[1]),
          ShiftIn(rem[2], n[2], accs[2]), ShiftIn(rem[3], n[3], accs[3])];
  }
}
