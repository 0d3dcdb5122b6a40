/** The words of the sparse tree, number by number: limbs of values, bits of paths and of remaining keys. */
module SmtWords {
  import opened Wrappers
  import opened Arithmetic
  import opened SmtKeys
  import opened SmtTree

  // ---------------------------------------------------------------------------------------------
  // Values
  // ---------------------------------------------------------------------------------------------

  lemma Pow2Of32()
    ensures Pow2(32) == U32
  {
    assert Pow2(4) == 16;
    Pow2Square(4, 16);
    Pow2Square(8, 256);
    Pow2Square(16, 0x1_0000);
  }

  lemma {:induction false} LimbAt(x: nat, n: nat, i: nat)
    requires i < n
    ensures LimbsOf(x, n)[i] == x / Pow2(32 * i) % U32
    decreases n
  {
    if i == 0 {
      assert Pow2(0) == 1;
    } else {
      LimbAt(x / U32, n - 1, i - 1);
      Pow2Of32();
      Pow2Add(32, 32 * (i - 1));
      assert 32 + 32 * (i - 1) == 32 * i;
      DivDiv(x, U32, Pow2(32 * (i - 1)));
    }
  }

  /** Limb i of a value is its bits 32 * i to 32 * i + 31. */
  lemma LimbsOfValue(x: Word)
    ensures |F2Limbs(x)| == 8
    ensures forall i: nat :: i < 8 ==> F2Limbs(x)[i] == x / Pow2(32 * i) % Pow2(32)
    ensures forall i: nat :: i < 8 ==> F2Limbs(x)[i] < 0x1_0000_0000
  {
    Pow2Of32();
    forall i: nat | i < 8 ensures F2Limbs(x)[i] == x / Pow2(32 * i) % Pow2(32) { LimbAt(x, 8, i); }
  }

  // ---------------------------------------------------------------------------------------------
  // Keys
  // ---------------------------------------------------------------------------------------------

  /** The path takes the lowest bits of the four limbs first, limb by limb. */
  lemma PathBit(k: Key, i: nat, j: nat)
    requires i < 64 && j < 4
    ensures Split(k)[4 * i + j] <==> k[j] / Pow2(i) % 2 == 1
  {
    assert (4 * i + j) % 4 == j && (4 * i + j) / 4 == i;
  }

  /** What is left of a key after n path bits: each limb is shifted by the number of its bits among them,
      and nothing else is changed. */
  lemma RestBits(k: Key, n: nat, j: nat, i: nat)
    requires n <= 252 && j < 4
    ensures var taken := n / 4 + if j < n % 4 then 1 else 0;
      && RemoveKeyBits(k, n)[j] == k[j] / Pow2(taken)
      && (Bit(RemoveKeyBits(k, n)[j], i) <==> Bit(k[j], taken + i))
      && (taken + i < 64 ==> (Bit(RemoveKeyBits(k, n)[j], i) <==> Split(k)[4 * (taken + i) + j]))
  {
    var taken := n / 4 + if j < n % 4 then 1 else 0;
    assert Consumed(n, j) == taken;
    assert RemoveKeyBits(k, n)[j] == ShiftLimb(k[j], taken);
    Pow2Add(taken, i);
    DivDiv(k[j], Pow2(taken), Pow2(i));
    if taken + i < 64 { PathBit(k, taken + i, j); }
  }
}
