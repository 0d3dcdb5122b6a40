/** The words of a serialized tree, number by number: packed keys and the cells of each node. */
module SmtCells {
  import opened Wrappers
  import opened Arithmetic
  import opened SmtKeys
  import opened SmtTree
  import opened SmtSerialize

  lemma NextWord(x: nat, i: nat, a: nat, low: Limb, rest: nat)
    requires x / Pow2(64 * i) == a && a == low + U64 * rest
    ensures x / Pow2(64 * (i + 1)) == rest && a % Pow2(64) == low
  {
    Pow2Of64();
    RemainderUnique(a, U64, rest, low);
    assert 64 * i + 64 == 64 * (i + 1);
    Pow2Add(64 * i, 64);
    DivDiv(x, Pow2(64 * i), Pow2(64));
  }

  /** The limbs from the given one on, as a number. */
  function LimbsFrom(k: Key, i: nat): nat
    decreases 4 - i
  {
    if i >= 4 then 0 else k[i] + U64 * LimbsFrom(k, i + 1)
  }

  lemma KeyIsLimbs(k: Key)
    ensures Key2U(k) == LimbsFrom(k, 0)
  {
    assert LimbsFrom(k, 3) == k[3] + U64 * LimbsFrom(k, 4);
    assert LimbsFrom(k, 2) == k[2] + U64 * LimbsFrom(k, 3);
    assert LimbsFrom(k, 1) == k[1] + U64 * LimbsFrom(k, 2);
  }

  lemma {:induction false} KeyFrom(k: Key, i: nat)
    requires i <= 4
    ensures Key2U(k) / Pow2(64 * i) == LimbsFrom(k, i)
    decreases i
  {
    if i == 0 {
      assert Pow2(0) == 1;
      KeyIsLimbs(k);
    } else {
      KeyFrom(k, i - 1);
      NextWord(Key2U(k), i - 1, LimbsFrom(k, i - 1), k[i - 1], LimbsFrom(k, i));
    }
  }

  /** The word of a key holds its four limbs, the first one lowest. */
  lemma KeyWord(k: Key, i: nat)
    requires i < 4
    ensures Key2U(k) / Pow2(64 * i) % Pow2(64) == k[i]
  {
    KeyFrom(k, i);
    NextWord(Key2U(k), i, LimbsFrom(k, i), k[i], LimbsFrom(k, i + 1));
  }

  // ---------------------------------------------------------------------------------------------
  // Cells
  // ---------------------------------------------------------------------------------------------

  /** The cells of a node: 0 and a digest, 2 and the remaining key and the value of a leaf, or 1 and where the
      left and the right child start. */
  ghost predicate Cells(v: seq<Cell>, ptr: nat, p: Part)
    decreases p
  {
    match p
    case Gap => ptr + 1 < |v| && v[ptr] == Num(0) && v[ptr + 1] in {Num(0), HashCell(Zero)}
    case Hashed(d) => ptr + 1 < |v| && v[ptr] == Num(0) && (v[ptr + 1] == HashCell(d) || (v[ptr + 1].Num? && d == Opaque(v[ptr + 1].n)))
    case LeafPart(rem, value) => ptr + 2 < |v| && v[ptr] == Num(2) && v[ptr + 1].Num? && U2K(v[ptr + 1].n) == rem && v[ptr + 2] == Num(value)
    case Fork(l, r) =>
      && ptr + 2 < |v| && v[ptr] == Num(1) && v[ptr + 1].Num? && v[ptr + 2].Num?
      && Cells(v, v[ptr + 1].n, l) && Cells(v, v[ptr + 2].n, r)
  }

  lemma {:induction false} DecodedCells(v: seq<Cell>, ptr: nat)
    requires Decode(v, ptr).Ok?
    ensures Cells(v, ptr, Decode(v, ptr).value)
    decreases Measure(v, ptr)
  {
    if v[ptr] == Num(INTERNAL_TYPE) {
      assert DecodeChild(v, ptr, 0).Ok? && DecodeChild(v, ptr, 1).Ok?;
      DecodedCells(v, v[ptr + 1].n);
      DecodedCells(v, v[ptr + 2].n);
    }
  }
}
