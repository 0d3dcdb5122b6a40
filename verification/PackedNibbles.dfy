/** Nibbles packed into one 320-bit word, with the first nibble in the highest place, as a refinement
    of nibble sequences. */
module PackedNibbles {
  import opened Arithmetic
  import opened Bitwise
  import opened Nibbles

  /** The word has five limbs of 64 bits. */
  const LIMBS: nat := 5
  const LIMB_WIDTH: nat := 64
  const WIDTH: nat := LIMBS * LIMB_WIDTH

  datatype Packed = Packed(count: nat, packed: nat)

  /** The invariant: no bits beyond the counted nibbles. The longest value, read from 33 bytes, has 66
      nibbles. */
  predicate Valid(n: Packed) {
    n.count <= 66 && n.packed < Pow2(4 * n.count)
  }

  /** The nibbles that a word holds. */
  function Unpack(count: nat, packed: nat): (k: Key)
    ensures |k| == count
  {
    if count == 0 then [] else Unpack(count - 1, packed / 16) + [packed % 16]
  }

  function View(n: Packed): Key {
    Unpack(n.count, n.packed)
  }

  // ---------------------------------------------------------------------------------------------
  // Words and sequences
  // ---------------------------------------------------------------------------------------------

  lemma Pow16(n: nat)
    requires n > 0
    ensures Pow2(4 * n) == 16 * Pow2(4 * (n - 1))
  {
    var m := 4 * (n - 1);
    assert 4 * n == 4 + m;
    Pow2Add(4, m);
    FourOnes();
  }

  lemma {:induction false} UnpackAt(count: nat, packed: nat, i: nat)
    requires i < count
    ensures Unpack(count, packed)[i] == packed / Pow2(4 * (count - 1 - i)) % 16
    decreases count
  {
    if i == count - 1 {
      assert Pow2(0) == 1;
    } else {
      UnpackAt(count - 1, packed / 16, i);
      Pow16(count - 1 - i);
      DivDiv(packed, 16, Pow2(4 * (count - 2 - i)));
    }
  }

  /** The first nibble stands highest: nibble i is the four bits above the count - 1 - i nibbles behind it. */
  lemma NibblePlace(n: Packed, i: nat)
    requires i < n.count
    ensures View(n)[i] == n.packed / Pow2(4 * (n.count - 1 - i)) % 16
  {
    UnpackAt(n.count, n.packed, i);
  }

  lemma LastNibble(p: nat, q: nat, d: nat)
    requires q < 16 * d
    ensures (p * (16 * d) + q) / 16 == p * d + q / 16 && (p * (16 * d) + q) % 16 == q % 16
    ensures q / 16 < d
  {
    assert p * (16 * d) + q == (p * d + q / 16) * 16 + q % 16;
    RemainderUnique(p * (16 * d) + q, 16, p * d + q / 16, q % 16);
  }

  lemma {:induction false} UnpackConcat(a: nat, p: nat, b: nat, q: nat)
    requires q < Pow2(4 * b)
    ensures Unpack(a + b, p * Pow2(4 * b) + q) == Unpack(a, p) + Unpack(b, q)
    decreases b
  {
    if b > 0 {
      Pow16(b);
      LastNibble(p, q, Pow2(4 * (b - 1)));
      UnpackConcat(a, p, b - 1, q / 16);
    }
  }

  lemma DividedWord(n: Packed, i: nat)
    requires Valid(n) && i <= n.count
    ensures var d := Pow2(4 * (n.count - i));
      0 <= n.packed / d < Pow2(4 * i) && n.packed % d < d && n.packed / d * d + n.packed % d == n.packed
  {
    var d := Pow2(4 * (n.count - i));
    DivMod(n.packed, d);
    Pow2Add(4 * i, 4 * (n.count - i));
    DivBound(n.packed, d, Pow2(4 * i));
  }

  /** Where a sequence is split, the word is divided. */
  lemma UnpackSplit(n: Packed, i: nat)
    requires Valid(n) && i <= n.count
    ensures var d := Pow2(4 * (n.count - i));
      && 0 <= n.packed / d < Pow2(4 * i) && n.packed % d < d
      && View(n)[..i] == Unpack(i, n.packed / d) && View(n)[i..] == Unpack(n.count - i, n.packed % d)
  {
    var d := Pow2(4 * (n.count - i));
    DividedWord(n, i);
    UnpackConcat(i, n.packed / d, n.count - i, n.packed % d);
  }

  lemma {:induction false} UnpackInjective(c: nat, p: nat, q: nat)
    requires p < Pow2(4 * c) && q < Pow2(4 * c) && Unpack(c, p) == Unpack(c, q)
    ensures p == q
    decreases c
  {
    if c > 0 {
      Pow16(c);
      var u, v := Unpack(c, p), Unpack(c, q);
      assert u[..c - 1] == Unpack(c - 1, p / 16) && v[..c - 1] == Unpack(c - 1, q / 16);
      assert u[c - 1] == p % 16 && v[c - 1] == q % 16;
      UnpackInjective(c - 1, p / 16, q / 16);
    }
  }

  /** Equal words are equal sequences: comparing fields compares keys. */
  lemma ViewInjective(a: Packed, b: Packed)
    requires Valid(a) && Valid(b) && View(a) == View(b)
    ensures a == b
  {
    UnpackInjective(a.count, a.packed, b.packed);
  }

  lemma FitsWord(n: Packed)
    requires Valid(n)
    ensures n.packed < Pow2(WIDTH)
  {
    Pow2Monotone(4 * n.count, WIDTH);
  }

  // ---------------------------------------------------------------------------------------------
  // Reading and splitting
  // ---------------------------------------------------------------------------------------------

  /** The byte of a word at a byte index. */
  function ByteAt(x: nat, i: nat): nat {
    x / Pow2(8 * i) % 256
  }

  lemma NibblesOf256(y: nat)
    ensures y % 256 % 16 == y % 16 && y % 256 / 16 % 16 == y / 16 % 16
  {
  }

  lemma LowNibble(x: nat, i: nat)
    ensures And(ByteAt(x, i), 0xf) == x / Pow2(8 * i) % 16
  {
    DivMod(x, Pow2(8 * i));
    NibblesOf256(x / Pow2(8 * i));
    FourOnes();
    AndOnes(ByteAt(x, i), 4);
  }

  lemma HighNibble(x: nat, i: nat)
    ensures Shr(And(ByteAt(x, i), 0xf0), 4) == x / Pow2(8 * i + 4) % 16
  {
    DivMod(x, Pow2(8 * i));
    NibblesOf256(x / Pow2(8 * i));
    FourOnes();
    MaskedShift(ByteAt(x, i), 4, 4);
    DivDiv(x, Pow2(8 * i), 16);
    Pow2Add(8 * i, 4);
  }

  lemma FourOnes()
    ensures Pow2(4) == 16 && Ones(4) == 0xf && Shl(Ones(4), 4) == 0xf0
  {
  }

  /** A nibble read through its byte. */
  lemma NibbleOfByte(x: nat, j: nat)
    ensures if j % 2 == 0 then And(ByteAt(x, j / 2), 0xf) == x / Pow2(4 * j) % 16
            else Shr(And(ByteAt(x, j / 2), 0xf0), 4) == x / Pow2(4 * j) % 16
  {
    if j % 2 == 0 {
      assert 8 * (j / 2) == 4 * j;
      LowNibble(x, j / 2);
    } else {
      assert 8 * (j / 2) + 4 == 4 * j;
      HighNibble(x, j / 2);
    }
  }

  function GetNibble(n: Packed, idx: nat): (r: nat)
    requires Valid(n) && idx < n.count
    ensures r == View(n)[idx]
  {
    var nibIdx := n.count - idx - 1;
    var byte := ByteAt(n.packed, nibIdx / 2);
    NibbleOfByte(n.packed, nibIdx);
    NibbleIs(n, idx);
    if nibIdx % 2 == 0 then And(byte, 0xf) else Shr(And(byte, 0xf0), 4)
  }

  lemma NibbleIs(n: Packed, idx: nat)
    requires Valid(n) && idx < n.count
    ensures View(n)[idx] == n.packed / Pow2(4 * (n.count - idx - 1)) % 16
  {
    UnpackSplit(n, idx + 1);
    assert View(n)[idx] == View(n)[..idx + 1][idx];
  }

  /** Masked and shifted down: the words of all the splitting operations. */
  lemma MaskedShift(x: nat, n: nat, s: nat)
    ensures Shr(And(x, Shl(Ones(n), s)), s) == x / Pow2(s) % Pow2(n)
  {
    AndShifted(x, Ones(n), s);
    AndOnes(Shr(x, s), n);
    var y := x / Pow2(s) % Pow2(n);
    RemainderUnique(y * Pow2(s), Pow2(s), y, 0);
  }

  function GetRange(n: Packed, start: nat, end: nat): (r: Packed)
    requires Valid(n) && start <= end <= n.count
    ensures Valid(r) && View(r) == View(n)[start..end]
  {
    var rangeCount := end - start;
    var shift := (n.count - end) * 4;
    var mask := Shl(Ones(rangeCount * 4), shift);
    RangeWord(n, start, end);
    Packed(rangeCount, Shr(And(n.packed, mask), shift))
  }

  lemma RangeWord(n: Packed, start: nat, end: nat)
    requires Valid(n) && start <= end <= n.count
    ensures var shift := (n.count - end) * 4;
      var r := Packed(end - start, Shr(And(n.packed, Shl(Ones((end - start) * 4), shift)), shift));
      Valid(r) && View(r) == View(n)[start..end]
  {
    RangeIs(n, start, end);
    MaskedShift(n.packed, (end - start) * 4, (n.count - end) * 4);
  }

  lemma RangeIs(n: Packed, start: nat, end: nat)
    requires Valid(n) && start <= end <= n.count
    ensures var x := n.packed / Pow2(4 * (n.count - end)) % Pow2(4 * (end - start));
      0 <= x < Pow2(4 * (end - start)) && Unpack(end - start, x) == View(n)[start..end]
  {
    UnpackSplit(n, end);
    var m := Packed(end, n.packed / Pow2(4 * (n.count - end)));
    UnpackSplit(m, start);
    assert View(n)[start..end] == View(n)[..end][start..];
  }

  lemma LowView(n: Packed, m: nat, low: nat)
    requires Valid(n) && m <= n.count && low == n.packed % Pow2(4 * (n.count - m))
    ensures Valid(Packed(n.count - m, low)) && View(Packed(n.count - m, low)) == View(n)[m..]
  {
    UnpackSplit(n, m);
  }

  lemma HighView(n: Packed, i: nat, high: nat)
    requires Valid(n) && i <= n.count && high == Shr(n.packed, 4 * (n.count - i))
    ensures Valid(Packed(i, high)) && View(Packed(i, high)) == View(n)[..i]
  {
    UnpackSplit(n, i);
  }

  /** The word below an index. */
  lemma LowMask(n: Packed, idx: nat)
    requires Valid(n) && idx <= n.count
    ensures var r := Packed(n.count - idx, And(n.packed, Ones((n.count - idx) * 4)));
      Valid(r) && View(r) == View(n)[idx..]
  {
    AndOnes(n.packed, (n.count - idx) * 4);
    LowView(n, idx, n.packed % Pow2(4 * (n.count - idx)));
  }

  /** The word above an index. */
  lemma HighMask(n: Packed, idx: nat)
    requires Valid(n) && idx <= n.count
    ensures Ones((n.count - idx) * 4) < Pow2(WIDTH)
    ensures var k := (n.count - idx) * 4; var r := Packed(idx, Shr(And(n.packed, Not(Ones(k), WIDTH)), k));
      Valid(r) && View(r) == View(n)[..idx]
  {
    HighPart(n, idx);
    HighView(n, idx, Shr(n.packed, 4 * (n.count - idx)));
  }

  function SplitAt(n: Packed, idx: nat): (r: (Packed, Packed))
    requires Valid(n) && idx <= n.count
    ensures Valid(r.0) && View(r.0) == View(n)[..idx]
    ensures Valid(r.1) && View(r.1) == View(n)[idx..]
  {
    var postCount := n.count - idx;
    var postMask := Ones(postCount * 4);
    HighMask(n, idx);
    LowMask(n, idx);
    (Packed(idx, Shr(And(n.packed, Not(postMask, WIDTH)), postCount * 4)), Packed(postCount, And(n.packed, postMask)))
  }

  /** What the complement of a low mask keeps, shifted down. */
  lemma HighPart(n: Packed, idx: nat)
    requires Valid(n) && idx <= n.count
    ensures var k := (n.count - idx) * 4;
      && Ones(k) < Pow2(WIDTH)
      && Shr(And(n.packed, Not(Ones(k), WIDTH)), k) == Shr(n.packed, k)
      && And(n.packed, Not(Ones(k), WIDTH)) == n.packed / Pow2(k) * Pow2(k)
  {
    var k := (n.count - idx) * 4;
    FitsWord(n);
    Pow2Monotone(k, WIDTH);
    HighRest(n.packed, k, WIDTH);
  }

  lemma HighRest(x: nat, k: nat, w: nat)
    requires x < Pow2(w) && Ones(k) < Pow2(w)
    ensures And(x, Not(Ones(k), w)) == x / Pow2(k) * Pow2(k) && Shr(And(x, Not(Ones(k), w)), k) == Shr(x, k)
  {
    AndNot(x, Ones(k), w);
    AndOnes(x, k);
    DivMod(x, Pow2(k));
    RemainderUnique(x / Pow2(k) * Pow2(k), Pow2(k), x / Pow2(k), 0);
  }

  function SplitPrefix(n: Packed, idx: nat): (r: Packed)
    requires Valid(n) && idx <= n.count
    ensures Valid(r) && View(r) == View(n)[..idx]
  {
    var shift := (n.count - idx) * 4;
    RangeWord(n, 0, idx);
    Packed(idx, Shr(And(n.packed, Shl(Ones(idx * 4), shift)), shift))
  }

  function SplitPostfix(n: Packed, idx: nat): (r: Packed)
    requires Valid(n) && idx <= n.count
    ensures Valid(r) && View(r) == View(n)[idx..]
  {
    LowMask(n, idx);
    Packed(n.count - idx, And(n.packed, Ones((n.count - idx) * 4)))
  }

  // ---------------------------------------------------------------------------------------------
  // Joining
  // ---------------------------------------------------------------------------------------------

  /** The word of two words side by side. */
  lemma JoinedWord(x: nat, s: nat, y: nat)
    requires y < Pow2(s)
    ensures Or(Shl(x, s), y) == x * Pow2(s) + y && Or(y, Shl(x, s)) == x * Pow2(s) + y
  {
    OrDisjoint(x, s, y);
    OrSymmetric(Shl(x, s), y);
  }

  /** The nibbles of two words side by side; the sum still fits the machine word. */
  lemma JoinedView(a: Packed, b: Packed, r: Packed)
    requires Valid(a) && Valid(b) && a.count + b.count <= 66
    requires r.count == a.count + b.count && r.packed == a.packed * Pow2(4 * b.count) + b.packed
    ensures Valid(r) && View(r) == View(a) + View(b) && r.packed < Pow2(WIDTH)
  {
    UnpackConcat(a.count, a.packed, b.count, b.packed);
    Pow2Add(4 * a.count, 4 * b.count);
    JoinBound(a.packed, b.packed, Pow2(4 * a.count), Pow2(4 * b.count));
    Pow2Monotone(4 * (a.count + b.count), WIDTH);
  }

  function Merge(n: Packed, post: Packed): (r: Packed)
    requires Valid(n) && Valid(post) && n.count + post.count <= 64
    ensures Valid(r) && View(r) == View(n) + View(post)
  {
    var r := Packed(n.count + post.count, Or(Shl(n.packed, post.count * 4), post.packed));
    JoinedWord(n.packed, post.count * 4, post.packed);
    JoinedView(n, post, r);
    r
  }

  lemma OneNibble(x: Nibble)
    ensures Valid(Packed(1, x)) && View(Packed(1, x)) == [x]
  {
    assert Pow2(4) == 16;
    assert Unpack(0, 0) == [];
  }

  function MergeNibble(n: Packed, post: Nibble): (r: Packed)
    requires Valid(n) && n.count < 64
    ensures Valid(r) && View(r) == View(n) + [post]
  {
    var r := Packed(n.count + 1, Or(Shl(n.packed, 4), post));
    OneNibble(post);
    JoinedWord(n.packed, 4, post);
    JoinedView(n, Packed(1, post), r);
    r
  }

  /** Merging the halves of a split gives back the original. */
  lemma MergeOfSplit(n: Packed, idx: nat)
    requires Valid(n) && idx <= n.count <= 64
    ensures Merge(SplitAt(n, idx).0, SplitAt(n, idx).1) == n
  {
    var r := SplitAt(n, idx);
    assert View(n)[..idx] + View(n)[idx..] == View(n);
    ViewInjective(Merge(r.0, r.1), n);
  }

  // ---------------------------------------------------------------------------------------------
  // The loops
  // ---------------------------------------------------------------------------------------------

  function ReversedKey(k: Key): (r: Key)
    ensures |r| == |k| && forall i :: 0 <= i < |k| ==> r[i] == k[|k| - 1 - i]
  {
    if k == [] then [] else ReversedKey(k[1..]) + [k[0]]
  }

  /** The nibble under the mask. */
  lemma MaskedNibble(n: Packed, i: nat)
    requires Valid(n) && i < n.count
    ensures Shr(And(n.packed, Shl(0xf, 4 * i)), i * 4) == View(n)[n.count - i - 1]
  {
    FourOnes();
    MaskedShift(n.packed, 4, 4 * i);
    NibbleIs(n, n.count - i - 1);
  }

  /** One nibble more: the word is shifted and the next nibble from the end is put below. */
  lemma ReverseStep(n: Packed, i: nat, reversed: nat, nib: Nibble)
    requires Valid(n) && i < n.count && Valid(Packed(i, reversed)) && nib == View(n)[n.count - i - 1]
    requires Unpack(i, reversed) == ReversedKey(View(n)[n.count - i..])
    ensures var next := Or(Shl(reversed, 4), nib);
      Valid(Packed(i + 1, next)) && Unpack(i + 1, next) == ReversedKey(View(n)[n.count - (i + 1)..])
  {
    ShiftedIn(i, reversed, nib);
    ReversedTail(View(n), n.count - (i + 1));
  }

  lemma ReversedTail(k: Key, j: nat)
    requires j < |k|
    ensures ReversedKey(k[j..]) == ReversedKey(k[j + 1..]) + [k[j]]
  {
    assert k[j..][0] == k[j] && k[j..][1..] == k[j + 1..];
  }

  lemma ShiftedIn(i: nat, word: nat, nib: Nibble)
    requires i < 66 && Valid(Packed(i, word))
    ensures Valid(Packed(i + 1, Or(Shl(word, 4), nib))) && Unpack(i + 1, Or(Shl(word, 4), nib)) == Unpack(i, word) + [nib]
  {
    OneNibble(nib);
    JoinedWord(word, 4, nib);
    JoinedView(Packed(i, word), Packed(1, nib), Packed(i + 1, Or(Shl(word, 4), nib)));
  }

  lemma ShlTwice(a: nat, s: nat, t: nat)
    ensures Shl(Shl(a, s), t) == Shl(a, s + t)
  {
    Pow2Add(s, t);
    MulAssoc(a, Pow2(s), Pow2(t));
  }

  method Reverse(n: Packed) returns (r: Packed)
    requires Valid(n)
    ensures Valid(r) && View(r) == ReversedKey(View(n))
  {
    var mask, reversed := 0xf, 0;
    for i := 0 to n.count
      invariant mask == Shl(0xf, 4 * i) && Valid(Packed(i, reversed))
      invariant Unpack(i, reversed) == ReversedKey(View(n)[n.count - i..])
    {
      var nib := Shr(And(n.packed, mask), i * 4);
      MaskedNibble(n, i);
      ReverseStep(n, i, reversed, nib);
      reversed := Shl(reversed, 4);
      reversed := Or(reversed, nib);
      ShlTwice(0xf, 4 * i, 4);
      mask := Shl(mask, 4);
    }
    r := Packed(n.count, reversed);
    assert View(n)[0..] == View(n);
  }

  /** Reversing twice changes nothing. */
  lemma ReversedTwice(k: Key)
    ensures ReversedKey(ReversedKey(k)) == k
  {
  }

  /** The index of the first nibble in which two keys of one length differ, or their length. */
  method FirstDifference(a: Packed, b: Packed) returns (i: nat)
    requires Valid(a) && Valid(b) && a.count == b.count
    ensures i == CommonPrefixLen(View(a), View(b))
  {
    if a.count == 0 { return 0; }
    var mask := Shl(0xf, (a.count - 1) * 4);
    i := 0;
    while i < a.count
      invariant i <= a.count && View(a)[..i] == View(b)[..i]
      invariant i < a.count ==> mask == Shl(0xf, 4 * (a.count - 1 - i))
    {
      Compared(a, b, i);
      if And(a.packed, mask) != And(b.packed, mask) { return; }
      if i + 1 < a.count { MaskDown(a.count, i); }
      mask := Shr(mask, 4);
      i := i + 1;
    }
    PrefixLenIs(View(a), View(b), i);
  }

  /** One more nibble, compared in its place. */
  lemma Compared(a: Packed, b: Packed, i: nat)
    requires Valid(a) && Valid(b) && a.count == b.count && i < a.count && View(a)[..i] == View(b)[..i]
    ensures var mask := Shl(0xf, 4 * (a.count - 1 - i));
      if And(a.packed, mask) == And(b.packed, mask) then View(a)[..i + 1] == View(b)[..i + 1]
      else i == CommonPrefixLen(View(a), View(b))
  {
    MaskedEqual(a, b, i);
    assert View(a)[..i + 1] == View(a)[..i] + [View(a)[i]];
    assert View(b)[..i + 1] == View(b)[..i] + [View(b)[i]];
    if View(a)[i] != View(b)[i] { PrefixLenIs(View(a), View(b), i); }
  }

  lemma MaskDown(count: nat, i: nat)
    requires i + 1 < count
    ensures Shr(Shl(0xf, 4 * (count - 1 - i)), 4) == Shl(0xf, 4 * (count - 1 - (i + 1)))
  {
    var s := 4 * (count - 2 - i);
    assert s + 4 == 4 * (count - 1 - i);
    Pow2Add(s, 4);
    assert Pow2(4) == 16;
    RemainderUnique(0xf * Pow2(s + 4), 16, 0xf * Pow2(s), 0);
  }

  lemma MaskedEqual(a: Packed, b: Packed, i: nat)
    requires Valid(a) && Valid(b) && a.count == b.count && i < a.count
    ensures var mask := Shl(0xf, 4 * (a.count - 1 - i));
      And(a.packed, mask) == And(b.packed, mask) <==> View(a)[i] == View(b)[i]
  {
    var s := 4 * (a.count - 1 - i);
    FourOnes();
    MaskedShift(a.packed, 4, s);
    MaskedShift(b.packed, 4, s);
    NibbleIs(a, i);
    NibbleIs(b, i);
    AndShifted(a.packed, 0xf, s);
    AndShifted(b.packed, 0xf, s);
    AndOnes(Shr(a.packed, s), 4);
    AndOnes(Shr(b.packed, s), 4);
  }

  method FirstDifferenceAnyLength(a: Packed, b: Packed) returns (i: nat)
    requires Valid(a) && Valid(b)
    ensures i == CommonPrefixLen(View(a), View(b))
  {
    var m := if a.count < b.count then a.count else b.count;
    i := FirstDifference(GetRange(a, 0, m), GetRange(b, 0, m));
    var u, v := View(a)[0..m], View(b)[0..m];
    assert u[..i] == View(a)[..i] && v[..i] == View(b)[..i];
    PrefixLenIs(View(a), View(b), i);
  }
}
