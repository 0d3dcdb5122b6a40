/** The operations on packed nibbles that change them in place. */
module NibbleBuffer {
  import opened Arithmetic
  import opened Bitwise
  import opened Nibbles
  import opened PackedNibbles

  class NibblesMut {
    var count: nat
    var packed: nat

    constructor (n: Packed)
      ensures Value() == n
    {
      count, packed := n.count, n.packed;
    }

    function Value(): Packed
      reads this
    {
      Packed(count, packed)
    }

    ghost predicate Ok()
      reads this
    {
      Valid(Value())
    }

    ghost function Contents(): Key
      reads this
    {
      View(Value())
    }

    method PushFront(n: Nibble)
      requires Ok() && count < 64
      modifies this
      ensures Ok() && Contents() == [n] + old(Contents())
    {
      OneNibble(n);
      ghost var before := Value();
      var shift := 4 * count;
      JoinedWord(n, shift, packed);
      count := count + 1;
      packed := Or(packed, Shl(n, shift));
      JoinedView(Packed(1, n), before, Value());
    }

    method PushBack(n: Nibble)
      requires Ok() && count < 64
      modifies this
      ensures Ok() && Contents() == old(Contents()) + [n]
    {
      OneNibble(n);
      ghost var before := Value();
      JoinedWord(packed, 4, n);
      count := count + 1;
      packed := Or(Shl(packed, 4), n);
      JoinedView(before, Packed(1, n), Value());
    }

    method PushAllFront(n: Packed)
      requires Ok() && Valid(n) && count + n.count <= 64
      modifies this
      ensures Ok() && Contents() == View(n) + old(Contents())
    {
      ghost var before := Value();
      var shift := 4 * count;
      JoinedWord(n.packed, shift, packed);
      count := count + n.count;
      packed := Or(packed, Shl(n.packed, shift));
      JoinedView(n, before, Value());
    }

    method PushAllBack(n: Packed)
      requires Ok() && Valid(n) && count + n.count <= 64
      modifies this
      ensures Ok() && Contents() == old(Contents()) + View(n)
    {
      ghost var before := Value();
      JoinedWord(packed, 4 * n.count, n.packed);
      count := count + n.count;
      packed := Or(Shl(packed, 4 * n.count), n.packed);
      JoinedView(before, n, Value());
    }

    /** Drops nibbles from the front, or all of them when there are fewer. */
    method TruncateFront(n: nat)
      requires Ok()
      modifies this
      ensures Ok() && Contents() == DropClamped(old(Contents()), n)
    {
      var m := if count >= n then n else count;
      CutFront(Value(), m);
      packed := And(packed, FrontMask(count, m));
      count := count - m;
    }

    /** Drops nibbles from the back, or all of them when there are fewer. */
    method TruncateBack(n: nat)
      requires Ok()
      modifies this
      ensures Ok()
      ensures Contents() == if n <= old(count) then old(Contents())[..old(count) - n] else []
    {
      var m := if count >= n then n else count;
      CutBack(Value(), m);
      packed := Shr(And(packed, BackMask(m)), m * 4);
      count := count - m;
    }

    method PopFront() returns (n: Nibble)
      requires Ok() && count > 0
      modifies this
      ensures Ok() && old(Contents()) == [n] + Contents()
    {
      n := GetNibble(Value(), 0);
      TruncateFront(1);
    }

    method PopBack() returns (n: Nibble)
      requires Ok() && count > 0
      modifies this
      ensures Ok() && old(Contents()) == Contents() + [n]
    {
      n := GetNibble(Value(), count - 1);
      TruncateBack(1);
    }

    method PopManyFront(n: nat) returns (r: Packed)
      requires Ok() && n <= count
      modifies this
      ensures Ok() && Valid(r) && View(r) == old(Contents())[..n] && old(Contents()) == View(r) + Contents()
    {
      ghost var before := Contents();
      r := GetRange(Value(), 0, n);
      assert before[0..n] == before[..n] && before == before[..n] + before[n..];
      TruncateFront(n);
    }

    /** The nibbles taken from the back come in the order they are taken: reversed. */
    method PopManyBack(n: nat) returns (r: Packed)
      requires Ok() && n <= count
      modifies this
      ensures Ok() && Valid(r) && View(r) == ReversedKey(old(Contents())[old(count) - n..])
      ensures Contents() == old(Contents())[..old(count) - n]
    {
      r := Reverse(GetRange(Value(), count - n, count));
      assert Contents()[count - n..count] == Contents()[count - n..];
      TruncateBack(n);
    }
  }

  lemma HighMaskFits(a: nat, s: nat)
    requires a + s <= WIDTH
    ensures Shl(Ones(a), s) < Pow2(WIDTH)
  {
    Pow2Add(a, s);
    JoinBound(Ones(a), 0, Pow2(a), Pow2(s));
    Pow2Monotone(a + s, WIDTH);
  }

  lemma HighMaskKeeps(x: nat, a: nat, s: nat)
    requires x < Pow2(a + s)
    ensures And(x, Shl(Ones(a), s)) == x / Pow2(s) * Pow2(s)
  {
    Pow2Add(a, s);
    AndShifted(x, Ones(a), s);
    AndOnes(Shr(x, s), a);
    DivBound(x, Pow2(s), Pow2(a));
    SmallMod(Shr(x, s), Pow2(a));
  }

  /** Masking with the complement of a high mask leaves the remainder. */
  lemma HighMaskRest(x: nat, a: nat, s: nat)
    requires a + s <= WIDTH && x < Pow2(a + s)
    ensures Shl(Ones(a), s) < Pow2(WIDTH)
    ensures And(x, Not(Shl(Ones(a), s), WIDTH)) == x % Pow2(s)
  {
    HighMaskFits(a, s);
    HighMaskKeeps(x, a, s);
    Pow2Monotone(a + s, WIDTH);
    AndNot(x, Shl(Ones(a), s), WIDTH);
    DivMod(x, Pow2(s));
  }

  /** Whether the mask below the complement fits the word. */
  predicate FrontMaskFits(count: nat, m: nat)
    requires m <= count
  {
    Shl(Ones(m * 4), (count - m) * 4) < Pow2(WIDTH)
  }

  /** Keeps all but the first m of the nibbles: the complement of a high mask. */
  function FrontMask(count: nat, m: nat): nat
    requires m <= count && FrontMaskFits(count, m)
  {
    Not(Shl(Ones(m * 4), (count - m) * 4), WIDTH)
  }

  lemma CutFront(n: Packed, m: nat)
    requires Valid(n) && m <= n.count
    ensures FrontMaskFits(n.count, m)
    ensures var r := Packed(n.count - m, And(n.packed, FrontMask(n.count, m))); Valid(r) && View(r) == View(n)[m..]
  {
    var a, s := m * 4, (n.count - m) * 4;
    assert a + s == 4 * n.count && s == 4 * (n.count - m);
    HighMaskRest(n.packed, a, s);
    LowView(n, m, And(n.packed, Not(Shl(Ones(a), s), WIDTH)));
  }

  /** Keeps all but the last m nibbles: the complement of a low mask. */
  function BackMask(m: nat): nat
    requires Ones(m * 4) < Pow2(WIDTH)
  {
    Not(Ones(m * 4), WIDTH)
  }

  lemma CutBack(n: Packed, m: nat)
    requires Valid(n) && m <= n.count
    ensures Ones(m * 4) < Pow2(WIDTH)
    ensures var r := Packed(n.count - m, Shr(And(n.packed, BackMask(m)), m * 4));
      Valid(r) && View(r) == View(n)[..n.count - m]
  {
    var i := n.count - m;
    assert (n.count - i) * 4 == m * 4;
    HighMask(n, i);
  }
}
