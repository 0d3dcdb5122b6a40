/** Bitwise operators on unbounded words, and what they are for masks and shifted words. */
module Bitwise {
  import opened Arithmetic

  function And(a: nat, b: nat): nat {
    if a == 0 then 0 else (if a % 2 == 1 && b % 2 == 1 then 1 else 0) + 2 * And(a / 2, b / 2)
  }

  function Or(a: nat, b: nat): nat {
    if a == 0 then b else (if a % 2 == 1 || b % 2 == 1 then 1 else 0) + 2 * Or(a / 2, b / 2)
  }

  function Xor(a: nat, b: nat): nat {
    if a == 0 then b else (if a % 2 != b % 2 then 1 else 0) + 2 * Xor(a / 2, b / 2)
  }

  /** The complement within a word of w bits. */
  function Not(a: nat, w: nat): nat
    requires a < Pow2(w)
  {
    Pow2(w) - 1 - a
  }

  function Shl(a: nat, s: nat): nat {
    a * Pow2(s)
  }

  function Shr(a: nat, s: nat): nat {
    DivMod(a, Pow2(s));
    a / Pow2(s)
  }

  /** A mask of n ones. */
  function Ones(n: nat): nat {
    Shl(1, n) - 1
  }

  lemma ModHalf(x: nat, p: nat)
    requires p > 0
    ensures x % (2 * p) == x % 2 + 2 * (x / 2 % p)
  {
    DivMod(x / 2, p);
    var q := x / 2 / p;
    assert x == q * (2 * p) + (x % 2 + 2 * (x / 2 % p));
    RemainderUnique(x, 2 * p, q, x % 2 + 2 * (x / 2 % p));
  }

  lemma OnesHalves(n: nat)
    requires n > 0
    ensures Ones(n) % 2 == 1 && Ones(n) / 2 == Ones(n - 1)
  {
    assert Ones(n) == 1 + 2 * Ones(n - 1);
  }

  /** Masking the low bits is taking the remainder. */
  lemma {:induction false} AndOnes(x: nat, n: nat)
    ensures And(x, Ones(n)) == x % Pow2(n)
    decreases n
  {
    if n == 0 {
      AndZero(x);
    } else {
      OnesHalves(n);
      AndOnes(x / 2, n - 1);
      ModHalf(x, Pow2(n - 1));
      if x == 0 { SmallMod(0, Pow2(n)); }
    }
  }

  lemma {:induction false} AndZero(x: nat)
    ensures And(x, 0) == 0
    decreases x
  {
    if x > 0 { AndZero(x / 2); }
  }

  /** A mask with s zeros below leaves the low s bits out. */
  lemma {:induction false} AndShifted(x: nat, m: nat, s: nat)
    ensures And(x, Shl(m, s)) == Shl(And(Shr(x, s), m), s)
    decreases s
  {
    if s > 0 {
      var p := Pow2(s - 1);
      assert Shl(m, s) == 2 * Shl(m, s - 1) by { assert m * (2 * p) == 2 * (m * p); }
      AndShifted(x / 2, m, s - 1);
      HalfShift(x, s - 1);
      if x == 0 { RemainderUnique(0, Pow2(s), 0, 0); }
      Assoc(And(Shr(x, s), m), p);
    } else {
      assert x / 1 == x;
    }
  }

  lemma Assoc(a: nat, p: nat)
    ensures 2 * (a * p) == a * (2 * p)
  {
  }

  lemma HalfShift(x: nat, s: nat)
    ensures Shr(x / 2, s) == Shr(x, s + 1)
  {
    var p := Pow2(s);
    DivMod(x / 2, p);
    var q := x / 2 / p;
    assert x == q * (2 * p) + (x % 2 + 2 * (x / 2 % p));
    RemainderUnique(x, 2 * p, q, x % 2 + 2 * (x / 2 % p));
  }

  /** Words without common bits: a shifted word and one that fits below it. */
  lemma {:induction false} OrDisjoint(x: nat, s: nat, y: nat)
    requires y < Pow2(s)
    ensures Or(Shl(x, s), y) == Shl(x, s) + y
    decreases s
  {
    if s == 0 {
      OrZero(x);
    } else {
      var p := Pow2(s - 1);
      Assoc(x, p);
      assert Shl(x, s) == 2 * Shl(x, s - 1);
      OrDisjoint(x, s - 1, y / 2);
    }
  }

  lemma {:induction false} OrZero(x: nat)
    ensures Or(x, 0) == x
    decreases x
  {
    if x > 0 { OrZero(x / 2); }
  }

  lemma {:induction false} OrSymmetric(a: nat, b: nat)
    ensures Or(a, b) == Or(b, a)
    decreases a + b
  {
    if a == 0 {
      OrZero(b);
    } else if b == 0 {
      OrZero(a);
    } else {
      OrSymmetric(a / 2, b / 2);
    }
  }

  /** Masking with a complement takes away what the mask itself would keep. */
  lemma {:induction false} AndNot(x: nat, m: nat, w: nat)
    requires x < Pow2(w) && m < Pow2(w)
    ensures And(x, m) + And(x, Not(m, w)) == x
    decreases w
  {
    if x == 0 || w == 0 {
    } else {
      NotHalves(m, w);
      AndNot(x / 2, m / 2, w - 1);
    }
  }

  lemma NotHalves(m: nat, w: nat)
    requires w > 0 && m < Pow2(w)
    ensures m / 2 < Pow2(w - 1)
    ensures Not(m, w) % 2 == 1 - m % 2 && Not(m, w) / 2 == Not(m / 2, w - 1)
  {
  }
}
