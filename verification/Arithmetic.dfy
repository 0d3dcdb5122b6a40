/** Powers of two, bits, and division with remainder. */
module Arithmetic {

  /** The order of the Goldilocks field. */
  const GOLDILOCKS: nat := 0xffff_ffff_0000_0001
  function Pow2(n: nat): (r: nat)
    ensures r > 0
  {
    if n == 0 then 1 else 2 * Pow2(n - 1)
  }

  function Bit(x: nat, i: nat): bool {
    x / Pow2(i) % 2 == 1
  }

  lemma MulMono(a: nat, b: nat, d: nat)
    requires a <= b
    ensures a * d <= b * d
  {
    assert (b - a) * d >= 0;
  }

  lemma MulAssoc(a: nat, b: nat, c: nat)
    ensures a * (b * c) == (a * b) * c
  {
  }

  lemma DivMod(x: nat, p: nat)
    requires p > 0
    ensures x / p * p + x % p == x && x / p * p <= x && 0 <= x / p <= x && x % p < p
  {
    MulMono(1, p, x / p);
  }

  lemma RemainderUnique(x: nat, d: nat, q: nat, r: nat)
    requires x == q * d + r && r < d
    ensures x % d == r && x / d == q
  {
    DivMod(x, d);
    if x / d < q {
      MulMono(x / d + 1, q, d);
    } else if x / d > q {
      MulMono(q + 1, x / d, d);
    }
  }

  lemma SmallMod(x: nat, d: nat)
    requires x < d
    ensures x % d == x
  {
  }

  lemma ModTwice(x: nat, p: nat)
    requires p > 0
    ensures x % (2 * p) == x % p + (x / p % 2) * p
  {
    DivMod(x, p);
    var q, r, h, b := x / p, x % p, x / p / 2, x / p % 2;
    assert q == 2 * h + b;
    assert (2 * h + b) * p == h * (2 * p) + b * p;
    RemainderUnique(x, 2 * p, h, b * p + r);
  }

  lemma ModStep(x: nat, s: nat)
    ensures x % Pow2(s + 1) == x % Pow2(s) + if Bit(x, s) then Pow2(s) else 0
  {
    ModTwice(x, Pow2(s));
  }

  lemma {:induction false} Pow2Monotone(a: nat, b: nat)
    requires a <= b
    ensures Pow2(a) <= Pow2(b)
    decreases b
  {
    if a < b { Pow2Monotone(a, b - 1); }
  }

  lemma {:induction false} Pow2Add(a: nat, b: nat)
    ensures Pow2(a + b) == Pow2(a) * Pow2(b)
    decreases b
  {
    if b > 0 {
      Pow2Add(a, b - 1);
      MulAssoc(2, Pow2(a), Pow2(b - 1));
      MulAssoc(Pow2(a), 2, Pow2(b - 1));
    }
  }

  lemma Pow2Square(n: nat, v: nat)
    requires Pow2(n) == v
    ensures Pow2(n + n) == v * v
  {
    Pow2Add(n, n);
  }

  lemma DivBound(x: nat, d: nat, e: nat)
    requires d > 0 && x < e * d
    ensures 0 <= x / d < e
  {
    DivMod(x, d);
    if x / d >= e { MulMono(e, x / d, d); }
  }

  lemma JoinBound(a: nat, b: nat, e: nat, d: nat)
    requires a < e && b < d
    ensures a * d + b < e * d
  {
    MulMono(a + 1, e, d);
  }

  lemma DivDiv(x: nat, p: nat, r: nat)
    requires p > 0 && r > 0
    ensures x / p / r == x / (p * r)
  {
    DivMod(x, p);
    DivMod(x / p, r);
    var q, s, t := x / p / r, x / p % r, x % p;
    JoinBound(s, t, r, p);
    assert (q * r + s) * p == q * (p * r) + s * p;
    RemainderUnique(x, p * r, q, s * p + t);
  }

  lemma DivPow2Step(x: nat, i: nat)
    ensures x / Pow2(i) / 2 == x / Pow2(i + 1)
  {
    DivDiv(x, Pow2(i), 2);
  }
}
