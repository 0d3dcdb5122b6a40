/** Arithmetic modulo a prime: congruence, powers, and Fermat's little theorem. */
module PrimeField {
  import opened Wrappers
  import opened Arithmetic

  ghost predicate IsPrime(p: nat) {
    p > 1 && forall d :: 1 < d < p ==> p % d != 0
  }

  function Pow(a: nat, e: nat): nat {
    if e == 0 then 1 else a * Pow(a, e - 1)
  }

  // ---------------------------------------------------------------------------------------------
  // Congruence
  // ---------------------------------------------------------------------------------------------

  lemma AddMultiple(x: nat, k: nat, p: nat)
    requires p > 0
    ensures (x + k * p) % p == x % p
  {
    DivMod(x, p);
    assert x + k * p == (x / p + k) * p + x % p;
    RemainderUnique(x + k * p, p, x / p + k, x % p);
  }

  /** A factor may be reduced before the product. */
  lemma MulReduce(a: nat, b: nat, p: nat)
    requires p > 0
    ensures a % p * b % p == a * b % p
  {
    DivMod(a, p);
    assert a * b == a % p * b + a / p * b * p by {
      assert a * b == (a / p * p + a % p) * b;
    }
    AddMultiple(a % p * b, a / p * b, p);
  }

  lemma MulMod(a: nat, b: nat, p: nat)
    requires p > 0
    ensures (a % p) * (b % p) % p == a * b % p
  {
    MulReduce(a, b % p, p);
    MulReduce(b, a, p);
  }

  /** A summand may be reduced before the sum. */
  lemma AddReduce(a: nat, b: nat, p: nat)
    requires p > 0
    ensures (a % p + b) % p == (a + b) % p
  {
    DivMod(a, p);
    AddMultiple(a % p + b, a / p, p);
  }

  lemma ScaleCong(a: nat, b: nat, k: nat, p: nat)
    requires p > 0 && a % p == b % p
    ensures a * k % p == b * k % p
  {
    MulReduce(a, k, p);
    MulReduce(b, k, p);
  }

  lemma {:induction false} PowAdd(a: nat, e: nat, f: nat)
    ensures Pow(a, e + f) == Pow(a, e) * Pow(a, f)
    decreases e
  {
    if e > 0 {
      PowAdd(a, e - 1, f);
      MulAssoc(a, Pow(a, e - 1), Pow(a, f));
    }
  }

  lemma {:induction false} PowMul(a: nat, e: nat, f: nat)
    ensures Pow(a, e * f) == Pow(Pow(a, e), f)
    decreases f
  {
    if f == 0 {
    } else {
      assert e * f == e + e * (f - 1);
      PowAdd(a, e, e * (f - 1));
      PowMul(a, e, f - 1);
    }
  }

  lemma MulCong(a: nat, a': nat, b: nat, b': nat, p: nat)
    requires p > 0 && a % p == a' % p && b % p == b' % p
    ensures a * b % p == a' * b' % p
  {
    ScaleCong(a, a', b, p);
    ScaleCong(b, b', a', p);
  }

  lemma {:induction false} PowMod(a: nat, b: nat, e: nat, p: nat)
    requires p > 0 && a % p == b % p
    ensures Pow(a, e) % p == Pow(b, e) % p
    decreases e
  {
    if e > 0 {
      PowMod(a, b, e - 1, p);
      MulCong(a, b, Pow(a, e - 1), Pow(b, e - 1), p);
    }
  }

  // ---------------------------------------------------------------------------------------------
  // Euclid's lemma
  // ---------------------------------------------------------------------------------------------

  /** The remainder of p by a, times b, is as divisible by p as a * b is. */
  lemma RemainderStep(p: nat, a: nat, b: nat)
    requires 0 < a < p && a * b % p == 0
    ensures p % a * b % p == 0
  {
    DivMod(p, a);
    DivMod(a * b, p);
    var q, m := p / a, a * b / p;
    assert p % a * b + (q * m) * p == b * p by {
      assert p % a * b == p * b - q * a * b;
      assert q * a * b == q * (a * b) == q * (m * p);
    }
    AddMultiple(p % a * b, q * m, p);
    AddMultiple(0, b, p);
  }

  lemma {:induction false} Euclid(p: nat, a: nat, b: nat)
    requires IsPrime(p) && 0 < a < p && a * b % p == 0
    ensures b % p == 0
    decreases a
  {
    if a > 1 {
      RemainderStep(p, a, b);
      DivMod(p, a);
      Euclid(p, p % a, b);
    }
  }

  /** A prime has no zero divisors. */
  lemma NoZeroDivisors(p: nat, a: nat, b: nat)
    requires IsPrime(p) && a * b % p == 0
    ensures a % p == 0 || b % p == 0
  {
    if a % p != 0 {
      MulReduce(a, b, p);
      Euclid(p, a % p, b);
    }
  }

  lemma DifferenceDivides(y: nat, d: nat, p: nat)
    requires p > 0 && (y + d) % p == y % p
    ensures d % p == 0
  {
    DivMod(y, p);
    DivMod(y + d, p);
    var q, q' := y / p, (y + d) / p;
    if q' < q { MulMono(q', q, p); }
    assert d == (q' - q) * p;
    AddMultiple(0, q' - q, p);
  }

  /** A factor that is not divisible by p can be cancelled. */
  lemma Cancel(p: nat, b: nat, d: nat, k: nat)
    requires IsPrime(p) && k % p != 0 && (b + d) * k % p == b * k % p
    ensures (b + d) % p == b % p
  {
    assert (b + d) * k == b * k + d * k;
    DifferenceDivides(b * k, d * k, p);
    NoZeroDivisors(p, d, k);
    DivMod(d, p);
    AddMultiple(b, d / p, p);
  }

  // ---------------------------------------------------------------------------------------------
  // Fermat's little theorem
  // ---------------------------------------------------------------------------------------------

  /** The product of the members of s up to n. */
  ghost function Product(s: set<nat>, n: nat): nat {
    if n == 0 then 1 else (if n in s then n else 1) * Product(s, n - 1)
  }

  ghost function Factorial(n: nat): nat {
    if n == 0 then 1 else n * Factorial(n - 1)
  }

  lemma {:induction false} ProductWith(s: set<nat>, x: nat, n: nat)
    requires x !in s && 0 < x
    ensures Product(s + {x}, n) == if x <= n then x * Product(s, n) else Product(s, n)
    decreases n
  {
    if n > 0 {
      ProductWith(s, x, n - 1);
      var m := if n in s then n else 1;
      assert (n in s + {x}) == (n in s || n == x);
      if x < n { Swap(m, x, Product(s, n - 1)); }
    }
  }

  lemma Swap(a: nat, b: nat, c: nat)
    ensures a * (b * c) == b * (a * c)
  {
  }

  lemma {:induction false} ProductOfAll(s: set<nat>, n: nat)
    requires forall x :: 0 < x <= n ==> x in s
    ensures Product(s, n) == Factorial(n)
    decreases n
  {
    if n > 0 { ProductOfAll(s, n - 1); }
  }

  lemma {:induction false} FactorialNotZero(p: nat, n: nat)
    requires IsPrime(p) && n < p
    ensures Factorial(n) % p != 0
    decreases n
  {
    if n == 0 {
      SmallMod(1, p);
    } else {
      FactorialNotZero(p, n - 1);
      SmallMod(n, p);
      if Factorial(n) % p == 0 { NoZeroDivisors(p, n, Factorial(n - 1)); }
    }
  }

  /** The residues of a, 2 a, ..., m a. */
  ghost function Multiples(a: nat, m: nat, p: nat): set<nat>
    requires p > 0
  {
    if m == 0 then {} else Multiples(a, m - 1, p) + {a * m % p}
  }

  lemma {:induction false} MultiplesAre(a: nat, m: nat, p: nat, x: nat) returns (i: nat)
    requires p > 0 && x in Multiples(a, m, p)
    ensures 1 <= i <= m && x == a * i % p
    decreases m
  {
    if x in Multiples(a, m - 1, p) { i := MultiplesAre(a, m - 1, p, x); } else { i := m; }
  }

  lemma SameResidue(a: nat, i: nat, m: nat, p: nat)
    requires IsPrime(p) && a % p != 0 && 0 < i <= m < p && a * i % p == a * m % p
    ensures i == m
  {
    var d := m - i;
    Factor(a, i, d);
    Cancel(p, i, d, a);
    SmallMod(i, p);
    SmallMod(m, p);
  }

  lemma Factor(a: nat, i: nat, d: nat)
    ensures (i + d) * a == a * (i + d) && i * a == a * i
  {
  }

  /** Multiplying by a hits no residue twice. */
  lemma NewResidue(a: nat, m: nat, p: nat)
    requires IsPrime(p) && a % p != 0 && 0 < m < p
    ensures a * m % p !in Multiples(a, m - 1, p) && 0 < a * m % p < p
  {
    var x := a * m % p;
    if x in Multiples(a, m - 1, p) {
      var i := MultiplesAre(a, m - 1, p, x);
      SameResidue(a, i, m, p);
    }
    SmallMod(m, p);
    if x == 0 { NoZeroDivisors(p, a, m); }
  }

  lemma {:induction false} MultiplesSize(a: nat, m: nat, p: nat)
    requires IsPrime(p) && a % p != 0 && m < p
    ensures |Multiples(a, m, p)| == m
    ensures forall x :: x in Multiples(a, m, p) ==> 0 < x < p
    decreases m
  {
    if m > 0 {
      MultiplesSize(a, m - 1, p);
      NewResidue(a, m, p);
    }
  }

  lemma {:induction false} MultiplesProduct(a: nat, m: nat, p: nat)
    requires IsPrime(p) && a % p != 0 && m < p
    ensures Product(Multiples(a, m, p), p - 1) % p == Pow(a, m) * Factorial(m) % p
    decreases m
  {
    if m == 0 {
      EmptyProduct(p - 1);
    } else {
      MultiplesProduct(a, m - 1, p);
      NextResidueProduct(a, m, p, Product(Multiples(a, m - 1, p), p - 1));
    }
  }

  lemma NextResidueProduct(a: nat, m: nat, p: nat, y: nat)
    requires IsPrime(p) && a % p != 0 && 0 < m < p
    requires y == Product(Multiples(a, m - 1, p), p - 1) && y % p == Pow(a, m - 1) * Factorial(m - 1) % p
    ensures Product(Multiples(a, m, p), p - 1) % p == Pow(a, m) * Factorial(m) % p
  {
    NewResidue(a, m, p);
    ProductWith(Multiples(a, m - 1, p), a * m % p, p - 1);
    NextProduct(a * m, y, Pow(a, m - 1) * Factorial(m - 1), p);
    NextFactors(a, m);
  }

  lemma NextFactors(a: nat, m: nat)
    requires m > 0
    ensures Pow(a, m - 1) * Factorial(m - 1) * (a * m) == Pow(a, m) * Factorial(m)
  {
    Regroup(a, m, Pow(a, m - 1), Factorial(m - 1));
  }

  lemma NextProduct(x: nat, y: nat, z: nat, p: nat)
    requires p > 0 && y % p == z % p
    ensures x % p * y % p == z * x % p
  {
    MulReduce(x, y, p);
    ScaleCong(y, z, x, p);
  }

  lemma Regroup(a: nat, m: nat, x: nat, y: nat)
    ensures x * y * (a * m) == (a * x) * (m * y)
  {
  }

  lemma {:induction false} EmptyProduct(n: nat)
    ensures Product({}, n) == 1
  {
    if n > 0 { EmptyProduct(n - 1); }
  }

  ghost function Range(n: nat): (s: set<nat>)
    ensures |s| == n && forall x :: x in s <==> 0 < x <= n
  {
    if n == 0 then {} else Range(n - 1) + {n}
  }

  /** n numbers from 1 to n are all of them. */
  lemma FullRange(s: set<nat>, n: nat)
    requires |s| == n && forall x :: x in s ==> 0 < x <= n
    ensures forall x :: 0 < x <= n ==> x in s
  {
    forall x | 0 < x <= n ensures x in s {
      if x !in s { SubsetSize(s, Range(n) - {x}); }
    }
  }

  /** Fermat: a to the power p - 1 is 1, for every a that p does not divide. */
  lemma Fermat(p: nat, a: nat)
    requires IsPrime(p) && a % p != 0
    ensures Pow(a, p - 1) % p == 1
  {
    var s, f, x := Multiples(a, p - 1, p), Factorial(p - 1), Pow(a, p - 1);
    MultiplesSize(a, p - 1, p);
    MultiplesProduct(a, p - 1, p);
    FullRange(s, p - 1);
    ProductOfAll(s, p - 1);
    FactorialNotZero(p, p - 1);
    assert x * f % p == 1 * f % p;
    if x == 0 { SmallMod(0, p); }
    else { Cancel(p, 1, x - 1, f); }
    SmallMod(1, p);
  }
}
