/** The base fields of BN254 and BLS12-381: split-limb products, inverses and square roots. */
module ExtensionTower {
  import opened Wrappers
  import opened Arithmetic
  import opened PrimeField
  import opened SqrtTable

  const BN_BASE: nat := 0x30644e72e131a029_b85045b68181585d_97816a916871ca8d_3c208c16d87cfd47
  const BLS_BASE: nat :=
    0x1a0111ea397fe69a_4b1ba7b6434bacd7_64774b84f38512bf_6730d2a0f6b0f624_1eabfffeb153ffff_b9feffffffffaaab

  /** The parameters of the two curve families. */
  const BN_PARAMETER: nat := 4965661367192848881
  const BLS_PARAMETER: nat := 0xd201_0000_0001_0000

  /** The orders are the values of the families' polynomials at the curves' parameters: that of BN254 is
      36u^4 + 36u^3 + 24u^2 + 6u + 1, that of BLS12-381 is (x - 1)^2 (x^4 - x^2 + 1) / 3 + x at x = -z. */
  lemma OrdersOfTheFields()
    ensures var u := BN_PARAMETER; BN_BASE == 36 * (u * u * u * u) + 36 * (u * u * u) + 24 * (u * u) + 6 * u + 1
    ensures var z := BLS_PARAMETER; 3 * (BLS_BASE + z) == (z + 1) * (z + 1) * (z * z * z * z - z * z + 1)
    ensures BN_BASE % 4 == 3 && BLS_BASE % 4 == 3
  {
  }

  const B128: nat := 0x1_0000000000000000_0000000000000000
  const U256_END: nat := 0x1_0000000000000000_0000000000000000_0000000000000000_0000000000000000
  const U512_END: nat :=
    0x1_0000000000000000_0000000000000000_0000000000000000_0000000000000000_0000000000000000_0000000000000000_0000000000000000_0000000000000000

  type U256 = x: nat | x < U256_END
  type U512 = x: nat | x < U512_END
  type BN254 = x: U256 | x < BN_BASE
  type BLS381 = x: U512 | x < BLS_BASE

  // ---------------------------------------------------------------------------------------------
  // Machine words
  // ---------------------------------------------------------------------------------------------

  function SaturatingMul(x: U512, y: U512): U512 {
    if x * y < U512_END then x * y else U512_END - 1
  }

  /** Addition of words; the program panics on overflow. */
  function Add512(x: U512, y: U512): U512
    requires x + y < U512_END
  {
    x + y
  }

  function Lo(x: U512): U512 {
    x % U256_END
  }

  function Hi(x: U512): U512 {
    x / U256_END
  }

  lemma Product(x: nat, y: nat, a: nat, b: nat)
    requires x < a && y < b
    ensures x * y < a * b
  {
    MulMono(x, a - 1, y);
    MulMono(y, b - 1, a - 1);
    assert (b - 1) * (a - 1) == a * b - a - b + 1;
  }

  // ---------------------------------------------------------------------------------------------
  // Multiplication by limbs
  // ---------------------------------------------------------------------------------------------

  /** An unreduced value of 381 bits, as the products of limbs are. */
  const B381: nat := 0x2000000000000000_0000000000000000_0000000000000000_0000000000000000_0000000000000000_0000000000000000

  /** The shifts and sums are proved for every modulus of at most 381 bits. */
  predicate Fits(p: nat) {
    0 < p <= B381
  }

  function Lsh128(x: U512, p: nat): (r: U512)
    requires x < B381 && Fits(p)
    ensures r == x * B128 % p && r < p
  {
    SaturatingMul(x, B128) % p
  }

  function Lsh256(x: U512, p: nat): (r: U512)
    requires x < B381 && Fits(p)
    ensures r == x * U256_END % p && r < p
  {
    MulReduce(x * B128, B128, p);
    assert x * B128 * B128 == x * U256_END;
    Lsh128(Lsh128(x, p), p)
  }

  function Lsh512(x: U512, p: nat): (r: U512)
    requires x < B381 && Fits(p)
    ensures r == x * U512_END % p && r < p
  {
    MulReduce(x * U256_END, U256_END, p);
    assert x * U256_END * U256_END == x * U512_END;
    Lsh256(Lsh256(x, p), p)
  }

  function AddMod(x: U512, y: U512, p: nat): (r: U512)
    requires x + y < U512_END && Fits(p)
    ensures r == (x + y) % p && r < p
  {
    Add512(x, y) % p
  }

  /** The four products of limbs are exact: none is cut off by the saturating multiplication. */
  lemma LimbProducts(x: BLS381, y: BLS381)
    ensures SaturatingMul(Lo(x), Lo(y)) == Lo(x) * Lo(y)
    ensures SaturatingMul(Lo(x), Hi(y)) == Lo(x) * Hi(y) < B381
    ensures SaturatingMul(Hi(x), Lo(y)) == Hi(x) * Lo(y) < B381
    ensures SaturatingMul(Hi(x), Hi(y)) == Hi(x) * Hi(y) < B381
  {
    var h := 0x1a0111ea397fe69a_4b1ba7b6434bacd8;
    assert Hi(x) < h && Hi(y) < h;
    Product(Lo(x), Lo(y), U256_END, U256_END);
    Product(Lo(x), Hi(y), U256_END, h);
    Product(Hi(x), Lo(y), h, U256_END);
    Product(Hi(x), Hi(y), h, h);
  }

  lemma SumReduced(x: nat, y: nat, p: nat, u: nat, v: nat)
    requires p > 0 && u == x % p && v == y % p
    ensures (u + v) % p == (x + y) % p
  {
    AddReduce(x, y, p);
    AddReduce(y, u, p);
  }

  /** Three summands may be reduced one by one, the middle one twice. */
  lemma ReducedSteps(a: nat, c: nat, d: nat, b: nat, bb: nat, p: nat, mid: nat, moved: nat, low: nat, high: nat)
    requires p > 0 && mid == c % p && moved == mid * b % p && low == (a % p + moved) % p && high == d * bb % p
    ensures (low + high) % p == (a + c * b + d * bb) % p
  {
    var x, y := c * b, d * bb;
    MulReduce(c, b, p);
    SumReduced(a, x, p, a % p, moved);
    SumReduced(a + x, y, p, low, high);
  }

  /** The products of limbs, each moved to its place. */
  function Recombine(z00: U512, z01: U512, z10: U512, z11: U512, p: nat): (r: U512)
    requires z01 < B381 && z10 < B381 && z11 < B381 && Fits(p)
    ensures r == (z00 + (z01 + z10) * U256_END + z11 * U512_END) % p && r < p
  {
    var mid := AddMod(z01, z10, p);
    var moved := Lsh256(mid, p);
    var low := AddMod(z00 % p, moved, p);
    var high := Lsh512(z11, p);
    ReducedSteps(z00, z01 + z10, z11, U256_END, U512_END, p, mid, moved, low, high);
    AddMod(low, high, p)
  }

  /** Multiplication by limbs, for words below the modulus. */
  function MulLimbs(x: U512, y: U512, p: nat): (r: U512)
    requires x < BLS_BASE && y < BLS_BASE && Fits(p)
    ensures r == x * y % p && r < p
  {
    var x0, x1, y0, y1 := Lo(x), Hi(x), Lo(y), Hi(y);
    LimbProducts(x, y);
    Limbs(x);
    Limbs(y);
    Expand(x0, x1, y0, y1, U256_END, U512_END);
    Recombine(SaturatingMul(x0, y0), SaturatingMul(x0, y1), SaturatingMul(x1, y0), SaturatingMul(x1, y1), p)
  }

  /** Multiplication by limbs is multiplication modulo the field's order. */
  function MulBls(x: BLS381, y: BLS381): (r: BLS381)
    ensures r == x * y % BLS_BASE
  {
    MulLimbs(x, y, BLS_BASE)
  }

  lemma Limbs(x: U512)
    ensures x == Lo(x) + U256_END * Hi(x)
  {
  }

  lemma Expand(x0: nat, x1: nat, y0: nat, y1: nat, b: nat, bb: nat)
    requires bb == b * b
    ensures (x0 + b * x1) * (y0 + b * y1) == x0 * y0 + (x0 * y1 + x1 * y0) * b + x1 * y1 * bb
  {
    assert (x0 + b * x1) * (y0 + b * y1) == x0 * (y0 + b * y1) + b * x1 * (y0 + b * y1);
    assert x0 * (y0 + b * y1) == x0 * y0 + x0 * y1 * b;
    assert b * x1 * (y0 + b * y1) == x1 * y0 * b + x1 * y1 * (b * b);
  }

  // ---------------------------------------------------------------------------------------------
  // Sums, differences, negation
  // ---------------------------------------------------------------------------------------------

  function NegMod(x: U512, p: nat): (r: U512)
    requires x < p && Fits(p)
    ensures r == if x == 0 then 0 else p - x
  {
    Reduced(p - x, p);
    (p - x) % p
  }

  function SubMod(x: U512, y: U512, p: nat): (r: U512)
    requires x < p && y < p && Fits(p)
    ensures r == if x >= y then x - y else p + x - y
  {
    Reduced(p + x - y, p);
    (Add512(p, x) - y) % p
  }

  /** The remainder of what is less than twice the modulus. */
  lemma Reduced(x: nat, p: nat)
    requires x < 2 * p
    ensures x % p == if x < p then x else x - p
  {
    if x < p { SmallMod(x, p); } else { RemainderUnique(x, p, 1, x - p); }
  }

  /** Adding has an inverse, which is what negation and subtraction compute; no word overflows. */
  lemma Sums(x: U512, y: U512, p: nat)
    requires x < p && y < p && Fits(p)
    ensures AddMod(x, NegMod(x, p), p) == 0
    ensures SubMod(AddMod(x, y, p), y, p) == x
    ensures SubMod(x, y, p) == AddMod(x, NegMod(y, p), p)
    ensures SubMod(x, y, p) == 0 <==> x == y
  {
    Reduced(x + y, p);
    Reduced(x + NegMod(x, p), p);
    Reduced(x + NegMod(y, p), p);
  }

  function MulBn(x: BN254, y: BN254): BN254 {
    x * y % BN_BASE
  }

  /** The sums of the BN254 field fit in 256 bits. */
  lemma BnSumsFit(x: BN254, y: BN254)
    ensures AddMod(x, y, BN_BASE) < BN_BASE && x + y < U256_END && BN_BASE + x < U256_END
  {
  }

  // ---------------------------------------------------------------------------------------------
  // Inverses
  // ---------------------------------------------------------------------------------------------

  /** What one round of square-and-multiply does to the powers it keeps. */
  lemma Round(a: nat, exp: nat, j: nat, p: nat, product: nat, current: nat)
    requires p > 0 && product == Pow(a, exp % Pow2(j)) % p && current == Pow(a, Pow2(j)) % p
    ensures current * current % p == Pow(a, Pow2(j + 1)) % p
    ensures (if Bit(exp, j) then product * current % p else product) == Pow(a, exp % Pow2(j + 1)) % p
  {
    ModStep(exp, j);
    PowAdd(a, Pow2(j), Pow2(j));
    MulMod(Pow(a, Pow2(j)), Pow(a, Pow2(j)), p);
    PowAdd(a, exp % Pow2(j), Pow2(j));
    MulMod(Pow(a, exp % Pow2(j)), Pow(a, Pow2(j)), p);
  }

  lemma Pow2Of384()
    ensures Pow2(256) == U256_END && Pow2(384) == U256_END * B128
  {
    Doubled(8, 256);
    Doubled(16, 0x1_0000);
    Doubled(32, 0x1_0000_0000);
    Doubled(64, 0x1_0000000000000000);
    Doubled(128, B128);
    Pow2Add(256, 128);
  }

  lemma Doubled(n: nat, x: nat)
    requires Pow2(n) == x
    ensures Pow2(2 * n) == x * x
  {
    Pow2Add(n, n);
  }

  /** The power p - 2 of an element is its inverse. */
  lemma PowerIsInverse(p: nat, a: nat, r: nat)
    requires IsPrime(p) && a % p != 0 && r == Pow(a, p - 2) % p
    ensures a * r % p == 1
  {
    Fermat(p, a);
    MulReduce(Pow(a, p - 2), a, p);
    assert Pow(a, p - 1) == a * Pow(a, p - 2);
  }

  method InvBn(a: BN254) returns (product: BN254)
    ensures product == Pow(a, BN_BASE - 2) % BN_BASE
    ensures IsPrime(BN_BASE) && a != 0 ==> MulBn(a, product) == 1
  {
    var exp := BN_BASE - 2;
    var current := a;
    product := 1;
    assert Pow(a, 1) == a;
    for j := 0 to 256
      invariant product == Pow(a, exp % Pow2(j)) % BN_BASE && current == Pow(a, Pow2(j)) % BN_BASE
    {
      Round(a, exp, j, BN_BASE, product, current);
      if Bit(exp, j) { product := MulBn(product, current); }
      current := MulBn(current, current);
    }
    Pow2Of384();
    SmallMod(exp, Pow2(256));
    if IsPrime(BN_BASE) && a != 0 { PowerIsInverse(BN_BASE, a, product); }
  }

  method InvBls(a: BLS381) returns (product: BLS381)
    ensures product == Pow(a, BLS_BASE - 2) % BLS_BASE
    ensures IsPrime(BLS_BASE) && a != 0 ==> MulBls(a, product) == 1
  {
    var exp := BLS_BASE - 2;
    var current := a;
    product := 1;
    assert Pow(a, 1) == a;
    for j := 0 to 384
      invariant product == Pow(a, exp % Pow2(j)) % BLS_BASE && current == Pow(a, Pow2(j)) % BLS_BASE
    {
      Round(a, exp, j, BLS_BASE, product, current);
      if Bit(exp, j) { product := MulBls(product, current); }
      current := MulBls(current, current);
    }
    Pow2Of384();
    SmallMod(exp, Pow2(384));
    if IsPrime(BLS_BASE) && a != 0 { PowerIsInverse(BLS_BASE, a, product); }
  }

  /** Division undoes multiplication. */
  method DivBls(x: BLS381, y: BLS381) returns (q: BLS381)
    ensures IsPrime(BLS_BASE) && y != 0 ==> MulBls(q, y) == x
  {
    var i := InvBls(y);
    q := MulBls(x, i);
    if IsPrime(BLS_BASE) && y != 0 { Quotient(x, y, i, BLS_BASE); }
  }

  method DivBn(x: BN254, y: BN254) returns (q: BN254)
    ensures IsPrime(BN_BASE) && y != 0 ==> MulBn(q, y) == x
  {
    var i := InvBn(y);
    q := MulBn(x, i);
    if IsPrime(BN_BASE) && y != 0 { Quotient(x, y, i, BN_BASE); }
  }

  lemma Quotient(x: nat, y: nat, i: nat, p: nat)
    requires x < p && y * i % p == 1
    ensures x * i % p * y % p == x
  {
    MulReduce(x * i, y, p);
    assert x * i * y == y * i * x;
    MulReduce(y * i, x, p);
    SmallMod(x, p);
  }

  // ---------------------------------------------------------------------------------------------
  // Square roots
  // ---------------------------------------------------------------------------------------------

  function Square(s: nat, p: nat): nat
    requires p > 0
  {
    s * s % p
  }

  ghost predicate IsSquare(a: nat, p: nat)
    requires p > 0
  {
    exists s: nat :: Square(s, p) == a
  }

  /** For p = 3 mod 4, the power (p + 1) / 4 of a is a root of a exactly when a has one. */
  lemma RootExact(p: nat, a: nat, e: nat, r: nat)
    requires IsPrime(p) && p + 1 == 4 * e && a < p && r == Pow(a, e) % p
    ensures r * r % p == a <==> IsSquare(a, p)
  {
    if r * r % p == a { assert Square(r, p) == a; }
    if IsSquare(a, p) {
      var s: nat :| Square(s, p) == a;
      if s % p == 0 {
        RootOfZero(p, s, e, r);
      } else {
        RootOfSquare(p, a, e, r, s);
      }
    }
  }

  lemma RootOfZero(p: nat, s: nat, e: nat, r: nat)
    requires p > 0 && e > 0 && s % p == 0 && r == Pow(Square(s, p), e) % p
    ensures r * r % p == Square(s, p)
  {
    MulReduce(s, s, p);
    SmallMod(0, p);
    assert Square(s, p) == 0;
    ZeroPower(e);
  }

  lemma ZeroPower(e: nat)
    requires e > 0
    ensures Pow(0, e) == 0
  {
  }

  /** An even power of a root, that is a power of the square. */
  lemma HalfPower(p: nat, a: nat, s: nat, h: nat)
    requires p > 0 && a % p == s * s % p
    ensures Pow(a, h) % p == Pow(s, 2 * h) % p
  {
    PowMod(a, s * s, h, p);
    assert s * s == Pow(s, 2) by { assert Pow(s, 1) == s * Pow(s, 0); }
    PowMul(s, 2, h);
  }

  lemma RootOfSquare(p: nat, a: nat, e: nat, r: nat, s: nat)
    requires IsPrime(p) && p + 1 == 4 * e && a < p && r == Pow(a, e) % p && s * s % p == a && s % p != 0
    ensures r * r % p == a
  {
    var h := 2 * e - 1;
    SmallMod(a, p);
    HalfPower(p, a, s, h);
    Fermat(p, s);
    assert r * r % p == Pow(a, h) * a % p by {
      MulMod(Pow(a, e), Pow(a, e), p);
      PowAdd(a, e, e);
      PowAdd(a, h, 1);
    }
    MulReduce(Pow(a, h), a, p);
  }

  /** The loop over a table of bits, least significant first. */
  method PowerByTable(a: BLS381, bits: seq<bool>) returns (root: BLS381)
    ensures root == Pow(a, ValueOf(bits)) % BLS_BASE
  {
    root := 1;
    var sq := a;
    assert Pow(a, 1) == a;
    for i := 0 to |bits|
      invariant root == Pow(a, ValueOf(bits[..i])) % BLS_BASE && sq == Pow(a, Pow2(i)) % BLS_BASE
    {
      TableRound(a, bits, i, root, sq);
      if bits[i] { root := MulBls(root, sq); }
      sq := MulBls(sq, sq);
    }
    assert bits[..|bits|] == bits;
  }

  lemma TableRound(a: nat, bits: seq<bool>, i: nat, root: nat, sq: nat)
    requires i < |bits| && root == Pow(a, ValueOf(bits[..i])) % BLS_BASE && sq == Pow(a, Pow2(i)) % BLS_BASE
    ensures sq * sq % BLS_BASE == Pow(a, Pow2(i + 1)) % BLS_BASE
    ensures (if bits[i] then root * sq % BLS_BASE else root) == Pow(a, ValueOf(bits[..i + 1])) % BLS_BASE
  {
    assert bits[..i + 1] == bits[..i] + [bits[i]];
    ValueOfConcat(bits[..i], [bits[i]]);
    assert ValueOf([bits[i]]) == Num(bits[i]);
    PowAdd(a, Pow2(i), Pow2(i));
    MulMod(Pow(a, Pow2(i)), Pow(a, Pow2(i)), BLS_BASE);
    PowAdd(a, ValueOf(bits[..i]), Pow2(i));
    MulMod(Pow(a, ValueOf(bits[..i])), Pow(a, Pow2(i)), BLS_BASE);
  }

  /** A root is found exactly when there is one. */
  method Sqrt(a: BLS381) returns (r: Option<BLS381>)
    ensures r.Some? ==> MulBls(r.value, r.value) == a
    ensures IsPrime(BLS_BASE) ==> (r.Some? <==> IsSquare(a, BLS_BASE))
  {
    var bits := ExponentBits();
    var root := PowerByTable(a, bits);
    if IsPrime(BLS_BASE) { RootExact(BLS_BASE, a, ValueOf(bits), root); }
    r := if MulBls(root, root) != a then None else Some(root);
  }

  // ---------------------------------------------------------------------------------------------
  // Which of two roots is the larger
  // ---------------------------------------------------------------------------------------------

  const MODULUS_MINUS_ONE_DIV_TWO: nat :=
    0x0d0088f51cbff34d_258dd3db21a5d66b_b23ba5c279c2895f_b39869507b587b12_0f55ffff58a9ffff_dcff7fffffffd556

  predicate LexicographicallyLargest(x: BLS381) {
    x > MODULUS_MINUS_ONE_DIV_TWO
  }

  /** The constant is (p + 1) / 2 and not, as its name says, (p - 1) / 2: the test says whether an
      element is larger than its negation for every element but that one, which is larger than its
      negation and is not reported. */
  lemma LargestExceptMiddle(x: BLS381)
    ensures 2 * MODULUS_MINUS_ONE_DIV_TWO == BLS_BASE + 1
    ensures (LexicographicallyLargest(x) <==> x > NegMod(x, BLS_BASE)) <==> x != MODULUS_MINUS_ONE_DIV_TWO
  {
  }
}
