/** Bit sequences packed into a word, last bit lowest, as the sparse Merkle tree keeps paths. */
module SmtBits {
  import opened Wrappers
  import opened Arithmetic

  type Path = seq<bool>

  datatype Packed = Packed(count: nat, packed: nat)

  predicate Valid(b: Packed) {
    b.count <= 256 && b.packed < Pow2(b.count)
  }

  function Unpack(count: nat, packed: nat): (s: Path)
    ensures |s| == count
  {
    if count == 0 then [] else Unpack(count - 1, packed / 2) + [packed % 2 == 1]
  }

  function View(b: Packed): Path {
    Unpack(b.count, b.packed)
  }

  function Num(b: bool): nat {
    if b then 1 else 0
  }

  lemma {:induction false} ViewInjective(a: Packed, b: Packed)
    requires a.packed < Pow2(a.count) && b.packed < Pow2(b.count) && View(a) == View(b)
    ensures a == b
    decreases a.count
  {
    assert |View(a)| == a.count && |View(b)| == b.count;
    if a.count > 0 {
      var n := a.count - 1;
      var a', b' := Packed(n, a.packed / 2), Packed(n, b.packed / 2);
      assert View(a)[..n] == View(a') && View(b)[..n] == View(b');
      assert View(a)[n] == (a.packed % 2 == 1) && View(b)[n] == (b.packed % 2 == 1);
      ViewInjective(a', b');
    }
  }

  lemma DifferentViews(a: Packed, b: Packed)
    requires Valid(a) && Valid(b) && a != b
    ensures View(a) != View(b)
    ensures a.count == b.count ==> a.count > 0
  {
    if View(a) == View(b) { ViewInjective(a, b); }
    if a.count == b.count == 0 { ViewInjective(a, b); }
  }

  /** Bit i of the path is bit count - 1 - i of the word. */
  lemma {:induction false} BitOfView(b: Packed, i: nat)
    requires i < b.count
    ensures View(b)[i] == Bit(b.packed, b.count - 1 - i)
    decreases b.count
  {
    if i < b.count - 1 {
      BitOfView(Packed(b.count - 1, b.packed / 2), i);
      DivDiv(b.packed, 2, Pow2(b.count - 2 - i));
    } else {
      assert b.packed / 1 == b.packed;
    }
  }

  function GetBit(b: Packed, i: nat): (r: bool)
    requires i < b.count
    ensures r == View(b)[i]
  {
    BitOfView(b, i);
    Bit(b.packed, b.count - 1 - i)
  }

  function AddBit(b: Packed, bit: bool): (r: Packed)
    requires Valid(b) && b.count < 256
    ensures Valid(r) && View(r) == View(b) + [bit]
  {
    Packed(b.count + 1, b.packed * 2 + Num(bit))
  }

  /** Concatenation; the code asserts that the result has at most 256 bits. */
  function Concat(a: Packed, b: Packed): (r: Packed)
    requires Valid(a) && Valid(b) && a.count + b.count <= 256
    ensures Valid(r) && View(r) == View(a) + View(b)
  {
    UnpackConcat(a.count, a.packed, b.count, b.packed);
    Pow2Add(a.count, b.count);
    JoinBound(a.packed, b.packed, Pow2(a.count), Pow2(b.count));
    Packed(a.count + b.count, a.packed * Pow2(b.count) + b.packed)
  }

  lemma HalfOfSum(p: nat, d: nat, q: nat)
    ensures (p * (2 * d) + q) % 2 == q % 2 && (p * (2 * d) + q) / 2 == p * d + q / 2
  {
    var c := p * d;
    assert p * (2 * d) == 2 * c;
  }

  lemma {:induction false} UnpackConcat(a: nat, p: nat, b: nat, q: nat)
    requires q < Pow2(b)
    ensures Unpack(a + b, p * Pow2(b) + q) == Unpack(a, p) + Unpack(b, q)
    decreases b
  {
    if b > 0 {
      HalfOfSum(p, Pow2(b - 1), q);
      UnpackConcat(a, p, b - 1, q / 2);
    }
  }

  class BitBuffer {
    var count: nat
    var packed: nat

    constructor (b: Packed)
      ensures Value() == b
    {
      count, packed := b.count, b.packed;
    }

    function Value(): Packed
      reads this
    {
      Packed(count, packed)
    }

    method PushBit(bit: bool)
      requires Valid(Value()) && count < 256
      modifies this
      ensures Valid(Value()) && View(Value()) == old(View(Value())) + [bit]
    {
      packed := packed * 2 + Num(bit);
      count := count + 1;
    }

    method PopNextBit() returns (bit: bool)
      requires Valid(Value()) && count > 0
      modifies this
      ensures Valid(Value()) && old(View(Value())) == View(Value()) + [bit]
    {
      bit := packed % 2 == 1;
      packed := packed / 2;
      count := count - 1;
    }

    /** Drops bits from the end until at most n are left. */
    method ShortenTo(n: nat)
      requires Valid(Value())
      modifies this
      ensures Valid(Value()) && View(Value()) == if n < old(count) then old(View(Value()))[..n] else old(View(Value()))
    {
      ghost var before := View(Value());
      while count > n
        invariant Valid(Value()) && count <= |before| && View(Value()) == before[..count]
        invariant count >= n || count == |before|
        decreases count
      {
        var _ := PopNextBit();
      }
    }
  }

  /** The longest path that both continue, and the bits with which they go on when they part. */
  predicate IsCommonPrefix(p: Path, a: Path, b: Path, next: Option<(bool, bool)>) {
    && p <= a && p <= b
    && (next.None? ==> |p| == |a| || |p| == |b|)
    && (next.Some? ==> |p| < |a| && |p| < |b| && next.value == (a[|p|], b[|p|]) && next.value.0 != next.value.1)
  }

  /** Pops bits from both until what is left is the same. */
  method PopToFork(a: BitBuffer, b: BitBuffer) returns (aBit: bool, bBit: bool)
    requires a != b && Valid(a.Value()) && Valid(b.Value()) && a.count == b.count && a.Value() != b.Value()
    modifies a, b
    ensures Valid(a.Value()) && a.Value() == b.Value() && a.count < old(a.count)
    ensures View(a.Value()) == old(View(a.Value()))[..a.count] == old(View(b.Value()))[..a.count]
    ensures aBit == old(View(a.Value()))[a.count] && bBit == old(View(b.Value()))[a.count] && aBit != bBit
  {
    ghost var u, v := View(a.Value()), View(b.Value());
    assert u[..a.count] == u && v[..b.count] == v;
    aBit, bBit := PopBoth(a, b);
    LastPopped(u, View(a.Value()), aBit, a.count);
    LastPopped(v, View(b.Value()), bBit, b.count);
    while a.Value() != b.Value()
      invariant Valid(a.Value()) && Valid(b.Value()) && a.count == b.count < |u|
      invariant View(a.Value()) == u[..a.count] && View(b.Value()) == v[..a.count]
      invariant aBit == u[a.count] && bBit == v[a.count]
      invariant a.Value() == b.Value() ==> aBit != bBit
      decreases a.count
    {
      ghost var n := a.count - 1;
      assert u[..n + 1] == View(a.Value()) && v[..n + 1] == View(b.Value());
      aBit, bBit := PopBoth(a, b);
      LastPopped(u, View(a.Value()), aBit, n);
      LastPopped(v, View(b.Value()), bBit, n);
    }
  }

  lemma LastPopped(u: Path, rest: Path, bit: bool, n: nat)
    requires n < |u| && u[..n + 1] == rest + [bit]
    ensures rest == u[..n] && bit == u[n]
  {
    assert u[..n + 1][..n] == u[..n];
  }

  method PopBoth(a: BitBuffer, b: BitBuffer) returns (aBit: bool, bBit: bool)
    requires a != b && Valid(a.Value()) && Valid(b.Value()) && a.count == b.count && a.Value() != b.Value()
    modifies a, b
    ensures Valid(a.Value()) && Valid(b.Value()) && a.count == b.count == old(a.count) - 1
    ensures old(View(a.Value())) == View(a.Value()) + [aBit] && old(View(b.Value())) == View(b.Value()) + [bBit]
    ensures a.Value() == b.Value() ==> aBit != bBit
  {
    DifferentViews(a.Value(), b.Value());
    aBit := a.PopNextBit();
    bBit := b.PopNextBit();
  }

  method CommonPrefix(x: Packed, y: Packed) returns (p: Packed, next: Option<(bool, bool)>)
    requires Valid(x) && Valid(y)
    ensures Valid(p) && IsCommonPrefix(View(p), View(x), View(y), next)
  {
    var a := new BitBuffer(x);
    var b := new BitBuffer(y);
    a.ShortenTo(y.count);
    b.ShortenTo(x.count);
    if a.Value() == b.Value() { return a.Value(), None; }
    var aBit, bBit := PopToFork(a, b);
    p, next := a.Value(), Some((aBit, bBit));
  }
}
