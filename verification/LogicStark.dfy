/** The logic table: its rows, its constraints, and that they mean bitwise operations. */
module LogicStark {
  import opened Arithmetic
  import opened Bitwise
  import opened PrimeField

  datatype Op = OpAnd | OpOr | OpXor

  const VAL_BITS: nat := 256
  const LIMB_BITS: nat := 32
  const PACKED_LEN: nat := 8

  // Columns: three flags, the bits of both inputs, the limbs of the result.
  const INPUT0: nat := 3
  const INPUT1: nat := 259
  const RESULT: nat := 515
  const NUM_COLUMNS: nat := 523

  type Row = seq<nat>

  function FlagColumn(op: Op): nat {
    match op
    case OpAnd => 0
    case OpOr => 1
    case OpXor => 2
  }

  /** The word that an operation computes. */
  function Apply(op: Op, a: nat, b: nat): nat {
    match op
    case OpAnd => And(a, b)
    case OpOr => Or(a, b)
    case OpXor => Xor(a, b)
  }

  // ---------------------------------------------------------------------------------------------
  // Operations on words, through their halves
  // ---------------------------------------------------------------------------------------------

  function BitOp(op: Op, a: nat, b: nat): nat
    requires a < 2 && b < 2
  {
    match op
    case OpAnd => if a == 1 && b == 1 then 1 else 0
    case OpOr => if a == 1 || b == 1 then 1 else 0
    case OpXor => if a != b then 1 else 0
  }

  lemma {:induction false} ApplyHalves(op: Op, a: nat, b: nat)
    ensures Apply(op, a, b) == BitOp(op, a % 2, b % 2) + 2 * Apply(op, a / 2, b / 2)
    decreases a + b
  {
    if a == 0 {
      AndZero(b);
      assert b == b % 2 + 2 * (b / 2);
    }
  }

  lemma {:induction false} ApplyZero(op: Op)
    ensures Apply(op, 0, 0) == 0
  {
  }

  lemma Halves(x: nat)
    ensures x == x % 2 + 2 * (x / 2) && x % 2 < 2
  {
  }

  lemma HeadAndTail(b: nat, t: nat)
    requires b < 2
    ensures (b + 2 * t) % 2 == b && (b + 2 * t) / 2 == t
  {
  }

  lemma ModParts(x: nat, n: nat)
    requires n > 0
    ensures x % Pow2(n) % 2 == x % 2 && x % Pow2(n) / 2 == x / 2 % Pow2(n - 1)
    ensures x % Pow2(n) == x % 2 + 2 * (x / 2 % Pow2(n - 1))
  {
    ModHalf(x, Pow2(n - 1));
    HeadAndTail(x % 2, x / 2 % Pow2(n - 1));
  }

  /** The low bits of a result are the result of the low bits. */
  lemma {:induction false} ApplyMod(op: Op, a: nat, b: nat, n: nat)
    ensures Apply(op, a, b) % Pow2(n) == Apply(op, a % Pow2(n), b % Pow2(n)) < Pow2(n)
    decreases n
  {
    if n == 0 {
      ApplyZero(op);
    } else {
      var r := Apply(op, a / 2, b / 2);
      ModParts(a, n);
      ModParts(b, n);
      ApplyHalves(op, a, b);
      ApplyHalves(op, a % Pow2(n), b % Pow2(n));
      ApplyMod(op, a / 2, b / 2, n - 1);
      var bit := BitOp(op, a % 2, b % 2);
      HeadAndTail(bit, r);
      ModParts(bit + 2 * r, n);
    }
  }

  /** The high bits of a result are the result of the high bits. */
  lemma {:induction false} ApplyShr(op: Op, a: nat, b: nat, s: nat)
    ensures Shr(Apply(op, a, b), s) == Apply(op, Shr(a, s), Shr(b, s))
    decreases s
  {
    if s == 0 {
      assert a / 1 == a && b / 1 == b && Apply(op, a, b) / 1 == Apply(op, a, b);
    } else {
      var bit, r := BitOp(op, a % 2, b % 2), Apply(op, a / 2, b / 2);
      ApplyHalves(op, a, b);
      HeadAndTail(bit, r);
      HalfShift(a, s - 1);
      HalfShift(b, s - 1);
      HalfShift(bit + 2 * r, s - 1);
      ApplyShr(op, a / 2, b / 2, s - 1);
    }
  }

  function SumCoeff(op: Op): int {
    if op.OpAnd? then 0 else 1
  }

  function AndCoeff(op: Op): int {
    match op
    case OpAnd => 1
    case OpOr => -1
    case OpXor => -2
  }

  /** Every operation is a combination of the sum and the AND of its inputs. */
  lemma {:induction false} ApplyIsCombination(op: Op, a: nat, b: nat)
    ensures Apply(op, a, b) == SumCoeff(op) * (a + b) + AndCoeff(op) * And(a, b)
    decreases a + b
  {
    ApplyHalves(op, a, b);
    ApplyHalves(OpAnd, a, b);
    Halves(a);
    Halves(b);
    if a + b > 0 {
      ApplyIsCombination(op, a / 2, b / 2);
    } else {
      ApplyZero(op);
      ApplyZero(OpAnd);
    }
  }

  // ---------------------------------------------------------------------------------------------
  // Bits in columns
  // ---------------------------------------------------------------------------------------------

  /** The sum of the values in some columns, the i-th one counted 2^i times. */
  function LimbFromBits(bits: seq<nat>): nat {
    if bits == [] then 0
    else LimbFromBits(bits[..|bits| - 1]) + bits[|bits| - 1] * Pow2(|bits| - 1)
  }

  /** The same sum for the products of two columns. */
  function AndFromBits(x: seq<nat>, y: seq<nat>): nat
    requires |x| == |y|
    decreases |x|
  {
    if x == [] then 0
    else
      var n := |x| - 1;
      AndFromBits(x[..n], y[..n]) + x[n] * y[n] * Pow2(n)
  }

  predicate Bits(s: seq<nat>) {
    forall i :: 0 <= i < |s| ==> s[i] < 2
  }

  lemma {:induction false} LimbHorner(s: seq<nat>)
    requires s != []
    ensures LimbFromBits(s) == s[0] + 2 * LimbFromBits(s[1..])
    decreases |s|
  {
    var n := |s| - 1;
    if n > 0 {
      LimbHorner(s[..n]);
      assert s[..n][1..] == s[1..][..n - 1] && s[1..][n - 1] == s[n];
      assert s[n] * Pow2(n) == 2 * (s[n] * Pow2(n - 1));
    } else {
      assert s[..0] == [] && s[1..] == [];
    }
  }

  lemma {:induction false} AndHorner(x: seq<nat>, y: seq<nat>)
    requires |x| == |y| && x != []
    ensures AndFromBits(x, y) == x[0] * y[0] + 2 * AndFromBits(x[1..], y[1..])
    decreases |x|
  {
    var n := |x| - 1;
    if n > 0 {
      AndHorner(x[..n], y[..n]);
      assert x[..n][1..] == x[1..][..n - 1] && x[1..][n - 1] == x[n];
      assert y[..n][1..] == y[1..][..n - 1] && y[1..][n - 1] == y[n];
      var c := x[n] * y[n];
      assert c * Pow2(n) == 2 * (c * Pow2(n - 1));
    } else {
      assert x[..0] == [] && x[1..] == [] && y[..0] == [] && y[1..] == [];
    }
  }

  lemma {:induction false} LimbBound(s: seq<nat>)
    requires Bits(s)
    ensures LimbFromBits(s) < Pow2(|s|)
    decreases |s|
  {
    if s != [] { LimbBound(s[..|s| - 1]); }
  }

  lemma BitProduct(a: nat, b: nat)
    requires a < 2 && b < 2
    ensures a * b == BitOp(OpAnd, a, b)
  {
  }

  /** For columns that hold bits, the sum of products is the AND of the words. */
  lemma {:induction false} ProductsAreAnd(x: seq<nat>, y: seq<nat>)
    requires |x| == |y| && Bits(x) && Bits(y)
    ensures AndFromBits(x, y) == And(LimbFromBits(x), LimbFromBits(y))
    decreases |x|
  {
    if x != [] {
      LimbHorner(x);
      LimbHorner(y);
      AndHorner(x, y);
      BitProduct(x[0], y[0]);
      ProductsAreAnd(x[1..], y[1..]);
      ApplyHalves(OpAnd, LimbFromBits(x), LimbFromBits(y));
      HeadAndTail(x[0], LimbFromBits(x[1..]));
      HeadAndTail(y[0], LimbFromBits(y[1..]));
    }
  }

  function BitColumn(x: nat, i: nat): nat {
    if Bit(x, i) then 1 else 0
  }

  /** The columns that hold n bits of a word from bit s on add up to those bits. */
  lemma {:induction false} BitColumnsAdd(x: nat, s: nat, n: nat, cols: seq<nat>)
    requires |cols| == n && forall i :: 0 <= i < n ==> cols[i] == BitColumn(x, s + i)
    ensures Bits(cols) && LimbFromBits(cols) == Shr(x, s) % Pow2(n)
    decreases n
  {
    if n > 0 {
      BitColumnsAdd(x, s, n - 1, cols[..n - 1]);
      BitShifted(x, s, n - 1);
      ModStep(Shr(x, s), n - 1);
    }
  }

  lemma BitShifted(x: nat, s: nat, i: nat)
    ensures Bit(x, s + i) == Bit(Shr(x, s), i)
  {
    DivMod(x, Pow2(s));
    DivDiv(x, Pow2(s), Pow2(i));
    Pow2Add(s, i);
  }

  // ---------------------------------------------------------------------------------------------
  // Constraints
  // ---------------------------------------------------------------------------------------------

  /** The columns of limb j of an input that starts at column c. */
  function Chunk(row: Row, c: nat, j: nat): seq<nat>
    requires |row| == NUM_COLUMNS && j < PACKED_LEN && (c == INPUT0 || c == INPUT1)
  {
    row[c + LIMB_BITS * j..c + LIMB_BITS * (j + 1)]
  }

  predicate IsZero(x: int, p: nat)
    requires p > 0
  {
    x % p == 0
  }

  predicate IsBoolean(x: int, p: nat)
    requires p > 0
  {
    IsZero(x * (x - 1), p)
  }

  /** The difference that the constraint on limb j makes zero. */
  function LimbDifference(row: Row, j: nat): int
    requires |row| == NUM_COLUMNS && j < PACKED_LEN
  {
    var x, y := Chunk(row, INPUT0, j), Chunk(row, INPUT1, j);
    var isAnd: int, isOr: int, isXor: int := row[0], row[1], row[2];
    var sumCoeff, andCoeff := isOr + isXor, isAnd - isOr - isXor * 2;
    row[RESULT + j] - (sumCoeff * (LimbFromBits(x) + LimbFromBits(y)) + andCoeff * AndFromBits(x, y))
  }

  predicate BooleanColumn(row: Row, i: nat, p: nat)
    requires i < |row| && p > 0
  {
    IsBoolean(row[i], p)
  }

  /** All constraints on a row, over the field of order p. */
  predicate Constraints(row: Row, p: nat)
    requires |row| == NUM_COLUMNS && p > 0
  {
    && (forall i :: 0 <= i < 3 ==> BooleanColumn(row, i, p))
    && IsBoolean(row[0] + row[1] + row[2], p)
    && (forall i :: INPUT0 <= i < RESULT ==> BooleanColumn(row, i, p))
    && (forall j :: 0 <= j < PACKED_LEN ==> IsZero(LimbDifference(row, j), p))
  }

  /** Columns hold canonical field elements. */
  predicate InField(row: Row, p: nat) {
    |row| == NUM_COLUMNS && forall i :: 0 <= i < NUM_COLUMNS ==> row[i] < p
  }

  // ---------------------------------------------------------------------------------------------
  // Soundness
  // ---------------------------------------------------------------------------------------------

  lemma BooleanValue(x: nat, p: nat)
    requires IsPrime(p) && x < p && IsBoolean(x, p)
    ensures x < 2
  {
    if x >= 2 {
      NoZeroDivisors(p, x, x - 1);
      SmallMod(x, p);
      SmallMod(x - 1, p);
    }
  }

  /** The flags of a row that meets the constraints: at most one of them is set. */
  lemma FlagsAreExclusive(row: Row, p: nat)
    requires IsPrime(p) && p > 3 && InField(row, p) && Constraints(row, p)
    ensures row[0] + row[1] + row[2] < 2
  {
    assert BooleanColumn(row, 0, p) && BooleanColumn(row, 1, p) && BooleanColumn(row, 2, p);
    BooleanValue(row[0], p);
    BooleanValue(row[1], p);
    BooleanValue(row[2], p);
    BooleanValue(row[0] + row[1] + row[2], p);
  }

  lemma ChunkBits(row: Row, c: nat, j: nat, p: nat)
    requires IsPrime(p) && InField(row, p) && Constraints(row, p)
    requires j < PACKED_LEN && (c == INPUT0 || c == INPUT1)
    ensures Bits(Chunk(row, c, j))
  {
    forall i | 0 <= i < LIMB_BITS ensures Chunk(row, c, j)[i] < 2 {
      var k := c + LIMB_BITS * j + i;
      assert BooleanColumn(row, k, p);
      BooleanValue(row[k], p);
    }
  }

  lemma ZeroDifference(a: nat, b: nat, p: nat)
    requires a < p && b < p && IsZero(a - b, p)
    ensures a == b
  {
  }

  lemma Pow2Of32()
    ensures Pow2(32) == 0x1_0000_0000
  {
    assert Pow2(4) == 16;
    Pow2Square(4, 16);
    Pow2Square(8, 256);
    Pow2Square(16, 0x1_0000);
  }

  /** With one flag set and bits in the input columns, a limb's difference is its distance from the
      operation's result. */
  lemma DifferenceIs(row: Row, op: Op, j: nat)
    requires |row| == NUM_COLUMNS && j < PACKED_LEN
    requires row[0] + row[1] + row[2] < 2 && row[FlagColumn(op)] == 1
    requires Bits(Chunk(row, INPUT0, j)) && Bits(Chunk(row, INPUT1, j))
    ensures LimbDifference(row, j)
         == row[RESULT + j] - Apply(op, LimbFromBits(Chunk(row, INPUT0, j)), LimbFromBits(Chunk(row, INPUT1, j)))
  {
    var x, y := Chunk(row, INPUT0, j), Chunk(row, INPUT1, j);
    var a, b := LimbFromBits(x), LimbFromBits(y);
    ProductsAreAnd(x, y);
    ApplyIsCombination(op, a, b);
    FlagsSelect(row, op, a, b, And(a, b));
  }

  lemma ApplyBelow(op: Op, a: nat, b: nat, n: nat)
    requires a < Pow2(n) && b < Pow2(n)
    ensures Apply(op, a, b) < Pow2(n)
  {
    ApplyMod(op, a, b, n);
    SmallMod(a, Pow2(n));
    SmallMod(b, Pow2(n));
  }

  lemma LimbResultFits(op: Op, x: seq<nat>, y: seq<nat>)
    requires |x| == |y| == 32 && Bits(x) && Bits(y)
    ensures Apply(op, LimbFromBits(x), LimbFromBits(y)) < 0x1_0000_0000
  {
    LimbBound(x);
    LimbBound(y);
    Pow2Of32();
    ApplyBelow(op, LimbFromBits(x), LimbFromBits(y), 32);
  }

  lemma LimbConstraint(row: Row, p: nat, j: nat)
    requires p > 0 && |row| == NUM_COLUMNS && Constraints(row, p) && j < PACKED_LEN
    ensures IsZero(LimbDifference(row, j), p)
  {
  }

  /** A row that meets the constraints with the flag of an operation set holds, in every limb of the
      result, that operation on the limbs of the inputs. */
  lemma Sound(row: Row, p: nat, op: Op, j: nat)
    requires IsPrime(p) && p > 0x1_0000_0000 && InField(row, p) && Constraints(row, p)
    requires row[FlagColumn(op)] == 1 && j < PACKED_LEN
    ensures row[RESULT + j] == Apply(op, LimbFromBits(Chunk(row, INPUT0, j)), LimbFromBits(Chunk(row, INPUT1, j)))
  {
    FlagsAreExclusive(row, p);
    ChunkBits(row, INPUT0, j, p);
    ChunkBits(row, INPUT1, j, p);
    DifferenceIs(row, op, j);
    LimbResultFits(op, Chunk(row, INPUT0, j), Chunk(row, INPUT1, j));
    LimbConstraint(row, p, j);
    ZeroDifference(row[RESULT + j], Apply(op, LimbFromBits(Chunk(row, INPUT0, j)), LimbFromBits(Chunk(row, INPUT1, j))), p);
  }

  lemma FlagsSelect(row: Row, op: Op, a: nat, b: nat, c: nat)
    requires |row| == NUM_COLUMNS && row[0] + row[1] + row[2] < 2 && row[FlagColumn(op)] == 1
    ensures var isAnd: int, isOr: int, isXor: int := row[0], row[1], row[2];
      (isOr + isXor) * (a + b) + (isAnd - isOr - isXor * 2) * c == SumCoeff(op) * (a + b) + AndCoeff(op) * c
  {
  }

  /** Each bit of a result is the operation on the bits in its place. */
  lemma ApplyAt(op: Op, a: nat, b: nat, i: nat)
    ensures Bit(Apply(op, a, b), i) <==>
      match op
      case OpAnd => Bit(a, i) && Bit(b, i)
      case OpOr => Bit(a, i) || Bit(b, i)
      case OpXor => Bit(a, i) != Bit(b, i)
  {
    ApplyShr(op, a, b, i);
    ApplyHalves(op, Shr(a, i), Shr(b, i));
    HeadAndTail(BitOp(op, Shr(a, i) % 2, Shr(b, i) % 2), Apply(op, Shr(a, i) / 2, Shr(b, i) / 2));
  }

  lemma BitOfHalf(x: nat, i: nat)
    requires i > 0
    ensures Bit(x, i) <==> Bit(x / 2, i - 1)
  {
    DivDiv(x, 2, Pow2(i - 1));
  }

  lemma {:induction false} ColumnIsBit(s: seq<nat>, i: nat)
    requires Bits(s) && i < |s|
    ensures Bit(LimbFromBits(s), i) <==> s[i] == 1
    decreases |s|
  {
    LimbHorner(s);
    HeadAndTail(s[0], LimbFromBits(s[1..]));
    if i == 0 {
      assert Pow2(0) == 1;
    } else {
      BitOfHalf(LimbFromBits(s), i);
      ColumnIsBit(s[1..], i - 1);
    }
  }

  /** Column by column: columns 0, 1 and 2 are the flags of AND, OR and XOR; bit i of the inputs is in the columns
      3 + i and 259 + i, and bit i of the result in bit i % 32 of column 515 + i / 32. */
  lemma SoundByBits(row: Row, p: nat, i: nat)
    requires IsPrime(p) && p > 0x1_0000_0000 && |row| == 523 && (forall c :: 0 <= c < 523 ==> row[c] < p)
    requires Constraints(row, p) && i < 256
    ensures row[3 + i] < 2 && row[259 + i] < 2
    ensures row[0] == 1 ==> (Bit(row[515 + i / 32], i % 32) <==> row[3 + i] == 1 && row[259 + i] == 1)
    ensures row[1] == 1 ==> (Bit(row[515 + i / 32], i % 32) <==> row[3 + i] == 1 || row[259 + i] == 1)
    ensures row[2] == 1 ==> (Bit(row[515 + i / 32], i % 32) <==> row[3 + i] != row[259 + i])
  {
    var j, l := i / 32, i % 32;
    var x, y := Chunk(row, INPUT0, j), Chunk(row, INPUT1, j);
    ChunkBits(row, INPUT0, j, p);
    ChunkBits(row, INPUT1, j, p);
    assert x[l] == row[3 + i] && y[l] == row[259 + i];
    ColumnIsBit(x, l);
    ColumnIsBit(y, l);
    if row[0] == 1 { ResultBit(row, p, OpAnd, j, l); }
    if row[1] == 1 { ResultBit(row, p, OpOr, j, l); }
    if row[2] == 1 { ResultBit(row, p, OpXor, j, l); }
  }

  lemma ResultBit(row: Row, p: nat, op: Op, j: nat, l: nat)
    requires IsPrime(p) && p > 0x1_0000_0000 && InField(row, p) && Constraints(row, p)
    requires row[FlagColumn(op)] == 1 && j < PACKED_LEN
    ensures var a, b := LimbFromBits(Chunk(row, INPUT0, j)), LimbFromBits(Chunk(row, INPUT1, j));
      Bit(row[RESULT + j], l) <==>
        match op
        case OpAnd => Bit(a, l) && Bit(b, l)
        case OpOr => Bit(a, l) || Bit(b, l)
        case OpXor => Bit(a, l) != Bit(b, l)
  {
    Sound(row, p, op, j);
    ApplyAt(op, LimbFromBits(Chunk(row, INPUT0, j)), LimbFromBits(Chunk(row, INPUT1, j)), l);
  }

  /** The opcode column of the cross-table lookup tells the operation. */
  lemma OpcodeTellsOp(row: Row, p: nat)
    requires IsPrime(p) && p > 0x1_0000_0000 && InField(row, p) && Constraints(row, p)
    requires row[0] + row[1] + row[2] == 1
    ensures var opcode := 0x16 * row[0] + 0x17 * row[1] + 0x18 * row[2];
      && (opcode == 0x16 <==> row[FlagColumn(OpAnd)] == 1)
      && (opcode == 0x17 <==> row[FlagColumn(OpOr)] == 1)
      && (opcode == 0x18 <==> row[FlagColumn(OpXor)] == 1)
      && 0x16 <= opcode <= 0x18
  {
  }

  // ---------------------------------------------------------------------------------------------
  // The words of a row
  // ---------------------------------------------------------------------------------------------

  /** The word whose limbs of n bits these are, least significant first. */
  function WordOf(limbs: seq<nat>, n: nat): nat {
    if limbs == [] then 0 else limbs[0] + Pow2(n) * WordOf(limbs[1..], n)
  }

  /** The n lowest bits of a word, and the bits above them. */
  function LowBits(a: nat, n: nat): nat {
    if n == 0 then 0 else a % 2 + 2 * LowBits(a / 2, n - 1)
  }

  function HighBits(a: nat, n: nat): nat {
    if n == 0 then a else HighBits(a / 2, n - 1)
  }

  lemma {:induction false} BitsAsParts(a: nat, n: nat)
    ensures LowBits(a, n) == a % Pow2(n) && HighBits(a, n) == a / Pow2(n)
    decreases n
  {
    if n == 0 {
      assert a / 1 == a;
    } else {
      BitsAsParts(a / 2, n - 1);
      ModParts(a, n);
      DivDiv(a, 2, Pow2(n - 1));
    }
  }

  lemma {:induction false} ApplyParts(op: Op, a: nat, b: nat, n: nat)
    ensures LowBits(Apply(op, a, b), n) == Apply(op, LowBits(a, n), LowBits(b, n))
    ensures HighBits(Apply(op, a, b), n) == Apply(op, HighBits(a, n), HighBits(b, n))
    decreases n
  {
    if n == 0 {
      ApplyZero(op);
    } else {
      var bit, r := BitOp(op, a % 2, b % 2), Apply(op, a / 2, b / 2);
      ApplyHalves(op, a, b);
      HeadAndTail(bit, r);
      ApplyParts(op, a / 2, b / 2, n - 1);
      ApplyHalves(op, LowBits(a, n), LowBits(b, n));
      HeadAndTail(a % 2, LowBits(a / 2, n - 1));
      HeadAndTail(b % 2, LowBits(b / 2, n - 1));
    }
  }

  lemma WholeOf(w: nat, n: nat)
    ensures w == LowBits(w, n) + Pow2(n) * HighBits(w, n)
  {
    BitsAsParts(w, n);
    Whole(w, w % Pow2(n), w / Pow2(n), Pow2(n));
  }

  /** The lowest limb of a word is its lowest bits. */
  lemma LowestLimb(limbs: seq<nat>, n: nat)
    requires limbs != [] && limbs[0] < Pow2(n)
    ensures LowBits(WordOf(limbs, n), n) == limbs[0] && HighBits(WordOf(limbs, n), n) == WordOf(limbs[1..], n)
  {
    Parts(limbs[0], WordOf(limbs[1..], n), Pow2(n));
    BitsAsParts(WordOf(limbs, n), n);
  }

  lemma WordFromBits(w: nat, limbs: seq<nat>, n: nat)
    requires limbs != [] && LowBits(w, n) == limbs[0] && HighBits(w, n) == WordOf(limbs[1..], n)
    ensures w == WordOf(limbs, n)
  {
    WholeOf(w, n);
  }

  lemma Whole(w: nat, low: nat, high: nat, d: nat)
    requires d > 0 && w % d == low && w / d == high
    ensures w == low + d * high
  {
  }

  lemma Parts(low: nat, high: nat, d: nat)
    requires low < d
    ensures (low + d * high) % d == low && (low + d * high) / d == high
  {
    RemainderUnique(low + d * high, d, high, low);
  }

  /** Words combine limb by limb. */
  lemma {:induction false} WordsCombine(op: Op, x: seq<nat>, y: seq<nat>, r: seq<nat>, n: nat)
    requires |x| == |y| == |r|
    requires forall j :: 0 <= j < |x| ==> x[j] < Pow2(n) && y[j] < Pow2(n) && r[j] == Apply(op, x[j], y[j])
    ensures WordOf(r, n) == Apply(op, WordOf(x, n), WordOf(y, n))
    decreases |x|
  {
    if x == [] {
      ApplyZero(op);
    } else {
      WordsCombine(op, x[1..], y[1..], r[1..], n);
      LowestLimb(x, n);
      LowestLimb(y, n);
      ApplyParts(op, WordOf(x, n), WordOf(y, n), n);
      WordFromBits(Apply(op, WordOf(x, n), WordOf(y, n)), r, n);
    }
  }

  /** The limbs of an input that starts at column c. */
  function InputLimbs(row: Row, c: nat): (limbs: seq<nat>)
    requires |row| == NUM_COLUMNS && (c == INPUT0 || c == INPUT1)
    ensures |limbs| == PACKED_LEN && forall j :: 0 <= j < PACKED_LEN ==> limbs[j] == LimbFromBits(Chunk(row, c, j))
  {
    seq(PACKED_LEN, j requires 0 <= j < PACKED_LEN => LimbFromBits(Chunk(row, c, j)))
  }

  function InputWord(row: Row, c: nat): nat
    requires |row| == NUM_COLUMNS && (c == INPUT0 || c == INPUT1)
  {
    WordOf(InputLimbs(row, c), LIMB_BITS)
  }

  function ResultWord(row: Row): nat
    requires |row| == NUM_COLUMNS
  {
    WordOf(row[RESULT..], LIMB_BITS)
  }

  lemma ChunkFits(row: Row, c: nat, j: nat, p: nat)
    requires IsPrime(p) && InField(row, p) && Constraints(row, p)
    requires j < PACKED_LEN && (c == INPUT0 || c == INPUT1)
    ensures LimbFromBits(Chunk(row, c, j)) < Pow2(LIMB_BITS)
  {
    ChunkBits(row, c, j, p);
    LimbBound(Chunk(row, c, j));
  }

  lemma SoundLimb(row: Row, p: nat, op: Op, j: nat)
    requires IsPrime(p) && p > 0x1_0000_0000 && InField(row, p) && Constraints(row, p)
    requires row[FlagColumn(op)] == 1 && j < PACKED_LEN
    ensures InputLimbs(row, INPUT0)[j] < Pow2(LIMB_BITS) && InputLimbs(row, INPUT1)[j] < Pow2(LIMB_BITS)
    ensures row[RESULT..][j] == Apply(op, InputLimbs(row, INPUT0)[j], InputLimbs(row, INPUT1)[j])
  {
    Sound(row, p, op, j);
    ChunkFits(row, INPUT0, j, p);
    ChunkFits(row, INPUT1, j, p);
  }

  /** Soundness for whole words. */
  lemma SoundForWords(row: Row, p: nat, op: Op)
    requires IsPrime(p) && p > 0x1_0000_0000 && InField(row, p) && Constraints(row, p)
    requires row[FlagColumn(op)] == 1
    ensures ResultWord(row) == Apply(op, InputWord(row, INPUT0), InputWord(row, INPUT1))
  {
    var x, y, r := InputLimbs(row, INPUT0), InputLimbs(row, INPUT1), row[RESULT..];
    forall j | 0 <= j < PACKED_LEN
      ensures x[j] < Pow2(LIMB_BITS) && y[j] < Pow2(LIMB_BITS) && r[j] == Apply(op, x[j], y[j])
    {
      SoundLimb(row, p, op, j);
    }
    WordsCombine(op, x, y, r, LIMB_BITS);
  }
}
