/** The rows that the prover generates for the logic table, and that they meet the constraints. */
module LogicTrace {
  import opened Arithmetic
  import opened Bitwise
  import opened LogicStark

  type U256 = x: nat | x < 0x1_0000000000000000_0000000000000000_0000000000000000_0000000000000000

  datatype Operation = Operation(operator: Op, input0: U256, input1: U256, result: nat)

  /** A row that holds an operation: its flag, the bits of the inputs, the limbs of the result. */
  predicate Holds(row: Row, o: Operation) {
    && |row| == NUM_COLUMNS
    && (forall i :: 0 <= i < 3 ==> row[i] == if i == FlagColumn(o.operator) then 1 else 0)
    && (forall i :: 0 <= i < VAL_BITS ==> row[INPUT0 + i] == BitColumn(o.input0, i))
    && (forall i :: 0 <= i < VAL_BITS ==> row[INPUT1 + i] == BitColumn(o.input1, i))
    && (forall j :: 0 <= j < PACKED_LEN ==> row[RESULT + j] == ResultLimb(o.result, j))
  }

  function ResultLimb(x: nat, j: nat): nat {
    Shr(x, LIMB_BITS * j) % Pow2(LIMB_BITS)
  }

  /** Column by column: what a row that holds an operation has in its 523 columns. */
  lemma RowColumns(row: Row, o: Operation, i: nat, j: nat)
    requires Holds(row, o) && i < 256 && j < 8
    ensures |row| == 523 && row[..3] == match o.operator case OpAnd => [1, 0, 0] case OpOr => [0, 1, 0] case OpXor => [0, 0, 1]
    ensures row[3 + i] == (if Bit(o.input0, i) then 1 else 0) && row[259 + i] == (if Bit(o.input1, i) then 1 else 0)
    ensures row[515 + j] == o.result / Pow2(32 * j) % Pow2(32)
  {
    assert row[INPUT0 + i] == BitColumn(o.input0, i) && row[INPUT1 + i] == BitColumn(o.input1, i);
    assert row[RESULT + j] == ResultLimb(o.result, j);
  }

  function LowHalf(limb: nat): nat {
    limb % Pow2(32)
  }

  function HighHalf(limb: nat): nat {
    Shr(limb, 32)
  }

  /** The 64-bit limbs of a word, cut in two. */
  lemma HalfLimbs(x: nat, i: nat)
    ensures LowHalf(Shr(x, 64 * i) % Pow2(64)) == ResultLimb(x, 2 * i)
    ensures HighHalf(Shr(x, 64 * i) % Pow2(64)) == ResultLimb(x, 2 * i + 1)
  {
    assert 32 * (2 * i) == 64 * i && 32 * (2 * i + 1) == 64 * i + 32;
    HalvesOf(x, 64 * i, 32, 64);
  }

  /** Twice w bits from bit s on, cut in two. */
  lemma HalvesOf(x: nat, s: nat, w: nat, ww: nat)
    requires ww == w + w
    ensures Shr(x, s) % Pow2(ww) % Pow2(w) == Shr(x, s) % Pow2(w)
    ensures Shr(x, s) % Pow2(ww) / Pow2(w) == Shr(x, s + w) % Pow2(w)
  {
    Pow2Add(w, w);
    ModOfProduct(Shr(x, s), Pow2(w), Pow2(w));
    DivDiv(x, Pow2(s), Pow2(w));
    Pow2Add(s, w);
  }

  lemma ModOfProduct(y: nat, a: nat, b: nat)
    requires a > 0 && b > 0
    ensures y % (a * b) % a == y % a && y % (a * b) / a == y / a % b
  {
    DivMod(y, a);
    DivMod(y / a, b);
    var q, r, s := y / a / b, y / a % b, y % a;
    JoinBound(r, s, b, a);
    assert (q * b + r) * a == q * (a * b) + r * a;
    RemainderUnique(y, a * b, q, r * a + s);
    RemainderUnique(r * a + s, a, r, s);
  }

  method FillInputs(row: array<nat>, a: U256, b: U256)
    requires row.Length == NUM_COLUMNS
    modifies row
    ensures forall k :: 0 <= k < VAL_BITS ==> row[INPUT0 + k] == BitColumn(a, k) && row[INPUT1 + k] == BitColumn(b, k)
    ensures forall k :: 0 <= k < INPUT0 ==> row[k] == old(row[k])
  {
    for i := 0 to VAL_BITS
      invariant forall k :: 0 <= k < INPUT0 ==> row[k] == old(row[k])
      invariant forall k :: 0 <= k < i ==> row[INPUT0 + k] == BitColumn(a, k) && row[INPUT1 + k] == BitColumn(b, k)
    {
      row[INPUT0 + i] := BitColumn(a, i);
      row[INPUT1 + i] := BitColumn(b, i);
    }
  }

  method FillResult(row: array<nat>, x: nat)
    requires row.Length == NUM_COLUMNS
    modifies row
    ensures forall j :: 0 <= j < PACKED_LEN ==> row[RESULT + j] == ResultLimb(x, j)
    ensures forall k :: 0 <= k < RESULT ==> row[k] == old(row[k])
  {
    for i := 0 to 4
      invariant forall k :: 0 <= k < RESULT ==> row[k] == old(row[k])
      invariant forall j :: 0 <= j < 2 * i ==> row[RESULT + j] == ResultLimb(x, j)
    {
      FillLimb(row, x, i);
    }
  }

  /** One 64-bit limb, as two columns. */
  method FillLimb(row: array<nat>, x: nat, i: nat)
    requires row.Length == NUM_COLUMNS && i < 4
    modifies row
    ensures row[RESULT + 2 * i] == ResultLimb(x, 2 * i) && row[RESULT + 2 * i + 1] == ResultLimb(x, 2 * i + 1)
    ensures forall k :: 0 <= k < NUM_COLUMNS && k != RESULT + 2 * i && k != RESULT + 2 * i + 1 ==> row[k] == old(row[k])
  {
    var limb := Shr(x, 64 * i) % Pow2(64);
    HalfLimbs(x, i);
    row[RESULT + 2 * i] := LowHalf(limb);
    row[RESULT + 2 * i + 1] := HighHalf(limb);
  }

  method IntoRow(o: Operation) returns (r: Row)
    ensures Holds(r, o)
  {
    var row := new nat[NUM_COLUMNS](_ => 0);
    row[FlagColumn(o.operator)] := 1;
    FillInputs(row, o.input0, o.input1);
    FillResult(row, o.result);
    r := row[..];
  }

  // ---------------------------------------------------------------------------------------------
  // Completeness
  // ---------------------------------------------------------------------------------------------

  lemma ChunkHolds(row: Row, o: Operation, j: nat)
    requires Holds(row, o) && j < PACKED_LEN
    ensures LimbFromBits(Chunk(row, INPUT0, j)) == ResultLimb(o.input0, j) && Bits(Chunk(row, INPUT0, j))
    ensures LimbFromBits(Chunk(row, INPUT1, j)) == ResultLimb(o.input1, j) && Bits(Chunk(row, INPUT1, j))
  {
    var s := LIMB_BITS * j;
    forall i | 0 <= i < LIMB_BITS
      ensures Chunk(row, INPUT0, j)[i] == BitColumn(o.input0, s + i) && Chunk(row, INPUT1, j)[i] == BitColumn(o.input1, s + i)
    {
      assert Chunk(row, INPUT0, j)[i] == row[INPUT0 + (s + i)] && Chunk(row, INPUT1, j)[i] == row[INPUT1 + (s + i)];
    }
    BitColumnsAdd(o.input0, s, LIMB_BITS, Chunk(row, INPUT0, j));
    BitColumnsAdd(o.input1, s, LIMB_BITS, Chunk(row, INPUT1, j));
  }

  lemma FlagsHeld(row: Row, o: Operation)
    requires Holds(row, o)
    ensures row[0] + row[1] + row[2] == 1 && row[FlagColumn(o.operator)] == 1
  {
    assert row[0] == if 0 == FlagColumn(o.operator) then 1 else 0;
    assert row[1] == if 1 == FlagColumn(o.operator) then 1 else 0;
    assert row[2] == if 2 == FlagColumn(o.operator) then 1 else 0;
  }

  lemma LimbCompletes(row: Row, o: Operation, j: nat)
    requires Holds(row, o) && o.result == Apply(o.operator, o.input0, o.input1) && j < PACKED_LEN
    ensures LimbDifference(row, j) == 0
  {
    ChunkHolds(row, o, j);
    FlagsHeld(row, o);
    DifferenceIs(row, o.operator, j);
    assert row[RESULT + j] == ResultLimb(o.result, j);
    ResultOfLimbs(o.operator, o.input0, o.input1, j);
  }

  lemma ResultOfLimbs(op: Op, a: nat, b: nat, j: nat)
    ensures ResultLimb(Apply(op, a, b), j) == Apply(op, ResultLimb(a, j), ResultLimb(b, j))
  {
    BitsOfResult(op, a, b, LIMB_BITS * j, LIMB_BITS);
  }

  /** The operation commutes with cutting bits out of words. */
  lemma BitsOfResult(op: Op, a: nat, b: nat, s: nat, n: nat)
    ensures Shr(Apply(op, a, b), s) % Pow2(n) == Apply(op, Shr(a, s) % Pow2(n), Shr(b, s) % Pow2(n))
  {
    ApplyShr(op, a, b, s);
    ApplyMod(op, Shr(a, s), Shr(b, s), n);
  }

  lemma SmallBoolean(x: nat, p: nat)
    requires x < 2 && p > 0
    ensures IsBoolean(x, p)
  {
  }

  lemma HeldBit(row: Row, o: Operation, i: nat)
    requires Holds(row, o) && i < RESULT
    ensures row[i] < 2
  {
    if INPUT0 <= i < INPUT1 { assert row[INPUT0 + (i - INPUT0)] == BitColumn(o.input0, i - INPUT0); }
    if INPUT1 <= i { assert row[INPUT1 + (i - INPUT1)] == BitColumn(o.input1, i - INPUT1); }
  }

  /** The row of every operation meets all constraints, over every field of more than 2^32 elements. */
  lemma RowMeetsConstraints(row: Row, o: Operation, p: nat)
    requires Holds(row, o) && o.result == Apply(o.operator, o.input0, o.input1) && p > 0x1_0000_0000
    ensures InField(row, p) && Constraints(row, p)
  {
    Pow2Of32();
    forall i: nat | i < RESULT ensures row[i] < 2 {
      HeldBit(row, o, i);
    }
    forall i: nat | i < NUM_COLUMNS ensures row[i] < p {
      if i >= RESULT { assert row[RESULT + (i - RESULT)] == ResultLimb(o.result, i - RESULT); }
    }
    forall i | 0 <= i < RESULT ensures BooleanColumn(row, i, p) {
      SmallBoolean(row[i], p);
    }
    SmallBoolean(row[0] + row[1] + row[2], p);
    forall j | 0 <= j < PACKED_LEN ensures IsZero(LimbDifference(row, j), p) {
      LimbCompletes(row, o, j);
    }
  }

  function ZeroRow(): Row {
    seq(NUM_COLUMNS, _ => 0)
  }

  /** So does a padding row. */
  lemma PaddingMeetsConstraints(p: nat)
    requires p > 0
    ensures InField(ZeroRow(), p) && Constraints(ZeroRow(), p)
  {
    var row := ZeroRow();
    forall i | 0 <= i < RESULT ensures BooleanColumn(row, i, p) { SmallBoolean(row[i], p); }
    SmallBoolean(row[0] + row[1] + row[2], p);
    forall j | 0 <= j < PACKED_LEN ensures IsZero(LimbDifference(row, j), p) {
      ZeroChunk(Chunk(row, INPUT0, j));
      ZeroChunk(Chunk(row, INPUT1, j));
      ProductsAreAnd(Chunk(row, INPUT0, j), Chunk(row, INPUT1, j));
    }
  }

  lemma {:induction false} ZeroChunk(s: seq<nat>)
    requires forall i :: 0 <= i < |s| ==> s[i] == 0
    ensures LimbFromBits(s) == 0
    decreases |s|
  {
    if s != [] { ZeroChunk(s[..|s| - 1]); }
  }

  // ---------------------------------------------------------------------------------------------
  // The trace
  // ---------------------------------------------------------------------------------------------

  ghost predicate IsPowerOfTwo(n: nat) {
    exists k: nat :: Pow2(k) == n
  }

  function NextPowerOfTwo(n: nat): (r: nat)
    ensures IsPowerOfTwo(r) && r >= n && (n > 1 ==> r < 2 * n)
  {
    if n <= 1 then
      assert Pow2(0) == 1;
      1
    else
      var h := NextPowerOfTwo((n + 1) / 2);
      Doubles(h);
      2 * h
  }

  lemma Doubles(h: nat)
    requires IsPowerOfTwo(h)
    ensures IsPowerOfTwo(2 * h)
  {
    var k: nat :| Pow2(k) == h;
    assert Pow2(k + 1) == 2 * h;
  }

  lemma {:induction false} NextIsLeast(n: nat, k: nat)
    requires Pow2(k) >= n
    ensures NextPowerOfTwo(n) <= Pow2(k)
    decreases k
  {
    if n > 1 { NextIsLeast((n + 1) / 2, k - 1); }
  }

  /** The rows of the operations, padded with zero rows to the least power of two that is large enough. */
  method GenerateTraceRows(operations: seq<Operation>, minRows: nat) returns (rows: seq<Row>)
    ensures IsPowerOfTwo(|rows|) && |rows| >= |operations| && |rows| >= minRows
    ensures forall k: nat :: Pow2(k) >= |operations| && Pow2(k) >= minRows ==> |rows| <= Pow2(k)
    ensures forall i :: 0 <= i < |operations| ==> Holds(rows[i], operations[i])
    ensures forall i :: |operations| <= i < |rows| ==> rows[i] == ZeroRow()
  {
    var len := |operations|;
    var paddedLen := NextPowerOfTwo(if len > minRows then len else minRows);
    rows := [];
    for i := 0 to len
      invariant |rows| == i && forall k :: 0 <= k < i ==> Holds(rows[k], operations[k])
    {
      var row := IntoRow(operations[i]);
      rows := rows + [row];
    }
    for i := len to paddedLen
      invariant |rows| == i && forall k :: 0 <= k < len ==> Holds(rows[k], operations[k])
      invariant forall k :: len <= k < i ==> rows[k] == ZeroRow()
    {
      rows := rows + [ZeroRow()];
    }
    forall k: nat | Pow2(k) >= len && Pow2(k) >= minRows ensures paddedLen <= Pow2(k) {
      NextIsLeast(if len > minRows then len else minRows, k);
    }
  }

  /** Every row of a generated trace meets all constraints. */
  lemma TraceMeetsConstraints(operations: seq<Operation>, rows: seq<Row>, i: nat, p: nat)
    requires i < |rows| && |operations| <= |rows| && p > 0x1_0000_0000
    requires forall k :: 0 <= k < |operations| ==>
      operations[k].result == Apply(operations[k].operator, operations[k].input0, operations[k].input1)
    requires forall k :: 0 <= k < |operations| ==> Holds(rows[k], operations[k])
    requires forall k :: |operations| <= k < |rows| ==> rows[k] == ZeroRow()
    ensures InField(rows[i], p) && Constraints(rows[i], p)
  {
    if i < |operations| {
      RowMeetsConstraints(rows[i], operations[i], p);
    } else {
      PaddingMeetsConstraints(p);
    }
  }
}
