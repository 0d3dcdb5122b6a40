/** Trees of segment proofs: the constraints of the segment aggregation circuit, and what they keep. */
module SegmentAggregation {
  import opened Wrappers
  import opened PublicValues

  /** A segment's proof, or the aggregation of two proofs; the right one may be a dummy. */
  datatype SegTree = Segment(segment: PublicValues) | Agg(lhs: SegTree, rhs: Option<SegTree>, agg: PublicValues)

  function Values(t: SegTree): PublicValues {
    match t
    case Segment(pv) => pv
    case Agg(_, _, pv) => pv
  }

  /** Always connected: what the aggregation takes from its left child. */
  predicate ConnectsLeft(pv: PublicValues, lhs: PublicValues) {
    && pv.trieRootsBefore == lhs.trieRootsBefore
    && pv.trieRootsAfter == lhs.trieRootsAfter
    && pv.blockMetadata == lhs.blockMetadata
    && pv.blockHashes == lhs.blockHashes
    && pv.extraBlockData == lhs.extraBlockData
    && pv.registersBefore == lhs.registersBefore
    && pv.memBefore == lhs.memBefore
  }

  /** Asserted when the right child is a real proof. */
  predicate ConnectsRight(pv: PublicValues, lhs: PublicValues, rhs: PublicValues) {
    && pv.trieRootsBefore == rhs.trieRootsBefore
    && pv.trieRootsAfter == rhs.trieRootsAfter
    && SameCheckedMetadata(pv.blockMetadata, rhs.blockMetadata)
    && pv.blockHashes == rhs.blockHashes
    && pv.extraBlockData == rhs.extraBlockData
    && pv.registersAfter == rhs.registersAfter
    && lhs.registersAfter == rhs.registersBefore
    && pv.memAfter == rhs.memAfter
    && lhs.memAfter == rhs.memBefore
  }

  /** The constraints on one aggregation. `lhsIsAgg` is the flag of the left child. */
  predicate AggConstraints(pv: PublicValues, lhsIsAgg: bool, lhs: PublicValues, rhs: Option<PublicValues>) {
    && ConnectsLeft(pv, lhs)
    && (rhs.Some? ==> ConnectsRight(pv, lhs, rhs.value))
    && (rhs.None? ==> !lhsIsAgg && pv.memAfter == lhs.memAfter && pv.registersAfter == lhs.registersAfter)
  }

  /** Every proof of the tree satisfies its circuit. */
  predicate SegOk(t: SegTree) {
    match t
    case Segment(_) => true
    case Agg(lhs, rhs, pv) =>
      && SegOk(lhs)
      && (rhs.Some? ==> SegOk(rhs.value))
      && AggConstraints(pv, lhs.Agg?, Values(lhs), if rhs.Some? then Some(Values(rhs.value)) else None)
  }

  /** The segments in order, without dummies. */
  function Segments(t: SegTree): (s: seq<PublicValues>)
    ensures s != []
  {
    match t
    case Segment(pv) => [pv]
    case Agg(lhs, rhs, _) => Segments(lhs) + if rhs.Some? then Segments(rhs.value) else []
  }

  /** The data that is common to all segments of a transaction. */
  predicate SameTransaction(a: PublicValues, b: PublicValues) {
    && a.trieRootsBefore == b.trieRootsBefore
    && a.trieRootsAfter == b.trieRootsAfter
    && a.blockMetadata.beneficiary == b.blockMetadata.beneficiary
    && a.blockMetadata.timestamp == b.blockMetadata.timestamp
    && a.blockMetadata.number == b.blockMetadata.number
    && a.blockMetadata.difficulty == b.blockMetadata.difficulty
    && a.blockMetadata.random == b.blockMetadata.random
    && a.blockMetadata.gaslimit == b.blockMetadata.gaslimit
    && a.blockMetadata.chainId == b.blockMetadata.chainId
    && a.blockMetadata.baseFee == b.blockMetadata.baseFee
    && a.blockMetadata.gasUsed == b.blockMetadata.gasUsed
    && a.blockMetadata.bloom == b.blockMetadata.bloom
    && a.blockHashes == b.blockHashes
    && a.extraBlockData == b.extraBlockData
  }

  /** b may follow a: same data for the transaction, and it starts where a ends. */
  predicate Follows(a: PublicValues, b: PublicValues) {
    && SameTransaction(a, b)
    && a.registersAfter == b.registersBefore
    && a.memAfter == b.memBefore
  }

  predicate Chained(s: seq<PublicValues>) {
    forall i :: 0 < i < |s| ==> Follows(s[i - 1], s[i])
  }

  /** What a chain of segments amounts to: the first one's data, up to where the last one ends. */
  function Combined(s: seq<PublicValues>): PublicValues
    requires s != []
  {
    s[0].(registersAfter := s[|s| - 1].registersAfter, memAfter := s[|s| - 1].memAfter)
  }

  lemma {:induction false} SameData(s: seq<PublicValues>, i: nat)
    requires Chained(s) && i < |s|
    ensures SameTransaction(s[0], s[i])
    decreases i
  {
    if i > 0 {
      SameData(s, i - 1);
      assert Follows(s[i - 1], s[i]);
    }
  }

  /** The right chain follows the left one when an aggregation of the two satisfies the circuit. */
  lemma JoinFollows(pv: PublicValues, l: seq<PublicValues>, r: seq<PublicValues>)
    requires l != [] && r != [] && ConnectsLeft(pv, Combined(l)) && ConnectsRight(pv, Combined(l), Combined(r))
    requires SameTransaction(l[0], l[|l| - 1])
    ensures Follows(l[|l| - 1], r[0])
  {
  }

  lemma JoinedCombined(pv: PublicValues, l: seq<PublicValues>, r: seq<PublicValues>)
    requires l != [] && r != [] && ConnectsLeft(pv, Combined(l)) && ConnectsRight(pv, Combined(l), Combined(r))
    ensures pv == Combined(l + r)
  {
    assert (l + r)[0] == l[0] && (l + r)[|l + r| - 1] == r[|r| - 1];
  }

  /** A tree that satisfies the circuits is a chain of segments, and its root carries the first
      segment's start and the last one's end. */
  lemma {:induction false} TreeIsChain(t: SegTree)
    requires SegOk(t)
    ensures Chained(Segments(t)) && Values(t) == Combined(Segments(t))
    decreases t
  {
    if t.Agg? {
      var l := Segments(t.lhs);
      TreeIsChain(t.lhs);
      if t.rhs.Some? {
        var r := Segments(t.rhs.value);
        TreeIsChain(t.rhs.value);
        SameData(l, |l| - 1);
        JoinFollows(Values(t), l, r);
        Joined(l, r);
        JoinedCombined(Values(t), l, r);
      } else {
        assert l + [] == l;
      }
    }
  }

  /** Any two segments of a satisfying tree agree on the roots, the hashes, the counters and all compared
      metadata. */
  lemma SegmentsAgree(t: SegTree, i: nat, j: nat)
    requires SegOk(t) && i < |Segments(t)| && j < |Segments(t)|
    ensures var a, b := Segments(t)[i], Segments(t)[j];
      && a.trieRootsBefore == b.trieRootsBefore && a.trieRootsAfter == b.trieRootsAfter
      && a.blockHashes == b.blockHashes && a.extraBlockData == b.extraBlockData
      && a.blockMetadata.(blobGasUsed := [], excessBlobGas := [], parentBeaconBlockRoot := [])
         == b.blockMetadata.(blobGasUsed := [], excessBlobGas := [], parentBeaconBlockRoot := [])
  {
    TreeIsChain(t);
    SameData(Segments(t), i);
    SameData(Segments(t), j);
  }

  lemma Joined(l: seq<PublicValues>, r: seq<PublicValues>)
    requires Chained(l) && Chained(r) && l != [] && r != [] && Follows(l[|l| - 1], r[0])
    ensures Chained(l + r)
  {
    forall i | 0 < i < |l + r| ensures Follows((l + r)[i - 1], (l + r)[i]) {
      if i < |l| { assert Follows(l[i - 1], l[i]); }
      if i > |l| { assert Follows(r[i - |l| - 1], r[i - |l|]); }
    }
  }

  // ---------------------------------------------------------------------------------------------
  // Every chain has a tree
  // ---------------------------------------------------------------------------------------------

  /** The tree that aggregates a chain from left to right, with a dummy next to a lone segment. */
  function LeftTree(s: seq<PublicValues>): SegTree
    requires s != []
  {
    if |s| == 1 then Agg(Segment(s[0]), None, Combined(s))
    else if |s| == 2 then Agg(Segment(s[0]), Some(Segment(s[1])), Combined(s))
    else Agg(LeftTree(s[..|s| - 1]), Some(Segment(s[|s| - 1])), Combined(s))
  }

  lemma {:induction false} ChainHasTree(s: seq<PublicValues>)
    requires Chained(s) && s != []
    ensures SegOk(LeftTree(s)) && Segments(LeftTree(s)) == s && LeftTree(s).Agg?
    decreases |s|
  {
    var n := |s| - 1;
    if |s| == 2 { assert Follows(s[0], s[1]); }
    if |s| > 2 {
      var init := s[..n];
      forall i | 0 < i < n ensures Follows(init[i - 1], init[i]) { assert Follows(s[i - 1], s[i]); }
      ChainHasTree(init);
      SameData(s, n);
      assert Follows(s[n - 1], s[n]);
    }
  }

  /** The lists of segments that can be aggregated are exactly the chains. */
  lemma AggregatedExactly(s: seq<PublicValues>, pv: PublicValues)
    requires s != []
    ensures (exists t :: SegOk(t) && t.Agg? && Segments(t) == s && Values(t) == pv) <==> Chained(s) && pv == Combined(s)
  {
    if t :| SegOk(t) && t.Agg? && Segments(t) == s && Values(t) == pv {
      TreeIsChain(t);
    }
    if Chained(s) && pv == Combined(s) {
      ChainHasTree(s);
      assert Values(LeftTree(s)) == pv;
    }
  }

  // ---------------------------------------------------------------------------------------------
  // What the prover fills in
  // ---------------------------------------------------------------------------------------------

  /** The public values that `prove_segment_aggregation` sets. */
  function ProvedValues(lhs: PublicValues, rhs: Option<PublicValues>): PublicValues {
    var actual := if rhs.Some? then rhs.value else lhs;
    PublicValues(lhs.trieRootsBefore, actual.trieRootsAfter, actual.blockMetadata, actual.blockHashes,
                 ExtraBlockData(lhs.extraBlockData.checkpointStateTrieRoot, lhs.extraBlockData.txnNumberBefore,
                                actual.extraBlockData.txnNumberAfter, lhs.extraBlockData.gasUsedBefore,
                                actual.extraBlockData.gasUsedAfter),
                 lhs.registersBefore, actual.registersAfter, lhs.memBefore, actual.memAfter)
  }

  /** The prover's values meet the circuit exactly when the segments follow each other and agree on
      all their metadata, also on the three fields that the circuit does not compare. */
  lemma ProverSucceeds(lhsIsAgg: bool, lhs: PublicValues, rhs: Option<PublicValues>)
    ensures AggConstraints(ProvedValues(lhs, rhs), lhsIsAgg, lhs, rhs) <==>
      if rhs.Some? then Follows(lhs, rhs.value) && lhs.blockMetadata == rhs.value.blockMetadata else !lhsIsAgg
  {
  }

  /** The values with other data in the three metadata fields that are not compared. */
  function Restamped(pv: PublicValues, blobGas: Limbs, excess: Limbs, beaconRoot: Limbs): PublicValues {
    pv.(blockMetadata := pv.blockMetadata.(blobGasUsed := blobGas, excessBlobGas := excess, parentBeaconBlockRoot := beaconRoot))
  }

  ghost predicate Aggregable(s: seq<PublicValues>) {
    exists t :: SegOk(t) && Segments(t) == s
  }

  /** The comment that all the metadata must be the same does not hold: two segments can be aggregated
      exactly when the second follows the first, and with any other blob gas, excess blob gas and
      beacon root in the second they still can. */
  lemma BlobGasMayDiffer(a: PublicValues, b: PublicValues, blobGas: Limbs, excess: Limbs, beaconRoot: Limbs)
    ensures Aggregable([a, b]) <==> Follows(a, b)
    ensures Aggregable([a, Restamped(b, blobGas, excess, beaconRoot)]) <==> Aggregable([a, b])
  {
    PairAggregable(a, b);
    PairAggregable(a, Restamped(b, blobGas, excess, beaconRoot));
  }

  lemma PairAggregable(a: PublicValues, b: PublicValues)
    ensures Aggregable([a, b]) <==> Follows(a, b)
  {
    var s := [a, b];
    assert Chained(s) <==> Follows(a, b) by {
      assert s[0] == a && s[1] == b;
    }
    if Aggregable(s) {
      var t :| SegOk(t) && Segments(t) == s;
      TreeIsChain(t);
    }
    if Follows(a, b) { ChainHasTree(s); }
  }
}
