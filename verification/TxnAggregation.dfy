/** Trees of transaction batches: the transaction aggregation circuit. */
module TxnAggregation {
  import opened Wrappers
  import opened PublicValues
  import opened SegmentAggregation

  /** What the circuits know of the kernel. */
  datatype Kernel = Kernel(main: Field, halt: Field, initialMemory: MemCap, emptyTrie: Limbs)

  /** A batch proved by its segments, or the aggregation of two runs of batches. */
  datatype TxnTree = Batch(segments: SegTree) | TxnAgg(lhs: TxnTree, rhs: TxnTree, agg: PublicValues)

  function TxnValues(t: TxnTree): PublicValues {
    match t
    case Batch(segments) => Values(segments)
    case TxnAgg(_, _, pv) => pv
  }

  /** A run of the kernel from its entry to its halt, on the initial memory. */
  predicate FullRun(k: Kernel, x: PublicValues) {
    && x.registersBefore.stackLen == 0 && x.registersAfter.stackLen == 0
    && x.registersBefore.context == 0 && x.registersAfter.context == 0
    && x.registersBefore.gasUsed == 0
    && x.registersBefore.isKernel == 1 && x.registersAfter.isKernel == 1
    && x.registersAfter.programCounter == k.halt
    && x.registersBefore.programCounter == k.main
    && x.memBefore == k.initialMemory
  }

  predicate ConnectsExtra(pv: ExtraBlockData, lhs: ExtraBlockData, rhs: ExtraBlockData) {
    && pv.checkpointStateTrieRoot == rhs.checkpointStateTrieRoot
    && pv.checkpointStateTrieRoot == lhs.checkpointStateTrieRoot
    && pv.txnNumberBefore == lhs.txnNumberBefore
    && pv.txnNumberAfter == rhs.txnNumberAfter
    && lhs.txnNumberAfter == rhs.txnNumberBefore
    && pv.gasUsedBefore == lhs.gasUsedBefore
    && pv.gasUsedAfter == rhs.gasUsedAfter
    && lhs.gasUsedAfter == rhs.gasUsedBefore
  }

  predicate TxnConstraints(k: Kernel, pv: PublicValues, lhs: PublicValues, rhs: PublicValues) {
    && pv.blockHashes == rhs.blockHashes && pv.blockHashes == lhs.blockHashes
    && pv.blockMetadata == rhs.blockMetadata && pv.blockMetadata == lhs.blockMetadata
    && pv.trieRootsAfter == rhs.trieRootsAfter
    && lhs.trieRootsAfter == rhs.trieRootsBefore
    && pv.trieRootsBefore == lhs.trieRootsBefore
    && ConnectsExtra(pv.extraBlockData, lhs.extraBlockData, rhs.extraBlockData)
    && pv.registersAfter == rhs.registersAfter
    && pv.registersBefore == lhs.registersBefore
    && FullRun(k, rhs) && FullRun(k, lhs)
  }

  /** Base proofs are proofs of the segment aggregation circuit. */
  predicate TxnOk(k: Kernel, t: TxnTree) {
    match t
    case Batch(segments) => segments.Agg? && SegOk(segments)
    case TxnAgg(lhs, rhs, pv) => TxnOk(k, lhs) && TxnOk(k, rhs) && TxnConstraints(k, pv, TxnValues(lhs), TxnValues(rhs))
  }

  function Batches(t: TxnTree): (s: seq<PublicValues>)
    ensures s != []
  {
    match t
    case Batch(segments) => [Values(segments)]
    case TxnAgg(lhs, rhs, _) => Batches(lhs) + Batches(rhs)
  }

  /** Batch b continues where batch a ends, in the same block. */
  predicate Continues(a: PublicValues, b: PublicValues) {
    && a.trieRootsAfter == b.trieRootsBefore
    && a.extraBlockData.txnNumberAfter == b.extraBlockData.txnNumberBefore
    && a.extraBlockData.gasUsedAfter == b.extraBlockData.gasUsedBefore
    && a.extraBlockData.checkpointStateTrieRoot == b.extraBlockData.checkpointStateTrieRoot
    && a.blockHashes == b.blockHashes
    && a.blockMetadata == b.blockMetadata
  }

  predicate BatchChain(s: seq<PublicValues>) {
    forall i :: 0 < i < |s| ==> Continues(s[i - 1], s[i])
  }

  /** What the root of a tree says about the first and the last batch. */
  predicate Spans(pv: PublicValues, first: PublicValues, last: PublicValues) {
    && pv.trieRootsBefore == first.trieRootsBefore
    && pv.trieRootsAfter == last.trieRootsAfter
    && pv.blockMetadata == first.blockMetadata == last.blockMetadata
    && pv.blockHashes == first.blockHashes == last.blockHashes
    && pv.extraBlockData.txnNumberBefore == first.extraBlockData.txnNumberBefore
    && pv.extraBlockData.txnNumberAfter == last.extraBlockData.txnNumberAfter
    && pv.extraBlockData.gasUsedBefore == first.extraBlockData.gasUsedBefore
    && pv.extraBlockData.gasUsedAfter == last.extraBlockData.gasUsedAfter
    && pv.extraBlockData.checkpointStateTrieRoot
       == first.extraBlockData.checkpointStateTrieRoot == last.extraBlockData.checkpointStateTrieRoot
    && pv.registersBefore == first.registersBefore
    && pv.registersAfter == last.registersAfter
  }

  /** From `main` to `halt` in kernel mode, on the initial memory, both times with an empty stack in context 0, and
      with no gas used at the start. */
  predicate RunsKernel(k: Kernel, x: PublicValues) {
    && x.registersBefore == Registers(k.main, 1, 0, x.registersBefore.stackTop, 0, 0)
    && x.registersAfter == Registers(k.halt, 1, 0, x.registersAfter.stackTop, 0, x.registersAfter.gasUsed)
    && x.memBefore == k.initialMemory
  }

  lemma JoinedBatches(l: seq<PublicValues>, r: seq<PublicValues>)
    requires BatchChain(l) && BatchChain(r) && l != [] && r != [] && Continues(l[|l| - 1], r[0])
    ensures BatchChain(l + r)
  {
    forall i | 0 < i < |l + r| ensures Continues((l + r)[i - 1], (l + r)[i]) {
      if i < |l| { assert Continues(l[i - 1], l[i]); }
      if i > |l| { assert Continues(r[i - |l| - 1], r[i - |l|]); }
    }
  }

  /** The batches of a tree are a chain in state, transaction number and gas, the root spans it, and
      in an aggregation every batch is a full run of the kernel. */
  lemma {:induction false} BatchesAreChained(k: Kernel, t: TxnTree)
    requires TxnOk(k, t)
    ensures var s := Batches(t);
      && BatchChain(s) && Spans(TxnValues(t), s[0], s[|s| - 1])
      && (t.TxnAgg? || FullRun(k, TxnValues(t)) ==> forall i :: 0 <= i < |s| ==> FullRun(k, s[i]) && RunsKernel(k, s[i]))
    decreases t
  {
    if t.TxnAgg? {
      BatchesAreChained(k, t.lhs);
      BatchesAreChained(k, t.rhs);
      JoinedBatches(Batches(t.lhs), Batches(t.rhs));
    }
  }

  // ---------------------------------------------------------------------------------------------
  // Every chain of full runs has a tree
  // ---------------------------------------------------------------------------------------------

  /** A batch as the proof of a single segment next to a dummy. */
  function LoneBatch(x: PublicValues): TxnTree {
    Batch(Agg(Segment(x), None, x))
  }

  lemma LoneBatchOk(k: Kernel, x: PublicValues)
    ensures TxnOk(k, LoneBatch(x)) && TxnValues(LoneBatch(x)) == x && Batches(LoneBatch(x)) == [x]
  {
  }

  /** Values for the batches up to the given one, from first to last. */
  function SpanOf(first: PublicValues, last: PublicValues): PublicValues {
    PublicValues(first.trieRootsBefore, last.trieRootsAfter, last.blockMetadata, last.blockHashes,
                 last.extraBlockData.(txnNumberBefore := first.extraBlockData.txnNumberBefore,
                                      gasUsedBefore := first.extraBlockData.gasUsedBefore),
                 first.registersBefore, last.registersAfter, first.memBefore, last.memAfter)
  }

  /** The tree that aggregates a chain of batches from left to right, with the given values at the root. */
  function LeftBatches(s: seq<PublicValues>, pv: PublicValues): (t: TxnTree)
    requires |s| >= 2
    ensures t.TxnAgg? && TxnValues(t) == pv
  {
    var n := |s| - 1;
    TxnAgg(if n == 1 then LoneBatch(s[0]) else LeftBatches(s[..n], SpanOf(s[0], s[n - 1])), LoneBatch(s[n]), pv)
  }

  /** The batches of a chain are of one block. */
  lemma {:induction false} SameBlock(s: seq<PublicValues>, i: nat)
    requires BatchChain(s) && i < |s|
    ensures s[i].blockMetadata == s[0].blockMetadata && s[i].blockHashes == s[0].blockHashes
    ensures s[i].extraBlockData.checkpointStateTrieRoot == s[0].extraBlockData.checkpointStateTrieRoot
    decreases i
  {
    if i > 0 {
      SameBlock(s, i - 1);
      assert Continues(s[i - 1], s[i]);
    }
  }

  /** Putting one more batch behind satisfies the circuit. */
  lemma OneMoreBatch(k: Kernel, first: PublicValues, last: PublicValues, x: PublicValues, pv: PublicValues)
    requires FullRun(k, first) && FullRun(k, last) && FullRun(k, x) && Continues(last, x) && Spans(pv, first, x)
    requires Spans(SpanOf(first, last), first, last)
    ensures TxnConstraints(k, pv, SpanOf(first, last), x)
  {
  }

  lemma {:induction false} ChainHasBatchTree(k: Kernel, s: seq<PublicValues>, pv: PublicValues)
    requires |s| >= 2 && BatchChain(s) && Spans(pv, s[0], s[|s| - 1])
    requires forall i :: 0 <= i < |s| ==> FullRun(k, s[i])
    ensures TxnOk(k, LeftBatches(s, pv)) && Batches(LeftBatches(s, pv)) == s
    decreases |s|
  {
    var n := |s| - 1;
    var init := s[..n];
    assert init + [s[n]] == s && Continues(s[n - 1], s[n]);
    LoneBatchOk(k, s[n]);
    SameBlock(s, n - 1);
    OneMoreBatch(k, s[0], s[n - 1], s[n], pv);
    if n == 1 {
      LoneBatchOk(k, s[0]);
      assert SpanOf(s[0], s[0]) == s[0];
    } else {
      forall i | 0 < i < n ensures Continues(init[i - 1], init[i]) { assert Continues(s[i - 1], s[i]); }
      ChainHasBatchTree(k, init, SpanOf(s[0], s[n - 1]));
    }
  }

  /** The lists of batches that can be aggregated, and the values at the root: exactly the chains of full runs of
      the kernel, and exactly the values that span them. */
  lemma AggregatedBatchesExactly(k: Kernel, s: seq<PublicValues>, pv: PublicValues)
    requires |s| >= 2
    ensures (exists t :: TxnOk(k, t) && Batches(t) == s && TxnValues(t) == pv)
      <==> BatchChain(s) && Spans(pv, s[0], s[|s| - 1]) && forall i :: 0 <= i < |s| ==> RunsKernel(k, s[i])
  {
    assert forall i :: 0 <= i < |s| ==> (FullRun(k, s[i]) <==> RunsKernel(k, s[i]));
    if t :| TxnOk(k, t) && Batches(t) == s && TxnValues(t) == pv {
      BatchesAreChained(k, t);
    }
    if BatchChain(s) && Spans(pv, s[0], s[|s| - 1]) && forall i :: 0 <= i < |s| ==> RunsKernel(k, s[i]) {
      ChainHasBatchTree(k, s, pv);
      assert TxnValues(LeftBatches(s, pv)) == pv;
    }
  }

  // ---------------------------------------------------------------------------------------------
  // What the prover fills in
  // ---------------------------------------------------------------------------------------------

  /** The public values that `prove_transaction_aggregation` sets. */
  function ProvedTxnValues(lhs: PublicValues, rhs: PublicValues): PublicValues {
    rhs.(trieRootsBefore := lhs.trieRootsBefore,
         extraBlockData := rhs.extraBlockData.(txnNumberBefore := lhs.extraBlockData.txnNumberBefore,
                                               gasUsedBefore := lhs.extraBlockData.gasUsedBefore))
  }

  /** They meet the circuit exactly when the right side continues the left one, both are full runs,
      and both enter the kernel with the same registers: the prover keeps the right side's. */
  lemma TxnProverSucceeds(k: Kernel, lhs: PublicValues, rhs: PublicValues)
    ensures TxnConstraints(k, ProvedTxnValues(lhs, rhs), lhs, rhs) <==>
      Continues(lhs, rhs) && FullRun(k, lhs) && FullRun(k, rhs) && lhs.registersBefore == rhs.registersBefore
  {
  }
}
