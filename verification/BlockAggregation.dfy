/** Chains of block proofs: the block circuit, and what it keeps along a chain. */
module BlockAggregation {
  import opened Wrappers
  import opened Arithmetic
  import opened PublicValues
  import opened SegmentAggregation
  import opened TxnAggregation

  /** A block on top of its parent. The first block of a chain has a dummy in the parent's place, with
      public values of its own. */
  datatype BlockProof = Block(parent: Option<BlockProof>, parentValues: PublicValues, txns: TxnTree, values: PublicValues)

  predicate HashesWellFormed(h: BlockHashes) {
    |h.prevHashes| == 256
  }

  /** The window of previous hashes moves by one. */
  predicate ConnectsHashes(parent: BlockHashes, cur: BlockHashes)
    requires HashesWellFormed(parent) && HashesWellFormed(cur)
  {
    && (forall i :: 0 <= i < 255 ==> parent.prevHashes[i + 1] == cur.prevHashes[i])
    && parent.curHash == cur.prevHashes[255]
  }

  predicate ConnectsInitialValues(k: Kernel, x: PublicValues) {
    && x.extraBlockData.txnNumberBefore == 0
    && x.extraBlockData.gasUsedBefore == 0
    && x.trieRootsBefore.transactionsRoot == k.emptyTrie
    && x.trieRootsBefore.receiptsRoot == k.emptyTrie
  }

  predicate ConnectsBlocks(k: Kernel, hasParent: bool, parent: PublicValues, x: PublicValues) {
    && parent.trieRootsAfter.stateRoot == x.trieRootsBefore.stateRoot
    && parent.extraBlockData.checkpointStateTrieRoot == x.extraBlockData.checkpointStateTrieRoot
    && parent.blockMetadata.number == FieldSub(x.blockMetadata.number, 1)
    && ConnectsInitialValues(k, x)
    && x.blockMetadata.gasUsed == x.extraBlockData.gasUsedAfter
    && (!hasParent ==> x.trieRootsBefore.stateRoot == x.extraBlockData.checkpointStateTrieRoot)
  }

  predicate BlockConstraints(k: Kernel, hasParent: bool, parent: PublicValues, x: PublicValues, pv: PublicValues) {
    && HashesWellFormed(parent.blockHashes) && HashesWellFormed(x.blockHashes)
    && ConnectsHashes(parent.blockHashes, x.blockHashes)
    && pv.trieRootsBefore == parent.trieRootsBefore
    && pv.trieRootsAfter == x.trieRootsAfter
    && pv.blockMetadata == x.blockMetadata
    && pv.blockHashes == x.blockHashes
    && pv.extraBlockData == x.extraBlockData
    && ConnectsBlocks(k, hasParent, parent, x)
  }

  predicate BlockOk(k: Kernel, b: BlockProof) {
    && (b.parent.Some? ==> BlockOk(k, b.parent.value) && b.parentValues == b.parent.value.values)
    && b.txns.TxnAgg? && TxnOk(k, b.txns)
    && BlockConstraints(k, b.parent.Some?, b.parentValues, TxnValues(b.txns), b.values)
  }

  /** The blocks of a chain, oldest first. */
  function Blocks(b: BlockProof): (s: seq<BlockProof>)
    ensures s != [] && s[|s| - 1] == b
  {
    (if b.parent.Some? then Blocks(b.parent.value) else []) + [b]
  }

  lemma {:induction false} PrefixIsChain(k: Kernel, b: BlockProof, i: nat)
    requires BlockOk(k, b) && i < |Blocks(b)|
    ensures BlockOk(k, Blocks(b)[i]) && Blocks(Blocks(b)[i]) == Blocks(b)[..i + 1]
    ensures i > 0 ==> Blocks(b)[i].parent == Some(Blocks(b)[i - 1])
    ensures i == 0 ==> Blocks(b)[i].parent == None
    decreases b
  {
    var s := Blocks(b);
    if i < |s| - 1 {
      var p := b.parent.value;
      PrefixIsChain(k, p, i);
      assert s[..i + 1] == Blocks(p)[..i + 1];
    } else {
      assert s[..i + 1] == s;
    }
  }

  /** What consecutive blocks have to do with each other. */
  predicate Succeeds(parent: PublicValues, txns: PublicValues, pv: PublicValues) {
    && pv.blockMetadata.number == (parent.blockMetadata.number + 1) % GOLDILOCKS
    && parent.trieRootsAfter.stateRoot == txns.trieRootsBefore.stateRoot
    && parent.extraBlockData.checkpointStateTrieRoot == pv.extraBlockData.checkpointStateTrieRoot
    && parent.trieRootsBefore == pv.trieRootsBefore
  }

  lemma BlockSucceeds(k: Kernel, b: BlockProof)
    requires BlockOk(k, b)
    ensures Succeeds(b.parentValues, TxnValues(b.txns), b.values)
    ensures b.values.trieRootsAfter == TxnValues(b.txns).trieRootsAfter
    ensures b.values.blockMetadata.gasUsed == b.values.extraBlockData.gasUsedAfter
  {
  }

  /** Along a chain the numbers are consecutive (in the field), the checkpoint is the same, and the
      first block starts from the checkpoint's state. */
  lemma {:induction false} ChainKeeps(k: Kernel, b: BlockProof, i: nat)
    requires BlockOk(k, b) && i < |Blocks(b)|
    ensures var s := Blocks(b);
      && s[i].values.blockMetadata.number == (s[0].values.blockMetadata.number + i) % GOLDILOCKS
      && s[i].values.extraBlockData.checkpointStateTrieRoot == s[0].values.extraBlockData.checkpointStateTrieRoot
      && s[i].values.trieRootsBefore == s[0].values.trieRootsBefore
      && TxnValues(s[0].txns).trieRootsBefore.stateRoot == s[i].values.extraBlockData.checkpointStateTrieRoot
    decreases i
  {
    var s := Blocks(b);
    PrefixIsChain(k, b, i);
    if i > 0 {
      ChainKeeps(k, b, i - 1);
      BlockSucceeds(k, s[i]);
      NextNumber(s[0].values.blockMetadata.number, i);
    }
  }

  lemma NextNumber(n: nat, i: nat)
    requires i > 0
    ensures ((n + i - 1) % GOLDILOCKS + 1) % GOLDILOCKS == (n + i) % GOLDILOCKS
  {
  }

  /** One block back: the parent's own hash, or what the parent has one place further on. */
  lemma WindowMoves(k: Kernel, b: BlockProof, d: nat)
    requires BlockOk(k, b) && 0 < d <= 256
    ensures |b.values.blockHashes.prevHashes| == 256 && |b.parentValues.blockHashes.prevHashes| == 256
    ensures b.values.blockHashes.prevHashes[256 - d] ==
      if d == 1 then b.parentValues.blockHashes.curHash else b.parentValues.blockHashes.prevHashes[257 - d]
  {
    if d > 1 {
      assert b.parentValues.blockHashes.prevHashes[256 - d + 1] == b.values.blockHashes.prevHashes[256 - d];
    }
  }

  /** The hash a chain has for the block d before its last one: that block's own hash, or beyond the
      start of the chain what its first block was given. */
  function HashBack(s: seq<BlockProof>, d: nat): Limbs
    requires s != [] && d <= 256 && HashesWellFormed(s[0].values.blockHashes)
  {
    if d < |s| then s[|s| - 1 - d].values.blockHashes.curHash
    else s[0].values.blockHashes.prevHashes[256 - (d - (|s| - 1))]
  }

  lemma {:induction false} LastWindow(k: Kernel, b: BlockProof, d: nat)
    requires BlockOk(k, b) && 0 < d <= 256
    ensures HashesWellFormed(b.values.blockHashes) && HashesWellFormed(Blocks(b)[0].values.blockHashes)
    ensures b.values.blockHashes.prevHashes[256 - d] == HashBack(Blocks(b), d)
    decreases b
  {
    WindowMoves(k, b, d);
    if b.parent.Some? {
      var p := b.parent.value;
      var s := Blocks(p);
      assert Blocks(b) == s + [b];
      if d > 1 {
        LastWindow(k, p, d - 1);
        assert HashBack(s + [b], d) == HashBack(s, d - 1);
      } else {
        LastWindow(k, p, 1);
        assert (s + [b])[|s| - 1] == p;
      }
    }
  }

  /** For every block of a chain and every d up to 256, `prev_hashes[256 - d]` is the hash of the block
      d before. */
  lemma HashWindow(k: Kernel, b: BlockProof, i: nat, d: nat)
    requires BlockOk(k, b) && i < |Blocks(b)| && 0 < d <= 256
    ensures HashesWellFormed(Blocks(b)[i].values.blockHashes) && HashesWellFormed(Blocks(b)[0].values.blockHashes)
    ensures Blocks(b)[i].values.blockHashes.prevHashes[256 - d] == HashBack(Blocks(b)[..i + 1], d)
  {
    PrefixIsChain(k, b, i);
    LastWindow(k, Blocks(b)[i], d);
  }

  // ---------------------------------------------------------------------------------------------
  // The state through all transactions of a chain
  // ---------------------------------------------------------------------------------------------

  predicate StateLinked(s: seq<PublicValues>) {
    forall i :: 0 < i < |s| ==> StateStep(s[i - 1], s[i])
  }

  predicate StateStep(a: PublicValues, b: PublicValues) {
    a.trieRootsAfter.stateRoot == b.trieRootsBefore.stateRoot
  }

  /** All batches of all blocks, oldest first. */
  function AllBatches(b: BlockProof): (s: seq<PublicValues>)
    ensures s != []
  {
    (if b.parent.Some? then AllBatches(b.parent.value) else []) + Batches(b.txns)
  }

  predicate AllFullRuns(k: Kernel, s: seq<PublicValues>) {
    forall i :: 0 <= i < |s| ==> RunsKernel(k, s[i])
  }

  lemma JoinedStates(k: Kernel, p: seq<PublicValues>, t: seq<PublicValues>)
    requires p != [] && t != [] && StateLinked(p) && StateLinked(t) && StateStep(p[|p| - 1], t[0])
    requires AllFullRuns(k, p) && AllFullRuns(k, t)
    ensures StateLinked(p + t) && AllFullRuns(k, p + t)
  {
    var s := p + t;
    forall i | 0 < i < |s| ensures StateStep(s[i - 1], s[i]) {
      if i < |p| { assert StateStep(p[i - 1], p[i]); }
      if i > |p| { assert StateStep(t[i - |p| - 1], t[i - |p|]); }
    }
  }

  lemma BlockStates(k: Kernel, t: TxnTree)
    requires TxnOk(k, t) && t.TxnAgg?
    ensures var s := Batches(t);
      && StateLinked(s) && AllFullRuns(k, s)
      && s[0].trieRootsBefore == TxnValues(t).trieRootsBefore && s[|s| - 1].trieRootsAfter == TxnValues(t).trieRootsAfter
  {
    var s := Batches(t);
    BatchesAreChained(k, t);
    forall i | 0 < i < |s| ensures StateStep(s[i - 1], s[i]) { assert Continues(s[i - 1], s[i]); }
  }

  /** The batches of all blocks of a chain are one chain of states from the checkpoint's state root to
      the state root of the last block, and each of them is a full run of the kernel. */
  lemma {:induction false} StateChain(k: Kernel, b: BlockProof)
    requires BlockOk(k, b)
    ensures var s := AllBatches(b);
      && StateLinked(s) && AllFullRuns(k, s)
      && s[0].trieRootsBefore.stateRoot == b.values.extraBlockData.checkpointStateTrieRoot
      && s[|s| - 1].trieRootsAfter == b.values.trieRootsAfter
    decreases b
  {
    var t := Batches(b.txns);
    BlockStates(k, b.txns);
    BlockSucceeds(k, b);
    if b.parent.Some? {
      var p := AllBatches(b.parent.value);
      StateChain(k, b.parent.value);
      assert StateStep(p[|p| - 1], t[0]);
      JoinedStates(k, p, t);
    } else {
      assert [] + t == t;
    }
  }

  /** Within a block the transaction and receipt tries start empty, transactions are counted from 0 and the gas of
      the batches adds up from 0 to the gas used of the block's header. */
  lemma BlockAccounts(k: Kernel, b: BlockProof)
    requires BlockOk(k, b)
    ensures var s := Batches(b.txns);
      && BatchChain(s)
      && s[0].extraBlockData.txnNumberBefore == 0 && s[0].extraBlockData.gasUsedBefore == 0
      && s[|s| - 1].extraBlockData.gasUsedAfter == b.values.blockMetadata.gasUsed
      && s[|s| - 1].extraBlockData.txnNumberAfter == b.values.extraBlockData.txnNumberAfter
      && s[0].trieRootsBefore.transactionsRoot == k.emptyTrie && s[0].trieRootsBefore.receiptsRoot == k.emptyTrie
  {
    BatchesAreChained(k, b.txns);
  }

  // ---------------------------------------------------------------------------------------------
  // Every chain has a proof
  // ---------------------------------------------------------------------------------------------

  /** A block of a chain: its transactions and the public values of its proof. */
  datatype BlockEntry = BlockEntry(txns: TxnTree, values: PublicValues)

  function Entries(b: BlockProof): (s: seq<BlockEntry>)
    ensures s != []
  {
    (if b.parent.Some? then Entries(b.parent.value) else []) + [BlockEntry(b.txns, b.values)]
  }

  /** A block by itself: the tries start empty, the counters at 0, the gas ends at the header's, and the public
      values are those of the transactions. */
  predicate EntryOk(k: Kernel, e: BlockEntry) {
    var x := TxnValues(e.txns);
    && e.txns.TxnAgg? && TxnOk(k, e.txns)
    && x.trieRootsBefore.transactionsRoot == k.emptyTrie && x.trieRootsBefore.receiptsRoot == k.emptyTrie
    && x.extraBlockData.txnNumberBefore == 0 && x.extraBlockData.gasUsedBefore == 0
    && x.extraBlockData.gasUsedAfter == x.blockMetadata.gasUsed
    && |x.blockHashes.prevHashes| == 256
    && e.values.trieRootsAfter == x.trieRootsAfter && e.values.blockMetadata == x.blockMetadata
    && e.values.blockHashes == x.blockHashes && e.values.extraBlockData == x.extraBlockData
  }

  /** Block e may come after block d. */
  predicate EntryLinks(d: BlockEntry, e: BlockEntry) {
    && e.values.blockMetadata.number == (d.values.blockMetadata.number + 1) % GOLDILOCKS
    && TxnValues(e.txns).trieRootsBefore.stateRoot == d.values.trieRootsAfter.stateRoot
    && e.values.extraBlockData.checkpointStateTrieRoot == d.values.extraBlockData.checkpointStateTrieRoot
    && |d.values.blockHashes.prevHashes| == 256
    && e.values.blockHashes.prevHashes == d.values.blockHashes.prevHashes[1..] + [d.values.blockHashes.curHash]
    && e.values.trieRootsBefore == d.values.trieRootsBefore
  }

  /** The first block starts at the checkpoint; what its proof says of the roots before is free. */
  predicate StartsAtCheckpoint(e: BlockEntry) {
    TxnValues(e.txns).trieRootsBefore.stateRoot == e.values.extraBlockData.checkpointStateTrieRoot
  }

  predicate EntryChain(k: Kernel, s: seq<BlockEntry>) {
    && s != [] && StartsAtCheckpoint(s[0])
    && (forall i :: 0 <= i < |s| ==> EntryOk(k, s[i]))
    && (forall i :: 0 < i < |s| ==> EntryLinks(s[i - 1], s[i]))
  }

  lemma PreviousNumber(parent: Field, n: Field)
    ensures parent == FieldSub(n, 1) <==> n == (parent + 1) % GOLDILOCKS
  {
  }

  lemma WindowAsShift(parent: BlockHashes, cur: BlockHashes)
    requires HashesWellFormed(parent) && HashesWellFormed(cur)
    ensures ConnectsHashes(parent, cur) <==> cur.prevHashes == parent.prevHashes[1..] + [parent.curHash]
  {
    var shifted := parent.prevHashes[1..] + [parent.curHash];
    assert forall i :: 0 <= i < 255 ==> shifted[i] == parent.prevHashes[i + 1];
    assert shifted[255] == parent.curHash;
  }

  /** The circuit of a block with a parent, in terms of the two blocks. */
  lemma LinkedBlock(k: Kernel, parent: PublicValues, d: BlockEntry, e: BlockEntry)
    requires parent == d.values && |d.values.blockHashes.prevHashes| == 256 && e.txns.TxnAgg? && TxnOk(k, e.txns)
    ensures BlockConstraints(k, true, parent, TxnValues(e.txns), e.values) <==> EntryOk(k, e) && EntryLinks(d, e)
  {
    var x := TxnValues(e.txns);
    PreviousNumber(parent.blockMetadata.number, x.blockMetadata.number);
    if HashesWellFormed(x.blockHashes) { WindowAsShift(parent.blockHashes, x.blockHashes); }
  }

  /** Public values for the place of a parent, such that a first block can stand on them. */
  function ParentFor(x: PublicValues, roots: TrieRoots): PublicValues
    requires |x.blockHashes.prevHashes| == 256
  {
    x.(trieRootsBefore := roots,
       trieRootsAfter := x.trieRootsBefore,
       blockMetadata := x.blockMetadata.(number := FieldSub(x.blockMetadata.number, 1)),
       blockHashes := BlockHashes([[]] + x.blockHashes.prevHashes[..255], x.blockHashes.prevHashes[255]))
  }

  /** The circuit of a first block can be met exactly when the block is right by itself and starts at the
      checkpoint. */
  lemma FirstBlock(k: Kernel, parent: PublicValues, e: BlockEntry)
    requires e.txns.TxnAgg? && TxnOk(k, e.txns)
    ensures BlockConstraints(k, false, parent, TxnValues(e.txns), e.values) ==> EntryOk(k, e) && StartsAtCheckpoint(e)
    ensures EntryOk(k, e) && StartsAtCheckpoint(e) ==>
      BlockConstraints(k, false, ParentFor(TxnValues(e.txns), e.values.trieRootsBefore), TxnValues(e.txns), e.values)
  {
    var x := TxnValues(e.txns);
    if EntryOk(k, e) && StartsAtCheckpoint(e) {
      var p := ParentFor(x, e.values.trieRootsBefore);
      assert p.blockHashes.prevHashes[1..] + [p.blockHashes.curHash] == x.blockHashes.prevHashes;
      WindowAsShift(p.blockHashes, x.blockHashes);
    }
  }

  lemma OneMoreEntry(k: Kernel, s: seq<BlockEntry>, e: BlockEntry)
    requires s != []
    ensures EntryChain(k, s + [e]) <==> EntryChain(k, s) && EntryOk(k, e) && EntryLinks(s[|s| - 1], e)
  {
    var all := s + [e];
    assert all[|s|] == e && all[|s| - 1] == s[|s| - 1] && forall i :: 0 <= i < |s| ==> all[i] == s[i];
    if EntryChain(k, all) {
      assert EntryOk(k, all[|s|]) && EntryLinks(all[|s| - 1], all[|s|]);
      forall i | 0 < i < |s| ensures EntryLinks(s[i - 1], s[i]) { assert EntryLinks(all[i - 1], all[i]); }
      forall i | 0 <= i < |s| ensures EntryOk(k, s[i]) { assert EntryOk(k, all[i]); }
    }
  }

  lemma {:induction false} ProofIsChain(k: Kernel, b: BlockProof)
    requires BlockOk(k, b)
    ensures EntryChain(k, Entries(b))
    decreases b
  {
    var e := BlockEntry(b.txns, b.values);
    if b.parent.Some? {
      var s := Entries(b.parent.value);
      ProofIsChain(k, b.parent.value);
      LastEntry(b.parent.value);
      assert EntryOk(k, s[|s| - 1]);
      LinkedBlock(k, b.parentValues, s[|s| - 1], e);
      OneMoreEntry(k, s, e);
    } else {
      assert Entries(b) == [e];
      FirstBlock(k, b.parentValues, e);
    }
  }

  lemma LastEntry(b: BlockProof)
    ensures Entries(b)[|Entries(b)| - 1] == BlockEntry(b.txns, b.values)
  {
  }

  /** The proof of a chain, block by block. */
  function ProofOf(s: seq<BlockEntry>): (b: BlockProof)
    requires s != [] && |TxnValues(s[0].txns).blockHashes.prevHashes| == 256
    ensures b.values == s[|s| - 1].values
  {
    var n := |s| - 1;
    if n == 0 then Block(None, ParentFor(TxnValues(s[0].txns), s[0].values.trieRootsBefore), s[0].txns, s[0].values)
    else
      var p := ProofOf(s[..n]);
      Block(Some(p), p.values, s[n].txns, s[n].values)
  }

  lemma {:induction false} ChainHasProof(k: Kernel, s: seq<BlockEntry>)
    requires EntryChain(k, s)
    ensures |TxnValues(s[0].txns).blockHashes.prevHashes| == 256
    ensures BlockOk(k, ProofOf(s)) && Entries(ProofOf(s)) == s
    decreases |s|
  {
    assert EntryOk(k, s[0]);
    var n := |s| - 1;
    if n == 0 {
      FirstBlock(k, ParentFor(TxnValues(s[0].txns), s[0].values.trieRootsBefore), s[0]);
    } else {
      assert s[..n] + [s[n]] == s;
      OneMoreEntry(k, s[..n], s[n]);
      ChainHasProof(k, s[..n]);
      LinkedBlock(k, s[n - 1].values, s[n - 1], s[n]);
    }
  }

  /** The blocks of a proof are exactly a chain: numbers, hash windows, checkpoints and states link, each block is
      right by itself, and the first one starts at the checkpoint. */
  lemma ProvedExactly(k: Kernel, s: seq<BlockEntry>)
    requires s != []
    ensures (exists b :: BlockOk(k, b) && Entries(b) == s)
      <==> && StartsAtCheckpoint(s[0])
           && (forall i :: 0 <= i < |s| ==> EntryOk(k, s[i]))
           && (forall i :: 0 < i < |s| ==> EntryLinks(s[i - 1], s[i]))
  {
    if b :| BlockOk(k, b) && Entries(b) == s { ProofIsChain(k, b); }
    if EntryChain(k, s) { ChainHasProof(k, s); }
  }

  // ---------------------------------------------------------------------------------------------
  // What the prover fills in for the first block
  // ---------------------------------------------------------------------------------------------

  /** The public inputs of the dummy parent: everything that is not set is zero. */
  function DummyParent(x: PublicValues, zero: PublicValues): PublicValues
    requires HashesWellFormed(x.blockHashes) && HashesWellFormed(zero.blockHashes) && x.blockMetadata.number > 0
  {
    zero.(trieRootsBefore := x.trieRootsBefore,
          trieRootsAfter := zero.trieRootsAfter.(stateRoot := x.trieRootsBefore.stateRoot),
          extraBlockData := zero.extraBlockData.(checkpointStateTrieRoot := x.extraBlockData.checkpointStateTrieRoot),
          blockHashes := BlockHashes([zero.blockHashes.prevHashes[0]] + x.blockHashes.prevHashes[..255],
                                     x.blockHashes.prevHashes[255]),
          blockMetadata := zero.blockMetadata.(number := x.blockMetadata.number - 1))
  }

  /** With the prover's dummy parent the first block's circuit is met exactly when the block starts
      from the checkpoint with empty transaction and receipt tries, and its gas adds up. */
  lemma FirstBlockSucceeds(k: Kernel, x: PublicValues, zero: PublicValues)
    requires HashesWellFormed(x.blockHashes) && HashesWellFormed(zero.blockHashes) && x.blockMetadata.number > 0
    ensures BlockConstraints(k, false, DummyParent(x, zero), x, x) <==>
      && ConnectsInitialValues(k, x)
      && x.blockMetadata.gasUsed == x.extraBlockData.gasUsedAfter
      && x.trieRootsBefore.stateRoot == x.extraBlockData.checkpointStateTrieRoot
  {
    var d := DummyParent(x, zero);
    assert ConnectsHashes(d.blockHashes, x.blockHashes);
  }
}
