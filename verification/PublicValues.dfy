/** Public values of proofs, and what the circuits' comparisons of them say. */
module PublicValues {
  import opened Wrappers
  import opened Arithmetic

  /** A circuit target's value. */
  type Field = x: nat | x < GOLDILOCKS

  function FieldSub(a: Field, b: Field): Field {
    (GOLDILOCKS + a - b) % GOLDILOCKS
  }

  /** A 256-bit hash, as its eight limbs. */
  type Limbs = seq<Field>

  datatype TrieRoots = TrieRoots(stateRoot: Limbs, transactionsRoot: Limbs, receiptsRoot: Limbs)

  datatype BlockMetadata = BlockMetadata(
    beneficiary: Limbs, timestamp: Field, number: Field, difficulty: Field, random: Limbs, gaslimit: Field,
    chainId: Field, baseFee: Limbs, gasUsed: Field, blobGasUsed: Limbs, excessBlobGas: Limbs,
    parentBeaconBlockRoot: Limbs, bloom: Limbs)

  /** The hashes of the 256 blocks before, oldest first, and of the current block. */
  datatype BlockHashes = BlockHashes(prevHashes: seq<Limbs>, curHash: Limbs)

  datatype ExtraBlockData = ExtraBlockData(
    checkpointStateTrieRoot: Limbs, txnNumberBefore: Field, txnNumberAfter: Field, gasUsedBefore: Field, gasUsedAfter: Field)

  datatype Registers = Registers(
    programCounter: Field, isKernel: Field, stackLen: Field, stackTop: Limbs, context: Field, gasUsed: Field)

  type MemCap = seq<Limbs>

  datatype PublicValues = PublicValues(
    trieRootsBefore: TrieRoots, trieRootsAfter: TrieRoots, blockMetadata: BlockMetadata, blockHashes: BlockHashes,
    extraBlockData: ExtraBlockData, registersBefore: Registers, registersAfter: Registers,
    memBefore: MemCap, memAfter: MemCap)

  /** The metadata fields that the conditional comparison looks at: three of them are missing. */
  predicate SameCheckedMetadata(a: BlockMetadata, b: BlockMetadata) {
    a == b.(blobGasUsed := a.blobGasUsed, excessBlobGas := a.excessBlobGas, parentBeaconBlockRoot := a.parentBeaconBlockRoot)
  }
}
