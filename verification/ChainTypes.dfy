/** The records that the Papyrus storage keeps, and the tables it keeps them in. */
module ChainTypes {
  import opened Wrappers
  import opened VersionedTables

  type BlockHash = nat
  type ClassHash = nat
  type StarknetVersion = nat
  type Signature = nat
  type Felt = nat
  type Address = nat
  type StorageKey = (Address, nat)
  type Nonce = nat

  datatype GasPricePerToken = GasPricePerToken(priceInFri: nat, priceInWei: nat)

  datatype L1DataAvailabilityMode = Calldata | Blob

  /** A block header as callers see it (`BlockHeader` with its `BlockHeaderWithoutHash`). */
  datatype BlockHeader = BlockHeader(
    blockHash: BlockHash,
    parentHash: BlockHash,
    blockNumber: nat,
    l1GasPrice: GasPricePerToken,
    l1DataGasPrice: GasPricePerToken,
    l2GasPrice: GasPricePerToken,
    stateRoot: Felt,
    sequencer: Felt,
    timestamp: nat,
    l1DaMode: L1DataAvailabilityMode,
    starknetVersion: StarknetVersion,
    stateDiffCommitment: Option<Felt>,
    transactionCommitment: Option<Felt>,
    eventCommitment: Option<Felt>,
    receiptCommitment: Option<Felt>,
    stateDiffLength: Option<nat>,
    nTransactions: nat,
    nEvents: nat)

  /** A row of the headers table: the header without its Starknet version. */
  datatype StorageBlockHeader = StorageBlockHeader(
    blockHash: BlockHash,
    parentHash: BlockHash,
    blockNumber: nat,
    l1GasPrice: GasPricePerToken,
    l1DataGasPrice: GasPricePerToken,
    l2GasPrice: GasPricePerToken,
    stateRoot: Felt,
    sequencer: Felt,
    timestamp: nat,
    l1DaMode: L1DataAvailabilityMode,
    stateDiffCommitment: Option<Felt>,
    transactionCommitment: Option<Felt>,
    eventCommitment: Option<Felt>,
    receiptCommitment: Option<Felt>,
    stateDiffLength: Option<nat>,
    nTransactions: nat,
    nEvents: nat)

  /** The parts of a thin state diff that concern contracts. */
  datatype ContractDiff = ContractDiff(
    deployed: map<Address, ClassHash>,
    storage: map<StorageKey, Felt>,
    nonces: map<Address, Nonce>,
    replaced: map<Address, ClassHash>)
  {
    function ClassChange(): map<Address, ClassHash> {
      deployed + replaced
    }

    /** No contract is deployed and replaced at once. */
    predicate Exclusive() {
      deployed.Keys !! replaced.Keys
    }

    /** Nonce 0 for a deployed contract whose nonce the diff does not give. */
    function DefaultNonces(): map<Address, Nonce> {
      map a | a in deployed && a !in nonces :: 0
    }

    function NonceChange(): map<Address, Nonce> {
      DefaultNonces() + nonces
    }
  }

  /**
   A thin state diff: the Cairo 1 classes it declares in stored order, the Cairo 0 classes it
   declares, and what it does to contracts.
   */
  datatype ThinStateDiff = ThinStateDiff(
    declaredClasses: seq<ClassHash>,
    deprecatedDeclaredClasses: seq<ClassHash>,
    contracts: ContractDiff)

  type SierraClass = nat
  type DeprecatedClass = nat
  type Casm = nat

  /** A row of the Cairo 0 class table: the class and the block that first brought it. */
  datatype IndexedDeprecatedClass = IndexedDeprecatedClass(blockNumber: nat, class_: DeprecatedClass)

  /** The header tables: headers, hash to number, run-length compressed versions, signatures. */
  datatype HeaderTables = HeaderTables(
    headers: map<nat, StorageBlockHeader>,
    hashToNumber: map<BlockHash, nat>,
    starknetVersion: map<nat, StarknetVersion>,
    signatures: map<nat, Signature>)

  /** The state and class tables. File locations are replaced by what they point at. */
  datatype StateTables = StateTables(
    stateDiffs: map<nat, ThinStateDiff>,
    declaredClassesBlock: map<ClassHash, nat>,
    declaredClasses: map<ClassHash, SierraClass>,
    deprecatedClasses: map<ClassHash, IndexedDeprecatedClass>,
    casms: map<ClassHash, Casm>)

  /** The tables of contract classes, nonces and storage values. */
  datatype ContractTables = ContractTables(
    deployedContracts: Versioned<Address, ClassHash>,
    nonces: Versioned<Address, Nonce>,
    storage: Versioned<StorageKey, Felt>)

  /** The marker table. A missing row reads as block 0. */
  datatype Markers = Markers(
    header: nat,
    body: nat,
    event: nat,
    state: nat,
    class_: nat,
    compiledClass: nat,
    baseLayerBlock: nat)

  datatype Tables = Tables(header: HeaderTables, state: StateTables, contracts: ContractTables, markers: Markers)

  const EMPTY_HEADER_TABLES := HeaderTables(map[], map[], map[], map[])
  const EMPTY_STATE_TABLES := StateTables(map[], map[], map[], map[], map[])
  const EMPTY_CONTRACT_TABLES := ContractTables(map[], map[], map[])
  const EMPTY_TABLES :=
    Tables(EMPTY_HEADER_TABLES, EMPTY_STATE_TABLES, EMPTY_CONTRACT_TABLES, Markers(0, 0, 0, 0, 0, 0, 0))

  datatype StorageError =
    | MarkerMismatch(expected: nat, found: nat)
    | KeyAlreadyExists
    | AppendRefused
    | BlockSignatureForNonExistingBlock(blockNumber: nat)
    | DbInconsistency
    | OtherTableRefused

  type StorageResult = Outcome<StorageError>
}
