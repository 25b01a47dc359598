/**
 The state synchronisation protocol over plain lists: what each event stores, what a restart
 reverts, and what holds in every state that any run can reach.
 */
module SyncSpec {
  import opened Wrappers
  import opened ChainTypes
  import opened HeaderSpec
  import C = StateHistory
  import S = StateSpec

  /**
   What the storage of a syncing node holds: the blocks with their headers, the state of the first
   of them, the CASMs of a prefix of the declared classes, and the base layer marker.
   */
  datatype SyncState = SyncState(chain: Chain, blocks: S.Blocks, casms: seq<Casm>, baseLayer: nat)

  const EMPTY_STATE := SyncState([], [], [], 0)

  /** The database tables stand for `s`. */
  ghost predicate Represents(db: Tables, s: SyncState) {
    && EncodesHeaders(db.header, db.markers.header, s.chain)
    && S.EncodesState(db.state, db.markers, s.blocks, s.casms)
    && S.EncodesContracts(db.contracts, s.blocks)
    && (forall b :: b in s.blocks ==> b.Fits())
    && db.markers.body == |s.chain|
    && db.markers.event == |s.chain|
    && db.markers.baseLayerBlock == s.baseLayer
  }

  datatype SyncError =
    | StorageFailure(error: StorageError)
    | ParentBlockHashMismatch(blockNumber: nat, expectedParent: BlockHash, storedParent: BlockHash)
    | BaseLayerBlockWithoutMatchingHeader(blockNumber: nat)
    | BaseLayerHashMismatch(blockNumber: nat, baseLayerHash: BlockHash, l2Hash: BlockHash)
    | CentralSourceError

  type SyncResult = Outcome<SyncError>

  /** A block that the central source sends; `bodyAccepted` is what the transaction tables answer. */
  datatype Block = Block(header: BlockHeader, signature: Signature, bodyAccepted: bool)

  // ----- Storing -----

  ghost function StoreBlock(s: SyncState, n: nat, block: Block): (SyncState, SyncResult) {
    if n > |s.chain| then (s, Fail(StorageFailure(DbInconsistency)))
    else if n > 0 && s.chain[n - 1].header.blockHash != block.header.parentHash then
      (s, Fail(ParentBlockHashMismatch(n, block.header.parentHash, s.chain[n - 1].header.blockHash)))
    else if n < |s.chain| then (s, Fail(StorageFailure(MarkerMismatch(|s.chain|, n))))
    else if HasHash(s.chain, block.header.blockHash) then (s, Fail(StorageFailure(KeyAlreadyExists)))
    else if !block.bodyAccepted then (s, Fail(StorageFailure(OtherTableRefused)))
    else (s.(chain := s.chain + [Entry(block.header, Some(block.signature))]), Pass)
  }

  /** A state diff is stored when it is the next one, declares only new classes and deploys or replaces each contract, not both. */
  ghost predicate AcceptsStateDiff(s: SyncState, n: nat, block: S.StateBlock) {
    && n == |s.blocks|
    && block.diff.contracts.Exclusive()
    && S.NoDuplicates(S.Declared(s.blocks) + block.diff.declaredClasses)
  }

  /** The first refusal, in the order of the writes. */
  ghost function StateDiffResult(s: SyncState, n: nat, block: S.StateBlock): SyncResult {
    if !C.AcceptedAfter(S.ContractDiffs(s.blocks), n, block.diff.contracts) then Fail(StorageFailure(OtherTableRefused))
    else if !S.NoDuplicates(S.Declared(s.blocks) + block.diff.declaredClasses) then Fail(StorageFailure(KeyAlreadyExists))
    else if n < |s.blocks| then Fail(StorageFailure(AppendRefused))
    else if n > |s.blocks| then Fail(StorageFailure(MarkerMismatch(|s.blocks|, n)))
    else Pass
  }

  ghost function StoreStateDiff(s: SyncState, n: nat, block: S.StateBlock): SyncState {
    if AcceptsStateDiff(s, n, block) then s.(blocks := s.blocks + [block]) else s
  }

  /** A class whose CASM is stored is skipped; the next class in stored order is stored. */
  ghost function StoreCompiledClass(s: SyncState, hash: ClassHash, casm: Casm): SyncState {
    if hash in S.Declared(s.blocks)[..StoredCasms(s)] then s else s.(casms := s.casms + [casm])
  }

  /** The class is stored already or is the next one to store. */
  ghost predicate InStoredOrder(s: SyncState, hash: ClassHash) {
    || hash in S.Declared(s.blocks)[..StoredCasms(s)]
    || (|s.casms| < |S.Declared(s.blocks)| && hash == S.Declared(s.blocks)[|s.casms|])
  }

  /** How many of the declared classes have their CASM stored. */
  function StoredCasms(s: SyncState): nat {
    S.Min(|s.casms|, |S.Declared(s.blocks)|)
  }

  ghost function StoreBaseLayerBlock(s: SyncState, n: nat, hash: BlockHash): (SyncState, SyncResult) {
    if n >= |s.chain| then (s, Fail(BaseLayerBlockWithoutMatchingHeader(n)))
    else if s.chain[n].header.blockHash != hash then
      (s, Fail(BaseLayerHashMismatch(n, hash, s.chain[n].header.blockHash)))
    else (s.(baseLayer := n + 1), Pass)
  }

  // ----- Reverting -----

  /** The state of the last block goes with its header when it was stored. */
  ghost function DropState(s: SyncState, n: nat): SyncState {
    if |s.blocks| == n + 1 then
      s.(blocks := S.Init(s.blocks),
         casms := s.casms[..S.Min(|s.casms|, |S.Declared(S.Init(s.blocks))|)])
    else s
  }

  ghost function RevertBlock(s: SyncState, n: nat): SyncState {
    var rolled := s.(baseLayer := if s.baseLayer == n + 1 then n else s.baseLayer);
    if |s.chain| == n + 1 then DropState(rolled.(chain := Init(s.chain)), n) else rolled
  }

  /** What the central source answers for a block number. */
  datatype Reply = CentralHash(hash: BlockHash) | NoSuchBlock | SourceError

  ghost predicate ShouldRevert(s: SyncState, reply: Reply)
    requires s.chain != []
  {
    reply.NoSuchBlock? || (reply.CentralHash? && reply.hash != Last(s.chain).header.blockHash)
  }

  /** The revert loop: drops the last block as long as the central source disagrees with it. */
  ghost function HandleBlockReverts(s: SyncState, replies: nat -> Reply): (SyncState, SyncResult)
    decreases |s.chain|
  {
    if s.chain == [] then (s, Pass)
    else
      var n := |s.chain| - 1;
      if replies(n).SourceError? then (s, Fail(CentralSourceError))
      else if ShouldRevert(s, replies(n)) then HandleBlockReverts(RevertBlock(s, n), replies)
      else (s, Pass)
  }

  // ----- The protocol as a state machine -----

  /**
   A sync session: up to which block state diffs were asked for, and the classes that the running
   CASM stream still has to send.
   */
  datatype Session = Session(stateUpTo: nat, casmQueue: seq<ClassHash>)

  /** A node: its storage, its session if it is not between two, and every hash that the base layer confirmed. */
  datatype Node = Node(state: SyncState, session: Option<Session>, confirmed: set<BlockHash>)

  datatype Event =
    | Restart(replies: nat -> Reply)
    | BlockAvailable(blockNumber: nat, block: Block)
    | RequestStateDiffs(maxStreamSize: nat)
    | StateDiffAvailable(blockNumber: nat, stateBlock: S.StateBlock)
    | RequestCompiledClasses(maxStreamSize: nat)
    | CompiledClassAvailable(casm: Casm)
    | NewBaseLayerBlock(blockNumber: nat, blockHash: BlockHash)
    | StreamFailure

  /** The first block from `from` on that declares a class, or the number of blocks. */
  function FirstWithClasses(blocks: S.Blocks, from: nat): (b: nat)
    requires from <= |blocks|
    ensures from <= b <= |blocks|
    ensures b < |blocks| ==> blocks[b].diff.declaredClasses != []
    decreases |blocks| - from
  {
    if from == |blocks| || blocks[from].diff.declaredClasses != [] then from
    else FirstWithClasses(blocks, from + 1)
  }

  /** The compiled-class marker that the storage holds. */
  ghost function CasmMarker(s: SyncState): (marker: nat)
    ensures S.IsCasmMarker(s.blocks, StoredCasms(s), marker)
  {
    CasmMarkerExists(s.blocks, StoredCasms(s));
    var m :| S.IsCasmMarker(s.blocks, StoredCasms(s), m);
    m
  }

  lemma {:induction false} CasmMarkerExists(blocks: S.Blocks, k: nat)
    requires k <= |S.Declared(blocks)|
    ensures exists m :: S.IsCasmMarker(blocks, k, m)
  {
    assert blocks[..|blocks|] == blocks;
    if k == |S.Declared(blocks)| {
      assert S.IsCasmMarker(blocks, k, |blocks|);
    } else {
      var b: nat := |blocks|;
      while S.Start(blocks, b) > k
        invariant b <= |blocks| && (b < |blocks| ==> k < S.Start(blocks, b + 1))
        decreases b
      {
        assert blocks[..0] == [];
        b := b - 1;
      }
      assert S.IsCasmMarker(blocks, k, b);
    }
  }

  /** The classes that a new CASM stream will send: those of the blocks from the marker on. */
  ghost function CasmRequest(s: SyncState, maxStreamSize: nat): seq<ClassHash> {
    var from := FirstWithClasses(s.blocks, CasmMarker(s));
    var upTo := S.Min(|s.blocks|, from + maxStreamSize);
    S.StartMonotone(s.blocks, from, upTo);
    S.Declared(s.blocks[..upTo])[S.Start(s.blocks, from)..]
  }

  /** An event may happen now. Sources send only blocks in the range that was asked for. */
  ghost predicate Enabled(node: Node, e: Event) {
    match e
    case Restart(_) => true
    case StateDiffAvailable(n, stateBlock) =>
      node.session.Some? && n < node.session.value.stateUpTo && stateBlock.Fits()
    case RequestCompiledClasses(_) =>
      node.session.Some? && node.session.value.casmQueue == []
    case CompiledClassAvailable(_) =>
      node.session.Some? && node.session.value.casmQueue != []
    case _ => node.session.Some?
  }

  /** A failed event ends the session; the next event that can happen is a restart. */
  function KeepIf(node: Node, ok: bool): Node {
    if ok then node else node.(session := None)
  }

  ghost function Next(node: Node, e: Event): Node
    requires Enabled(node, e)
  {
    var s := node.state;
    match e
    case Restart(replies) =>
      var (s', r) := HandleBlockReverts(s, replies);
      Node(s', if r.Pass? then Some(Session(0, [])) else None, node.confirmed)
    case BlockAvailable(n, block) =>
      var (s', r) := StoreBlock(s, n, block);
      KeepIf(node.(state := s'), r.Pass?)
    case RequestStateDiffs(maxStreamSize) =>
      if |s.blocks| == |s.chain| then node
      else node.(session := Some(node.session.value.(
                   stateUpTo := S.Min(|s.chain|, |s.blocks| + maxStreamSize))))
    case StateDiffAvailable(n, stateBlock) =>
      KeepIf(node.(state := StoreStateDiff(s, n, stateBlock)),
             AcceptsStateDiff(s, n, stateBlock))
    case RequestCompiledClasses(maxStreamSize) =>
      node.(session := Some(node.session.value.(casmQueue := CasmRequest(s, maxStreamSize))))
    case CompiledClassAvailable(casm) =>
      var queue := node.session.value.casmQueue;
      node.(state := StoreCompiledClass(s, queue[0], casm),
            session := Some(node.session.value.(casmQueue := queue[1..])))
    case NewBaseLayerBlock(n, hash) =>
      var (s', r) := StoreBaseLayerBlock(s, n, hash);
      KeepIf(node.(state := s', confirmed := if r.Pass? then node.confirmed + {hash} else node.confirmed),
             r.Pass?)
    case StreamFailure => node.(session := None)
  }

  // ----- What every reachable state satisfies -----

  /** Each stored header above genesis names the hash of the header below it as its parent. */
  ghost predicate Linked(chain: Chain) {
    forall i :: 0 < i < |chain| ==> chain[i].header.parentHash == chain[i - 1].header.blockHash
  }

  /** The classes still to be sent are a stretch of the declared list that starts at a stored class or at the next one. */
  ghost predicate QueueAt(declared: seq<ClassHash>, k: nat, queue: seq<ClassHash>, i: nat) {
    i <= k && i + |queue| <= |declared| && queue == declared[i..i + |queue|]
  }

  ghost predicate Safe(node: Node) {
    var s := node.state;
    && Linked(s.chain)
    && DistinctHashes(s.chain)
    && S.NoDuplicates(S.Declared(s.blocks))
    && |s.casms| <= |S.Declared(s.blocks)|
    && |s.blocks| <= |s.chain|
    && s.baseLayer <= |s.chain|
    && (forall b :: b in s.blocks ==> b.Fits())
    && (node.session.Some? ==>
          && node.session.value.stateUpTo <= |s.chain|
          && exists i :: QueueAt(S.Declared(s.blocks), |s.casms|, node.session.value.casmQueue, i))
  }
}
