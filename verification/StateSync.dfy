/** `GenericStateSync`: the writer side of state synchronisation, over the database tables. */
module StateSyncs {
  import opened Wrappers
  import opened ChainTypes
  import opened HeaderSpec
  import opened SyncSpec
  import opened SyncSafety
  import opened StorageTxns
  import opened VersionedTables
  import C = StateHistory
  import S = StateSpec

  /** A storage error as a sync error. */
  function Lift(w: StorageResult): SyncResult {
    match w
    case Pass => Pass
    case Fail(error) => Fail(StorageFailure(error))
  }

  /** The parts of the tables that the writers keep apart stand for the state together. */
  lemma {:induction false} Assemble(t: Tables, s: SyncState)
    requires EncodesHeaders(t.header, t.markers.header, s.chain)
    requires S.EncodesState(t.state, t.markers, s.blocks, s.casms)
    requires S.EncodesContracts(t.contracts, s.blocks)
    requires forall b :: b in s.blocks ==> b.Fits()
    requires t.markers.body == t.markers.event == |s.chain| && t.markers.baseLayerBlock == s.baseLayer
    ensures Represents(t, s)
  {
  }

  /** Nothing refuses exactly when the diff is to be stored. */
  lemma {:induction false} StoredIff(s: SyncState, n: nat, block: S.StateBlock)
    ensures StateDiffResult(s, n, block).Pass? <==> AcceptsStateDiff(s, n, block)
  {
  }

  /** The next class of the stream is stored already or is the next one to store. */
  lemma {:induction false} QueueHeadInOrder(node: Node)
    requires Safe(node) && node.session.Some? && node.session.value.casmQueue != []
    ensures InStoredOrder(node.state, node.session.value.casmQueue[0])
  {
    var s, queue := node.state, node.session.value.casmQueue;
    var i :| QueueAt(S.Declared(s.blocks), |s.casms|, queue, i);
    QueueHead(S.Declared(s.blocks), |s.casms|, queue, i);
  }

  class StateSync {
    /** The committed database. */
    var db: Tables
    /** The running streams, if a session is on. */
    var session: Option<Session>
    ghost var state: SyncState
    ghost var confirmed: set<BlockHash>

    ghost function AsNode(): Node
      reads this
    {
      Node(state, session, confirmed)
    }

    /** The tables stand for the lists, and the lists are those of a reachable node. */
    ghost predicate Valid()
      reads this
    {
      Represents(db, state) && Safe(AsNode())
    }

    constructor ()
      ensures Valid() && AsNode() == Node(EMPTY_STATE, None, {}) && db == EMPTY_TABLES
    {
      db := EMPTY_TABLES;
      session := None;
      state := EMPTY_STATE;
      confirmed := {};
    }

    method VerifyParentBlockHash(n: nat, block: Block) returns (r: SyncResult)
      requires Represents(db, state)
      ensures n == 0 ==> r.Pass?
      ensures n > |state.chain| ==> r == Fail(StorageFailure(DbInconsistency))
      ensures 0 < n <= |state.chain| ==>
                var stored := state.chain[n - 1].header.blockHash;
                r == if stored == block.header.parentHash then Pass
                     else Fail(ParentBlockHashMismatch(n, block.header.parentHash, stored))
    {
      if n == 0 {
        return Pass;
      }
      var txn := new StorageTxn(db, state.chain);
      var header := txn.GetBlockHeader(n - 1);
      if header.None? {
        return Fail(StorageFailure(DbInconsistency));
      }
      if header.value.blockHash != block.header.parentHash {
        return Fail(ParentBlockHashMismatch(n, block.header.parentHash, header.value.blockHash));
      }
      r := Pass;
    }

    method StoreBlock(n: nat, block: Block) returns (r: SyncResult)
      requires Represents(db, state)
      modifies this`db, this`state
      ensures Represents(db, state)
      ensures (state, r) == SyncSpec.StoreBlock(old(state), n, block)
    {
      r := VerifyParentBlockHash(n, block);
      if r.Fail? {
        return;
      }
      var txn := new StorageTxn(db, state.chain);
      var w := txn.AppendHeader(n, block.header);
      if w.Fail? {
        return Lift(w);
      }
      w := txn.AppendBlockSignature(n, block.signature);
      if w.Fail? {
        return Lift(w);
      }
      w := txn.AppendBody(n, block.bodyAccepted);
      if w.Fail? {
        return Lift(w);
      }
      assert txn.chain == state.chain + [Entry(block.header, Some(block.signature))];
      db := txn.tables;
      state := state.(chain := txn.chain);
    }

    method StoreStateDiff(n: nat, block: S.StateBlock) returns (r: SyncResult)
      requires Represents(db, state) && block.Fits()
      modifies this`db, this`state
      ensures Represents(db, state)
      ensures r.Pass? <==> AcceptsStateDiff(old(state), n, block)
      ensures r == StateDiffResult(old(state), n, block)
      ensures state == SyncSpec.StoreStateDiff(old(state), n, block)
    {
      var txn := new StorageTxn(db, state.chain);
      StoredIff(state, n, block);
      r := WriteStateDiff(txn, n, block, state);
      if r.Fail? {
        return;
      }
      Assemble(txn.tables, state.(blocks := state.blocks + [block]));
      Commit(txn.tables, state.(blocks := state.blocks + [block]));
    }

    static method WriteStateDiff(txn: StorageTxn, n: nat, block: S.StateBlock, ghost s: SyncState) returns (r: SyncResult)
      requires S.EncodesState(txn.tables.state, txn.tables.markers, s.blocks, s.casms) && block.Fits()
      requires S.EncodesContracts(txn.tables.contracts, s.blocks)
      requires forall b :: b in s.blocks ==> b.Fits()
      modifies txn`tables
      ensures r == StateDiffResult(s, n, block)
      ensures r.Pass? ==>
                && S.EncodesState(txn.tables.state, txn.tables.markers, s.blocks + [block], s.casms)
                && S.EncodesContracts(txn.tables.contracts, s.blocks + [block])
                && txn.tables.header == old(txn.tables.header)
                && txn.tables.markers == old(txn.tables.markers).(
                     state := n + 1, class_ := n + 1, compiledClass := txn.tables.markers.compiledClass)
    {
      ghost var before := txn.tables;
      S.DiffsUpTo(s.blocks, n);
      S.FreshIffDistinct(s.blocks, block.diff.declaredClasses);
      S.ContractsAcceptIff(before.contracts, s.blocks, n, block.diff.contracts);
      S.AppendEncodesContracts(before.contracts, s.blocks, block);
      var w := txn.AppendStateDiff(n, block.diff);
      if w.Fail? {
        return Lift(w);
      }
      FreshClasses(s.blocks, block);
      w := txn.AppendClasses(n, block.classes, block.deprecatedClasses);
      if w.Fail? {
        return Lift(w);
      }
      S.AppendEncodesState(before.state, txn.tables.state, before.markers, txn.tables.markers, s.blocks, s.casms, block);
      r := Pass;
    }

    /** A diff whose declared hashes are new brings classes that are new. */
    static lemma FreshClasses(blocks: S.Blocks, block: S.StateBlock)
      requires block.Fits() && S.AllFresh(block.diff.declaredClasses, S.DeclaredBlocksOf(blocks))
      requires forall b :: b in blocks ==> b.Fits()
      ensures S.AllFresh(S.Hashes(block.classes), S.ClassesOf(blocks))
    {
      forall c | c in block.diff.declaredClasses ensures c !in S.ClassesOf(blocks) {
        S.ClassAt(blocks, c);
        S.DeclaredBlockAt(blocks, c);
      }
    }

    /**
     Any class: one whose CASM is stored is skipped, another is stored and the marker moves as the
     loop of `append_casm` says. The next class in stored order extends the prefix of stored CASMs.
     */
    method StoreCompiledClass(hash: ClassHash, casm: Casm) returns (r: SyncResult)
      requires Represents(db, state)
      modifies this`db, this`state
      ensures r.Pass?
      ensures hash in old(db).state.casms ==> db == old(db)
      ensures hash !in old(db).state.casms ==>
                && S.IsFirstNotPassed(db.state.stateDiffs, old(db).markers.compiledClass, hash, db.markers.compiledClass)
                && db == old(db).(state := old(db).state.(casms := old(db).state.casms[hash := casm]),
                                  markers := old(db).markers.(compiledClass := db.markers.compiledClass))
      ensures InStoredOrder(old(state), hash) ==>
                Represents(db, state) && state == SyncSpec.StoreCompiledClass(old(state), hash, casm)
    {
      var txn := new StorageTxn(db, state.chain);
      S.CasmAt(S.Declared(state.blocks)[..|state.casms|], state.casms, hash);
      var w := txn.AppendCasm(hash, casm);
      if w.Pass? {
        if InStoredOrder(state, hash) {
          S.CasmEncodesState(db.state, db.markers, txn.tables.markers, state.blocks, state.casms, casm);
          state := state.(casms := state.casms + [casm]);
        }
        db := txn.tables;
        return Pass;
      }
      // The stream sends a block from its start: a class that is stored already is skipped.
      if w == Fail(KeyAlreadyExists) {
        return Pass;
      }
      r := Lift(w);
    }

    // ----- Reads at a state number -----

    method GetClassHashAt(n: nat, address: Address) returns (r: Option<ClassHash>)
      requires Represents(db, state)
      ensures var classes := C.ValuesAt(S.ContractDiffs(state.blocks), n).classes;
              r == if address in classes then Some(classes[address]) else None
    {
      S.ContractsAre(db.contracts, state.blocks);
      r := C.GetClassHashAt(db.contracts, a => a, n, address, S.ContractDiffs(state.blocks));
    }

    method GetNonceAt(n: nat, address: Address) returns (r: Option<Nonce>)
      requires Represents(db, state)
      ensures var nonces := C.ValuesAt(S.ContractDiffs(state.blocks), n).nonces;
              r == if address in nonces then Some(nonces[address]) else None
    {
      S.ContractsAre(db.contracts, state.blocks);
      r := C.GetNonceAt(db.contracts, a => a, n, address, S.ContractDiffs(state.blocks));
    }

    method GetStorageAt(rank: StorageKey -> nat, n: nat, key: StorageKey) returns (value: Felt)
      requires Represents(db, state) && Injective(rank)
      ensures var values := C.ValuesAt(S.ContractDiffs(state.blocks), n).storage;
              value == if key in values then values[key] else 0
    {
      S.ContractsAre(db.contracts, state.blocks);
      value := C.GetStorageAt(db.contracts, rank, n, key, S.ContractDiffs(state.blocks));
    }

    method StoreBaseLayerBlock(n: nat, hash: BlockHash) returns (r: SyncResult)
      requires Represents(db, state)
      modifies this`db, this`state
      ensures Represents(db, state)
      ensures (state, r) == SyncSpec.StoreBaseLayerBlock(old(state), n, hash)
    {
      var txn := new StorageTxn(db, state.chain);
      var header := txn.GetBlockHeader(n);
      if header.None? {
        return Fail(BaseLayerBlockWithoutMatchingHeader(n));
      }
      if header.value.blockHash != hash {
        return Fail(BaseLayerHashMismatch(n, hash, header.value.blockHash));
      }
      if txn.tables.markers.baseLayerBlock != n + 1 {
        txn.UpdateBaseLayerBlockMarker(n + 1);
        db := txn.tables;
        state := state.(baseLayer := n + 1);
      }
      r := Pass;
    }

    method RevertBlock(n: nat)
      requires Represents(db, state)
      modifies this`db, this`state
      ensures Represents(db, state)
      ensures state == SyncSpec.RevertBlock(old(state), n)
    {
      var txn := new StorageTxn(db, state.chain);
      txn.TryRevertBaseLayerMarker(n);
      ghost var after := state.(baseLayer := txn.tables.markers.baseLayerBlock);
      var header, _ := txn.RevertHeader(n);
      after := after.(chain := txn.chain);
      if header.Some? {
        RevertData(txn, n, after);
        after := DropState(after, n);
      } else {
        Assemble(txn.tables, after);
      }
      Commit(txn.tables, after);
    }

    /** The body and the state diff of a block whose header is gone already. */
    static method RevertData(txn: StorageTxn, n: nat, ghost s: SyncState)
      requires EncodesHeaders(txn.tables.header, txn.tables.markers.header, s.chain) && |s.chain| == n
      requires S.EncodesState(txn.tables.state, txn.tables.markers, s.blocks, s.casms)
      requires S.EncodesContracts(txn.tables.contracts, s.blocks)
      requires forall b :: b in s.blocks ==> b.Fits()
      requires txn.tables.markers.body == txn.tables.markers.event == n + 1
      requires txn.tables.markers.baseLayerBlock == s.baseLayer
      modifies txn`tables
      ensures Represents(txn.tables, DropState(s, n))
    {
      txn.RevertBody(n);
      RevertDiff(txn, n, s);
      Assemble(txn.tables, DropState(s, n));
    }

    method Commit(tables: Tables, ghost after: SyncState)
      requires Represents(tables, after)
      modifies this`db, this`state
      ensures Represents(db, state) && db == tables && state == after
    {
      db := tables;
      state := after;
    }

    static method RevertDiff(txn: StorageTxn, n: nat, ghost s: SyncState)
      requires S.EncodesState(txn.tables.state, txn.tables.markers, s.blocks, s.casms)
      requires S.EncodesContracts(txn.tables.contracts, s.blocks)
      requires forall b :: b in s.blocks ==> b.Fits()
      modifies txn`tables
      ensures var after := DropState(s, n);
              && S.EncodesState(txn.tables.state, txn.tables.markers, after.blocks, after.casms)
              && S.EncodesContracts(txn.tables.contracts, after.blocks)
      ensures txn.tables.header == old(txn.tables.header)
      ensures txn.tables.markers == old(txn.tables.markers).(
                state := txn.tables.markers.state, class_ := txn.tables.markers.class_,
                compiledClass := txn.tables.markers.compiledClass)
    {
      if |s.blocks| == n + 1 {
        S.DiffAt(s.blocks, n);
        S.LastDiffDistinct(s.blocks);
        S.RevertEncodesState(txn.tables, s.blocks, s.casms);
        S.RevertEncodesContracts(txn.tables.contracts, s.blocks);
      }
      var _ := txn.RevertStateDiff(n);
    }

    method ShouldRevertBlock(n: nat, reply: Reply) returns (yes: bool)
      requires Represents(db, state) && n + 1 == |state.chain| && !reply.SourceError?
      ensures yes <==> ShouldRevert(state, reply)
    {
      if reply.CentralHash? {
        var txn := new StorageTxn(db, state.chain);
        var header := txn.GetBlockHeader(n);
        match header {
          case Some(h) => yes := h.blockHash != reply.hash;
          case None => yes := false;
        }
      } else {
        yes := true;
      }
    }

    method HandleBlockReverts(replies: nat -> Reply) returns (r: SyncResult)
      requires Represents(db, state)
      modifies this`db, this`state
      ensures Represents(db, state)
      ensures (state, r) == SyncSpec.HandleBlockReverts(old(state), replies)
    {
      var lastBlock := if db.markers.header == 0 then None else Some(db.markers.header - 1);
      while lastBlock.Some?
        invariant Represents(db, state)
        invariant lastBlock == if state.chain == [] then None else Some(|state.chain| - 1)
        invariant SyncSpec.HandleBlockReverts(state, replies) == SyncSpec.HandleBlockReverts(old(state), replies)
        decreases |state.chain|
      {
        var n := lastBlock.value;
        if replies(n).SourceError? {
          return Fail(CentralSourceError);
        }
        var revert := ShouldRevertBlock(n, replies(n));
        if !revert {
          break;
        }
        RevertBlock(n);
        lastBlock := if n == 0 then None else Some(n - 1);
      }
      r := Pass;
    }

    /** The block range of the next state-diff stream. */
    method RequestStateDiffs(maxStreamSize: nat)
      requires Represents(db, state) && session.Some?
      modifies this`session
      ensures AsNode() == Next(old(AsNode()), Event.RequestStateDiffs(maxStreamSize))
    {
      if db.markers.state == db.markers.header {
        return;
      }
      session := Some(session.value.(
        stateUpTo := S.Min(db.markers.header, db.markers.state + maxStreamSize)));
    }

    /** Where a CASM stream starts: the marker, moved over blocks without declared classes. */
    method FirstBlockWithClasses() returns (from: nat)
      requires Represents(db, state)
      ensures from == FirstWithClasses(state.blocks, CasmMarker(state))
    {
      ghost var blocks := state.blocks;
      S.CasmMarkerUnique(blocks, |state.casms|, db.markers.compiledClass, CasmMarker(state));
      from := db.markers.compiledClass;
      while from < db.markers.state
        invariant CasmMarker(state) <= from <= |blocks|
        invariant FirstWithClasses(blocks, from) == FirstWithClasses(blocks, CasmMarker(state))
      {
        S.DiffAt(blocks, from);
        if db.state.stateDiffs[from].declaredClasses != [] {
          break;
        }
        from := from + 1;
      }
    }

    /** What a CASM stream over the blocks `[from, upTo)` sends, read from the stored diffs. */
    method StreamedClasses(from: nat, upTo: nat) returns (queue: seq<ClassHash>)
      requires db.state.stateDiffs == S.DiffsOf(state.blocks) && from <= upTo <= |state.blocks|
      ensures S.Start(state.blocks, from) <= |S.Declared(state.blocks[..upTo])|
      ensures queue == S.Declared(state.blocks[..upTo])[S.Start(state.blocks, from)..]
    {
      ghost var blocks := state.blocks;
      queue := [];
      for b := from to upTo
        invariant S.Start(blocks, from) <= |S.Declared(blocks[..b])|
        invariant queue == S.Declared(blocks[..b])[S.Start(blocks, from)..]
      {
        S.DiffAt(blocks, b);
        S.StartStep(blocks, b);
        queue := queue + db.state.stateDiffs[b].declaredClasses;
      }
    }

    /** The classes that the next CASM stream sends: those of the blocks from the marker on. */
    method CasmQueue(maxStreamSize: nat) returns (queue: seq<ClassHash>)
      requires Represents(db, state)
      ensures queue == CasmRequest(state, maxStreamSize)
    {
      var from := FirstBlockWithClasses();
      if from == db.markers.state {
        return [];
      }
      queue := StreamedClasses(from, S.Min(db.markers.state, from + maxStreamSize));
    }

    method RequestCompiledClasses(maxStreamSize: nat)
      requires Represents(db, state) && session.Some? && session.value.casmQueue == []
      modifies this`session
      ensures AsNode() == Next(old(AsNode()), Event.RequestCompiledClasses(maxStreamSize))
    {
      var queue := CasmQueue(maxStreamSize);
      session := Some(session.value.(casmQueue := queue));
    }

    /** One event of the sync loop; a failure ends the session. */
    method ProcessEvent(e: Event)
      requires Valid() && Enabled(AsNode(), e)
      modifies this
      ensures Valid()
      ensures AsNode() == Next(old(AsNode()), e)
    {
      NextSafe(AsNode(), e);
      Dispatch(e);
    }

    method Dispatch(e: Event)
      requires Represents(db, state) && Safe(AsNode()) && Enabled(AsNode(), e)
      modifies this
      ensures Represents(db, state)
      ensures AsNode() == Next(old(AsNode()), e)
    {
      match e {
        case Restart(replies) =>
          var r := HandleBlockReverts(replies);
          session := if r.Pass? then Some(Session(0, [])) else None;
        case BlockAvailable(n, block) =>
          var r := StoreBlock(n, block);
          session := if r.Pass? then session else None;
        case RequestStateDiffs(size) => RequestStateDiffs(size);
        case StateDiffAvailable(n, block) =>
          var r := StoreStateDiff(n, block);
          session := if r.Pass? then session else None;
        case RequestCompiledClasses(size) => RequestCompiledClasses(size);
        case CompiledClassAvailable(casm) => ProcessCompiledClass(casm);
        case NewBaseLayerBlock(n, hash) =>
          var r := StoreBaseLayerBlock(n, hash);
          session := if r.Pass? then session else None;
          confirmed := if r.Pass? then confirmed + {hash} else confirmed;
        case StreamFailure => session := None;
      }
    }

    method ProcessCompiledClass(casm: Casm)
      requires Represents(db, state) && Safe(AsNode()) && Enabled(AsNode(), CompiledClassAvailable(casm))
      modifies this
      ensures Represents(db, state)
      ensures AsNode() == Next(old(AsNode()), CompiledClassAvailable(casm))
    {
      var queue := session.value.casmQueue;
      QueueHeadInOrder(AsNode());
      var _ := StoreCompiledClass(queue[0], casm);
      session := Some(session.value.(casmQueue := queue[1..]));
    }
  }
}
