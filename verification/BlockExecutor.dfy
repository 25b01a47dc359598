/**
 The block executor: its storage, the global class cache shared by every reader, and the reader of
 the block being executed. Every method is proved to take the step of the state machine.
 */
module BlockExecutors {
  import opened Wrappers
  import opened ChainTypes
  import opened StorageTxns
  import opened ClassReads
  import opened ExecutorSpec
  import C = StateHistory
  import H = HeaderSpec
  import S = StateSpec

  /** The tables stand for the ledger. */
  ghost predicate Represents(db: Tables, l: Ledger) {
    && H.EncodesHeaders(db.header, db.markers.header, l.chain)
    && EncodesBlocks(db.state, db.markers, l.blocks)
    && S.EncodesContracts(db.contracts, l.blocks)
    && db.state.casms == l.casms
  }

  lemma {:induction false} TablesAreLedger(db: Tables, l: Ledger)
    requires Represents(db, l)
    ensures db.state == TablesOf(l)
  {
  }

  /** Header writes leave the state part as it is. */
  lemma {:induction false} HeadersWritten(state: Tables, db': Tables, l': Ledger)
    requires EncodesBlocks(state.state, state.markers, l'.blocks) && state.state.casms == l'.casms
    requires H.EncodesHeaders(db'.header, db'.markers.header, l'.chain)
    requires S.EncodesContracts(state.contracts, l'.blocks) && db'.contracts == state.contracts
    requires db'.state == state.state && db'.markers == state.markers.(header := db'.markers.header)
    ensures Represents(db', l')
  {
  }

  // ----- The writes of a block -----

  /** Only the state, class and compiled-class markers move, and the last not too far. */
  ghost predicate StateMarkersMove(t: Tables, t': Tables, n: nat) {
    && t'.header == t.header
    && t'.markers.compiledClass <= n + 1
    && t'.markers == t.markers.(state := n + 1, class_ := n + 1, compiledClass := t'.markers.compiledClass)
  }

  /** One turn of the CASM loop: a fresh hash is not in the table yet. */
  lemma {:induction false} CasmIsNew(list: seq<(ClassHash, Casm)>, i: nat, table: map<ClassHash, Casm>)
    requires i < |list| && S.AllFresh(S.Hashes(list), table)
    ensures list[i].0 !in table + S.FirstWins(list[..i])
  {
    S.FirstWinsKeys(list[..i], list[i].0);
    assert S.Hashes(list)[..i] == S.Hashes(list[..i]);
    if list[i].0 in table + S.FirstWins(list[..i]) {
      S.NotFresh(S.Hashes(list), i, table);
    }
  }

  /** Writes the CASMs of a block that is not stored yet; `stored` is the number of stored blocks. */
  method AppendCasms(txn: StorageTxn, list: seq<(ClassHash, Casm)>, ghost stored: nat) returns (r: StorageResult)
    requires txn.tables.markers.compiledClass <= stored && stored !in txn.tables.state.stateDiffs
    modifies txn`tables
    ensures S.AllFresh(S.Hashes(list), old(txn.tables.state.casms)) ==> r.Pass?
    ensures r.Pass? ==>
              && txn.tables.markers.compiledClass <= stored
              && txn.tables == old(txn.tables).(
                   state := old(txn.tables).state.(casms := old(txn.tables).state.casms + S.FirstWins(list)),
                   markers := old(txn.tables).markers.(compiledClass := txn.tables.markers.compiledClass))
  {
    ghost var before := txn.tables.state.casms;
    for i := 0 to |list|
      invariant txn.tables.markers.compiledClass <= stored
      invariant txn.tables == old(txn.tables).(
                  state := old(txn.tables).state.(casms := before + S.FirstWins(list[..i])),
                  markers := old(txn.tables).markers.(compiledClass := txn.tables.markers.compiledClass))
    {
      if S.AllFresh(S.Hashes(list), before) {
        CasmIsNew(list, i, before);
      }
      assert !S.PassesBlock(txn.tables.state.stateDiffs, stored, list[i].0);
      r := txn.AppendCasm(list[i].0, list[i].1);
      if r.Fail? {
        return;
      }
      S.ClassStep(list, i, before);
    }
    assert list[..|list|] == list;
    r := Pass;
  }

  /** The state part of storage after the writes of an accepted block. */
  lemma {:induction false} StateWritten(db: Tables, db': Tables, l: Ledger, op: Op)
    requires Represents(db, l) && op.Append? && op.Distinct() && op.n == |l.blocks|
    requires S.AddsBlock(db.state, db'.state, op.n, BlockOf(l, op))
    requires db'.state.casms == l.casms + S.FirstWins(Casms(Unknown(op.declared, DeclaredBefore(TablesOf(l), op.n))))
    requires db'.markers.state == db'.markers.class_ == op.n + 1 && db'.markers.compiledClass <= op.n + 1
    ensures EncodesBlocks(db'.state, db'.markers, AppendTo(l, op).blocks) && db'.state.casms == AppendTo(l, op).casms
  {
    var block := BlockOf(l, op);
    NewBlockFits(l, op);
    NewCasmKeys(l.casms, Unknown(op.declared, DeclaredBefore(TablesOf(l), op.n)));
    AppendKeepsBlocksSound(l.blocks, block, l.casms, db'.state.casms);
    S.AppendEncodesTables(db.state, db'.state, l.blocks, block);
  }

  /** The state part of storage after the last block was reverted. */
  lemma {:induction false} LastStateReverted(t: Tables, t': Tables, blocks: S.Blocks, n: nat)
    requires EncodesBlocks(t.state, t.markers, blocks) && S.EncodesContracts(t.contracts, blocks)
    requires |blocks| == n + 1 && n in t.state.stateDiffs
    requires t'.state == S.RevertedTables(t, n).state && t'.markers == S.RevertedTables(t, n).markers
    requires t'.contracts == C.Deleted(t.contracts, n, t.state.stateDiffs[n].contracts)
    ensures EncodesBlocks(t'.state, t'.markers, S.Init(blocks))
    ensures S.EncodesContracts(t'.contracts, S.Init(blocks))
    ensures t'.state.casms == t.state.casms - S.Elems(S.Last(blocks).diff.declaredClasses)
  {
    S.DiffAt(blocks, n);
    RevertEncodesBlocks(t, blocks);
    S.RevertEncodesContracts(t.contracts, blocks);
  }

  class BlockExecutor {
    var db: Tables
    var cache: Cache
    /** The latest block of the reader in use, while a block is executed. */
    var reader: Option<nat>
    ghost var chain: H.Chain
    ghost var blocks: S.Blocks
    ghost const cairo1: iset<ClassHash>

    ghost function AsLedger(): Ledger
      reads this
    {
      Ledger(chain, blocks, db.state.casms, reader)
    }

    ghost function AsExecutor(): Executor
      reads this
    {
      Executor(AsLedger(), cache)
    }

    ghost predicate Valid()
      reads this
    {
      Represents(db, AsLedger()) && Inv(AsExecutor(), cairo1)
    }

    constructor (ghost cairo1Hashes: iset<ClassHash>)
      ensures Valid() && AsExecutor() == EMPTY_EXECUTOR && cairo1 == cairo1Hashes
    {
      db, cache, reader := EMPTY_TABLES, map[], None;
      chain, blocks, cairo1 := [], [], cairo1Hashes;
    }

    // ----- storage.rs -----

    method GetClassDefinitionAt(n: nat, h: ClassHash) returns (r: Result<Option<SierraClass>, StorageError>)
      requires EncodesBlocks(db.state, db.markers, blocks)
      ensures h in DeclaredBefore(db.state, n) ==> h in db.state.declaredClasses
      ensures r == Ok(if h in DeclaredBefore(db.state, n) then Some(db.state.declaredClasses[h]) else None)
    {
      S.DeclaredBlockAt(blocks, h);
      S.ClassAt(blocks, h);
      var t := db.state;
      if h !in t.declaredClassesBlock || n <= t.declaredClassesBlock[h] {
        return Ok(None);
      }
      if h !in t.declaredClasses {
        return if n > db.markers.class_ then Ok(None) else Err(DbInconsistency);
      }
      r := Ok(Some(t.declaredClasses[h]));
    }

    method UndeclaredClasses(n: nat, declared: seq<(ClassHash, DeclaredClass)>)
      returns (r: Result<seq<(ClassHash, DeclaredClass)>, StorageError>)
      requires EncodesBlocks(db.state, db.markers, blocks)
      ensures r == Ok(Unknown(declared, DeclaredBefore(db.state, n)))
    {
      var fresh_ := [];
      for i := 0 to |declared|
        invariant fresh_ == Unknown(declared[..i], DeclaredBefore(db.state, n))
      {
        assert declared[..i + 1][..i] == declared[..i];
        var class_ := GetClassDefinitionAt(n, declared[i].0);
        match class_ {
          case Err(e) => return Err(e);
          case Ok(definition) =>
            if definition.None? {
              fresh_ := fresh_ + [declared[i]];
            }
        }
      }
      assert declared[..|declared|] == declared;
      r := Ok(fresh_);
    }

    method UndeclaredDeprecatedClasses(n: nat, deprecated: seq<(ClassHash, DeprecatedClass)>)
      returns (r: seq<(ClassHash, DeprecatedClass)>)
      ensures r == Unknown(deprecated, DeprecatedBefore(db.state, n))
    {
      r := [];
      var t := db.state.deprecatedClasses;
      for i := 0 to |deprecated|
        invariant r == Unknown(deprecated[..i], DeprecatedBefore(db.state, n))
      {
        assert deprecated[..i + 1][..i] == deprecated[..i];
        var h := deprecated[i].0;
        if h !in t || t[h].blockNumber >= n {
          r := r + [deprecated[i]];
        }
      }
      assert deprecated[..|deprecated|] == deprecated;
    }

    method HasClassBefore(n: nat, address: Address) returns (yes: bool)
      requires S.EncodesContracts(db.contracts, blocks)
      ensures yes <==> address in Assigned(blocks, n)
    {
      S.ContractsAre(db.contracts, blocks);
      var class_ := C.GetClassHashAt(db.contracts, a => a, n, address, S.ContractDiffs(blocks));
      yes := class_.Some?;
    }

    /** Asks for the class of each contract before block `n`: with one it is replaced, without one deployed. */
    method SplitByAssigned(n: nat, updates: ContractUpdates) returns (diff: ContractDiff)
      requires S.EncodesContracts(db.contracts, blocks)
      ensures diff == SplitContracts(updates, Assigned(blocks, n))
    {
      var replaced: map<Address, ClassHash> := map[];
      var left := updates.classHashes.Keys;
      ghost var done: set<Address> := {};
      while left != {}
        invariant left !! done && left + done == updates.classHashes.Keys
        invariant replaced == map a | a in updates.classHashes && a in done && a in Assigned(blocks, n) :: updates.classHashes[a]
        decreases left
      {
        var address :| address in left;
        left, done := left - {address}, done + {address};
        var hasClass := HasClassBefore(n, address);
        if hasClass {
          replaced := replaced[address := updates.classHashes[address]];
        }
      }
      diff := ContractDiff(updates.classHashes - replaced.Keys, updates.storage, updates.nonces, replaced);
    }

    /** The writes of `append_block` to the state tables, in its order: CASMs, state diff, classes. */
    method WriteState(txn: StorageTxn, n: nat, block: S.StateBlock, casms: seq<(ClassHash, Casm)>)
      returns (r: StorageResult)
      requires EncodesBlocks(txn.tables.state, txn.tables.markers, blocks)
      requires S.EncodesContracts(txn.tables.contracts, blocks) && block.diff.contracts.Exclusive()
      modifies txn`tables
      ensures r.Pass? ==> n == |blocks|
      ensures n == |blocks| && Fresh(old(txn.tables.state), block, casms) ==> r.Pass?
      ensures r.Pass? ==> S.EncodesContracts(txn.tables.contracts, blocks + [block])
      ensures r.Pass? ==>
                && S.AddsBlock(old(txn.tables.state), txn.tables.state, n, block)
                && txn.tables.state.casms == old(txn.tables.state.casms) + S.FirstWins(casms)
                && StateMarkersMove(old(txn.tables), txn.tables, n)
    {
      S.DiffsUpTo(blocks, n);
      S.NextAcceptedIff(txn.tables.contracts, blocks, block.diff.contracts);
      S.AppendEncodesContracts(txn.tables.contracts, blocks, block);
      r := AppendCasms(txn, casms, |blocks|);
      if r.Fail? {
        return;
      }
      r := txn.AppendStateDiff(n, block.diff);
      if r.Fail? {
        return;
      }
      r := txn.AppendClasses(n, block.classes, block.deprecatedClasses);
    }

    /** Succeeds exactly at the end of the list and for a new block hash; nothing changes otherwise. */
    method AppendBlock(op: Op) returns (r: StorageResult)
      requires Represents(db, AsLedger()) && op.Append? && op.Distinct()
      modifies this`db, this`chain, this`blocks
      ensures Represents(db, AsLedger())
      ensures r.Pass? <==> Accepts(old(AsLedger()), op)
      ensures AsLedger() == LedgerStep(old(AsLedger()), op)
      ensures r.Fail? ==> db == old(db)
    {
      TablesAreLedger(db, AsLedger());
      var newDeprecated := UndeclaredDeprecatedClasses(op.n, op.deprecated);
      var contracts := SplitByAssigned(op.n, op.updates);
      var undeclared := UndeclaredClasses(op.n, op.declared);
      var newClasses := undeclared.value;
      var block := S.StateBlock(ThinStateDiff(S.Hashes(newClasses), S.Hashes(newDeprecated), contracts),
                                Sierras(newClasses), newDeprecated);
      r := StoreBlock(op, block, Casms(newClasses));
    }

    method StoreBlock(op: Op, block: S.StateBlock, casms: seq<(ClassHash, Casm)>) returns (r: StorageResult)
      requires Represents(db, AsLedger()) && op.Append? && op.Distinct()
      requires block == BlockOf(AsLedger(), op)
      requires casms == Casms(Unknown(op.declared, DeclaredBefore(TablesOf(AsLedger()), op.n)))
      modifies this`db, this`chain, this`blocks
      ensures Represents(db, AsLedger())
      ensures r.Pass? <==> Accepts(old(AsLedger()), op)
      ensures AsLedger() == LedgerStep(old(AsLedger()), op)
      ensures r.Fail? ==> db == old(db)
    {
      ghost var before := AsLedger();
      TablesAreLedger(db, before);
      if op.n == |blocks| {
        NewBlockFits(before, op);
      }
      var txn := new StorageTxn(db, chain);
      r := WriteState(txn, op.n, block, casms);
      if r.Fail? {
        return;
      }
      StateWritten(db, txn.tables, before, op);
      ghost var written := txn.tables;
      r := txn.AppendHeader(op.n, op.header);
      if r.Fail? {
        return;
      }
      HeadersWritten(written, txn.tables, AppendTo(before, op));
      Commit(txn.tables, AppendTo(before, op));
    }

    method Commit(tables: Tables, ghost l: Ledger)
      requires Represents(tables, l) && l.reader == reader
      modifies this`db, this`chain, this`blocks
      ensures Represents(db, AsLedger()) && AsLedger() == l && db == tables
    {
      db, chain, blocks := tables, l.chain, l.blocks;
    }

    method RevertBlock(n: nat)
      requires Represents(db, AsLedger())
      modifies this`db, this`cache, this`chain, this`blocks
      ensures Represents(db, AsLedger())
      ensures AsExecutor() == Step(old(AsExecutor()), Revert(n))
    {
      // The cache goes first, so that no class of the reverted block survives in it.
      cache := map[];
      ghost var after := RevertFrom(AsLedger(), n);
      var txn := new StorageTxn(db, chain);
      RevertState(txn, n);
      ghost var reverted := txn.tables;
      var _, _ := txn.RevertHeader(n);
      HeadersWritten(reverted, txn.tables, after);
      Commit(txn.tables, after);
    }

    method RevertState(txn: StorageTxn, n: nat)
      requires Represents(db, AsLedger()) && txn.tables == db
      modifies txn`tables
      ensures var after := RevertFrom(AsLedger(), n);
              && EncodesBlocks(txn.tables.state, txn.tables.markers, after.blocks)
              && S.EncodesContracts(txn.tables.contracts, after.blocks)
              && txn.tables.state.casms == after.casms
      ensures txn.tables.header == db.header && txn.tables.markers.header == db.markers.header
    {
      RevertDiff(txn, n, blocks);
    }

    static method RevertDiff(txn: StorageTxn, n: nat, ghost blocks: S.Blocks)
      requires EncodesBlocks(txn.tables.state, txn.tables.markers, blocks)
      requires S.EncodesContracts(txn.tables.contracts, blocks)
      modifies txn`tables
      ensures |blocks| != n + 1 ==> txn.tables == old(txn.tables)
      ensures |blocks| == n + 1 ==>
                && EncodesBlocks(txn.tables.state, txn.tables.markers, S.Init(blocks))
                && S.EncodesContracts(txn.tables.contracts, S.Init(blocks))
                && txn.tables.state.casms == old(txn.tables).state.casms - S.Elems(S.Last(blocks).diff.declaredClasses)
      ensures txn.tables.header == old(txn.tables).header && txn.tables.markers.header == old(txn.tables).markers.header
    {
      ghost var before := txn.tables;
      if |blocks| == n + 1 {
        S.DiffAt(blocks, n);
        S.LastDiffDistinct(blocks);
      }
      var _ := txn.RevertStateDiff(n);
      if |blocks| == n + 1 {
        LastStateReverted(before, txn.tables, blocks, n);
      }
    }

    /** Panics (`false`) unless both markers are at the block to be executed. */
    method SetupBlockExecution(n: nat) returns (ok: bool)
      requires Represents(db, AsLedger())
      modifies this`reader
      ensures ok <==> |chain| == |blocks| == n
      ensures AsLedger() == LedgerStep(old(AsLedger()), Setup(n))
    {
      ok := db.markers.header == db.markers.state == n;
      if ok {
        reader := Some(n);
      }
    }

    method TeardownBlockExecution()
      modifies this`reader
      ensures AsLedger() == LedgerStep(old(AsLedger()), Teardown)
    {
      reader := None;
    }

    // ----- papyrus_state.rs -----

    method GetCompiledClassInner(latest: nat, h: ClassHash) returns (r: ReadResult)
      ensures r == UncachedRead(db.state, latest, h)
    {
      var t := db.state;
      if h in t.declaredClassesBlock && t.declaredClassesBlock[h] <= latest {
        return CoupleCasmAndSierra(t, h);
      }
      if h !in t.deprecatedClasses || latest <= t.deprecatedClasses[h].blockNumber {
        return Err(UndeclaredClassHash(h));
      }
      r := Ok(V0(t.deprecatedClasses[h].class_));
    }

    /**
     A cached read by the reader in use, aligned with storage or not: it returns the uncached read.
     `evicted` are the entries that a full cache gives up for the new one.
     */
    method GetCompiledClass(h: ClassHash, evicted: set<ClassHash>) returns (r: ReadResult)
      requires Valid() && reader.Some?
      modifies this`cache
      ensures r == UncachedRead(db.state, reader.value, h)
      ensures [r] == ReadOf(old(AsExecutor()), ReadClass(h, evicted))
      ensures AsExecutor() == Step(old(AsExecutor()), ReadClass(h, evicted))
    {
      TablesAreLedger(db, AsLedger());
      ReadIsPlain(AsExecutor(), ReadClass(h, evicted), cairo1);
      if h in cache {
        return Ok(cache[h]);
      }
      r := GetCompiledClassInner(reader.value, h);
      if r.Ok? {
        cache := cache[h := r.value] - evicted;
      }
    }

    // ----- Whole runs -----

    /** One call of the executor; a read while no block is executed has no reader to ask. */
    method Process(op: Op) returns (read: seq<ReadResult>)
      requires Valid() && op.Distinct() && op.KindsRight(cairo1)
      modifies this
      ensures Valid()
      ensures AsExecutor() == Step(old(AsExecutor()), op) && read == ReadOf(old(AsExecutor()), op)
    {
      StepKeepsInv(AsExecutor(), op, cairo1);
      read := Dispatch(op);
    }

    method Dispatch(op: Op) returns (read: seq<ReadResult>)
      requires Valid() && op.Distinct()
      modifies this
      ensures Represents(db, AsLedger())
      ensures AsExecutor() == Step(old(AsExecutor()), op) && read == ReadOf(old(AsExecutor()), op)
    {
      read := [];
      match op {
        case Append(_, _, _, _, _) => var _ := AppendBlock(op);
        case Revert(n) => RevertBlock(n);
        case Setup(n) => var _ := SetupBlockExecution(n);
        case Teardown => TeardownBlockExecution();
        case ReadClass(h, evicted) =>
          if reader.Some? {
            var r := GetCompiledClass(h, evicted);
            read := [r];
          }
      }
    }

    /** Any interleaving of calls: the reads are those of the executor without a cache. */
    method Run(ops: seq<Op>) returns (log: seq<ReadResult>)
      requires Valid() && AllowedOps(ops, cairo1)
      modifies this
      ensures Valid() && AsExecutor() == RunOps(old(AsExecutor()), ops)
      ensures log == Reads(old(AsExecutor()), ops) == PlainReads(old(AsExecutor()).ledger, ops)
    {
      log := [];
      ghost var start := AsExecutor();
      for i := 0 to |ops|
        invariant Valid() && AsExecutor() == RunOps(start, ops[..i])
        invariant log == Reads(start, ops[..i])
      {
        assert ops[i] in ops && ops[..i + 1][..i] == ops[..i];
        var read := Process(ops[i]);
        log := log + read;
      }
      assert ops[..|ops|] == ops;
      CacheIsTransparent(start, ops, cairo1);
    }
  }
}
