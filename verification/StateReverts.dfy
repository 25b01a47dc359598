/**
 Reverting a state diff against appending it. `revert_state_diff` forgets the block of a declared
 class only when it finds the class itself, so it undoes `append_state_diff` on its own exactly when
 the diff declares no class, and always undoes it together with `append_classes`.
 */
module StateReverts {
  import opened Wrappers
  import opened ChainTypes
  import opened StateSpec
  import opened StorageTxns
  import C = StateHistory

  /** The tables after `append_state_diff` of the next block. */
  function WithDiff(t: StateTables, n: nat, diff: ThinStateDiff): StateTables {
    t.(stateDiffs := t.stateDiffs[n := diff],
       declaredClassesBlock := t.declaredClassesBlock + At(diff.declaredClasses, n))
  }

  /** Nothing of a declared class is stored before its block. */
  lemma {:induction false} NoRowsOfNewClasses(t: Tables, blocks: Blocks, casms: seq<Casm>, list: seq<ClassHash>)
    requires EncodesState(t.state, t.markers, blocks, casms) && AllFresh(list, t.state.declaredClassesBlock)
    requires forall b :: b in blocks ==> b.Fits()
    ensures forall c :: c in list ==> c !in t.state.declaredClasses && c !in t.state.casms
    ensures PresentPrefix(list, t.state.casms) == 0
    ensures |blocks| !in t.state.stateDiffs
    ensures forall h :: h in t.state.deprecatedClasses ==> t.state.deprecatedClasses[h].blockNumber < |blocks|
  {
    forall c | c in list ensures c !in t.state.declaredClasses && c !in t.state.casms {
      ClassAt(blocks, c);
      DeclaredBlockAt(blocks, c);
      CasmAt(Declared(blocks)[..|casms|], casms, c);
    }
    if list != [] {
      assert list[0] in list;
    }
    DiffAt(blocks, |blocks|);
    forall h | h in t.state.deprecatedClasses ensures t.state.deprecatedClasses[h].blockNumber < |blocks| {
      DeprecatedAt(blocks, h);
    }
  }

  /** What is left after the state diff alone was appended and reverted. */
  lemma {:induction false} RevertOfDiffAlone(t: Tables, n: nat, diff: ThinStateDiff)
    requires forall c :: c in diff.declaredClasses ==> c !in t.state.declaredClasses
    requires PresentPrefix(diff.declaredClasses, t.state.casms) == 0
    requires n !in t.state.stateDiffs
    requires forall h :: h in t.state.deprecatedClasses ==> t.state.deprecatedClasses[h].blockNumber < n
    ensures RevertedTables(t.(state := WithDiff(t.state, n, diff)), n).state
         == t.state.(declaredClassesBlock := t.state.declaredClassesBlock + At(diff.declaredClasses, n))
  {
    var s := WithDiff(t.state, n, diff);
    assert s.stateDiffs - {n} == t.state.stateDiffs;
    assert Elems(diff.declaredClasses) * t.state.declaredClasses.Keys == {};
    assert DeprecatedDeletions(t.state.deprecatedClasses, n, diff) == {};
    assert Elems(diff.declaredClasses[..0]) == {};
    assert t.state.declaredClasses - Elems(diff.declaredClasses) == t.state.declaredClasses;
  }

  /** The contract tables are always restored. */
  lemma {:induction false} ContractsRestored(t: ContractTables, blocks: Blocks, diff: ContractDiff)
    requires EncodesContracts(t, blocks)
    ensures C.Deleted(C.Written(t, |blocks|, diff), |blocks|, diff) == t
  {
    ContractsAre(t, blocks);
    var diffs := ContractDiffs(blocks);
    C.WrittenIsLonger(diffs, diff);
    C.DeletedIsShorter(diffs + [diff]);
    assert (diffs + [diff])[..|diffs|] == diffs;
  }

  /** The markers too: after the diff alone only the blocks of the declared classes are left over. */
  lemma {:induction false} RevertedMarkers(t: Tables, t1: Tables, blocks: Blocks, casms: seq<Casm>, diff: ThinStateDiff)
    requires EncodesState(t.state, t.markers, blocks, casms)
    requires t1.state.stateDiffs == t.state.stateDiffs[|blocks| := diff]
    requires IsFirstWithClasses(t1.state.stateDiffs, t.markers.compiledClass, |blocks| + 1, t1.markers.compiledClass)
    requires t1.markers == t.markers.(state := |blocks| + 1, compiledClass := t1.markers.compiledClass)
    ensures RevertedTables(t1, |blocks|).markers == t.markers
  {
    var m := t.markers.compiledClass;
    if m < |blocks| {
      StartStep(blocks, m);
      DiffAt(blocks, m);
      assert t1.state.stateDiffs[m] == blocks[m].diff;
    }
  }

  /**
   Appending a state diff without its classes and reverting it restores every table and marker
   exactly when the diff declares no class; otherwise the diff can not be appended again.
   */
  method AppendDiffThenRevert(txn: StorageTxn, diff: ThinStateDiff, ghost blocks: Blocks, ghost casms: seq<Casm>)
    requires EncodesState(txn.tables.state, txn.tables.markers, blocks, casms)
    requires EncodesContracts(txn.tables.contracts, blocks) && diff.contracts.Exclusive()
    requires forall b :: b in blocks ==> b.Fits()
    requires AllFresh(diff.declaredClasses, txn.tables.state.declaredClassesBlock)
    modifies txn`tables
    ensures txn.tables == old(txn.tables) <==> diff.declaredClasses == []
    ensures AllFresh(diff.declaredClasses, txn.tables.state.declaredClassesBlock) <==> diff.declaredClasses == []
    ensures txn.tables.header == old(txn.tables).header && txn.tables.markers == old(txn.tables).markers
    ensures txn.tables.contracts == old(txn.tables).contracts
  {
    ghost var before := txn.tables;
    var n := txn.tables.markers.state;
    DiffsUpTo(blocks, n);
    NoRowsOfNewClasses(before, blocks, casms, diff.declaredClasses);
    NextAcceptedIff(before.contracts, blocks, diff.contracts);
    ContractsRestored(before.contracts, blocks, diff.contracts);
    var r := txn.AppendStateDiff(n, diff);
    ghost var appended := txn.tables;
    assert appended.state == WithDiff(before.state, n, diff);
    RevertedMarkers(before, appended, blocks, casms, diff);
    RevertOfDiffAlone(before, n, diff);
    SameReverted(before.(state := appended.state), appended, n);
    var _ := txn.RevertStateDiff(n);
    LeftOver(before.state, diff.declaredClasses, n);
  }

  /** What the revert does to the state tables does not depend on the markers. */
  lemma {:induction false} SameReverted(a: Tables, b: Tables, n: nat)
    requires a.state == b.state && n in a.state.stateDiffs
    ensures RevertedTables(a, n).state == RevertedTables(b, n).state
  {
  }

  lemma {:induction false} LeftOver(t: StateTables, list: seq<ClassHash>, n: nat)
    requires AllFresh(list, t.declaredClassesBlock)
    ensures var after := t.(declaredClassesBlock := t.declaredClassesBlock + At(list, n));
            && (after == t <==> list == [])
            && (AllFresh(list, after.declaredClassesBlock) <==> list == [])
  {
    if list != [] {
      assert list[0] in At(list, n) && list[0] in list;
    } else {
      assert t.declaredClassesBlock + At(list, n) == t.declaredClassesBlock;
    }
  }

  /** Two states of storage that stand for the same lists are the same, the other markers aside. */
  lemma {:induction false} SameLists(a: Tables, b: Tables, blocks: Blocks, casms: seq<Casm>)
    requires EncodesState(a.state, a.markers, blocks, casms) && EncodesState(b.state, b.markers, blocks, casms)
    ensures a.state == b.state
    ensures a.markers.state == b.markers.state && a.markers.class_ == b.markers.class_
    ensures a.markers.compiledClass == b.markers.compiledClass
  {
    CasmMarkerUnique(blocks, |casms|, a.markers.compiledClass, b.markers.compiledClass);
  }

  lemma {:induction false} SameContracts(a: ContractTables, b: ContractTables, blocks: Blocks)
    requires EncodesContracts(a, blocks) && EncodesContracts(b, blocks)
    ensures a == b
  {
    ContractsAre(a, blocks);
    ContractsAre(b, blocks);
  }

  /** Appending a state diff with its classes and reverting it restores every table and marker. */
  method AppendStateThenRevert(txn: StorageTxn, block: StateBlock, ghost blocks: Blocks, ghost casms: seq<Casm>)
    returns (reverted: Option<ThinStateDiff>)
    requires EncodesState(txn.tables.state, txn.tables.markers, blocks, casms) && block.Fits()
    requires EncodesContracts(txn.tables.contracts, blocks) && block.diff.contracts.Exclusive()
    requires forall b :: b in blocks ==> b.Fits()
    requires AllFresh(block.diff.declaredClasses, txn.tables.state.declaredClassesBlock)
    modifies txn`tables
    ensures txn.tables == old(txn.tables) && reverted == Some(block.diff)
  {
    var n := txn.tables.markers.state;
    AppendBoth(txn, n, block, blocks, casms);
    ghost var longer := blocks + [block];
    DiffAt(longer, n);
    LastDiffDistinct(longer);
    RevertEncodesState(txn.tables, longer, casms);
    RevertEncodesContracts(txn.tables.contracts, longer);
    assert Init(longer) == blocks && casms[..|casms|] == casms;
    reverted := txn.RevertStateDiff(n);
    SameLists(txn.tables, old(txn.tables), blocks, casms);
    SameContracts(txn.tables.contracts, old(txn.tables).contracts, blocks);
  }

  method AppendBoth(txn: StorageTxn, n: nat, block: StateBlock, ghost blocks: Blocks, ghost casms: seq<Casm>)
    requires EncodesState(txn.tables.state, txn.tables.markers, blocks, casms) && block.Fits() && n == |blocks|
    requires EncodesContracts(txn.tables.contracts, blocks) && block.diff.contracts.Exclusive()
    requires forall b :: b in blocks ==> b.Fits()
    requires AllFresh(block.diff.declaredClasses, txn.tables.state.declaredClassesBlock)
    modifies txn`tables
    ensures EncodesState(txn.tables.state, txn.tables.markers, blocks + [block], casms)
    ensures EncodesContracts(txn.tables.contracts, blocks + [block])
    ensures txn.tables.header == old(txn.tables).header
    ensures txn.tables.markers == old(txn.tables).markers.(
              state := n + 1, class_ := n + 1, compiledClass := txn.tables.markers.compiledClass)
  {
    DiffsUpTo(blocks, n);
    FreshIsDistinct(blocks, block.diff.declaredClasses);
    NoRowsOfNewClasses(txn.tables, blocks, casms, block.diff.declaredClasses);
    NextAcceptedIff(txn.tables.contracts, blocks, block.diff.contracts);
    AppendEncodesContracts(txn.tables.contracts, blocks, block);
    var r := txn.AppendStateDiff(n, block.diff);
    r := txn.AppendClasses(n, block.classes, block.deprecatedClasses);
    AppendEncodesState(old(txn.tables).state, txn.tables.state, old(txn.tables).markers, txn.tables.markers, blocks, casms, block);
  }

  /** On an empty database: a diff that declares one class, appended and reverted without it, is then refused. */
  method RevertedDiffIsRefused() returns (tables: Tables, again: StorageResult)
    ensures tables != EMPTY_TABLES && again == Fail(KeyAlreadyExists)
  {
    var diff := ThinStateDiff([7], [], ContractDiff(map[], map[], map[], map[]));
    var txn := new StorageTxn(EMPTY_TABLES, []);
    EmptyEncodes();
    AppendDiffThenRevert(txn, diff, [], []);
    tables := txn.tables;
    NextAcceptedIff(tables.contracts, [], diff.contracts);
    again := txn.AppendStateDiff(0, diff);
  }

  lemma EmptyEncodes()
    ensures EncodesState(EMPTY_TABLES.state, EMPTY_TABLES.markers, [], [])
    ensures EncodesContracts(EMPTY_TABLES.contracts, [])
  {
    assert ContractDiffs([]) == [];
  }
}
