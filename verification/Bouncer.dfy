/** The bouncer: admits transactions to a block while the block's capacity lasts. */
module Bouncers {
  import opened Wrappers
  import opened BouncerSpec
  import F = BouncerFormula

  datatype TxFailure =
    | ClassUnavailable
    /** An arithmetic overflow or a builtin that the weights do not know: the program panics. */
    | Panicked

  datatype TryUpdateResult = Accepted | BlockFull | Failed(failure: TxFailure)

  /** Checked addition of one `usize` or `u64` component. */
  function CheckedAddNat(a: nat, b: nat): Option<nat> {
    if a + b <= USIZE_MAX then Some(a + b) else None
  }

  function CheckedAddBuiltins(a: BuiltinCount, b: BuiltinCount): (r: Option<BuiltinCount>)
    ensures r == if a.Plus(b).Leq(MAX_BUILTINS) then Some(a.Plus(b)) else None
  {
    var addMod, bitwise := CheckedAddNat(a.addMod, b.addMod), CheckedAddNat(a.bitwise, b.bitwise);
    var ecdsa, ecOp := CheckedAddNat(a.ecdsa, b.ecdsa), CheckedAddNat(a.ecOp, b.ecOp);
    var keccak, mulMod := CheckedAddNat(a.keccak, b.keccak), CheckedAddNat(a.mulMod, b.mulMod);
    var pedersen, poseidon := CheckedAddNat(a.pedersen, b.pedersen), CheckedAddNat(a.poseidon, b.poseidon);
    var range, range96 := CheckedAddNat(a.rangeCheck, b.rangeCheck), CheckedAddNat(a.rangeCheck96, b.rangeCheck96);
    if addMod.None? || bitwise.None? || ecdsa.None? || ecOp.None? || keccak.None? || mulMod.None?
       || pedersen.None? || poseidon.None? || range.None? || range96.None? then None
    else Some(BuiltinCount(addMod.value, bitwise.value, ecdsa.value, ecOp.value, keccak.value, mulMod.value,
                           pedersen.value, poseidon.value, range.value, range96.value))
  }

  /** Component by component; none as soon as one component overflows. */
  method CheckedAdd(a: BouncerWeights, b: BouncerWeights) returns (r: Option<BouncerWeights>)
    ensures r == if a.Plus(b).Leq(MAX) then Some(a.Plus(b)) else None
  {
    var builtins := CheckedAddBuiltins(a.builtinCount, b.builtinCount);
    var l1Gas, segment := CheckedAddNat(a.l1Gas, b.l1Gas), CheckedAddNat(a.messageSegmentLength, b.messageSegmentLength);
    var nEvents, nSteps := CheckedAddNat(a.nEvents, b.nEvents), CheckedAddNat(a.nSteps, b.nSteps);
    var diffSize, sierraGas := CheckedAddNat(a.stateDiffSize, b.stateDiffSize), CheckedAddNat(a.sierraGas, b.sierraGas);
    if builtins.None? || l1Gas.None? || segment.None? || nEvents.None? || nSteps.None? || diffSize.None? || sierraGas.None? {
      return None;
    }
    r := Some(BouncerWeights(builtins.value, l1Gas.value, segment.value, nEvents.value, nSteps.value,
                             diffSize.value, sierraGas.value));
  }

  method DefaultResources(ghost reader: ClassCosts) returns (r: ExecutionResources)
    ensures r.Weight() == CasmWeight(reader, {}) && !r.hasOutputBuiltin
  {
    r := NO_RESOURCES;
    NoClassesWeighNothing(reader, r);
  }

  /** The CASM-hash resources of the classes, which come in no particular order. */
  method GetCasmHashCalculationResources(reader: ClassCosts, classes: set<ClassHash>)
    returns (r: Result<ExecutionResources, TxFailure>)
    ensures r.Ok? <==> classes <= reader.Keys
    ensures r.Err? ==> r.error == ClassUnavailable
    ensures r.Ok? ==> r.value.Weight() == CasmWeight(reader, classes)
    ensures r.Ok? ==> (r.value.hasOutputBuiltin <==> exists c :: c in classes && reader[c].hasOutputBuiltin)
  {
    var sum := DefaultResources(reader);
    var left := classes;
    assert classes - left == {};
    while left != {}
      invariant left <= classes && classes - left <= reader.Keys
      invariant sum.Weight() == CasmWeight(reader, classes - left)
      invariant sum.hasOutputBuiltin <==> exists c :: c in classes - left && reader[c].hasOutputBuiltin
      decreases left
    {
      var c :| c in left;
      if c !in reader {
        return Err(ClassUnavailable);
      }
      ghost var done := classes - left;
      left := left - {c};
      assert classes - left == done + {c};
      CasmWeightAddsClass(reader, done, c);
      WeightIsAdditive(sum, reader[c]);
      sum := sum.Plus(reader[c]);
    }
    assert classes - left == classes;
    r := Ok(sum);
  }

  /** The weight of a transaction with these classes, entries and keys to pay for. */
  ghost function TxWeight(reader: ClassCosts, classes: set<ClassHash>, nEntries: nat, keys: StateChangesKeys, tx: Tx): BouncerWeights {
    tx.OwnWeight().Plus(SharedWeight(reader, classes, nEntries, keys))
  }

  ghost predicate HasUnknownBuiltin(reader: ClassCosts, classes: set<ClassHash>, tx: Tx)
    requires classes <= reader.Keys
  {
    tx.vmResources.hasOutputBuiltin || exists c :: c in classes && reader[c].hasOutputBuiltin
  }

  method GetTxWeights(reader: ClassCosts, classes: set<ClassHash>, nVisitedEntries: nat, tx: Tx, keys: StateChangesKeys)
    returns (r: Result<BouncerWeights, TxFailure>)
    ensures r == if !(classes <= reader.Keys) then Err(ClassUnavailable)
                 else if HasUnknownBuiltin(reader, classes, tx) then Err(Panicked)
                 else if !TxWeight(reader, classes, nVisitedEntries, keys, tx).Leq(MAX) then Err(Panicked)
                 else Ok(TxWeight(reader, classes, nVisitedEntries, keys, tx))
    ensures r.Ok? ==> F.IsWeightOf(r.value, reader, [tx], classes, nVisitedEntries, keys)
  {
    var casm := GetCasmHashCalculationResources(reader, classes);
    if casm.Err? {
      return Err(casm.error);
    }
    var additional := casm.value.Plus(PatriciaUpdateResources(nVisitedEntries));
    var vm := additional.Plus(tx.vmResources);
    if vm.hasOutputBuiltin {
      return Err(Panicked);
    }
    var weights := BouncerWeights(vm.proverBuiltins, tx.l1Gas, tx.messageSegmentLength, tx.nEvents,
                                  vm.TotalNSteps(), keys.OnchainDataSegmentLength(), tx.sierraGas);
    WeighTogether(casm.value, nVisitedEntries, tx, keys);
    F.TxWeightIs(reader, tx, classes, nVisitedEntries, keys);
    if !weights.Leq(MAX) {
      return Err(Panicked);
    }
    r := Ok(weights);
  }

  lemma WeighTogether(casm: ExecutionResources, n: nat, tx: Tx, keys: StateChangesKeys)
    ensures var vm := casm.Plus(PatriciaUpdateResources(n)).Plus(tx.vmResources);
            BouncerWeights(vm.proverBuiltins, tx.l1Gas, tx.messageSegmentLength, tx.nEvents,
                           vm.TotalNSteps(), keys.OnchainDataSegmentLength(), tx.sierraGas) ==
            tx.OwnWeight().Plus(casm.Weight().Plus(AccessWeight(n, keys)))
  {
  }

  datatype CapacityResult = WithinCapacity | TransactionTooLarge | NotCounted(failure: TxFailure)

  /** Whether a block with nothing but this transaction has room for it, or how the count fails. */
  method VerifyTxWeightsWithinMaxCapacity(reader: ClassCosts, tx: Tx, capacity: BouncerWeights) returns (r: CapacityResult)
    requires capacity.Leq(MAX)
    ensures r == if !(tx.executedClassHashes <= reader.Keys) then NotCounted(ClassUnavailable)
                 else if !Countable(reader, [tx]) || !BlockWeight(reader, [tx]).Leq(MAX) then NotCounted(Panicked)
                 else if !BlockWeight(reader, [tx]).Leq(capacity) then TransactionTooLarge
                 else WithinCapacity
  {
    var w := GetTxWeights(reader, tx.executedClassHashes, |tx.visitedStorageEntries|, tx, tx.stateChangesKeys);
    SingletonBlock(reader, tx);
    SingletonCountable(reader, tx);
    match w {
      case Err(failure) => r := NotCounted(failure);
      case Ok(weights) => r := if weights.Leq(capacity) then WithinCapacity else TransactionTooLarge;
    }
  }

  /** A transaction passes the check on its own exactly when a fresh bouncer accepts it, and fails alike. */
  method FreshBouncerAgrees(reader: ClassCosts, tx: Tx, capacity: BouncerWeights)
    returns (alone: CapacityResult, offered: TryUpdateResult)
    requires capacity.Leq(MAX)
    ensures alone.WithinCapacity? <==> offered.Accepted?
    ensures alone.TransactionTooLarge? <==> offered.BlockFull?
    ensures alone.NotCounted? ==> offered == Failed(alone.failure)
  {
    alone := VerifyTxWeightsWithinMaxCapacity(reader, tx, capacity);
    var fresh_ := new Bouncer(capacity, reader);
    ghost var history := fresh_.accepted;
    assert history + [tx] == [tx];
    offered := fresh_.TryUpdate(tx);
  }

  lemma SingletonCountable(reader: ClassCosts, tx: Tx)
    ensures Countable(reader, [tx]) <==>
            tx.executedClassHashes <= reader.Keys && !HasUnknownBuiltin(reader, tx.executedClassHashes, tx)
  {
    assert tx in [tx];
    assert TxCountable(reader, tx) <==>
           tx.executedClassHashes <= reader.Keys && !HasUnknownBuiltin(reader, tx.executedClassHashes, tx);
  }

  class Bouncer {
    var executedClassHashes: set<ClassHash>
    var visitedStorageEntries: set<StorageEntry>
    var stateChangesKeys: StateChangesKeys
    var accumulatedWeights: BouncerWeights
    const capacity: BouncerWeights
    /** What the state reader answers for each class, the same throughout the block. */
    const reader: ClassCosts
    /** The transactions accepted so far. */
    ghost var accepted: seq<Tx>

    /** The incremental state is that of the batch formula, and it is within the capacity. */
    ghost predicate Valid()
      reads this
    {
      && Books(reader, executedClassHashes, visitedStorageEntries, stateChangesKeys, accumulatedWeights, accepted)
      && Fits(reader, capacity, accepted)
      && capacity.Leq(MAX)
    }

    constructor (capacity: BouncerWeights, reader: ClassCosts)
      requires capacity.Leq(MAX)
      ensures Valid() && accepted == [] && this.capacity == capacity && this.reader == reader
    {
      executedClassHashes := {};
      visitedStorageEntries := {};
      stateChangesKeys := NO_KEYS;
      accumulatedWeights := ZERO;
      this.capacity := capacity;
      this.reader := reader;
      accepted := [];
    }

    method TryUpdate(tx: Tx) returns (r: TryUpdateResult)
      requires Valid()
      modifies this
      ensures Valid()
      ensures r.Accepted? <==> Fits(reader, capacity, old(accepted) + [tx])
      ensures accepted == if r.Accepted? then old(accepted) + [tx] else old(accepted)
      ensures !r.Accepted? ==> unchanged(this)
      ensures r == if !(tx.executedClassHashes <= reader.Keys) then Failed(ClassUnavailable)
                   else if !Countable(reader, old(accepted) + [tx]) then Failed(Panicked)
                   else if !BlockWeight(reader, old(accepted) + [tx]).Leq(MAX) then Failed(Panicked)
                   else if !BlockWeight(reader, old(accepted) + [tx]).Leq(capacity) then BlockFull
                   else Accepted
    {
      var marginalKeys := tx.stateChangesKeys.Difference(stateChangesKeys);
      var marginalClasses := tx.executedClassHashes - executedClassHashes;
      var nMarginalEntries := |tx.visitedStorageEntries - visitedStorageEntries|;
      var w := GetTxWeights(reader, marginalClasses, nMarginalEntries, tx, marginalKeys);

      BooksStep(reader, executedClassHashes, visitedStorageEntries, stateChangesKeys, accumulatedWeights, accepted, tx);
      CountableStep(reader, accepted, tx);
      if BlockWeight(reader, accepted + [tx]).Leq(capacity) {
        SumWithinCapacity(accumulatedWeights, MarginalWeight(reader, accepted, tx), capacity);
      }
      if BlockWeight(reader, accepted + [tx]).Leq(MAX) {
        SumWithinCapacity(accumulatedWeights, MarginalWeight(reader, accepted, tx), MAX);
      }
      if w.Err? {
        return Failed(w.error);
      }
      var total := CheckedAdd(accumulatedWeights, w.value);
      if total.None? {
        return Failed(Panicked);
      }
      if !total.value.Leq(capacity) {
        return BlockFull;
      }
      Update(w.value, tx, marginalKeys);
      r := Accepted;
    }

    lemma {:induction false} CountableStep(reader: ClassCosts, txs: seq<Tx>, tx: Tx)
      requires Countable(reader, txs)
      ensures tx.executedClassHashes - ClassesOf(txs) <= reader.Keys <==> tx.executedClassHashes <= reader.Keys
      ensures Countable(reader, txs + [tx]) <==>
              && tx.executedClassHashes - ClassesOf(txs) <= reader.Keys
              && !HasUnknownBuiltin(reader, tx.executedClassHashes - ClassesOf(txs), tx)
    {
      ClassesAreCountable(reader, txs);
      assert Countable(reader, txs + [tx]) <==> TxCountable(reader, tx) by {
        assert forall t :: t in txs + [tx] <==> t in txs || t == tx;
      }
    }

    /** Adding the margins of a transaction that fits keeps the sets and weights those of the batch. */
    method Update(txWeights: BouncerWeights, tx: Tx, marginalKeys: StateChangesKeys)
      requires Valid() && Fits(reader, capacity, accepted + [tx])
      requires txWeights == MarginalWeight(reader, accepted, tx)
      requires marginalKeys == tx.stateChangesKeys.Difference(stateChangesKeys)
      modifies this
      ensures Valid() && accepted == old(accepted) + [tx]
    {
      BooksStep(reader, executedClassHashes, visitedStorageEntries, stateChangesKeys, accumulatedWeights, accepted, tx);
      Add(txWeights, tx, marginalKeys);
    }

    method Add(txWeights: BouncerWeights, tx: Tx, marginalKeys: StateChangesKeys)
      requires Books(reader, executedClassHashes + tx.executedClassHashes, visitedStorageEntries + tx.visitedStorageEntries,
                     stateChangesKeys.Union(marginalKeys), accumulatedWeights.Plus(txWeights), accepted + [tx])
      requires Fits(reader, capacity, accepted + [tx]) && capacity.Leq(MAX)
      modifies this
      ensures Valid() && accepted == old(accepted) + [tx]
    {
      accumulatedWeights := accumulatedWeights.Plus(txWeights);
      visitedStorageEntries := visitedStorageEntries + tx.visitedStorageEntries;
      executedClassHashes := executedClassHashes + tx.executedClassHashes;
      stateChangesKeys := stateChangesKeys.Union(marginalKeys);
      accepted := accepted + [tx];
    }
  }

  /**
   Offers the transactions in order. All of them are accepted exactly when the batch fits, and then
   the accumulated weights are the batch formula; which order they come in plays no part.
   */
  method OfferAll(bouncer: Bouncer, txs: seq<Tx>) returns (all: bool)
    requires bouncer.Valid()
    modifies bouncer
    ensures bouncer.Valid()
    ensures all <==> Fits(bouncer.reader, bouncer.capacity, old(bouncer.accepted) + txs)
    ensures all ==> bouncer.accepted == old(bouncer.accepted) + txs
    ensures F.IsWeightOf(bouncer.accumulatedWeights, bouncer.reader, bouncer.accepted, ClassesOf(bouncer.accepted),
                         |EntriesOf(bouncer.accepted)|, KeysOf(bouncer.accepted))
  {
    ghost var before := bouncer.accepted;
    for i := 0 to |txs|
      invariant bouncer.Valid() && bouncer.accepted == before + txs[..i]
    {
      var ok := Offer(bouncer, before, txs, i);
      if !ok {
        PrefixFits(bouncer.reader, bouncer.capacity, before, txs, i + 1);
        F.BlockWeightIs(bouncer.reader, bouncer.accepted);
        return false;
      }
    }
    assert txs[..|txs|] == txs;
    F.BlockWeightIs(bouncer.reader, bouncer.accepted);
    all := true;
  }

  method Offer(bouncer: Bouncer, ghost before: seq<Tx>, txs: seq<Tx>, i: nat) returns (ok: bool)
    requires bouncer.Valid() && i < |txs| && bouncer.accepted == before + txs[..i]
    modifies bouncer
    ensures bouncer.Valid()
    ensures ok <==> Fits(bouncer.reader, bouncer.capacity, before + txs[..i + 1])
    ensures ok ==> bouncer.accepted == before + txs[..i + 1]
  {
    AppendNext(before, txs, i);
    var r := bouncer.TryUpdate(txs[i]);
    ok := r.Accepted?;
  }

  lemma AppendNext<T>(before: seq<T>, txs: seq<T>, i: nat)
    requires i < |txs|
    ensures before + txs[..i] + [txs[i]] == before + txs[..i + 1]
  {
  }

  lemma PrefixFits(reader: ClassCosts, capacity: BouncerWeights, before: seq<Tx>, txs: seq<Tx>, i: nat)
    requires i <= |txs|
    ensures Fits(reader, capacity, before + txs) ==> Fits(reader, capacity, before + txs[..i])
  {
    if Fits(reader, capacity, before + txs) {
      assert before + txs == (before + txs[..i]) + txs[i..];
      SubBlockFits(reader, capacity, before + txs[..i], before + txs);
    }
  }

  /** Two orders of one batch are both accepted or both refused, and accepted they weigh the same. */
  lemma OrderDoesNotMatter(reader: ClassCosts, capacity: BouncerWeights, a: seq<Tx>, b: seq<Tx>)
    requires multiset(a) == multiset(b)
    ensures Fits(reader, capacity, a) <==> Fits(reader, capacity, b)
    ensures BlockWeight(reader, a) == BlockWeight(reader, b)
  {
    BlockWeightOfPermutation(reader, a, b);
  }
}
