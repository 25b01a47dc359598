/**
 The block-capacity accounting of the bouncer as a batch formula. A block of transactions weighs
 the sum of what each transaction brings on its own plus what their classes, storage entries and
 changed keys cost together, each counted once.
 */
module BouncerSpec {
  import opened Sums

  type ClassHash = nat
  type ContractAddress = nat
  /** A contract address and a storage key. */
  type StorageEntry = (nat, nat)

  /** The largest `usize` and `u64`. */
  const USIZE_MAX: nat := 0xFFFF_FFFF_FFFF_FFFF

  // ----- Weights -----

  datatype BuiltinCount = BuiltinCount(
    addMod: nat, bitwise: nat, ecdsa: nat, ecOp: nat, keccak: nat, mulMod: nat,
    pedersen: nat, poseidon: nat, rangeCheck: nat, rangeCheck96: nat)
  {
    function Plus(o: BuiltinCount): BuiltinCount {
      BuiltinCount(addMod + o.addMod, bitwise + o.bitwise, ecdsa + o.ecdsa, ecOp + o.ecOp,
                   keccak + o.keccak, mulMod + o.mulMod, pedersen + o.pedersen, poseidon + o.poseidon,
                   rangeCheck + o.rangeCheck, rangeCheck96 + o.rangeCheck96)
    }

    predicate Leq(o: BuiltinCount) {
      && addMod <= o.addMod && bitwise <= o.bitwise && ecdsa <= o.ecdsa && ecOp <= o.ecOp
      && keccak <= o.keccak && mulMod <= o.mulMod && pedersen <= o.pedersen && poseidon <= o.poseidon
      && rangeCheck <= o.rangeCheck && rangeCheck96 <= o.rangeCheck96
    }
  }

  const NO_BUILTINS := BuiltinCount(0, 0, 0, 0, 0, 0, 0, 0, 0, 0)
  const MAX_BUILTINS :=
    BuiltinCount(USIZE_MAX, USIZE_MAX, USIZE_MAX, USIZE_MAX, USIZE_MAX,
                 USIZE_MAX, USIZE_MAX, USIZE_MAX, USIZE_MAX, USIZE_MAX)

  datatype BouncerWeights = BouncerWeights(
    builtinCount: BuiltinCount,
    l1Gas: nat,
    messageSegmentLength: nat,
    nEvents: nat,
    nSteps: nat,
    stateDiffSize: nat,
    sierraGas: nat)
  {
    function Plus(o: BouncerWeights): BouncerWeights {
      BouncerWeights(builtinCount.Plus(o.builtinCount), l1Gas + o.l1Gas,
                     messageSegmentLength + o.messageSegmentLength, nEvents + o.nEvents,
                     nSteps + o.nSteps, stateDiffSize + o.stateDiffSize, sierraGas + o.sierraGas)
    }

    /** Every component fits: `other.has_room(this)`. */
    predicate Leq(o: BouncerWeights) {
      && builtinCount.Leq(o.builtinCount) && l1Gas <= o.l1Gas
      && messageSegmentLength <= o.messageSegmentLength && nEvents <= o.nEvents
      && nSteps <= o.nSteps && stateDiffSize <= o.stateDiffSize && sierraGas <= o.sierraGas
    }
  }

  const ZERO := BouncerWeights(NO_BUILTINS, 0, 0, 0, 0, 0, 0)
  const MAX := BouncerWeights(MAX_BUILTINS, USIZE_MAX, USIZE_MAX, USIZE_MAX, USIZE_MAX, USIZE_MAX, USIZE_MAX)

  /** The addition of weights as a function value, for the laws of sums. */
  const PLUS: (BouncerWeights, BouncerWeights) -> BouncerWeights :=
    (a: BouncerWeights, b: BouncerWeights) => a.Plus(b)

  /** A sum within some capacity has its terms within it, and does not overflow. */
  lemma SumWithinCapacity(a: BouncerWeights, b: BouncerWeights, capacity: BouncerWeights)
    requires a.Plus(b).Leq(capacity) && capacity.Leq(MAX)
    ensures b.Leq(MAX) && a.Plus(b).Leq(MAX)
  {
  }

  lemma WeightsAreMonoid()
    ensures IsCommutativeMonoid(ZERO, PLUS)
  {
  }

  // ----- Resources -----

  /**
   VM resources. The counter of a builtin that the map does not hold is 0; `output` is the one
   builtin that the weights do not know, and only whether the map holds it matters.
   */
  datatype ExecutionResources = ExecutionResources(
    nSteps: nat, nMemoryHoles: nat, segmentArena: nat, proverBuiltins: BuiltinCount, hasOutputBuiltin: bool)
  {
    function Plus(o: ExecutionResources): ExecutionResources {
      ExecutionResources(nSteps + o.nSteps, nMemoryHoles + o.nMemoryHoles, segmentArena + o.segmentArena,
                         proverBuiltins.Plus(o.proverBuiltins), hasOutputBuiltin || o.hasOutputBuiltin)
    }

    /** An instance of the segment arena counts as 10 steps (`N_STEPS_PER_SEGMENT_ARENA_BUILTIN`). */
    function TotalNSteps(): nat {
      nSteps + nMemoryHoles + 10 * segmentArena
    }

    function Weight(): BouncerWeights {
      VmWeight(proverBuiltins, TotalNSteps(), 0)
    }
  }

  const NO_RESOURCES := ExecutionResources(0, 0, 0, NO_BUILTINS, false)

  /** The weight of VM resources and of a stretch of on-chain data. */
  function VmWeight(builtins: BuiltinCount, nSteps: nat, stateDiffSize: nat): BouncerWeights {
    BouncerWeights(builtins, 0, 0, 0, nSteps, stateDiffSize, 0)
  }

  lemma WeightIsAdditive(a: ExecutionResources, b: ExecutionResources)
    ensures a.Plus(b).Weight() == a.Weight().Plus(b.Weight())
  {
  }

  /** A visited entry is taken to lie 24 levels deep (`TREE_HEIGHT_UPPER_BOUND`). */
  function PatriciaUpdateResources(nVisitedEntries: nat): ExecutionResources {
    var nUpdates := nVisitedEntries * 24;
    ExecutionResources(32 * nUpdates, 0, 0, NO_BUILTINS.(pedersen := 2 * nUpdates), false)
  }

  datatype StateChangesKeys = StateChangesKeys(
    nonceKeys: set<ContractAddress>,
    classHashKeys: set<ContractAddress>,
    storageKeys: set<StorageEntry>,
    compiledClassHashKeys: set<ClassHash>,
    modifiedContracts: set<ContractAddress>)
  {
    function Difference(o: StateChangesKeys): StateChangesKeys {
      StateChangesKeys(nonceKeys - o.nonceKeys, classHashKeys - o.classHashKeys, storageKeys - o.storageKeys,
                       compiledClassHashKeys - o.compiledClassHashKeys, modifiedContracts - o.modifiedContracts)
    }

    function Union(o: StateChangesKeys): StateChangesKeys {
      StateChangesKeys(nonceKeys + o.nonceKeys, classHashKeys + o.classHashKeys, storageKeys + o.storageKeys,
                       compiledClassHashKeys + o.compiledClassHashKeys, modifiedContracts + o.modifiedContracts)
    }

    /** A class update takes one word (`CLASS_UPDATE_SIZE`), every other change two. */
    function OnchainDataSegmentLength(): nat {
      |modifiedContracts| * 2 + |classHashKeys| + |storageKeys| * 2 + |compiledClassHashKeys| * 2
    }
  }

  const NO_KEYS := StateChangesKeys({}, {}, {}, {}, {})

  /** What the bouncer learns of an executed transaction. */
  datatype Tx = Tx(
    executedClassHashes: set<ClassHash>,
    visitedStorageEntries: set<StorageEntry>,
    stateChangesKeys: StateChangesKeys,
    l1Gas: nat,
    messageSegmentLength: nat,
    nEvents: nat,
    vmResources: ExecutionResources,
    sierraGas: nat)
  {
    /** The part of the weight that no other transaction can share. */
    function OwnWeight(): BouncerWeights {
      BouncerWeights(vmResources.proverBuiltins, l1Gas, messageSegmentLength, nEvents,
                     vmResources.TotalNSteps(), 0, sierraGas)
    }
  }

  /** What the CASM hash of each known class costs. */
  type ClassCosts = map<ClassHash, ExecutionResources>

  function ClassWeight(costs: ClassCosts, c: ClassHash): BouncerWeights {
    if c in costs then costs[c].Weight() else ZERO
  }

  /** The CASM-hash cost of a set of classes. */
  ghost function CasmWeight(costs: ClassCosts, classes: set<ClassHash>): BouncerWeights {
    if classes == {} then ZERO
    else
      var c :| c in classes;
      ClassWeight(costs, c).Plus(CasmWeight(costs, classes - {c}))
  }

  // ----- The batch formula -----

  function Init(txs: seq<Tx>): seq<Tx>
    requires txs != []
  {
    txs[..|txs| - 1]
  }

  function Last(txs: seq<Tx>): Tx
    requires txs != []
  {
    txs[|txs| - 1]
  }

  function ClassesOf(txs: seq<Tx>): set<ClassHash> {
    if txs == [] then {} else ClassesOf(Init(txs)) + Last(txs).executedClassHashes
  }

  function EntriesOf(txs: seq<Tx>): set<StorageEntry> {
    if txs == [] then {} else EntriesOf(Init(txs)) + Last(txs).visitedStorageEntries
  }

  function KeysOf(txs: seq<Tx>): StateChangesKeys {
    if txs == [] then NO_KEYS else KeysOf(Init(txs)).Union(Last(txs).stateChangesKeys)
  }

  /** What visited entries and changed keys cost together. */
  function AccessWeight(nEntries: nat, keys: StateChangesKeys): BouncerWeights {
    var r := PatriciaUpdateResources(nEntries);
    VmWeight(r.proverBuiltins, r.TotalNSteps(), keys.OnchainDataSegmentLength())
  }

  /** What classes, visited entries and changed keys cost together. */
  ghost function SharedWeight(costs: ClassCosts, classes: set<ClassHash>, nEntries: nat, keys: StateChangesKeys): BouncerWeights {
    CasmWeight(costs, classes).Plus(AccessWeight(nEntries, keys))
  }

  ghost function OwnWeights(txs: seq<Tx>): BouncerWeights {
    if txs == [] then ZERO else OwnWeights(Init(txs)).Plus(Last(txs).OwnWeight())
  }

  /** The weight of a block that holds exactly `txs`; the empty case is spelled out for the solver. */
  ghost function BlockWeight(costs: ClassCosts, txs: seq<Tx>): BouncerWeights {
    if txs == [] then ZERO
    else OwnWeights(txs).Plus(SharedWeight(costs, ClassesOf(txs), |EntriesOf(txs)|, KeysOf(txs)))
  }

  /** Nothing in the transaction makes the accounting fail: all classes known, no unknown builtin. */
  ghost predicate TxCountable(costs: ClassCosts, t: Tx) {
    && t.executedClassHashes <= costs.Keys
    && (forall c :: c in t.executedClassHashes ==> !costs[c].hasOutputBuiltin)
    && !t.vmResources.hasOutputBuiltin
  }

  ghost predicate Countable(costs: ClassCosts, txs: seq<Tx>) {
    forall t :: t in txs ==> TxCountable(costs, t)
  }

  ghost predicate Fits(costs: ClassCosts, capacity: BouncerWeights, txs: seq<Tx>) {
    Countable(costs, txs) && BlockWeight(costs, txs).Leq(capacity)
  }

  // ----- The marginal weight of a transaction -----

  function ClassWeigher(costs: ClassCosts): ClassHash -> BouncerWeights {
    (c: ClassHash) => ClassWeight(costs, c)
  }

  const OWN: Tx -> BouncerWeights := (t: Tx) => t.OwnWeight()

  lemma {:induction false} CasmWeightIsSum(costs: ClassCosts, classes: set<ClassHash>)
    ensures CasmWeight(costs, classes) == SetSum(classes, ClassWeigher(costs), ZERO, PLUS)
    decreases classes
  {
    if classes != {} {
      var c :| c in classes && CasmWeight(costs, classes) == ClassWeight(costs, c).Plus(CasmWeight(costs, classes - {c}));
      WeightsAreMonoid();
      SetSumTakesOut(classes, ClassWeigher(costs), ZERO, PLUS, c);
      CasmWeightIsSum(costs, classes - {c});
    }
  }

  lemma {:induction false} OwnWeightsAreSum(txs: seq<Tx>)
    ensures OwnWeights(txs) == SeqSum(txs, OWN, ZERO, PLUS)
  {
    if txs != [] {
      OwnWeightsAreSum(Init(txs));
    }
  }

  lemma NoClassesWeighNothing(costs: ClassCosts, r: ExecutionResources)
    requires r == NO_RESOURCES
    ensures r.Weight() == CasmWeight(costs, {})
  {
  }

  /** Any class may be counted last. */
  lemma {:induction false} CasmWeightAddsClass(costs: ClassCosts, classes: set<ClassHash>, c: ClassHash)
    requires c !in classes
    ensures CasmWeight(costs, classes + {c}) == CasmWeight(costs, classes).Plus(ClassWeight(costs, c))
  {
    WeightsAreMonoid();
    CasmWeightIsSum(costs, classes);
    CasmWeightIsSum(costs, classes + {c});
    SetSumTakesOut(classes + {c}, ClassWeigher(costs), ZERO, PLUS, c);
    assert (classes + {c}) - {c} == classes;
    assert Commutes(PLUS, CasmWeight(costs, classes), ClassWeight(costs, c));
  }

  lemma {:induction false} CasmWeightOfUnion(costs: ClassCosts, classes: set<ClassHash>, more: set<ClassHash>)
    requires classes !! more
    ensures CasmWeight(costs, classes + more) == CasmWeight(costs, classes).Plus(CasmWeight(costs, more))
  {
    WeightsAreMonoid();
    CasmWeightIsSum(costs, classes);
    CasmWeightIsSum(costs, more);
    CasmWeightIsSum(costs, classes + more);
    SetSumUnion(classes, more, ClassWeigher(costs), ZERO, PLUS);
  }

  lemma KeysSplit(all: StateChangesKeys, more: StateChangesKeys)
    ensures all.Union(more).OnchainDataSegmentLength() ==
            all.OnchainDataSegmentLength() + more.Difference(all).OnchainDataSegmentLength()
    ensures all.Union(more.Difference(all)) == all.Union(more)
  {
    assert all.classHashKeys + more.classHashKeys == all.classHashKeys + (more.classHashKeys - all.classHashKeys);
    assert all.storageKeys + more.storageKeys == all.storageKeys + (more.storageKeys - all.storageKeys);
    assert all.compiledClassHashKeys + more.compiledClassHashKeys ==
           all.compiledClassHashKeys + (more.compiledClassHashKeys - all.compiledClassHashKeys);
    assert all.modifiedContracts + more.modifiedContracts ==
           all.modifiedContracts + (more.modifiedContracts - all.modifiedContracts);
    assert all.nonceKeys + more.nonceKeys == all.nonceKeys + (more.nonceKeys - all.nonceKeys);
  }

  lemma {:induction false} UnionsStep(txs: seq<Tx>, t: Tx)
    ensures ClassesOf(txs + [t]) == ClassesOf(txs) + t.executedClassHashes
    ensures EntriesOf(txs + [t]) == EntriesOf(txs) + t.visitedStorageEntries
    ensures KeysOf(txs + [t]) == KeysOf(txs).Union(t.stateChangesKeys)
  {
    assert Init(txs + [t]) == txs;
  }

  /** The classes of a countable block are known and bring no unknown builtin. */
  lemma {:induction false} ClassesAreCountable(costs: ClassCosts, txs: seq<Tx>)
    requires Countable(costs, txs)
    ensures ClassesOf(txs) <= costs.Keys
    ensures forall c :: c in ClassesOf(txs) ==> !costs[c].hasOutputBuiltin
  {
    if txs != [] {
      ClassesAreCountable(costs, Init(txs));
      assert TxCountable(costs, Last(txs));
    }
  }

  /** The weight that `try_update` charges for `t` in a block that holds `txs`. */
  ghost function MarginalWeight(costs: ClassCosts, txs: seq<Tx>, t: Tx): BouncerWeights {
    t.OwnWeight().Plus(SharedWeight(costs, t.executedClassHashes - ClassesOf(txs),
                                    |t.visitedStorageEntries - EntriesOf(txs)|,
                                    t.stateChangesKeys.Difference(KeysOf(txs))))
  }

  lemma AccessWeightSplits(m: nat, n: nat, all: StateChangesKeys, more: StateChangesKeys)
    ensures AccessWeight(m + n, all.Union(more)) == AccessWeight(m, all).Plus(AccessWeight(n, more.Difference(all)))
  {
    KeysSplit(all, more);
  }

  lemma {:induction false} ClassPartSplits(costs: ClassCosts, classes: set<ClassHash>, more: set<ClassHash>)
    ensures CasmWeight(costs, classes + more) == CasmWeight(costs, classes).Plus(CasmWeight(costs, more - classes))
  {
    assert classes + more == classes + (more - classes);
    CasmWeightOfUnion(costs, classes, more - classes);
  }

  lemma {:induction false} AccessPartSplits(entries: set<StorageEntry>, more: set<StorageEntry>, keys: StateChangesKeys, moreKeys: StateChangesKeys)
    ensures AccessWeight(|entries + more|, keys.Union(moreKeys)) ==
            AccessWeight(|entries|, keys).Plus(AccessWeight(|more - entries|, moreKeys.Difference(keys)))
  {
    assert entries + more == entries + (more - entries);
    assert |entries + more| == |entries| + |more - entries|;
    AccessWeightSplits(|entries|, |more - entries|, keys, moreKeys);
  }

  lemma {:induction false} SharedWeightSplits(costs: ClassCosts, classes: set<ClassHash>, entries: set<StorageEntry>,
                                              keys: StateChangesKeys, t: Tx)
    ensures SharedWeight(costs, classes + t.executedClassHashes, |entries + t.visitedStorageEntries|, keys.Union(t.stateChangesKeys)) ==
            SharedWeight(costs, classes, |entries|, keys).Plus(
              SharedWeight(costs, t.executedClassHashes - classes, |t.visitedStorageEntries - entries|,
                           t.stateChangesKeys.Difference(keys)))
  {
    ClassPartSplits(costs, classes, t.executedClassHashes);
    AccessPartSplits(entries, t.visitedStorageEntries, keys, t.stateChangesKeys);
    Regroup(CasmWeight(costs, classes), CasmWeight(costs, t.executedClassHashes - classes),
            AccessWeight(|entries|, keys),
            AccessWeight(|t.visitedStorageEntries - entries|, t.stateChangesKeys.Difference(keys)));
  }

  /** A transaction alone in a block pays for all it touches. */
  lemma {:induction false} SingletonBlock(costs: ClassCosts, t: Tx)
    ensures ClassesOf([t]) == t.executedClassHashes
    ensures EntriesOf([t]) == t.visitedStorageEntries
    ensures KeysOf([t]) == t.stateChangesKeys
    ensures BlockWeight(costs, [t]) ==
            t.OwnWeight().Plus(SharedWeight(costs, t.executedClassHashes, |t.visitedStorageEntries|, t.stateChangesKeys))
  {
    assert Init([t]) == [];
    ZeroPlus(t.OwnWeight());
    NoKeysUnion(t.stateChangesKeys);
    assert OwnWeights([t]) == t.OwnWeight();
  }

  lemma ZeroPlus(w: BouncerWeights)
    ensures ZERO.Plus(w) == w
  {
  }

  lemma NoKeysUnion(keys: StateChangesKeys)
    ensures NO_KEYS.Union(keys) == keys && keys.Difference(NO_KEYS) == keys
  {
  }

  lemma Regroup(own: BouncerWeights, ownT: BouncerWeights, shared: BouncerWeights, sharedT: BouncerWeights)
    ensures own.Plus(ownT).Plus(shared.Plus(sharedT)) == own.Plus(shared).Plus(ownT.Plus(sharedT))
  {
  }

  lemma {:induction false} OwnStep(txs: seq<Tx>, t: Tx)
    ensures OwnWeights(txs + [t]) == OwnWeights(txs).Plus(t.OwnWeight())
  {
    assert Init(txs + [t]) == txs;
  }

  /** Charging each transaction its margin adds up to the batch formula. */
  lemma {:induction false} MarginsAddUp(costs: ClassCosts, txs: seq<Tx>, t: Tx)
    ensures BlockWeight(costs, txs + [t]) == BlockWeight(costs, txs).Plus(MarginalWeight(costs, txs, t))
  {
    if txs == [] {
      assert txs + [t] == [t];
      SingletonBlock(costs, t);
      MarginInEmptyBlock(costs, txs, t);
      ZeroPlus(MarginalWeight(costs, txs, t));
    } else {
      MarginsAddUpLater(costs, txs, t);
    }
  }

  lemma {:induction false} MarginInEmptyBlock(costs: ClassCosts, txs: seq<Tx>, t: Tx)
    requires txs == []
    ensures MarginalWeight(costs, txs, t) ==
            t.OwnWeight().Plus(SharedWeight(costs, t.executedClassHashes, |t.visitedStorageEntries|, t.stateChangesKeys))
  {
    NoKeysUnion(t.stateChangesKeys);
    assert t.executedClassHashes - ClassesOf(txs) == t.executedClassHashes;
    assert t.visitedStorageEntries - EntriesOf(txs) == t.visitedStorageEntries;
  }

  lemma {:induction false} MarginsAddUpLater(costs: ClassCosts, txs: seq<Tx>, t: Tx)
    requires txs != []
    ensures BlockWeight(costs, txs + [t]) == BlockWeight(costs, txs).Plus(MarginalWeight(costs, txs, t))
  {
    OwnStep(txs, t);
    UnionsStep(txs, t);
    var classes, entries, keys := ClassesOf(txs), EntriesOf(txs), KeysOf(txs);
    SharedWeightSplits(costs, classes, entries, keys, t);
    Regroup(OwnWeights(txs), t.OwnWeight(), SharedWeight(costs, classes, |entries|, keys),
            SharedWeight(costs, t.executedClassHashes - classes, |t.visitedStorageEntries - entries|,
                         t.stateChangesKeys.Difference(keys)));
  }

  /** The bouncer's incremental state is that of the batch formula. */
  ghost predicate Books(costs: ClassCosts, classes: set<ClassHash>, entries: set<StorageEntry>, keys: StateChangesKeys,
                        weights: BouncerWeights, txs: seq<Tx>) {
    && classes == ClassesOf(txs)
    && entries == EntriesOf(txs)
    && keys == KeysOf(txs)
    && weights == BlockWeight(costs, txs)
  }

  /** Adding the margins of one more transaction keeps the books. */
  lemma {:induction false} BooksStep(costs: ClassCosts, classes: set<ClassHash>, entries: set<StorageEntry>,
                                     keys: StateChangesKeys, weights: BouncerWeights, txs: seq<Tx>, t: Tx)
    requires Books(costs, classes, entries, keys, weights, txs)
    ensures BlockWeight(costs, txs + [t]) == weights.Plus(MarginalWeight(costs, txs, t))
    ensures Books(costs, classes + t.executedClassHashes, entries + t.visitedStorageEntries,
                  keys.Union(t.stateChangesKeys.Difference(keys)), weights.Plus(MarginalWeight(costs, txs, t)), txs + [t])
  {
    UnionsStep(txs, t);
    KeysSplit(keys, t.stateChangesKeys);
    MarginsAddUp(costs, txs, t);
  }

  // ----- Order does not matter -----

  /** A key of the list belongs to one of its transactions. */
  lemma {:induction false} UnionsByMember(txs: seq<Tx>)
    ensures ClassesOf(txs) == set t, c | t in txs && c in t.executedClassHashes :: c
    ensures EntriesOf(txs) == set t, e | t in txs && e in t.visitedStorageEntries :: e
  {
    if txs != [] {
      UnionsByMember(Init(txs));
      assert txs == Init(txs) + [Last(txs)];
    }
  }

  lemma {:induction false} KeysByMember(txs: seq<Tx>)
    ensures KeysOf(txs) == StateChangesKeys(
                             set t, k | t in txs && k in t.stateChangesKeys.nonceKeys :: k,
                             set t, k | t in txs && k in t.stateChangesKeys.classHashKeys :: k,
                             set t, k | t in txs && k in t.stateChangesKeys.storageKeys :: k,
                             set t, k | t in txs && k in t.stateChangesKeys.compiledClassHashKeys :: k,
                             set t, k | t in txs && k in t.stateChangesKeys.modifiedContracts :: k)
  {
    if txs != [] {
      KeysByMember(Init(txs));
      assert txs == Init(txs) + [Last(txs)];
    }
  }

  lemma {:induction false} SameTransactions(a: seq<Tx>, b: seq<Tx>)
    requires forall t :: t in a <==> t in b
    ensures ClassesOf(a) == ClassesOf(b) && EntriesOf(a) == EntriesOf(b) && KeysOf(a) == KeysOf(b)
  {
    UnionsByMember(a);
    UnionsByMember(b);
    KeysByMember(a);
    KeysByMember(b);
  }

  /** The weight of a block does not depend on the order of its transactions. */
  lemma {:induction false} BlockWeightOfPermutation(costs: ClassCosts, a: seq<Tx>, b: seq<Tx>)
    requires multiset(a) == multiset(b)
    ensures BlockWeight(costs, a) == BlockWeight(costs, b)
    ensures Countable(costs, a) <==> Countable(costs, b)
  {
    assert |multiset(a)| == |a| && |multiset(b)| == |b|;
    forall t ensures t in a <==> t in b {
      assert t in a <==> t in multiset(a);
      assert t in b <==> t in multiset(b);
    }
    SameTransactions(a, b);
    WeightsAreMonoid();
    OwnWeightsAreSum(a);
    OwnWeightsAreSum(b);
    SeqSumPermutation(a, b, OWN, ZERO, PLUS);
  }

  // ----- A part of a block weighs no more than the block -----

  lemma {:induction false} PrefixWeighsLess(costs: ClassCosts, txs: seq<Tx>, t: Tx)
    ensures BlockWeight(costs, txs).Leq(BlockWeight(costs, txs + [t]))
    ensures Countable(costs, txs + [t]) ==> Countable(costs, txs)
  {
    MarginsAddUp(costs, txs, t);
    UnionsStep(txs, t);
    if Countable(costs, txs + [t]) {
      assert forall x :: x in txs ==> x in txs + [t];
    }
  }

  /** Some transaction of `b` is in `a` fewer times. */
  lemma {:induction false} ExtraTransaction(a: seq<Tx>, b: seq<Tx>) returns (i: nat)
    requires multiset(a) < multiset(b)
    ensures i < |b| && multiset(a)[b[i]] < multiset(b)[b[i]]
  {
    var t :| t in multiset(b) && multiset(a)[t] < multiset(b)[t];
    assert t in b;
    i :| 0 <= i < |b| && b[i] == t;
  }

  /** Any sub-collection of a block weighs no more, in any order. */
  lemma {:induction false} SubBlockWeighsLess(costs: ClassCosts, a: seq<Tx>, b: seq<Tx>)
    requires multiset(a) <= multiset(b)
    ensures BlockWeight(costs, a).Leq(BlockWeight(costs, b))
    ensures Countable(costs, b) ==> Countable(costs, a)
    decreases |b|
  {
    if multiset(a) == multiset(b) {
      BlockWeightOfPermutation(costs, a, b);
    } else {
      var i := ExtraTransaction(a, b);
      var rest := Without(b, i);
      MultisetWithout(b, i);
      SubBlockWeighsLess(costs, a, rest);
      PrefixWeighsLess(costs, rest, b[i]);
      BlockWeightOfPermutation(costs, rest + [b[i]], b);
    }
  }

  /** A block that fits has only parts that fit; in particular every order of it fits. */
  lemma SubBlockFits(costs: ClassCosts, capacity: BouncerWeights, a: seq<Tx>, b: seq<Tx>)
    requires multiset(a) <= multiset(b) && Fits(costs, capacity, b)
    ensures Fits(costs, capacity, a)
  {
    SubBlockWeighsLess(costs, a, b);
  }

  /** A transaction accepted after some history is accepted after any sub-history. */
  lemma AcceptanceIsMonotone(costs: ClassCosts, capacity: BouncerWeights, sub: seq<Tx>, history: seq<Tx>, t: Tx)
    requires multiset(sub) <= multiset(history) && Fits(costs, capacity, history + [t])
    ensures Fits(costs, capacity, sub + [t])
  {
    assert multiset(sub + [t]) == multiset(sub) + multiset{t};
    assert multiset(history + [t]) == multiset(history) + multiset{t};
    SubBlockFits(costs, capacity, sub + [t], history + [t]);
  }
}
