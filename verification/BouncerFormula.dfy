/**
 The weight of a block, component by component: what its transactions use, what hashing its classes
 costs, and fixed prices for visited storage entries and changed keys.
 */
module BouncerFormula {
  import opened Sums
  import opened BouncerSpec

  /** The components of a weight. */
  datatype Component =
    | AddMod | Bitwise | Ecdsa | EcOp | Keccak | MulMod | Pedersen | Poseidon | RangeCheck | RangeCheck96
    | Steps | L1Gas | MessageSegmentLength | Events | SierraGas | StateDiffSize

  function Weighed(w: BouncerWeights, c: Component): nat {
    match c
    case AddMod => w.builtinCount.addMod
    case Bitwise => w.builtinCount.bitwise
    case Ecdsa => w.builtinCount.ecdsa
    case EcOp => w.builtinCount.ecOp
    case Keccak => w.builtinCount.keccak
    case MulMod => w.builtinCount.mulMod
    case Pedersen => w.builtinCount.pedersen
    case Poseidon => w.builtinCount.poseidon
    case RangeCheck => w.builtinCount.rangeCheck
    case RangeCheck96 => w.builtinCount.rangeCheck96
    case Steps => w.nSteps
    case L1Gas => w.l1Gas
    case MessageSegmentLength => w.messageSegmentLength
    case Events => w.nEvents
    case SierraGas => w.sierraGas
    case StateDiffSize => w.stateDiffSize
  }

  /** What VM resources use; a memory hole counts as one step, an instance of the segment arena as 10. */
  function VmUse(r: ExecutionResources, c: Component): nat {
    match c
    case AddMod => r.proverBuiltins.addMod
    case Bitwise => r.proverBuiltins.bitwise
    case Ecdsa => r.proverBuiltins.ecdsa
    case EcOp => r.proverBuiltins.ecOp
    case Keccak => r.proverBuiltins.keccak
    case MulMod => r.proverBuiltins.mulMod
    case Pedersen => r.proverBuiltins.pedersen
    case Poseidon => r.proverBuiltins.poseidon
    case RangeCheck => r.proverBuiltins.rangeCheck
    case RangeCheck96 => r.proverBuiltins.rangeCheck96
    case Steps => r.nSteps + r.nMemoryHoles + 10 * r.segmentArena
    case _ => 0
  }

  function TxUse(t: Tx, c: Component): nat {
    match c
    case L1Gas => t.l1Gas
    case MessageSegmentLength => t.messageSegmentLength
    case Events => t.nEvents
    case SierraGas => t.sierraGas
    case _ => VmUse(t.vmResources, c)
  }

  /** The price of a visited entry: it lies 24 levels deep, and a level takes 32 steps and 2 Pedersen hashes. */
  function EntryUse(c: Component): nat {
    if c == Steps then 768 else if c == Pedersen then 48 else 0
  }

  /** The on-chain words of the changed keys: a class update takes one, every other change two. */
  function KeysUse(keys: StateChangesKeys, c: Component): nat {
    if c == StateDiffSize then
      2 * |keys.modifiedContracts| + |keys.classHashKeys| + 2 * |keys.storageKeys| + 2 * |keys.compiledClassHashKeys|
    else 0
  }

  /** What the transactions use together. */
  ghost function TxTotal(txs: seq<Tx>, c: Component): nat {
    if txs == [] then 0 else TxTotal(Init(txs), c) + TxUse(Last(txs), c)
  }

  const ADD: (nat, nat) -> nat := (a: nat, b: nat) => a + b

  function HashingUse(costs: ClassCosts, c: Component): ClassHash -> nat {
    (h: ClassHash) => if h in costs then VmUse(costs[h], c) else 0
  }

  /** What hashing the classes uses together. */
  ghost function ClassTotal(costs: ClassCosts, classes: set<ClassHash>, c: Component): nat {
    SetSum<ClassHash, nat>(classes, HashingUse(costs, c), 0, ADD)
  }

  /** The weight of transactions that pay for these classes, this number of visited entries and these changed keys. */
  ghost predicate IsWeightOf(w: BouncerWeights, costs: ClassCosts, txs: seq<Tx>, classes: set<ClassHash>, nEntries: nat, keys: StateChangesKeys) {
    forall c: Component ::
      Weighed(w, c) == TxTotal(txs, c) + ClassTotal(costs, classes, c) + EntryUse(c) * nEntries + KeysUse(keys, c)
  }

  // ----- Its three parts -----

  lemma {:induction false} WeighedPlus(a: BouncerWeights, b: BouncerWeights, c: Component)
    ensures Weighed(a.Plus(b), c) == Weighed(a, c) + Weighed(b, c)
  {
  }

  lemma {:induction false} OwnPart(txs: seq<Tx>, c: Component)
    ensures Weighed(OwnWeights(txs), c) == TxTotal(txs, c)
  {
    if txs != [] {
      OwnPart(Init(txs), c);
      WeighedPlus(OwnWeights(Init(txs)), Last(txs).OwnWeight(), c);
      OwnWeighed(Last(txs), c);
    }
  }

  lemma {:induction false} OwnWeighed(t: Tx, c: Component)
    ensures Weighed(t.OwnWeight(), c) == TxUse(t, c)
  {
  }

  lemma {:induction false} ClassWeighed(costs: ClassCosts, h: ClassHash, c: Component)
    ensures Weighed(ClassWeight(costs, h), c) == HashingUse(costs, c)(h)
  {
  }

  function Weigher(c: Component): BouncerWeights -> nat {
    (w: BouncerWeights) => Weighed(w, c)
  }

  lemma {:induction false} WeigherIsAdditive(c: Component)
    ensures IsAdditive<BouncerWeights, nat>(Weigher(c), ZERO, PLUS, 0, ADD)
  {
    forall a: BouncerWeights, b: BouncerWeights ensures Weigher(c)(PLUS(a, b)) == ADD(Weigher(c)(a), Weigher(c)(b)) {
      WeighedPlus(a, b, c);
    }
  }

  lemma {:induction false} NatIsMonoid()
    ensures IsCommutativeMonoid<nat>(0, ADD)
  {
  }

  lemma {:induction false} MeasuredCasm(costs: ClassCosts, classes: set<ClassHash>, c: Component)
    requires forall h <- classes :: Weigher(c)(ClassWeigher(costs)(h)) == HashingUse(costs, c)(h)
    ensures Weigher(c)(SetSum(classes, ClassWeigher(costs), ZERO, PLUS)) == SetSum<ClassHash, nat>(classes, HashingUse(costs, c), 0, ADD)
  {
    WeightsAreMonoid();
    NatIsMonoid();
    WeigherIsAdditive(c);
    SetSumMeasured<ClassHash, BouncerWeights, nat>(classes, ClassWeigher(costs), ZERO, PLUS, Weigher(c), HashingUse(costs, c), 0, ADD);
  }

  lemma {:induction false} CasmPart(costs: ClassCosts, classes: set<ClassHash>, c: Component)
    ensures Weighed(CasmWeight(costs, classes), c) == ClassTotal(costs, classes, c)
  {
    forall h <- classes ensures Weigher(c)(ClassWeigher(costs)(h)) == HashingUse(costs, c)(h) {
      ClassWeighed(costs, h, c);
    }
    MeasuredCasm(costs, classes, c);
    CasmWeightIsSum(costs, classes);
  }

  lemma {:induction false} AccessPart(nEntries: nat, keys: StateChangesKeys, c: Component)
    ensures Weighed(AccessWeight(nEntries, keys), c) == EntryUse(c) * nEntries + KeysUse(keys, c)
  {
  }

  /** Own and shared weight together, for any classes, entries and keys to pay for. */
  lemma {:induction false} WeightIs(costs: ClassCosts, txs: seq<Tx>, classes: set<ClassHash>, nEntries: nat, keys: StateChangesKeys)
    ensures IsWeightOf(OwnWeights(txs).Plus(SharedWeight(costs, classes, nEntries, keys)), costs, txs, classes, nEntries, keys)
  {
    var own, casm, access := OwnWeights(txs), CasmWeight(costs, classes), AccessWeight(nEntries, keys);
    forall c: Component
      ensures Weighed(own.Plus(casm.Plus(access)), c)
           == TxTotal(txs, c) + ClassTotal(costs, classes, c) + EntryUse(c) * nEntries + KeysUse(keys, c)
    {
      OwnPart(txs, c);
      CasmPart(costs, classes, c);
      AccessPart(nEntries, keys, c);
      WeighedPlus(casm, access, c);
      WeighedPlus(own, casm.Plus(access), c);
    }
  }

  /** The same for one transaction. */
  lemma {:induction false} TxWeightIs(costs: ClassCosts, tx: Tx, classes: set<ClassHash>, nEntries: nat, keys: StateChangesKeys)
    ensures IsWeightOf(tx.OwnWeight().Plus(SharedWeight(costs, classes, nEntries, keys)), costs, [tx], classes, nEntries, keys)
  {
    WeightIs(costs, [tx], classes, nEntries, keys);
    assert Init([tx]) == [] && Last([tx]) == tx;
    ZeroPlus(tx.OwnWeight());
    assert OwnWeights([tx]) == tx.OwnWeight();
  }

  /** One weight fits in another exactly when each component does. */
  lemma {:induction false} LeqIff(a: BouncerWeights, b: BouncerWeights)
    ensures a.Leq(b) <==> forall c: Component :: Weighed(a, c) <= Weighed(b, c)
  {
    if forall c: Component :: Weighed(a, c) <= Weighed(b, c) {
      assert Weighed(a, AddMod) <= Weighed(b, AddMod) && Weighed(a, Bitwise) <= Weighed(b, Bitwise);
      assert Weighed(a, Ecdsa) <= Weighed(b, Ecdsa) && Weighed(a, EcOp) <= Weighed(b, EcOp);
      assert Weighed(a, Keccak) <= Weighed(b, Keccak) && Weighed(a, MulMod) <= Weighed(b, MulMod);
      assert Weighed(a, Pedersen) <= Weighed(b, Pedersen) && Weighed(a, Poseidon) <= Weighed(b, Poseidon);
      assert Weighed(a, RangeCheck) <= Weighed(b, RangeCheck) && Weighed(a, RangeCheck96) <= Weighed(b, RangeCheck96);
      assert Weighed(a, Steps) <= Weighed(b, Steps) && Weighed(a, L1Gas) <= Weighed(b, L1Gas);
      assert Weighed(a, MessageSegmentLength) <= Weighed(b, MessageSegmentLength);
      assert Weighed(a, Events) <= Weighed(b, Events) && Weighed(a, SierraGas) <= Weighed(b, SierraGas);
      assert Weighed(a, StateDiffSize) <= Weighed(b, StateDiffSize);
    }
  }

  /** The block fits the capacity exactly when, in each component, what it uses does. */
  lemma {:induction false} FitsIff(costs: ClassCosts, capacity: BouncerWeights, txs: seq<Tx>)
    requires Countable(costs, txs)
    ensures Fits(costs, capacity, txs) <==>
            forall c: Component ::
              TxTotal(txs, c) + ClassTotal(costs, ClassesOf(txs), c) + EntryUse(c) * |EntriesOf(txs)| + KeysUse(KeysOf(txs), c)
              <= Weighed(capacity, c)
  {
    BlockWeightIs(costs, txs);
    LeqIff(BlockWeight(costs, txs), capacity);
  }

  /** A block weighs what its transactions use, plus each class, entry and key once. */
  lemma {:induction false} BlockWeightIs(costs: ClassCosts, txs: seq<Tx>)
    ensures IsWeightOf(BlockWeight(costs, txs), costs, txs, ClassesOf(txs), |EntriesOf(txs)|, KeysOf(txs))
  {
    if txs == [] {
      assert EntriesOf(txs) == {} && ClassesOf(txs) == {};
    } else {
      WeightIs(costs, txs, ClassesOf(txs), |EntriesOf(txs)|, KeysOf(txs));
    }
  }

  /** The formula leaves no choice. */
  lemma {:induction false} WeightIsUnique(a: BouncerWeights, b: BouncerWeights, costs: ClassCosts, txs: seq<Tx>,
                                          classes: set<ClassHash>, nEntries: nat, keys: StateChangesKeys)
    requires IsWeightOf(a, costs, txs, classes, nEntries, keys) && IsWeightOf(b, costs, txs, classes, nEntries, keys)
    ensures a == b
  {
    forall c: Component ensures Weighed(a, c) == Weighed(b, c) {
    }
    SameComponents(a, b);
  }

  lemma {:induction false} SameComponents(a: BouncerWeights, b: BouncerWeights)
    requires forall c: Component :: Weighed(a, c) == Weighed(b, c)
    ensures a == b
  {
    assert Weighed(a, AddMod) == Weighed(b, AddMod) && Weighed(a, Bitwise) == Weighed(b, Bitwise);
    assert Weighed(a, Ecdsa) == Weighed(b, Ecdsa) && Weighed(a, EcOp) == Weighed(b, EcOp);
    assert Weighed(a, Keccak) == Weighed(b, Keccak) && Weighed(a, MulMod) == Weighed(b, MulMod);
    assert Weighed(a, Pedersen) == Weighed(b, Pedersen) && Weighed(a, Poseidon) == Weighed(b, Poseidon);
    assert Weighed(a, RangeCheck) == Weighed(b, RangeCheck) && Weighed(a, RangeCheck96) == Weighed(b, RangeCheck96);
    assert Weighed(a, Steps) == Weighed(b, Steps) && Weighed(a, L1Gas) == Weighed(b, L1Gas);
    assert Weighed(a, MessageSegmentLength) == Weighed(b, MessageSegmentLength);
    assert Weighed(a, Events) == Weighed(b, Events) && Weighed(a, SierraGas) == Weighed(b, SierraGas);
    assert Weighed(a, StateDiffSize) == Weighed(b, StateDiffSize);
  }
}
