/**
 The block executor as a state machine: a ledger of stored blocks with a reader, and the class cache
 beside it. The ledger alone is an executor without a cache; the cache is transparent when both see
 the same classes in every run.
 */
module ExecutorSpec {
  import opened Wrappers
  import opened ChainTypes
  import opened ClassReads
  import opened VersionedTables
  import C = StateHistory
  import H = HeaderSpec
  import S = StateSpec

  /** A Cairo 1 class as a block brings it. */
  datatype DeclaredClass = DeclaredClass(sierra: SierraClass, casm: Casm)

  /** The entries whose hash is not known yet. */
  function Unknown<V>(list: seq<(ClassHash, V)>, known: set<ClassHash>): seq<(ClassHash, V)> {
    if list == [] then []
    else
      var last := list[|list| - 1];
      Unknown(list[..|list| - 1], known) + if last.0 in known then [] else [last]
  }

  /** The Cairo 1 classes declared before block `n`. */
  function DeclaredBefore(t: StateTables, n: nat): set<ClassHash> {
    set h | h in t.declaredClassesBlock && t.declaredClassesBlock[h] < n
  }

  /** The Cairo 0 classes brought before block `n`. */
  function DeprecatedBefore(t: StateTables, n: nat): set<ClassHash> {
    set h | h in t.deprecatedClasses && t.deprecatedClasses[h].blockNumber < n
  }

  function Sierras(list: seq<(ClassHash, DeclaredClass)>): seq<(ClassHash, SierraClass)> {
    seq(|list|, i requires 0 <= i < |list| => (list[i].0, list[i].1.sierra))
  }

  /** What a block does to contracts: the classes it gives them, the storage values and nonces it sets. */
  datatype ContractUpdates = ContractUpdates(
    classHashes: map<Address, ClassHash>,
    storage: map<StorageKey, Felt>,
    nonces: map<Address, Nonce>)

  /** The contracts that have a class before block `n`. */
  function Assigned(blocks: S.Blocks, n: nat): set<Address> {
    Replay(C.ClassChanges(S.ContractDiffs(blocks)), n).Keys
  }

  /** A contract that has a class gets another; one that has none is deployed. */
  function SplitContracts(updates: ContractUpdates, withClass: set<Address>): (diff: ContractDiff)
    ensures diff.Exclusive() && diff.ClassChange() == updates.classHashes
  {
    ContractDiff(updates.classHashes - withClass, updates.storage, updates.nonces,
                 map a | a in updates.classHashes && a in withClass :: updates.classHashes[a])
  }

  /** The block of state that `append_block` builds from its inputs: known classes are dropped. */
  function NewBlock(t: StateTables, n: nat, declared: seq<(ClassHash, DeclaredClass)>,
                    deprecated: seq<(ClassHash, DeprecatedClass)>, contracts: ContractDiff): S.StateBlock {
    var newClasses := Unknown(declared, DeclaredBefore(t, n));
    var newDeprecated := Unknown(deprecated, DeprecatedBefore(t, n));
    S.StateBlock(ThinStateDiff(S.Hashes(newClasses), S.Hashes(newDeprecated), contracts), Sierras(newClasses), newDeprecated)
  }

  lemma {:induction false} UnknownHashes<V>(list: seq<(ClassHash, V)>, known: set<ClassHash>)
    requires S.NoDuplicates(S.Hashes(list))
    ensures forall h :: h in S.Hashes(Unknown(list, known)) <==> h in S.Hashes(list) && h !in known
    ensures S.NoDuplicates(S.Hashes(Unknown(list, known)))
  {
    if list != [] {
      var n := |list| - 1;
      var init := list[..n];
      assert S.Hashes(list) == S.Hashes(init) + [list[n].0];
      InitDistinct(S.Hashes(init), list[n].0);
      UnknownHashes(init, known);
      assert S.Hashes(Unknown(init, known) + [list[n]]) == S.Hashes(Unknown(init, known)) + [list[n].0];
      assert Unknown(init, known) + [] == Unknown(init, known);
    }
  }

  lemma {:induction false} InitDistinct(init: seq<ClassHash>, h: ClassHash)
    requires S.NoDuplicates(init + [h])
    ensures S.NoDuplicates(init) && h !in init
  {
    forall i, j | 0 <= i < j < |init| ensures init[i] != init[j] {
      assert (init + [h])[i] != (init + [h])[j];
    }
    forall i | 0 <= i < |init| ensures init[i] != h {
      assert (init + [h])[i] != (init + [h])[|init|];
    }
  }

  function Casms(list: seq<(ClassHash, DeclaredClass)>): seq<(ClassHash, Casm)> {
    seq(|list|, i requires 0 <= i < |list| => (list[i].0, list[i].1.casm))
  }

  // ----- The state machine -----

  /** Stored headers, state blocks and CASMs, and the latest block of the reader in use, if any. */
  datatype Ledger = Ledger(chain: H.Chain, blocks: S.Blocks, casms: map<ClassHash, Casm>, reader: Option<nat>)

  datatype Executor = Executor(ledger: Ledger, cache: Cache)

  const EMPTY_EXECUTOR := Executor(Ledger([], [], map[], None), map[])

  /** The state tables of a ledger. */
  function TablesOf(l: Ledger): StateTables {
    StateTables(S.DiffsOf(l.blocks), S.DeclaredBlocksOf(l.blocks), S.ClassesOf(l.blocks), S.DeprecatedOf(l.blocks), l.casms)
  }

  datatype Op =
    | Append(n: nat, header: BlockHeader, declared: seq<(ClassHash, DeclaredClass)>,
             deprecated: seq<(ClassHash, DeprecatedClass)>, updates: ContractUpdates)
    | Revert(n: nat)
    | Setup(n: nat)
    | Teardown
    | ReadClass(h: ClassHash, evicted: set<ClassHash>)
  {
    /** A block comes with each class once. */
    ghost predicate Distinct() {
      Append? ==> S.NoDuplicates(S.Hashes(declared)) && S.NoDuplicates(S.Hashes(deprecated))
    }

    /** A block comes with hashes of the right kind. */
    ghost predicate KindsRight(cairo1: iset<ClassHash>) {
      Append? ==>
        && (forall h <- S.Hashes(declared) :: h in cairo1)
        && (forall h <- S.Hashes(deprecated) :: h !in cairo1)
    }
  }

  /** The block of state that an append adds to the ledger. */
  function BlockOf(l: Ledger, op: Op): S.StateBlock
    requires op.Append?
  {
    NewBlock(TablesOf(l), op.n, op.declared, op.deprecated, SplitContracts(op.updates, Assigned(l.blocks, op.n)))
  }

  function AppendTo(l: Ledger, op: Op): Ledger
    requires op.Append?
  {
    var t := TablesOf(l);
    l.(chain := l.chain + [H.Entry(op.header, None)],
       blocks := l.blocks + [BlockOf(l, op)],
       casms := l.casms + S.FirstWins(Casms(Unknown(op.declared, DeclaredBefore(t, op.n)))))
  }

  /** Headers and state diffs are reverted each if block `n` is its last. */
  function RevertFrom(l: Ledger, n: nat): Ledger {
    var shorter := if n + 1 == |l.chain| then l.(chain := l.chain[..n]) else l;
    if n + 1 == |l.blocks| then
      shorter.(blocks := S.Init(l.blocks), casms := l.casms - S.Elems(S.Last(l.blocks).diff.declaredClasses))
    else shorter
  }

  ghost predicate Accepts(l: Ledger, op: Op)
    requires op.Append?
  {
    op.n == |l.blocks| == |l.chain| && !H.HasHash(l.chain, op.header.blockHash)
  }

  ghost function LedgerStep(l: Ledger, op: Op): Ledger {
    match op
    case Append(_, _, _, _, _) => if Accepts(l, op) then AppendTo(l, op) else l
    case Revert(n) => RevertFrom(l, n)
    case Setup(n) => if |l.chain| == |l.blocks| == n then l.(reader := Some(n)) else l
    case Teardown => l.(reader := None)
    case ReadClass(_, _) => l
  }

  /** A revert clears the cache; a read that misses adds what it found, and some entries may be evicted. */
  ghost function CacheStep(s: Executor, op: Op): Cache {
    match op
    case Revert(_) => map[]
    case ReadClass(h, evicted) =>
      if s.ledger.reader.None? || h in s.cache then s.cache
      else
        var r := UncachedRead(TablesOf(s.ledger), s.ledger.reader.value, h);
        if r.Ok? then s.cache[h := r.value] - evicted else s.cache
    case _ => s.cache
  }

  ghost function Step(s: Executor, op: Op): Executor {
    Executor(LedgerStep(s.ledger, op), CacheStep(s, op))
  }

  /** What a read returns, with the cache. */
  ghost function ReadOf(s: Executor, op: Op): seq<ReadResult> {
    if op.ReadClass? && s.ledger.reader.Some?
    then [CachedRead(TablesOf(s.ledger), s.cache, s.ledger.reader.value, op.h).0] else []
  }

  /** What a read returns, without any cache. */
  ghost function PlainReadOf(l: Ledger, op: Op): seq<ReadResult> {
    if op.ReadClass? && l.reader.Some? then [UncachedRead(TablesOf(l), l.reader.value, op.h)] else []
  }

  // ----- Runs -----

  ghost function RunOps(s: Executor, ops: seq<Op>): Executor {
    if ops == [] then s else Step(RunOps(s, ops[..|ops| - 1]), ops[|ops| - 1])
  }

  /** What the reads of a run return, one after the other. */
  ghost function Reads(s: Executor, ops: seq<Op>): seq<ReadResult> {
    if ops == [] then []
    else Reads(s, ops[..|ops| - 1]) + ReadOf(RunOps(s, ops[..|ops| - 1]), ops[|ops| - 1])
  }

  ghost function RunLedger(l: Ledger, ops: seq<Op>): Ledger {
    if ops == [] then l else LedgerStep(RunLedger(l, ops[..|ops| - 1]), ops[|ops| - 1])
  }

  /** What the reads of the same run return in an executor without a cache. */
  ghost function PlainReads(l: Ledger, ops: seq<Op>): seq<ReadResult> {
    if ops == [] then []
    else PlainReads(l, ops[..|ops| - 1]) + PlainReadOf(RunLedger(l, ops[..|ops| - 1]), ops[|ops| - 1])
  }

  // ----- What every reachable state satisfies -----

  ghost predicate LedgerInv(l: Ledger, cairo1: iset<ClassHash>) {
    |l.chain| == |l.blocks| && BlocksSound(l.blocks, l.casms) && KindsDisjoint(l.blocks, cairo1)
  }

  /** The cache holds what the blocks say, and only what the reader in use sees. */
  ghost predicate Inv(s: Executor, cairo1: iset<ClassHash>) {
    && LedgerInv(s.ledger, cairo1)
    && CacheSound(s.cache, s.ledger.blocks, s.ledger.casms)
    && (s.ledger.reader.Some? ==> CacheVisible(TablesOf(s.ledger), s.cache, s.ledger.reader.value))
  }

  /** Nothing that the block brings has a row yet. */
  ghost predicate Fresh(t: StateTables, block: S.StateBlock, casms: seq<(ClassHash, Casm)>) {
    && S.AllFresh(S.Hashes(casms), t.casms)
    && S.AllFresh(block.diff.declaredClasses, t.declaredClassesBlock)
    && S.AllFresh(S.Hashes(block.classes), t.declaredClasses)
  }

  /** What the block built for the end of the list brings: only new classes, that fit its diff. */
  lemma {:induction false} NewBlockFits(l: Ledger, op: Op)
    requires BlocksSound(l.blocks, l.casms) && op.Append? && op.Distinct() && op.n == |l.blocks|
    ensures var t := TablesOf(l);
            var block := BlockOf(l, op);
            && block.Fits()
            && Fresh(t, block, Casms(Unknown(op.declared, DeclaredBefore(t, op.n))))
            && (forall h <- block.diff.declaredClasses :: h in S.Hashes(op.declared) && h !in l.casms)
            && (forall h <- S.Hashes(block.deprecatedClasses) :: h in S.Hashes(op.deprecated))
  {
    var t := TablesOf(l);
    var block := BlockOf(l, op);
    var newClasses := Unknown(op.declared, DeclaredBefore(t, op.n));
    UnknownHashes(op.declared, DeclaredBefore(t, op.n));
    UnknownHashes(op.deprecated, DeprecatedBefore(t, op.n));
    assert S.Hashes(Sierras(newClasses)) == S.Hashes(newClasses) == S.Hashes(Casms(newClasses));
    forall h <- block.diff.declaredClasses ensures h !in t.declaredClassesBlock && h !in t.declaredClasses && h !in t.casms {
      S.DeclaredBlockAt(l.blocks, h);
      S.ClassAt(l.blocks, h);
      assert h in t.casms <==> h in S.Elems(S.Declared(l.blocks));
    }
    forall h | h in S.FirstWins(block.deprecatedClasses) ensures h in block.diff.deprecatedDeclaredClasses {
      S.FirstWinsKeys(block.deprecatedClasses, h);
    }
  }

  lemma {:induction false} NewCasmKeys(casms: map<ClassHash, Casm>, newClasses: seq<(ClassHash, DeclaredClass)>)
    requires forall h <- S.Hashes(newClasses) :: h !in casms
    ensures var casms' := casms + S.FirstWins(Casms(newClasses));
            && casms'.Keys == casms.Keys + S.Elems(S.Hashes(newClasses))
            && (forall c <- casms :: c in casms' && casms'[c] == casms[c])
  {
    assert S.Hashes(Casms(newClasses)) == S.Hashes(newClasses);
    forall h ensures h in S.FirstWins(Casms(newClasses)) <==> h in S.Hashes(newClasses) {
      S.FirstWinsKeys(Casms(newClasses), h);
    }
  }

  // ----- Every step keeps the invariant -----

  /** The blocks of known classes are not touched by a new block. */
  lemma {:induction false} AppendKeepsVisible(l: Ledger, l': Ledger, block: S.StateBlock, cache: Cache, latest: nat)
    requires l'.blocks == l.blocks + [block] && S.AllFresh(block.diff.declaredClasses, S.DeclaredBlocksOf(l.blocks))
    requires CacheVisible(TablesOf(l), cache, latest)
    ensures CacheVisible(TablesOf(l'), cache, latest)
  {
    S.AppendTables(l.blocks, block);
  }

  lemma {:induction false} AppendKeepsInv(s: Executor, op: Op, cairo1: iset<ClassHash>)
    requires Inv(s, cairo1) && op.Append? && op.Distinct() && op.KindsRight(cairo1)
    ensures Inv(Step(s, op), cairo1)
  {
    var l := s.ledger;
    if Accepts(l, op) {
      var t := TablesOf(l);
      var block := BlockOf(l, op);
      var newClasses := Unknown(op.declared, DeclaredBefore(t, op.n));
      var l' := AppendTo(l, op);
      NewBlockFits(l, op);
      NewCasmKeys(l.casms, newClasses);
      AppendKeepsBlocksSound(l.blocks, block, l.casms, l'.casms);
      AppendKeepsKinds(l.blocks, block, cairo1);
      AppendKeepsCache(s.cache, l.blocks, block, l.casms, l'.casms, cairo1);
      if l.reader.Some? {
        AppendKeepsVisible(l, l', block, s.cache, l.reader.value);
      }
    }
  }

  lemma {:induction false} RevertKeepsInv(s: Executor, n: nat, cairo1: iset<ClassHash>)
    requires Inv(s, cairo1)
    ensures Inv(Step(s, Revert(n)), cairo1)
  {
    if n + 1 == |s.ledger.blocks| {
      RevertKeepsBlocksSound(s.ledger.blocks, s.ledger.casms);
      RevertKeepsKinds(s.ledger.blocks, cairo1);
    }
  }

  /** A new reader is at the end of the list and sees whatever is cached. */
  lemma {:induction false} SetupKeepsInv(s: Executor, n: nat, cairo1: iset<ClassHash>)
    requires Inv(s, cairo1)
    ensures Inv(Step(s, Setup(n)), cairo1)
  {
    var l := s.ledger;
    if |l.chain| == |l.blocks| == n {
      forall h <- s.cache ensures VisibleAt(TablesOf(l), n, h) {
        S.DeclaredBlockAt(l.blocks, h);
        S.DeprecatedAt(l.blocks, h);
      }
    }
  }

  lemma {:induction false} ReadKeepsInv(s: Executor, op: Op, cairo1: iset<ClassHash>)
    requires Inv(s, cairo1) && op.ReadClass?
    ensures Inv(Step(s, op), cairo1)
  {
    var l := s.ledger;
    if l.reader.Some? {
      CachedReadKeepsCache(TablesOf(l), l.blocks, cairo1, s.cache, l.reader.value, op.h);
      var full := CachedRead(TablesOf(l), s.cache, l.reader.value, op.h).1;
      assert forall h <- Step(s, op).cache :: h in full && full[h] == Step(s, op).cache[h];
    }
  }

  lemma {:induction false} StepKeepsInv(s: Executor, op: Op, cairo1: iset<ClassHash>)
    requires Inv(s, cairo1) && op.Distinct() && op.KindsRight(cairo1)
    ensures Inv(Step(s, op), cairo1)
  {
    match op
    case Append(_, _, _, _, _) => AppendKeepsInv(s, op, cairo1);
    case Revert(n) => RevertKeepsInv(s, n, cairo1);
    case Setup(n) => SetupKeepsInv(s, n, cairo1);
    case Teardown =>
    case ReadClass(_, _) => ReadKeepsInv(s, op, cairo1);
  }

  /** A cached read returns what the uncached read returns, whether or not the reader is still aligned. */
  lemma {:induction false} ReadIsPlain(s: Executor, op: Op, cairo1: iset<ClassHash>)
    requires Inv(s, cairo1)
    ensures ReadOf(s, op) == PlainReadOf(s.ledger, op)
  {
    var l := s.ledger;
    if op.ReadClass? && l.reader.Some? {
      CachedReadIff(TablesOf(l), l.blocks, cairo1, s.cache, l.reader.value, op.h);
    }
  }

  ghost predicate AllowedOps(ops: seq<Op>, cairo1: iset<ClassHash>) {
    forall op <- ops :: op.Distinct() && op.KindsRight(cairo1)
  }

  lemma {:induction false} EveryRunKeepsInv(s: Executor, ops: seq<Op>, cairo1: iset<ClassHash>)
    requires Inv(s, cairo1) && AllowedOps(ops, cairo1)
    ensures Inv(RunOps(s, ops), cairo1) && RunOps(s, ops).ledger == RunLedger(s.ledger, ops)
  {
    if ops != [] {
      var init, op := ops[..|ops| - 1], ops[|ops| - 1];
      assert op in ops && forall o <- init :: o in ops;
      EveryRunKeepsInv(s, init, cairo1);
      StepKeepsInv(RunOps(s, init), op, cairo1);
    }
  }

  /**
   Over any interleaving of appends, reverts, set-ups, evictions and reads, the executor returns the
   same classes, one by one, as the executor without a cache.
   */
  lemma {:induction false} CacheIsTransparent(s: Executor, ops: seq<Op>, cairo1: iset<ClassHash>)
    requires Inv(s, cairo1) && AllowedOps(ops, cairo1)
    ensures Reads(s, ops) == PlainReads(s.ledger, ops)
  {
    if ops != [] {
      var init, op := ops[..|ops| - 1], ops[|ops| - 1];
      assert forall o <- init :: o in ops;
      CacheIsTransparent(s, init, cairo1);
      EveryRunKeepsInv(s, init, cairo1);
      ReadIsPlain(RunOps(s, init), op, cairo1);
    }
  }

  // ----- Deployed and replaced contracts -----

  /** Every block deploys only contracts without a class, and replaces only classes of contracts with one. */
  ghost predicate ContractsInOrder(blocks: S.Blocks) {
    forall b: nat :: b < |blocks| ==>
      && blocks[b].diff.contracts.deployed.Keys !! Assigned(blocks, b)
      && blocks[b].diff.contracts.replaced.Keys <= Assigned(blocks, b)
  }

  lemma {:induction false} AppendKeepsAssigned(blocks: S.Blocks, block: S.StateBlock, b: nat)
    requires b <= |blocks|
    ensures Assigned(blocks + [block], b) == Assigned(blocks, b)
  {
    var diffs, diff := S.ContractDiffs(blocks), block.diff.contracts;
    assert S.ContractDiffs(blocks + [block]) == diffs + [diff];
    assert (diffs + [diff])[..|diffs|] == diffs;
    LaterBlocksDoNotMatter(C.ClassChanges(diffs), [diff.ClassChange()], b);
  }

  lemma {:induction false} AppendKeepsOrder(l: Ledger, op: Op)
    requires ContractsInOrder(l.blocks) && op.Append? && op.n == |l.blocks|
    ensures ContractsInOrder(l.blocks + [BlockOf(l, op)])
  {
    var longer := l.blocks + [BlockOf(l, op)];
    forall b: nat | b < |longer|
      ensures longer[b].diff.contracts.deployed.Keys !! Assigned(longer, b)
      ensures longer[b].diff.contracts.replaced.Keys <= Assigned(longer, b)
    {
      AppendKeepsAssigned(l.blocks, BlockOf(l, op), b);
      assert b < |l.blocks| ==> longer[b] == l.blocks[b];
    }
  }

  lemma {:induction false} RevertKeepsOrder(blocks: S.Blocks)
    requires blocks != [] && ContractsInOrder(blocks)
    ensures ContractsInOrder(S.Init(blocks))
  {
    var init := S.Init(blocks);
    assert init + [S.Last(blocks)] == blocks;
    forall b: nat | b < |init|
      ensures init[b].diff.contracts.deployed.Keys !! Assigned(init, b)
      ensures init[b].diff.contracts.replaced.Keys <= Assigned(init, b)
    {
      AppendKeepsAssigned(init, S.Last(blocks), b);
      assert init[b] == blocks[b];
    }
  }

  lemma {:induction false} EveryRunKeepsOrder(l: Ledger, ops: seq<Op>)
    requires ContractsInOrder(l.blocks)
    ensures ContractsInOrder(RunLedger(l, ops).blocks)
  {
    if ops != [] {
      var init, op := ops[..|ops| - 1], ops[|ops| - 1];
      EveryRunKeepsOrder(l, init);
      var before := RunLedger(l, init);
      if op.Append? && Accepts(before, op) {
        AppendKeepsOrder(before, op);
      } else if op.Revert? && op.n + 1 == |before.blocks| {
        RevertKeepsOrder(before.blocks);
      }
    }
  }

  lemma {:induction false} DeployedIsAssigned(blocks: S.Blocks, b: nat, c: nat, a: Address)
    requires b < c <= |blocks| && a in blocks[b].diff.contracts.deployed
    ensures a in Assigned(blocks, c)
  {
    var diffs := S.ContractDiffs(blocks);
    C.ChangesAt(diffs, b);
    assert a in C.ClassChanges(diffs)[b];
    ReplayKeys(C.ClassChanges(diffs), c, a);
  }

  /**
   Over any run from an empty storage, no two stored blocks deploy the same contract, and a block
   replaces only classes of contracts that an earlier stored block gave one.
   */
  lemma {:induction false} DeployedOnce(ops: seq<Op>, b: nat, c: nat)
    requires b < c < |RunLedger(EMPTY_EXECUTOR.ledger, ops).blocks|
    ensures var blocks := RunLedger(EMPTY_EXECUTOR.ledger, ops).blocks;
            && blocks[b].diff.contracts.deployed.Keys !! blocks[c].diff.contracts.deployed.Keys
            && blocks[c].diff.contracts.replaced.Keys <= Assigned(blocks, c)
  {
    EveryRunKeepsOrder(EMPTY_EXECUTOR.ledger, ops);
    var blocks := RunLedger(EMPTY_EXECUTOR.ledger, ops).blocks;
    forall a | a in blocks[b].diff.contracts.deployed ensures a !in blocks[c].diff.contracts.deployed {
      DeployedIsAssigned(blocks, b, c, a);
    }
  }
}
