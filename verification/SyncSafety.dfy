/** Safety of the sync protocol over whole runs. */
module SyncSafety {
  import opened Wrappers
  import opened ChainTypes
  import opened HeaderSpec
  import opened SyncSpec
  import S = StateSpec

  // ----- Steps that store -----

  lemma {:induction false} AppendKeepsLinked(chain: Chain, e: Entry)
    requires Linked(chain)
    requires chain != [] ==> e.header.parentHash == Last(chain).header.blockHash
    ensures Linked(chain + [e])
  {
    var longer := chain + [e];
    forall i | 0 < i < |longer| ensures longer[i].header.parentHash == longer[i - 1].header.blockHash {
      if i < |chain| {
        assert chain[i].header.parentHash == chain[i - 1].header.blockHash;
      }
    }
  }

  lemma {:induction false} StoreBlockSafe(node: Node, n: nat, block: Block)
    requires Safe(node) && Enabled(node, BlockAvailable(n, block))
    ensures Safe(Next(node, BlockAvailable(n, block)))
  {
    var s := node.state;
    var e := Entry(block.header, Some(block.signature));
    if StoreBlock(s, n, block).1.Pass? {
      AppendKeepsLinked(s.chain, e);
      AppendKeepsHashesDistinct(s.chain, e);
    }
  }

  lemma QueueSurvivesExtension(declared: seq<ClassHash>, more: seq<ClassHash>, k: nat, queue: seq<ClassHash>)
    requires exists i :: QueueAt(declared, k, queue, i)
    ensures exists i :: QueueAt(declared + more, k, queue, i)
  {
    var i :| QueueAt(declared, k, queue, i);
    assert QueueAt(declared + more, k, queue, i);
  }

  lemma {:induction false} StoreStateDiffSafe(node: Node, n: nat, block: S.StateBlock)
    requires Safe(node) && Enabled(node, StateDiffAvailable(n, block))
    ensures Safe(Next(node, StateDiffAvailable(n, block)))
  {
    var s := node.state;
    if AcceptsStateDiff(s, n, block) {
      S.AppendDeclares(s.blocks, block);
      QueueSurvivesExtension(S.Declared(s.blocks), block.diff.declaredClasses, |s.casms|,
                             node.session.value.casmQueue);
    }
  }

  /** The marker's block declares a class, if there is such a block. */
  lemma {:induction false} MarkerHasClasses(s: SyncState)
    ensures FirstWithClasses(s.blocks, CasmMarker(s)) == CasmMarker(s)
  {
    var from := CasmMarker(s);
    if from < |s.blocks| {
      S.StartStep(s.blocks, from);
    }
  }

  /** A new stream starts at the first class of the marker's block, so at a stored class or the next one. */
  lemma {:induction false} CasmRequestAligned(s: SyncState, maxStreamSize: nat)
    requires |s.casms| <= |S.Declared(s.blocks)|
    ensures QueueAt(S.Declared(s.blocks), |s.casms|, CasmRequest(s, maxStreamSize),
                    S.Start(s.blocks, CasmMarker(s)))
  {
    MarkerHasClasses(s);
    var from := CasmMarker(s);
    var upTo := S.Min(|s.blocks|, from + maxStreamSize);
    S.StartMonotone(s.blocks, from, upTo);
    S.DeclaredPrefix(s.blocks, upTo);
  }

  lemma {:induction false} RequestCompiledClassesSafe(node: Node, maxStreamSize: nat)
    requires Safe(node) && Enabled(node, RequestCompiledClasses(maxStreamSize))
    ensures Safe(Next(node, RequestCompiledClasses(maxStreamSize)))
  {
    CasmRequestAligned(node.state, maxStreamSize);
  }

  /** The class at the head of the queue is stored already, or is the next one to store. */
  lemma QueueHead(declared: seq<ClassHash>, k: nat, queue: seq<ClassHash>, i: nat)
    requires S.NoDuplicates(declared) && k <= |declared| && queue != [] && QueueAt(declared, k, queue, i)
    ensures queue[0] == declared[i]
    ensures queue[0] in declared[..k] <==> i < k
    ensures QueueAt(declared, if i < k then k else k + 1, queue[1..], i + 1)
  {
    assert queue[0] == declared[i];
    if i < k {
      assert declared[..k][i] == queue[0];
    }
  }

  lemma {:induction false} CompiledClassSafe(node: Node, casm: Casm)
    requires Safe(node) && Enabled(node, CompiledClassAvailable(casm))
    ensures Safe(Next(node, CompiledClassAvailable(casm)))
  {
    var s, queue := node.state, node.session.value.casmQueue;
    var i :| QueueAt(S.Declared(s.blocks), |s.casms|, queue, i);
    QueueHead(S.Declared(s.blocks), |s.casms|, queue, i);
  }

  // ----- Steps that revert -----

  /** What of `Safe` concerns the storage alone. */
  ghost predicate SafeState(s: SyncState, confirmed: set<BlockHash>) {
    Safe(Node(s, None, confirmed))
  }

  lemma {:induction false} RevertBlockSafe(s: SyncState, confirmed: set<BlockHash>)
    requires SafeState(s, confirmed) && s.chain != []
    ensures SafeState(RevertBlock(s, |s.chain| - 1), confirmed)
  {
    var n := |s.chain| - 1;
    if |s.blocks| == n + 1 {
      S.RevertKeepsDistinct(s.blocks);
    }
  }

  lemma {:induction false} HandleBlockRevertsSafe(s: SyncState, replies: nat -> Reply, confirmed: set<BlockHash>)
    requires SafeState(s, confirmed)
    ensures SafeState(HandleBlockReverts(s, replies).0, confirmed)
    decreases |s.chain|
  {
    if s.chain != [] {
      var n := |s.chain| - 1;
      if !replies(n).SourceError? && ShouldRevert(s, replies(n)) {
        RevertBlockSafe(s, confirmed);
        HandleBlockRevertsSafe(RevertBlock(s, n), replies, confirmed);
      }
    }
  }

  lemma {:induction false} RestartSafe(node: Node, replies: nat -> Reply)
    requires Safe(node)
    ensures Safe(Next(node, Restart(replies)))
  {
    HandleBlockRevertsSafe(node.state, replies, node.confirmed);
    var s' := HandleBlockReverts(node.state, replies).0;
    assert QueueAt(S.Declared(s'.blocks), |s'.casms|, [], 0);
  }

  // ----- Whole runs -----

  lemma {:induction false} NextSafe(node: Node, e: Event)
    requires Safe(node) && Enabled(node, e)
    ensures Safe(Next(node, e))
  {
    match e {
      case Restart(replies) => RestartSafe(node, replies);
      case BlockAvailable(n, block) => StoreBlockSafe(node, n, block);
      case RequestStateDiffs(_) =>
      case StateDiffAvailable(n, block) => StoreStateDiffSafe(node, n, block);
      case RequestCompiledClasses(size) => RequestCompiledClassesSafe(node, size);
      case CompiledClassAvailable(casm) => CompiledClassSafe(node, casm);
      case NewBaseLayerBlock(_, _) =>
      case StreamFailure =>
    }
  }

  /** `trace` is a run: it starts at a node with empty storage and each step is an enabled event. */
  ghost predicate IsRun(trace: seq<Node>, events: seq<Event>) {
    && |trace| == |events| + 1
    && trace[0] == Node(EMPTY_STATE, None, {})
    && forall i :: 0 <= i < |events| ==>
         && Enabled(trace[i], events[i])
         && trace[i + 1] == Next(trace[i], events[i])
  }

  /** Every state of every run is safe. */
  lemma {:induction false} EveryRunIsSafe(trace: seq<Node>, events: seq<Event>, i: nat)
    requires IsRun(trace, events) && i < |trace|
    ensures Safe(trace[i])
  {
    if i > 0 {
      EveryRunIsSafe(trace, events, i - 1);
      NextSafe(trace[i - 1], events[i - 1]);
    }
  }
}
