/** What the sync protocol promises: reverts, convergence, finality, markers and compiled classes. */
module SyncTheorems {
  import opened Wrappers
  import opened ChainTypes
  import opened HeaderSpec
  import opened SyncSpec
  import opened SyncSafety
  import opened StorageTxns
  import opened StateSyncs
  import C = StateHistory
  import S = StateSpec

  // ----- The revert loop leaves the longest common prefix -----

  /** The central source as one fixed chain. */
  function CentralReplies(central: seq<BlockHeader>): nat -> Reply {
    (n: nat) => if n < |central| then CentralHash(central[n].blockHash) else NoSuchBlock
  }

  ghost predicate LinkedHeaders(central: seq<BlockHeader>) {
    forall i :: 0 < i < |central| ==> central[i].parentHash == central[i - 1].blockHash
  }

  /** A block hash determines the parent hash. */
  ghost predicate HashDeterminesParent(chain: Chain, central: seq<BlockHeader>) {
    forall i, j :: 0 <= i < |chain| && 0 <= j < |central|
                   && chain[i].header.blockHash == central[j].blockHash ==>
      chain[i].header.parentHash == central[j].parentHash
  }

  ghost predicate AgreeUpTo(chain: Chain, central: seq<BlockHeader>, p: nat) {
    && p <= |chain| && p <= |central|
    && forall i :: 0 <= i < p ==> chain[i].header.blockHash == central[i].blockHash
  }

  ghost predicate IsLongestCommonPrefix(chain: Chain, central: seq<BlockHeader>, p: nat) {
    && AgreeUpTo(chain, central, p)
    && (p < |chain| && p < |central| ==> chain[p].header.blockHash != central[p].blockHash)
  }

  /** Two linked chains that agree on a block agree on every block below it. */
  lemma {:induction false} AgreeBelow(chain: Chain, central: seq<BlockHeader>, n: nat)
    requires Linked(chain) && LinkedHeaders(central) && HashDeterminesParent(chain, central)
    requires n < |chain| && n < |central| && chain[n].header.blockHash == central[n].blockHash
    ensures AgreeUpTo(chain, central, n + 1)
  {
    if n > 0 {
      assert chain[n].header.parentHash == chain[n - 1].header.blockHash;
      assert central[n].parentHash == central[n - 1].blockHash;
      AgreeBelow(chain, central, n - 1);
    }
  }

  /** The revert loop ends without an error and keeps exactly the longest common prefix. */
  lemma {:induction false} RevertsToLongestCommonPrefix(s: SyncState, central: seq<BlockHeader>)
    requires Linked(s.chain) && LinkedHeaders(central) && HashDeterminesParent(s.chain, central)
    ensures var (s', r) := HandleBlockReverts(s, CentralReplies(central));
            && r.Pass?
            && s'.chain <= s.chain
            && IsLongestCommonPrefix(s.chain, central, |s'.chain|)
    decreases |s.chain|
  {
    if s.chain != [] {
      var n := |s.chain| - 1;
      if ShouldRevert(s, CentralReplies(central)(n)) {
        var shorter := RevertBlock(s, n);
        assert shorter.chain == Init(s.chain);
        RevertsToLongestCommonPrefix(shorter, central);
      } else {
        AgreeBelow(s.chain, central, n);
      }
    }
  }

  // ----- Convergence -----

  /** Stores `blocks[n..]` one after the other; `None` as soon as one is refused. */
  ghost function StoreFrom(s: SyncState, blocks: seq<Block>, n: nat): Option<SyncState>
    requires n <= |blocks|
    decreases |blocks| - n
  {
    if n == |blocks| then Some(s)
    else
      var (s', r) := StoreBlock(s, n, blocks[n]);
      if r.Fail? then None else StoreFrom(s', blocks, n + 1)
  }

  function HeadersOf(blocks: seq<Block>): seq<BlockHeader> {
    seq(|blocks|, i requires 0 <= i < |blocks| => blocks[i].header)
  }

  /** A well-formed central chain: linked, with distinct hashes, and with bodies that can be stored. */
  ghost predicate IsCentralChain(blocks: seq<Block>) {
    && LinkedHeaders(HeadersOf(blocks))
    && (forall i, j :: 0 <= i < j < |blocks| ==> blocks[i].header.blockHash != blocks[j].header.blockHash)
    && (forall b :: b in blocks ==> b.bodyAccepted)
  }

  lemma {:induction false} StoreFromReachesCentral(s: SyncState, blocks: seq<Block>)
    requires IsCentralChain(blocks) && AgreeUpTo(s.chain, HeadersOf(blocks), |s.chain|)
    ensures var end := StoreFrom(s, blocks, |s.chain|);
            && end.Some?
            && |end.value.chain| == |blocks|
            && AgreeUpTo(end.value.chain, HeadersOf(blocks), |blocks|)
    decreases |blocks| - |s.chain|
  {
    var n := |s.chain|;
    if n < |blocks| {
      var headers := HeadersOf(blocks);
      assert n > 0 ==> headers[n].parentHash == headers[n - 1].blockHash;
      assert !HasHash(s.chain, blocks[n].header.blockHash) by {
        forall i | 0 <= i < n ensures s.chain[i].header.blockHash != blocks[n].header.blockHash {
          assert s.chain[i].header.blockHash == headers[i].blockHash;
        }
      }
      assert blocks[n] in blocks;
      var (s', r) := StoreBlock(s, n, blocks[n]);
      assert AgreeUpTo(s'.chain, headers, n + 1);
      StoreFromReachesCentral(s', blocks);
    }
  }

  /**
   From any stored chain, a restart against a central chain followed by its remaining blocks stores
   every one of them and ends with the central chain.
   */
  lemma SyncConverges(s: SyncState, blocks: seq<Block>)
    requires Linked(s.chain) && IsCentralChain(blocks) && HashDeterminesParent(s.chain, HeadersOf(blocks))
    ensures var s' := HandleBlockReverts(s, CentralReplies(HeadersOf(blocks))).0;
            && |s'.chain| <= |blocks|
            && var end := StoreFrom(s', blocks, |s'.chain|);
               && end.Some?
               && |end.value.chain| == |blocks|
               && AgreeUpTo(end.value.chain, HeadersOf(blocks), |blocks|)
  {
    RevertsToLongestCommonPrefix(s, HeadersOf(blocks));
    StoreFromReachesCentral(HandleBlockReverts(s, CentralReplies(HeadersOf(blocks))).0, blocks);
  }

  // ----- Finality on the base layer -----

  /** The revert loop keeps a prefix of the list, and the base layer marker within it. */
  lemma {:induction false} RevertsKeepPrefix(s: SyncState, replies: nat -> Reply)
    requires s.baseLayer <= |s.chain|
    ensures var s' := HandleBlockReverts(s, replies).0;
            s'.chain <= s.chain && s'.baseLayer == S.Min(s.baseLayer, |s'.chain|)
    decreases |s.chain|
  {
    if s.chain != [] {
      var n := |s.chain| - 1;
      if !replies(n).SourceError? && ShouldRevert(s, replies(n)) {
        RevertsKeepPrefix(RevertBlock(s, n), replies);
      }
    }
  }

  ghost predicate Confirms(node: Node, e: Event) {
    && e.NewBaseLayerBlock?
    && e.blockNumber < |node.state.chain|
    && node.state.chain[e.blockNumber].header.blockHash == e.blockHash
  }

  /** Unless an event confirms a block, it keeps every block that stays below the base layer marker. */
  lemma {:induction false} StepKeepsReportedBlocks(node: Node, e: Event)
    requires Safe(node) && Enabled(node, e) && !Confirms(node, e)
    ensures var s, s' := node.state, Next(node, e).state;
            s'.baseLayer <= s.baseLayer && s'.baseLayer <= |s'.chain| && s'.chain[..s'.baseLayer] == s.chain[..s'.baseLayer]
  {
    NextSafe(node, e);
    if e.Restart? {
      RevertsKeepPrefix(node.state, e.replies);
    }
  }

  /**
   At step `j` the base layer confirmed a block at or above block `n`, and the blocks stored then
   up to block `n` are those stored at step `i`.
   */
  ghost predicate ConfirmedAt(trace: seq<Node>, events: seq<Event>, i: nat, n: nat, j: nat)
    requires |trace| == |events| + 1 && i < |trace|
  {
    && j < i
    && Linked(trace[j].state.chain)
    && Confirms(trace[j], events[j])
    && n <= events[j].blockNumber
    && n < |trace[i].state.chain|
    && trace[i].state.chain[..n + 1] == trace[j].state.chain[..n + 1]
  }

  /**
   In every state of every run, a block that is reported as accepted on L1 is stored, and at an
   earlier step the base layer confirmed a block at or above it on whose parent chain it lay: the
   list stored then was linked and had the same blocks up to it.
   */
  lemma {:induction false} AcceptedOnL1IsConfirmed(trace: seq<Node>, events: seq<Event>, i: nat, n: nat)
    requires IsRun(trace, events) && i < |trace| && n < trace[i].state.baseLayer
    ensures n < |trace[i].state.chain|
    ensures exists j: nat :: ConfirmedAt(trace, events, i, n, j)
  {
    EveryRunIsSafe(trace, events, i);
    EveryRunIsSafe(trace, events, i - 1);
    assert Enabled(trace[i - 1], events[i - 1]) && trace[i] == Next(trace[i - 1], events[i - 1]);
    if Confirms(trace[i - 1], events[i - 1]) {
      assert ConfirmedAt(trace, events, i, n, i - 1);
    } else {
      StepKeepsReportedBlocks(trace[i - 1], events[i - 1]);
      AcceptedOnL1IsConfirmed(trace, events, i - 1, n);
      var j: nat :| ConfirmedAt(trace, events, i - 1, n, j);
      CarryConfirmation(trace, events, i, n, j);
    }
  }

  lemma {:induction false} CarryConfirmation(trace: seq<Node>, events: seq<Event>, i: nat, n: nat, j: nat)
    requires |trace| == |events| + 1 && 0 < i < |trace| && ConfirmedAt(trace, events, i - 1, n, j)
    requires var s, s' := trace[i - 1].state, trace[i].state;
             && n < s'.baseLayer <= |s'.chain| && s'.baseLayer <= |s.chain|
             && s'.chain[..s'.baseLayer] == s.chain[..s'.baseLayer]
    ensures ConfirmedAt(trace, events, i, n, j)
  {
    var s, s' := trace[i - 1].state, trace[i].state;
    assert s'.chain[..n + 1] == s'.chain[..s'.baseLayer][..n + 1];
    assert s.chain[..n + 1] == s.chain[..s'.baseLayer][..n + 1];
  }

  /** The topmost block reported as accepted on L1 is itself confirmed. */
  ghost predicate TopIsConfirmed(s: SyncState, confirmed: set<BlockHash>) {
    s.baseLayer == 0 || (s.baseLayer <= |s.chain| && s.chain[s.baseLayer - 1].header.blockHash in confirmed)
  }

  /** Every block reported as accepted on L1 lies below a confirmed block that is still stored. */
  ghost predicate ConfirmedBlockIsStored(s: SyncState, confirmed: set<BlockHash>) {
    s.baseLayer == 0
    || exists k :: 0 <= k < |s.chain| && s.baseLayer <= k + 1 && s.chain[k].header.blockHash in confirmed
  }

  /** No event but a restart loses the confirmation of the topmost reported block. */
  lemma {:induction false} StoringKeepsTopConfirmed(node: Node, e: Event)
    requires Safe(node) && Enabled(node, e) && !e.Restart? && TopIsConfirmed(node.state, node.confirmed)
    ensures TopIsConfirmed(Next(node, e).state, Next(node, e).confirmed)
  {
    match e {
      case BlockAvailable(n, block) =>
      case _ =>
    }
  }

  /** What the loop asks at block `k`: the central source lacks the block, or has another one there. */
  ghost predicate Disagrees(chain: Chain, replies: nat -> Reply, k: nat)
    requires k < |chain|
  {
    replies(k).NoSuchBlock? || (replies(k).CentralHash? && replies(k).hash != chain[k].header.blockHash)
  }

  /** The answers disagree with every block from `p` on, and not with the one before. */
  ghost predicate KeepsExactly(chain: Chain, replies: nat -> Reply, p: nat) {
    && p <= |chain|
    && (p > 0 ==> !Disagrees(chain, replies, p - 1))
    && forall k: nat :: p <= k < |chain| ==> Disagrees(chain, replies, k)
  }

  /** The loop keeps as many blocks as the answers say, and the answers say one number. */
  lemma {:induction false} RevertsKeepExactly(s: SyncState, replies: nat -> Reply)
    ensures forall p: nat :: KeepsExactly(s.chain, replies, p) <==> p == |HandleBlockReverts(s, replies).0.chain|
    decreases |s.chain|
  {
    if s.chain != [] {
      var n := |s.chain| - 1;
      if Disagrees(s.chain, replies, n) {
        var s' := RevertBlock(s, n);
        RevertsKeepExactly(s', replies);
        forall p: nat ensures KeepsExactly(s.chain, replies, p) <==> KeepsExactly(s'.chain, replies, p) {
          KeepsExactlySnoc(s.chain, replies, p);
        }
      }
    }
  }

  lemma {:induction false} KeepsExactlySnoc(chain: Chain, replies: nat -> Reply, p: nat)
    requires chain != [] && Disagrees(chain, replies, |chain| - 1)
    ensures KeepsExactly(chain, replies, p) <==> KeepsExactly(chain[..|chain| - 1], replies, p)
  {
    var n := |chain| - 1;
    assert forall k: nat :: k < n ==> (Disagrees(chain, replies, k) <==> Disagrees(chain[..n], replies, k));
  }

  /**
   The answers roll the base layer marker back, not to nothing, and onto a block that was not
   confirmed itself.
   */
  ghost predicate LosesConfirmation(s: SyncState, replies: nat -> Reply, confirmed: set<BlockHash>) {
    exists p: nat ::
      0 < p < s.baseLayer && KeepsExactly(s.chain, replies, p) && s.chain[p - 1].header.blockHash !in confirmed
  }

  /** Which answers of the central source keep a stored confirmed block above every reported one. */
  lemma {:induction false} RestartKeepsConfirmedIff(s: SyncState, replies: nat -> Reply, confirmed: set<BlockHash>)
    requires s.baseLayer <= |s.chain| && TopIsConfirmed(s, confirmed)
    ensures var s' := HandleBlockReverts(s, replies).0;
            && (ConfirmedBlockIsStored(s', confirmed) <==> !LosesConfirmation(s, replies, confirmed))
            && (TopIsConfirmed(s', confirmed) <==> !LosesConfirmation(s, replies, confirmed))
  {
    RevertsKeepPrefix(s, replies);
    RevertsKeepExactly(s, replies);
    var s' := HandleBlockReverts(s, replies).0;
    assert KeepsExactly(s.chain, replies, |s'.chain|);
    if s'.baseLayer > 0 && TopIsConfirmed(s', confirmed) {
      assert s'.chain[s'.baseLayer - 1].header.blockHash in confirmed;
    }
  }

  ghost predicate EveryRestartKeepsConfirmation(trace: seq<Node>, events: seq<Event>, i: nat)
    requires |trace| == |events| + 1 && i < |trace|
  {
    forall k :: 0 <= k < i && events[k].Restart? ==>
      !LosesConfirmation(trace[k].state, events[k].replies, trace[k].confirmed)
  }

  /** As long as every restart keeps it, the topmost reported block is confirmed. */
  lemma {:induction false} TopConfirmedUntil(trace: seq<Node>, events: seq<Event>, i: nat)
    requires IsRun(trace, events) && i < |trace| && EveryRestartKeepsConfirmation(trace, events, i)
    ensures TopIsConfirmed(trace[i].state, trace[i].confirmed)
  {
    if i > 0 {
      TopConfirmedUntil(trace, events, i - 1);
      EveryRunIsSafe(trace, events, i - 1);
      var node, e := trace[i - 1], events[i - 1];
      assert Enabled(node, e) && trace[i] == Next(node, e);
      if e.Restart? {
        RestartKeepsConfirmedIff(node.state, e.replies, node.confirmed);
      } else {
        StoringKeepsTopConfirmed(node, e);
      }
    }
  }

  /** Once a stored confirmed block is there in every state, every restart kept it. */
  lemma {:induction false} ConfirmedThroughout(trace: seq<Node>, events: seq<Event>, i: nat)
    requires IsRun(trace, events) && i < |trace|
    requires forall k :: 0 <= k <= i ==> ConfirmedBlockIsStored(trace[k].state, trace[k].confirmed)
    ensures EveryRestartKeepsConfirmation(trace, events, i)
  {
    if i > 0 {
      ConfirmedThroughout(trace, events, i - 1);
      TopConfirmedUntil(trace, events, i - 1);
      EveryRunIsSafe(trace, events, i - 1);
      var node, e := trace[i - 1], events[i - 1];
      assert Enabled(node, e) && trace[i] == Next(node, e);
      assert ConfirmedBlockIsStored(trace[i].state, trace[i].confirmed);
      if e.Restart? {
        RestartKeepsConfirmedIff(node.state, e.replies, node.confirmed);
      }
    }
  }

  /**
   Over a whole run, every reported block lies below a stored confirmed block in every state exactly
   when the central source's answers at each restart leave the marker alone or roll it to nothing or
   onto a confirmed block; then the topmost reported block is itself confirmed throughout.
   */
  lemma {:induction false} RunKeepsConfirmedIff(trace: seq<Node>, events: seq<Event>)
    requires IsRun(trace, events)
    ensures (forall i :: 0 <= i < |trace| ==> ConfirmedBlockIsStored(trace[i].state, trace[i].confirmed))
            <==> EveryRestartKeepsConfirmation(trace, events, |events|)
    ensures (forall i :: 0 <= i < |trace| ==> TopIsConfirmed(trace[i].state, trace[i].confirmed))
            <==> EveryRestartKeepsConfirmation(trace, events, |events|)
  {
    if EveryRestartKeepsConfirmation(trace, events, |events|) {
      forall i | 0 <= i < |trace|
        ensures TopIsConfirmed(trace[i].state, trace[i].confirmed)
        ensures ConfirmedBlockIsStored(trace[i].state, trace[i].confirmed)
      {
        TopConfirmedUntil(trace, events, i);
        TopIsStored(trace[i].state, trace[i].confirmed);
      }
    }
    if forall i :: 0 <= i < |trace| ==> TopIsConfirmed(trace[i].state, trace[i].confirmed) {
      forall i | 0 <= i < |trace| ensures ConfirmedBlockIsStored(trace[i].state, trace[i].confirmed) {
        TopIsStored(trace[i].state, trace[i].confirmed);
      }
    }
    if forall i :: 0 <= i < |trace| ==> ConfirmedBlockIsStored(trace[i].state, trace[i].confirmed) {
      ConfirmedThroughout(trace, events, |events|);
    }
  }

  lemma TopIsStored(s: SyncState, confirmed: set<BlockHash>)
    requires TopIsConfirmed(s, confirmed)
    ensures ConfirmedBlockIsStored(s, confirmed)
  {
    assert s.baseLayer > 0 ==> s.chain[s.baseLayer - 1].header.blockHash in confirmed;
  }

  function PlainHeader(hash: BlockHash, parent: BlockHash, n: nat): BlockHeader {
    BlockHeader(hash, parent, n, GasPricePerToken(0, 0), GasPricePerToken(0, 0), GasPricePerToken(0, 0),
                0, 0, 0, Calldata, 0, None, None, None, None, None, 0, 0)
  }

  lemma {:induction false} RevertsOneBlock(s: SyncState, replies: nat -> Reply)
    requires |s.chain| == 2 && replies(1) == NoSuchBlock && replies(0) == CentralHash(s.chain[0].header.blockHash)
    ensures HandleBlockReverts(s, replies).0 == RevertBlock(s, 1)
  {
    var s' := RevertBlock(s, 1);
    assert |s'.chain| == 1 && Last(s'.chain) == s.chain[0];
    assert HandleBlockReverts(s', replies).0 == s';
  }

  /**
   A run: blocks 0 and 1 are stored, block 1 is confirmed, and a restart finds that the central
   source no longer has it. Block 0 is still reported, and no stored block is confirmed.
   */
  lemma {:induction false} ReportedBlockMayLackStoredConfirmation() returns (trace: seq<Node>, events: seq<Event>)
    ensures IsRun(trace, events) && events != [] && events[|events| - 1].Restart?
    ensures var last := trace[|trace| - 1];
            last.state.baseLayer == 1 && !ConfirmedBlockIsStored(last.state, last.confirmed)
  {
    var b0, b1 := Block(PlainHeader(7, 0, 0), 0, true), Block(PlainHeader(8, 7, 1), 0, true);
    var replies := (n: nat) => if n == 0 then CentralHash(7) else NoSuchBlock;
    var e0, e4 := Restart(replies), Restart(replies);
    var n0 := Node(EMPTY_STATE, None, {});
    var n1 := Next(n0, e0);
    var n2 := Next(n1, BlockAvailable(0, b0));
    var n3 := Next(n2, BlockAvailable(1, b1));
    var n4 := Next(n3, NewBaseLayerBlock(1, 8));
    var n5 := Next(n4, e4);
    assert n3.state.chain == [Entry(b0.header, Some(0)), Entry(b1.header, Some(0))];
    RevertsOneBlock(n4.state, replies);
    trace := [n0, n1, n2, n3, n4, n5];
    events := [e0, BlockAvailable(0, b0), BlockAvailable(1, b1), NewBaseLayerBlock(1, 8), e4];
  }

  // ----- Reads of past states -----

  lemma {:induction false} RevertsKeepOldBlocks(s: SyncState, replies: nat -> Reply)
    ensures HandleBlockReverts(s, replies).0.blocks <= s.blocks
    decreases |s.chain|
  {
    if s.chain != [] {
      var n := |s.chain| - 1;
      if !replies(n).SourceError? && ShouldRevert(s, replies(n)) {
        RevertsKeepOldBlocks(RevertBlock(s, n), replies);
      }
    }
  }

  lemma {:induction false} StepKeepsOldBlocks(node: Node, e: Event, n: nat)
    requires Enabled(node, e) && n <= |node.state.blocks| && n <= |Next(node, e).state.blocks|
    ensures Next(node, e).state.blocks[..n] == node.state.blocks[..n]
  {
    if e.Restart? {
      RevertsKeepOldBlocks(node.state, e.replies);
    }
  }

  lemma {:induction false} RunKeepsOldBlocks(trace: seq<Node>, events: seq<Event>, i: nat, j: nat, n: nat)
    requires IsRun(trace, events) && i <= j < |trace|
    requires forall k :: i <= k <= j ==> n <= |trace[k].state.blocks|
    ensures trace[j].state.blocks[..n] == trace[i].state.blocks[..n]
  {
    if i < j {
      RunKeepsOldBlocks(trace, events, i, j - 1, n);
      assert Enabled(trace[j - 1], events[j - 1]) && trace[j] == Next(trace[j - 1], events[j - 1]);
      StepKeepsOldBlocks(trace[j - 1], events[j - 1], n);
    }
  }

  /**
   As long as a run does not revert below it, a past state reads the same: classes, nonces and
   storage values at state number `n` do not change with what is stored, or reverted, above it.
   */
  lemma {:induction false} PastStatesAreStable(trace: seq<Node>, events: seq<Event>, i: nat, j: nat, n: nat)
    requires IsRun(trace, events) && i <= j < |trace|
    requires forall k :: i <= k <= j ==> n <= |trace[k].state.blocks|
    ensures C.ValuesAt(S.ContractDiffs(trace[j].state.blocks), n) == C.ValuesAt(S.ContractDiffs(trace[i].state.blocks), n)
  {
    RunKeepsOldBlocks(trace, events, i, j, n);
    ValuesOfFirst(trace[i].state.blocks, n);
    ValuesOfFirst(trace[j].state.blocks, n);
  }

  lemma {:induction false} ValuesOfFirst(blocks: S.Blocks, n: nat)
    requires n <= |blocks|
    ensures C.ValuesAt(S.ContractDiffs(blocks), n) == C.ValuesAt(S.ContractDiffs(blocks[..n]), n)
  {
    assert S.ContractDiffs(blocks[..n]) == S.ContractDiffs(blocks)[..n];
    C.ValuesOfPrefix(S.ContractDiffs(blocks), n);
  }

  // ----- Markers and compiled classes, in the words of the tables -----

  /** The documented order of the markers, and more: bodies keep pace with headers. */
  lemma MarkersInOrder(db: Tables, node: Node)
    requires Represents(db, node.state) && Safe(node)
    ensures db.markers.compiledClass <= db.markers.class_ <= db.markers.state <= db.markers.header
    ensures db.markers.body == db.markers.header
    ensures db.markers.baseLayerBlock <= db.markers.header
  {
  }

  /**
   The compiled-class marker is the first block without a state diff or whose last class has no
   CASM, and the CASM table holds exactly a prefix of the flattened list of declared classes.
   */
  lemma CasmTableIsPrefix(db: Tables, s: SyncState)
    requires Represents(db, s)
    ensures exists k :: 0 <= k <= |S.Declared(s.blocks)| && db.state.casms.Keys == S.Elems(S.Declared(s.blocks)[..k])
    ensures forall b :: 0 <= b < db.markers.compiledClass ==>
              && b in db.state.stateDiffs
              && forall c :: c in db.state.stateDiffs[b].declaredClasses ==> c in db.state.casms
    ensures var m := db.markers.compiledClass;
            m in db.state.stateDiffs ==>
              var classes := db.state.stateDiffs[m].declaredClasses;
              classes != [] && classes[|classes| - 1] !in db.state.casms
  {
    var m, k := db.markers.compiledClass, |s.casms|;
    var keys := S.Declared(s.blocks)[..k];
    forall c ensures c in db.state.casms <==> c in keys {
      S.CasmAt(keys, s.casms, c);
    }
    assert db.state.casms.Keys == S.Elems(keys);
    forall b | 0 <= b < m
      ensures b in db.state.stateDiffs
      ensures forall c :: c in db.state.stateDiffs[b].declaredClasses ==> c in db.state.casms
    {
      S.DiffAt(s.blocks, b);
      forall c | c in db.state.stateDiffs[b].declaredClasses ensures c in db.state.casms {
        S.ClassesBelowMarkerHaveCasm(s.blocks, s.casms, m, b, c);
      }
    }
    S.DiffAt(s.blocks, m);
    if m < |s.blocks| {
      MarkerBlockLacksLastCasm(s, m);
    }
  }

  lemma {:induction false} MarkerBlockLacksLastCasm(s: SyncState, m: nat)
    requires |s.casms| <= |S.Declared(s.blocks)| && S.NoDuplicates(S.Declared(s.blocks))
    requires S.IsCasmMarker(s.blocks, |s.casms|, m) && m < |s.blocks|
    ensures var classes := s.blocks[m].diff.declaredClasses;
            && classes != []
            && classes[|classes| - 1] !in S.CasmsOf(S.Declared(s.blocks)[..|s.casms|], s.casms)
  {
    S.StartStep(s.blocks, m);
    S.LastClassOfBlock(s.blocks, m);
    var classes := s.blocks[m].diff.declaredClasses;
    S.CasmAt(S.Declared(s.blocks)[..|s.casms|], s.casms, classes[|classes| - 1]);
  }

  // ----- The table implementation follows every run -----

  /** Feeds a run to an implementation that starts on an empty database. */
  method FollowRun(sync: StateSync, events: seq<Event>, ghost trace: seq<Node>)
    requires sync.Valid() && IsRun(trace, events) && sync.AsNode() == trace[0]
    modifies sync
    ensures sync.AsNode() == trace[|events|]
    ensures sync.Valid()
    ensures sync.db.markers.compiledClass <= sync.db.markers.class_ <= sync.db.markers.state
            <= sync.db.markers.header
    ensures sync.db.markers.body == sync.db.markers.header
    ensures sync.db.markers.baseLayerBlock <= sync.db.markers.header
  {
    for i := 0 to |events|
      invariant sync.Valid() && sync.AsNode() == trace[i]
    {
      sync.ProcessEvent(events[i]);
    }
    MarkersInOrder(sync.db, sync.AsNode());
  }

  // ----- Header tables under every run of appends and reverts -----

  /** One transaction on the headers. */
  datatype HeaderOp =
    | AppendOp(blockNumber: nat, header: BlockHeader)
    | SignOp(blockNumber: nat, signature: Signature)
    | RevertOp(blockNumber: nat)

  /** The same transaction on the plain list; a refused one changes nothing. */
  ghost function ApplyOp(chain: Chain, op: HeaderOp): Chain {
    match op
    case AppendOp(n, h) =>
      if n == |chain| && !HasHash(chain, h.blockHash) then chain + [Entry(h, None)] else chain
    case SignOp(n, s) =>
      if n < |chain| && chain[n].signature.None? then chain[n := chain[n].(signature := Some(s))] else chain
    case RevertOp(n) =>
      if n + 1 == |chain| then Init(chain) else chain
  }

  ghost function ApplyOps(chain: Chain, ops: seq<HeaderOp>): Chain {
    if ops == [] then chain else ApplyOp(ApplyOps(chain, ops[..|ops| - 1]), ops[|ops| - 1])
  }

  /** Whatever transactions run, the committed tables are the tables of the list they build. */
  method RunHeaderOps(committed: Tables, ops: seq<HeaderOp>, ghost start: Chain) returns (end: Tables)
    requires EncodesHeaders(committed.header, committed.markers.header, start)
    ensures EncodesHeaders(end.header, end.markers.header, ApplyOps(start, ops))
    ensures end.state == committed.state
  {
    end := committed;
    ghost var chain := start;
    for i := 0 to |ops|
      invariant EncodesHeaders(end.header, end.markers.header, chain)
      invariant chain == ApplyOps(start, ops[..i]) && end.state == committed.state
    {
      assert ops[..i + 1][..i] == ops[..i];
      var txn := new StorageTxn(end, chain);
      var r: StorageResult := Pass;
      match ops[i] {
        case AppendOp(n, h) => r := txn.AppendHeader(n, h);
        case SignOp(n, s) => r := txn.AppendBlockSignature(n, s);
        case RevertOp(n) => var _, _ := txn.RevertHeader(n);
      }
      if r.Pass? {
        end := txn.tables;
        chain := txn.chain;
      }
    }
    assert ops[..|ops|] == ops;
  }

  // ----- Append and revert of a header are inverse -----

  /** Appending a header, with or without a signature, and reverting it restores every table. */
  method AppendThenRevert(txn: StorageTxn, h: BlockHeader, signature: Option<Signature>)
    returns (header: Option<BlockHeader>, reverted: Option<Signature>)
    requires txn.HeadersValid() && !HasHash(txn.chain, h.blockHash)
    modifies txn
    ensures txn.tables == old(txn.tables)
    ensures header == Some(h) && reverted == signature
  {
    var n := txn.tables.markers.header;
    var r := txn.AppendHeader(n, h);
    if signature.Some? {
      r := txn.AppendBlockSignature(n, signature.value);
    }
    header, reverted := txn.RevertHeader(n);
    assert txn.chain == old(txn.chain);
  }

  /** Reverting the last header and appending what came back restores every table. */
  method RevertThenAppend(txn: StorageTxn)
    requires txn.HeadersValid() && txn.chain != []
    modifies txn
    ensures txn.tables == old(txn.tables)
  {
    var n := txn.tables.markers.header - 1;
    LastHashIsNew(txn.chain);
    var header, signature := txn.RevertHeader(n);
    var r := txn.AppendHeader(n, header.value);
    if signature.Some? {
      r := txn.AppendBlockSignature(n, signature.value);
    }
    assert txn.chain == old(txn.chain);
  }

  lemma LastHashIsNew(chain: Chain)
    requires chain != [] && DistinctHashes(chain)
    ensures !HasHash(Init(chain), Last(chain).header.blockHash)
  {
  }
}
