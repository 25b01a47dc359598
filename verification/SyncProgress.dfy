/**
 What every event of the sync protocol does, in plain words, and progress: the streams that a node
 asks for bring it to the state of the central source.
 */
module SyncProgress {
  import opened Wrappers
  import opened ChainTypes
  import opened HeaderSpec
  import opened SyncSpec
  import opened SyncSafety
  import opened SyncTheorems
  import S = StateSpec

  // ----- What ends a session -----

  /** The answers stop the revert loop at a block that the central source failed to give. */
  ghost predicate MeetsSourceError(chain: Chain, replies: nat -> Reply) {
    exists p: nat :: 0 < p && KeepsExactly(chain, replies, p) && replies(p - 1).SourceError?
  }

  lemma {:induction false} RevertsFailIff(s: SyncState, replies: nat -> Reply)
    ensures HandleBlockReverts(s, replies).1.Fail? <==> MeetsSourceError(s.chain, replies)
    ensures HandleBlockReverts(s, replies).1.Fail? ==> HandleBlockReverts(s, replies).1 == Fail(CentralSourceError)
    decreases |s.chain|
  {
    if s.chain != [] {
      var n := |s.chain| - 1;
      if Disagrees(s.chain, replies, n) {
        RevertsFailIff(RevertBlock(s, n), replies);
        forall p: nat ensures KeepsExactly(s.chain, replies, p) <==> KeepsExactly(Init(s.chain), replies, p) {
          KeepsExactlySnoc(s.chain, replies, p);
        }
      } else {
        assert KeepsExactly(s.chain, replies, n + 1);
        RevertsKeepExactly(s, replies);
      }
    }
  }

  /** The next block: it links to the stored chain, has a hash of its own and a body that can be stored. */
  ghost predicate IsNextBlock(chain: Chain, n: nat, block: Block) {
    && n == |chain|
    && (n > 0 ==> chain[n - 1].header.blockHash == block.header.parentHash)
    && (forall i :: 0 <= i < n ==> chain[i].header.blockHash != block.header.blockHash)
    && block.bodyAccepted
  }

  /** The next state diff: it changes each contract one way and declares no class of an earlier one, nor one twice. */
  ghost predicate IsNextDiff(blocks: S.Blocks, n: nat, block: S.StateBlock) {
    && n == |blocks|
    && block.diff.contracts.deployed.Keys !! block.diff.contracts.replaced.Keys
    && S.NoDuplicates(S.Declared(blocks) + block.diff.declaredClasses)
  }

  /** Exactly when an event leaves the node without a session; then nothing but a restart can happen. */
  lemma {:induction false} SessionEndsIff(node: Node, e: Event)
    requires Enabled(node, e)
    ensures var s, ended := node.state, Next(node, e).session.None?;
            match e
            case Restart(replies) => ended <==> MeetsSourceError(s.chain, replies)
            case BlockAvailable(n, block) => ended <==> !IsNextBlock(s.chain, n, block)
            case StateDiffAvailable(n, block) => ended <==> !IsNextDiff(s.blocks, n, block)
            case NewBaseLayerBlock(n, hash) => ended <==> !(n < |s.chain| && s.chain[n].header.blockHash == hash)
            case StreamFailure => ended
            case _ => !ended
    ensures Next(node, e).session.None? ==> forall e' :: Enabled(Next(node, e), e') ==> e'.Restart?
  {
    match e {
      case Restart(replies) => RevertsFailIff(node.state, replies);
      case BlockAvailable(n, block) =>
      case _ =>
    }
  }

  // ----- What an event stores -----

  /** A restart cuts every list where it cuts the headers. */
  ghost predicate CutTo(s: SyncState, s': SyncState) {
    && s'.chain <= s.chain
    && s'.blocks == s.blocks[..S.Min(|s.blocks|, |s'.chain|)]
    && s'.casms == s.casms[..S.Min(|s.casms|, |S.Declared(s'.blocks)|)]
    && s'.baseLayer == S.Min(s.baseLayer, |s'.chain|)
  }

  lemma {:induction false} RevertsCut(s: SyncState, replies: nat -> Reply)
    requires |s.blocks| <= |s.chain| && s.baseLayer <= |s.chain| && |s.casms| <= |S.Declared(s.blocks)|
    ensures CutTo(s, HandleBlockReverts(s, replies).0)
    decreases |s.chain|
  {
    assert s.blocks[..|s.blocks|] == s.blocks && s.casms[..|s.casms|] == s.casms;
    if s.chain != [] {
      var n := |s.chain| - 1;
      if !replies(n).SourceError? && ShouldRevert(s, replies(n)) {
        var s1 := RevertBlock(s, n);
        RevertsCut(s1, replies);
        CutTwice(s, s1, HandleBlockReverts(s1, replies).0);
      }
    }
  }

  lemma {:induction false} CutTwice(s: SyncState, s1: SyncState, s2: SyncState)
    requires |s.blocks| <= |s.chain| && s.chain != [] && s1 == RevertBlock(s, |s.chain| - 1) && CutTo(s1, s2)
    requires |s.casms| <= |S.Declared(s.blocks)|
    requires s.baseLayer <= |s.chain|
    ensures CutTo(s, s2)
  {
    assert s2.blocks == s.blocks[..S.Min(|s.blocks|, |s2.chain|)];
    S.DeclaredPrefix(s1.blocks, |s2.blocks|);
    assert s1.blocks[..|s2.blocks|] == s2.blocks;
    assert s2.casms == s.casms[..S.Min(|s.casms|, |S.Declared(s2.blocks)|)];
  }

  /** What one event does to the stored lists. */
  lemma {:induction false} StepStores(node: Node, e: Event)
    requires Safe(node) && Enabled(node, e)
    ensures var s, s' := node.state, Next(node, e).state;
            match e
            case Restart(replies) => CutTo(s, s')
            case BlockAvailable(n, block) =>
              s' == if IsNextBlock(s.chain, n, block)
                    then s.(chain := s.chain + [Entry(block.header, Some(block.signature))]) else s
            case StateDiffAvailable(n, block) =>
              s' == if IsNextDiff(s.blocks, n, block) then s.(blocks := s.blocks + [block]) else s
            case CompiledClassAvailable(casm) =>
              var hash := node.session.value.casmQueue[0];
              s' == if hash in S.Declared(s.blocks)[..|s.casms|] then s else s.(casms := s.casms + [casm])
            case NewBaseLayerBlock(n, hash) =>
              s' == if n < |s.chain| && s.chain[n].header.blockHash == hash then s.(baseLayer := n + 1) else s
            case _ => s' == s
  {
    match e {
      case Restart(replies) => RevertsCut(node.state, replies);
      case BlockAvailable(n, block) =>
      case _ =>
    }
  }

  /** A stored header was sent for its number, with its signature and a body that was accepted. */
  ghost predicate HeaderWasSent(events: seq<Event>, i: nat, n: nat, entry: Entry)
    requires i <= |events|
  {
    exists k :: 0 <= k < i && events[k].BlockAvailable? && events[k].blockNumber == n
                && entry == Entry(events[k].block.header, Some(events[k].block.signature))
  }

  /** A stored state block was sent for its number, with these classes. */
  ghost predicate StateWasSent(events: seq<Event>, i: nat, n: nat, block: S.StateBlock)
    requires i <= |events|
  {
    exists k :: 0 <= k < i && events[k] == StateDiffAvailable(n, block)
  }

  /** In every state of every run, what is stored for a block is what some event sent for it. */
  lemma {:induction false} StoredWasSent(trace: seq<Node>, events: seq<Event>, i: nat)
    requires IsRun(trace, events) && i < |trace|
    ensures forall n: nat :: n < |trace[i].state.chain| ==> HeaderWasSent(events, i, n, trace[i].state.chain[n])
    ensures forall n: nat :: n < |trace[i].state.blocks| ==> StateWasSent(events, i, n, trace[i].state.blocks[n])
  {
    if i > 0 {
      StoredWasSent(trace, events, i - 1);
      var node, e := trace[i - 1], events[i - 1];
      assert Enabled(node, e) && trace[i] == Next(node, e);
      EveryRunIsSafe(trace, events, i - 1);
      StepStores(node, e);
      forall n: nat | n < |trace[i].state.chain| ensures HeaderWasSent(events, i, n, trace[i].state.chain[n]) {
        assert n < |node.state.chain| ==> HeaderWasSent(events, i - 1, n, node.state.chain[n]);
      }
      OldOrNewBlocks(node, e);
      forall n: nat | n < |trace[i].state.blocks| ensures StateWasSent(events, i, n, trace[i].state.blocks[n]) {
        assert n < |node.state.blocks| ==> StateWasSent(events, i - 1, n, node.state.blocks[n]);
      }
    }
  }

  lemma {:induction false} OldOrNewBlocks(node: Node, e: Event)
    requires Enabled(node, e)
    ensures var s, s' := node.state, Next(node, e).state;
            || s'.blocks <= s.blocks
            || (e.StateDiffAvailable? && e.blockNumber == |s.blocks| && s'.blocks == s.blocks + [e.stateBlock])
  {
    if e.Restart? {
      RevertsKeepOldBlocks(node.state, e.replies);
    }
  }

  /** A stored CASM was sent for its class, which a stream had asked for. */
  ghost predicate CasmWasSent(trace: seq<Node>, events: seq<Event>, i: nat, hash: ClassHash, casm: Casm)
    requires |trace| == |events| + 1 && i <= |events|
  {
    exists k :: 0 <= k < i && events[k] == CompiledClassAvailable(casm)
                && trace[k].session.Some? && [hash] <= trace[k].session.value.casmQueue
  }

  /** A step keeps each stored CASM with its class, drops it, or adds that of the class that was asked for. */
  lemma {:induction false} OldOrNewCasm(node: Node, e: Event, j: nat)
    requires Safe(node) && Enabled(node, e)
    requires j < |Next(node, e).state.casms| <= |S.Declared(Next(node, e).state.blocks)|
    ensures var s, s' := node.state, Next(node, e).state;
            var hash := S.Declared(s'.blocks)[j];
            || (j < |s.casms| && s'.casms[j] == s.casms[j] && hash == S.Declared(s.blocks)[j])
            || (e.CompiledClassAvailable? && s'.casms[j] == e.casm && [hash] <= node.session.value.casmQueue)
  {
    StepStores(node, e);
    var s, s' := node.state, Next(node, e).state;
    match e {
      case Restart(_) =>
        S.DeclaredPrefix(s.blocks, |s'.blocks|);
      case StateDiffAvailable(n, block) => S.AppendDeclares(s.blocks, block);
      case CompiledClassAvailable(_) =>
        var queue := node.session.value.casmQueue;
        var i :| QueueAt(S.Declared(s.blocks), |s.casms|, queue, i);
        QueueHead(S.Declared(s.blocks), |s.casms|, queue, i);
      case _ =>
    }
  }

  /** In every state of every run, each stored CASM is one that was sent for its class. */
  lemma {:induction false} CasmsWereSent(trace: seq<Node>, events: seq<Event>, i: nat, j: nat)
    requires IsRun(trace, events) && i < |trace| && j < |trace[i].state.casms|
    ensures j < |S.Declared(trace[i].state.blocks)|
    ensures CasmWasSent(trace, events, i, S.Declared(trace[i].state.blocks)[j], trace[i].state.casms[j])
  {
    EveryRunIsSafe(trace, events, i);
    if i > 0 {
      EveryRunIsSafe(trace, events, i - 1);
      var node, e := trace[i - 1], events[i - 1];
      assert Enabled(node, e) && trace[i] == Next(node, e);
      OldOrNewCasm(node, e, j);
      if j < |node.state.casms| {
        CasmsWereSent(trace, events, i - 1, j);
      }
    }
  }

  /** What the tables hold of the stored lists, entry by entry. */
  lemma {:induction false} TablesHold(db: Tables, node: Node, b: nat, i: nat)
    requires Represents(db, node.state) && Safe(node)
    ensures b < |node.state.blocks| ==> b in db.state.stateDiffs && db.state.stateDiffs[b] == node.state.blocks[b].diff
    ensures b < |node.state.blocks| && i < |node.state.blocks[b].classes| ==>
              var (h, class_) := node.state.blocks[b].classes[i];
              && h in db.state.declaredClasses && db.state.declaredClasses[h] == class_
              && h in db.state.declaredClassesBlock && db.state.declaredClassesBlock[h] == b
    ensures i < |node.state.casms| ==>
              var h := S.Declared(node.state.blocks)[i];
              h in db.state.casms && db.state.casms[h] == node.state.casms[i]
  {
    var s := node.state;
    S.DiffAt(s.blocks, b);
    if b < |s.blocks| && i < |s.blocks[b].classes| {
      S.ClassIs(s.blocks, b, i);
    }
    if i < |s.casms| {
      NoDuplicatesPrefix(S.Declared(s.blocks), S.Declared(s.blocks)[..|s.casms|]);
      S.CasmIs(S.Declared(s.blocks)[..|s.casms|], s.casms, i);
    }
  }

  // ----- What a stream is asked for -----

  /** A request for state diffs asks for the blocks from the state marker up to the header marker, `m` at most. */
  lemma {:induction false} StateDiffRangeIff(node: Node, m: nat, n: nat, block: S.StateBlock)
    requires node.session.Some? && |node.state.blocks| < |node.state.chain| && block.Fits()
    ensures Enabled(Next(node, RequestStateDiffs(m)), StateDiffAvailable(n, block)) <==>
            n < |node.state.chain| && n < |node.state.blocks| + m
  {
    var e := RequestStateDiffs(m);
    assert Enabled(node, e);
  }

  lemma {:induction false} DeclaredOfBoth(a: S.Blocks, b: S.Blocks)
    ensures S.Declared(a + b) == S.Declared(a) + S.Declared(b)
    decreases |b|
  {
    if b == [] {
      assert a + b == a;
    } else {
      var init, last := S.Init(b), S.Last(b);
      assert init + [last] == b && (a + init) + [last] == a + b;
      DeclaredOfBoth(a, init);
      S.AppendDeclares(init, last);
      S.AppendDeclares(a + init, last);
      Regroup(S.Declared(a), S.Declared(init), last.diff.declaredClasses);
    }
  }

  lemma Regroup<T>(a: seq<T>, b: seq<T>, c: seq<T>)
    ensures (a + b) + c == a + (b + c)
  {
  }

  /** A stretch of the flattened list is the flattened list of a stretch of blocks. */
  lemma {:induction false} DeclaredStretch(blocks: S.Blocks, from: nat, upTo: nat)
    requires from <= upTo <= |blocks|
    ensures S.Start(blocks, from) <= |S.Declared(blocks[..upTo])|
    ensures S.Declared(blocks[..upTo])[S.Start(blocks, from)..] == S.Declared(blocks[from..upTo])
  {
    assert blocks[..upTo] == blocks[..from] + blocks[from..upTo];
    DeclaredOfBoth(blocks[..from], blocks[from..upTo]);
  }

  /** A request for CASMs asks for the classes of the blocks from the compiled-class marker on, `m` blocks at most. */
  lemma {:induction false} CasmRequestIs(s: SyncState, m: nat, marker: nat)
    requires |s.casms| <= |S.Declared(s.blocks)| && S.IsCasmMarker(s.blocks, |s.casms|, marker)
    ensures marker <= S.Min(|s.blocks|, marker + m)
    ensures CasmRequest(s, m) == S.Declared(s.blocks[marker..S.Min(|s.blocks|, marker + m)])
  {
    S.CasmMarkerUnique(s.blocks, |s.casms|, marker, CasmMarker(s));
    MarkerHasClasses(s);
    DeclaredStretch(s.blocks, marker, S.Min(|s.blocks|, marker + m));
  }

  // ----- Following events -----

  /** The node after the events, if each can happen in its turn. */
  ghost function Follow(node: Node, events: seq<Event>): Option<Node>
    decreases |events|
  {
    if events == [] then Some(node)
    else if Enabled(node, events[0]) then Follow(Next(node, events[0]), events[1..])
    else None
  }

  ghost predicate IsOutcome(node: Node, events: seq<Event>, r: Option<Node>) {
    r == Follow(node, events)
  }

  /**
   The events can happen in their turn and lead to `end`. The outcome is bound, so that a proof
   replays the events only where it names it.
   */
  ghost predicate Leads(node: Node, events: seq<Event>, end: Node) {
    forall r :: IsOutcome(node, events, r) ==> r == Some(end)
  }

  lemma {:induction false} LeadsNowhere(node: Node)
    ensures Leads(node, [], node)
  {
  }

  lemma {:induction false} LeadsStep(node: Node, e: Event, events: seq<Event>, end: Node)
    requires Enabled(node, e) && events != [] && events[0] == e && Leads(Next(node, e), events[1..], end)
    ensures Leads(node, events, end)
  {
    assert IsOutcome(Next(node, e), events[1..], Follow(Next(node, e), events[1..]));
  }

  lemma {:induction false} FollowSafe(node: Node, events: seq<Event>)
    requires Safe(node) && Follow(node, events).Some?
    ensures Safe(Follow(node, events).value)
    decreases |events|
  {
    if events != [] {
      NextSafe(node, events[0]);
      FollowSafe(Next(node, events[0]), events[1..]);
    }
  }

  lemma {:induction false} LeadsSafe(node: Node, events: seq<Event>, end: Node)
    requires Safe(node) && Leads(node, events, end)
    ensures Safe(end)
  {
    assert IsOutcome(node, events, Follow(node, events));
    FollowSafe(node, events);
  }

  // ----- State diffs -----

  /** The state of the central chain: blocks that can be stored one after the other. */
  ghost predicate IsCentralState(diffs: S.Blocks) {
    && (forall b :: b in diffs ==> b.Fits() && b.diff.contracts.Exclusive())
    && S.NoDuplicates(S.Declared(diffs))
  }

  /** The central source's answer to a request for the blocks `[from, upTo)`. */
  ghost function DiffEvents(diffs: S.Blocks, from: nat, upTo: nat): seq<Event>
    requires from <= upTo <= |diffs|
  {
    seq(upTo - from, i requires 0 <= i < upTo - from => StateDiffAvailable(from + i, diffs[from + i]))
  }

  /** The next state diff of the central source, when it was asked for. */
  lemma {:induction false} DiffIsStored(node: Node, diffs: S.Blocks, n: nat)
    requires IsCentralState(diffs) && node.session.Some? && n == |node.state.blocks| < |diffs|
    requires n < node.session.value.stateUpTo && node.state.blocks == diffs[..n]
    ensures var e := StateDiffAvailable(n, diffs[n]);
            Enabled(node, e) && Next(node, e) == node.(state := node.state.(blocks := diffs[..n + 1]))
  {
    assert diffs[n] in diffs;
    S.StartStep(diffs, n);
    NoDuplicatesPrefix(S.Declared(diffs), S.Declared(node.state.blocks) + diffs[n].diff.declaredClasses);
    assert node.state.blocks + [diffs[n]] == diffs[..n + 1];
  }

  lemma {:induction false} DiffsAreStored(node: Node, diffs: S.Blocks, upTo: nat)
    requires IsCentralState(diffs) && node.session.Some?
    requires |node.state.blocks| <= upTo <= |diffs| && upTo <= node.session.value.stateUpTo
    requires node.state.blocks == diffs[..|node.state.blocks|]
    ensures Leads(node, DiffEvents(diffs, |node.state.blocks|, upTo), node.(state := node.state.(blocks := diffs[..upTo])))
    decreases upTo - |node.state.blocks|
  {
    var n := |node.state.blocks|;
    var events := DiffEvents(diffs, n, upTo);
    if n == upTo {
      assert events == [];
      LeadsNowhere(node);
    } else {
      var e := StateDiffAvailable(n, diffs[n]);
      DiffIsStored(node, diffs, n);
      assert events[0] == e && events[1..] == DiffEvents(diffs, n + 1, upTo);
      var next := node.(state := node.state.(blocks := diffs[..n + 1]));
      DiffsAreStored(next, diffs, upTo);
      LeadsStep(node, e, events, node.(state := node.state.(blocks := diffs[..upTo])));
    }
  }

  lemma NoDuplicatesPrefix(list: seq<ClassHash>, prefix: seq<ClassHash>)
    requires S.NoDuplicates(list) && prefix <= list
    ensures S.NoDuplicates(prefix)
  {
  }

  /** One round: a request for state diffs and the answer to it. */
  ghost function DiffRound(node: Node, diffs: S.Blocks, m: nat): seq<Event>
    requires |node.state.blocks| <= |diffs|
  {
    var n := |node.state.blocks|;
    [RequestStateDiffs(m)] + DiffEvents(diffs, n, S.Min(|diffs|, n + m))
  }

  lemma {:induction false} DiffRoundStores(node: Node, diffs: S.Blocks, m: nat) returns (end: Node)
    requires IsCentralState(diffs) && node.session.Some? && |diffs| == |node.state.chain|
    requires node.state.blocks <= diffs
    ensures Leads(node, DiffRound(node, diffs, m), end)
    ensures end.state == node.state.(blocks := diffs[..S.Min(|diffs|, |node.state.blocks| + m)])
    ensures end.session.Some? && end.session.value.casmQueue == node.session.value.casmQueue
  {
    var n := |node.state.blocks|;
    var upTo := S.Min(|diffs|, n + m);
    var e := RequestStateDiffs(m);
    var asked := Next(node, e);
    var answer := DiffEvents(diffs, n, upTo);
    assert ([e] + answer)[1..] == answer;
    if n < |diffs| {
      DiffsAreStored(asked, diffs, upTo);
      end := asked.(state := asked.state.(blocks := diffs[..upTo]));
    } else {
      assert answer == [] && asked == node && diffs[..upTo] == diffs;
      LeadsNowhere(asked);
      end := node;
    }
    LeadsStep(node, e, [e] + answer, end);
  }

  /** `rounds` rounds of state diffs, one after the other, lead to `end`. */
  ghost predicate DiffRoundsLead(node: Node, diffs: S.Blocks, m: nat, rounds: nat, end: Node)
    decreases rounds
  {
    if rounds == 0 then end == node
    else
      && |node.state.blocks| <= |diffs|
      && exists next :: Leads(node, DiffRound(node, diffs, m), next) && DiffRoundsLead(next, diffs, m, rounds - 1, end)
  }

  /** Enough rounds, of any size but 0, bring the state of every stored header. */
  lemma {:induction false} StateDiffsConverge(node: Node, diffs: S.Blocks, m: nat, rounds: nat) returns (end: Node)
    requires Safe(node) && IsCentralState(diffs) && node.session.Some? && |diffs| == |node.state.chain|
    requires node.state.blocks <= diffs && m > 0
    requires |diffs| - |node.state.blocks| <= rounds
    ensures DiffRoundsLead(node, diffs, m, rounds, end) && Safe(end)
    ensures end.state == node.state.(blocks := diffs)
    ensures end.session.Some? && end.session.value.casmQueue == node.session.value.casmQueue
    decreases rounds
  {
    if rounds == 0 {
      end := node;
    } else {
      var next := DiffRoundStores(node, diffs, m);
      LeadsSafe(node, DiffRound(node, diffs, m), next);
      end := StateDiffsConverge(next, diffs, m, rounds - 1);
    }
  }

  // ----- CASMs -----

  /** The CASMs of a list of classes; `casmOf` is what the central source has for each. */
  function CasmsFor(list: seq<ClassHash>, casmOf: ClassHash -> Casm): seq<Casm> {
    seq(|list|, i requires 0 <= i < |list| => casmOf(list[i]))
  }

  /** The central source's answer to a request for these classes. */
  ghost function CasmEvents(queue: seq<ClassHash>, casmOf: ClassHash -> Casm): seq<Event> {
    seq(|queue|, i requires 0 <= i < |queue| => CompiledClassAvailable(casmOf(queue[i])))
  }

  /** The node with the CASMs of the first `k` classes, and no stream running. */
  ghost function WithCasms(node: Node, casmOf: ClassHash -> Casm, k: nat): Node
    requires node.session.Some? && |node.state.casms| <= k <= |S.Declared(node.state.blocks)|
  {
    var s := node.state;
    node.(state := s.(casms := s.casms + CasmsFor(S.Declared(s.blocks)[|s.casms|..k], casmOf)),
          session := Some(node.session.value.(casmQueue := [])))
  }

  /** A node that has the next CASM too, or a shorter queue, has the same ahead of it. */
  lemma {:induction false} SameAhead(node: Node, next: Node, casmOf: ClassHash -> Casm, k: nat)
    requires node.session.Some? && |node.state.casms| <= |next.state.casms| <= k <= |S.Declared(node.state.blocks)|
    requires next.session.Some? && next.session.value.stateUpTo == node.session.value.stateUpTo
    requires next == node.(state := node.state.(casms := next.state.casms), session := next.session)
    requires var d, n := S.Declared(node.state.blocks), |node.state.casms|;
             next.state.casms == node.state.casms || (n < |d| && next.state.casms == node.state.casms + [casmOf(d[n])])
    ensures WithCasms(next, casmOf, k) == WithCasms(node, casmOf, k)
  {
    var d, n := S.Declared(node.state.blocks), |node.state.casms|;
    if next.state.casms != node.state.casms {
      var more, rest := CasmsFor(d[n..k], casmOf), CasmsFor(d[n + 1..k], casmOf);
      assert more == [casmOf(d[n])] + rest;
      assert node.state.casms + more == next.state.casms + rest;
    }
  }

  /** One CASM of a stream. */
  lemma {:induction false} CasmIsStored(node: Node, casmOf: ClassHash -> Casm, i: nat, k: nat)
    requires Safe(node) && node.session.Some? && node.session.value.casmQueue != []
    requires QueueAt(S.Declared(node.state.blocks), |node.state.casms|, node.session.value.casmQueue, i)
    requires |node.state.casms| <= k && i + |node.session.value.casmQueue| <= k <= |S.Declared(node.state.blocks)|
    ensures var next := Next(node, CompiledClassAvailable(casmOf(node.session.value.casmQueue[0])));
            && next.session.Some? && next.session.value.casmQueue == node.session.value.casmQueue[1..]
            && QueueAt(S.Declared(next.state.blocks), |next.state.casms|, next.session.value.casmQueue, i + 1)
            && next.state.blocks == node.state.blocks
            && |next.state.casms| == (if i < |node.state.casms| then |node.state.casms| else i + 1)
            && WithCasms(next, casmOf, k) == WithCasms(node, casmOf, k)
  {
    var queue := node.session.value.casmQueue;
    var e := CompiledClassAvailable(casmOf(queue[0]));
    StepStores(node, e);
    QueueHead(S.Declared(node.state.blocks), |node.state.casms|, queue, i);
    SameAhead(node, Next(node, e), casmOf, k);
  }

  /** A stream stores the CASMs of the classes it reaches beyond the stored ones. */
  lemma {:induction false} CasmsAreStored(node: Node, casmOf: ClassHash -> Casm, i: nat, k: nat)
    requires Safe(node) && node.session.Some?
    requires QueueAt(S.Declared(node.state.blocks), |node.state.casms|, node.session.value.casmQueue, i)
    requires k == Max(|node.state.casms|, i + |node.session.value.casmQueue|)
    ensures |node.state.casms| <= k <= |S.Declared(node.state.blocks)|
    ensures Leads(node, CasmEvents(node.session.value.casmQueue, casmOf), WithCasms(node, casmOf, k))
    decreases |node.session.value.casmQueue|
  {
    var queue := node.session.value.casmQueue;
    if queue == [] {
      NothingAhead(node, casmOf);
      LeadsNowhere(node);
      assert CasmEvents(queue, casmOf) == [];
    } else {
      var e := CompiledClassAvailable(casmOf(queue[0]));
      CasmIsStored(node, casmOf, i, k);
      NextSafe(node, e);
      CasmsAreStored(Next(node, e), casmOf, i + 1, k);
      var events := CasmEvents(queue, casmOf);
      assert events[0] == e && events[1..] == CasmEvents(queue[1..], casmOf);
      LeadsStep(node, e, events, WithCasms(node, casmOf, k));
    }
  }

  function Max(a: nat, b: nat): nat {
    if a < b then b else a
  }

  lemma {:induction false} NothingAhead(node: Node, casmOf: ClassHash -> Casm)
    requires node.session.Some? && node.session.value.casmQueue == []
    requires |node.state.casms| <= |S.Declared(node.state.blocks)|
    ensures WithCasms(node, casmOf, |node.state.casms|) == node
  {
    var n := |node.state.casms|;
    assert CasmsFor(S.Declared(node.state.blocks)[n..n], casmOf) == [];
    assert node.state.casms + [] == node.state.casms;
  }

  /** One round: a request for CASMs and the answer to it. */
  ghost function CasmRound(node: Node, casmOf: ClassHash -> Casm, m: nat): seq<Event> {
    [RequestCompiledClasses(m)] + CasmEvents(CasmRequest(node.state, m), casmOf)
  }

  /** A request of any size but 0 reaches beyond the stored CASMs. */
  lemma {:induction false} RequestReaches(s: SyncState, m: nat) returns (i: nat)
    requires |s.casms| <= |S.Declared(s.blocks)|
    ensures QueueAt(S.Declared(s.blocks), |s.casms|, CasmRequest(s, m), i)
    ensures m > 0 && |s.casms| < |S.Declared(s.blocks)| ==> |s.casms| < i + |CasmRequest(s, m)|
  {
    CasmRequestAligned(s, m);
    var marker := CasmMarker(s);
    i := S.Start(s.blocks, marker);
    if m > 0 && |s.casms| < |S.Declared(s.blocks)| {
      assert s.blocks[..|s.blocks|] == s.blocks;
      MarkerHasClasses(s);
      S.StartMonotone(s.blocks, marker + 1, S.Min(|s.blocks|, marker + m));
    }
  }

  lemma {:induction false} CasmRoundStores(node: Node, casmOf: ClassHash -> Casm, m: nat) returns (k: nat)
    requires Safe(node) && node.session.Some? && node.session.value.casmQueue == []
    ensures |node.state.casms| <= k <= |S.Declared(node.state.blocks)|
    ensures m > 0 && |node.state.casms| < |S.Declared(node.state.blocks)| ==> |node.state.casms| < k
    ensures Leads(node, CasmRound(node, casmOf, m), WithCasms(node, casmOf, k))
  {
    var e := RequestCompiledClasses(m);
    var asked := Next(node, e);
    var i := RequestReaches(node.state, m);
    NextSafe(node, e);
    k := Max(|node.state.casms|, i + |CasmRequest(node.state, m)|);
    CasmsAreStored(asked, casmOf, i, k);
    SameAhead(node, asked, casmOf, k);
    var answer := CasmEvents(CasmRequest(node.state, m), casmOf);
    assert ([e] + answer)[1..] == answer;
    LeadsStep(node, e, [e] + answer, WithCasms(node, casmOf, k));
  }

  /** `rounds` rounds of CASMs, one after the other, lead to `end`. */
  ghost predicate CasmRoundsLead(node: Node, casmOf: ClassHash -> Casm, m: nat, rounds: nat, end: Node)
    decreases rounds
  {
    if rounds == 0 then end == node
    else exists next :: Leads(node, CasmRound(node, casmOf, m), next) && CasmRoundsLead(next, casmOf, m, rounds - 1, end)
  }

  lemma {:induction false} CasmRoundFirst(node: Node, casmOf: ClassHash -> Casm, m: nat, rounds: nat, next: Node, end: Node)
    requires rounds > 0 && Leads(node, CasmRound(node, casmOf, m), next) && CasmRoundsLead(next, casmOf, m, rounds - 1, end)
    ensures CasmRoundsLead(node, casmOf, m, rounds, end)
  {
  }

  lemma {:induction false} NoRoundNeeded(node: Node, casmOf: ClassHash -> Casm, m: nat, all: nat)
    requires node.session.Some? && node.session.value.casmQueue == []
    requires all == |S.Declared(node.state.blocks)| == |node.state.casms|
    ensures CasmRoundsLead(node, casmOf, m, 0, WithCasms(node, casmOf, all))
  {
    NothingAhead(node, casmOf);
  }

  lemma {:induction false} WithCasmsTwice(node: Node, casmOf: ClassHash -> Casm, k: nat, l: nat)
    requires node.session.Some? && |node.state.casms| <= k <= l <= |S.Declared(node.state.blocks)|
    ensures |WithCasms(node, casmOf, k).state.casms| == k && WithCasms(node, casmOf, k).state.blocks == node.state.blocks
    ensures WithCasms(WithCasms(node, casmOf, k), casmOf, l) == WithCasms(node, casmOf, l)
  {
    var d, n := S.Declared(node.state.blocks), |node.state.casms|;
    assert CasmsFor(d[n..l], casmOf) == CasmsFor(d[n..k], casmOf) + CasmsFor(d[k..l], casmOf);
    assert WithCasms(WithCasms(node, casmOf, k), casmOf, l).state.casms == WithCasms(node, casmOf, l).state.casms;
  }

  lemma {:induction false} WithCasmsSafe(node: Node, casmOf: ClassHash -> Casm, k: nat)
    requires Safe(node) && node.session.Some? && |node.state.casms| <= k <= |S.Declared(node.state.blocks)|
    ensures Safe(WithCasms(node, casmOf, k))
  {
    assert QueueAt(S.Declared(node.state.blocks), k, [], 0);
  }

  /** A round of any size but 0 brings a CASM if one is missing, and the rest stays ahead. */
  lemma {:induction false} CasmRoundProgress(node: Node, casmOf: ClassHash -> Casm, m: nat, all: nat) returns (next: Node)
    requires Safe(node) && node.session.Some? && node.session.value.casmQueue == [] && m > 0
    requires all == |S.Declared(node.state.blocks)|
    ensures Leads(node, CasmRound(node, casmOf, m), next)
    ensures Safe(next) && next.session.Some? && next.session.value.casmQueue == []
    ensures next.state.blocks == node.state.blocks
    ensures |node.state.casms| < all ==> |node.state.casms| < |next.state.casms|
    ensures |node.state.casms| <= |next.state.casms| <= all
    ensures WithCasms(next, casmOf, all) == WithCasms(node, casmOf, all)
  {
    var k := CasmRoundStores(node, casmOf, m);
    next := WithCasms(node, casmOf, k);
    WithCasmsSafe(node, casmOf, k);
    WithCasmsTwice(node, casmOf, k, all);
  }

  /** Enough rounds, of any size but 0, bring the CASM of every declared class. */
  lemma {:induction false} CasmsConverge(node: Node, casmOf: ClassHash -> Casm, m: nat, rounds: nat, all: nat)
    requires Safe(node) && node.session.Some? && node.session.value.casmQueue == [] && m > 0
    requires all == |S.Declared(node.state.blocks)| && all - |node.state.casms| <= rounds
    ensures CasmRoundsLead(node, casmOf, m, rounds, WithCasms(node, casmOf, all))
    decreases rounds
  {
    if rounds == 0 {
      NoRoundNeeded(node, casmOf, m, all);
    } else {
      var next := CasmRoundProgress(node, casmOf, m, all);
      CasmsConverge(next, casmOf, m, rounds - 1, all);
      CasmRoundFirst(node, casmOf, m, rounds, next, WithCasms(node, casmOf, all));
    }
  }

  // ----- Everything together -----

  function EntriesFor(blocks: seq<Block>): seq<Entry> {
    seq(|blocks|, i requires 0 <= i < |blocks| => Entry(blocks[i].header, Some(blocks[i].signature)))
  }

  ghost function BlockEvents(blocks: seq<Block>, from: nat): seq<Event>
    requires from <= |blocks|
  {
    seq(|blocks| - from, i requires 0 <= i < |blocks| - from => BlockAvailable(from + i, blocks[from + i]))
  }

  /** The next block of a central chain that the stored chain agrees with can be stored. */
  lemma {:induction false} CentralBlockIsNext(chain: Chain, blocks: seq<Block>)
    requires IsCentralChain(blocks) && AgreeUpTo(chain, HeadersOf(blocks), |chain|) && |chain| < |blocks|
    ensures IsNextBlock(chain, |chain|, blocks[|chain|])
    ensures AgreeUpTo(chain + [Entry(blocks[|chain|].header, Some(blocks[|chain|].signature))], HeadersOf(blocks), |chain| + 1)
  {
    var n, headers := |chain|, HeadersOf(blocks);
    assert n > 0 ==> headers[n].parentHash == headers[n - 1].blockHash;
    forall i | 0 <= i < n ensures chain[i].header.blockHash != blocks[n].header.blockHash {
      assert chain[i].header.blockHash == headers[i].blockHash;
    }
    assert blocks[n] in blocks;
  }

  /** The node with the remaining blocks of the central chain, as they were sent. */
  ghost function WithBlocks(node: Node, blocks: seq<Block>): Node
    requires |node.state.chain| <= |blocks|
  {
    var chain := node.state.chain;
    node.(state := node.state.(chain := chain + EntriesFor(blocks[|chain|..])))
  }

  lemma {:induction false} BlockIsStored(node: Node, blocks: seq<Block>)
    requires Safe(node) && node.session.Some? && IsCentralChain(blocks) && |node.state.chain| < |blocks|
    requires AgreeUpTo(node.state.chain, HeadersOf(blocks), |node.state.chain|)
    ensures var n := |node.state.chain|;
            var next := Next(node, BlockAvailable(n, blocks[n]));
            && next.session.Some? && |next.state.chain| == n + 1 && AgreeUpTo(next.state.chain, HeadersOf(blocks), n + 1)
            && WithBlocks(next, blocks) == WithBlocks(node, blocks)
  {
    var chain, n := node.state.chain, |node.state.chain|;
    var e, entry := BlockAvailable(n, blocks[n]), Entry(blocks[n].header, Some(blocks[n].signature));
    CentralBlockIsNext(chain, blocks);
    StepStores(node, e);
    SessionEndsIff(node, e);
    assert chain + EntriesFor(blocks[n..]) == (chain + [entry]) + EntriesFor(blocks[n + 1..]);
  }

  /** The remaining blocks of the central chain are stored as they are sent. */
  lemma {:induction false} BlocksAreStored(node: Node, blocks: seq<Block>)
    requires Safe(node) && node.session.Some? && IsCentralChain(blocks)
    requires AgreeUpTo(node.state.chain, HeadersOf(blocks), |node.state.chain|)
    ensures Leads(node, BlockEvents(blocks, |node.state.chain|), WithBlocks(node, blocks))
    decreases |blocks| - |node.state.chain|
  {
    var n := |node.state.chain|;
    if n == |blocks| {
      assert node.state.chain + EntriesFor(blocks[n..]) == node.state.chain;
      assert BlockEvents(blocks, n) == [];
      LeadsNowhere(node);
    } else {
      var e := BlockAvailable(n, blocks[n]);
      BlockIsStored(node, blocks);
      NextSafe(node, e);
      BlocksAreStored(Next(node, e), blocks);
      var events := BlockEvents(blocks, n);
      assert events[0] == e && events[1..] == BlockEvents(blocks, n + 1);
      LeadsStep(node, e, events, WithBlocks(node, blocks));
    }
  }

  /** What a node stores of blocks that the central source has too is what the central source has for them. */
  ghost predicate HashDeterminesState(s: SyncState, blocks: seq<Block>, diffs: S.Blocks, casmOf: ClassHash -> Casm)
    requires |s.blocks| <= |s.chain| && |s.casms| <= |S.Declared(s.blocks)| && |diffs| == |blocks|
  {
    && (forall i :: 0 <= i < |s.blocks| && i < |diffs| && s.chain[i].header.blockHash == blocks[i].header.blockHash ==>
          s.blocks[i] == diffs[i])
    && (forall j :: 0 <= j < |s.casms| ==> s.casms[j] == casmOf(S.Declared(s.blocks)[j]))
  }

  lemma {:induction false} CutAgrees(s: SyncState, s': SyncState, blocks: seq<Block>, diffs: S.Blocks, casmOf: ClassHash -> Casm)
    requires |s.blocks| <= |s.chain| && |s.casms| <= |S.Declared(s.blocks)| && |diffs| == |blocks|
    requires HashDeterminesState(s, blocks, diffs, casmOf)
    requires CutTo(s, s') && AgreeUpTo(s'.chain, HeadersOf(blocks), |s'.chain|)
    ensures s'.blocks <= diffs
    ensures s'.casms == CasmsFor(S.Declared(s'.blocks)[..|s'.casms|], casmOf)
  {
    forall i | 0 <= i < |s'.blocks| ensures s'.blocks[i] == diffs[i] {
      assert s'.chain[i].header.blockHash == HeadersOf(blocks)[i].blockHash;
    }
    S.DeclaredPrefix(s.blocks, |s'.blocks|);
  }

  /** After a restart against the central chain, everything stored is the central source's. */
  lemma {:induction false} RestartAgrees(node: Node, blocks: seq<Block>)
    requires Safe(node) && IsCentralChain(blocks) && HashDeterminesParent(node.state.chain, HeadersOf(blocks))
    ensures var node' := Next(node, Restart(CentralReplies(HeadersOf(blocks))));
            && Safe(node') && node'.session == Some(Session(0, []))
            && AgreeUpTo(node'.state.chain, HeadersOf(blocks), |node'.state.chain|)
            && CutTo(node.state, node'.state)
  {
    var e := Restart(CentralReplies(HeadersOf(blocks)));
    RevertsToLongestCommonPrefix(node.state, HeadersOf(blocks));
    NextSafe(node, e);
    StepStores(node, e);
  }

  lemma {:induction false} AllCasms(node: Node, casmOf: ClassHash -> Casm)
    requires node.session.Some? && |node.state.casms| <= |S.Declared(node.state.blocks)|
    requires node.state.casms == CasmsFor(S.Declared(node.state.blocks)[..|node.state.casms|], casmOf)
    ensures var d := S.Declared(node.state.blocks);
            WithCasms(node, casmOf, |d|).state == node.state.(casms := CasmsFor(d, casmOf))
  {
    var d, k := S.Declared(node.state.blocks), |node.state.casms|;
    assert CasmsFor(d[..k], casmOf) + CasmsFor(d[k..|d|], casmOf) == CasmsFor(d, casmOf);
  }

  /** The stored CASMs are still those of the first classes when more blocks have state. */
  lemma {:induction false} CasmsStayFirst(older: S.Blocks, diffs: S.Blocks, casms: seq<Casm>, casmOf: ClassHash -> Casm)
    requires older <= diffs && |casms| <= |S.Declared(older)| && casms == CasmsFor(S.Declared(older)[..|casms|], casmOf)
    ensures |casms| <= |S.Declared(diffs)| && casms == CasmsFor(S.Declared(diffs)[..|casms|], casmOf)
  {
    S.DeclaredPrefix(diffs, |older|);
    assert diffs[..|older|] == older;
  }

  /**
   From any safe node, a restart against a central source, its remaining blocks, and enough rounds of
   state diffs and of CASMs end with every block, state diff, class and CASM that the central source
   has, and with the session still on.
   */
  lemma {:induction false} NodeConverges(node: Node, blocks: seq<Block>, diffs: S.Blocks, casmOf: ClassHash -> Casm, m: nat, rounds: nat)
    returns (restarted: Node, withBlocks: Node, withState: Node, end: Node)
    requires Safe(node) && IsCentralChain(blocks) && HashDeterminesParent(node.state.chain, HeadersOf(blocks))
    requires |diffs| == |blocks| && IsCentralState(diffs) && HashDeterminesState(node.state, blocks, diffs, casmOf)
    requires m > 0 && |blocks| <= rounds && |S.Declared(diffs)| <= rounds
    ensures restarted == Next(node, Restart(CentralReplies(HeadersOf(blocks)))) && |restarted.state.chain| <= |blocks|
    ensures Leads(restarted, BlockEvents(blocks, |restarted.state.chain|), withBlocks)
    ensures DiffRoundsLead(withBlocks, diffs, m, rounds, withState)
    ensures CasmRoundsLead(withState, casmOf, m, rounds, end) && end.session.Some?
    ensures |end.state.chain| == |blocks| && AgreeUpTo(end.state.chain, HeadersOf(blocks), |blocks|)
    ensures end.state.chain == restarted.state.chain + EntriesFor(blocks[|restarted.state.chain|..])
    ensures end.state.blocks == diffs && end.state.casms == CasmsFor(S.Declared(diffs), casmOf)
  {
    RestartAgrees(node, blocks);
    restarted := Next(node, Restart(CentralReplies(HeadersOf(blocks))));
    CutAgrees(node.state, restarted.state, blocks, diffs, casmOf);
    withBlocks := BlocksConverge(restarted, blocks);
    withState := StateDiffsConverge(withBlocks, diffs, m, rounds);
    CasmsStayFirst(withBlocks.state.blocks, diffs, withBlocks.state.casms, casmOf);
    CasmsConverge(withState, casmOf, m, rounds, |S.Declared(diffs)|);
    AllCasms(withState, casmOf);
    end := WithCasms(withState, casmOf, |S.Declared(diffs)|);
  }

  lemma {:induction false} BlocksConverge(node: Node, blocks: seq<Block>) returns (end: Node)
    requires Safe(node) && node.session.Some? && IsCentralChain(blocks)
    requires AgreeUpTo(node.state.chain, HeadersOf(blocks), |node.state.chain|)
    ensures Leads(node, BlockEvents(blocks, |node.state.chain|), end)
    ensures Safe(end) && end.session == node.session
    ensures end.state == node.state.(chain := node.state.chain + EntriesFor(blocks[|node.state.chain|..]))
    ensures |end.state.chain| == |blocks| && AgreeUpTo(end.state.chain, HeadersOf(blocks), |blocks|)
  {
    BlocksAreStored(node, blocks);
    end := WithBlocks(node, blocks);
    LeadsSafe(node, BlockEvents(blocks, |node.state.chain|), end);
  }
}
