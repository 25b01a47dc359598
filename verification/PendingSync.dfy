/** `sync_pending_data`: the loop that keeps the node's pending block and its classes up to date. */
module PendingSyncs {
  import opened Wrappers
  import opened ChainTypes
  import opened StorageTxns
  import opened PendingSpec
  import S = StateSpec

  const GENESIS_HASH: BlockHash := 0

  /** The shared pending data and classes, and the task pool of the running session. */
  class PendingSync {
    var pendingData: PendingData
    var classes: map<ClassHash, StoredClass>
    var compiledClasses: map<ClassHash, StoredClass>
    var running: bool
    var latestBlockHash: BlockHash
    var tasks: multiset<Task>
    var processedClasses: set<ClassHash>
    var processedCompiledClasses: set<Felt>
    ghost var pushed: seq<Task>
    ghost var written: seq<PendingData>
    ghost var clears: nat

    ghost function AsSession(): Session
      reads this
    {
      Session(latestBlockHash, tasks, processedClasses, processedCompiledClasses, pushed, written, clears)
    }

    ghost function AsState(): State
      reads this
    {
      State(pendingData, classes, compiledClasses, if running then Some(AsSession()) else None)
    }

    constructor (initial: PendingData)
      ensures AsState() == State(initial, map[], map[], None) && Inv(AsState())
    {
      pendingData, classes, compiledClasses := initial, map[], map[];
      running, latestBlockHash, tasks, processedClasses, processedCompiledClasses := false, 0, multiset{}, {}, {};
      pushed, written, clears := [], [], 0;
    }

    method PushTask(t: Task)
      modifies this`tasks, this`pushed
      ensures AsSession() == Push(old(AsSession()), t)
    {
      tasks, pushed := tasks + multiset{t}, pushed + [t];
    }

    /** A session watches for pending data on top of the last stored header. */
    method StartFromStorage(txn: StorageTxn)
      requires !running && txn.HeadersValid()
      modifies this
      ensures AsState() == Next(old(AsState()), Start(latestBlockHash))
      ensures latestBlockHash
           == if txn.chain == [] then GENESIS_HASH else txn.chain[|txn.chain| - 1].header.blockHash
    {
      var marker := txn.tables.markers.header;
      var hash := GENESIS_HASH;
      if marker != 0 {
        var header := txn.GetBlockHeader(marker - 1);
        hash := header.value.blockHash;
      }
      StartSession(hash);
    }

    method StartSession(hash: BlockHash)
      requires !running
      modifies this
      ensures AsState() == Next(old(AsState()), Start(hash)) && latestBlockHash == hash
    {
      running, latestBlockHash, tasks := true, hash, multiset{FetchPendingData};
      processedClasses, processedCompiledClasses := {}, {};
      pushed, written, clears := [FetchPendingData], [], 0;
    }

    /** The caller drops the session, or a task fails: all its tasks go with it. */
    method StopSession()
      requires running
      modifies this`running
      ensures AsState() == Next(old(AsState()), Stop)
    {
      running := false;
    }

    // ----- get_pending_data -----

    method PendingDataFetched(d: PendingData)
      requires Enabled(AsState(), Fetched(d))
      modifies this`running, this`tasks
      ensures AsState() == Next(old(AsState()), Fetched(d))
    {
      if d.Parent() != latestBlockHash {
        running := false;
      } else {
        tasks := tasks - multiset{FetchPendingData} + multiset{ComparePendingData(d)};
      }
    }

    method PendingDataCompared(d: PendingData)
      requires Enabled(AsState(), Compared(d))
      modifies this`tasks, this`pushed
      ensures AsState() == Next(old(AsState()), Compared(d))
    {
      var currentParent := pendingData.Parent();
      tasks := tasks - multiset{ComparePendingData(d)};
      if currentParent != d.Parent() || d.nTransactions > pendingData.nTransactions {
        tasks := tasks + multiset{if currentParent != d.Parent() then ClearPendingClasses(d) else WritePendingData(d)};
      } else {
        PushTask(FetchPendingData);
      }
    }

    method PendingClassesCleared(d: PendingData)
      requires Enabled(AsState(), Cleared(d))
      modifies this`tasks, this`classes, this`compiledClasses, this`clears
      ensures AsState() == Next(old(AsState()), Cleared(d))
    {
      classes, compiledClasses, clears := map[], map[], clears + 1;
      tasks := tasks - multiset{ClearPendingClasses(d)} + multiset{WritePendingData(d)};
    }

    // ----- The loop's reaction to new pending data -----

    method PendingDataWritten(d: PendingData)
      modifies this`pendingData, this`written, this`tasks, this`pushed, this`processedClasses, this`processedCompiledClasses
      ensures AsSession() == WriteDone(old(AsSession()), d) && pendingData == d
    {
      tasks := tasks - multiset{WritePendingData(d)};
      pendingData, written := d, written + [d];
      PushTasks(pendingData);
    }

    method PushTasks(d: PendingData)
      modifies this`tasks, this`pushed, this`processedClasses, this`processedCompiledClasses
      ensures AsSession() == OnNewPendingData(old(AsSession()), d)
    {
      PushDeclaredClasses(d);
      PushOldDeclaredContracts(d);
      PushTask(FetchPendingData);
    }

    method PushClassTask(h: ClassHash, d: PendingData)
      modifies this`tasks, this`pushed, this`processedClasses
      ensures AsSession() == PushClass(old(AsSession()), h, d)
    {
      if h !in processedClasses {
        processedClasses := processedClasses + {h};
        PushTask(FetchClass(h, d));
      }
    }

    method PushCompiledClassTask(entry: DeclaredClass, d: PendingData)
      modifies this`tasks, this`pushed, this`processedCompiledClasses
      ensures AsSession() == PushCompiledClass(old(AsSession()), entry, d)
    {
      if entry.compiledClassHash !in processedCompiledClasses {
        processedCompiledClasses := processedCompiledClasses + {entry.compiledClassHash};
        PushTask(FetchCompiledClass(entry.classHash, d));
      }
    }

    method PushDeclaredClasses(d: PendingData)
      modifies this`tasks, this`pushed, this`processedClasses, this`processedCompiledClasses
      ensures AsSession() == PushDeclared(old(AsSession()), d, |d.declaredClasses|)
    {
      for i := 0 to |d.declaredClasses|
        invariant AsSession() == PushDeclared(old(AsSession()), d, i)
      {
        var entry := d.declaredClasses[i];
        PushClassTask(entry.classHash, d);
        PushCompiledClassTask(entry, d);
      }
    }

    method PushOldDeclaredContracts(d: PendingData)
      modifies this`tasks, this`pushed, this`processedClasses
      ensures AsSession() == PushOldDeclared(old(AsSession()), d, |d.oldDeclaredContracts|)
    {
      for i := 0 to |d.oldDeclaredContracts|
        invariant AsSession() == PushOldDeclared(old(AsSession()), d, i)
      {
        PushClassTask(d.oldDeclaredContracts[i], d);
      }
    }

    // ----- get_pending_class and get_pending_compiled_class -----

    method ClassDownloaded(h: ClassHash, d: PendingData, c: Felt)
      requires Enabled(AsState(), ClassFetched(h, d, c))
      modifies this`tasks
      ensures AsState() == Next(old(AsState()), ClassFetched(h, d, c))
    {
      tasks := tasks - multiset{FetchClass(h, d)} + multiset{AddClass(h, d, c)};
    }

    method ClassStored(h: ClassHash, d: PendingData, c: Felt)
      requires Enabled(AsState(), ClassAdded(h, d, c))
      modifies this`tasks, this`classes
      ensures AsState() == Next(old(AsState()), ClassAdded(h, d, c))
    {
      classes := classes[h := StoredClass(c, d)];
      tasks := tasks - multiset{AddClass(h, d, c)};
    }

    method CompiledClassDownloaded(h: ClassHash, d: PendingData, c: Felt)
      requires Enabled(AsState(), CompiledClassFetched(h, d, c))
      modifies this`tasks
      ensures AsState() == Next(old(AsState()), CompiledClassFetched(h, d, c))
    {
      tasks := tasks - multiset{FetchCompiledClass(h, d)} + multiset{AddCompiledClass(h, d, c)};
    }

    method CompiledClassStored(h: ClassHash, d: PendingData, c: Felt)
      requires Enabled(AsState(), CompiledClassAdded(h, d, c))
      modifies this`tasks, this`compiledClasses
      ensures AsState() == Next(old(AsState()), CompiledClassAdded(h, d, c))
    {
      compiledClasses := compiledClasses[h := StoredClass(c, d)];
      tasks := tasks - multiset{AddCompiledClass(h, d, c)};
    }

    // ----- One step of the loop -----

    method Process(e: Event)
      requires Inv(AsState()) && Enabled(AsState(), e)
      modifies this
      ensures Inv(AsState()) && AsState() == Next(old(AsState()), e)
    {
      NextKeepsInv(AsState(), e);
      Dispatch(e);
    }

    method Dispatch(e: Event)
      requires Enabled(AsState(), e)
      modifies this
      ensures AsState() == Next(old(AsState()), e)
    {
      match e
      case Start(latest) => StartSession(latest);
      case Stop => StopSession();
      case Fetched(d) => PendingDataFetched(d);
      case Compared(d) => PendingDataCompared(d);
      case Cleared(d) => PendingClassesCleared(d);
      case Written(d) => PendingDataWritten(d);
      case ClassFetched(h, d, c) => ClassDownloaded(h, d, c);
      case ClassAdded(h, d, c) => ClassStored(h, d, c);
      case CompiledClassFetched(h, d, c) => CompiledClassDownloaded(h, d, c);
      case CompiledClassAdded(h, d, c) => CompiledClassStored(h, d, c);
    }
  }

  // ----- Every run -----

  /** A run of sessions: any interleaving of task steps, starts and stops. */
  ghost predicate IsRun(trace: seq<State>, events: seq<Event>) {
    && |trace| == |events| + 1
    && trace[0].classes == map[] && trace[0].compiledClasses == map[] && trace[0].session.None?
    && forall i :: 0 <= i < |events| ==> Enabled(trace[i], events[i]) && trace[i + 1] == Next(trace[i], events[i])
  }

  lemma {:induction false} EveryRunKeepsInv(trace: seq<State>, events: seq<Event>, i: nat)
    requires IsRun(trace, events) && i < |trace|
    ensures Inv(trace[i])
  {
    if i > 0 {
      EveryRunKeepsInv(trace, events, i - 1);
      NextKeepsInv(trace[i - 1], events[i - 1]);
    }
  }

  /** The pool is never empty: it holds one task, once, that downloads pending data. */
  lemma OneDataTask(trace: seq<State>, events: seq<Event>, i: nat)
    requires IsRun(trace, events) && i < |trace| && trace[i].session.Some?
    ensures exists t :: IsTheDataTask(trace[i].session.value.tasks, t)
  {
    EveryRunKeepsInv(trace, events, i);
  }

  /** A session clears the class store at most once, and before it has asked for any class. */
  lemma ClearsOnceBeforeAnyClassTask(trace: seq<State>, events: seq<Event>, i: nat)
    requires IsRun(trace, events) && i < |trace| && trace[i].session.Some?
    ensures var se := trace[i].session.value;
            && se.clears <= 1
            && (i < |events| && events[i].Cleared? ==>
                  se.clears == 0 && ClassRequests(se.pushed) == [] && CompiledClassRequests(se.pushed) == [])
  {
    EveryRunKeepsInv(trace, events, i);
    var s := trace[i];
    var se := s.session.value;
    var t :| SessionInv(s, se, t);
    if i < |events| && events[i].Cleared? {
      assert ClearPendingClasses(events[i].pending) in se.tasks;
      assert t == ClearPendingClasses(events[i].pending);
    }
  }

  /** In every state, also between sessions, a stored class was fetched for the current parent block. */
  lemma ClassesBelongToCurrentParent(trace: seq<State>, events: seq<Event>, i: nat, h: ClassHash)
    requires IsRun(trace, events) && i < |trace|
    ensures h in trace[i].classes ==>
              var origin := trace[i].classes[h].origin;
              origin.Parent() == trace[i].pendingData.Parent() && origin.Declares(h)
    ensures h in trace[i].compiledClasses ==>
              var origin := trace[i].compiledClasses[h].origin;
              origin.Parent() == trace[i].pendingData.Parent() && origin.Declares(h)
  {
    EveryRunKeepsInv(trace, events, i);
  }

  /** A session only ever replaces its pending data by longer data on top of the same block. */
  lemma PendingDataOnlyGrows(trace: seq<State>, events: seq<Event>, i: nat, j: nat, k: nat)
    requires IsRun(trace, events) && i < |trace| && trace[i].session.Some?
    requires j < k < |trace[i].session.value.written|
    ensures var written := trace[i].session.value.written;
            && written[j].Parent() == written[k].Parent() == trace[i].session.value.latestBlockHash
            && written[j].nTransactions < written[k].nTransactions
  {
    EveryRunKeepsInv(trace, events, i);
    var written := trace[i].session.value.written;
    assert written[j] in written && written[k] in written;
  }

  // ----- What a session asks for -----

  lemma {:induction false} FirstsAreDistinct(rs: seq<Request>)
    requires forall r <- rs :: r.key == r.classHash
    ensures S.NoDuplicates(Firsts(rs)) && S.Elems(Firsts(rs)) == Keys(rs)
  {
    if rs != [] {
      var before, r := rs[..|rs| - 1], rs[|rs| - 1];
      FirstsAreDistinct(before);
      assert rs == before + [r];
      KeysSnoc(before, r);
      assert r in rs;
      if r.key !in Keys(before) {
        assert r.classHash !in S.Elems(Firsts(before));
      }
    }
  }

  lemma {:induction false} ClassEntriesKeyed(written: seq<PendingData>, h: ClassHash)
    ensures forall r <- AllClassEntries(written) :: r.key == r.classHash
    ensures h in Keys(AllClassEntries(written)) <==> exists d <- written :: d.Declares(h)
  {
    if written != [] {
      var before, d := written[..|written| - 1], written[|written| - 1];
      ClassEntriesKeyed(before, h);
      assert written == before + [d];
      DataEntriesKeyed(AllClassEntries(before), d, h);
      assert d in written;
    }
  }

  lemma DataEntriesKeyed(a: seq<Request>, d: PendingData, h: ClassHash)
    requires forall r <- a :: r.key == r.classHash
    ensures var all := a + DeclaredEntries(d.declaredClasses, |d.declaredClasses|)
                         + OldEntries(d.oldDeclaredContracts, |d.oldDeclaredContracts|);
            && (forall r <- all :: r.key == r.classHash)
            && (h in Keys(all) <==> h in Keys(a) || d.Declares(h))
  {
    DeclaredEntriesKeyed(d.declaredClasses, |d.declaredClasses|);
    OldEntriesKeyed(d.oldDeclaredContracts, |d.oldDeclaredContracts|);
    var b := DeclaredEntries(d.declaredClasses, |d.declaredClasses|);
    KeysUnion(a, b);
    KeysUnion(a + b, OldEntries(d.oldDeclaredContracts, |d.oldDeclaredContracts|));
    assert d.declaredClasses[..|d.declaredClasses|] == d.declaredClasses;
    assert d.oldDeclaredContracts[..|d.oldDeclaredContracts|] == d.oldDeclaredContracts;
  }

  lemma KeysUnion(a: seq<Request>, b: seq<Request>)
    ensures Keys(a + b) == Keys(a) + Keys(b)
  {
    forall k | k in Keys(a) + Keys(b) ensures k in Keys(a + b) {
      var r :| (r in a || r in b) && r.key == k;
      assert r in a + b;
    }
  }

  lemma {:induction false} DeclaredEntriesKeyed(ds: seq<DeclaredClass>, n: nat)
    requires n <= |ds|
    ensures forall r <- DeclaredEntries(ds, n) :: r.key == r.classHash
    ensures forall h :: h in Keys(DeclaredEntries(ds, n)) <==> exists d <- ds[..n] :: d.classHash == h
  {
    if n > 0 {
      DeclaredEntriesKeyed(ds, n - 1);
      KeysSnoc(DeclaredEntries(ds, n - 1), Request(ds[n - 1].classHash, ds[n - 1].classHash));
      assert ds[..n] == ds[..n - 1] + [ds[n - 1]];
    }
  }

  lemma {:induction false} OldEntriesKeyed(hs: seq<ClassHash>, n: nat)
    requires n <= |hs|
    ensures forall r <- OldEntries(hs, n) :: r.key == r.classHash
    ensures forall h :: h in Keys(OldEntries(hs, n)) <==> h in hs[..n]
  {
    if n > 0 {
      OldEntriesKeyed(hs, n - 1);
      KeysSnoc(OldEntries(hs, n - 1), Request(hs[n - 1], hs[n - 1]));
      assert hs[..n] == hs[..n - 1] + [hs[n - 1]];
    }
  }

  /** A session fetches each class that its pending data declared once, and nothing else. */
  lemma EachClassFetchedOnce(trace: seq<State>, events: seq<Event>, i: nat, h: ClassHash)
    requires IsRun(trace, events) && i < |trace| && trace[i].session.Some?
    ensures var se := trace[i].session.value;
            && S.NoDuplicates(ClassRequests(se.pushed))
            && (h in ClassRequests(se.pushed) <==> exists d <- se.written :: d.Declares(h))
  {
    EveryRunKeepsInv(trace, events, i);
    var se := trace[i].session.value;
    var t :| SessionInv(trace[i], se, t);
    ClassEntriesKeyed(se.written, h);
    FirstsAreDistinct(AllClassEntries(se.written));
    assert h in ClassRequests(se.pushed) <==> h in S.Elems(Firsts(AllClassEntries(se.written)));
  }

  /** Entry `i` is the first with its key, and asks for class `h`. */
  ghost predicate FirstAt(rs: seq<Request>, i: nat, h: ClassHash) {
    i < |rs| && rs[i].classHash == h && rs[i].key !in Keys(rs[..i])
  }

  lemma {:induction false} FirstAtPrefix(rs: seq<Request>, n: nat, i: nat, h: ClassHash)
    requires i < n <= |rs|
    ensures FirstAt(rs[..n], i, h) <==> FirstAt(rs, i, h)
  {
    assert rs[..n][..i] == rs[..i];
  }

  lemma {:induction false} InFirsts(rs: seq<Request>, h: ClassHash)
    ensures h in Firsts(rs) <==> exists i: nat :: FirstAt(rs, i, h)
  {
    if rs != [] {
      var n := |rs| - 1;
      InFirsts(rs[..n], h);
      if i: nat :| FirstAt(rs[..n], i, h) {
        FirstAtPrefix(rs, n, i, h);
      }
      if i: nat :| FirstAt(rs, i, h) && i < n {
        FirstAtPrefix(rs, n, i, h);
      }
      assert FirstAt(rs, n, h) <==> rs[n].classHash == h && rs[n].key !in Keys(rs[..n]);
    }
  }

  lemma {:induction false} OneRequestPerKey(rs: seq<Request>)
    ensures |Firsts(rs)| == |Keys(rs)|
  {
    if rs != [] {
      var n := |rs| - 1;
      OneRequestPerKey(rs[..n]);
      assert rs == rs[..n] + [rs[n]];
      KeysSnoc(rs[..n], rs[n]);
    }
  }

  /** Two entries that are each the first with its key ask for the same class. */
  ghost predicate AsksTwice(rs: seq<Request>) {
    exists i: nat, j: nat, h :: i < j && FirstAt(rs, i, h) && FirstAt(rs, j, h)
  }

  /** Whether the last entry brings the first repetition. */
  lemma {:induction false} AsksTwiceSnoc(rs: seq<Request>)
    requires rs != []
    ensures var n := |rs| - 1;
            AsksTwice(rs) <==> AsksTwice(rs[..n]) || (rs[n].key !in Keys(rs[..n]) && rs[n].classHash in Firsts(rs[..n]))
  {
    var n := |rs| - 1;
    var before, h' := rs[..n], rs[n].classHash;
    InFirsts(before, h');
    if i: nat, j: nat, h :| i < j && FirstAt(before, i, h) && FirstAt(before, j, h) {
      FirstAtPrefix(rs, n, i, h);
      FirstAtPrefix(rs, n, j, h);
    }
    if i: nat :| FirstAt(before, i, h') && rs[n].key !in Keys(before) {
      FirstAtPrefix(rs, n, i, h');
      assert FirstAt(rs, n, h');
    }
    if i: nat, j: nat, h :| i < j && FirstAt(rs, i, h) && FirstAt(rs, j, h) {
      FirstAtPrefix(rs, n, i, h);
      if j < n {
        FirstAtPrefix(rs, n, j, h);
      }
    }
  }

  /** The requests are distinct exactly when no class is asked for under two keys. */
  lemma {:induction false} DistinctIffNotTwice(rs: seq<Request>)
    ensures S.NoDuplicates(Firsts(rs)) <==> !AsksTwice(rs)
  {
    if rs != [] {
      var n := |rs| - 1;
      DistinctIffNotTwice(rs[..n]);
      AsksTwiceSnoc(rs);
      DistinctSnoc(Firsts(rs[..n]), rs[n].classHash);
    }
  }

  lemma {:induction false} DistinctSnoc(list: seq<ClassHash>, h: ClassHash)
    ensures S.NoDuplicates(list + [h]) <==> S.NoDuplicates(list) && h !in list
  {
    if S.NoDuplicates(list + [h]) {
      forall i, j | 0 <= i < j < |list| ensures list[i] != list[j] {
        assert (list + [h])[i] != (list + [h])[j];
      }
      forall i | 0 <= i < |list| ensures list[i] != h {
        assert (list + [h])[i] != (list + [h])[|list|];
      }
    }
  }

  /** The entries that ask for class `h`. */
  ghost function AskingEntries(rs: seq<Request>, h: ClassHash): set<nat> {
    set i: nat | i < |rs| && FirstAt(rs, i, h)
  }

  lemma {:induction false} AskingEntriesSnoc(rs: seq<Request>, h: ClassHash)
    requires rs != []
    ensures var n := |rs| - 1;
            |AskingEntries(rs, h)| == |AskingEntries(rs[..n], h)| + if FirstAt(rs, n, h) then 1 else 0
  {
    var n := |rs| - 1;
    forall i: nat | i < n ensures i in AskingEntries(rs[..n], h) <==> i in AskingEntries(rs, h) {
      FirstAtPrefix(rs, n, i, h);
    }
    if FirstAt(rs, n, h) {
      assert AskingEntries(rs, h) == AskingEntries(rs[..n], h) + {n};
    } else {
      assert AskingEntries(rs, h) == AskingEntries(rs[..n], h);
    }
  }

  /** A class is asked for once per entry that is the first with its key. */
  lemma {:induction false} RequestCount(rs: seq<Request>, h: ClassHash)
    ensures multiset(Firsts(rs))[h] == |AskingEntries(rs, h)|
  {
    if rs == [] {
      assert AskingEntries(rs, h) == {};
    } else {
      var n := |rs| - 1;
      RequestCount(rs[..n], h);
      AskingEntriesSnoc(rs, h);
    }
  }

  /**
   A compiled class is fetched as often as its class is the first one declared with some compiled
   class hash; one fetch is made per compiled class hash.
   */
  lemma CompiledClassFetchedIff(trace: seq<State>, events: seq<Event>, i: nat, h: ClassHash)
    requires IsRun(trace, events) && i < |trace| && trace[i].session.Some?
    ensures var se := trace[i].session.value;
            var declared := AllCompiledEntries(se.written);
            && |CompiledClassRequests(se.pushed)| == |Keys(declared)|
            && multiset(CompiledClassRequests(se.pushed))[h] == |AskingEntries(declared, h)|
            && (h in CompiledClassRequests(se.pushed) <==> exists j: nat :: FirstAt(declared, j, h))
  {
    EveryRunKeepsInv(trace, events, i);
    var se := trace[i].session.value;
    var t :| SessionInv(trace[i], se, t);
    InFirsts(AllCompiledEntries(se.written), h);
    OneRequestPerKey(AllCompiledEntries(se.written));
    RequestCount(AllCompiledEntries(se.written), h);
  }

  /**
   No compiled class is fetched twice exactly when no class is the first one declared with two
   compiled class hashes.
   */
  lemma CompiledClassFetchedOnceIff(trace: seq<State>, events: seq<Event>, i: nat)
    requires IsRun(trace, events) && i < |trace| && trace[i].session.Some?
    ensures var se := trace[i].session.value;
            S.NoDuplicates(CompiledClassRequests(se.pushed)) <==> !AsksTwice(AllCompiledEntries(se.written))
  {
    EveryRunKeepsInv(trace, events, i);
    var se := trace[i].session.value;
    var t :| SessionInv(trace[i], se, t);
    DistinctIffNotTwice(AllCompiledEntries(se.written));
  }

  lemma {:induction false} SecondIsNoFirst(d: PendingData)
    requires d.declaredClasses == [DeclaredClass(1, 7), DeclaredClass(2, 7)]
    ensures 2 !in Firsts(AllCompiledEntries([d]))
  {
    var ds, one := d.declaredClasses, CompiledEntries(d.declaredClasses, 1);
    assert CompiledEntries(ds, 0) == [];
    assert one == [Request(7, 1)];
    var rs := AllCompiledEntries([d]);
    assert AllCompiledEntries([d][..0]) == [];
    assert rs == [] + CompiledEntries(ds, 2);
    assert rs == one + [Request(7, 2)];
    assert Request(7, 1) in one;
    KeysSnoc(one, Request(7, 2));
    KeysSnoc([], Request(7, 1));
    assert [] + [Request(7, 1)] == one;
  }

  /** Longer pending data on the same block gets to the point of being written. */
  lemma {:induction false} ReachesWrite(s0: State, d: PendingData) returns (s1: State, s2: State, s3: State)
    requires s0.session.None? && d.Parent() == s0.pendingData.Parent() && d.nTransactions > s0.pendingData.nTransactions
    ensures s1 == Next(s0, Start(d.Parent()))
    ensures Enabled(s1, Fetched(d)) && s2 == Next(s1, Fetched(d))
    ensures Enabled(s2, Compared(d)) && s3 == Next(s2, Compared(d))
    ensures Enabled(s3, Written(d)) && s3.session.value.written == []
  {
    s1 := Next(s0, Start(d.Parent()));
    s2 := Next(s1, Fetched(d));
    s3 := Next(s2, Compared(d));
  }

  lemma {:induction false} WriteIsRecorded(s: State, d: PendingData, s': State)
    requires Enabled(s, Written(d)) && s' == Next(s, Written(d))
    ensures s'.session.Some? && s'.pendingData == d && s'.session.value.written == s.session.value.written + [d]
  {
    var se := s.session.value;
    PushesKeep(se.(tasks := se.tasks - multiset{WritePendingData(d)}, written := se.written + [d]), d);
  }

  /** One more step of a run. */
  lemma {:induction false} ExtendRun(trace: seq<State>, events: seq<Event>, e: Event, s: State)
    requires IsRun(trace, events) && Enabled(trace[|events|], e) && s == Next(trace[|events|], e)
    ensures IsRun(trace + [s], events + [e]) && (trace + [s])[|events + [e]|] == s
  {
  }

  /** A run of one session that replaces its pending data by longer data on the same block. */
  lemma {:induction false} OneWrite(s0: State, d: PendingData) returns (trace: seq<State>, events: seq<Event>)
    requires IsRun([s0], [])
    requires d.Parent() == s0.pendingData.Parent() && d.nTransactions > s0.pendingData.nTransactions
    ensures IsRun(trace, events) && trace[|events|].session.Some?
    ensures trace[|events|].pendingData == d && trace[|events|].session.value.written == [d]
  {
    var s1, s2, s3 := ReachesWrite(s0, d);
    var s4 := Next(s3, Written(d));
    WriteIsRecorded(s3, d, s4);
    trace, events := [s0], [];
    ExtendRun(trace, events, Start(d.Parent()), s1);
    trace, events := trace + [s1], events + [Start(d.Parent())];
    ExtendRun(trace, events, Fetched(d), s2);
    trace, events := trace + [s2], events + [Fetched(d)];
    ExtendRun(trace, events, Compared(d), s3);
    trace, events := trace + [s3], events + [Compared(d)];
    ExtendRun(trace, events, Written(d), s4);
    trace, events := trace + [s4], events + [Written(d)];
  }

  /**
   A run: one session writes pending data that declares two classes with one compiled class hash.
   The second class is declared, and its compiled class is not asked for.
   */
  lemma {:induction false} SharedCompiledHashFetchedOnce() returns (trace: seq<State>, events: seq<Event>)
    ensures IsRun(trace, events) && trace[|events|].session.Some?
    ensures trace[|events|].pendingData.Declares(2)
    ensures 2 !in CompiledClassRequests(trace[|events|].session.value.pushed)
  {
    var d := PendingData(5, None, 1, [DeclaredClass(1, 7), DeclaredClass(2, 7)], []);
    trace, events := OneWrite(State(PendingData(5, None, 0, [], []), map[], map[], None), d);
    assert d.declaredClasses[1] in d.declaredClasses;
    AskedForWritten(trace, events, d);
    SecondIsNoFirst(d);
  }

  lemma {:induction false} AskedForWritten(trace: seq<State>, events: seq<Event>, d: PendingData)
    requires IsRun(trace, events) && trace[|events|].session.Some? && trace[|events|].session.value.written == [d]
    ensures CompiledClassRequests(trace[|events|].session.value.pushed) == Firsts(AllCompiledEntries([d]))
  {
    EveryRunKeepsInv(trace, events, |events|);
    var t :| SessionInv(trace[|events|], trace[|events|].session.value, t);
  }

  lemma {:induction false} BothAreFirsts(d: PendingData)
    requires d.declaredClasses == [DeclaredClass(1, 7), DeclaredClass(1, 8)]
    ensures Firsts(AllCompiledEntries([d])) == [1, 1]
  {
    var ds, one := d.declaredClasses, CompiledEntries(d.declaredClasses, 1);
    assert CompiledEntries(ds, 0) == [];
    assert one == [Request(7, 1)];
    var rs := AllCompiledEntries([d]);
    assert AllCompiledEntries([d][..0]) == [];
    assert rs == [] + CompiledEntries(ds, 2);
    assert rs == one + [Request(8, 1)];
    KeysSnoc(one, Request(8, 1));
    KeysSnoc([], Request(7, 1));
    assert [] + [Request(7, 1)] == one && Firsts([]) == [];
  }

  /** A run: pending data declares one class with two compiled class hashes, and its compiled class is fetched twice. */
  lemma {:induction false} CompiledClassFetchedTwice() returns (trace: seq<State>, events: seq<Event>)
    ensures IsRun(trace, events) && trace[|events|].session.Some?
    ensures CompiledClassRequests(trace[|events|].session.value.pushed) == [1, 1]
  {
    var d := PendingData(5, None, 1, [DeclaredClass(1, 7), DeclaredClass(1, 8)], []);
    trace, events := OneWrite(State(PendingData(5, None, 0, [], []), map[], map[], None), d);
    AskedForWritten(trace, events, d);
    BothAreFirsts(d);
  }
}
