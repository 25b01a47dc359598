/** What a pending session brings: the data it was sent, and every class that it asked for. */
module PendingProgress {
  import opened Wrappers
  import opened ChainTypes
  import opened PendingSpec
  import opened PendingSyncs

  type Store = map<ClassHash, StoredClass>

  // ----- Requested classes arrive -----

  ghost predicate HasClassTask(tasks: multiset<Task>, h: ClassHash) {
    exists u <- tasks :: (u.FetchClass? || u.AddClass?) && u.classHash == h
  }

  ghost predicate HasCompiledClassTask(tasks: multiset<Task>, h: ClassHash) {
    exists u <- tasks :: (u.FetchCompiledClass? || u.AddCompiledClass?) && u.classHash == h
  }

  /** Every class that was asked for is stored, or a task is at work on it. */
  ghost predicate Covered(se: Session, classes: Store, compiled: Store) {
    && (forall h <- ClassRequests(se.pushed) :: h in classes || HasClassTask(se.tasks, h))
    && (forall h <- CompiledClassRequests(se.pushed) :: h in compiled || HasCompiledClassTask(se.tasks, h))
  }

  lemma {:induction false} RequestsSnoc(pushed: seq<Task>, t: Task)
    ensures ClassRequests(pushed + [t]) == ClassRequests(pushed) + if t.FetchClass? then [t.classHash] else []
    ensures CompiledClassRequests(pushed + [t]) == CompiledClassRequests(pushed) + if t.FetchCompiledClass? then [t.classHash] else []
  {
    assert (pushed + [t])[..|pushed|] == pushed;
  }

  /** A task that is pushed is at work. */
  lemma {:induction false} PushCovers(se: Session, t: Task, classes: Store, compiled: Store)
    requires Covered(se, classes, compiled)
    ensures Covered(Push(se, t), classes, compiled)
  {
    var se' := Push(se, t);
    RequestsSnoc(se.pushed, t);
    assert t in se'.tasks;
    forall h <- ClassRequests(se'.pushed) ensures h in classes || HasClassTask(se'.tasks, h) {
      if HasClassTask(se.tasks, h) {
        var u :| u in se.tasks && (u.FetchClass? || u.AddClass?) && u.classHash == h;
        assert u in se'.tasks;
      }
    }
    forall h <- CompiledClassRequests(se'.pushed) ensures h in compiled || HasCompiledClassTask(se'.tasks, h) {
      if HasCompiledClassTask(se.tasks, h) {
        var u :| u in se.tasks && (u.FetchCompiledClass? || u.AddCompiledClass?) && u.classHash == h;
        assert u in se'.tasks;
      }
    }
  }

  lemma {:induction false} PushClassCovers(se: Session, h: ClassHash, d: PendingData, classes: Store, compiled: Store)
    requires Covered(se, classes, compiled)
    ensures Covered(PushClass(se, h, d), classes, compiled)
  {
    PushCovers(se.(processedClasses := se.processedClasses + {h}), FetchClass(h, d), classes, compiled);
  }

  lemma {:induction false} PushEntryCovers(se: Session, c: DeclaredClass, d: PendingData, classes: Store, compiled: Store)
    requires Covered(se, classes, compiled)
    ensures Covered(PushEntry(se, c, d), classes, compiled)
  {
    PushClassCovers(se, c.classHash, d, classes, compiled);
    var se1 := PushClass(se, c.classHash, d);
    PushCovers(se1.(processedCompiledClasses := se1.processedCompiledClasses + {c.compiledClassHash}),
               FetchCompiledClass(c.classHash, d), classes, compiled);
  }

  lemma {:induction false} PushDeclaredCovers(se: Session, d: PendingData, n: nat, classes: Store, compiled: Store)
    requires n <= |d.declaredClasses| && Covered(se, classes, compiled)
    ensures Covered(PushDeclared(se, d, n), classes, compiled)
  {
    if n > 0 {
      PushDeclaredCovers(se, d, n - 1, classes, compiled);
      PushEntryCovers(PushDeclared(se, d, n - 1), d.declaredClasses[n - 1], d, classes, compiled);
    }
  }

  lemma {:induction false} PushOldDeclaredCovers(se: Session, d: PendingData, n: nat, classes: Store, compiled: Store)
    requires n <= |d.oldDeclaredContracts| && Covered(se, classes, compiled)
    ensures Covered(PushOldDeclared(se, d, n), classes, compiled)
  {
    if n > 0 {
      PushOldDeclaredCovers(se, d, n - 1, classes, compiled);
      PushClassCovers(PushOldDeclared(se, d, n - 1), d.oldDeclaredContracts[n - 1], d, classes, compiled);
    }
  }

  /** Taking a data task out of the pool, or moving it on, covers what was covered. */
  lemma {:induction false} DataTaskCovers(se: Session, from: Task, rest: multiset<Task>, classes: Store, compiled: Store)
    requires Covered(se, classes, compiled) && from.IsDataTask()
    ensures Covered(se.(tasks := se.tasks - multiset{from} + rest), classes, compiled)
  {
    var tasks' := se.tasks - multiset{from} + rest;
    forall u <- se.tasks | !u.IsDataTask() ensures u in tasks' {
      assert tasks'[u] >= se.tasks[u];
    }
  }

  lemma {:induction false} WrittenCovers(se: Session, d: PendingData, classes: Store, compiled: Store)
    requires Covered(se, classes, compiled)
    ensures Covered(WriteDone(se, d), classes, compiled)
  {
    DataTaskCovers(se, WritePendingData(d), multiset{}, classes, compiled);
    assert se.tasks - multiset{WritePendingData(d)} + multiset{} == se.tasks - multiset{WritePendingData(d)};
    var s0 := se.(tasks := se.tasks - multiset{WritePendingData(d)}, written := se.written + [d]);
    PushDeclaredCovers(s0, d, |d.declaredClasses|, classes, compiled);
    var s1 := PushDeclared(s0, d, |d.declaredClasses|);
    PushOldDeclaredCovers(s1, d, |d.oldDeclaredContracts|, classes, compiled);
    PushCovers(PushOldDeclared(s1, d, |d.oldDeclaredContracts|), FetchPendingData, classes, compiled);
  }

  /** A class task that moves on is still at work; one that ends has stored its class. */
  lemma {:induction false} ClassStepCovers(s: State, e: Event)
    requires e.ClassFetched? || e.ClassAdded? || e.CompiledClassFetched? || e.CompiledClassAdded?
    requires Enabled(s, e) && Covered(s.session.value, s.classes, s.compiledClasses)
    ensures var s' := Next(s, e);
            s'.session.Some? && Covered(s'.session.value, s'.classes, s'.compiledClasses)
  {
    var se, s' := s.session.value, Next(s, e);
    var se', from := s'.session.value, TaskOf(e);
    forall u <- se.tasks | u != from ensures u in se'.tasks {
      assert se'.tasks[u] >= se.tasks[u];
    }
    forall h <- ClassRequests(se'.pushed) ensures h in s'.classes || HasClassTask(se'.tasks, h) {
      if h !in s.classes {
        var u :| u in se.tasks && (u.FetchClass? || u.AddClass?) && u.classHash == h;
        if u == from && e.ClassFetched? {
          assert AddClass(h, e.origin, e.content) in se'.tasks;
        }
      }
    }
    forall h <- CompiledClassRequests(se'.pushed) ensures h in s'.compiledClasses || HasCompiledClassTask(se'.tasks, h) {
      if h !in s.compiledClasses {
        var u :| u in se.tasks && (u.FetchCompiledClass? || u.AddCompiledClass?) && u.classHash == h;
        if u == from && e.CompiledClassFetched? {
          assert AddCompiledClass(h, e.origin, e.content) in se'.tasks;
        }
      }
    }
  }

  /** The stores are cleared only before anything was asked for. */
  lemma {:induction false} NothingAskedAtClear(s: State, d: PendingData)
    requires Inv(s) && Enabled(s, Cleared(d))
    ensures ClassRequests(s.session.value.pushed) == [] && CompiledClassRequests(s.session.value.pushed) == []
  {
    var se := s.session.value;
    var t :| SessionInv(s, se, t);
    assert ClearPendingClasses(d) in se.tasks;
    assert t == ClearPendingClasses(d);
  }

  lemma {:induction false} StepCovers(s: State, e: Event)
    requires Inv(s) && Enabled(s, e) && Next(s, e).session.Some?
    requires s.session.Some? ==> Covered(s.session.value, s.classes, s.compiledClasses)
    ensures var s' := Next(s, e);
            Covered(s'.session.value, s'.classes, s'.compiledClasses)
  {
    match e
    case Start(latest) =>
      RequestsSnoc([], FetchPendingData);
      assert [] + [FetchPendingData] == [FetchPendingData];
    case Fetched(d) => DataTaskCovers(s.session.value, FetchPendingData, multiset{ComparePendingData(d)}, s.classes, s.compiledClasses);
    case Compared(d) => ComparedCovers(s, d);
    case Cleared(d) => NothingAskedAtClear(s, d);
    case Written(d) => WrittenCovers(s.session.value, d, s.classes, s.compiledClasses);
    case _ => ClassStepCovers(s, e);
  }

  lemma {:induction false} ComparedCovers(s: State, d: PendingData)
    requires Enabled(s, Compared(d)) && Covered(s.session.value, s.classes, s.compiledClasses)
    ensures var s' := Next(s, Compared(d));
            s'.session.Some? && Covered(s'.session.value, s'.classes, s'.compiledClasses)
  {
    var se, from := s.session.value, ComparePendingData(d);
    if !MoreAdvanced(d, s.pendingData) {
      DataTaskCovers(se, from, multiset{}, s.classes, s.compiledClasses);
      assert se.tasks - multiset{from} + multiset{} == se.tasks - multiset{from};
      PushCovers(se.(tasks := se.tasks - multiset{from}), FetchPendingData, s.classes, s.compiledClasses);
    } else {
      var to := if s.pendingData.Parent() != d.Parent() then ClearPendingClasses(d) else WritePendingData(d);
      DataTaskCovers(se, from, multiset{to}, s.classes, s.compiledClasses);
    }
  }

  /** In every state of every run, each class that the session asked for is stored or a task is at work on it. */
  lemma {:induction false} RequestedIsStoredOrUnderway(trace: seq<State>, events: seq<Event>, i: nat)
    requires IsRun(trace, events) && i < |trace| && trace[i].session.Some?
    ensures Covered(trace[i].session.value, trace[i].classes, trace[i].compiledClasses)
  {
    if i > 0 {
      EveryRunKeepsInv(trace, events, i - 1);
      assert Enabled(trace[i - 1], events[i - 1]) && trace[i] == Next(trace[i - 1], events[i - 1]);
      if trace[i - 1].session.Some? {
        RequestedIsStoredOrUnderway(trace, events, i - 1);
      }
      StepCovers(trace[i - 1], events[i - 1]);
    }
  }

  /** A session without a class task has stored every class and compiled class that it asked for. */
  lemma {:induction false} IdleSessionHasStored(trace: seq<State>, events: seq<Event>, i: nat, h: ClassHash)
    requires IsRun(trace, events) && i < |trace| && trace[i].session.Some?
    requires forall u <- trace[i].session.value.tasks :: u.IsDataTask()
    ensures (exists d <- trace[i].session.value.written :: d.Declares(h)) ==> h in trace[i].classes
    ensures h in CompiledClassRequests(trace[i].session.value.pushed) ==> h in trace[i].compiledClasses
  {
    RequestedIsStoredOrUnderway(trace, events, i);
    EachClassFetchedOnce(trace, events, i, h);
  }

  // ----- With the content that was fetched -----

  ghost predicate WasFetched(events: seq<Event>, i: nat, h: ClassHash, origin: PendingData, content: Felt)
    requires i <= |events|
  {
    ClassFetched(h, origin, content) in events[..i]
  }

  ghost predicate CompiledWasFetched(events: seq<Event>, i: nat, h: ClassHash, origin: PendingData, content: Felt)
    requires i <= |events|
  {
    CompiledClassFetched(h, origin, content) in events[..i]
  }

  /** What waits to be stored was fetched. */
  ghost predicate TasksFetched(tasks: multiset<Task>, events: seq<Event>, i: nat)
    requires i <= |events|
  {
    forall u <- tasks ::
      && (u.AddClass? ==> WasFetched(events, i, u.classHash, u.origin, u.class_))
      && (u.AddCompiledClass? ==> CompiledWasFetched(events, i, u.classHash, u.origin, u.casm))
  }

  /** What is stored was fetched. */
  ghost predicate StoresFetched(s: State, events: seq<Event>, i: nat)
    requires i <= |events|
  {
    && (forall h <- s.classes :: WasFetched(events, i, h, s.classes[h].origin, s.classes[h].content))
    && (forall h <- s.compiledClasses ::
          CompiledWasFetched(events, i, h, s.compiledClasses[h].origin, s.compiledClasses[h].content))
  }

  lemma {:induction false} FetchedStays(events: seq<Event>, i: nat)
    requires 0 < i <= |events|
    ensures forall h, d, c :: WasFetched(events, i - 1, h, d, c) ==> WasFetched(events, i, h, d, c)
    ensures forall h, d, c :: CompiledWasFetched(events, i - 1, h, d, c) ==> CompiledWasFetched(events, i, h, d, c)
    ensures events[i - 1] in events[..i]
  {
    assert events[..i] == events[..i - 1] + [events[i - 1]];
  }

  /** Which tasks of the pool wait to store a class: those of before, but for the one that was just fetched. */
  lemma {:induction false} NewAddTasks(s: State, e: Event, u: Task)
    requires Enabled(s, e) && Next(s, e).session.Some? && u in Next(s, e).session.value.tasks
    requires u.AddClass? || u.AddCompiledClass?
    ensures || (s.session.Some? && u in s.session.value.tasks)
            || (u.AddClass? && e == ClassFetched(u.classHash, u.origin, u.class_))
            || (u.AddCompiledClass? && e == CompiledClassFetched(u.classHash, u.origin, u.casm))
  {
    if e.Written? {
      var se := s.session.value;
      var s0 := se.(tasks := se.tasks - multiset{WritePendingData(e.pending)}, written := se.written + [e.pending]);
      NewTasksFetch(s0, e.pending, u);
    }
  }

  /** The loop pushes tasks that fetch. */
  lemma {:induction false} NewTasksFetch(se: Session, d: PendingData, u: Task)
    requires (u.AddClass? || u.AddCompiledClass?) && u in OnNewPendingData(se, d).tasks
    ensures u in se.tasks
  {
    var s1 := PushDeclared(se, d, |d.declaredClasses|);
    PushOldDeclaredFetch(s1, d, |d.oldDeclaredContracts|, u);
    PushDeclaredFetch(se, d, |d.declaredClasses|, u);
  }

  lemma {:induction false} PushEntryFetch(se: Session, c: DeclaredClass, d: PendingData, u: Task)
    requires u.AddClass? || u.AddCompiledClass?
    ensures u in PushEntry(se, c, d).tasks <==> u in se.tasks
  {
    assert u in PushClass(se, c.classHash, d).tasks <==> u in se.tasks;
  }

  lemma {:induction false} PushDeclaredFetch(se: Session, d: PendingData, n: nat, u: Task)
    requires n <= |d.declaredClasses| && (u.AddClass? || u.AddCompiledClass?)
    ensures u in PushDeclared(se, d, n).tasks <==> u in se.tasks
  {
    if n > 0 {
      PushDeclaredFetch(se, d, n - 1, u);
      PushEntryFetch(PushDeclared(se, d, n - 1), d.declaredClasses[n - 1], d, u);
    }
  }

  lemma {:induction false} PushOldDeclaredFetch(se: Session, d: PendingData, n: nat, u: Task)
    requires n <= |d.oldDeclaredContracts| && (u.AddClass? || u.AddCompiledClass?)
    ensures u in PushOldDeclared(se, d, n).tasks <==> u in se.tasks
  {
    if n > 0 {
      PushOldDeclaredFetch(se, d, n - 1, u);
    }
  }

  lemma {:induction false} StepTasksFetched(s: State, events: seq<Event>, i: nat)
    requires 0 < i <= |events| && Enabled(s, events[i - 1]) && Next(s, events[i - 1]).session.Some?
    requires s.session.Some? ==> TasksFetched(s.session.value.tasks, events, i - 1)
    ensures TasksFetched(Next(s, events[i - 1]).session.value.tasks, events, i)
  {
    var e := events[i - 1];
    FetchedStays(events, i);
    forall u <- Next(s, e).session.value.tasks
      ensures u.AddClass? ==> WasFetched(events, i, u.classHash, u.origin, u.class_)
      ensures u.AddCompiledClass? ==> CompiledWasFetched(events, i, u.classHash, u.origin, u.casm)
    {
      if u.AddClass? || u.AddCompiledClass? {
        NewAddTasks(s, e, u);
      }
    }
  }

  lemma {:induction false} StepStoresFetched(s: State, events: seq<Event>, i: nat)
    requires 0 < i <= |events| && Enabled(s, events[i - 1]) && StoresFetched(s, events, i - 1)
    requires s.session.Some? ==> TasksFetched(s.session.value.tasks, events, i - 1)
    ensures StoresFetched(Next(s, events[i - 1]), events, i)
  {
    var e := events[i - 1];
    FetchedStays(events, i);
    if e.ClassAdded? || e.CompiledClassAdded? {
      assert TaskOf(e) in s.session.value.tasks;
    }
  }

  /** In every state of every run, a stored class has the content that was fetched for its hash. */
  lemma {:induction false} StoredContentWasFetched(trace: seq<State>, events: seq<Event>, i: nat)
    requires IsRun(trace, events) && i < |trace|
    ensures StoresFetched(trace[i], events, i)
    ensures trace[i].session.Some? ==> TasksFetched(trace[i].session.value.tasks, events, i)
  {
    if i > 0 {
      StoredContentWasFetched(trace, events, i - 1);
      var s := trace[i - 1];
      assert Enabled(s, events[i - 1]) && trace[i] == Next(s, events[i - 1]);
      StepStoresFetched(s, events, i);
      if trace[i].session.Some? {
        StepTasksFetched(s, events, i);
      }
    }
  }

  // ----- New pending data arrives -----

  /** The block that pending data stands on: its own, if it has a hash already. */
  ghost predicate StandsOn(d: PendingData, block: BlockHash) {
    (d.blockHash == None && d.parentBlockHash == block) || d.blockHash == Some(block)
  }

  /** Data on another block than the watched one ends the session, and nothing else. */
  lemma {:induction false} OtherBlockEndsSession(s: State, d: PendingData)
    requires Enabled(s, Fetched(d)) && !StandsOn(d, s.session.value.latestBlockHash)
    ensures Next(s, Fetched(d)) == s.(session := None)
  {
  }

  /** Data on the watched block that is no longer than the stored data on that block changes nothing but the poll. */
  lemma {:induction false} OldDataIsDropped(s: State, d: PendingData)
    requires Enabled(s, Fetched(d)) && StandsOn(d, s.session.value.latestBlockHash)
    requires StandsOn(s.pendingData, s.session.value.latestBlockHash) && d.nTransactions <= s.pendingData.nTransactions
    ensures var s1 := Next(s, Fetched(d));
            && Enabled(s1, Compared(d))
            && var s2 := Next(s1, Compared(d));
               && s2 == s.(session := s2.session) && s2.session.Some? && FetchPendingData in s2.session.value.tasks
               && s2.session.value.written == s.session.value.written
  {
  }

  /** Only the pool changes. */
  ghost predicate SameButTasks(s: State, s': State) {
    && s.session.Some? && s'.session.Some?
    && s' == s.(session := Some(s.session.value.(tasks := s'.session.value.tasks)))
  }

  lemma {:induction false} FetchedMovesOn(s: State, d: PendingData)
    requires Enabled(s, Fetched(d)) && StandsOn(d, s.session.value.latestBlockHash)
    ensures SameButTasks(s, Next(s, Fetched(d))) && Enabled(Next(s, Fetched(d)), Compared(d))
  {
  }

  lemma {:induction false} ComparedMovesOn(s: State, d: PendingData, same: bool)
    requires Enabled(s, Compared(d)) && StandsOn(d, s.session.value.latestBlockHash)
    requires same == StandsOn(s.pendingData, s.session.value.latestBlockHash)
    requires same ==> s.pendingData.nTransactions < d.nTransactions
    ensures SameButTasks(s, Next(s, Compared(d)))
    ensures Enabled(Next(s, Compared(d)), if same then Written(d) else Cleared(d))
  {
  }

  lemma {:induction false} ClearedMovesOn(s: State, d: PendingData)
    requires Enabled(s, Cleared(d))
    ensures var s' := Next(s, Cleared(d));
            && Enabled(s', Written(d)) && s'.classes == map[] && s'.compiledClasses == map[]
            && s'.pendingData == s.pendingData && s'.session.value.written == s.session.value.written
  {
  }

  /** The steps of a poll before the data is written. */
  ghost predicate PollReaches(s: State, d: PendingData, compared: State, before: State)
    requires s.session.Some?
  {
    && Enabled(s, Fetched(d)) && Enabled(Next(s, Fetched(d)), Compared(d))
    && compared == Next(Next(s, Fetched(d)), Compared(d))
    && if StandsOn(s.pendingData, s.session.value.latestBlockHash) then before == compared
       else Enabled(compared, Cleared(d)) && before == Next(compared, Cleared(d))
  }

  lemma {:induction false} NewDataReachesWrite(s: State, d: PendingData, same: bool) returns (compared: State, before: State)
    requires Enabled(s, Fetched(d)) && StandsOn(d, s.session.value.latestBlockHash)
    requires same == StandsOn(s.pendingData, s.session.value.latestBlockHash)
    requires same ==> s.pendingData.nTransactions < d.nTransactions
    ensures PollReaches(s, d, compared, before) && Enabled(before, Written(d))
    ensures before.session.value.written == s.session.value.written
    ensures same ==> before.classes == s.classes && before.compiledClasses == s.compiledClasses
    ensures !same ==> before.classes == map[] && before.compiledClasses == map[]
  {
    FetchedMovesOn(s, d);
    var fetched := Next(s, Fetched(d));
    ComparedMovesOn(fetched, d, same);
    compared := Next(fetched, Compared(d));
    if same {
      before := compared;
    } else {
      ClearedMovesOn(compared, d);
      before := Next(compared, Cleared(d));
    }
  }

  lemma {:induction false} WriteReplaces(s: State, d: PendingData)
    requires Enabled(s, Written(d))
    ensures var s' := Next(s, Written(d));
            && s' == s.(pendingData := d, session := s'.session) && s'.session.Some?
            && s'.session.value.written == s.session.value.written + [d]
  {
    var se := s.session.value;
    PushesKeep(se.(tasks := se.tasks - multiset{WritePendingData(d)}, written := se.written + [d]), d);
  }

  /** Data on the watched block that is longer, or the first on it, is written; in the second case the stores are cleared. */
  lemma {:induction false} NewDataIsWritten(s: State, d: PendingData, same: bool) returns (compared: State, before: State)
    requires Enabled(s, Fetched(d)) && StandsOn(d, s.session.value.latestBlockHash)
    requires same == StandsOn(s.pendingData, s.session.value.latestBlockHash)
    requires same ==> s.pendingData.nTransactions < d.nTransactions
    ensures PollReaches(s, d, compared, before) && Enabled(before, Written(d))
    ensures var end := Next(before, Written(d));
            && end.pendingData == d && end.session.Some? && end.session.value.written == s.session.value.written + [d]
            && end.classes == (if same then s.classes else map[])
            && end.compiledClasses == (if same then s.compiledClasses else map[])
  {
    compared, before := NewDataReachesWrite(s, d, same);
    WriteReplaces(before, d);
  }
}
