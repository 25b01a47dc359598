/**
 The pending-data task loop as a state machine. A session polls a pool of tasks: one of them
 downloads pending data, the others download the classes that pending data declares. A task gives
 up control at each lock or download, so every such point is a step of its own.
 */
module PendingSpec {
  import opened Wrappers
  import opened ChainTypes

  datatype DeclaredClass = DeclaredClass(classHash: ClassHash, compiledClassHash: Felt)

  datatype PendingData = PendingData(
    parentBlockHash: BlockHash,
    blockHash: Option<BlockHash>,
    nTransactions: nat,
    declaredClasses: seq<DeclaredClass>,
    oldDeclaredContracts: seq<ClassHash>)
  {
    /** A block that already has a hash is read as an empty pending block on top of it. */
    function Parent(): BlockHash {
      if blockHash.Some? then blockHash.value else parentBlockHash
    }

    predicate Declares(h: ClassHash) {
      h in oldDeclaredContracts || exists d <- declaredClasses :: d.classHash == h
    }
  }

  /**
   A task of the pool, at the point where it waits. `origin` is the pending data that made the
   session ask for a class; the program does not store it, it is kept to state properties.
   */
  datatype Task =
    | FetchPendingData
    | ComparePendingData(fetched: PendingData)
    | ClearPendingClasses(fetched: PendingData)
    | WritePendingData(fetched: PendingData)
    | FetchClass(classHash: ClassHash, origin: PendingData)
    | AddClass(classHash: ClassHash, origin: PendingData, class_: Felt)
    | FetchCompiledClass(classHash: ClassHash, origin: PendingData)
    | AddCompiledClass(classHash: ClassHash, origin: PendingData, casm: Felt)
  {
    predicate IsDataTask() {
      FetchPendingData? || ComparePendingData? || ClearPendingClasses? || WritePendingData?
    }
  }

  datatype StoredClass = StoredClass(content: Felt, origin: PendingData)

  /**
   One call of `sync_pending_data`. The last three fields record the session's past: every task it
   pushed, every pending data it wrote, and how often it cleared the class store.
   */
  datatype Session = Session(
    latestBlockHash: BlockHash,
    tasks: multiset<Task>,
    processedClasses: set<ClassHash>,
    processedCompiledClasses: set<Felt>,
    pushed: seq<Task>,
    written: seq<PendingData>,
    clears: nat)

  datatype State = State(
    pendingData: PendingData,
    classes: map<ClassHash, StoredClass>,
    compiledClasses: map<ClassHash, StoredClass>,
    session: Option<Session>)

  // ----- The loop's reaction to new pending data -----

  function Push(s: Session, t: Task): Session {
    s.(tasks := s.tasks + multiset{t}, pushed := s.pushed + [t])
  }

  function PushClass(s: Session, h: ClassHash, origin: PendingData): Session {
    if h in s.processedClasses then s
    else Push(s.(processedClasses := s.processedClasses + {h}), FetchClass(h, origin))
  }

  function PushCompiledClass(s: Session, d: DeclaredClass, origin: PendingData): Session {
    if d.compiledClassHash in s.processedCompiledClasses then s
    else Push(s.(processedCompiledClasses := s.processedCompiledClasses + {d.compiledClassHash}),
              FetchCompiledClass(d.classHash, origin))
  }

  function PushEntry(s: Session, d: DeclaredClass, origin: PendingData): Session {
    PushCompiledClass(PushClass(s, d.classHash, origin), d, origin)
  }

  function PushDeclared(s: Session, origin: PendingData, n: nat): Session
    requires n <= |origin.declaredClasses|
  {
    if n == 0 then s
    else PushEntry(PushDeclared(s, origin, n - 1), origin.declaredClasses[n - 1], origin)
  }

  function PushOldDeclared(s: Session, origin: PendingData, n: nat): Session
    requires n <= |origin.oldDeclaredContracts|
  {
    if n == 0 then s
    else PushClass(PushOldDeclared(s, origin, n - 1), origin.oldDeclaredContracts[n - 1], origin)
  }

  function OnNewPendingData(s: Session, d: PendingData): Session {
    Push(PushOldDeclared(PushDeclared(s, d, |d.declaredClasses|), d, |d.oldDeclaredContracts|), FetchPendingData)
  }

  // ----- Steps -----

  datatype Event =
    | Start(latestBlockHash: BlockHash)
    | Stop
    | Fetched(pending: PendingData)
    | Compared(pending: PendingData)
    | Cleared(pending: PendingData)
    | Written(pending: PendingData)
    | ClassFetched(classHash: ClassHash, origin: PendingData, content: Felt)
    | ClassAdded(classHash: ClassHash, origin: PendingData, content: Felt)
    | CompiledClassFetched(classHash: ClassHash, origin: PendingData, content: Felt)
    | CompiledClassAdded(classHash: ClassHash, origin: PendingData, content: Felt)

  /** The task that an event lets run; `Start` and `Stop` are events of the whole session. */
  function TaskOf(e: Event): Task {
    match e
    case Start(_) => FetchPendingData
    case Stop => FetchPendingData
    case Fetched(_) => FetchPendingData
    case Compared(d) => ComparePendingData(d)
    case Cleared(d) => ClearPendingClasses(d)
    case Written(d) => WritePendingData(d)
    case ClassFetched(h, d, _) => FetchClass(h, d)
    case ClassAdded(h, d, c) => AddClass(h, d, c)
    case CompiledClassFetched(h, d, _) => FetchCompiledClass(h, d)
    case CompiledClassAdded(h, d, c) => AddCompiledClass(h, d, c)
  }

  predicate Enabled(s: State, e: Event) {
    match e
    case Start(_) => s.session.None?
    case Stop => s.session.Some?
    case _ => s.session.Some? && TaskOf(e) in s.session.value.tasks
  }

  function NewSession(latest: BlockHash): Session {
    Session(latest, multiset{FetchPendingData}, {}, {}, [FetchPendingData], [], 0)
  }

  predicate MoreAdvanced(fetched: PendingData, current: PendingData) {
    current.Parent() != fetched.Parent() || fetched.nTransactions > current.nTransactions
  }

  /** Replaces a running task by the next stage of the same task. */
  function Advance(s: Session, from: Task, to: Task): Session {
    s.(tasks := s.tasks - multiset{from} + multiset{to})
  }

  /** The data task ends with its data written; the loop pushes what follows from it. */
  function WriteDone(s: Session, d: PendingData): Session {
    OnNewPendingData(s.(tasks := s.tasks - multiset{WritePendingData(d)}, written := s.written + [d]), d)
  }

  function Next(s: State, e: Event): State
    requires Enabled(s, e)
  {
    match e
    case Start(latest) => s.(session := Some(NewSession(latest)))
    case Stop => s.(session := None)
    case Fetched(d) =>
      var se := s.session.value;
      if d.Parent() != se.latestBlockHash then s.(session := None)
      else s.(session := Some(Advance(se, FetchPendingData, ComparePendingData(d))))
    case Compared(d) =>
      var se := s.session.value;
      if !MoreAdvanced(d, s.pendingData) then
        s.(session := Some(Push(se.(tasks := se.tasks - multiset{ComparePendingData(d)}), FetchPendingData)))
      else if s.pendingData.Parent() != d.Parent() then
        s.(session := Some(Advance(se, ComparePendingData(d), ClearPendingClasses(d))))
      else
        s.(session := Some(Advance(se, ComparePendingData(d), WritePendingData(d))))
    case Cleared(d) =>
      var se := s.session.value;
      s.(classes := map[], compiledClasses := map[],
         session := Some(Advance(se.(clears := se.clears + 1), ClearPendingClasses(d), WritePendingData(d))))
    case Written(d) =>
      s.(pendingData := d, session := Some(WriteDone(s.session.value, d)))
    case ClassFetched(h, d, c) =>
      s.(session := Some(Advance(s.session.value, FetchClass(h, d), AddClass(h, d, c))))
    case ClassAdded(h, d, c) =>
      var se := s.session.value;
      s.(classes := s.classes[h := StoredClass(c, d)],
         session := Some(se.(tasks := se.tasks - multiset{AddClass(h, d, c)})))
    case CompiledClassFetched(h, d, c) =>
      s.(session := Some(Advance(s.session.value, FetchCompiledClass(h, d), AddCompiledClass(h, d, c))))
    case CompiledClassAdded(h, d, c) =>
      var se := s.session.value;
      s.(compiledClasses := s.compiledClasses[h := StoredClass(c, d)],
         session := Some(se.(tasks := se.tasks - multiset{AddCompiledClass(h, d, c)})))
  }

  // ----- What every reachable state satisfies -----

  /** `t` is the one outstanding task that downloads pending data. */
  ghost predicate IsTheDataTask(tasks: multiset<Task>, t: Task) {
    t.IsDataTask() && tasks[t] == 1 && forall u <- tasks :: u.IsDataTask() ==> u == t
  }

  /** Every outstanding class task was made by pending data that declares the class. */
  ghost predicate ClassTasksFrom(tasks: multiset<Task>, parent: BlockHash) {
    forall u <- tasks :: !u.IsDataTask() ==> u.origin.Parent() == parent && u.origin.Declares(u.classHash)
  }

  /** Every class of a store was fetched for pending data on top of `parent` that declares it. */
  ghost predicate StoreFrom(store: map<ClassHash, StoredClass>, parent: BlockHash) {
    forall h <- store :: store[h].origin.Parent() == parent && store[h].origin.Declares(h)
  }

  ghost predicate StoresFrom(s: State) {
    StoreFrom(s.classes, s.pendingData.Parent()) && StoreFrom(s.compiledClasses, s.pendingData.Parent())
  }

  /** The stage of the data task, against the shared pending data it will replace. */
  ghost predicate DataTaskSound(s: State, se: Session, t: Task) {
    match t
    case FetchPendingData => s.pendingData.Parent() == se.latestBlockHash || se.clears == 0
    case ComparePendingData(d) =>
      && d.Parent() == se.latestBlockHash
      && (s.pendingData.Parent() == se.latestBlockHash || se.clears == 0)
    case ClearPendingClasses(d) =>
      d.Parent() == se.latestBlockHash && s.pendingData.Parent() != se.latestBlockHash && se.clears == 0
    case WritePendingData(d) =>
      && d.Parent() == se.latestBlockHash
      && MoreAdvanced(d, s.pendingData)
      && (s.pendingData.Parent() != se.latestBlockHash ==> s.classes == map[] && s.compiledClasses == map[])
    case _ => false
  }

  /** The pending data a session writes are on top of its block and ever longer. */
  ghost predicate WritesAdvance(written: seq<PendingData>, latest: BlockHash) {
    && (forall d <- written :: d.Parent() == latest)
    && (forall i, j :: 0 <= i < j < |written| ==> written[i].nTransactions < written[j].nTransactions)
  }

  ghost predicate SessionInv(s: State, se: Session, t: Task) {
    && IsTheDataTask(se.tasks, t)
    && DataTaskSound(s, se, t)
    && se.clears <= 1
    && WritesAdvance(se.written, se.latestBlockHash)
    && (se.written != [] ==> s.pendingData == se.written[|se.written| - 1])
    && (s.pendingData.Parent() == se.latestBlockHash ==> ClassTasksFrom(se.tasks, se.latestBlockHash))
    && (s.pendingData.Parent() != se.latestBlockHash ==> se.written == [] && forall u <- se.tasks :: u.IsDataTask())
    && RequestsAreFirsts(se)
  }

  ghost predicate Inv(s: State) {
    && StoresFrom(s)
    && (s.session.Some? ==> exists t :: SessionInv(s, s.session.value, t))
  }

  // ----- What a session asks for -----

  /** An entry asks for `classHash` unless an earlier entry had the same key. */
  datatype Request = Request(key: Felt, classHash: ClassHash)

  function Keys(rs: seq<Request>): set<Felt> {
    set r <- rs :: r.key
  }

  /** The classes of the entries whose key occurs for the first time. */
  function Firsts(rs: seq<Request>): seq<ClassHash> {
    if rs == [] then []
    else
      var before, r := rs[..|rs| - 1], rs[|rs| - 1];
      if r.key in Keys(before) then Firsts(before) else Firsts(before) + [r.classHash]
  }

  function DeclaredEntries(ds: seq<DeclaredClass>, n: nat): seq<Request>
    requires n <= |ds|
  {
    if n == 0 then [] else DeclaredEntries(ds, n - 1) + [Request(ds[n - 1].classHash, ds[n - 1].classHash)]
  }

  function OldEntries(hs: seq<ClassHash>, n: nat): seq<Request>
    requires n <= |hs|
  {
    if n == 0 then [] else OldEntries(hs, n - 1) + [Request(hs[n - 1], hs[n - 1])]
  }

  function CompiledEntries(ds: seq<DeclaredClass>, n: nat): seq<Request>
    requires n <= |ds|
  {
    if n == 0 then [] else CompiledEntries(ds, n - 1) + [Request(ds[n - 1].compiledClassHash, ds[n - 1].classHash)]
  }

  /** Every class declaration in the written pending data, in order, keyed by class hash. */
  function AllClassEntries(written: seq<PendingData>): seq<Request> {
    if written == [] then []
    else
      var d := written[|written| - 1];
      AllClassEntries(written[..|written| - 1])
      + DeclaredEntries(d.declaredClasses, |d.declaredClasses|)
      + OldEntries(d.oldDeclaredContracts, |d.oldDeclaredContracts|)
  }

  /** Every compiled class declaration in the written pending data, keyed by compiled class hash. */
  function AllCompiledEntries(written: seq<PendingData>): seq<Request> {
    if written == [] then []
    else
      var d := written[|written| - 1];
      AllCompiledEntries(written[..|written| - 1]) + CompiledEntries(d.declaredClasses, |d.declaredClasses|)
  }

  function ClassRequests(pushed: seq<Task>): seq<ClassHash> {
    if pushed == [] then []
    else
      var t := pushed[|pushed| - 1];
      ClassRequests(pushed[..|pushed| - 1]) + if t.FetchClass? then [t.classHash] else []
  }

  function CompiledClassRequests(pushed: seq<Task>): seq<ClassHash> {
    if pushed == [] then []
    else
      var t := pushed[|pushed| - 1];
      CompiledClassRequests(pushed[..|pushed| - 1]) + if t.FetchCompiledClass? then [t.classHash] else []
  }

  /** The session has asked exactly for the first occurrences among two lists of entries. */
  ghost predicate Asked(se: Session, classEntries: seq<Request>, compiledEntries: seq<Request>) {
    && se.processedClasses == Keys(classEntries)
    && ClassRequests(se.pushed) == Firsts(classEntries)
    && se.processedCompiledClasses == Keys(compiledEntries)
    && CompiledClassRequests(se.pushed) == Firsts(compiledEntries)
  }

  ghost predicate RequestsAreFirsts(se: Session) {
    Asked(se, AllClassEntries(se.written), AllCompiledEntries(se.written))
  }

  // ----- Pushing tasks keeps the books -----

  lemma PushAsks(se: Session, t: Task, ces: seq<Request>, cces: seq<Request>)
    requires Asked(se, ces, cces) && !t.FetchClass? && !t.FetchCompiledClass?
    ensures Asked(Push(se, t), ces, cces)
  {
    assert Push(se, t).pushed[..|se.pushed|] == se.pushed;
  }

  lemma KeysSnoc(rs: seq<Request>, r: Request)
    ensures Keys(rs + [r]) == Keys(rs) + {r.key}
    ensures Firsts(rs + [r]) == if r.key in Keys(rs) then Firsts(rs) else Firsts(rs) + [r.classHash]
  {
    var all := rs + [r];
    assert all[..|rs|] == rs;
    forall k | k in Keys(rs) + {r.key} ensures k in Keys(all) {
      if k in Keys(rs) {
        var q :| q in rs && q.key == k;
        assert q in all;
      } else {
        assert r in all;
      }
    }
  }

  lemma PushClassAsks(se: Session, h: ClassHash, origin: PendingData, ces: seq<Request>, cces: seq<Request>)
    requires Asked(se, ces, cces)
    ensures Asked(PushClass(se, h, origin), ces + [Request(h, h)], cces)
  {
    KeysSnoc(ces, Request(h, h));
    assert (se.pushed + [FetchClass(h, origin)])[..|se.pushed|] == se.pushed;
  }

  lemma PushCompiledClassAsks(se: Session, d: DeclaredClass, origin: PendingData, ces: seq<Request>, cces: seq<Request>)
    requires Asked(se, ces, cces)
    ensures Asked(PushCompiledClass(se, d, origin), ces, cces + [Request(d.compiledClassHash, d.classHash)])
  {
    KeysSnoc(cces, Request(d.compiledClassHash, d.classHash));
    assert (se.pushed + [FetchCompiledClass(d.classHash, origin)])[..|se.pushed|] == se.pushed;
  }

  lemma PushEntryAsks(se: Session, d: DeclaredClass, origin: PendingData, ces: seq<Request>, cces: seq<Request>)
    requires Asked(se, ces, cces)
    ensures Asked(PushEntry(se, d, origin), ces + [Request(d.classHash, d.classHash)],
                  cces + [Request(d.compiledClassHash, d.classHash)])
  {
    PushClassAsks(se, d.classHash, origin, ces, cces);
    PushCompiledClassAsks(PushClass(se, d.classHash, origin), d, origin, ces + [Request(d.classHash, d.classHash)], cces);
  }

  lemma EntriesSnoc(ces: seq<Request>, cces: seq<Request>, ds: seq<DeclaredClass>, n: nat)
    requires n < |ds|
    ensures ces + DeclaredEntries(ds, n) + [Request(ds[n].classHash, ds[n].classHash)] == ces + DeclaredEntries(ds, n + 1)
    ensures cces + CompiledEntries(ds, n) + [Request(ds[n].compiledClassHash, ds[n].classHash)]
         == cces + CompiledEntries(ds, n + 1)
  {
  }

  lemma {:induction false} PushDeclaredAsks(se: Session, origin: PendingData, n: nat, ces: seq<Request>, cces: seq<Request>)
    requires n <= |origin.declaredClasses| && Asked(se, ces, cces)
    ensures Asked(PushDeclared(se, origin, n), ces + DeclaredEntries(origin.declaredClasses, n),
                  cces + CompiledEntries(origin.declaredClasses, n))
  {
    if n == 0 {
      assert ces + DeclaredEntries(origin.declaredClasses, n) == ces;
      assert cces + CompiledEntries(origin.declaredClasses, n) == cces;
    } else {
      PushDeclaredAsks(se, origin, n - 1, ces, cces);
      EntriesSnoc(ces, cces, origin.declaredClasses, n - 1);
      PushEntryAsks(PushDeclared(se, origin, n - 1), origin.declaredClasses[n - 1], origin,
                    ces + DeclaredEntries(origin.declaredClasses, n - 1), cces + CompiledEntries(origin.declaredClasses, n - 1));
    }
  }

  lemma {:induction false} PushOldDeclaredAsks(se: Session, origin: PendingData, n: nat, ces: seq<Request>, cces: seq<Request>)
    requires n <= |origin.oldDeclaredContracts| && Asked(se, ces, cces)
    ensures Asked(PushOldDeclared(se, origin, n), ces + OldEntries(origin.oldDeclaredContracts, n), cces)
  {
    if n == 0 {
      assert ces + [] == ces;
    } else {
      PushOldDeclaredAsks(se, origin, n - 1, ces, cces);
      var h := origin.oldDeclaredContracts[n - 1];
      var ces' := ces + OldEntries(origin.oldDeclaredContracts, n - 1);
      PushClassAsks(PushOldDeclared(se, origin, n - 1), h, origin, ces', cces);
      assert ces' + [Request(h, h)] == ces + OldEntries(origin.oldDeclaredContracts, n);
    }
  }

  lemma WrittenEntries(written: seq<PendingData>, d: PendingData)
    ensures AllClassEntries(written + [d])
         == AllClassEntries(written) + DeclaredEntries(d.declaredClasses, |d.declaredClasses|)
            + OldEntries(d.oldDeclaredContracts, |d.oldDeclaredContracts|)
    ensures AllCompiledEntries(written + [d])
         == AllCompiledEntries(written) + CompiledEntries(d.declaredClasses, |d.declaredClasses|)
  {
    assert (written + [d])[..|written|] == written;
  }

  lemma OnNewPendingDataAsks(se: Session, d: PendingData)
    requires RequestsAreFirsts(se)
    ensures RequestsAreFirsts(OnNewPendingData(se.(written := se.written + [d]), d))
    ensures OnNewPendingData(se.(written := se.written + [d]), d).written == se.written + [d]
  {
    var s0 := se.(written := se.written + [d]);
    var ces, cces := AllClassEntries(se.written), AllCompiledEntries(se.written);
    assert Asked(s0, ces, cces);
    PushDeclaredAsks(s0, d, |d.declaredClasses|, ces, cces);
    var s1 := PushDeclared(s0, d, |d.declaredClasses|);
    var ces1 := ces + DeclaredEntries(d.declaredClasses, |d.declaredClasses|);
    var cces1 := cces + CompiledEntries(d.declaredClasses, |d.declaredClasses|);
    PushOldDeclaredAsks(s1, d, |d.oldDeclaredContracts|, ces1, cces1);
    var s2 := PushOldDeclared(s1, d, |d.oldDeclaredContracts|);
    var ces2 := ces1 + OldEntries(d.oldDeclaredContracts, |d.oldDeclaredContracts|);
    PushAsks(s2, FetchPendingData, ces2, cces1);
    WrittenEntries(se.written, d);
    PushesKeep(s0, d);
  }

  // ----- Pushing class tasks leaves the data task alone -----

  /** What the loops over the declared classes leave as it was. */
  ghost predicate SameButClassTasks(a: Session, b: Session, origin: PendingData) {
    && b.latestBlockHash == a.latestBlockHash && b.written == a.written && b.clears == a.clears
    && (forall u: Task :: u.IsDataTask() ==> b.tasks[u] == a.tasks[u])
    && (forall u <- b.tasks :: u in a.tasks || (!u.IsDataTask() && u.origin == origin && origin.Declares(u.classHash)))
  }

  lemma PushTaskKeeps(a: Session, b: Session, t: Task, b': Session, origin: PendingData)
    requires SameButClassTasks(a, b, origin)
    requires !t.IsDataTask() && t.origin == origin && origin.Declares(t.classHash)
    requires b' == b || (b'.tasks == b.tasks + multiset{t}
                         && b'.latestBlockHash == b.latestBlockHash && b'.written == b.written && b'.clears == b.clears)
    ensures SameButClassTasks(a, b', origin)
  {
  }

  lemma {:induction false} PushEntryKeeps(a: Session, b: Session, d: DeclaredClass, origin: PendingData)
    requires SameButClassTasks(a, b, origin) && d in origin.declaredClasses
    ensures SameButClassTasks(a, PushEntry(b, d, origin), origin)
  {
    var q := PushClass(b, d.classHash, origin);
    PushTaskKeeps(a, b, FetchClass(d.classHash, origin), q, origin);
    PushTaskKeeps(a, q, FetchCompiledClass(d.classHash, origin), PushCompiledClass(q, d, origin), origin);
  }

  lemma {:induction false} PushDeclaredKeeps(se: Session, origin: PendingData, n: nat)
    requires n <= |origin.declaredClasses|
    ensures SameButClassTasks(se, PushDeclared(se, origin, n), origin)
  {
    if n > 0 {
      PushDeclaredKeeps(se, origin, n - 1);
      PushEntryKeeps(se, PushDeclared(se, origin, n - 1), origin.declaredClasses[n - 1], origin);
    }
  }

  lemma {:induction false} PushOldDeclaredKeeps(se: Session, origin: PendingData, n: nat)
    requires n <= |origin.oldDeclaredContracts|
    ensures SameButClassTasks(se, PushOldDeclared(se, origin, n), origin)
  {
    if n > 0 {
      PushOldDeclaredKeeps(se, origin, n - 1);
      var p, h := PushOldDeclared(se, origin, n - 1), origin.oldDeclaredContracts[n - 1];
      PushTaskKeeps(se, p, FetchClass(h, origin), PushClass(p, h, origin), origin);
    }
  }

  lemma PushesKeep(se: Session, d: PendingData)
    ensures SameButClassTasks(se, PushOldDeclared(PushDeclared(se, d, |d.declaredClasses|), d, |d.oldDeclaredContracts|), d)
  {
    PushDeclaredKeeps(se, d, |d.declaredClasses|);
    PushOldDeclaredKeeps(PushDeclared(se, d, |d.declaredClasses|), d, |d.oldDeclaredContracts|);
  }

  // ----- Every step keeps the invariant -----

  lemma StartKeeps(s: State, latest: BlockHash)
    requires Inv(s) && s.session.None?
    ensures Inv(Next(s, Start(latest)))
  {
    var s' := Next(s, Start(latest));
    FreshSession(s', s'.session.value);
  }

  lemma FreshSession(s: State, se: Session)
    requires se == NewSession(se.latestBlockHash)
    ensures SessionInv(s, se, FetchPendingData)
  {
    var p := se.pushed;
    assert |p| == 1 && p[0] == FetchPendingData && p[..|p| - 1] == [];
    assert RequestsAreFirsts(se);
    assert IsTheDataTask(se.tasks, FetchPendingData);
  }

  /** The data task at the next stage of its work is still the only one. */
  lemma AdvanceData(tasks: multiset<Task>, from: Task, to: Task)
    requires IsTheDataTask(tasks, from) && to.IsDataTask()
    ensures IsTheDataTask(tasks - multiset{from} + multiset{to}, to)
  {
  }

  lemma FetchedKeeps(s: State, d: PendingData, t: Task)
    requires Inv(s) && Enabled(s, Fetched(d)) && SessionInv(s, s.session.value, t)
    ensures Inv(Next(s, Fetched(d)))
  {
    var se := s.session.value;
    if d.Parent() == se.latestBlockHash {
      AdvanceData(se.tasks, FetchPendingData, ComparePendingData(d));
      assert SessionInv(Next(s, Fetched(d)), Next(s, Fetched(d)).session.value, ComparePendingData(d));
    }
  }

  lemma OldDataKeeps(s: State, d: PendingData, t: Task)
    requires Inv(s) && Enabled(s, Compared(d)) && SessionInv(s, s.session.value, t) && !MoreAdvanced(d, s.pendingData)
    ensures Inv(Next(s, Compared(d)))
  {
    var se := s.session.value;
    AdvanceData(se.tasks, ComparePendingData(d), FetchPendingData);
    PushAsks(se.(tasks := se.tasks - multiset{ComparePendingData(d)}), FetchPendingData,
             AllClassEntries(se.written), AllCompiledEntries(se.written));
    assert SessionInv(Next(s, Compared(d)), Next(s, Compared(d)).session.value, FetchPendingData);
  }

  lemma ComparedKeeps(s: State, d: PendingData, t: Task)
    requires Inv(s) && Enabled(s, Compared(d)) && SessionInv(s, s.session.value, t)
    ensures Inv(Next(s, Compared(d)))
  {
    if MoreAdvanced(d, s.pendingData) {
      var s' := Next(s, Compared(d));
      var to := if s.pendingData.Parent() != d.Parent() then ClearPendingClasses(d) else WritePendingData(d);
      AdvanceData(s.session.value.tasks, ComparePendingData(d), to);
      assert SessionInv(s', s'.session.value, to);
    } else {
      OldDataKeeps(s, d, t);
    }
  }

  lemma ClearedKeeps(s: State, d: PendingData, t: Task)
    requires Inv(s) && Enabled(s, Cleared(d)) && SessionInv(s, s.session.value, t)
    ensures Inv(Next(s, Cleared(d)))
  {
    AdvanceData(s.session.value.tasks, ClearPendingClasses(d), WritePendingData(d));
    var s' := Next(s, Cleared(d));
    assert SessionInv(s', s'.session.value, WritePendingData(d));
  }

  lemma WritesAdvanceStep(s: State, d: PendingData)
    requires s.session.Some? && SessionInv(s, s.session.value, WritePendingData(d))
    ensures WritesAdvance(s.session.value.written + [d], s.session.value.latestBlockHash)
  {
  }

  lemma WrittenTasks(s: State, d: PendingData, pushedTo: Session)
    requires s.session.Some? && SessionInv(s, s.session.value, WritePendingData(d))
    requires var se := s.session.value;
             SameButClassTasks(se.(tasks := se.tasks - multiset{WritePendingData(d)}, written := se.written + [d]), pushedTo, d)
    ensures IsTheDataTask(pushedTo.tasks + multiset{FetchPendingData}, FetchPendingData)
    ensures ClassTasksFrom(pushedTo.tasks + multiset{FetchPendingData}, d.Parent())
  {
    var se := s.session.value;
    var rest := se.tasks - multiset{WritePendingData(d)};
    forall u: Task | u.IsDataTask() ensures pushedTo.tasks[u] == 0 {
      assert rest[u] == 0;
    }
    forall u <- rest ensures !u.IsDataTask() && u.origin.Parent() == d.Parent() && u.origin.Declares(u.classHash) {
      assert u in se.tasks;
    }
  }

  lemma WrittenKeeps(s: State, d: PendingData, t: Task)
    requires Inv(s) && Enabled(s, Written(d)) && SessionInv(s, s.session.value, t)
    ensures Inv(Next(s, Written(d)))
  {
    var se := s.session.value;
    var done := se.(tasks := se.tasks - multiset{WritePendingData(d)});
    var s' := Next(s, Written(d));
    WritesAdvanceStep(s, d);
    OnNewPendingDataAsks(done, d);
    PushesKeep(done.(written := done.written + [d]), d);
    WrittenTasks(s, d, PushOldDeclared(PushDeclared(done.(written := done.written + [d]), d, |d.declaredClasses|), d, |d.oldDeclaredContracts|));
    assert SessionInv(s', s'.session.value, FetchPendingData);
  }

  /** Moving a class task on, or finishing it, leaves the data task alone. */
  lemma AdvanceClass(tasks: multiset<Task>, t: Task, from: Task, rest: multiset<Task>)
    requires IsTheDataTask(tasks, t) && from in tasks && !from.IsDataTask()
    requires forall u <- rest :: !u.IsDataTask()
    ensures IsTheDataTask(tasks - multiset{from} + rest, t)
  {
  }

  lemma ClassFetchedKeeps(s: State, e: Event, t: Task)
    requires e.ClassFetched? || e.CompiledClassFetched?
    requires Inv(s) && Enabled(s, e) && SessionInv(s, s.session.value, t)
    ensures Inv(Next(s, e))
  {
    var se := s.session.value;
    var s' := Next(s, e);
    var to := if e.ClassFetched? then AddClass(e.classHash, e.origin, e.content) else AddCompiledClass(e.classHash, e.origin, e.content);
    AdvanceClass(se.tasks, t, TaskOf(e), multiset{to});
    assert TaskOf(e) in se.tasks;
    assert SessionInv(s', s'.session.value, t);
  }

  lemma ClassAddedKeeps(s: State, e: Event, t: Task)
    requires e.ClassAdded? || e.CompiledClassAdded?
    requires Inv(s) && Enabled(s, e) && SessionInv(s, s.session.value, t)
    ensures Inv(Next(s, e))
  {
    var se := s.session.value;
    var s' := Next(s, e);
    assert TaskOf(e) in se.tasks;
    AdvanceClass(se.tasks, t, TaskOf(e), multiset{});
    assert se.tasks - multiset{TaskOf(e)} + multiset{} == se.tasks - multiset{TaskOf(e)};
    assert SessionInv(s', s'.session.value, t);
  }

  lemma NextKeepsInv(s: State, e: Event)
    requires Inv(s) && Enabled(s, e)
    ensures Inv(Next(s, e))
  {
    if e.Start? {
      StartKeeps(s, e.latestBlockHash);
    } else if !e.Stop? {
      var t :| SessionInv(s, s.session.value, t);
      match e
      case Fetched(d) => FetchedKeeps(s, d, t);
      case Compared(d) => ComparedKeeps(s, d, t);
      case Cleared(d) => ClearedKeeps(s, d, t);
      case Written(d) => WrittenKeeps(s, d, t);
      case ClassFetched(_, _, _) => ClassFetchedKeeps(s, e, t);
      case CompiledClassFetched(_, _, _) => ClassFetchedKeeps(s, e, t);
      case ClassAdded(_, _, _) => ClassAddedKeeps(s, e, t);
      case CompiledClassAdded(_, _, _) => ClassAddedKeeps(s, e, t);
    }
  }
}
