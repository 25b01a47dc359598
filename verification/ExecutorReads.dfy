/**
 What reads of the block executor see: over any run they return the classes of the appends that were
 accepted and not reverted.
 */
module ExecutorReads {
  import opened Wrappers
  import opened ChainTypes
  import opened ClassReads
  import opened ExecutorSpec
  import H = HeaderSpec
  import S = StateSpec

  // ----- The appends that count -----

  /** The append is for the next block and brings a block hash that no earlier one has. */
  ghost predicate IsNext(appends: seq<Op>, op: Op) {
    && op.Append?
    && op.n == |appends|
    && forall a <- appends :: a.Append? ==> a.header.blockHash != op.header.blockHash
  }

  /** One more operation: an accepted append counts, a revert of the last block takes the last one off. */
  ghost function AppendsAfter(appends: seq<Op>, op: Op): seq<Op> {
    if IsNext(appends, op) then appends + [op]
    else if op.Revert? && op.n + 1 == |appends| then appends[..op.n]
    else appends
  }

  /** The accepted appends of a run that were not reverted. */
  ghost function Appends(ops: seq<Op>): seq<Op> {
    if ops == [] then []
    else
      AppendsAfter(Appends(ops[..|ops| - 1]), ops[|ops| - 1])
  }

  /** The appends, one after the other, on an empty ledger. */
  ghost function Replayed(appends: seq<Op>): Ledger
    requires forall a <- appends :: a.Append?
  {
    if appends == [] then EMPTY_EXECUTOR.ledger
    else
      assert appends[|appends| - 1] in appends;
      AppendTo(Replayed(appends[..|appends| - 1]), appends[|appends| - 1])
  }

  /** Each append is the next one after those before it, brings each class once and hashes of the right kind. */
  ghost predicate InOrder(appends: seq<Op>, cairo1: iset<ClassHash>) {
    forall i: nat :: i < |appends| ==>
      IsNext(appends[..i], appends[i]) && appends[i].Distinct() && appends[i].KindsRight(cairo1)
  }

  lemma {:induction false} AllAppends(appends: seq<Op>, cairo1: iset<ClassHash>)
    requires InOrder(appends, cairo1)
    ensures forall a <- appends :: a.Append?
    ensures forall n: nat :: n <= |appends| ==> InOrder(appends[..n], cairo1)
  {
    forall i | 0 <= i < |appends| ensures appends[i].Append? {
      assert IsNext(appends[..i], appends[i]);
    }
    forall n: nat | n <= |appends| ensures InOrder(appends[..n], cairo1) {
      forall i: nat | i < n
        ensures IsNext(appends[..n][..i], appends[..n][i]) && appends[..n][i].Distinct() && appends[..n][i].KindsRight(cairo1)
      {
        assert appends[..n][..i] == appends[..i];
      }
    }
  }

  lemma {:induction false} InOrderSnoc(appends: seq<Op>, op: Op, cairo1: iset<ClassHash>)
    requires InOrder(appends, cairo1) && IsNext(appends, op) && op.Distinct() && op.KindsRight(cairo1)
    ensures InOrder(appends + [op], cairo1)
  {
    var longer := appends + [op];
    forall i: nat | i < |longer|
      ensures IsNext(longer[..i], longer[i]) && longer[i].Distinct() && longer[i].KindsRight(cairo1)
    {
      assert longer[..i] == appends[..i];
      if i == |appends| {
        assert appends[..i] == appends;
      }
    }
  }

  lemma {:induction false} AppendsInOrder(ops: seq<Op>, cairo1: iset<ClassHash>)
    requires AllowedOps(ops, cairo1)
    ensures InOrder(Appends(ops), cairo1)
  {
    if ops != [] {
      var init, op := ops[..|ops| - 1], ops[|ops| - 1];
      assert op in ops && forall o <- init :: o in ops;
      AppendsInOrder(init, cairo1);
      if IsNext(Appends(init), op) {
        InOrderSnoc(Appends(init), op, cairo1);
      }
      AllAppends(Appends(init), cairo1);
    }
  }

  // ----- A run leaves the ledger of its appends -----

  ghost predicate IsOutcome(appends: seq<Op>, r: Ledger) {
    (forall a <- appends :: a.Append?) ==> r == Replayed(appends)
  }

  /**
   `l` is the ledger of the appends. The outcome is bound, so that a proof replays the appends only
   where it names it.
   */
  ghost predicate IsLedgerOf(appends: seq<Op>, l: Ledger) {
    forall r :: IsOutcome(appends, r) ==> r == l
  }

  lemma {:induction false} EmptyLedger()
    ensures IsLedgerOf([], EMPTY_EXECUTOR.ledger)
  {
  }

  lemma {:induction false} LongerLedger(appends: seq<Op>, l: Ledger, op: Op)
    requires (forall a <- appends :: a.Append?) && op.Append? && IsLedgerOf(appends, l)
    ensures IsLedgerOf(appends + [op], AppendTo(l, op))
  {
    assert IsOutcome(appends, Replayed(appends));
    assert (appends + [op])[..|appends|] == appends;
  }

  lemma {:induction false} ShorterLedger(appends: seq<Op>, l: Ledger) returns (l0: Ledger)
    requires appends != [] && (forall a <- appends :: a.Append?) && IsLedgerOf(appends, l)
    ensures appends[|appends| - 1].Append?
    ensures IsLedgerOf(appends[..|appends| - 1], l0) && l == AppendTo(l0, appends[|appends| - 1])
  {
    assert appends[|appends| - 1] in appends;
    assert IsOutcome(appends, Replayed(appends));
    l0 := Replayed(appends[..|appends| - 1]);
  }

  lemma {:induction false} OneLedger(appends: seq<Op>, l: Ledger, l': Ledger)
    requires (forall a <- appends :: a.Append?) && IsLedgerOf(appends, l) && IsLedgerOf(appends, l')
    ensures l == l'
  {
    assert IsOutcome(appends, Replayed(appends));
  }

  /** One header and one block of state for each append. */
  ghost predicate HeadersMatch(l: Ledger, appends: seq<Op>) {
    && |l.chain| == |l.blocks| == |appends| && l.reader == None
    && forall i :: 0 <= i < |appends| ==> appends[i].Append? && l.chain[i].header == appends[i].header
  }

  lemma {:induction false} HeadersMatchStep(l: Ledger, appends: seq<Op>, op: Op)
    requires HeadersMatch(l, appends) && op.Append?
    ensures HeadersMatch(AppendTo(l, op), appends + [op])
  {
  }

  lemma {:induction false} LedgerHeaders(appends: seq<Op>, l: Ledger)
    requires (forall a <- appends :: a.Append?) && IsLedgerOf(appends, l)
    ensures HeadersMatch(l, appends)
  {
    if appends == [] {
      EmptyLedger();
      OneLedger(appends, l, EMPTY_EXECUTOR.ledger);
    } else {
      var n := |appends| - 1;
      var l0 := ShorterLedger(appends, l);
      LedgerHeaders(appends[..n], l0);
      HeadersMatchStep(l0, appends[..n], appends[n]);
      assert appends[..n] + [appends[n]] == appends;
    }
  }

  lemma {:induction false} AppendKeepsLedgerInv(l: Ledger, op: Op, cairo1: iset<ClassHash>)
    requires LedgerInv(l, cairo1) && op.Append? && op.Distinct() && op.KindsRight(cairo1) && op.n == |l.blocks|
    ensures LedgerInv(AppendTo(l, op), cairo1)
  {
    var t := TablesOf(l);
    NewBlockFits(l, op);
    NewCasmKeys(l.casms, Unknown(op.declared, DeclaredBefore(t, op.n)));
    AppendKeepsBlocksSound(l.blocks, BlockOf(l, op), l.casms, AppendTo(l, op).casms);
    AppendKeepsKinds(l.blocks, BlockOf(l, op), cairo1);
  }

  /** The ledger before the last append, with all that holds of it. */
  lemma {:induction false} BeforeLast(appends: seq<Op>, l: Ledger, cairo1: iset<ClassHash>) returns (l0: Ledger)
    requires appends != [] && InOrder(appends, cairo1) && IsLedgerOf(appends, l)
    ensures var init, op := appends[..|appends| - 1], appends[|appends| - 1];
            && InOrder(init, cairo1) && IsLedgerOf(init, l0) && LedgerInv(l0, cairo1)
            && op.Append? && op.Distinct() && op.KindsRight(cairo1) && op.n == |l0.blocks| == |init|
            && l == AppendTo(l0, op)
    decreases |appends|, 0
  {
    AllAppends(appends, cairo1);
    var n := |appends| - 1;
    assert IsNext(appends[..n], appends[n]);
    l0 := ShorterLedger(appends, l);
    LedgerHeaders(appends[..n], l0);
    LedgerOfAppendsInv(appends[..n], l0, cairo1);
  }

  lemma {:induction false} LedgerOfAppendsInv(appends: seq<Op>, l: Ledger, cairo1: iset<ClassHash>)
    requires InOrder(appends, cairo1) && IsLedgerOf(appends, l)
    ensures LedgerInv(l, cairo1)
    decreases |appends|, 1
  {
    if appends == [] {
      EmptyLedger();
      OneLedger(appends, l, EMPTY_EXECUTOR.ledger);
    } else {
      var l0 := BeforeLast(appends, l, cairo1);
      AppendKeepsLedgerInv(l0, appends[|appends| - 1], cairo1);
    }
  }

  /** Whether an append is accepted, in the words of the appends before it. */
  lemma {:induction false} AcceptsIff(appends: seq<Op>, op: Op, l: Ledger)
    requires HeadersMatch(l.(reader := None), appends) && op.Append?
    ensures Accepts(l, op) <==> IsNext(appends, op)
  {
    if H.HasHash(l.chain, op.header.blockHash) {
      var i :| 0 <= i < |l.chain| && l.chain[i].header.blockHash == op.header.blockHash;
      assert appends[i] in appends;
    }
    forall a | a in appends && a.Append? && a.header.blockHash == op.header.blockHash
      ensures H.HasHash(l.chain, op.header.blockHash)
    {
      var i :| 0 <= i < |appends| && appends[i] == a;
      assert l.chain[i].header.blockHash == op.header.blockHash;
    }
  }

  lemma {:induction false} NewCasmsGo(casms: map<ClassHash, Casm>, newClasses: seq<(ClassHash, DeclaredClass)>)
    requires forall h <- S.Hashes(newClasses) :: h !in casms
    ensures (casms + S.FirstWins(Casms(newClasses))) - S.Elems(S.Hashes(newClasses)) == casms
  {
    assert S.Hashes(Casms(newClasses)) == S.Hashes(newClasses);
    forall h ensures h in S.FirstWins(Casms(newClasses)) <==> h in S.Hashes(newClasses) {
      S.FirstWinsKeys(Casms(newClasses), h);
    }
  }

  /** A revert of the last block undoes its append: headers, state, classes and CASMs. */
  lemma {:induction false} RevertUndoesAppend(l: Ledger, op: Op, cairo1: iset<ClassHash>)
    requires LedgerInv(l, cairo1) && op.Append? && op.Distinct() && op.n == |l.blocks|
    ensures RevertFrom(AppendTo(l, op), op.n) == l
  {
    var l' := AppendTo(l, op);
    NewBlockFits(l, op);
    NewCasmsGo(l.casms, Unknown(op.declared, DeclaredBefore(TablesOf(l), op.n)));
    assert l'.chain[..op.n] == l.chain && S.Init(l'.blocks) == l.blocks;
  }

  lemma {:induction false} ReaderDoesNotMatter(l: Ledger, op: Op, n: nat, reader: Option<nat>)
    ensures RevertFrom(l.(reader := reader), n) == RevertFrom(l, n).(reader := reader)
    ensures op.Append? ==> AppendTo(l.(reader := reader), op) == AppendTo(l, op).(reader := reader)
  {
  }

  lemma {:induction false} AppendIsReplayed(l: Ledger, appends: seq<Op>, op: Op)
    requires (forall a <- appends :: a.Append?) && op.Append? && IsLedgerOf(appends, l.(reader := None))
    ensures IsLedgerOf(AppendsAfter(appends, op), LedgerStep(l, op).(reader := None))
  {
    LedgerHeaders(appends, l.(reader := None));
    AcceptsIff(appends, op, l);
    if IsNext(appends, op) {
      LongerLedger(appends, l.(reader := None), op);
      ReaderDoesNotMatter(l, op, 0, None);
    }
  }

  lemma {:induction false} RevertIsReplayed(l: Ledger, appends: seq<Op>, n: nat, cairo1: iset<ClassHash>)
    requires InOrder(appends, cairo1) && IsLedgerOf(appends, l.(reader := None))
    ensures IsLedgerOf(AppendsAfter(appends, Revert(n)), RevertFrom(l, n).(reader := None))
  {
    AllAppends(appends, cairo1);
    LedgerHeaders(appends, l.(reader := None));
    if n + 1 == |appends| {
      var l0 := BeforeLast(appends, l.(reader := None), cairo1);
      RevertUndoesAppend(l0, appends[n], cairo1);
      ReaderDoesNotMatter(l, appends[n], n, None);
    }
  }

  lemma {:induction false} StepIsReplayed(l: Ledger, appends: seq<Op>, op: Op, cairo1: iset<ClassHash>)
    requires InOrder(appends, cairo1) && IsLedgerOf(appends, l.(reader := None))
    ensures IsLedgerOf(AppendsAfter(appends, op), LedgerStep(l, op).(reader := None))
  {
    AllAppends(appends, cairo1);
    match op
    case Append(_, _, _, _, _) => AppendIsReplayed(l, appends, op);
    case Revert(n) => RevertIsReplayed(l, appends, n, cairo1);
    case _ =>
  }

  /** Whatever is appended, reverted, set up and read, the ledger is that of the appends that count. */
  lemma {:induction false} RunIsReplayed(ops: seq<Op>, cairo1: iset<ClassHash>)
    requires AllowedOps(ops, cairo1)
    ensures InOrder(Appends(ops), cairo1)
    ensures IsLedgerOf(Appends(ops), RunLedger(EMPTY_EXECUTOR.ledger, ops).(reader := None))
  {
    AppendsInOrder(ops, cairo1);
    if ops == [] {
      EmptyLedger();
    } else {
      var init, op := ops[..|ops| - 1], ops[|ops| - 1];
      assert op in ops && forall o <- init :: o in ops;
      RunIsReplayed(init, cairo1);
      StepIsReplayed(RunLedger(EMPTY_EXECUTOR.ledger, init), Appends(init), op, cairo1);
    }
  }

  // ----- What the appends bring -----

  /** Append `i` is the first that declares `h`, and it brings `c`. */
  ghost predicate Declares(appends: seq<Op>, i: nat, h: ClassHash, c: DeclaredClass) {
    && i < |appends| && appends[i].Append? && (h, c) in appends[i].declared
    && !Declared(appends[..i], h)
  }

  /** Some append declares `h`. */
  ghost predicate Declared(appends: seq<Op>, h: ClassHash) {
    exists a <- appends :: a.Append? && h in S.Hashes(a.declared)
  }

  /** Append `i` is the first that brings the Cairo 0 class `h`, as `d`. */
  ghost predicate BringsDeprecated(appends: seq<Op>, i: nat, h: ClassHash, d: DeprecatedClass) {
    && i < |appends| && appends[i].Append? && (h, d) in appends[i].deprecated
    && !Deprecated(appends[..i], h)
  }

  ghost predicate Deprecated(appends: seq<Op>, h: ClassHash) {
    exists a <- appends :: a.Append? && h in S.Hashes(a.deprecated)
  }

  lemma {:induction false} InHashes<V>(list: seq<(ClassHash, V)>, h: ClassHash)
    ensures h in S.Hashes(list) <==> exists v :: (h, v) in list
  {
    if h in S.Hashes(list) {
      var k :| 0 <= k < |list| && S.Hashes(list)[k] == h;
      assert list[k] == (h, list[k].1);
    }
    if v :| (h, v) in list {
      var k :| 0 <= k < |list| && list[k] == (h, v);
      assert S.Hashes(list)[k] == h;
    }
  }

  lemma {:induction false} EntryCounts<V>(list: seq<(ClassHash, V)>, h: ClassHash, v: V)
    requires S.NoDuplicates(S.Hashes(list)) && (h, v) in list
    ensures h in S.FirstWins(list) && S.FirstWins(list)[h] == v
  {
    var i :| 0 <= i < |list| && list[i] == (h, v);
    S.FirstWinsAt(list, i);
  }

  lemma {:induction false} InUnknown<V>(list: seq<(ClassHash, V)>, known: set<ClassHash>, h: ClassHash, v: V)
    ensures (h, v) in Unknown(list, known) <==> (h, v) in list && h !in known
  {
    if list != [] {
      InUnknown(list[..|list| - 1], known, h, v);
      assert list == list[..|list| - 1] + [list[|list| - 1]];
    }
  }

  // ----- The rows of a ledger of appends -----

  /** The rows of a Cairo 1 class: its block, its Sierra class and its CASM. */
  ghost predicate HasClass(l: Ledger, n: nat, h: ClassHash, c: DeclaredClass) {
    var t := TablesOf(l);
    && h in t.declaredClassesBlock && t.declaredClassesBlock[h] == n
    && h in t.declaredClasses && t.declaredClasses[h] == c.sierra
    && h in t.casms && t.casms[h] == c.casm
  }

  ghost predicate HasDeprecated(l: Ledger, n: nat, h: ClassHash, d: DeprecatedClass) {
    h in S.DeprecatedOf(l.blocks) && S.DeprecatedOf(l.blocks)[h] == IndexedDeprecatedClass(n, d)
  }

  /** The new Cairo 1 classes of an append: rows with the block, the Sierra class and the CASM that it brings. */
  lemma {:induction false} AppendAddsClass(l: Ledger, op: Op, h: ClassHash, c: DeclaredClass)
    requires BlocksSound(l.blocks, l.casms) && op.Append? && op.Distinct() && op.n == |l.blocks|
    requires (h, c) in op.declared && h !in S.DeclaredBlocksOf(l.blocks)
    ensures HasClass(AppendTo(l, op), op.n, h, c)
  {
    var known := DeclaredBefore(TablesOf(l), op.n);
    var newClasses := Unknown(op.declared, known);
    InUnknown(op.declared, known, h, c);
    UnknownHashes(op.declared, known);
    S.AppendTables(l.blocks, BlockOf(l, op));
    ClassRows(newClasses, h, c);
  }

  lemma {:induction false} ClassRows(newClasses: seq<(ClassHash, DeclaredClass)>, h: ClassHash, c: DeclaredClass)
    requires S.NoDuplicates(S.Hashes(newClasses)) && (h, c) in newClasses
    ensures h in S.Hashes(newClasses)
    ensures h in S.FirstWins(Sierras(newClasses)) && S.FirstWins(Sierras(newClasses))[h] == c.sierra
    ensures h in S.FirstWins(Casms(newClasses)) && S.FirstWins(Casms(newClasses))[h] == c.casm
  {
    InHashes(newClasses, h);
    var k :| 0 <= k < |newClasses| && newClasses[k] == (h, c);
    assert S.Hashes(Sierras(newClasses)) == S.Hashes(newClasses) == S.Hashes(Casms(newClasses));
    assert Sierras(newClasses)[k] == (h, c.sierra) && Casms(newClasses)[k] == (h, c.casm);
    EntryCounts(Sierras(newClasses), h, c.sierra);
    EntryCounts(Casms(newClasses), h, c.casm);
  }

  /** Classes that are there keep their rows. */
  lemma {:induction false} AppendKeepsClass(l: Ledger, op: Op, n: nat, h: ClassHash, c: DeclaredClass)
    requires BlocksSound(l.blocks, l.casms) && op.Append? && op.Distinct() && op.n == |l.blocks| && HasClass(l, n, h, c)
    ensures HasClass(AppendTo(l, op), n, h, c)
  {
    S.AppendTables(l.blocks, BlockOf(l, op));
    NewBlockFits(l, op);
    var newClasses := Unknown(op.declared, DeclaredBefore(TablesOf(l), op.n));
    NewHashesAreNew(l, op, h);
    assert S.Hashes(Sierras(newClasses)) == S.Hashes(newClasses) == S.Hashes(Casms(newClasses));
    S.FirstWinsKeys(Sierras(newClasses), h);
    S.FirstWinsKeys(Casms(newClasses), h);
  }

  lemma {:induction false} NewHashesAreNew(l: Ledger, op: Op, h: ClassHash)
    requires BlocksSound(l.blocks, l.casms) && op.Append? && op.Distinct() && op.n == |l.blocks|
    requires h in S.DeclaredBlocksOf(l.blocks)
    ensures h !in S.Hashes(Unknown(op.declared, DeclaredBefore(TablesOf(l), op.n)))
  {
    UnknownHashes(op.declared, DeclaredBefore(TablesOf(l), op.n));
    S.DeclaredBlockAt(l.blocks, h);
  }

  lemma {:induction false} DeprecatedRows(l: Ledger, op: Op)
    requires op.Append? && op.Distinct() && op.n == |l.blocks|
    ensures S.DeprecatedOf(AppendTo(l, op).blocks)
         == S.Indexed(S.FirstWins(Unknown(op.deprecated, DeprecatedBefore(TablesOf(l), op.n))), op.n) + S.DeprecatedOf(l.blocks)
  {
    S.AppendTables(l.blocks, BlockOf(l, op));
  }

  lemma {:induction false} AppendAddsDeprecated(l: Ledger, op: Op, h: ClassHash, d: DeprecatedClass)
    requires op.Append? && op.Distinct() && op.n == |l.blocks|
    requires (h, d) in op.deprecated && h !in S.DeprecatedOf(l.blocks)
    ensures HasDeprecated(AppendTo(l, op), op.n, h, d)
  {
    var known := DeprecatedBefore(TablesOf(l), op.n);
    InUnknown(op.deprecated, known, h, d);
    UnknownHashes(op.deprecated, known);
    EntryCounts(Unknown(op.deprecated, known), h, d);
    DeprecatedRows(l, op);
  }

  // ----- Every ledger of appends holds what they bring -----

  lemma {:induction false} DeclaredSnoc(appends: seq<Op>, op: Op, h: ClassHash)
    ensures Declared(appends + [op], h) <==> Declared(appends, h) || (op.Append? && h in S.Hashes(op.declared))
    ensures Deprecated(appends + [op], h) <==> Deprecated(appends, h) || (op.Append? && h in S.Hashes(op.deprecated))
  {
    forall a <- appends ensures a in appends + [op] {
    }
    assert op in appends + [op];
  }

  /** A hash is a key of the class tables exactly when the appends name it. */
  ghost predicate KeysMatch(l: Ledger, appends: seq<Op>, h: ClassHash) {
    && (h in S.DeclaredBlocksOf(l.blocks) <==> Declared(appends, h))
    && (h in S.DeprecatedOf(l.blocks) <==> Deprecated(appends, h))
  }

  lemma {:induction false} KeysMatchStep(l: Ledger, appends: seq<Op>, op: Op, h: ClassHash)
    requires BlocksSound(l.blocks, l.casms) && op.Append? && op.Distinct() && op.n == |l.blocks| && KeysMatch(l, appends, h)
    ensures KeysMatch(AppendTo(l, op), appends + [op], h)
  {
    DeclaredSnoc(appends, op, h);
    AppendKeys(l, op, h);
  }

  lemma {:induction false} LedgerKeys(appends: seq<Op>, l: Ledger, h: ClassHash, cairo1: iset<ClassHash>)
    requires InOrder(appends, cairo1) && IsLedgerOf(appends, l)
    ensures KeysMatch(l, appends, h)
  {
    if appends == [] {
      EmptyLedger();
      OneLedger(appends, l, EMPTY_EXECUTOR.ledger);
    } else {
      var n := |appends| - 1;
      var l0 := BeforeLast(appends, l, cairo1);
      LedgerKeys(appends[..n], l0, h, cairo1);
      KeysMatchStep(l0, appends[..n], appends[n], h);
      assert appends[..n] + [appends[n]] == appends;
    }
  }

  lemma {:induction false} AppendKeys(l: Ledger, op: Op, h: ClassHash)
    requires BlocksSound(l.blocks, l.casms) && op.Append? && op.Distinct() && op.n == |l.blocks|
    ensures var l' := AppendTo(l, op);
            && (h in S.DeclaredBlocksOf(l'.blocks) <==> h in S.DeclaredBlocksOf(l.blocks) || h in S.Hashes(op.declared))
            && (h in S.DeprecatedOf(l'.blocks) <==> h in S.DeprecatedOf(l.blocks) || h in S.Hashes(op.deprecated))
  {
    var t := TablesOf(l);
    S.AppendTables(l.blocks, BlockOf(l, op));
    UnknownHashes(op.declared, DeclaredBefore(t, op.n));
    UnknownHashes(op.deprecated, DeprecatedBefore(t, op.n));
    S.FirstWinsKeys(Unknown(op.deprecated, DeprecatedBefore(t, op.n)), h);
    S.DeclaredBlockAt(l.blocks, h);
    S.DeprecatedAt(l.blocks, h);
  }

  /** What an append does to the ledger before it. */
  ghost predicate IsAppend(l0: Ledger, op: Op) {
    BlocksSound(l0.blocks, l0.casms) && op.Append? && op.Distinct() && op.n == |l0.blocks|
  }

  lemma {:induction false} ClassStep(l0: Ledger, appends: seq<Op>, i: nat, h: ClassHash, c: DeclaredClass)
    requires appends != [] && IsAppend(l0, appends[|appends| - 1]) && |l0.blocks| == |appends| - 1
    requires KeysMatch(l0, appends[..|appends| - 1], h) && Declares(appends, i, h, c)
    requires i < |appends| - 1 ==> HasClass(l0, i, h, c)
    ensures HasClass(AppendTo(l0, appends[|appends| - 1]), i, h, c)
  {
    var n := |appends| - 1;
    if i == n {
      AppendAddsClass(l0, appends[n], h, c);
    } else {
      AppendKeepsClass(l0, appends[n], i, h, c);
    }
  }

  /** Each class has the rows of the first append that declares it. */
  lemma {:induction false} LedgerHasClass(appends: seq<Op>, l: Ledger, i: nat, h: ClassHash, c: DeclaredClass, cairo1: iset<ClassHash>)
    requires InOrder(appends, cairo1) && IsLedgerOf(appends, l) && Declares(appends, i, h, c)
    ensures HasClass(l, i, h, c)
  {
    var n := |appends| - 1;
    var l0 := BeforeLast(appends, l, cairo1);
    LedgerKeys(appends[..n], l0, h, cairo1);
    if i < n {
      DeclaresInPrefix(appends, i, h, c);
      LedgerHasClass(appends[..n], l0, i, h, c, cairo1);
    }
    ClassStep(l0, appends, i, h, c);
  }

  lemma {:induction false} DeclaresInPrefix(appends: seq<Op>, i: nat, h: ClassHash, c: DeclaredClass)
    requires Declares(appends, i, h, c) && i < |appends| - 1
    ensures Declares(appends[..|appends| - 1], i, h, c)
  {
    assert appends[..|appends| - 1][..i] == appends[..i];
  }

  lemma {:induction false} DeprecatedStep(l0: Ledger, appends: seq<Op>, i: nat, h: ClassHash, d: DeprecatedClass)
    requires appends != [] && IsAppend(l0, appends[|appends| - 1]) && |l0.blocks| == |appends| - 1
    requires KeysMatch(l0, appends[..|appends| - 1], h) && BringsDeprecated(appends, i, h, d)
    requires i < |appends| - 1 ==> HasDeprecated(l0, i, h, d)
    ensures HasDeprecated(AppendTo(l0, appends[|appends| - 1]), i, h, d)
  {
    var n := |appends| - 1;
    if i == n {
      AppendAddsDeprecated(l0, appends[n], h, d);
    } else {
      DeprecatedRows(l0, appends[n]);
    }
  }

  lemma {:induction false} BringsInPrefix(appends: seq<Op>, i: nat, h: ClassHash, d: DeprecatedClass)
    requires BringsDeprecated(appends, i, h, d) && i < |appends| - 1
    ensures BringsDeprecated(appends[..|appends| - 1], i, h, d)
  {
    assert appends[..|appends| - 1][..i] == appends[..i];
  }

  lemma {:induction false} LedgerHasDeprecated(appends: seq<Op>, l: Ledger, i: nat, h: ClassHash, d: DeprecatedClass, cairo1: iset<ClassHash>)
    requires InOrder(appends, cairo1) && IsLedgerOf(appends, l) && BringsDeprecated(appends, i, h, d)
    ensures HasDeprecated(l, i, h, d)
  {
    var n := |appends| - 1;
    var l0 := BeforeLast(appends, l, cairo1);
    LedgerKeys(appends[..n], l0, h, cairo1);
    if i < n {
      BringsInPrefix(appends, i, h, d);
      LedgerHasDeprecated(appends[..n], l0, i, h, d, cairo1);
    }
    DeprecatedStep(l0, appends, i, h, d);
  }

  // ----- Reads -----

  /**
   What a reader of any run gets: the CASM and Sierra class that the first append to declare the hash
   brought, the Cairo 0 class that the first append to bring it brought, or that there is no such class.
   */
  lemma {:induction false} ReadSeesAppends(ops: seq<Op>, latest: nat, h: ClassHash, cairo1: iset<ClassHash>)
    requires AllowedOps(ops, cairo1)
    ensures var read := UncachedRead(TablesOf(RunLedger(EMPTY_EXECUTOR.ledger, ops)), latest, h);
            && (forall i: nat, c :: Declares(Appends(ops), i, h, c) && i <= latest ==> read == Ok(V1(c.casm, c.sierra)))
            && (forall i: nat, d :: BringsDeprecated(Appends(ops), i, h, d) && i < latest ==> read == Ok(V0(d)))
            && (!Declared(Appends(ops), h) && !Deprecated(Appends(ops), h) ==> read == Err(UndeclaredClassHash(h)))
  {
    RunIsReplayed(ops, cairo1);
    var appends, l := Appends(ops), RunLedger(EMPTY_EXECUTOR.ledger, ops).(reader := None);
    assert TablesOf(l) == TablesOf(RunLedger(EMPTY_EXECUTOR.ledger, ops));
    LedgerKeys(appends, l, h, cairo1);
    forall i: nat, c | Declares(appends, i, h, c) && i <= latest
      ensures UncachedRead(TablesOf(l), latest, h) == Ok(V1(c.casm, c.sierra))
    {
      LedgerHasClass(appends, l, i, h, c, cairo1);
    }
    forall i: nat, d | BringsDeprecated(appends, i, h, d) && i < latest
      ensures UncachedRead(TablesOf(l), latest, h) == Ok(V0(d))
    {
      LedgerHasDeprecated(appends, l, i, h, d, cairo1);
      LedgerOfAppendsInv(appends, l, cairo1);
      S.DeclaredBlockAt(l.blocks, h);
    }
  }

  /** With the cache, evictions and all, a read returns the same. */
  lemma {:induction false} CachedReadSeesAppends(ops: seq<Op>, h: ClassHash, evicted: set<ClassHash>, cairo1: iset<ClassHash>)
    requires AllowedOps(ops, cairo1)
    ensures var s := RunOps(EMPTY_EXECUTOR, ops);
            s.ledger.reader.Some? ==>
              && |ReadOf(s, ReadClass(h, evicted))| == 1
              && var read, latest := ReadOf(s, ReadClass(h, evicted))[0], s.ledger.reader.value;
                 && (forall i: nat, c :: Declares(Appends(ops), i, h, c) && i <= latest ==> read == Ok(V1(c.casm, c.sierra)))
                 && (forall i: nat, d :: BringsDeprecated(Appends(ops), i, h, d) && i < latest ==> read == Ok(V0(d)))
                 && (!Declared(Appends(ops), h) && !Deprecated(Appends(ops), h) ==> read == Err(UndeclaredClassHash(h)))
  {
    EmptyInv(cairo1);
    EveryRunKeepsInv(EMPTY_EXECUTOR, ops, cairo1);
    var s := RunOps(EMPTY_EXECUTOR, ops);
    ReadIsPlain(s, ReadClass(h, evicted), cairo1);
    if s.ledger.reader.Some? {
      ReadSeesAppends(ops, s.ledger.reader.value, h, cairo1);
    }
  }

  lemma {:induction false} EmptyInv(cairo1: iset<ClassHash>)
    ensures Inv(EMPTY_EXECUTOR, cairo1)
  {
  }

  lemma {:induction false} AppendsSnoc(ops: seq<Op>, op: Op, cairo1: iset<ClassHash>)
    requires AllowedOps(ops, cairo1) && op.Distinct() && op.KindsRight(cairo1)
    ensures AllowedOps(ops + [op], cairo1) && Appends(ops + [op]) == AppendsAfter(Appends(ops), op)
  {
    assert (ops + [op])[..|ops|] == ops;
  }

  lemma {:induction false} AppendDeclares(appends: seq<Op>, op: Op, h: ClassHash, c: DeclaredClass)
    requires IsNext(appends, op) && (h, c) in op.declared && !Declared(appends, h)
    ensures Declares(appends + [op], op.n, h, c)
  {
    assert (appends + [op])[..op.n] == appends;
  }

  /** After an accepted append, a reader set up at the new end gets the class that the append brought. */
  lemma {:induction false} AppendedClassIsRead(ops: seq<Op>, op: Op, h: ClassHash, c: DeclaredClass, evicted: set<ClassHash>, cairo1: iset<ClassHash>)
    requires AllowedOps(ops, cairo1) && op.Distinct() && op.KindsRight(cairo1) && IsNext(Appends(ops), op)
    requires (h, c) in op.declared && !Declared(Appends(ops), h)
    ensures var s := RunOps(EMPTY_EXECUTOR, ops + [op] + [Setup(op.n + 1)]);
            s.ledger.reader == Some(op.n + 1) && ReadOf(s, ReadClass(h, evicted)) == [Ok(V1(c.casm, c.sierra))]
  {
    AppendsSnoc(ops, op, cairo1);
    AppendDeclares(Appends(ops), op, h, c);
    ReadAtEnd(ops + [op], op.n + 1, op.n, h, c, evicted, cairo1);
  }

  /** A reader set up at the end of the list gets the class of any append that counts. */
  lemma {:induction false} ReadAtEnd(ops: seq<Op>, n: nat, i: nat, h: ClassHash, c: DeclaredClass, evicted: set<ClassHash>, cairo1: iset<ClassHash>)
    requires AllowedOps(ops, cairo1) && n == |Appends(ops)| && Declares(Appends(ops), i, h, c)
    ensures var s := RunOps(EMPTY_EXECUTOR, ops + [Setup(n)]);
            s.ledger.reader == Some(n) && ReadOf(s, ReadClass(h, evicted)) == [Ok(V1(c.casm, c.sierra))]
  {
    AppendsSnoc(ops, Setup(n), cairo1);
    ReaderAtEnd(ops, n, cairo1);
    CachedReadSeesAppends(ops + [Setup(n)], h, evicted, cairo1);
  }

  /** A set-up at the end of the list makes a reader there. */
  lemma {:induction false} ReaderAtEnd(ops: seq<Op>, n: nat, cairo1: iset<ClassHash>)
    requires AllowedOps(ops, cairo1) && n == |Appends(ops)|
    ensures RunOps(EMPTY_EXECUTOR, ops + [Setup(n)]).ledger.reader == Some(n)
  {
    EmptyInv(cairo1);
    EveryRunKeepsInv(EMPTY_EXECUTOR, ops, cairo1);
    RunIsReplayed(ops, cairo1);
    AllAppends(Appends(ops), cairo1);
    LedgerHeaders(Appends(ops), RunLedger(EMPTY_EXECUTOR.ledger, ops).(reader := None));
    assert (ops + [Setup(n)])[..|ops|] == ops;
  }

  /** Without a reader there is nothing to ask; a teardown takes it away. */
  lemma {:induction false} TeardownEndsReads(s: Executor, op: Op)
    ensures ReadOf(Step(s, Teardown), op) == []
  {
  }

  /** What a read found is cached, unless it is evicted at once. */
  lemma {:induction false} ReadIsCached(s: Executor, h: ClassHash, evicted: set<ClassHash>)
    requires s.ledger.reader.Some? && h !in s.cache && h !in evicted
    ensures var read := ReadOf(s, ReadClass(h, evicted))[0];
            read.Ok? ==> h in Step(s, ReadClass(h, evicted)).cache && Step(s, ReadClass(h, evicted)).cache[h] == read.value
  {
  }

  // ----- Contracts -----

  /** The block of state has the class, storage and nonce updates of the append. */
  ghost predicate HasUpdates(block: S.StateBlock, op: Op) {
    && op.Append?
    && block.diff.contracts.deployed + block.diff.contracts.replaced == op.updates.classHashes
    && block.diff.contracts.storage == op.updates.storage
    && block.diff.contracts.nonces == op.updates.nonces
  }

  lemma {:induction false} BlockHasUpdates(l: Ledger, op: Op)
    requires op.Append?
    ensures HasUpdates(BlockOf(l, op), op)
  {
  }

  /** Each stored block has the updates of its append. */
  lemma {:induction false} LedgerHasUpdates(appends: seq<Op>, l: Ledger, i: nat)
    requires (forall a <- appends :: a.Append?) && IsLedgerOf(appends, l) && i < |appends|
    ensures |l.blocks| == |appends| && HasUpdates(l.blocks[i], appends[i])
  {
    var n := |appends| - 1;
    var l0 := ShorterLedger(appends, l);
    LedgerHeaders(appends[..n], l0);
    BlockHasUpdates(l0, appends[n]);
    if i < n {
      LedgerHasUpdates(appends[..n], l0, i);
    }
  }
}
