/**
 The evaluator of the OS constants. The raw JSON gives each constant a number or a linear
 combination of other constants; the evaluator computes them recursively and remembers what it has
 computed. The plain meaning of a constant is the recursive sum without any memory.
 */
module OsConstants {
  import opened Wrappers
  import opened Sums

  const U64_MAX: nat := 0xFFFF_FFFF_FFFF_FFFF

  /** A JSON value. A number carries its `u64` reading if it has one. */
  datatype Json =
    | Number(asU64: Option<nat>)
    | Object(entries: seq<(string, Json)>)
    | Text
    | Other

  type Raw = map<string, Json>

  datatype EvalError =
    | KeyNotFound(key: string, innerKey: string)
    | OutOfRange(key: string)
    | OutOfRangeFactor(key: string)
    | UnhandledValueType
    /** A string was depended on, or the sum left the range of `u64`. */
    | Panicked

  type EvalResult = Outcome<EvalError>

  function FactorOf(value: Json): Option<nat> {
    if value.Number? then value.asU64 else None
  }

  /** `sum + inner * factor` in `u64`; nothing when it overflows. */
  function MulAdd(sum: nat, inner: nat, factor: nat): Option<nat> {
    if sum + inner * factor <= U64_MAX then Some(sum + inner * factor) else None
  }

  /** `rank` orders the keys so that no definition depends on itself, directly or through others. */
  ghost predicate Ranked(raw: Raw, rank: map<string, nat>) {
    && raw.Keys <= rank.Keys
    && forall k, e :: k in raw && raw[k].Object? && e in raw[k].entries && e.0 in raw ==> rank[e.0] < rank[k]
  }

  // ----- The plain meaning -----

  /** The value of a constant, if every constant it is built from has one and the sums fit. */
  ghost function Meaning(raw: Raw, rank: map<string, nat>, key: string): Option<nat>
    requires Ranked(raw, rank)
    decreases if key in raw then rank[key] + 1 else 0, 1, 0
  {
    if key !in raw then None
    else match raw[key]
      case Number(n) => n
      case Object(entries) => SumMeaning(raw, rank, key, entries)
      case Text => None
      case Other => None
  }

  /** The sum of factor times inner value over the first entries of the definition of `key`. */
  ghost function SumMeaning(raw: Raw, rank: map<string, nat>, key: string, entries: seq<(string, Json)>): Option<nat>
    requires Ranked(raw, rank) && key in raw && raw[key].Object? && entries <= raw[key].entries
    decreases rank[key] + 1, 0, |entries|
  {
    if entries == [] then Some(0)
    else
      var n := |entries| - 1;
      assert entries[n] in raw[key].entries;
      var rest := SumMeaning(raw, rank, key, entries[..n]);
      var inner := Meaning(raw, rank, entries[n].0);
      var factor := FactorOf(entries[n].1);
      if rest.Some? && inner.Some? && factor.Some? then MulAdd(rest.value, inner.value, factor.value) else None
  }

  /** The keys that the definition of `key` mentions, directly or through others, with `key`. */
  ghost function Reach(raw: Raw, rank: map<string, nat>, key: string): set<string>
    requires Ranked(raw, rank)
    decreases if key in raw then rank[key] + 1 else 0, 1, 0
  {
    {key} + if key in raw && raw[key].Object? then ReachEntries(raw, rank, key, raw[key].entries) else {}
  }

  ghost function ReachEntries(raw: Raw, rank: map<string, nat>, key: string, entries: seq<(string, Json)>): set<string>
    requires Ranked(raw, rank) && key in raw && raw[key].Object? && entries <= raw[key].entries
    decreases rank[key] + 1, 0, |entries|
  {
    if entries == [] then {}
    else
      var n := |entries| - 1;
      assert entries[n] in raw[key].entries;
      ReachEntries(raw, rank, key, entries[..n]) + Reach(raw, rank, entries[n].0)
  }

  ghost function ReachAll(raw: Raw, rank: map<string, nat>, keys: set<string>): set<string>
    requires Ranked(raw, rank)
  {
    set k, r | k in keys && r in Reach(raw, rank, k) :: r
  }

  // ----- What the memory holds -----

  /** Every remembered value is the plain meaning, and what it is built from is remembered too. */
  ghost predicate Faithful(raw: Raw, rank: map<string, nat>, base: map<string, nat>)
    requires Ranked(raw, rank)
  {
    forall k :: k in base ==>
      && Meaning(raw, rank, k) == Some(base[k])
      && Reach(raw, rank, k) <= base.Keys
  }

  /** If a sum has a value then so has every sum over fewer entries. */
  lemma {:induction false} SumOfPrefix(raw: Raw, rank: map<string, nat>, key: string, entries: seq<(string, Json)>, i: nat)
    requires Ranked(raw, rank) && key in raw && raw[key].Object? && entries <= raw[key].entries && i <= |entries|
    requires SumMeaning(raw, rank, key, entries).Some?
    ensures entries[..i] <= raw[key].entries
    ensures SumMeaning(raw, rank, key, entries[..i]).Some?
  {
    if i < |entries| {
      SumOfPrefix(raw, rank, key, entries[..|entries| - 1], i);
      assert entries[..|entries| - 1][..i] == entries[..i];
    } else {
      assert entries[..i] == entries;
    }
  }

  /** One more entry of the definition of `key`. */
  lemma {:induction false} EntryStep(raw: Raw, rank: map<string, nat>, key: string, i: nat)
    requires Ranked(raw, rank) && key in raw && raw[key].Object? && i < |raw[key].entries|
    ensures var entries := raw[key].entries;
            var rest := SumMeaning(raw, rank, key, entries[..i]);
            var inner := Meaning(raw, rank, entries[i].0);
            var factor := FactorOf(entries[i].1);
            var next := SumMeaning(raw, rank, key, entries[..i + 1]);
            && entries[i] in raw[key].entries
            && next == (if rest.Some? && inner.Some? && factor.Some?
                        then MulAdd(rest.value, inner.value, factor.value) else None)
            && (next.None? ==> SumMeaning(raw, rank, key, entries).None?)
            && ReachEntries(raw, rank, key, entries[..i + 1]) ==
               ReachEntries(raw, rank, key, entries[..i]) + Reach(raw, rank, entries[i].0)
  {
    var entries := raw[key].entries;
    var upTo := entries[..i + 1];
    assert upTo[..i] == entries[..i];
    if SumMeaning(raw, rank, key, entries).Some? {
      SumOfPrefix(raw, rank, key, entries, i + 1);
    }
  }

  // ----- The evaluator -----

  method RecursiveAddToBase(raw: Raw, ghost rank: map<string, nat>, key: string, base: map<string, nat>)
    returns (r: EvalResult, base': map<string, nat>)
    requires Ranked(raw, rank) && key in raw && Faithful(raw, rank, base)
    ensures r.Pass? <==> Meaning(raw, rank, key).Some?
    ensures r.Pass? ==> Faithful(raw, rank, base')
    ensures r.Pass? ==> base'.Keys == base.Keys + Reach(raw, rank, key)
    ensures raw[key] == Number(None) ==> r == Fail(OutOfRange(key))
    ensures raw[key].Text? ==> r == Fail(Panicked)
    ensures raw[key].Other? ==> r == Fail(UnhandledValueType)
    decreases rank[key] + 1, 1
  {
    base' := base;
    if key in base {
      return Pass, base;
    }
    match raw[key] {
      case Number(n) =>
        if n.None? {
          return Fail(OutOfRange(key)), base;
        }
        base' := base[key := n.value];
        r := Pass;
      case Object(entries) =>
        var value: nat;
        r, value, base' := AddEntries(raw, rank, key, base);
        if r.Pass? {
          base' := base'[key := value];
        }
      case Text =>
        r := Fail(Panicked);
      case Other =>
        r := Fail(UnhandledValueType);
    }
  }

  /** Evaluates the entries of an object definition and adds them up. */
  method AddEntries(raw: Raw, ghost rank: map<string, nat>, key: string, base: map<string, nat>)
    returns (r: EvalResult, value: nat, base': map<string, nat>)
    requires Ranked(raw, rank) && key in raw && raw[key].Object? && Faithful(raw, rank, base)
    ensures r.Pass? <==> SumMeaning(raw, rank, key, raw[key].entries).Some?
    ensures r.Pass? ==> SumMeaning(raw, rank, key, raw[key].entries) == Some(value)
    ensures r.Pass? ==> Faithful(raw, rank, base')
    ensures r.Pass? ==> base'.Keys == base.Keys + ReachEntries(raw, rank, key, raw[key].entries)
    decreases rank[key] + 1, 0
  {
    var entries := raw[key].entries;
    base' := base;
    value := 0;
    for i := 0 to |entries|
      invariant SumMeaning(raw, rank, key, entries[..i]) == Some(value)
      invariant Faithful(raw, rank, base')
      invariant base'.Keys == base.Keys + ReachEntries(raw, rank, key, entries[..i])
    {
      EntryStep(raw, rank, key, i);
      r, value, base' := AddEntry(raw, rank, key, i, value, base');
      if r.Fail? {
        return;
      }
    }
    assert entries[..|entries|] == entries;
    r := Pass;
  }

  /** Adds the `i`-th entry to the sum of those before it. */
  method AddEntry(raw: Raw, ghost rank: map<string, nat>, key: string, i: nat, sum: nat, base: map<string, nat>)
    returns (r: EvalResult, sum': nat, base': map<string, nat>)
    requires Ranked(raw, rank) && key in raw && raw[key].Object? && i < |raw[key].entries|
    requires SumMeaning(raw, rank, key, raw[key].entries[..i]) == Some(sum) && Faithful(raw, rank, base)
    ensures r.Pass? <==> SumMeaning(raw, rank, key, raw[key].entries[..i + 1]).Some?
    ensures r.Pass? ==> SumMeaning(raw, rank, key, raw[key].entries[..i + 1]) == Some(sum')
    ensures r.Pass? ==> Faithful(raw, rank, base')
    ensures r.Pass? ==> base'.Keys == base.Keys + Reach(raw, rank, raw[key].entries[i].0)
    ensures var (inner, factor) := raw[key].entries[i];
            && (inner !in raw ==> r == Fail(KeyNotFound(key, inner)))
            && (Meaning(raw, rank, inner).Some? && FactorOf(factor).None? ==> r == Fail(OutOfRangeFactor(key)))
            && (Meaning(raw, rank, inner).Some? && FactorOf(factor).Some? && r.Fail? ==> r == Fail(Panicked))
    decreases rank[key], 2
  {
    var (innerKey, factor) := raw[key].entries[i];
    EntryStep(raw, rank, key, i);
    if innerKey !in raw {
      return Fail(KeyNotFound(key, innerKey)), sum, base;
    }
    r, base' := RecursiveAddToBase(raw, rank, innerKey, base);
    sum' := sum;
    if r.Fail? {
      return;
    }
    var innerValue := base'[innerKey];
    var f := FactorOf(factor);
    if f.None? {
      return Fail(OutOfRangeFactor(key)), sum, base';
    }
    var next := MulAdd(sum, innerValue, f.value);
    if next.None? {
      return Fail(Panicked), sum, base';
    }
    sum' := next.value;
  }

  /** The table that the constants mean: every needed key with its plain meaning. */
  ghost predicate IsTableOf(raw: Raw, rank: map<string, nat>, keys: set<string>, base: map<string, nat>)
    requires Ranked(raw, rank)
  {
    && base.Keys == ReachAll(raw, rank, keys)
    && forall k :: k in base ==> Meaning(raw, rank, k) == Some(base[k])
  }

  // ----- The table as a solution of the file's equations -----

  /** Every entry has a value in the table and a factor. */
  ghost predicate Defined(base: map<string, nat>, entries: seq<(string, Json)>) {
    forall e <- entries :: e.0 in base && e.1.Number? && e.1.asU64.Some?
  }

  /** Factor times table value, added up. */
  ghost function Combination(base: map<string, nat>, entries: seq<(string, Json)>): nat
    requires Defined(base, entries)
  {
    if entries == [] then 0
    else
      var n := |entries| - 1;
      assert entries[n] in entries;
      Combination(base, entries[..n]) + base[entries[n].0] * entries[n].1.asU64.value
  }

  /** What the file says of a constant holds of its value: it is the number, or the combination of its entries. */
  ghost predicate Satisfies(definition: Json, base: map<string, nat>, value: nat) {
    match definition
    case Number(n) => n == Some(value)
    case Object(entries) => Defined(base, entries) && value == Combination(base, entries) && value <= U64_MAX
    case Text => false
    case Other => false
  }

  ghost predicate Solves(raw: Raw, base: map<string, nat>) {
    forall k <- base :: k in raw && Satisfies(raw[k], base, base[k])
  }

  lemma {:induction false} SumSolves(raw: Raw, rank: map<string, nat>, key: string, entries: seq<(string, Json)>, base: map<string, nat>)
    requires Ranked(raw, rank) && key in raw && raw[key].Object? && entries <= raw[key].entries
    requires Faithful(raw, rank, base) && ReachEntries(raw, rank, key, entries) <= base.Keys
    requires SumMeaning(raw, rank, key, entries).Some?
    ensures Defined(base, entries) && SumMeaning(raw, rank, key, entries) == Some(Combination(base, entries))
    ensures Combination(base, entries) <= U64_MAX
  {
    if entries != [] {
      var n := |entries| - 1;
      assert entries[n] in raw[key].entries;
      SumSolves(raw, rank, key, entries[..n], base);
      assert entries[n].0 in Reach(raw, rank, entries[n].0);
      forall e <- entries ensures e.0 in base && e.1.Number? && e.1.asU64.Some? {
        assert e in entries[..n] || e == entries[n];
      }
    }
  }

  /** What the evaluator remembers solves the equations of the file. */
  lemma {:induction false} FaithfulSolves(raw: Raw, rank: map<string, nat>, base: map<string, nat>)
    requires Ranked(raw, rank) && Faithful(raw, rank, base)
    ensures Solves(raw, base)
  {
    forall k <- base ensures k in raw && Satisfies(raw[k], base, base[k]) {
      assert Meaning(raw, rank, k) == Some(base[k]) && Reach(raw, rank, k) <= base.Keys;
      if raw[k].Object? {
        SumSolves(raw, rank, k, raw[k].entries, base);
      }
    }
  }

  /** Any solution gives its constants their plain meaning; so there is at most one value for each. */
  lemma {:induction false} SolutionIsMeaning(raw: Raw, rank: map<string, nat>, base: map<string, nat>, key: string)
    requires Ranked(raw, rank) && Solves(raw, base) && key in base
    ensures Meaning(raw, rank, key) == Some(base[key])
    decreases if key in raw then rank[key] + 1 else 0, 1, 0
  {
    assert Satisfies(raw[key], base, base[key]);
    if raw[key].Object? {
      SolutionOfSum(raw, rank, base, key, raw[key].entries);
    }
  }

  lemma {:induction false} SolutionOfSum(raw: Raw, rank: map<string, nat>, base: map<string, nat>, key: string, entries: seq<(string, Json)>)
    requires Ranked(raw, rank) && Solves(raw, base) && key in raw && raw[key].Object? && entries <= raw[key].entries
    requires Defined(base, entries) && Combination(base, entries) <= U64_MAX
    ensures SumMeaning(raw, rank, key, entries) == Some(Combination(base, entries))
    decreases rank[key] + 1, 0, |entries|
  {
    if entries != [] {
      var n := |entries| - 1;
      assert entries[n] in entries && entries[n] in raw[key].entries;
      assert base[entries[n].0] * entries[n].1.asU64.value >= 0;
      SolutionOfSum(raw, rank, base, key, entries[..n]);
      SolutionIsMeaning(raw, rank, base, entries[n].0);
    }
  }

  /** A table with these constants that solves the equations of the file. */
  ghost predicate IsSolution(raw: Raw, keys: set<string>, base: map<string, nat>) {
    Solves(raw, base) && keys <= base.Keys
  }

  ghost predicate Solvable(raw: Raw, keys: set<string>) {
    exists t :: IsSolution(raw, keys, t)
  }

  function Wanted(order: seq<string>, ignored: set<string>): set<string> {
    set k | k in order && k !in ignored
  }

  /** `order` lists the keys of the raw file in some order; those in `ignored` are skipped. */
  method ParseBase(raw: Raw, ghost rank: map<string, nat>, order: seq<string>, ignored: set<string>)
    returns (r: EvalResult, base: map<string, nat>)
    requires Ranked(raw, rank) && forall k :: k in order ==> k in raw
    ensures r.Pass? <==> forall k :: k in order && k !in ignored ==> Meaning(raw, rank, k).Some?
    ensures r.Pass? ==> IsTableOf(raw, rank, Wanted(order, ignored), base)
    ensures r.Pass? <==> Solvable(raw, Wanted(order, ignored))
    ensures r.Pass? ==> IsSolution(raw, Wanted(order, ignored), base)
  {
    SolvableHasMeaning(raw, rank, Wanted(order, ignored));
    base := map[];
    for i := 0 to |order|
      invariant forall k :: k in order[..i] && k !in ignored ==> Meaning(raw, rank, k).Some?
      invariant Faithful(raw, rank, base)
      invariant base.Keys == ReachAll(raw, rank, Wanted(order[..i], ignored))
    {
      assert order[..i + 1] == order[..i] + [order[i]];
      ghost var done, next := Wanted(order[..i], ignored), Wanted(order[..i + 1], ignored);
      if order[i] in ignored {
        assert next == done;
        continue;
      }
      assert next == done + {order[i]} && order[i] in Wanted(order, ignored);
      assert ReachAll(raw, rank, next) == ReachAll(raw, rank, done) + Reach(raw, rank, order[i]);
      r, base := RecursiveAddToBase(raw, rank, order[i], base);
      if r.Fail? {
        return;
      }
    }
    assert order[..|order|] == order;
    FaithfulSolves(raw, rank, base);
    ReachesItself(raw, rank, Wanted(order, ignored));
    assert IsSolution(raw, Wanted(order, ignored), base);
    r := Pass;
  }

  lemma {:induction false} SolvableHasMeaning(raw: Raw, rank: map<string, nat>, keys: set<string>)
    requires Ranked(raw, rank)
    ensures Solvable(raw, keys) ==> forall k <- keys :: Meaning(raw, rank, k).Some?
  {
    if t :| IsSolution(raw, keys, t) {
      forall k <- keys ensures Meaning(raw, rank, k).Some? {
        SolutionIsMeaning(raw, rank, t, k);
      }
    }
  }

  lemma {:induction false} ReachesItself(raw: Raw, rank: map<string, nat>, keys: set<string>)
    requires Ranked(raw, rank)
    ensures keys <= ReachAll(raw, rank, keys)
  {
    forall k <- keys ensures k in ReachAll(raw, rank, keys) {
      assert k in Reach(raw, rank, k);
    }
  }

  /** One file has one table: the order in which the keys are visited plays no part. */
  lemma TableIsUnique(raw: Raw, rank: map<string, nat>, keys: set<string>, a: map<string, nat>, b: map<string, nat>)
    requires Ranked(raw, rank) && IsTableOf(raw, rank, keys, a) && IsTableOf(raw, rank, keys, b)
    ensures a == b
  {
    forall k | k in a ensures a[k] == b[k] {
      assert Some(a[k]) == Meaning(raw, rank, k) == Some(b[k]);
    }
  }

  /** The meaning does not depend on the ranking that shows the file to be acyclic. */
  lemma {:induction false} MeaningIgnoresRank(raw: Raw, rank: map<string, nat>, rank': map<string, nat>, key: string)
    requires Ranked(raw, rank) && Ranked(raw, rank')
    ensures Meaning(raw, rank, key) == Meaning(raw, rank', key)
    decreases if key in raw then rank[key] + 1 else 0, 1, 0
  {
    if key in raw && raw[key].Object? {
      SumIgnoresRank(raw, rank, rank', key, raw[key].entries);
    }
  }

  lemma {:induction false} SumIgnoresRank(raw: Raw, rank: map<string, nat>, rank': map<string, nat>, key: string, entries: seq<(string, Json)>)
    requires Ranked(raw, rank) && Ranked(raw, rank')
    requires key in raw && raw[key].Object? && entries <= raw[key].entries
    ensures SumMeaning(raw, rank, key, entries) == SumMeaning(raw, rank', key, entries)
    decreases rank[key] + 1, 0, |entries|
  {
    if entries != [] {
      var n := |entries| - 1;
      assert entries[n] in raw[key].entries;
      SumIgnoresRank(raw, rank, rank', key, entries[..n]);
      MeaningIgnoresRank(raw, rank, rank', entries[n].0);
    }
  }

  // ----- The order of the entries inside a definition plays no part -----

  /** The same file with the entries of each definition in some other order. */
  ghost predicate Reordered(raw: Raw, raw': Raw) {
    && raw.Keys == raw'.Keys
    && forall k <- raw ::
         raw[k] == raw'[k]
         || (raw[k].Object? && raw'[k].Object? && multiset(raw[k].entries) == multiset(raw'[k].entries))
  }

  /** Addition that keeps a missing term missing. */
  const ADD: (Option<nat>, Option<nat>) -> Option<nat> :=
    (a: Option<nat>, b: Option<nat>) => if a.Some? && b.Some? then Some(a.value + b.value) else None

  /** Factor times inner value of one entry, whatever its size. */
  ghost function Term(raw: Raw, rank: map<string, nat>, e: (string, Json)): Option<nat> {
    if Ranked(raw, rank) then Product(Meaning(raw, rank, e.0), FactorOf(e.1)) else None
  }

  function Product(inner: Option<nat>, factor: Option<nat>): Option<nat> {
    if inner.Some? && factor.Some? then Some(inner.value * factor.value) else None
  }

  ghost function Terms(raw: Raw, rank: map<string, nat>): ((string, Json)) -> Option<nat> {
    (e: (string, Json)) => Term(raw, rank, e)
  }

  function Capped(sum: Option<nat>): Option<nat> {
    if sum.Some? && sum.value <= U64_MAX then sum else None
  }

  lemma AddIsMonoid()
    ensures IsCommutativeMonoid(Some(0), ADD)
  {
  }

  /** Overflow at some entry is overflow of the whole sum: the meaning is one sum, capped at the end. */
  lemma {:induction false} SumIsCapped(raw: Raw, rank: map<string, nat>, key: string, entries: seq<(string, Json)>)
    requires Ranked(raw, rank) && key in raw && raw[key].Object? && entries <= raw[key].entries
    ensures SumMeaning(raw, rank, key, entries) == Capped(SeqSum(entries, Terms(raw, rank), Some(0), ADD))
  {
    if entries != [] {
      var n := |entries| - 1;
      assert entries[n] in raw[key].entries;
      SumIsCapped(raw, rank, key, entries[..n]);
      CappedStep(SeqSum(entries[..n], Terms(raw, rank), Some(0), ADD), Meaning(raw, rank, entries[n].0), FactorOf(entries[n].1));
    }
  }

  lemma CappedStep(sum: Option<nat>, inner: Option<nat>, factor: Option<nat>)
    ensures Capped(ADD(sum, Product(inner, factor)))
         == if Capped(sum).Some? && inner.Some? && factor.Some? then MulAdd(sum.value, inner.value, factor.value) else None
  {
    if inner.Some? && factor.Some? {
      assert inner.value * factor.value >= 0;
    }
  }

  lemma {:induction false} ReorderedIsRanked(raw: Raw, raw': Raw, rank: map<string, nat>)
    requires Ranked(raw, rank) && Reordered(raw, raw')
    ensures Ranked(raw', rank)
  {
    forall k, e | k in raw' && raw'[k].Object? && e in raw'[k].entries && e.0 in raw' ensures rank[e.0] < rank[k] {
      assert e in multiset(raw'[k].entries);
      assert e in raw[k].entries;
    }
  }

  lemma {:induction false} MeaningIgnoresEntryOrder(raw: Raw, raw': Raw, rank: map<string, nat>, key: string)
    requires Ranked(raw, rank) && Reordered(raw, raw')
    ensures Ranked(raw', rank)
    ensures Meaning(raw, rank, key) == Meaning(raw', rank, key)
    decreases if key in raw then rank[key] + 1 else 0
  {
    ReorderedIsRanked(raw, raw', rank);
    if key in raw && raw[key].Object? {
      var entries, entries' := raw[key].entries, raw'[key].entries;
      forall e <- entries' ensures Terms(raw, rank)(e) == Terms(raw', rank)(e) {
        assert e in multiset(entries') && e in entries;
        MeaningIgnoresEntryOrder(raw, raw', rank, e.0);
      }
      AddIsMonoid();
      SumIsCapped(raw, rank, key, entries);
      SumIsCapped(raw', rank, key, entries');
      SeqSumPermutation(entries, entries', Terms(raw, rank), Some(0), ADD);
      SeqSumSameTerms(entries', Terms(raw, rank), Terms(raw', rank), Some(0), ADD);
    }
  }

  lemma {:induction false} ReachThroughEntries(raw: Raw, rank: map<string, nat>, key: string, entries: seq<(string, Json)>, r: string)
    requires Ranked(raw, rank) && key in raw && raw[key].Object? && entries <= raw[key].entries
    ensures r in ReachEntries(raw, rank, key, entries) <==> exists e <- entries :: r in Reach(raw, rank, e.0)
  {
    if entries != [] {
      var n := |entries| - 1;
      assert entries[n] in raw[key].entries;
      ReachThroughEntries(raw, rank, key, entries[..n], r);
      assert entries == entries[..n] + [entries[n]];
    }
  }

  lemma {:induction false} ReachIgnoresEntryOrder(raw: Raw, raw': Raw, rank: map<string, nat>, key: string)
    requires Ranked(raw, rank) && Reordered(raw, raw')
    ensures Ranked(raw', rank)
    ensures Reach(raw, rank, key) == Reach(raw', rank, key)
    decreases if key in raw then rank[key] + 1 else 0
  {
    ReorderedIsRanked(raw, raw', rank);
    if key in raw && raw[key].Object? {
      var entries, entries' := raw[key].entries, raw'[key].entries;
      assert forall e :: e in entries <==> e in entries' by {
        forall e ensures e in entries <==> e in entries' {
          assert e in multiset(entries) <==> e in multiset(entries');
        }
      }
      forall e <- entries ensures Reach(raw, rank, e.0) == Reach(raw', rank, e.0) {
        ReachIgnoresEntryOrder(raw, raw', rank, e.0);
      }
      forall r ensures r in ReachEntries(raw, rank, key, entries) <==> r in ReachEntries(raw', rank, key, entries') {
        ReachThroughEntries(raw, rank, key, entries, r);
        ReachThroughEntries(raw', rank, key, entries', r);
      }
    }
  }

  lemma {:induction false} ReachAllIgnoresEntryOrder(raw: Raw, raw': Raw, rank: map<string, nat>, keys: set<string>)
    requires Ranked(raw, rank) && Ranked(raw', rank) && Reordered(raw, raw')
    ensures ReachAll(raw, rank, keys) == ReachAll(raw', rank, keys)
  {
    forall k <- keys ensures Reach(raw, rank, k) == Reach(raw', rank, k) {
      ReachIgnoresEntryOrder(raw, raw', rank, k);
    }
  }

  /** Files that differ only in the order of entries have the same table, in whatever order it is built. */
  lemma {:induction false} TableIgnoresEntryOrder(raw: Raw, raw': Raw, rank: map<string, nat>, keys: set<string>,
                                                  a: map<string, nat>, b: map<string, nat>)
    requires Ranked(raw, rank) && Ranked(raw', rank) && Reordered(raw, raw')
    requires IsTableOf(raw, rank, keys, a) && IsTableOf(raw', rank, keys, b)
    ensures a == b
  {
    ReachAllIgnoresEntryOrder(raw, raw', rank, keys);
    forall k | k in b ensures Meaning(raw, rank, k) == Some(b[k]) {
      MeaningIgnoresEntryOrder(raw, raw', rank, k);
    }
    TableIsUnique(raw, rank, keys, a, b);
  }
}
