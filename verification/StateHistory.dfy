/**
 The tables of contract classes, nonces and storage values: what `append_state_diff` writes to them
 before anything else, what `revert_state_diff` takes back, and reads at any past state number.
 */
module StateHistory {
  import opened Wrappers
  import opened ChainTypes
  import opened VersionedTables

  function ClassChanges(diffs: seq<ContractDiff>): (r: seq<map<Address, ClassHash>>)
    ensures |r| == |diffs|
  {
    if diffs == [] then [] else ClassChanges(diffs[..|diffs| - 1]) + [diffs[|diffs| - 1].ClassChange()]
  }

  function NonceChanges(diffs: seq<ContractDiff>): (r: seq<map<Address, Nonce>>)
    ensures |r| == |diffs|
  {
    if diffs == [] then [] else NonceChanges(diffs[..|diffs| - 1]) + [diffs[|diffs| - 1].NonceChange()]
  }

  function StorageChanges(diffs: seq<ContractDiff>): (r: seq<map<StorageKey, Felt>>)
    ensures |r| == |diffs|
  {
    if diffs == [] then [] else StorageChanges(diffs[..|diffs| - 1]) + [diffs[|diffs| - 1].storage]
  }

  // ----- Writing and deleting the rows of one block -----

  /** The table with the rows of the keys in `done` written. */
  function Partly<K(==), V>(t: Versioned<K, V>, change: map<K, V>, done: set<K>, n: nat): Versioned<K, V> {
    t + map k | k in change && k in done :: (k, n) := change[k]
  }

  function RowsOf<K(==)>(keys: set<K>, n: nat): set<(K, nat)> {
    set k | k in keys :: (k, n)
  }

  lemma PartlyStep<K, V>(t: Versioned<K, V>, change: map<K, V>, done: set<K>, k: K, n: nat)
    requires k in change && k !in done
    ensures Partly(t, change, done, n)[(k, n) := change[k]] == Partly(t, change, done + {k}, n)
    ensures forall b :: (k, b) in Partly(t, change, done, n) <==> (k, b) in t
  {
  }

  lemma PartlyAll<K, V>(t: Versioned<K, V>, change: map<K, V>, n: nat)
    ensures Partly(t, change, change.Keys, n) == t + Stamp(change, n)
    ensures Partly(t, change, {}, n) == t
  {
  }

  /** None of the keys has a row of block `n`. */
  ghost predicate Insertable<K(!new), V>(t: Versioned<K, V>, keys: set<K>, n: nat) {
    forall k <- keys :: (k, n) !in t
  }

  /** None of the keys has a row of block `n` or a later one. */
  ghost predicate Appendable<K(!new), V>(t: Versioned<K, V>, keys: set<K>, n: nat) {
    forall row <- t :: row.0 in keys ==> row.1 < n
  }

  /** `insert` of each row: refuses a row that is there. */
  method InsertRows<K(==, !new), V>(t: Versioned<K, V>, change: map<K, V>, n: nat) returns (r: Option<Versioned<K, V>>)
    ensures r.Some? <==> Insertable(t, change.Keys, n)
    ensures r.Some? ==> r.value == t + Stamp(change, n)
  {
    PartlyAll(t, change, n);
    var rows, left := t, change.Keys;
    ghost var done: set<K> := {};
    while left != {}
      invariant left !! done && left + done == change.Keys
      invariant rows == Partly(t, change, done, n)
      invariant forall k <- done :: (k, n) !in t
      decreases left
    {
      var k :| k in left;
      PartlyStep(t, change, done, k, n);
      if (k, n) in rows {
        return None;
      }
      rows := rows[(k, n) := change[k]];
      left, done := left - {k}, done + {k};
    }
    r := Some(rows);
  }

  /** `append_greater_sub_key` of each row: refuses a key that has a row of this block or a later one. */
  method AppendRowsOf<K(==, !new), V>(t: Versioned<K, V>, change: map<K, V>, n: nat) returns (r: Option<Versioned<K, V>>)
    ensures r.Some? <==> Appendable(t, change.Keys, n)
    ensures r.Some? ==> r.value == t + Stamp(change, n)
  {
    PartlyAll(t, change, n);
    var rows, left := t, change.Keys;
    ghost var done: set<K> := {};
    while left != {}
      invariant left !! done && left + done == change.Keys
      invariant rows == Partly(t, change, done, n)
      invariant forall row <- t :: row.0 in done ==> row.1 < n
      decreases left
    {
      var k :| k in left;
      PartlyStep(t, change, done, k, n);
      var refused := HasRowFrom(rows, k, n);
      if refused {
        return None;
      }
      rows := rows[(k, n) := change[k]];
      left, done := left - {k}, done + {k};
    }
    r := Some(rows);
  }

  predicate HasRowFrom<K(==, !new), V>(t: Versioned<K, V>, k: K, n: nat) {
    exists row <- t.Keys :: row.0 == k && row.1 >= n
  }

  /** `upsert` of each row. */
  method UpsertRows<K(==), V>(t: Versioned<K, V>, change: map<K, V>, n: nat) returns (rows: Versioned<K, V>)
    ensures rows == t + Stamp(change, n)
  {
    PartlyAll(t, change, n);
    rows := t;
    var left := change.Keys;
    ghost var done: set<K> := {};
    while left != {}
      invariant left !! done && left + done == change.Keys
      invariant rows == Partly(t, change, done, n)
      decreases left
    {
      var k :| k in left;
      PartlyStep(t, change, done, k, n);
      rows := rows[(k, n) := change[k]];
      left, done := left - {k}, done + {k};
    }
  }

  /** `delete` of each row; a row that is not there is passed over. */
  method DeleteRows<K(==), V>(t: Versioned<K, V>, keys: set<K>, n: nat) returns (rows: Versioned<K, V>)
    ensures rows == t - RowsOf(keys, n)
  {
    rows := t;
    var left := keys;
    ghost var done: set<K> := {};
    while left != {}
      invariant left !! done && left + done == keys
      invariant rows == t - RowsOf(done, n)
      decreases left
    {
      var k :| k in left;
      left, done := left - {k}, done + {k};
      rows := rows - {(k, n)};
    }
  }

  // ----- The tables -----

  /** The tables of a list of diffs, one per block. */
  function TablesOf(diffs: seq<ContractDiff>): ContractTables {
    ContractTables(TableOf(ClassChanges(diffs)), TableOf(NonceChanges(diffs)), TableOf(StorageChanges(diffs)))
  }

  /** No row that the diff inserts is there, and no key that it appends has a row of this block or a later one. */
  ghost predicate Accepts(t: ContractTables, n: nat, diff: ContractDiff) {
    && diff.Exclusive()
    && Insertable(t.deployedContracts, diff.ClassChange().Keys, n)
    && Appendable(t.nonces, diff.DefaultNonces().Keys, n)
    && Appendable(t.storage, diff.storage.Keys, n)
  }

  function Written(t: ContractTables, n: nat, diff: ContractDiff): ContractTables {
    ContractTables(t.deployedContracts + Stamp(diff.ClassChange(), n),
                   t.nonces + Stamp(diff.NonceChange(), n),
                   t.storage + Stamp(diff.storage, n))
  }

  function Deleted(t: ContractTables, n: nat, diff: ContractDiff): ContractTables {
    ContractTables(t.deployedContracts - RowsOf(diff.deployed.Keys + diff.replaced.Keys, n),
                   t.nonces - RowsOf(diff.deployed.Keys + diff.nonces.Keys, n),
                   t.storage - RowsOf(diff.storage.Keys, n))
  }

  /** The writes of `append_state_diff` to these tables, in its order. */
  method WriteDiff(t: ContractTables, n: nat, diff: ContractDiff) returns (r: Option<ContractTables>)
    ensures r.Some? <==> Accepts(t, n, diff)
    ensures r.Some? ==> r.value == Written(t, n, diff)
  {
    var deployed := InsertRows(t.deployedContracts, diff.deployed, n);
    if deployed.None? {
      return None;
    }
    var defaults := AppendRowsOf(t.nonces, diff.DefaultNonces(), n);
    if defaults.None? {
      return None;
    }
    var values := AppendRowsOf(t.storage, diff.storage, n);
    if values.None? {
      return None;
    }
    var nonces := UpsertRows(defaults.value, diff.nonces, n);
    ReplacedIsFree(t.deployedContracts, diff, n);
    var replaced := InsertRows(deployed.value, diff.replaced, n);
    if replaced.None? {
      return None;
    }
    StampTwice(t.deployedContracts, diff.deployed, diff.replaced, n);
    StampTwice(t.nonces, diff.DefaultNonces(), diff.nonces, n);
    r := Some(ContractTables(replaced.value, nonces, values.value));
  }

  /** The deletions of `revert_state_diff` from these tables, in its order. */
  method DeleteDiff(t: ContractTables, n: nat, diff: ContractDiff) returns (t': ContractTables)
    ensures t' == Deleted(t, n, diff)
  {
    DeleteTwice(t.deployedContracts, diff.deployed.Keys, diff.replaced.Keys, n);
    DeleteTwice(t.nonces, diff.deployed.Keys, diff.nonces.Keys, n);
    var classes := DeleteRows(t.deployedContracts, diff.deployed.Keys, n);
    var nonces := DeleteRows(t.nonces, diff.deployed.Keys, n);
    var storage := DeleteRows(t.storage, diff.storage.Keys, n);
    nonces := DeleteRows(nonces, diff.nonces.Keys, n);
    classes := DeleteRows(classes, diff.replaced.Keys, n);
    t' := ContractTables(classes, nonces, storage);
  }

  // ----- Reads at a state number -----

  method GetClassHashAt(t: ContractTables, rank: Address -> nat, n: nat, address: Address, ghost diffs: seq<ContractDiff>)
    returns (r: Option<ClassHash>)
    requires t == TablesOf(diffs) && Injective(rank)
    ensures var classes := Replay(ClassChanges(diffs), n);
            r == if address in classes then Some(classes[address]) else None
  {
    var e := CursorPrev(rank, t.deployedContracts, (address, n));
    CursorFindsLastChange(rank, t.deployedContracts, n, address, e);
    ReadIsReplay(ClassChanges(diffs), n, address);
    r := if e.Some? && e.value.0 == address then Some(t.deployedContracts[e.value]) else None;
  }

  method GetNonceAt(t: ContractTables, rank: Address -> nat, n: nat, address: Address, ghost diffs: seq<ContractDiff>)
    returns (r: Option<Nonce>)
    requires t == TablesOf(diffs) && Injective(rank)
    ensures var current := Replay(NonceChanges(diffs), n);
            r == if address in current then Some(current[address]) else None
  {
    var e := CursorPrev(rank, t.nonces, (address, n));
    CursorFindsLastChange(rank, t.nonces, n, address, e);
    ReadIsReplay(NonceChanges(diffs), n, address);
    r := if e.Some? && e.value.0 == address then Some(t.nonces[e.value]) else None;
  }

  /** A key that was never written reads as 0. */
  method GetStorageAt(t: ContractTables, rank: StorageKey -> nat, n: nat, key: StorageKey, ghost diffs: seq<ContractDiff>)
    returns (value: Felt)
    requires t == TablesOf(diffs) && Injective(rank)
    ensures var values := Replay(StorageChanges(diffs), n);
            value == if key in values then values[key] else 0
  {
    var e := CursorPrev(rank, t.storage, (key, n));
    CursorFindsLastChange(rank, t.storage, n, key, e);
    ReadIsReplay(StorageChanges(diffs), n, key);
    value := if e.Some? && e.value.0 == key then t.storage[e.value] else 0;
  }

  /** Everything that can be read at a state number. */
  datatype ContractValues = ContractValues(
    classes: map<Address, ClassHash>,
    nonces: map<Address, Nonce>,
    storage: map<StorageKey, Felt>)

  function ValuesAt(diffs: seq<ContractDiff>, n: nat): ContractValues {
    ContractValues(Replay(ClassChanges(diffs), n), Replay(NonceChanges(diffs), n), Replay(StorageChanges(diffs), n))
  }

  /** What can be read at a state number depends on the blocks before it alone. */
  lemma {:induction false} ValuesOfPrefix(diffs: seq<ContractDiff>, n: nat)
    requires n <= |diffs|
    ensures ValuesAt(diffs, n) == ValuesAt(diffs[..n], n)
  {
    ChangesOfPrefix(diffs, n);
    ReplayOfPrefix(ClassChanges(diffs), n);
    ReplayOfPrefix(NonceChanges(diffs), n);
    ReplayOfPrefix(StorageChanges(diffs), n);
  }

  /** What a block leaves at a key: its own change, or what was there before it. */
  ghost predicate Updates<K(!new), V>(before: map<K, V>, after: map<K, V>, k: K, change: Option<V>) {
    match change
    case Some(v) => k in after && after[k] == v
    case None => (k in after <==> k in before) && (k in before ==> after[k] == before[k])
  }

  lemma {:induction false} ReplayStep<K(!new), V>(changes: seq<map<K, V>>, b: nat, k: K)
    requires b < |changes|
    ensures Updates(Replay(changes, b), Replay(changes, b + 1), k, if k in changes[b] then Some(changes[b][k]) else None)
  {
    ReplayOfPrefix(changes, b);
    ReplayOfPrefix(changes, b + 1);
    assert changes[..b + 1][..b] == changes[..b];
  }

  /**
   What block `b` does to a contract: a replaced or deployed class, the nonce it gives or 0 for a
   contract it deploys without one, and the storage values it sets. Nothing else changes.
   */
  lemma {:induction false} BlockUpdates(diffs: seq<ContractDiff>, b: nat, a: Address, key: StorageKey)
    requires b < |diffs|
    ensures var before, after, diff := ValuesAt(diffs, b), ValuesAt(diffs, b + 1), diffs[b];
            && Updates(before.classes, after.classes, a,
                       if a in diff.replaced then Some(diff.replaced[a])
                       else if a in diff.deployed then Some(diff.deployed[a]) else None)
            && Updates(before.nonces, after.nonces, a,
                       if a in diff.nonces then Some(diff.nonces[a]) else if a in diff.deployed then Some(0) else None)
            && Updates(before.storage, after.storage, key, if key in diff.storage then Some(diff.storage[key]) else None)
  {
    ChangesAt(diffs, b);
    ReplayStep(ClassChanges(diffs), b, a);
    ReplayStep(NonceChanges(diffs), b, a);
    ReplayStep(StorageChanges(diffs), b, key);
  }

  lemma {:induction false} ChangesAt(diffs: seq<ContractDiff>, b: nat)
    requires b < |diffs|
    ensures ClassChanges(diffs)[b] == diffs[b].ClassChange()
    ensures NonceChanges(diffs)[b] == diffs[b].NonceChange()
    ensures StorageChanges(diffs)[b] == diffs[b].storage
  {
    if b < |diffs| - 1 {
      ChangesAt(diffs[..|diffs| - 1], b);
    }
  }

  lemma {:induction false} ReplayOfPrefix<K, V>(changes: seq<map<K, V>>, n: nat)
    requires n <= |changes|
    ensures Replay(changes, n) == Replay(changes[..n], n)
  {
    assert changes[..n] + changes[n..] == changes;
    LaterBlocksDoNotMatter(changes[..n], changes[n..], n);
  }

  lemma {:induction false} ChangesOfPrefix(diffs: seq<ContractDiff>, n: nat)
    requires n <= |diffs|
    ensures ClassChanges(diffs[..n]) == ClassChanges(diffs)[..n]
    ensures NonceChanges(diffs[..n]) == NonceChanges(diffs)[..n]
    ensures StorageChanges(diffs[..n]) == StorageChanges(diffs)[..n]
  {
    if n == |diffs| {
      assert diffs[..n] == diffs;
    } else {
      var init := diffs[..|diffs| - 1];
      ChangesOfPrefix(init, n);
      assert init[..n] == diffs[..n];
    }
  }

  // ----- What the writes and deletes come to -----

  /** No block from `n` on, up to but without `end`, changes one of the keys. */
  ghost predicate Untouched<K(!new), V>(changes: seq<map<K, V>>, n: nat, end: nat, keys: set<K>) {
    forall b: nat :: n <= b < end && b < |changes| ==> keys !! changes[b].Keys
  }

  /**
   In the words of the list: block `n` changed none of the contracts that the diff deploys or
   replaces, and no block from `n` on touched a nonce or a storage value that the diff appends.
   */
  ghost predicate AcceptedAfter(diffs: seq<ContractDiff>, n: nat, diff: ContractDiff) {
    && diff.Exclusive()
    && Untouched(ClassChanges(diffs), n, n + 1, diff.ClassChange().Keys)
    && Untouched(NonceChanges(diffs), n, |diffs|, diff.DefaultNonces().Keys)
    && Untouched(StorageChanges(diffs), n, |diffs|, diff.storage.Keys)
  }

  lemma {:induction false} InsertableIff<K(!new), V>(changes: seq<map<K, V>>, n: nat, keys: set<K>)
    ensures Insertable(TableOf(changes), keys, n) <==> Untouched(changes, n, n + 1, keys)
  {
    forall k ensures (k, n) in TableOf(changes) <==> n < |changes| && k in changes[n] {
      RowAt(changes, k, n);
    }
  }

  lemma {:induction false} AppendableIff<K(!new), V>(changes: seq<map<K, V>>, n: nat, keys: set<K>)
    ensures Appendable(TableOf(changes), keys, n) <==> Untouched(changes, n, |changes|, keys)
  {
    forall k, b: nat ensures (k, b) in TableOf(changes) <==> b < |changes| && k in changes[b] {
      RowAt(changes, k, b);
    }
  }

  /** Which diffs the tables of a list accept, for any block number. */
  lemma {:induction false} AcceptedIff(diffs: seq<ContractDiff>, n: nat, diff: ContractDiff)
    ensures Accepts(TablesOf(diffs), n, diff) <==> AcceptedAfter(diffs, n, diff)
  {
    InsertableIff(ClassChanges(diffs), n, diff.ClassChange().Keys);
    AppendableIff(NonceChanges(diffs), n, diff.DefaultNonces().Keys);
    AppendableIff(StorageChanges(diffs), n, diff.storage.Keys);
  }

  /** The rows of the replaced contracts are free once the deployed ones are written. */
  lemma {:induction false} ReplacedIsFree(t: Versioned<Address, ClassHash>, diff: ContractDiff, n: nat)
    requires Insertable(t, diff.deployed.Keys, n)
    ensures Insertable(t + Stamp(diff.deployed, n), diff.replaced.Keys, n)
       <==> diff.Exclusive() && Insertable(t, diff.ClassChange().Keys, n)
  {
    forall a <- diff.replaced.Keys ensures (a, n) in t + Stamp(diff.deployed, n) <==> (a, n) in t || a in diff.deployed {
      if a in diff.deployed {
        assert (a, n) in Stamp(diff.deployed, n);
      }
    }
  }

  lemma {:induction false} ChangesSnoc(diffs: seq<ContractDiff>, diff: ContractDiff)
    ensures TableOf(ClassChanges(diffs + [diff])) == TableOf(ClassChanges(diffs)) + Stamp(diff.ClassChange(), |diffs|)
    ensures TableOf(NonceChanges(diffs + [diff])) == TableOf(NonceChanges(diffs)) + Stamp(diff.NonceChange(), |diffs|)
    ensures TableOf(StorageChanges(diffs + [diff])) == TableOf(StorageChanges(diffs)) + Stamp(diff.storage, |diffs|)
  {
    assert (diffs + [diff])[..|diffs|] == diffs;
    AppendRows(ClassChanges(diffs), diff.ClassChange());
    AppendRows(NonceChanges(diffs), diff.NonceChange());
    AppendRows(StorageChanges(diffs), diff.storage);
  }

  lemma StampTwice<K, V>(t: Versioned<K, V>, a: map<K, V>, b: map<K, V>, n: nat)
    ensures t + Stamp(a, n) + Stamp(b, n) == t + Stamp(a + b, n)
  {
  }

  lemma StampKeys<K, V>(change: map<K, V>, n: nat)
    ensures Stamp(change, n).Keys == RowsOf(change.Keys, n)
  {
  }

  lemma DeleteTwice<K, V>(t: Versioned<K, V>, a: set<K>, b: set<K>, n: nat)
    ensures t - RowsOf(a, n) - RowsOf(b, n) == t - RowsOf(a + b, n)
  {
    assert RowsOf(a + b, n) == RowsOf(a, n) + RowsOf(b, n);
  }

  /** Writing the diff of the next block gives the tables of the longer list. */
  lemma {:induction false} WrittenIsLonger(diffs: seq<ContractDiff>, diff: ContractDiff)
    ensures Written(TablesOf(diffs), |diffs|, diff) == TablesOf(diffs + [diff])
  {
    ChangesSnoc(diffs, diff);
  }

  lemma {:induction false} RowsDeleted<K(!new), V>(changes: seq<map<K, V>>, n: nat, keys: set<K>)
    requires |changes| == n + 1 && changes[n].Keys == keys
    ensures TableOf(changes) - RowsOf(keys, n) == TableOf(changes[..n])
  {
    RevertRows(changes);
    StampKeys(changes[n], n);
  }

  /** Deleting the diff of the last block gives the tables of the shorter list. */
  lemma {:induction false} DeletedIsShorter(diffs: seq<ContractDiff>)
    requires diffs != []
    ensures var n := |diffs| - 1;
            Deleted(TablesOf(diffs), n, diffs[n]) == TablesOf(diffs[..n])
  {
    var n, diff := |diffs| - 1, diffs[|diffs| - 1];
    ChangesOfPrefix(diffs, n);
    ChangedKeys(diff);
    RowsDeleted(ClassChanges(diffs), n, diff.deployed.Keys + diff.replaced.Keys);
    RowsDeleted(NonceChanges(diffs), n, diff.deployed.Keys + diff.nonces.Keys);
    RowsDeleted(StorageChanges(diffs), n, diff.storage.Keys);
  }

  lemma ChangedKeys(diff: ContractDiff)
    ensures diff.ClassChange().Keys == diff.deployed.Keys + diff.replaced.Keys
    ensures diff.NonceChange().Keys == diff.deployed.Keys + diff.nonces.Keys
  {
  }
}
