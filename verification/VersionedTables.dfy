/**
 Tables that keep every value a key ever had, one row per key and block. A read at a state number
 places a cursor and steps back once; what it means is a replay of the blocks before that number.
 */
module VersionedTables {
  import opened Wrappers

  type Versioned<K(==), V> = map<(K, nat), V>

  /** The rows that one block adds. */
  function Stamp<K(==), V>(change: map<K, V>, n: nat): Versioned<K, V> {
    map k | k in change :: (k, n) := change[k]
  }

  /** The table of a list of changes, one per block. */
  function TableOf<K(==), V>(changes: seq<map<K, V>>): Versioned<K, V> {
    if changes == [] then map[]
    else TableOf(changes[..|changes| - 1]) + Stamp(changes[|changes| - 1], |changes| - 1)
  }

  /** The values after the first `n` blocks: later changes overwrite earlier ones. */
  function Replay<K(==), V>(changes: seq<map<K, V>>, n: nat): map<K, V> {
    if n == 0 || changes == [] then map[]
    else if n < |changes| then Replay(changes[..|changes| - 1], n)
    else Replay(changes[..|changes| - 1], |changes| - 1) + changes[|changes| - 1]
  }

  // ----- The rows of a table -----

  lemma {:induction false} RowAt<K, V>(changes: seq<map<K, V>>, k: K, b: nat)
    ensures (k, b) in TableOf(changes) <==> b < |changes| && k in changes[b]
    ensures (k, b) in TableOf(changes) ==> TableOf(changes)[(k, b)] == changes[b][k]
  {
    if changes != [] {
      RowAt(changes[..|changes| - 1], k, b);
    }
  }

  /** A table of `n` blocks has no row of block `n` or above. */
  lemma {:induction false} NoLaterRows<K(!new), V>(changes: seq<map<K, V>>)
    ensures forall k: K, b: nat :: (k, b) in TableOf(changes) ==> b < |changes|
  {
    forall k: K, b: nat | (k, b) in TableOf(changes) ensures b < |changes| {
      RowAt(changes, k, b);
    }
  }

  lemma {:induction false} AppendRows<K, V>(changes: seq<map<K, V>>, change: map<K, V>)
    ensures TableOf(changes + [change]) == TableOf(changes) + Stamp(change, |changes|)
  {
    assert (changes + [change])[..|changes|] == changes;
  }

  lemma {:induction false} RevertRows<K(!new), V>(changes: seq<map<K, V>>)
    requires changes != []
    ensures var n := |changes| - 1;
            TableOf(changes[..n]) == TableOf(changes) - Stamp(changes[n], n).Keys
  {
    NoLaterRows(changes[..|changes| - 1]);
  }

  // ----- Reading at a state number -----

  /** The value that the last block below `n` that changed `k` gave it. */
  function ReadAt<K(==), V>(t: Versioned<K, V>, n: nat, k: K): Option<V> {
    if n == 0 then None
    else if (k, n - 1) in t then Some(t[(k, n - 1)])
    else ReadAt(t, n - 1, k)
  }

  lemma {:induction false} ReadBelow<K, V>(t: Versioned<K, V>, n: nat, k: K, b: nat)
    requires b < n && (k, b) in t && forall c :: b < c < n ==> (k, c) !in t
    ensures ReadAt(t, n, k) == Some(t[(k, b)])
  {
    if b < n - 1 {
      ReadBelow(t, n - 1, k, b);
    }
  }

  lemma {:induction false} ReadNothing<K, V>(t: Versioned<K, V>, n: nat, k: K)
    requires forall c :: 0 <= c < n ==> (k, c) !in t
    ensures ReadAt(t, n, k) == None
  {
    if n > 0 {
      ReadNothing(t, n - 1, k);
    }
  }

  /** Reading at a state number is replaying the blocks before it. */
  lemma {:induction false} ReadIsReplay<K, V>(changes: seq<map<K, V>>, n: nat, k: K)
    ensures ReadAt(TableOf(changes), n, k)
         == if k in Replay(changes, n) then Some(Replay(changes, n)[k]) else None
    decreases |changes|, n
  {
    if n > 0 {
      RowAt(changes, k, n - 1);
      if n > |changes| {
        ReadIsReplay(changes, n - 1, k);
      } else if n < |changes| {
        ShorterTableReads(changes, n, k);
        ReadIsReplay(changes[..|changes| - 1], n, k);
      } else {
        ShorterTableReads(changes, n - 1, k);
        ReadIsReplay(changes[..n - 1], n - 1, k);
      }
    }
  }

  /** The last block does not matter to reads at or below its number. */
  lemma {:induction false} ShorterTableReads<K, V>(changes: seq<map<K, V>>, n: nat, k: K)
    requires changes != [] && n <= |changes| - 1
    ensures ReadAt(TableOf(changes), n, k) == ReadAt(TableOf(changes[..|changes| - 1]), n, k)
  {
    if n > 0 {
      RowAt(changes, k, n - 1);
      RowAt(changes[..|changes| - 1], k, n - 1);
      ShorterTableReads(changes, n - 1, k);
    }
  }

  /** What a state number means does not depend on the blocks after it. */
  lemma {:induction false} LaterBlocksDoNotMatter<K, V>(changes: seq<map<K, V>>, more: seq<map<K, V>>, n: nat)
    requires n <= |changes|
    ensures Replay(changes + more, n) == Replay(changes, n)
    decreases |more|
  {
    if more == [] {
      assert changes + more == changes;
    } else {
      var init := more[..|more| - 1];
      assert (changes + more)[..|changes + more| - 1] == changes + init;
      LaterBlocksDoNotMatter(changes, init, n);
    }
  }

  /** A key has a value at a state number exactly when some block before it gave it one. */
  lemma {:induction false} ReplayKeys<K(!new), V>(changes: seq<map<K, V>>, n: nat, k: K)
    ensures k in Replay(changes, n) <==> exists b: nat :: b < n && b < |changes| && k in changes[b]
  {
    if changes != [] {
      var init := changes[..|changes| - 1];
      ReplayKeys(init, if n < |changes| then n else |changes| - 1, k);
      assert forall b: nat :: b < |init| ==> init[b] == changes[b];
    }
  }

  // ----- The cursor -----

  /** The order of the rows: by key, then by block. `rank` is the order of the keys. */
  predicate Below<K>(rank: K -> nat, x: (K, nat), y: (K, nat)) {
    rank(x.0) < rank(y.0) || (rank(x.0) == rank(y.0) && x.1 < y.1)
  }

  ghost predicate Injective<K(!new)>(rank: K -> nat) {
    forall a, b :: rank(a) == rank(b) ==> a == b
  }

  /** `e` is the greatest row strictly below the bound, if there is one. */
  ghost predicate IsPrev<K(!new), V>(rank: K -> nat, t: Versioned<K, V>, bound: (K, nat), e: Option<(K, nat)>) {
    match e
    case None => forall y <- t :: !Below(rank, y, bound)
    case Some(x) => x in t && Below(rank, x, bound) && forall y <- t :: Below(rank, y, bound) ==> y == x || Below(rank, y, x)
  }

  /** Placing a cursor at the lower bound and stepping back. */
  method CursorPrev<K(==, !new), V>(rank: K -> nat, t: Versioned<K, V>, bound: (K, nat)) returns (e: Option<(K, nat)>)
    requires Injective(rank)
    ensures IsPrev(rank, t, bound, e)
  {
    e := None;
    var left := t.Keys;
    while left != {}
      invariant left <= t.Keys
      invariant e.Some? ==> e.value in t && Below(rank, e.value, bound)
      invariant forall y <- t :: y !in left && Below(rank, y, bound) ==> e.Some? && (y == e.value || Below(rank, y, e.value))
      decreases left
    {
      var x :| x in left;
      left := left - {x};
      if Below(rank, x, bound) && (e.None? || Below(rank, e.value, x)) {
        e := Some(x);
      }
    }
  }

  /** The row before the bound is the last change of the key, or belongs to another key. */
  lemma {:induction false} CursorFindsLastChange<K(!new), V>(rank: K -> nat, t: Versioned<K, V>, n: nat, k: K, e: Option<(K, nat)>)
    requires Injective(rank) && IsPrev(rank, t, (k, n), e)
    ensures ReadAt(t, n, k) == if e.Some? && e.value.0 == k then Some(t[e.value]) else None
  {
    if e.Some? && e.value.0 == k {
      forall c | e.value.1 < c < n ensures (k, c) !in t {
        assert Below(rank, (k, c), (k, n)) && !Below(rank, (k, c), e.value);
      }
      ReadBelow(t, n, k, e.value.1);
    } else {
      forall c | 0 <= c < n ensures (k, c) !in t {
        var row := (k, c);
        assert Below(rank, row, (k, n));
      }
      ReadNothing(t, n, k);
    }
  }
}
