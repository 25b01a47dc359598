/**
 The operations of a key-sorted database table that the storage code relies on. A table is a
 map; `insert` refuses an existing key, `append` refuses a key that is not above every stored
 key, `delete` of a missing key does nothing, and a cursor placed with `lower_bound` and then
 moved with `prev` stands on the greatest key strictly below the bound.
 */
module Db {
  import opened Wrappers

  /** `append` accepts `key`: it is above every key of the table. */
  predicate IsAppendable<V>(table: map<nat, V>, key: nat) {
    forall k <- table.Keys :: k < key
  }

  /** `cursor.lower_bound(bound)` followed by `cursor.prev()`. */
  function PrevBelow<V>(table: map<nat, V>, bound: nat): (entry: Option<(nat, V)>)
    ensures entry.None? ==> forall k :: k in table ==> bound <= k
    ensures entry.Some? ==>
              && entry.value.0 in table
              && entry.value.0 < bound
              && table[entry.value.0] == entry.value.1
              && forall k :: k in table && k < bound ==> k <= entry.value.0
  {
    if bound == 0 then None
    else if bound - 1 in table then Some((bound - 1, table[bound - 1]))
    else PrevBelow(table, bound - 1)
  }
}
