/**
 What the state, class and compiled-class tables mean: a list of stored blocks, each with its thin
 state diff and the classes written with it, and a prefix of the flattened list of declared classes
 whose CASM is stored.
 */
module StateSpec {
  import opened Db
  import opened ChainTypes
  import C = StateHistory

  // ----- Lists of class hashes -----

  function Elems<T>(s: seq<T>): set<T> {
    set x | x in s
  }

  ghost predicate NoDuplicates<T>(s: seq<T>) {
    forall i, j :: 0 <= i < j < |s| ==> s[i] != s[j]
  }

  /** Inserting the hashes one by one succeeds: none is in the table and none comes twice. */
  ghost predicate AllFresh<V>(list: seq<ClassHash>, table: map<ClassHash, V>) {
    NoDuplicates(list) && forall c :: c in list ==> c !in table
  }

  function Hashes<V>(list: seq<(ClassHash, V)>): seq<ClassHash> {
    seq(|list|, i requires 0 <= i < |list| => list[i].0)
  }

  /** The list as a map; of two entries with one hash the first counts. */
  function FirstWins<V>(list: seq<(ClassHash, V)>): map<ClassHash, V> {
    if list == [] then map[]
    else map[list[|list| - 1].0 := list[|list| - 1].1] + FirstWins(list[..|list| - 1])
  }

  /** How many leading classes of the list have a row in the table. */
  function PresentPrefix<V>(list: seq<ClassHash>, table: map<ClassHash, V>): (p: nat)
    ensures p <= |list|
    ensures forall i :: 0 <= i < p ==> list[i] in table
    ensures p < |list| ==> list[p] !in table
  {
    if list == [] || list[0] !in table then 0 else 1 + PresentPrefix(list[1..], table)
  }

  // ----- Inserting and deleting rows one by one -----

  lemma FreshStep<V>(list: seq<ClassHash>, i: nat, table: map<ClassHash, V>)
    requires i < |list| && AllFresh(list[..i], table) && list[i] !in list[..i] && list[i] !in table
    ensures AllFresh(list[..i + 1], table)
  {
    assert list[..i + 1] == list[..i] + [list[i]];
  }

  lemma NotFresh<V>(list: seq<ClassHash>, i: nat, table: map<ClassHash, V>)
    requires i < |list| && (list[i] in list[..i] || list[i] in table)
    ensures !AllFresh(list, table)
  {
    if list[i] !in table {
      var j :| 0 <= j < i && list[..i][j] == list[i];
      assert list[j] == list[i];
    }
  }

  lemma AtStep(list: seq<ClassHash>, i: nat, n: nat, table: map<ClassHash, nat>)
    requires i < |list|
    ensures (table + At(list[..i], n))[list[i] := n] == table + At(list[..i + 1], n)
  {
    assert list[..i + 1] == list[..i] + [list[i]];
  }

  lemma {:induction false} ClassStep<V>(list: seq<(ClassHash, V)>, i: nat, table: map<ClassHash, V>)
    requires i < |list| && list[i].0 !in table + FirstWins(list[..i])
    ensures (table + FirstWins(list[..i]))[list[i].0 := list[i].1] == table + FirstWins(list[..i + 1])
  {
    assert list[..i + 1][..i] == list[..i];
  }

  lemma {:induction false} DeprecatedStep(list: seq<(ClassHash, DeprecatedClass)>, i: nat, n: nat,
                                          table: map<ClassHash, IndexedDeprecatedClass>)
    requires i < |list|
    ensures var rows := Indexed(FirstWins(list[..i]), n) + table;
            var rows' := Indexed(FirstWins(list[..i + 1]), n) + table;
            rows' == if list[i].0 in rows then rows else rows[list[i].0 := IndexedDeprecatedClass(n, list[i].1)]
  {
    assert list[..i + 1][..i] == list[..i];
  }

  lemma ElemsStep<T>(list: seq<T>, i: nat)
    requires i < |list|
    ensures Elems(list[..i + 1]) == Elems(list[..i]) + {list[i]}
  {
    assert list[..i + 1] == list[..i] + [list[i]];
  }

  // ----- The stored blocks -----

  /** One block of state: its thin diff, and the classes that were written with it. */
  datatype StateBlock = StateBlock(
    diff: ThinStateDiff,
    classes: seq<(ClassHash, SierraClass)>,
    deprecatedClasses: seq<(ClassHash, DeprecatedClass)>)
  {
    /**
     The classes written fit the diff, as `append_classes` assumes: one Sierra class per declared
     hash, and every Cairo 0 class declared by the diff or deployed by it.
     */
    ghost predicate Fits() {
      && Hashes(classes) == diff.declaredClasses
      && (forall h :: h in FirstWins(deprecatedClasses) ==>
            h in diff.deprecatedDeclaredClasses || h in diff.contracts.deployed.Values)
    }
  }

  type Blocks = seq<StateBlock>

  function Init(blocks: Blocks): Blocks
    requires blocks != []
  {
    blocks[..|blocks| - 1]
  }

  function Last(blocks: Blocks): StateBlock
    requires blocks != []
  {
    blocks[|blocks| - 1]
  }

  function DiffsOf(blocks: Blocks): map<nat, ThinStateDiff> {
    if blocks == [] then map[] else DiffsOf(Init(blocks))[|blocks| - 1 := Last(blocks).diff]
  }

  function ContractDiffs(blocks: Blocks): seq<ContractDiff> {
    seq(|blocks|, i requires 0 <= i < |blocks| => blocks[i].diff.contracts)
  }

  /** Every declared class, in stored order: by block, then as the diff lists them. */
  function Declared(blocks: Blocks): seq<ClassHash> {
    if blocks == [] then [] else Declared(Init(blocks)) + Last(blocks).diff.declaredClasses
  }

  function DeclaredBlocksOf(blocks: Blocks): map<ClassHash, nat> {
    if blocks == [] then map[]
    else DeclaredBlocksOf(Init(blocks)) + At(Last(blocks).diff.declaredClasses, |blocks| - 1)
  }

  function At(list: seq<ClassHash>, n: nat): map<ClassHash, nat> {
    map c | c in list :: n
  }

  function ClassesOf(blocks: Blocks): map<ClassHash, SierraClass> {
    if blocks == [] then map[] else ClassesOf(Init(blocks)) + FirstWins(Last(blocks).classes)
  }

  function Indexed(classes: map<ClassHash, DeprecatedClass>, n: nat): map<ClassHash, IndexedDeprecatedClass> {
    map h | h in classes :: IndexedDeprecatedClass(n, classes[h])
  }

  /** A Cairo 0 class keeps the row of the first block that brought it. */
  function DeprecatedOf(blocks: Blocks): map<ClassHash, IndexedDeprecatedClass> {
    if blocks == [] then map[]
    else Indexed(FirstWins(Last(blocks).deprecatedClasses), |blocks| - 1) + DeprecatedOf(Init(blocks))
  }

  function CasmsOf(keys: seq<ClassHash>, casms: seq<Casm>): map<ClassHash, Casm>
    requires |keys| == |casms|
  {
    if keys == [] then map[]
    else CasmsOf(keys[..|keys| - 1], casms[..|keys| - 1])[keys[|keys| - 1] := casms[|keys| - 1]]
  }

  /** How many classes the blocks below `b` declare. */
  function Start(blocks: Blocks, b: nat): nat
    requires b <= |blocks|
  {
    |Declared(blocks[..b])|
  }

  /**
   The compiled-class marker of a store that holds the first `k` CASMs: the first block with no
   state diff or with a declared class whose CASM is missing.
   */
  ghost predicate IsCasmMarker(blocks: Blocks, k: nat, marker: nat) {
    && marker <= |blocks|
    && Start(blocks, marker) <= k
    && (marker < |blocks| ==> k < Start(blocks, marker + 1))
  }

  /** The state-diff and class tables say exactly what the blocks say. */
  ghost predicate EncodesTables(t: StateTables, blocks: Blocks) {
    && t.stateDiffs == DiffsOf(blocks)
    && t.declaredClassesBlock == DeclaredBlocksOf(blocks)
    && t.declaredClasses == ClassesOf(blocks)
    && t.deprecatedClasses == DeprecatedOf(blocks)
  }

  ghost predicate AreDiffsOf(diffs: seq<ContractDiff>, blocks: Blocks) {
    diffs == ContractDiffs(blocks)
  }

  /**
   The contract tables say exactly what the blocks say. The list of diffs is bound, so that a proof
   looks into the tables only where it names the list.
   */
  ghost predicate EncodesContracts(t: ContractTables, blocks: Blocks) {
    forall diffs :: AreDiffsOf(diffs, blocks) ==> t == C.TablesOf(diffs)
  }

  lemma {:induction false} ContractsAre(t: ContractTables, blocks: Blocks)
    requires EncodesContracts(t, blocks)
    ensures t == C.TablesOf(ContractDiffs(blocks))
  {
    assert AreDiffsOf(ContractDiffs(blocks), blocks);
  }

  /** The state tables and their markers say exactly what the lists say. */
  ghost predicate EncodesState(t: StateTables, m: Markers, blocks: Blocks, casms: seq<Casm>) {
    && m.state == |blocks|
    && m.class_ == |blocks|
    && EncodesTables(t, blocks)
    && |casms| <= |Declared(blocks)|
    && t.casms == CasmsOf(Declared(blocks)[..|casms|], casms)
    && IsCasmMarker(blocks, |casms|, m.compiledClass)
    && NoDuplicates(Declared(blocks))
  }

  // ----- What the tables hold, row by row -----

  lemma {:induction false} FirstWinsKeys<V>(list: seq<(ClassHash, V)>, h: ClassHash)
    ensures h in FirstWins(list) <==> h in Hashes(list)
  {
    if list != [] {
      var init := list[..|list| - 1];
      FirstWinsKeys(init, h);
      assert Hashes(list) == Hashes(init) + [list[|list| - 1].0];
    }
  }

  lemma {:induction false} DiffAt(blocks: Blocks, n: nat)
    ensures n in DiffsOf(blocks) <==> n < |blocks|
    ensures n < |blocks| ==> DiffsOf(blocks)[n] == blocks[n].diff
  {
    if blocks != [] {
      DiffAt(Init(blocks), n);
    }
  }

  lemma {:induction false} DiffsUpTo(blocks: Blocks, n: nat)
    ensures forall b :: b in DiffsOf(blocks) <==> 0 <= b < |blocks|
    ensures IsAppendable(DiffsOf(blocks), n) <==> n >= |blocks|
  {
    forall b ensures b in DiffsOf(blocks) <==> 0 <= b < |blocks| {
      if b >= 0 {
        DiffAt(blocks, b);
      }
    }
    assert n < |blocks| ==> n in DiffsOf(blocks);
  }

  lemma {:induction false} DeclaredBlockAt(blocks: Blocks, c: ClassHash)
    ensures c in DeclaredBlocksOf(blocks) <==> c in Declared(blocks)
    ensures c in DeclaredBlocksOf(blocks) ==>
              && DeclaredBlocksOf(blocks)[c] < |blocks|
              && c in blocks[DeclaredBlocksOf(blocks)[c]].diff.declaredClasses
  {
    if blocks != [] {
      DeclaredBlockAt(Init(blocks), c);
    }
  }

  lemma {:induction false} ClassAt(blocks: Blocks, c: ClassHash)
    requires forall b :: b in blocks ==> b.Fits()
    ensures c in ClassesOf(blocks) <==> c in Declared(blocks)
  {
    if blocks != [] {
      ClassAt(Init(blocks), c);
      FirstWinsKeys(Last(blocks).classes, c);
      assert Last(blocks).Fits();
    }
  }

  lemma {:induction false} DeprecatedAt(blocks: Blocks, h: ClassHash)
    ensures h in DeprecatedOf(blocks) ==> DeprecatedOf(blocks)[h].blockNumber < |blocks|
  {
    if blocks != [] {
      DeprecatedAt(Init(blocks), h);
    }
  }

  lemma {:induction false} CasmAt(keys: seq<ClassHash>, casms: seq<Casm>, c: ClassHash)
    requires |keys| == |casms|
    ensures c in CasmsOf(keys, casms) <==> c in keys
  {
    if keys != [] {
      var n := |keys| - 1;
      CasmAt(keys[..n], casms[..n], c);
      assert keys == keys[..n] + [keys[n]];
    }
  }

  /** In a list without repeated hashes every entry counts. */
  lemma {:induction false} FirstWinsAt<V>(list: seq<(ClassHash, V)>, i: nat)
    requires i < |list| && NoDuplicates(Hashes(list))
    ensures list[i].0 in FirstWins(list) && FirstWins(list)[list[i].0] == list[i].1
  {
    var n := |list| - 1;
    assert Hashes(list)[..n] == Hashes(list[..n]);
    FirstWinsKeys(list[..n], list[n].0);
    assert forall j :: 0 <= j < n ==> Hashes(list)[j] != Hashes(list)[n];
    if i < n {
      assert NoDuplicates(Hashes(list[..n]));
      FirstWinsAt(list[..n], i);
    }
  }

  /** The table of CASMs holds each CASM for its class. */
  lemma {:induction false} CasmIs(keys: seq<ClassHash>, casms: seq<Casm>, i: nat)
    requires |keys| == |casms| && i < |keys| && NoDuplicates(keys)
    ensures keys[i] in CasmsOf(keys, casms) && CasmsOf(keys, casms)[keys[i]] == casms[i]
  {
    var n := |keys| - 1;
    if i < n {
      CasmIs(keys[..n], casms[..n], i);
    }
  }

  /** The class table holds, for each declared hash, the Sierra class that its block brought. */
  lemma {:induction false} ClassIs(blocks: Blocks, b: nat, i: nat)
    requires NoDuplicates(Declared(blocks)) && (forall x <- blocks :: x.Fits()) && b < |blocks| && i < |blocks[b].classes|
    ensures var (h, class_) := blocks[b].classes[i];
            && h in ClassesOf(blocks) && ClassesOf(blocks)[h] == class_
            && h in DeclaredBlocksOf(blocks) && DeclaredBlocksOf(blocks)[h] == b
  {
    var n := |blocks| - 1;
    var list := Last(blocks).diff.declaredClasses;
    assert blocks[b] in blocks && blocks[n] in blocks;
    var h := blocks[b].classes[i].0;
    assert h == Hashes(blocks[b].classes)[i];
    LastDiffDistinct(blocks);
    FirstWinsKeys(Last(blocks).classes, h);
    if b == n {
      FirstWinsAt(blocks[b].classes, i);
    } else {
      RevertKeepsDistinct(blocks);
      ClassIs(Init(blocks), b, i);
      DeclaredBlockAt(Init(blocks), h);
      if h in list {
        LastClassesAreNew(blocks, h);
      }
    }
  }

  /** The Cairo 0 table holds the class of the first block that brought the hash, with that block. */
  lemma {:induction false} DeprecatedIs(blocks: Blocks, b: nat, h: ClassHash)
    requires b < |blocks| && h in FirstWins(blocks[b].deprecatedClasses)
    requires forall a :: 0 <= a < b ==> h !in FirstWins(blocks[a].deprecatedClasses)
    ensures h in DeprecatedOf(blocks)
    ensures DeprecatedOf(blocks)[h] == IndexedDeprecatedClass(b, FirstWins(blocks[b].deprecatedClasses)[h])
  {
    var n := |blocks| - 1;
    if b == n {
      NotBrought(Init(blocks), h);
    } else {
      DeprecatedIs(Init(blocks), b, h);
    }
  }

  lemma {:induction false} NotBrought(blocks: Blocks, h: ClassHash)
    requires forall b :: 0 <= b < |blocks| ==> h !in FirstWins(blocks[b].deprecatedClasses)
    ensures h !in DeprecatedOf(blocks)
  {
    if blocks != [] {
      NotBrought(Init(blocks), h);
    }
  }

  /** The flattened list of a prefix of the blocks is a prefix of the flattened list. */
  lemma {:induction false} DeclaredPrefix(blocks: Blocks, b: nat)
    requires b <= |blocks|
    ensures Declared(blocks[..b]) <= Declared(blocks)
  {
    if b < |blocks| {
      DeclaredPrefix(Init(blocks), b);
      assert Init(blocks)[..b] == blocks[..b];
    } else {
      assert blocks[..b] == blocks;
    }
  }

  lemma {:induction false} StartStep(blocks: Blocks, b: nat)
    requires b < |blocks|
    ensures Start(blocks, b + 1) == Start(blocks, b) + |blocks[b].diff.declaredClasses|
    ensures Declared(blocks[..b + 1]) == Declared(blocks[..b]) + blocks[b].diff.declaredClasses
    ensures Declared(blocks[..b + 1]) <= Declared(blocks)
  {
    var upTo := blocks[..b + 1];
    assert Init(upTo) == blocks[..b] && Last(upTo) == blocks[b];
    DeclaredPrefix(blocks, b + 1);
  }

  /** The last class that block `b` declares stands just before the first one of block `b + 1`. */
  lemma {:induction false} LastClassOfBlock(blocks: Blocks, b: nat)
    requires b < |blocks| && blocks[b].diff.declaredClasses != []
    ensures 0 < Start(blocks, b + 1) <= |Declared(blocks)|
    ensures var classes := blocks[b].diff.declaredClasses;
            classes[|classes| - 1] == Declared(blocks)[Start(blocks, b + 1) - 1]
  {
    StartStep(blocks, b);
  }

  lemma {:induction false} StartMonotone(blocks: Blocks, a: nat, b: nat)
    requires a <= b <= |blocks|
    ensures Start(blocks, a) <= Start(blocks, b) <= |Declared(blocks)|
  {
    DeclaredPrefix(blocks, b);
    DeclaredPrefix(blocks[..b], a);
    assert blocks[..b][..a] == blocks[..a];
  }

  /** There is one marker: two blocks that satisfy its definition are the same block. */
  lemma {:induction false} CasmMarkerUnique(blocks: Blocks, k: nat, m1: nat, m2: nat)
    requires IsCasmMarker(blocks, k, m1) && IsCasmMarker(blocks, k, m2)
    ensures m1 == m2
  {
    if m1 < m2 {
      StartMonotone(blocks, m1 + 1, m2);
    } else if m2 < m1 {
      StartMonotone(blocks, m2 + 1, m1);
    }
  }

  /** Every class declared below the marker has its CASM. */
  lemma {:induction false} ClassesBelowMarkerHaveCasm(blocks: Blocks, casms: seq<Casm>, marker: nat, b: nat, c: ClassHash)
    requires |casms| <= |Declared(blocks)| && IsCasmMarker(blocks, |casms|, marker)
    requires b < marker && c in blocks[b].diff.declaredClasses
    ensures c in CasmsOf(Declared(blocks)[..|casms|], casms)
  {
    StartStep(blocks, b);
    StartMonotone(blocks, b + 1, marker);
    var list := blocks[b].diff.declaredClasses;
    var i :| 0 <= i < |list| && list[i] == c;
    assert Declared(blocks)[..|casms|][Start(blocks, b) + i] == c;
    CasmAt(Declared(blocks)[..|casms|], casms, c);
  }

  // ----- Appending a block of state -----

  /**
   The marker that `advance_compiled_class_marker_over_blocks_without_classes` leaves: it has moved
   from `from` over blocks without declared classes, up to `limit` at most.
   */
  ghost predicate IsFirstWithClasses(diffs: map<nat, ThinStateDiff>, from: nat, limit: nat, result: nat) {
    && from <= result
    && (result == from || result <= limit)
    && (forall b :: from <= b < result ==> b in diffs && diffs[b].declaredClasses == [])
    && (result < limit ==> result in diffs && diffs[result].declaredClasses != [])
  }

  lemma {:induction false} AppendTables(blocks: Blocks, block: StateBlock)
    ensures DiffsOf(blocks + [block]) == DiffsOf(blocks)[|blocks| := block.diff]
    ensures DeclaredBlocksOf(blocks + [block]) ==
            DeclaredBlocksOf(blocks) + At(block.diff.declaredClasses, |blocks|)
    ensures ClassesOf(blocks + [block]) == ClassesOf(blocks) + FirstWins(block.classes)
    ensures DeprecatedOf(blocks + [block]) ==
            Indexed(FirstWins(block.deprecatedClasses), |blocks|) + DeprecatedOf(blocks)
  {
    assert Init(blocks + [block]) == blocks;
  }

  lemma {:induction false} AppendDeclares(blocks: Blocks, block: StateBlock)
    ensures Declared(blocks + [block]) == Declared(blocks) + block.diff.declaredClasses
  {
    assert Init(blocks + [block]) == blocks;
  }

  lemma {:induction false} AppendKeepsStart(blocks: Blocks, block: StateBlock, b: nat)
    requires b <= |blocks|
    ensures Start(blocks + [block], b) == Start(blocks, b)
  {
    assert (blocks + [block])[..b] == blocks[..b];
  }

  lemma {:induction false} AppendAdvancesMarker(blocks: Blocks, block: StateBlock, k: nat, marker: nat, marker': nat)
    requires k <= |Declared(blocks)| && IsCasmMarker(blocks, k, marker)
    requires IsFirstWithClasses(DiffsOf(blocks)[|blocks| := block.diff], marker, |blocks| + 1, marker')
    ensures IsCasmMarker(blocks + [block], k, marker')
  {
    var longer := blocks + [block];
    AppendKeepsStart(blocks, block, marker);
    if marker < |blocks| {
      AppendKeepsStart(blocks, block, marker + 1);
      StartStep(blocks, marker);
      DiffAt(blocks, marker);
      assert DiffsOf(blocks)[|blocks| := block.diff][marker] == blocks[marker].diff;
    } else {
      assert blocks[..marker] == blocks;
      StartStep(longer, marker);
      assert DiffsOf(blocks)[|blocks| := block.diff][marker] == block.diff;
    }
  }

  lemma {:induction false} FreshIsDistinct(blocks: Blocks, list: seq<ClassHash>)
    requires NoDuplicates(Declared(blocks)) && AllFresh(list, DeclaredBlocksOf(blocks))
    ensures NoDuplicates(Declared(blocks) + list)
  {
    var older := Declared(blocks);
    forall i, j | 0 <= i < j < |older + list| ensures (older + list)[i] != (older + list)[j] {
      if i < |older| <= j {
        DeclaredBlockAt(blocks, older[i]);
        assert list[j - |older|] in list;
      }
    }
  }

  lemma {:induction false} DistinctIsFresh(blocks: Blocks, list: seq<ClassHash>)
    requires NoDuplicates(Declared(blocks) + list)
    ensures AllFresh(list, DeclaredBlocksOf(blocks))
  {
    var older := Declared(blocks);
    forall i, j | 0 <= i < j < |list| ensures list[i] != list[j] {
      assert (older + list)[|older| + i] != (older + list)[|older| + j];
    }
    forall i | 0 <= i < |list| ensures list[i] !in DeclaredBlocksOf(blocks) {
      DeclaredBlockAt(blocks, list[i]);
      forall j | 0 <= j < |older| ensures older[j] != list[i] {
        assert (older + list)[j] != (older + list)[|older| + i];
      }
    }
  }

  /** The block table takes the declared classes exactly when each of them is new. */
  lemma {:induction false} FreshIffDistinct(blocks: Blocks, list: seq<ClassHash>)
    requires NoDuplicates(Declared(blocks))
    ensures AllFresh(list, DeclaredBlocksOf(blocks)) <==> NoDuplicates(Declared(blocks) + list)
  {
    if AllFresh(list, DeclaredBlocksOf(blocks)) {
      FreshIsDistinct(blocks, list);
    }
    if NoDuplicates(Declared(blocks) + list) {
      DistinctIsFresh(blocks, list);
    }
  }

  /** The rows that `append_state_diff` and `append_classes` of block `n` add. */
  ghost predicate AddsBlock(t: StateTables, t': StateTables, n: nat, block: StateBlock) {
    && t'.stateDiffs == t.stateDiffs[n := block.diff]
    && t'.declaredClassesBlock == t.declaredClassesBlock + At(block.diff.declaredClasses, n)
    && t'.declaredClasses == t.declaredClasses + FirstWins(block.classes)
    && t'.deprecatedClasses == Indexed(FirstWins(block.deprecatedClasses), n) + t.deprecatedClasses
  }

  lemma {:induction false} AppendEncodesTables(t: StateTables, t': StateTables, blocks: Blocks, block: StateBlock)
    requires EncodesTables(t, blocks) && AddsBlock(t, t', |blocks|, block)
    ensures EncodesTables(t', blocks + [block])
  {
    AppendTables(blocks, block);
  }

  /** `append_state_diff` and `append_classes` of the next block leave the tables of the longer list. */
  lemma {:induction false} AppendEncodesState(t: StateTables, t': StateTables, m: Markers, m': Markers,
                                              blocks: Blocks, casms: seq<Casm>, block: StateBlock)
    requires EncodesState(t, m, blocks, casms)
    requires NoDuplicates(Declared(blocks) + block.diff.declaredClasses)
    requires AddsBlock(t, t', |blocks|, block) && t'.casms == t.casms
    requires m'.state == m'.class_ == |blocks| + 1
    requires IsFirstWithClasses(t'.stateDiffs, m.compiledClass, |blocks| + 1, m'.compiledClass)
    ensures EncodesState(t', m', blocks + [block], casms)
  {
    AppendEncodesTables(t, t', blocks, block);
    AppendDeclares(blocks, block);
    AppendAdvancesMarker(blocks, block, |casms|, m.compiledClass, m'.compiledClass);
    assert (Declared(blocks) + block.diff.declaredClasses)[..|casms|] == Declared(blocks)[..|casms|];
  }

  // ----- Storing a CASM -----

  /** `update_marker` moves past block `b` once `c` is stored: no classes, or `c` is the last. */
  ghost predicate PassesBlock(diffs: map<nat, ThinStateDiff>, b: nat, c: ClassHash) {
    && b in diffs
    && (diffs[b].declaredClasses == [] || diffs[b].declaredClasses[|diffs[b].declaredClasses| - 1] == c)
  }

  /** The marker that the loop of `update_marker` leaves. */
  ghost predicate IsFirstNotPassed(diffs: map<nat, ThinStateDiff>, from: nat, c: ClassHash, result: nat) {
    && from <= result
    && (forall b :: from <= b < result ==> PassesBlock(diffs, b, c))
    && !PassesBlock(diffs, result, c)
  }

  /** Between the old marker and the new one there are no classes but those of the old block. */
  lemma {:induction false} PassedBlocksStart(blocks: Blocks, k: nat, marker: nat, b: nat)
    requires NoDuplicates(Declared(blocks)) && k < |Declared(blocks)|
    requires IsCasmMarker(blocks, k, marker) && marker < b <= |blocks|
    requires forall i :: marker <= i < b ==> PassesBlock(DiffsOf(blocks), i, Declared(blocks)[k])
    ensures Start(blocks, b) == k + 1
  {
    var last := b - 1;
    StartStep(blocks, last);
    DiffAt(blocks, last);
    assert PassesBlock(DiffsOf(blocks), last, Declared(blocks)[k]);
    if blocks[last].diff.declaredClasses != [] {
      LastClassOfBlock(blocks, last);
    }
    if marker < last {
      PassedBlocksStart(blocks, k, marker, last);
    }
  }

  lemma {:induction false} CasmAdvancesMarker(blocks: Blocks, k: nat, marker: nat, marker': nat)
    requires NoDuplicates(Declared(blocks)) && k < |Declared(blocks)|
    requires IsCasmMarker(blocks, k, marker)
    requires IsFirstNotPassed(DiffsOf(blocks), marker, Declared(blocks)[k], marker')
    ensures IsCasmMarker(blocks, k + 1, marker')
  {
    assert !PassesBlock(DiffsOf(blocks), |blocks|, Declared(blocks)[k]) by {
      DiffAt(blocks, |blocks|);
    }
    assert marker' <= |blocks|;
    assert blocks[..|blocks|] == blocks;
    if marker' == marker {
      DiffAt(blocks, marker);
      StartStep(blocks, marker);
      LastClassOfBlock(blocks, marker);
    } else {
      PassedBlocksStart(blocks, k, marker, marker');
      if marker' < |blocks| {
        DiffAt(blocks, marker');
        StartStep(blocks, marker');
      }
    }
  }

  lemma {:induction false} CasmTable(keys: seq<ClassHash>, casms: seq<Casm>, casm: Casm)
    requires |casms| < |keys|
    ensures CasmsOf(keys[..|casms| + 1], casms + [casm]) ==
            CasmsOf(keys[..|casms|], casms)[keys[|casms|] := casm]
  {
    var k := |casms|;
    assert keys[..k + 1][..k] == keys[..k];
    assert (casms + [casm])[..k] == casms;
  }

  lemma {:induction false} CasmKeepsTables(t: StateTables, t': StateTables, blocks: Blocks)
    requires EncodesTables(t, blocks) && t' == t.(casms := t'.casms)
    ensures EncodesTables(t', blocks)
  {
  }

  /** `append_casm` of the next class leaves the tables of the longer prefix. */
  lemma {:induction false} CasmEncodesState(t: StateTables, m: Markers, m': Markers,
                                            blocks: Blocks, casms: seq<Casm>, casm: Casm)
    requires EncodesState(t, m, blocks, casms) && |casms| < |Declared(blocks)|
    requires IsFirstNotPassed(t.stateDiffs, m.compiledClass, Declared(blocks)[|casms|], m'.compiledClass)
    requires m' == m.(compiledClass := m'.compiledClass)
    ensures EncodesState(t.(casms := t.casms[Declared(blocks)[|casms|] := casm]), m', blocks, casms + [casm])
  {
    CasmAdvancesMarker(blocks, |casms|, m.compiledClass, m'.compiledClass);
    CasmTable(Declared(blocks), casms, casm);
    CasmKeepsTables(t, t.(casms := t.casms[Declared(blocks)[|casms|] := casm]), blocks);
  }

  // ----- Reverting a block of state -----

  lemma {:induction false} RevertCasms(keys: seq<ClassHash>, casms: seq<Casm>, n: nat)
    requires |keys| == |casms| && NoDuplicates(keys) && n <= |keys|
    ensures CasmsOf(keys[..n], casms[..n]) == CasmsOf(keys, casms) - Elems(keys[n..])
  {
    if n == |keys| {
      assert keys[..n] == keys && casms[..n] == casms;
      assert Elems(keys[n..]) == {};
    } else {
      var m := |keys| - 1;
      RevertCasms(keys[..m], casms[..m], n);
      assert keys[..m][..n] == keys[..n] && casms[..m][..n] == casms[..n];
      assert keys[n..] == keys[..m][n..] + [keys[m]];
      assert Elems(keys[n..]) == Elems(keys[..m][n..]) + {keys[m]};
      CasmAt(keys[..m], casms[..m], keys[m]);
    }
  }

  lemma {:induction false} LastClassesAreNew(blocks: Blocks, c: ClassHash)
    requires blocks != [] && NoDuplicates(Declared(blocks))
    requires c in Last(blocks).diff.declaredClasses
    ensures c !in Declared(Init(blocks))
  {
    var older, list := Declared(Init(blocks)), Last(blocks).diff.declaredClasses;
    var i :| 0 <= i < |list| && list[i] == c;
    assert Declared(blocks)[|older| + i] == c;
    forall j | 0 <= j < |older| ensures older[j] != c {
      assert Declared(blocks)[j] == older[j];
    }
  }

  lemma {:induction false} LastDiffDistinct(blocks: Blocks)
    requires blocks != [] && NoDuplicates(Declared(blocks))
    ensures NoDuplicates(Last(blocks).diff.declaredClasses)
  {
    var older, list := Declared(Init(blocks)), Last(blocks).diff.declaredClasses;
    forall i, j | 0 <= i < j < |list| ensures list[i] != list[j] {
      assert Declared(blocks)[|older| + i] != Declared(blocks)[|older| + j];
    }
  }

  lemma {:induction false} RevertKeepsDistinct(blocks: Blocks)
    requires blocks != [] && NoDuplicates(Declared(blocks))
    ensures NoDuplicates(Declared(Init(blocks)))
  {
    var older := Declared(Init(blocks));
    forall i, j | 0 <= i < j < |older| ensures older[i] != older[j] {
      assert Declared(blocks)[i] == older[i] && Declared(blocks)[j] == older[j];
    }
  }

  lemma {:induction false} RevertDiffRow(blocks: Blocks)
    requires blocks != []
    ensures DiffsOf(Init(blocks)) == DiffsOf(blocks) - {|blocks| - 1}
  {
    DiffAt(Init(blocks), |blocks| - 1);
  }

  lemma {:induction false} RevertDeclaredBlocks(blocks: Blocks)
    requires blocks != [] && NoDuplicates(Declared(blocks))
    ensures DeclaredBlocksOf(Init(blocks)) ==
            DeclaredBlocksOf(blocks) - Elems(Last(blocks).diff.declaredClasses)
  {
    forall c | c in Last(blocks).diff.declaredClasses ensures c !in DeclaredBlocksOf(Init(blocks)) {
      LastClassesAreNew(blocks, c);
      DeclaredBlockAt(Init(blocks), c);
    }
  }

  lemma {:induction false} RevertClasses(blocks: Blocks)
    requires blocks != [] && NoDuplicates(Declared(blocks))
    requires forall b :: b in blocks ==> b.Fits()
    ensures ClassesOf(Init(blocks)) == ClassesOf(blocks) - Elems(Last(blocks).diff.declaredClasses)
  {
    var list := Last(blocks).diff.declaredClasses;
    forall c | c in list ensures c !in ClassesOf(Init(blocks)) {
      LastClassesAreNew(blocks, c);
      ClassAt(Init(blocks), c);
    }
    assert Last(blocks).Fits();
    forall c ensures c in FirstWins(Last(blocks).classes) <==> c in list {
      FirstWinsKeys(Last(blocks).classes, c);
    }
  }

  /** The Cairo 0 rows that `delete_deprecated_declared_classes` removes for block `n`. */
  function DeprecatedDeletions(t: map<ClassHash, IndexedDeprecatedClass>, n: nat, diff: ThinStateDiff): set<ClassHash> {
    set h | h in t && t[h].blockNumber == n
            && (h in diff.deprecatedDeclaredClasses || h in diff.contracts.deployed.Values)
  }

  lemma {:induction false} RevertDeprecatedTable(blocks: Blocks)
    requires blocks != [] && Last(blocks).Fits()
    ensures DeprecatedOf(Init(blocks)) ==
            DeprecatedOf(blocks) - DeprecatedDeletions(DeprecatedOf(blocks), |blocks| - 1, Last(blocks).diff)
  {
    var n := |blocks| - 1;
    var old_ := DeprecatedOf(Init(blocks));
    var fresh_ := FirstWins(Last(blocks).deprecatedClasses);
    forall h ensures h in old_ ==> old_[h].blockNumber < n {
      DeprecatedAt(Init(blocks), h);
    }
    assert forall h :: h in DeprecatedDeletions(DeprecatedOf(blocks), n, Last(blocks).diff) <==>
                       h in fresh_ && h !in old_;
  }

  /** The tables that `revert_state_diff` leaves when it removes block `n`, the contract tables aside. */
  ghost function RevertedTables(t: Tables, n: nat): Tables
    requires n in t.state.stateDiffs
  {
    var diff := t.state.stateDiffs[n];
    var declared := Elems(diff.declaredClasses);
    var s := t.state;
    Tables(
      t.header,
      StateTables(
        s.stateDiffs - {n},
        // The block of a class is forgotten only if the class itself had been written.
        s.declaredClassesBlock - declared * s.declaredClasses.Keys,
        s.declaredClasses - declared,
        s.deprecatedClasses - DeprecatedDeletions(s.deprecatedClasses, n, diff),
        s.casms - Elems(diff.declaredClasses[..PresentPrefix(diff.declaredClasses, s.casms)])),
      t.contracts,
      t.markers.(
        state := n,
        class_ := if t.markers.class_ == n + 1 then n else t.markers.class_,
        compiledClass := if t.markers.compiledClass == n + 1 then n else t.markers.compiledClass))
  }

  function Min(a: nat, b: nat): nat {
    if a < b then a else b
  }

  /** The CASMs of the last block that are stored are exactly those that the deletion loop reaches. */
  lemma {:induction false} PresentCasms(older: seq<ClassHash>, list: seq<ClassHash>, casms: seq<Casm>)
    requires NoDuplicates(older + list) && |casms| <= |older + list|
    ensures var table := CasmsOf((older + list)[..|casms|], casms);
            var p := PresentPrefix(list, table);
            (older + list)[..|casms|][Min(|casms|, |older|)..] == list[..p]
  {
    var keys := (older + list)[..|casms|];
    var table := CasmsOf(keys, casms);
    var p := PresentPrefix(list, table);
    forall i | 0 <= i < |list| ensures list[i] in table <==> |older| + i < |casms| {
      CasmAt(keys, casms, list[i]);
      assert (older + list)[|older| + i] == list[i];
      if |older| + i < |casms| {
        assert keys[|older| + i] == list[i];
      }
    }
    if p < |list| {
      assert list[p] !in table;
    }
    if p > 0 {
      assert list[p - 1] in table;
    }
  }

  lemma {:induction false} RevertMovesMarker(blocks: Blocks, k: nat, marker: nat)
    requires blocks != [] && k <= |Declared(blocks)| && IsCasmMarker(blocks, k, marker)
    ensures IsCasmMarker(Init(blocks), Min(k, |Declared(Init(blocks))|), Min(marker, |blocks| - 1))
  {
    var n := |blocks| - 1;
    var init := Init(blocks);
    assert init[..n] == init && blocks[..n] == init && blocks[..|blocks|] == blocks;
    StartMonotone(blocks, n, |blocks|);
    if marker < n {
      assert init[..marker] == blocks[..marker] && init[..marker + 1] == blocks[..marker + 1];
      StartMonotone(blocks, marker + 1, n);
    }
  }

  lemma {:induction false} RevertEncodesTables(t: Tables, blocks: Blocks)
    requires blocks != [] && EncodesTables(t.state, blocks) && NoDuplicates(Declared(blocks))
    requires forall b :: b in blocks ==> b.Fits()
    requires |blocks| - 1 in t.state.stateDiffs
    ensures EncodesTables(RevertedTables(t, |blocks| - 1).state, Init(blocks))
  {
    var list := Last(blocks).diff.declaredClasses;
    DiffAt(blocks, |blocks| - 1);
    RevertDiffRow(blocks);
    RevertDeclaredBlocks(blocks);
    RevertClasses(blocks);
    RevertDeprecatedTable(blocks);
    assert Elems(list) * ClassesOf(blocks).Keys == Elems(list) by {
      forall c | c in list ensures c in ClassesOf(blocks) {
        ClassAt(blocks, c);
      }
    }
  }

  /** Which contract diffs the tables accept. */
  lemma {:induction false} ContractsAcceptIff(t: ContractTables, blocks: Blocks, n: nat, diff: ContractDiff)
    requires EncodesContracts(t, blocks)
    ensures C.Accepts(t, n, diff) <==> C.AcceptedAfter(ContractDiffs(blocks), n, diff)
  {
    ContractsAre(t, blocks);
    C.AcceptedIff(ContractDiffs(blocks), n, diff);
  }

  /** The diff of the next block is accepted unless it deploys and replaces one contract. */
  lemma {:induction false} NextAcceptedIff(t: ContractTables, blocks: Blocks, diff: ContractDiff)
    requires EncodesContracts(t, blocks)
    ensures C.Accepts(t, |blocks|, diff) <==> diff.Exclusive()
  {
    ContractsAcceptIff(t, blocks, |blocks|, diff);
  }

  lemma {:induction false} AppendEncodesContracts(t: ContractTables, blocks: Blocks, block: StateBlock)
    requires EncodesContracts(t, blocks)
    ensures EncodesContracts(C.Written(t, |blocks|, block.diff.contracts), blocks + [block])
  {
    ContractsAre(t, blocks);
    assert ContractDiffs(blocks + [block]) == ContractDiffs(blocks) + [block.diff.contracts];
    C.WrittenIsLonger(ContractDiffs(blocks), block.diff.contracts);
  }

  lemma {:induction false} RevertEncodesContracts(t: ContractTables, blocks: Blocks)
    requires blocks != [] && EncodesContracts(t, blocks)
    ensures EncodesContracts(C.Deleted(t, |blocks| - 1, Last(blocks).diff.contracts), Init(blocks))
  {
    ContractsAre(t, blocks);
    assert ContractDiffs(Init(blocks)) == ContractDiffs(blocks)[..|blocks| - 1];
    C.DeletedIsShorter(ContractDiffs(blocks));
  }

  /** `revert_state_diff` of the last block leaves the tables of the shorter list. */
  lemma {:induction false} RevertEncodesState(t: Tables, blocks: Blocks, casms: seq<Casm>)
    requires blocks != [] && EncodesState(t.state, t.markers, blocks, casms)
    requires forall b :: b in blocks ==> b.Fits()
    requires |blocks| - 1 in t.state.stateDiffs
    ensures var t' := RevertedTables(t, |blocks| - 1);
            EncodesState(t'.state, t'.markers, Init(blocks),
                         casms[..Min(|casms|, |Declared(Init(blocks))|)])
  {
    RevertEncodesTables(t, blocks);
    RevertKeepsDistinct(blocks);
    RevertMovesMarker(blocks, |casms|, t.markers.compiledClass);
    RevertedCasms(t, blocks, casms);
  }

  lemma {:induction false} RevertedCasms(t: Tables, blocks: Blocks, casms: seq<Casm>)
    requires blocks != [] && t.state.stateDiffs == DiffsOf(blocks) && |blocks| - 1 in t.state.stateDiffs
    requires NoDuplicates(Declared(blocks)) && |casms| <= |Declared(blocks)|
    requires t.state.casms == CasmsOf(Declared(blocks)[..|casms|], casms)
    ensures var older := Declared(Init(blocks));
            var keep := Min(|casms|, |older|);
            RevertedTables(t, |blocks| - 1).state.casms == CasmsOf(older[..keep], casms[..keep])
  {
    var list, older := Last(blocks).diff.declaredClasses, Declared(Init(blocks));
    DiffAt(blocks, |blocks| - 1);
    RevertCasmTable(older, list, casms);
    assert (older + list)[..Min(|casms|, |older|)] == older[..Min(|casms|, |older|)];
  }

  lemma {:induction false} RevertCasmTable(older: seq<ClassHash>, list: seq<ClassHash>, casms: seq<Casm>)
    requires NoDuplicates(older + list) && |casms| <= |older + list|
    ensures var table := CasmsOf((older + list)[..|casms|], casms);
            var keep := Min(|casms|, |older|);
            CasmsOf((older + list)[..keep], casms[..keep]) ==
            table - Elems(list[..PresentPrefix(list, table)])
  {
    var keys := (older + list)[..|casms|];
    var keep := Min(|casms|, |older|);
    PresentCasms(older, list, casms);
    RevertCasms(keys, casms, keep);
    assert keys[..keep] == (older + list)[..keep];
  }
}
