/**
 What a class read returns, from the tables and from the blocks they stand for, and what a cache of
 class reads has to satisfy. The block executor stores the CASMs of a block before its state diff,
 so every declared class has its CASM; the compiled-class marker may lag behind.
 */
module ClassReads {
  import opened Wrappers
  import opened ChainTypes
  import opened StateSpec

  /** A class ready for execution: Cairo 0, or Cairo 1 with its CASM and Sierra source. */
  datatype RunnableClass = V0(class_: DeprecatedClass) | V1(casm: Casm, sierra: SierraClass)

  datatype ReadError =
    | UndeclaredClassHash(classHash: ClassHash)
    | CasmAndSierraMismatch(classHash: ClassHash)
    | Panicked

  type ReadResult = Result<RunnableClass, ReadError>

  type Cache = map<ClassHash, RunnableClass>

  /** The Cairo 1 class of a hash that is declared: its CASM and Sierra must be there together. */
  function CoupleCasmAndSierra(t: StateTables, h: ClassHash): ReadResult {
    if h in t.casms && h in t.declaredClasses then Ok(V1(t.casms[h], t.declaredClasses[h]))
    else if h in t.casms || h in t.declaredClasses then Err(CasmAndSierraMismatch(h))
    else Err(Panicked)
  }

  /** `get_compiled_class_inner` of a reader whose latest block is `latest`. */
  function UncachedRead(t: StateTables, latest: nat, h: ClassHash): ReadResult {
    if h in t.declaredClassesBlock && t.declaredClassesBlock[h] <= latest then CoupleCasmAndSierra(t, h)
    else if h in t.deprecatedClasses && t.deprecatedClasses[h].blockNumber < latest then
      Ok(V0(t.deprecatedClasses[h].class_))
    else Err(UndeclaredClassHash(h))
  }

  /** The class that a list of blocks gives a hash: the reference for every read. */
  ghost function ClassIn(blocks: Blocks, casms: map<ClassHash, Casm>, h: ClassHash): Option<RunnableClass> {
    if h in Declared(blocks) then
      if h in casms && h in ClassesOf(blocks) then Some(V1(casms[h], ClassesOf(blocks)[h])) else None
    else if h in DeprecatedOf(blocks) then Some(V0(DeprecatedOf(blocks)[h].class_))
    else None
  }

  /** The blocks declare each class once, bring what their diffs say, and have every CASM stored. */
  ghost predicate BlocksSound(blocks: Blocks, casms: map<ClassHash, Casm>) {
    && casms.Keys == Elems(Declared(blocks))
    && NoDuplicates(Declared(blocks))
    && (forall b <- blocks :: b.Fits())
  }

  /** The state tables and markers of the block executor's storage stand for the blocks. */
  ghost predicate EncodesBlocks(t: StateTables, m: Markers, blocks: Blocks) {
    && m.state == m.class_ == |blocks|
    && m.compiledClass <= |blocks|
    && EncodesTables(t, blocks)
    && BlocksSound(blocks, t.casms)
  }

  /** Class hashes of the two kinds do not meet: `cairo1` is the set of Cairo 1 hashes. */
  ghost predicate KindsDisjoint(blocks: Blocks, cairo1: iset<ClassHash>) {
    && (forall h <- Declared(blocks) :: h in cairo1)
    && (forall h <- DeprecatedOf(blocks) :: h !in cairo1)
  }

  /** Everything in the cache is what the stored blocks say. */
  ghost predicate CacheSound(cache: Cache, blocks: Blocks, casms: map<ClassHash, Casm>) {
    forall h <- cache :: ClassIn(blocks, casms, h) == Some(cache[h])
  }

  /** The class of `h` was brought by a block that a reader at `latest` looks at. */
  ghost predicate VisibleAt(t: StateTables, latest: nat, h: ClassHash) {
    || (h in t.declaredClassesBlock && t.declaredClassesBlock[h] <= latest)
    || (h in t.deprecatedClasses && t.deprecatedClasses[h].blockNumber < latest)
  }

  // ----- Reads of the tables against reads of the blocks -----

  /** A read never panics or finds half a class: it returns the blocks' class, or none if not visible. */
  lemma {:induction false} ReadIsClassIn(t: StateTables, blocks: Blocks, cairo1: iset<ClassHash>, latest: nat, h: ClassHash)
    requires EncodesTables(t, blocks) && BlocksSound(blocks, t.casms) && KindsDisjoint(blocks, cairo1)
    ensures UncachedRead(t, latest, h)
         == if VisibleAt(t, latest, h) && ClassIn(blocks, t.casms, h).Some?
            then Ok(ClassIn(blocks, t.casms, h).value) else Err(UndeclaredClassHash(h))
    ensures VisibleAt(t, latest, h) ==> ClassIn(blocks, t.casms, h).Some?
  {
    DeclaredBlockAt(blocks, h);
    ClassAt(blocks, h);
    assert h in t.casms <==> h in Elems(Declared(blocks));
  }

  /** A reader at or above the end of the list sees every stored class. */
  lemma {:induction false} AlignedReadIsClassIn(t: StateTables, blocks: Blocks, cairo1: iset<ClassHash>, latest: nat, h: ClassHash)
    requires EncodesTables(t, blocks) && BlocksSound(blocks, t.casms) && KindsDisjoint(blocks, cairo1) && latest >= |blocks|
    ensures UncachedRead(t, latest, h)
         == if ClassIn(blocks, t.casms, h).Some? then Ok(ClassIn(blocks, t.casms, h).value) else Err(UndeclaredClassHash(h))
  {
    ReadIsClassIn(t, blocks, cairo1, latest, h);
    DeclaredBlockAt(blocks, h);
    DeprecatedAt(blocks, h);
  }

  // ----- Appending and reverting a block -----

  lemma {:induction false} NotInBoth(older: seq<ClassHash>, list: seq<ClassHash>, h: ClassHash)
    requires NoDuplicates(older + list)
    ensures h !in older || h !in list
  {
    forall i, j | 0 <= i < |older| && 0 <= j < |list| ensures older[i] != list[j] {
      assert (older + list)[i] != (older + list)[|older| + j];
    }
  }

  /**
   Appending a block gives a hash that already had a class another one exactly when the hash was a
   Cairo 0 class and the block declares it as a Cairo 1 class.
   */
  lemma {:induction false} AppendKeepsClassIff(blocks: Blocks, block: StateBlock, casms: map<ClassHash, Casm>, casms': map<ClassHash, Casm>, h: ClassHash)
    requires forall b <- blocks + [block] :: b.Fits()
    requires NoDuplicates(Declared(blocks) + block.diff.declaredClasses)
    requires forall c <- casms :: c in casms' && casms'[c] == casms[c]
    requires casms'.Keys == Elems(Declared(blocks) + block.diff.declaredClasses)
    requires ClassIn(blocks, casms, h).Some?
    ensures ClassIn(blocks + [block], casms', h) == ClassIn(blocks, casms, h)
            <==> h in Declared(blocks) || h !in block.diff.declaredClasses
  {
    AppendTables(blocks, block);
    AppendDeclares(blocks, block);
    assert block in blocks + [block];
    FirstWinsKeys(block.classes, h);
    NotInBoth(Declared(blocks), block.diff.declaredClasses, h);
    if h !in Declared(blocks) && h in block.diff.declaredClasses {
      assert h in Elems(Declared(blocks) + block.diff.declaredClasses);
      ClassAt(blocks + [block], h);
    }
  }

  lemma {:induction false} AppendKeepsCache(cache: Cache, blocks: Blocks, block: StateBlock, casms: map<ClassHash, Casm>,
                         casms': map<ClassHash, Casm>, cairo1: iset<ClassHash>)
    requires CacheSound(cache, blocks, casms) && KindsDisjoint(blocks, cairo1)
    requires forall b <- blocks + [block] :: b.Fits()
    requires NoDuplicates(Declared(blocks) + block.diff.declaredClasses)
    requires forall c <- block.diff.declaredClasses :: c in cairo1
    requires forall c <- casms :: c in casms' && casms'[c] == casms[c]
    requires casms'.Keys == Elems(Declared(blocks) + block.diff.declaredClasses)
    ensures CacheSound(cache, blocks + [block], casms')
  {
    forall h <- cache ensures ClassIn(blocks + [block], casms', h) == Some(cache[h]) {
      AppendKeepsClassIff(blocks, block, casms, casms', h);
    }
  }

  lemma {:induction false} AppendKeepsKinds(blocks: Blocks, block: StateBlock, cairo1: iset<ClassHash>)
    requires KindsDisjoint(blocks, cairo1)
    requires forall c <- block.diff.declaredClasses :: c in cairo1
    requires forall c <- Hashes(block.deprecatedClasses) :: c !in cairo1
    ensures KindsDisjoint(blocks + [block], cairo1)
  {
    AppendTables(blocks, block);
    AppendDeclares(blocks, block);
    forall h | h in DeprecatedOf(blocks + [block]) ensures h !in cairo1 {
      FirstWinsKeys(block.deprecatedClasses, h);
    }
  }

  lemma {:induction false} AppendKeepsCasmKeys(blocks: Blocks, block: StateBlock, casms: map<ClassHash, Casm>, casms': map<ClassHash, Casm>)
    requires NoDuplicates(Declared(blocks)) && AllFresh(block.diff.declaredClasses, DeclaredBlocksOf(blocks))
    requires casms.Keys == Elems(Declared(blocks))
    requires casms'.Keys == casms.Keys + Elems(block.diff.declaredClasses)
    ensures NoDuplicates(Declared(blocks) + block.diff.declaredClasses)
    ensures casms'.Keys == Elems(Declared(blocks) + block.diff.declaredClasses)
  {
    FreshIsDistinct(blocks, block.diff.declaredClasses);
    assert Elems(Declared(blocks) + block.diff.declaredClasses) == Elems(Declared(blocks)) + Elems(block.diff.declaredClasses);
  }

  lemma {:induction false} AppendKeepsBlocksSound(blocks: Blocks, block: StateBlock, casms: map<ClassHash, Casm>, casms': map<ClassHash, Casm>)
    requires BlocksSound(blocks, casms) && block.Fits() && AllFresh(block.diff.declaredClasses, DeclaredBlocksOf(blocks))
    requires casms'.Keys == casms.Keys + Elems(block.diff.declaredClasses)
    ensures BlocksSound(blocks + [block], casms')
    ensures NoDuplicates(Declared(blocks) + block.diff.declaredClasses)
    ensures casms'.Keys == Elems(Declared(blocks) + block.diff.declaredClasses)
  {
    AppendKeepsCasmKeys(blocks, block, casms, casms');
    AppendDeclares(blocks, block);
  }

  lemma {:induction false} AllPresent(list: seq<ClassHash>, table: map<ClassHash, Casm>)
    requires forall c <- list :: c in table
    ensures list[..PresentPrefix(list, table)] == list
  {
    forall i | 0 <= i < |list| ensures list[i] in table {
      assert list[i] in list;
    }
  }

  lemma {:induction false} RevertKeepsBlocksSound(blocks: Blocks, casms: map<ClassHash, Casm>)
    requires blocks != [] && BlocksSound(blocks, casms)
    ensures BlocksSound(Init(blocks), casms - Elems(Last(blocks).diff.declaredClasses))
  {
    var list := Last(blocks).diff.declaredClasses;
    RevertKeepsDistinct(blocks);
    forall c <- list ensures c !in Declared(Init(blocks)) {
      LastClassesAreNew(blocks, c);
    }
    assert Elems(Declared(blocks)) == Elems(Declared(Init(blocks))) + Elems(list);
    assert Elems(Declared(Init(blocks))) == Elems(Declared(blocks)) - Elems(list);
  }

  /** Reverting the last block leaves the tables of the shorter list; all its CASMs are removed. */
  lemma {:induction false} RevertEncodesBlocks(t: Tables, blocks: Blocks)
    requires blocks != [] && EncodesBlocks(t.state, t.markers, blocks) && |blocks| - 1 in t.state.stateDiffs
    ensures var t' := RevertedTables(t, |blocks| - 1);
            && EncodesBlocks(t'.state, t'.markers, Init(blocks))
            && t'.state.casms == t.state.casms - Elems(Last(blocks).diff.declaredClasses)
  {
    var list := Last(blocks).diff.declaredClasses;
    DiffAt(blocks, |blocks| - 1);
    RevertEncodesTables(t, blocks);
    RevertKeepsBlocksSound(blocks, t.state.casms);
    forall c <- list ensures c in t.state.casms {
      assert c in Elems(Declared(blocks));
    }
    AllPresent(list, t.state.casms);
  }

  lemma {:induction false} RevertKeepsKinds(blocks: Blocks, cairo1: iset<ClassHash>)
    requires blocks != [] && KindsDisjoint(blocks, cairo1)
    ensures KindsDisjoint(Init(blocks), cairo1)
  {
    forall h | h in DeprecatedOf(Init(blocks)) ensures h !in cairo1 {
      assert h in DeprecatedOf(blocks);
    }
  }

  // ----- Cached reads -----

  /** A cached read: a hit returns the cached class; a miss reads, and keeps what it found. */
  function CachedRead(t: StateTables, cache: Cache, latest: nat, h: ClassHash): (ReadResult, Cache) {
    if h in cache then (Ok(cache[h]), cache)
    else
      var r := UncachedRead(t, latest, h);
      (r, if r.Ok? then cache[h := r.value] else cache)
  }

  /** Everything in the cache is visible to a reader at `latest`. */
  ghost predicate CacheVisible(t: StateTables, cache: Cache, latest: nat) {
    forall h <- cache :: VisibleAt(t, latest, h)
  }

  lemma {:induction false} CachedReadKeepsCache(t: StateTables, blocks: Blocks, cairo1: iset<ClassHash>, cache: Cache, latest: nat, h: ClassHash)
    requires EncodesTables(t, blocks) && BlocksSound(blocks, t.casms) && KindsDisjoint(blocks, cairo1)
    requires CacheSound(cache, blocks, t.casms)
    ensures CacheSound(CachedRead(t, cache, latest, h).1, blocks, t.casms)
    ensures CacheVisible(t, cache, latest) ==> CacheVisible(t, CachedRead(t, cache, latest, h).1, latest)
  {
    ReadIsClassIn(t, blocks, cairo1, latest, h);
  }

  /**
   A cached read returns what the uncached read returns exactly when the hash is not cached or its
   class is visible at the reader's block; a reader aligned with storage always satisfies this.
   */
  lemma {:induction false} CachedReadIff(t: StateTables, blocks: Blocks, cairo1: iset<ClassHash>, cache: Cache, latest: nat, h: ClassHash)
    requires EncodesTables(t, blocks) && BlocksSound(blocks, t.casms) && KindsDisjoint(blocks, cairo1)
    requires CacheSound(cache, blocks, t.casms)
    ensures CachedRead(t, cache, latest, h).0 == UncachedRead(t, latest, h)
            <==> (h in cache ==> VisibleAt(t, latest, h))
    ensures latest >= |blocks| ==> CachedRead(t, cache, latest, h).0 == UncachedRead(t, latest, h)
  {
    ReadIsClassIn(t, blocks, cairo1, latest, h);
    AlignedReadIsClassIn(t, blocks, cairo1, |blocks|, h);
    if latest >= |blocks| {
      AlignedReadIsClassIn(t, blocks, cairo1, latest, h);
    }
  }
}
