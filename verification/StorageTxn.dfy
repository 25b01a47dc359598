/**
 A read-write storage transaction: the header, body, state, class, compiled-class and base-layer
 writers. A writer that fails leaves the transaction in no defined state; its caller drops it, so
 only what `Pass` promises ever reaches the database.
 */
module StorageTxns {
  import opened Wrappers
  import opened Db
  import opened ChainTypes
  import opened HeaderSpec
  import C = StateHistory
  import S = StateSpec

  class StorageTxn {
    var tables: Tables
    /** The list of blocks that the header tables stand for. */
    ghost var chain: Chain

    ghost predicate HeadersValid()
      reads this
    {
      EncodesHeaders(tables.header, tables.markers.header, chain)
    }

    /** Every block from the compiled-class marker up to the state marker has its state diff. */
    ghost predicate DiffsPresent()
      reads this
    {
      forall b :: tables.markers.compiledClass <= b < tables.markers.state ==> b in tables.state.stateDiffs
    }

    constructor (committed: Tables, ghost blocks: Chain)
      ensures tables == committed && chain == blocks
    {
      tables := committed;
      chain := blocks;
    }

    // ----- header.rs: readers -----

    method GetStarknetVersion(n: nat) returns (version: Option<StarknetVersion>)
      requires HeadersValid()
      ensures version == if n < |chain| then Some(chain[n].header.starknetVersion) else None
    {
      if n >= tables.markers.header {
        return None;
      }
      VersionLookup(chain, n);
      var entry := PrevBelow(tables.header.starknetVersion, n + 1);
      version := Some(entry.value.1);
    }

    method GetBlockHeader(n: nat) returns (header: Option<BlockHeader>)
      requires HeadersValid()
      ensures header == if n < |chain| then Some(chain[n].header) else None
    {
      RowAt(chain, n);
      if n !in tables.header.headers {
        return None;
      }
      var version := GetStarknetVersion(n);
      if version.None? {
        return None;
      }
      header := Some(FromStorage(tables.header.headers[n], version.value));
    }

    method GetBlockNumberByHash(hash: BlockHash) returns (n: Option<nat>)
      requires HeadersValid()
      ensures n.Some? ==> n.value < |chain| && chain[n.value].header.blockHash == hash
      ensures n.None? ==> !HasHash(chain, hash)
    {
      HashRowAt(chain, hash);
      n := if hash in tables.header.hashToNumber then Some(tables.header.hashToNumber[hash]) else None;
    }

    method GetBlockSignature(n: nat) returns (signature: Option<Signature>)
      requires HeadersValid()
      ensures signature == if n < |chain| then chain[n].signature else None
    {
      SignatureAt(chain, n);
      signature := if n in tables.header.signatures then Some(tables.header.signatures[n]) else None;
    }

    // ----- header.rs: writers -----

    method AppendHeader(n: nat, h: BlockHeader) returns (r: StorageResult)
      requires HeadersValid()
      modifies this
      ensures r == if n != old(|chain|) then Fail(MarkerMismatch(old(|chain|), n))
                   else if HasHash(old(chain), h.blockHash) then Fail(KeyAlreadyExists)
                   else Pass
      ensures r.Pass? ==> HeadersValid() && chain == old(chain) + [Entry(h, None)]
      ensures r.Pass? ==> tables == old(tables).(header := tables.header,
                                                 markers := old(tables).markers.(header := n + 1))
    {
      if tables.markers.header != n {
        return Fail(MarkerMismatch(tables.markers.header, n));
      }
      tables := tables.(markers := tables.markers.(header := n + 1));

      RowsAreAppendable(chain);
      if !IsAppendable(tables.header.headers, n) {
        return Fail(AppendRefused);
      }
      tables := tables.(header := tables.header.(headers := tables.header.headers[n := ToStorage(h)]));

      HashRowAt(chain, h.blockHash);
      if h.blockHash in tables.header.hashToNumber {
        return Fail(KeyAlreadyExists);
      }
      tables := tables.(header := tables.header.(
        hashToNumber := tables.header.hashToNumber[h.blockHash := n]));
      r := UpdateStarknetVersion(n, h.starknetVersion);

      AppendedTables(old(tables).header, chain, h);
      chain := chain + [Entry(h, None)];
    }

    /** Writes a version row for block `n` only if the version differs from the one before it. */
    method UpdateStarknetVersion(n: nat, version: StarknetVersion) returns (r: StorageResult)
      requires tables.header.starknetVersion == VersionsOf(chain) && n == |chain|
      modifies this`tables
      ensures r.Pass?
      ensures tables == old(tables).(header := old(tables).header.(
                          starknetVersion := if chain != [] && Last(chain).header.starknetVersion == version
                                             then VersionsOf(chain)
                                             else VersionsOf(chain)[n := version]))
    {
      if n > 0 {
        VersionLookup(chain, n - 1);
      }
      VersionRowAt(chain, n);
      var entry := PrevBelow(tables.header.starknetVersion, n);
      if entry.None? || entry.value.1 != version {
        if n in tables.header.starknetVersion {
          return Fail(KeyAlreadyExists);
        }
        tables := tables.(header := tables.header.(
          starknetVersion := tables.header.starknetVersion[n := version]));
      }
      r := Pass;
    }

    method RevertHeader(n: nat) returns (header: Option<BlockHeader>, signature: Option<Signature>)
      requires HeadersValid()
      modifies this
      ensures HeadersValid()
      ensures n + 1 == old(|chain|) ==>
                && chain == Init(old(chain))
                && header == Some(Last(old(chain)).header)
                && signature == Last(old(chain)).signature
                && tables == old(tables).(header := tables.header,
                                          markers := old(tables).markers.(header := n))
      ensures n + 1 != old(|chain|) ==>
                header.None? && signature.None? && chain == old(chain) && tables == old(tables)
    {
      if n + 1 != tables.markers.header {
        return None, None;
      }
      RowAt(chain, n);
      SignatureAt(chain, n);
      VersionLookup(chain, n);
      RevertEncodes(chain);

      var t := tables.header;
      var reverted := t.headers[n];
      var version := PrevBelow(t.starknetVersion, n + 1).value.1;
      signature := if n in t.signatures then Some(t.signatures[n]) else None;
      t := t.(headers := t.headers - {n},
              hashToNumber := t.hashToNumber - {reverted.blockHash},
              starknetVersion := t.starknetVersion - {n});
      if signature.Some? {
        t := t.(signatures := t.signatures - {n});
      }
      tables := tables.(header := t, markers := tables.markers.(header := n));
      header := Some(FromStorage(reverted, version));
      chain := Init(chain);
    }

    method AppendBlockSignature(n: nat, s: Signature) returns (r: StorageResult)
      requires HeadersValid()
      modifies this
      ensures r == if n >= old(|chain|) then Fail(BlockSignatureForNonExistingBlock(n))
                   else if old(chain[n].signature.Some?) then Fail(KeyAlreadyExists)
                   else Pass
      ensures r.Pass? ==> HeadersValid()
      ensures r.Pass? ==> chain == old(chain)[n := old(chain)[n].(signature := Some(s))]
      ensures r.Pass? ==> tables == old(tables).(header := tables.header)
    {
      if n >= tables.markers.header {
        return Fail(BlockSignatureForNonExistingBlock(n));
      }
      SignatureAt(chain, n);
      if n in tables.header.signatures {
        return Fail(KeyAlreadyExists);
      }
      tables := tables.(header := tables.header.(signatures := tables.header.signatures[n := s]));
      SignEncodes(chain, n, s);
      chain := chain[n := chain[n].(signature := Some(s))];
      r := Pass;
    }

    // ----- body/mod.rs: the two markers; the transaction tables are an input -----

    method AppendBody(n: nat, transactionsAccepted: bool) returns (r: StorageResult)
      modifies this`tables
      ensures r == if old(tables).markers.body != n then Fail(MarkerMismatch(old(tables).markers.body, n))
                   else if old(tables).markers.event != n then Fail(MarkerMismatch(old(tables).markers.event, n))
                   else if !transactionsAccepted then Fail(OtherTableRefused)
                   else Pass
      ensures r.Pass? ==> tables == old(tables).(markers := old(tables).markers.(body := n + 1, event := n + 1))
    {
      if tables.markers.body != n {
        return Fail(MarkerMismatch(tables.markers.body, n));
      }
      if tables.markers.event != n {
        return Fail(MarkerMismatch(tables.markers.event, n));
      }
      tables := tables.(markers := tables.markers.(body := n + 1, event := n + 1));
      if !transactionsAccepted {
        return Fail(OtherTableRefused);
      }
      r := Pass;
    }

    method RevertBody(n: nat)
      modifies this`tables
      ensures tables == if old(tables).markers.body == n + 1
                        then old(tables).(markers := old(tables).markers.(body := n, event := n))
                        else old(tables)
    {
      if tables.markers.body != n + 1 {
        return;
      }
      tables := tables.(markers := tables.markers.(body := n, event := n));
    }

    // ----- state/mod.rs -----

    /** The contract tables are written first; then the classes, the diff itself and the markers. */
    method AppendStateDiff(n: nat, diff: ThinStateDiff) returns (r: StorageResult)
      requires DiffsPresent() && tables.markers.compiledClass <= tables.markers.state
      modifies this`tables
      ensures r == if !C.Accepts(old(tables).contracts, n, diff.contracts) then Fail(OtherTableRefused)
                   else if !S.AllFresh(diff.declaredClasses, old(tables).state.declaredClassesBlock)
                     then Fail(KeyAlreadyExists)
                   else if !IsAppendable(old(tables).state.stateDiffs, n) then Fail(AppendRefused)
                   else if n != old(tables).markers.state then Fail(MarkerMismatch(old(tables).markers.state, n))
                   else Pass
      ensures r.Pass? ==> DiffsPresent()
      ensures r.Pass? ==>
                && S.IsFirstWithClasses(tables.state.stateDiffs, old(tables).markers.compiledClass, n + 1,
                                        tables.markers.compiledClass)
                && tables == old(tables).(
                     state := old(tables).state.(
                       stateDiffs := old(tables).state.stateDiffs[n := diff],
                       declaredClassesBlock :=
                         old(tables).state.declaredClassesBlock + S.At(diff.declaredClasses, n)),
                     contracts := C.Written(old(tables).contracts, n, diff.contracts),
                     markers := old(tables).markers.(state := n + 1,
                                                     compiledClass := tables.markers.compiledClass))
    {
      var written := C.WriteDiff(tables.contracts, n, diff.contracts);
      if written.None? {
        return Fail(OtherTableRefused);
      }
      tables := tables.(contracts := written.value);
      r := AppendClassesOfDiff(n, diff);
    }

    /** What is left once the contract tables are written. */
    method AppendClassesOfDiff(n: nat, diff: ThinStateDiff) returns (r: StorageResult)
      requires DiffsPresent() && tables.markers.compiledClass <= tables.markers.state
      modifies this`tables
      ensures r == if !S.AllFresh(diff.declaredClasses, old(tables).state.declaredClassesBlock)
                     then Fail(KeyAlreadyExists)
                   else if !IsAppendable(old(tables).state.stateDiffs, n) then Fail(AppendRefused)
                   else if n != old(tables).markers.state then Fail(MarkerMismatch(old(tables).markers.state, n))
                   else Pass
      ensures r.Pass? ==> DiffsPresent()
      ensures r.Pass? ==>
                && S.IsFirstWithClasses(tables.state.stateDiffs, old(tables).markers.compiledClass, n + 1,
                                        tables.markers.compiledClass)
                && tables == old(tables).(
                     state := old(tables).state.(
                       stateDiffs := old(tables).state.stateDiffs[n := diff],
                       declaredClassesBlock :=
                         old(tables).state.declaredClassesBlock + S.At(diff.declaredClasses, n)),
                     markers := old(tables).markers.(state := n + 1,
                                                     compiledClass := tables.markers.compiledClass))
    {
      r := InsertDeclaredBlocks(n, diff.declaredClasses);
      if r.Fail? {
        return;
      }
      if !IsAppendable(tables.state.stateDiffs, n) {
        return Fail(AppendRefused);
      }
      tables := tables.(state := tables.state.(stateDiffs := tables.state.stateDiffs[n := diff]));
      if tables.markers.state != n {
        return Fail(MarkerMismatch(tables.markers.state, n));
      }
      tables := tables.(markers := tables.markers.(state := n + 1));
      AdvanceCompiledClassMarker();
      r := Pass;
    }

    method InsertDeclaredBlocks(n: nat, list: seq<ClassHash>) returns (r: StorageResult)
      modifies this`tables
      ensures r == if S.AllFresh(list, old(tables).state.declaredClassesBlock) then Pass else Fail(KeyAlreadyExists)
      ensures r.Pass? ==>
                tables == old(tables).(state := old(tables).state.(
                            declaredClassesBlock := old(tables).state.declaredClassesBlock + S.At(list, n)))
    {
      ghost var before := tables.state.declaredClassesBlock;
      for i := 0 to |list|
        invariant S.AllFresh(list[..i], before)
        invariant tables == old(tables).(state := old(tables).state.(
                              declaredClassesBlock := before + S.At(list[..i], n)))
      {
        var rows := tables.state.declaredClassesBlock;
        if list[i] in rows {
          S.NotFresh(list, i, before);
          return Fail(KeyAlreadyExists);
        }
        S.FreshStep(list, i, before);
        S.AtStep(list, i, n, before);
        tables := tables.(state := tables.state.(declaredClassesBlock := rows[list[i] := n]));
      }
      assert list[..|list|] == list;
      r := Pass;
    }

    method AdvanceCompiledClassMarker()
      requires DiffsPresent() && tables.markers.compiledClass <= tables.markers.state
      modifies this`tables
      ensures DiffsPresent()
      ensures S.IsFirstWithClasses(tables.state.stateDiffs, old(tables).markers.compiledClass,
                                   tables.markers.state, tables.markers.compiledClass)
      ensures tables == old(tables).(
                markers := old(tables).markers.(compiledClass := tables.markers.compiledClass))
    {
      var marker := tables.markers.compiledClass;
      while marker < tables.markers.state
        invariant old(tables).markers.compiledClass <= marker <= tables.markers.state
        invariant forall b :: old(tables).markers.compiledClass <= b < marker ==>
                    b in tables.state.stateDiffs && tables.state.stateDiffs[b].declaredClasses == []
        invariant tables == old(tables).(markers := old(tables).markers.(compiledClass := marker))
        invariant DiffsPresent()
      {
        if tables.state.stateDiffs[marker].declaredClasses != [] {
          break;
        }
        marker := marker + 1;
        tables := tables.(markers := tables.markers.(compiledClass := marker));
      }
    }

    method RevertStateDiff(n: nat) returns (reverted: Option<ThinStateDiff>)
      requires tables.markers.state == n + 1 ==>
                 && n in tables.state.stateDiffs
                 && S.NoDuplicates(tables.state.stateDiffs[n].declaredClasses)
      modifies this`tables
      ensures n + 1 != old(tables).markers.state ==> reverted.None? && tables == old(tables)
      ensures n + 1 == old(tables).markers.state ==>
                && reverted == Some(old(tables).state.stateDiffs[n])
                && tables == S.RevertedTables(old(tables), n).(
                     contracts := C.Deleted(old(tables).contracts, n, old(tables).state.stateDiffs[n].contracts))
    {
      if n + 1 != tables.markers.state {
        return None;
      }
      var diff := tables.state.stateDiffs[n];
      var m := tables.markers.(state := n);
      if m.class_ == n + 1 {
        m := m.(class_ := n);
      }
      if m.compiledClass == n + 1 {
        m := m.(compiledClass := n);
      }
      tables := tables.(markers := m);
      var contracts := C.DeleteDiff(tables.contracts, n, diff.contracts);
      tables := tables.(contracts := contracts);
      DeleteDeclaredClasses(diff.declaredClasses);
      DeleteDeprecatedDeclaredClasses(n, diff);
      DeleteCompiledClasses(diff.declaredClasses);
      tables := tables.(state := tables.state.(stateDiffs := tables.state.stateDiffs - {n}));
      reverted := Some(diff);
    }

    method DeleteDeclaredClasses(list: seq<ClassHash>)
      modifies this`tables
      ensures tables == old(tables).(state := old(tables).state.(
                          declaredClasses := old(tables).state.declaredClasses - S.Elems(list),
                          declaredClassesBlock := old(tables).state.declaredClassesBlock
                                                  - S.Elems(list) * old(tables).state.declaredClasses.Keys))
    {
      ghost var classes := tables.state.declaredClasses;
      ghost var blocks := tables.state.declaredClassesBlock;
      for i := 0 to |list|
        invariant tables == old(tables).(state := old(tables).state.(
                              declaredClasses := classes - S.Elems(list[..i]),
                              declaredClassesBlock := blocks - S.Elems(list[..i]) * classes.Keys))
      {
        S.ElemsStep(list, i);
        if list[i] in tables.state.declaredClasses {
          tables := tables.(state := tables.state.(
            declaredClasses := tables.state.declaredClasses - {list[i]},
            declaredClassesBlock := tables.state.declaredClassesBlock - {list[i]}));
        }
        assert tables.state.declaredClasses == classes - S.Elems(list[..i + 1]);
        assert tables.state.declaredClassesBlock == blocks - S.Elems(list[..i + 1]) * classes.Keys;
      }
      assert list[..|list|] == list;
    }

    method DeleteDeprecatedDeclaredClasses(n: nat, diff: ThinStateDiff)
      modifies this`tables
      ensures tables == old(tables).(state := old(tables).state.(
                          deprecatedClasses := old(tables).state.deprecatedClasses
                                               - S.DeprecatedDeletions(old(tables).state.deprecatedClasses, n, diff)))
    {
      ghost var before := tables.state.deprecatedClasses;
      var hashes := S.Elems(diff.deprecatedDeclaredClasses) + diff.contracts.deployed.Values;
      ghost var done: set<ClassHash> := {};
      while hashes != {}
        invariant done + hashes == S.Elems(diff.deprecatedDeclaredClasses) + diff.contracts.deployed.Values
        invariant tables == old(tables).(state := old(tables).state.(
                              deprecatedClasses := before - (set h | h in before && before[h].blockNumber == n && h in done)))
        decreases hashes
      {
        var h :| h in hashes;
        hashes := hashes - {h};
        done := done + {h};
        if h in tables.state.deprecatedClasses && tables.state.deprecatedClasses[h].blockNumber == n {
          tables := tables.(state := tables.state.(
            deprecatedClasses := tables.state.deprecatedClasses - {h}));
        }
        assert tables.state.deprecatedClasses ==
               before - (set k | k in before && before[k].blockNumber == n && k in done);
      }
      assert S.DeprecatedDeletions(before, n, diff) ==
             set h | h in before && before[h].blockNumber == n && h in done;
    }

    /** Stops at the first class without a CASM: the later ones are taken not to be there yet. */
    method DeleteCompiledClasses(list: seq<ClassHash>)
      requires S.NoDuplicates(list)
      modifies this`tables
      ensures tables == old(tables).(state := old(tables).state.(
                          casms := old(tables).state.casms
                                   - S.Elems(list[..S.PresentPrefix(list, old(tables).state.casms)])))
    {
      ghost var before := tables.state.casms;
      ghost var p := S.PresentPrefix(list, before);
      var i := 0;
      while i < |list|
        invariant i <= p
        invariant tables == old(tables).(state := old(tables).state.(casms := before - S.Elems(list[..i])))
      {
        if list[i] !in tables.state.casms {
          break;
        }
        S.ElemsStep(list, i);
        tables := tables.(state := tables.state.(casms := tables.state.casms - {list[i]}));
        i := i + 1;
      }
    }

    // ----- class.rs -----

    method AppendClasses(n: nat, classes: seq<(ClassHash, SierraClass)>,
                         deprecatedClasses: seq<(ClassHash, DeprecatedClass)>) returns (r: StorageResult)
      modifies this`tables
      ensures r == if n != old(tables).markers.class_ then Fail(MarkerMismatch(old(tables).markers.class_, n))
                   else if !S.AllFresh(S.Hashes(classes), old(tables).state.declaredClasses)
                     then Fail(KeyAlreadyExists)
                   else Pass
      ensures r.Pass? ==>
                tables == old(tables).(
                  state := old(tables).state.(
                    declaredClasses := old(tables).state.declaredClasses + S.FirstWins(classes),
                    deprecatedClasses := S.Indexed(S.FirstWins(deprecatedClasses), n)
                                         + old(tables).state.deprecatedClasses),
                  markers := old(tables).markers.(class_ := n + 1))
    {
      if n != tables.markers.class_ {
        return Fail(MarkerMismatch(tables.markers.class_, n));
      }
      r := WriteClasses(classes);
      if r.Fail? {
        return;
      }
      WriteDeprecatedClasses(n, deprecatedClasses);
      tables := tables.(markers := tables.markers.(class_ := n + 1));
    }

    method WriteClasses(classes: seq<(ClassHash, SierraClass)>) returns (r: StorageResult)
      modifies this`tables
      ensures r == if S.AllFresh(S.Hashes(classes), old(tables).state.declaredClasses)
                   then Pass else Fail(KeyAlreadyExists)
      ensures r.Pass? ==>
                tables == old(tables).(state := old(tables).state.(
                            declaredClasses := old(tables).state.declaredClasses + S.FirstWins(classes)))
    {
      ghost var before := tables.state.declaredClasses;
      for i := 0 to |classes|
        invariant S.AllFresh(S.Hashes(classes[..i]), before)
        invariant tables == old(tables).(state := old(tables).state.(
                              declaredClasses := before + S.FirstWins(classes[..i])))
      {
        var (hash, class_) := classes[i];
        var rows := tables.state.declaredClasses;
        S.FirstWinsKeys(classes[..i], hash);
        assert S.Hashes(classes)[..i] == S.Hashes(classes[..i]);
        if hash in rows {
          S.NotFresh(S.Hashes(classes), i, before);
          return Fail(KeyAlreadyExists);
        }
        assert S.Hashes(classes)[..i + 1] == S.Hashes(classes[..i + 1]);
        S.FreshStep(S.Hashes(classes), i, before);
        S.ClassStep(classes, i, before);
        tables := tables.(state := tables.state.(declaredClasses := rows[hash := class_]));
      }
      assert classes[..|classes|] == classes;
      r := Pass;
    }

    method WriteDeprecatedClasses(n: nat, classes: seq<(ClassHash, DeprecatedClass)>)
      modifies this`tables
      ensures tables == old(tables).(state := old(tables).state.(
                          deprecatedClasses := S.Indexed(S.FirstWins(classes), n)
                                               + old(tables).state.deprecatedClasses))
    {
      ghost var before := tables.state.deprecatedClasses;
      for i := 0 to |classes|
        invariant tables == old(tables).(state := old(tables).state.(
                              deprecatedClasses := S.Indexed(S.FirstWins(classes[..i]), n) + before))
      {
        var (hash, class_) := classes[i];
        var rows := tables.state.deprecatedClasses;
        S.DeprecatedStep(classes, i, n, before);
        if hash in rows {
          continue;
        }
        tables := tables.(state := tables.state.(
          deprecatedClasses := rows[hash := IndexedDeprecatedClass(n, class_)]));
      }
      assert classes[..|classes|] == classes;
    }

    // ----- compiled_class.rs -----

    method AppendCasm(hash: ClassHash, casm: Casm) returns (r: StorageResult)
      modifies this`tables
      ensures r == if hash in old(tables).state.casms then Fail(KeyAlreadyExists) else Pass
      ensures r.Pass? ==>
                && S.IsFirstNotPassed(tables.state.stateDiffs, old(tables).markers.compiledClass, hash,
                                      tables.markers.compiledClass)
                && tables == old(tables).(
                     state := old(tables).state.(casms := old(tables).state.casms[hash := casm]),
                     markers := old(tables).markers.(compiledClass := tables.markers.compiledClass))
    {
      if hash in tables.state.casms {
        return Fail(KeyAlreadyExists);
      }
      tables := tables.(state := tables.state.(casms := tables.state.casms[hash := casm]));
      UpdateMarker(hash);
      r := Pass;
    }

    method UpdateMarker(hash: ClassHash)
      modifies this`tables
      ensures S.IsFirstNotPassed(tables.state.stateDiffs, old(tables).markers.compiledClass, hash,
                                 tables.markers.compiledClass)
      ensures tables == old(tables).(
                markers := old(tables).markers.(compiledClass := tables.markers.compiledClass))
    {
      var n := tables.markers.compiledClass;
      while n in tables.state.stateDiffs
        invariant old(tables).markers.compiledClass <= n
        invariant forall b :: old(tables).markers.compiledClass <= b < n ==>
                    S.PassesBlock(tables.state.stateDiffs, b, hash)
        invariant tables == old(tables).(markers := old(tables).markers.(compiledClass := n))
        decreases set b | b in tables.state.stateDiffs.Keys && n <= b
      {
        var classes := tables.state.stateDiffs[n].declaredClasses;
        if classes != [] && classes[|classes| - 1] != hash {
          break;
        }
        ghost var ahead := set b | b in tables.state.stateDiffs.Keys && n <= b;
        n := n + 1;
        tables := tables.(markers := tables.markers.(compiledClass := n));
        assert n - 1 in ahead && n - 1 !in (set b | b in tables.state.stateDiffs.Keys && n <= b);
      }
    }

    // ----- base_layer.rs -----

    method UpdateBaseLayerBlockMarker(n: nat)
      modifies this`tables
      ensures tables == old(tables).(markers := old(tables).markers.(baseLayerBlock := n))
    {
      tables := tables.(markers := tables.markers.(baseLayerBlock := n));
    }

    method TryRevertBaseLayerMarker(n: nat)
      modifies this`tables
      ensures tables == if old(tables).markers.baseLayerBlock == n + 1
                        then old(tables).(markers := old(tables).markers.(baseLayerBlock := n))
                        else old(tables)
    {
      if tables.markers.baseLayerBlock == n + 1 {
        UpdateBaseLayerBlockMarker(n);
      }
    }
  }
}
