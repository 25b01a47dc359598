/**
 What the header tables mean: one plain list of full headers, each with its optional signature.
 The tables are a function of that list and the list is a function of the tables.
 */
module HeaderSpec {
  import opened Wrappers
  import opened Db
  import opened ChainTypes

  /** One stored block: its full header and the signature written for it, if any. */
  datatype Entry = Entry(header: BlockHeader, signature: Option<Signature>)

  type Chain = seq<Entry>

  function ToStorage(h: BlockHeader): StorageBlockHeader {
    StorageBlockHeader(
      h.blockHash, h.parentHash, h.blockNumber, h.l1GasPrice, h.l1DataGasPrice, h.l2GasPrice,
      h.stateRoot, h.sequencer, h.timestamp, h.l1DaMode, h.stateDiffCommitment,
      h.transactionCommitment, h.eventCommitment, h.receiptCommitment, h.stateDiffLength,
      h.nTransactions, h.nEvents)
  }

  /** Puts a stored row and a version back together; the inverse of `ToStorage`. */
  function FromStorage(s: StorageBlockHeader, version: StarknetVersion): (h: BlockHeader)
    ensures ToStorage(h) == s && h.starknetVersion == version
    ensures forall g: BlockHeader :: ToStorage(g) == s && g.starknetVersion == version ==> g == h
  {
    BlockHeader(
      s.blockHash, s.parentHash, s.blockNumber, s.l1GasPrice, s.l1DataGasPrice, s.l2GasPrice,
      s.stateRoot, s.sequencer, s.timestamp, s.l1DaMode, version, s.stateDiffCommitment,
      s.transactionCommitment, s.eventCommitment, s.receiptCommitment, s.stateDiffLength,
      s.nTransactions, s.nEvents)
  }

  ghost predicate DistinctHashes(chain: Chain) {
    forall i, j :: 0 <= i < j < |chain| ==>
      chain[i].header.blockHash != chain[j].header.blockHash
  }

  ghost predicate HasHash(chain: Chain, hash: BlockHash) {
    exists i :: 0 <= i < |chain| && chain[i].header.blockHash == hash
  }

  /** The version changes at block `i`: the only blocks that own a row of the version table. */
  ghost predicate StartsVersion(chain: Chain, i: nat) {
    && i < |chain|
    && (i == 0 || chain[i].header.starknetVersion != chain[i - 1].header.starknetVersion)
  }

  function Init(chain: Chain): Chain
    requires chain != []
  {
    chain[..|chain| - 1]
  }

  function Last(chain: Chain): Entry
    requires chain != []
  {
    chain[|chain| - 1]
  }

  function RowsOf(chain: Chain): map<nat, StorageBlockHeader> {
    if chain == [] then map[]
    else RowsOf(Init(chain))[|chain| - 1 := ToStorage(Last(chain).header)]
  }

  function HashesOf(chain: Chain): map<BlockHash, nat> {
    if chain == [] then map[]
    else HashesOf(Init(chain))[Last(chain).header.blockHash := |chain| - 1]
  }

  /** The run-length compressed versions: a row only where a block differs from its predecessor. */
  function VersionsOf(chain: Chain): map<nat, StarknetVersion> {
    if chain == [] then map[]
    else if |chain| > 1 && Last(Init(chain)).header.starknetVersion == Last(chain).header.starknetVersion
    then VersionsOf(Init(chain))
    else VersionsOf(Init(chain))[|chain| - 1 := Last(chain).header.starknetVersion]
  }

  function SignaturesOf(chain: Chain): map<nat, Signature> {
    if chain == [] then map[]
    else if Last(chain).signature.None? then SignaturesOf(Init(chain))
    else SignaturesOf(Init(chain))[|chain| - 1 := Last(chain).signature.value]
  }

  /** The four header tables that stand for a list of blocks. */
  function TablesOf(chain: Chain): HeaderTables {
    HeaderTables(RowsOf(chain), HashesOf(chain), VersionsOf(chain), SignaturesOf(chain))
  }

  /** The header tables and their marker say exactly what the list says. */
  ghost predicate EncodesHeaders(t: HeaderTables, marker: nat, chain: Chain) {
    marker == |chain| && t == TablesOf(chain) && DistinctHashes(chain)
  }

  // ----- What the tables hold, row by row -----

  lemma {:induction false} RowAt(chain: Chain, n: nat)
    ensures n in RowsOf(chain) <==> n < |chain|
    ensures n < |chain| ==> RowsOf(chain)[n] == ToStorage(chain[n].header)
  {
    if chain != [] {
      RowAt(Init(chain), n);
    }
  }

  lemma {:induction false} SignatureAt(chain: Chain, n: nat)
    ensures n in SignaturesOf(chain) <==> n < |chain| && chain[n].signature.Some?
    ensures n in SignaturesOf(chain) ==> chain[n].signature == Some(SignaturesOf(chain)[n])
  {
    if chain != [] {
      SignatureAt(Init(chain), n);
    }
  }

  /** The version table has rows exactly where the version changes. */
  lemma {:induction false} VersionRowAt(chain: Chain, n: nat)
    ensures n in VersionsOf(chain) <==> StartsVersion(chain, n)
    ensures n in VersionsOf(chain) ==> VersionsOf(chain)[n] == chain[n].header.starknetVersion
  {
    if chain != [] {
      VersionRowAt(Init(chain), n);
    }
  }

  lemma {:induction false} HashRowAt(chain: Chain, hash: BlockHash)
    ensures hash in HashesOf(chain) ==>
              && HashesOf(chain)[hash] < |chain|
              && chain[HashesOf(chain)[hash]].header.blockHash == hash
    ensures hash in HashesOf(chain) <==> HasHash(chain, hash)
  {
    if chain != [] {
      HashRowAt(Init(chain), hash);
      if HasHash(Init(chain), hash) {
        var i :| 0 <= i < |Init(chain)| && Init(chain)[i].header.blockHash == hash;
        assert chain[i].header.blockHash == hash;
      }
    }
  }

  /** Hash lookup is the exact inverse of header lookup. */
  lemma HashLookup(chain: Chain, n: nat)
    requires DistinctHashes(chain) && n < |chain|
    ensures chain[n].header.blockHash in HashesOf(chain)
    ensures HashesOf(chain)[chain[n].header.blockHash] == n
  {
    HashRowAt(chain, chain[n].header.blockHash);
  }

  /** The compressed table answers the per-block version of every stored block. */
  lemma {:induction false} VersionLookup(chain: Chain, n: nat)
    requires n < |chain|
    ensures PrevBelow(VersionsOf(chain), n + 1).Some?
    ensures PrevBelow(VersionsOf(chain), n + 1).value.1 == chain[n].header.starknetVersion
  {
    VersionRowAt(chain, n);
    if !StartsVersion(chain, n) {
      VersionLookup(chain, n - 1);
    }
  }

  // ----- The encoding loses nothing -----

  /** Two lists with the same tables and marker are the same list. */
  lemma EncodingDeterminesChain(a: Chain, b: Chain)
    requires |a| == |b| && TablesOf(a) == TablesOf(b)
    ensures a == b
  {
    forall i | 0 <= i < |a| ensures a[i] == b[i] {
      RowAt(a, i);
      RowAt(b, i);
      VersionLookup(a, i);
      VersionLookup(b, i);
      SignatureAt(a, i);
      SignatureAt(b, i);
      assert a[i].header == FromStorage(RowsOf(a)[i], a[i].header.starknetVersion);
    }
  }

  // ----- What each writer does to the tables -----

  lemma {:induction false} AppendKeepsHashesDistinct(chain: Chain, e: Entry)
    requires DistinctHashes(chain) && !HasHash(chain, e.header.blockHash)
    ensures DistinctHashes(chain + [e])
  {
    forall i, j | 0 <= i < j < |chain| + 1
      ensures (chain + [e])[i].header.blockHash != (chain + [e])[j].header.blockHash
    {
      assert (chain + [e])[i] == chain[i];
    }
  }

  /** The tables after one `append_header`. */
  lemma {:induction false} AppendEncodes(chain: Chain, h: BlockHeader)
    ensures RowsOf(chain + [Entry(h, None)]) == RowsOf(chain)[|chain| := ToStorage(h)]
    ensures HashesOf(chain + [Entry(h, None)]) == HashesOf(chain)[h.blockHash := |chain|]
    ensures VersionsOf(chain + [Entry(h, None)]) ==
            if chain != [] && Last(chain).header.starknetVersion == h.starknetVersion
            then VersionsOf(chain)
            else VersionsOf(chain)[|chain| := h.starknetVersion]
    ensures SignaturesOf(chain + [Entry(h, None)]) == SignaturesOf(chain)
  {
    var longer := chain + [Entry(h, None)];
    assert Init(longer) == chain;
  }

  /** One `append_header` on tables that stand for `chain`. */
  lemma {:induction false} AppendedTables(t: HeaderTables, chain: Chain, h: BlockHeader)
    requires EncodesHeaders(t, |chain|, chain) && !HasHash(chain, h.blockHash)
    ensures EncodesHeaders(
              HeaderTables(
                t.headers[|chain| := ToStorage(h)],
                t.hashToNumber[h.blockHash := |chain|],
                if chain != [] && Last(chain).header.starknetVersion == h.starknetVersion
                then t.starknetVersion
                else t.starknetVersion[|chain| := h.starknetVersion],
                t.signatures),
              |chain| + 1,
              chain + [Entry(h, None)])
  {
    AppendEncodes(chain, h);
    AppendKeepsHashesDistinct(chain, Entry(h, None));
  }

  lemma RowsAreAppendable(chain: Chain)
    ensures IsAppendable(RowsOf(chain), |chain|)
  {
    forall k | k in RowsOf(chain) ensures k < |chain| {
      RowAt(chain, k);
    }
  }

  /** The tables after one `revert_header`. */
  lemma {:induction false} RevertEncodes(chain: Chain)
    requires chain != [] && DistinctHashes(chain)
    ensures RowsOf(Init(chain)) == RowsOf(chain) - {|chain| - 1}
    ensures HashesOf(Init(chain)) == HashesOf(chain) - {Last(chain).header.blockHash}
    ensures VersionsOf(Init(chain)) == VersionsOf(chain) - {|chain| - 1}
    ensures SignaturesOf(Init(chain)) == SignaturesOf(chain) - {|chain| - 1}
  {
    var n := |chain| - 1;
    RowAt(Init(chain), n);
    VersionRowAt(Init(chain), n);
    SignatureAt(Init(chain), n);
    HashRowAt(Init(chain), Last(chain).header.blockHash);
  }

  /** The tables after one `append_block_signature`. */
  lemma {:induction false} SignEncodes(chain: Chain, n: nat, s: Signature)
    requires n < |chain| && chain[n].signature.None?
    ensures TablesOf(chain[n := chain[n].(signature := Some(s))]) ==
            TablesOf(chain).(signatures := SignaturesOf(chain)[n := s])
  {
    var signed := chain[n := chain[n].(signature := Some(s))];
    if n == |chain| - 1 {
      assert Init(signed) == Init(chain);
    } else {
      assert Init(signed) == Init(chain)[n := Init(chain)[n].(signature := Some(s))];
      SignEncodes(Init(chain), n, s);
    }
  }
}
