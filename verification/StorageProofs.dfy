/** Merging the replies to a split storage-proof query, against an honest node. */
module StorageProofs {
  import opened Felts
  import opened Merkle
  import opened StorageQueries

  datatype ContractLeafData = ContractLeafData(nonce: Felt, classHash: Felt, storageRoot: Option<Felt>)

  datatype GlobalRoots = GlobalRoots(contractsTreeRoot: Felt, classesTreeRoot: Felt, blockHash: Felt)

  datatype StorageProof = StorageProof(
    classesProof: NodeMap,
    contractsNodes: NodeMap,
    contractLeavesData: seq<ContractLeafData>,
    contractsStorageProofs: seq<NodeMap>,
    globalRoots: GlobalRoots)

  // ------------------------------------------------------------------------
  // The honest node
  // ------------------------------------------------------------------------

  /** A node at one block. Each key has a set of node hashes on its path, and one hash always stands for one
      node of a trie. */
  datatype RpcNode = RpcNode(
    classPath: Felt -> set<Felt>, classNode: Felt -> MerkleNode,
    contractPath: Felt -> set<Felt>, contractNode: Felt -> MerkleNode, leaf: Felt -> ContractLeafData,
    storagePath: (Felt, Felt) -> set<Felt>, storageNode: Felt -> MerkleNode,
    roots: GlobalRoots)

  function PathNodes(keys: set<Felt>, path: Felt -> set<Felt>, node: Felt -> MerkleNode): NodeMap {
    map h | h in (set k, h' | k in keys && h' in path(k) :: h') :: node(h)
  }

  function ClassNodes(node: RpcNode, hashes: set<Felt>): NodeMap {
    PathNodes(hashes, node.classPath, node.classNode)
  }

  function ContractNodes(node: RpcNode, addresses: set<Felt>): NodeMap {
    PathNodes(addresses, node.contractPath, node.contractNode)
  }

  function StorageNodes(node: RpcNode, address: Felt, keys: set<Felt>): NodeMap {
    PathNodes(keys, k => node.storagePath(address, k), node.storageNode)
  }

  function Elements(s: seq<Felt>): set<Felt> {
    set x | x in s
  }

  function Leaves(node: RpcNode, addresses: seq<ContractAddress>): seq<ContractLeafData> {
    seq(|addresses|, i requires 0 <= i < |addresses| => node.leaf(addresses[i]))
  }

  /** The honest reply: nodes are unioned over the requested keys; leaves and storage proofs follow query order. */
  function Reply(node: RpcNode, q: Query): StorageProof {
    var entries := q.contractStorageKeys;
    StorageProof(
      ClassNodes(node, Elements(q.classHashes)),
      ContractNodes(node, Elements(q.contractAddresses)),
      Leaves(node, q.contractAddresses),
      seq(|entries|, i requires 0 <= i < |entries| =>
        StorageNodes(node, entries[i].contractAddress, Elements(entries[i].storageKeys))),
      node.roots)
  }

  function Replies(node: RpcNode, queries: seq<Query>): seq<StorageProof> {
    seq(|queries|, i requires 0 <= i < |queries| => Reply(node, queries[i]))
  }

  lemma PathNodesUnion(a: set<Felt>, b: set<Felt>, path: Felt -> set<Felt>, node: Felt -> MerkleNode)
    ensures PathNodes(a + b, path, node) == PathNodes(a, path, node) + PathNodes(b, path, node)
  {
  }

  // ------------------------------------------------------------------------
  // Merging
  // ------------------------------------------------------------------------

  /** The index map built from the original query keeps the last entry of a repeated address. */
  function EntryIndex(entries: seq<ContractStorageKeys>, address: Felt): (i: Option<nat>)
    ensures i.Some? ==> i.value < |entries| && entries[i.value].contractAddress == address
    ensures i.Some? ==> forall j :: i.value < j < |entries| ==> entries[j].contractAddress != address
    ensures i.None? ==> forall j :: 0 <= j < |entries| ==> entries[j].contractAddress != address
  {
    if entries == [] then None
    else if entries[|entries| - 1].contractAddress == address then Some(|entries| - 1)
    else EntryIndex(entries[..|entries| - 1], address)
  }

  function Min(a: nat, b: nat): nat {
    if a < b then a else b
  }

  /** Every entry of the chunk has an entry in the original query, so the lookup never fails. */
  ghost predicate ChunkFits(chunk: Query, original: Query) {
    forall j :: 0 <= j < |chunk.contractStorageKeys| ==>
      EntryIndex(original.contractStorageKeys, chunk.contractStorageKeys[j].contractAddress).Some?
  }

  /** The per-contract maps after the first n pairs of one chunk's zip. */
  function MergeEntries(acc: seq<NodeMap>, chunk: Query, proofs: seq<NodeMap>, original: Query, n: nat): (r: seq<NodeMap>)
    requires ChunkFits(chunk, original) && |acc| == |original.contractStorageKeys|
    requires n <= |chunk.contractStorageKeys| && n <= |proofs|
    ensures |r| == |acc|
  {
    if n == 0 then acc
    else
      var before := MergeEntries(acc, chunk, proofs, original, n - 1);
      var i := EntryIndex(original.contractStorageKeys, chunk.contractStorageKeys[n - 1].contractAddress).value;
      before[i := before[i] + proofs[n - 1]]
  }

  function MergeChunk(acc: StorageProof, chunk: Query, proof: StorageProof, original: Query): (r: StorageProof)
    requires ChunkFits(chunk, original) && |acc.contractsStorageProofs| == |original.contractStorageKeys|
    ensures |r.contractsStorageProofs| == |original.contractStorageKeys|
  {
    StorageProof(
      acc.classesProof + proof.classesProof,
      acc.contractsNodes + proof.contractsNodes,
      acc.contractLeavesData + proof.contractLeavesData,
      MergeEntries(acc.contractsStorageProofs, chunk, proof.contractsStorageProofs, original,
        Min(|chunk.contractStorageKeys|, |proof.contractsStorageProofs|)),
      acc.globalRoots)
  }

  function MergeStart(roots: GlobalRoots, original: Query): StorageProof {
    StorageProof(map[], map[], [], seq(|original.contractStorageKeys|, _ => map[]), roots)
  }

  /** The merge of the first n replies. */
  function MergeUpTo(proofs: seq<StorageProof>, chunks: seq<Query>, original: Query, n: nat): (r: StorageProof)
    requires |proofs| == |chunks| && |proofs| > 0 && n <= |chunks|
    requires forall i :: 0 <= i < |chunks| ==> ChunkFits(chunks[i], original)
    ensures |r.contractsStorageProofs| == |original.contractStorageKeys|
  {
    if n == 0 then MergeStart(proofs[0].globalRoots, original)
    else MergeChunk(MergeUpTo(proofs, chunks, original, n - 1), chunks[n - 1], proofs[n - 1], original)
  }

  function Merged(proofs: seq<StorageProof>, chunks: seq<Query>, original: Query): StorageProof
    requires |proofs| == |chunks| && |proofs| > 0
    requires forall i :: 0 <= i < |chunks| ==> ChunkFits(chunks[i], original)
  {
    MergeUpTo(proofs, chunks, original, |chunks|)
  }

  /** Address to entry index; inserting in order keeps the last entry of a repeated address. */
  method IndexAddresses(entries: seq<ContractStorageKeys>) returns (addrToIdx: map<Felt, nat>)
    ensures forall a :: a in addrToIdx <==> EntryIndex(entries, a).Some?
    ensures forall a :: a in addrToIdx ==> EntryIndex(entries, a) == Some(addrToIdx[a])
  {
    addrToIdx := map[];
    for i := 0 to |entries|
      invariant forall a :: a in addrToIdx <==> EntryIndex(entries[..i], a).Some?
      invariant forall a :: a in addrToIdx ==> EntryIndex(entries[..i], a) == Some(addrToIdx[a])
    {
      assert entries[..i + 1][..i] == entries[..i];
      addrToIdx := addrToIdx[entries[i].contractAddress := i];
    }
    assert entries[..|entries|] == entries;
  }

  lemma MergeUpToStart(proofs: seq<StorageProof>, chunks: seq<Query>, original: Query)
    requires |proofs| == |chunks| && |proofs| > 0
    requires forall i :: 0 <= i < |chunks| ==> ChunkFits(chunks[i], original)
    ensures MergeUpTo(proofs, chunks, original, 0) == MergeStart(proofs[0].globalRoots, original)
  {
  }

  lemma MergeUpToStep(proofs: seq<StorageProof>, chunks: seq<Query>, original: Query, n: nat)
    requires |proofs| == |chunks| && n < |chunks|
    requires forall i :: 0 <= i < |chunks| ==> ChunkFits(chunks[i], original)
    ensures MergeUpTo(proofs, chunks, original, n + 1)
            == MergeChunk(MergeUpTo(proofs, chunks, original, n), chunks[n], proofs[n], original)
  {
  }

  method MergeStorageProofs(proofs: seq<StorageProof>, chunks: seq<Query>, original: Query)
    returns (merged: StorageProof)
    requires |proofs| == |chunks| && |proofs| > 0
    requires forall i :: 0 <= i < |chunks| ==> ChunkFits(chunks[i], original)
    ensures merged == Merged(proofs, chunks, original)
  {
    hide EntryIndex;
    hide MergeUpTo;
    MergeUpToStart(proofs, chunks, original);
    var addrToIdx := IndexAddresses(original.contractStorageKeys);
    merged := MergeStart(proofs[0].globalRoots, original);
    for c := 0 to |chunks|
      invariant |merged.contractsStorageProofs| == |original.contractStorageKeys|
      invariant merged == MergeUpTo(proofs, chunks, original, c)
    {
      var chunk, proof := chunks[c], proofs[c];
      var storageProofs := merged.contractsStorageProofs;
      for j := 0 to Min(|chunk.contractStorageKeys|, |proof.contractsStorageProofs|)
        invariant |storageProofs| == |original.contractStorageKeys|
        invariant storageProofs
                  == MergeEntries(merged.contractsStorageProofs, chunk, proof.contractsStorageProofs, original, j)
      {
        var i := addrToIdx[chunk.contractStorageKeys[j].contractAddress];
        storageProofs := storageProofs[i := storageProofs[i] + proof.contractsStorageProofs[j]];
      }
      merged := merged.(
        classesProof := merged.classesProof + proof.classesProof,
        contractsNodes := merged.contractsNodes + proof.contractsNodes,
        contractLeavesData := merged.contractLeavesData + proof.contractLeavesData,
        contractsStorageProofs := storageProofs);
      MergeUpToStep(proofs, chunks, original, c);
    }
  }

  // ------------------------------------------------------------------------
  // Splitting and merging preserves the reply
  // ------------------------------------------------------------------------

  /** The storage keys requested for one contract. */
  ghost function KeysOf(items: seq<QueryItem>, address: Felt): set<Felt> {
    set i | 0 <= i < |items| && items[i].StorageItem? && items[i].contractAddress == address :: items[i].key
  }

  /** What the merge must hold once exactly these items have been answered. */
  ghost function Answered(node: RpcNode, original: Query, items: seq<QueryItem>): StorageProof {
    var entries := original.contractStorageKeys;
    StorageProof(
      ClassNodes(node, Elements(ClassesOf(items))),
      ContractNodes(node, Elements(AddressesOf(items))),
      Leaves(node, AddressesOf(items)),
      AnsweredEntries(node, entries, items),
      node.roots)
  }

  ghost function AnsweredEntries(node: RpcNode, entries: seq<ContractStorageKeys>, items: seq<QueryItem>): (r: seq<NodeMap>)
    ensures |r| == |entries|
    ensures forall i :: 0 <= i < |entries| ==> r[i] == AnsweredEntry(node, entries, items, i)
  {
    seq(|entries|, i requires 0 <= i < |entries| => AnsweredEntry(node, entries, items, i))
  }

  ghost function AnsweredEntry(node: RpcNode, entries: seq<ContractStorageKeys>, items: seq<QueryItem>, i: nat): NodeMap
    requires i < |entries|
  {
    var address := entries[i].contractAddress;
    if EntryIndex(entries, address) == Some(i) then StorageNodes(node, address, KeysOf(items, address)) else map[]
  }

  lemma KeysOfConcat(a: seq<QueryItem>, b: seq<QueryItem>, address: Felt)
    ensures KeysOf(a + b, address) == KeysOf(a, address) + KeysOf(b, address)
  {
    var ab := a + b;
    forall k | k in KeysOf(a, address)
      ensures k in KeysOf(ab, address)
    {
      var i :| 0 <= i < |a| && a[i] == StorageItem(address, k);
      assert ab[i] == a[i];
    }
    forall k | k in KeysOf(b, address)
      ensures k in KeysOf(ab, address)
    {
      var i :| 0 <= i < |b| && b[i] == StorageItem(address, k);
      assert ab[|a| + i] == b[i];
    }
  }

  lemma KeysOfEntry(entry: ContractStorageKeys, address: Felt)
    ensures KeysOf(EntryItems(entry), address)
            == if entry.contractAddress == address then Elements(entry.storageKeys) else {}
  {
    forall k | k in entry.storageKeys && entry.contractAddress == address
      ensures k in KeysOf(EntryItems(entry), address)
    {
      var i :| 0 <= i < |entry.storageKeys| && entry.storageKeys[i] == k;
      assert EntryItems(entry)[i] == StorageItem(address, k);
    }
  }

  /** One more answered entry extends only the last entry of its address. */
  lemma AnsweredEntryStep(
    node: RpcNode, entries: seq<ContractStorageKeys>, items: seq<QueryItem>, entry: ContractStorageKeys, i: nat)
    requires i < |entries|
    ensures AnsweredEntry(node, entries, items + EntryItems(entry), i)
            == AnsweredEntry(node, entries, items, i)
               + if EntryIndex(entries, entry.contractAddress) == Some(i)
                 then StorageNodes(node, entry.contractAddress, Elements(entry.storageKeys)) else map[]
  {
    var address := entries[i].contractAddress;
    KeysOfConcat(items, EntryItems(entry), address);
    KeysOfEntry(entry, address);
    if address == entry.contractAddress {
      PathNodesUnion(KeysOf(items, address), Elements(entry.storageKeys),
        k => node.storagePath(address, k), node.storageNode);
    } else {
      assert KeysOf(items, address) + {} == KeysOf(items, address);
    }
  }

  lemma AnsweredEntriesStep(
    node: RpcNode, entries: seq<ContractStorageKeys>, items: seq<QueryItem>, entry: ContractStorageKeys)
    requires EntryIndex(entries, entry.contractAddress).Some?
    ensures var before := AnsweredEntries(node, entries, items);
            var last := EntryIndex(entries, entry.contractAddress).value;
            AnsweredEntries(node, entries, items + EntryItems(entry))
            == before[last := before[last] + StorageNodes(node, entry.contractAddress, Elements(entry.storageKeys))]
  {
    var before := AnsweredEntries(node, entries, items);
    var after := AnsweredEntries(node, entries, items + EntryItems(entry));
    var last := EntryIndex(entries, entry.contractAddress).value;
    forall i | 0 <= i < |entries|
      ensures i == last ==>
                after[i] == before[i] + StorageNodes(node, entry.contractAddress, Elements(entry.storageKeys))
      ensures i != last ==> after[i] == before[i]
    {
      AnsweredEntryStep(node, entries, items, entry, i);
      assert before[i] + map[] == before[i];
    }
  }

  /** Merging the first n entries of an honest chunk reply answers exactly those entries' items. */
  lemma {:induction false} MergeEntriesAnswers(node: RpcNode, done: seq<QueryItem>, chunk: Query, original: Query, n: nat)
    requires ChunkFits(chunk, original) && n <= |chunk.contractStorageKeys|
    ensures MergeEntries(AnsweredEntries(node, original.contractStorageKeys, done), chunk,
              Reply(node, chunk).contractsStorageProofs, original, n)
            == AnsweredEntries(node, original.contractStorageKeys, done + StorageItems(chunk.contractStorageKeys[..n]))
  {
    var entries := original.contractStorageKeys;
    if n == 0 {
      assert done + StorageItems([]) == done;
    } else {
      var entry := chunk.contractStorageKeys[n - 1];
      var items := done + StorageItems(chunk.contractStorageKeys[..n - 1]);
      MergeEntriesAnswers(node, done, chunk, original, n - 1);
      AnsweredEntriesStep(node, entries, items, entry);
      assert chunk.contractStorageKeys[..n][..n - 1] == chunk.contractStorageKeys[..n - 1];
      assert done + StorageItems(chunk.contractStorageKeys[..n]) == items + EntryItems(entry);
    }
  }

  lemma ElementsConcat(a: seq<Felt>, b: seq<Felt>)
    ensures Elements(a + b) == Elements(a) + Elements(b)
  {
  }

  /** Only storage items matter for an entry. */
  lemma AnsweredByStorageItems(
    node: RpcNode, entries: seq<ContractStorageKeys>, done: seq<QueryItem>, chunk: Query, i: nat)
    requires i < |entries|
    ensures AnsweredEntry(node, entries, done + StorageItems(chunk.contractStorageKeys), i)
            == AnsweredEntry(node, entries, done + Flatten(chunk), i)
  {
    var address := entries[i].contractAddress;
    KeysOfFlatten(chunk, address);
    KeysOfConcat(done, Flatten(chunk), address);
    KeysOfConcat(done, StorageItems(chunk.contractStorageKeys), address);
  }

  lemma MergeChunkHeads(node: RpcNode, done: seq<QueryItem>, chunk: Query)
    ensures var c, a := Elements(ClassesOf(done + Flatten(chunk))), Elements(AddressesOf(done + Flatten(chunk)));
            && ClassNodes(node, c)
               == ClassNodes(node, Elements(ClassesOf(done))) + ClassNodes(node, Elements(chunk.classHashes))
            && ContractNodes(node, a)
               == ContractNodes(node, Elements(AddressesOf(done)))
                  + ContractNodes(node, Elements(chunk.contractAddresses))
    ensures Leaves(node, AddressesOf(done + Flatten(chunk)))
            == Leaves(node, AddressesOf(done)) + Leaves(node, chunk.contractAddresses)
  {
    hide Flatten;
    hide ClassesOf;
    hide AddressesOf;
    hide Elements;
    hide PathNodes;
    PartsOfConcat(done, Flatten(chunk));
    FlattenParts(chunk);
    ElementsConcat(ClassesOf(done), chunk.classHashes);
    ElementsConcat(AddressesOf(done), chunk.contractAddresses);
    PathNodesUnion(Elements(ClassesOf(done)), Elements(chunk.classHashes), node.classPath, node.classNode);
    PathNodesUnion(Elements(AddressesOf(done)), Elements(chunk.contractAddresses), node.contractPath, node.contractNode);
  }

  lemma MergeChunkAnswers(node: RpcNode, done: seq<QueryItem>, chunk: Query, original: Query)
    requires ChunkFits(chunk, original)
    ensures MergeChunk(Answered(node, original, done), chunk, Reply(node, chunk), original)
            == Answered(node, original, done + Flatten(chunk))
  {
    var entries := chunk.contractStorageKeys;
    MergeChunkHeads(node, done, chunk);
    MergeEntriesAnswers(node, done, chunk, original, |entries|);
    assert entries[..|entries|] == entries;
    forall i | 0 <= i < |original.contractStorageKeys|
      ensures AnsweredEntry(node, original.contractStorageKeys, done + StorageItems(entries), i)
              == AnsweredEntry(node, original.contractStorageKeys, done + Flatten(chunk), i)
    {
      AnsweredByStorageItems(node, original.contractStorageKeys, done, chunk, i);
    }
    assert AnsweredEntries(node, original.contractStorageKeys, done + StorageItems(entries))
           == AnsweredEntries(node, original.contractStorageKeys, done + Flatten(chunk));
  }

  lemma KeysOfFlatten(q: Query, address: Felt)
    ensures KeysOf(Flatten(q), address) == KeysOf(StorageItems(q.contractStorageKeys), address)
  {
    var c, a, s := ClassItems(q.classHashes), AddressItems(q.contractAddresses), StorageItems(q.contractStorageKeys);
    KeysOfConcat(c + a, s, address);
    assert KeysOf(c + a, address) == {};
  }

  lemma {:induction false} StorageItemHasEntry(entries: seq<ContractStorageKeys>, item: QueryItem)
    requires item in StorageItems(entries)
    ensures item.StorageItem? && EntryIndex(entries, item.contractAddress).Some?
  {
    var front, last := entries[..|entries| - 1], entries[|entries| - 1];
    if item in StorageItems(front) {
      StorageItemHasEntry(front, item);
      var i := EntryIndex(front, item.contractAddress).value;
      assert entries[i].contractAddress == item.contractAddress;
    } else {
      assert item in EntryItems(last);
      assert entries[|entries| - 1].contractAddress == item.contractAddress;
    }
  }

  lemma ChunkEntryHasIndex(q: Query, chunk: seq<QueryItem>, j: nat)
    requires forall item :: item in chunk ==> item in Flatten(q)
    requires j < |Collect(chunk).contractStorageKeys|
    ensures EntryIndex(q.contractStorageKeys, Collect(chunk).contractStorageKeys[j].contractAddress).Some?
  {
    var entries := Collect(chunk).contractStorageKeys;
    CollectParts(chunk);
    EntryItemIn(entries, j);
    var item := EntryItems(entries[j])[0];
    StorageOfSubset(chunk, item);
    FlattenParts(q);
    StorageOfHolds(Flatten(q), item);
    StorageItemHasEntry(q.contractStorageKeys, item);
  }

  lemma {:induction false} StorageOfSubset(items: seq<QueryItem>, item: QueryItem)
    requires item in StorageOf(items)
    ensures item in items && item.StorageItem?
  {
    if item in StorageOf(items[..|items| - 1]) {
      StorageOfSubset(items[..|items| - 1], item);
    }
  }

  lemma {:induction false} StorageOfHolds(items: seq<QueryItem>, item: QueryItem)
    requires item in items && item.StorageItem?
    ensures item in StorageOf(items)
  {
    if item in items[..|items| - 1] {
      StorageOfHolds(items[..|items| - 1], item);
    } else {
      assert items[|items| - 1] == item;
    }
  }

  /** The lookup of a chunk's address in the original query cannot fail. */
  lemma SplitFits(q: Query, maxKeys: nat)
    requires maxKeys > 0
    ensures forall c :: 0 <= c < |Split(q, maxKeys)| ==> ChunkFits(Split(q, maxKeys)[c], q)
  {
    var items := Flatten(q);
    forall c | 0 <= c < |Split(q, maxKeys)|
      ensures ChunkFits(Split(q, maxKeys)[c], q)
    {
      var chunk := Chunks(items, maxKeys)[c];
      var lo, hi := ChunkIsSlice(items, maxKeys, c);
      forall j | 0 <= j < |Collect(chunk).contractStorageKeys|
        ensures EntryIndex(q.contractStorageKeys, Collect(chunk).contractStorageKeys[j].contractAddress).Some?
      {
        ChunkEntryHasIndex(q, chunk, j);
      }
    }
  }

  lemma {:induction false} EntryItemIn(entries: seq<ContractStorageKeys>, j: nat)
    requires j < |entries| && entries[j].storageKeys != []
    ensures EntryItems(entries[j])[0] in StorageItems(entries)
  {
    if j == |entries| - 1 {
    } else {
      EntryItemIn(entries[..|entries| - 1], j);
    }
  }

  lemma {:induction false} MergeUpToAnswers(node: RpcNode, q: Query, chunks: seq<Query>, n: nat)
    requires n <= |chunks| && |chunks| > 0
    requires forall i :: 0 <= i < |chunks| ==> ChunkFits(chunks[i], q)
    ensures MergeUpTo(Replies(node, chunks), chunks, q, n) == Answered(node, q, Concat(FlattenAll(chunks[..n])))
  {
    if n == 0 {
      forall i | 0 <= i < |q.contractStorageKeys|
        ensures AnsweredEntry(node, q.contractStorageKeys, [], i) == map[]
      {
        assert KeysOf([], q.contractStorageKeys[i].contractAddress) == {};
      }
      assert FlattenAll(chunks[..0]) == [];
    } else {
      MergeUpToAnswers(node, q, chunks, n - 1);
      MergeChunkAnswers(node, Concat(FlattenAll(chunks[..n - 1])), chunks[n - 1], q);
      assert Replies(node, chunks)[n - 1] == Reply(node, chunks[n - 1]);
      FlattenPrefix(chunks, n);
    }
  }

  lemma FlattenPrefix(chunks: seq<Query>, n: nat)
    requires 0 < n <= |chunks|
    ensures Concat(FlattenAll(chunks[..n])) == Concat(FlattenAll(chunks[..n - 1])) + Flatten(chunks[n - 1])
  {
    assert FlattenAll(chunks[..n]) == FlattenAll(chunks[..n - 1]) + [Flatten(chunks[n - 1])];
    ConcatSnoc(FlattenAll(chunks[..n - 1]), Flatten(chunks[n - 1]));
  }

  lemma {:induction false} ConcatSnoc<T>(parts: seq<seq<T>>, last: seq<T>)
    ensures Concat(parts + [last]) == Concat(parts) + last
  {
    if parts == [] {
      assert Concat([last]) == last + Concat([]);
    } else {
      ConcatSnoc(parts[1..], last);
      assert (parts + [last])[1..] == parts[1..] + [last];
    }
  }

  /** For every query and limit, the merged replies answer exactly the flattened keys: the whole reply, except
      that a repeated address has all its nodes at its last entry. */
  lemma MergeOfSplit(node: RpcNode, q: Query, maxKeys: nat)
    requires maxKeys > 0 && CountTotalKeys(q) > 0
    ensures |Split(q, maxKeys)| > 0
    ensures forall c :: 0 <= c < |Split(q, maxKeys)| ==> ChunkFits(Split(q, maxKeys)[c], q)
    ensures Merged(Replies(node, Split(q, maxKeys)), Split(q, maxKeys), q) == Answered(node, q, Flatten(q))
  {
    var chunks := Split(q, maxKeys);
    SplitFits(q, maxKeys);
    SplitConservesKeys(q, maxKeys);
    FlattenCount(q);
    assert Concat(FlattenAll(chunks)) != [];
    MergeUpToAnswers(node, q, chunks, |chunks|);
    assert chunks[..|chunks|] == chunks;
  }

  /** An entry whose address comes again later has no keys. Distinct addresses are the common case. */
  ghost predicate ShadowedEntriesEmpty(q: Query) {
    var entries := q.contractStorageKeys;
    forall i, j :: (0 <= i < j < |entries| && entries[i].contractAddress == entries[j].contractAddress) ==>
      entries[i].storageKeys == []
  }

  lemma {:induction false} KeysOfStorageItems(entries: seq<ContractStorageKeys>, address: Felt, i: nat)
    requires i < |entries| && entries[i].contractAddress == address
    requires forall j :: 0 <= j < |entries| && j != i && entries[j].contractAddress == address ==>
               entries[j].storageKeys == []
    ensures KeysOf(StorageItems(entries), address) == Elements(entries[i].storageKeys)
  {
    var front, last := entries[..|entries| - 1], entries[|entries| - 1];
    KeysOfConcat(StorageItems(front), EntryItems(last), address);
    KeysOfEntry(last, address);
    if i < |entries| - 1 {
      KeysOfStorageItems(front, address, i);
      assert Elements([]) == {};
    } else {
      NoKeys(front, address);
    }
  }

  lemma {:induction false} NoKeys(entries: seq<ContractStorageKeys>, address: Felt)
    requires forall j :: 0 <= j < |entries| && entries[j].contractAddress == address ==> entries[j].storageKeys == []
    ensures KeysOf(StorageItems(entries), address) == {}
  {
    if entries == [] {
    } else {
      var front, last := entries[..|entries| - 1], entries[|entries| - 1];
      NoKeys(front, address);
      KeysOfConcat(StorageItems(front), EntryItems(last), address);
      KeysOfEntry(last, address);
    }
  }

  /** Splitting, fetching and merging gives the reply to the whole query. */
  lemma SplitMergeIdentity(node: RpcNode, q: Query, maxKeys: nat)
    requires maxKeys > 0 && CountTotalKeys(q) > 0 && ShadowedEntriesEmpty(q)
    ensures |Split(q, maxKeys)| > 0
    ensures forall c :: 0 <= c < |Split(q, maxKeys)| ==> ChunkFits(Split(q, maxKeys)[c], q)
    ensures Merged(Replies(node, Split(q, maxKeys)), Split(q, maxKeys), q) == Reply(node, q)
  {
    MergeOfSplit(node, q, maxKeys);
    FlattenParts(q);
    var entries := q.contractStorageKeys;
    forall i | 0 <= i < |entries|
      ensures AnsweredEntry(node, entries, Flatten(q), i) == Reply(node, q).contractsStorageProofs[i]
    {
      var address := entries[i].contractAddress;
      KeysOfFlatten(q, address);
      if EntryIndex(entries, address) == Some(i) {
        KeysOfStorageItems(entries, address, i);
      } else {
        assert entries[i].storageKeys == [];
      }
    }
  }

  /** A node whose every storage path holds one node; it tells an empty key list from a non-empty one. */
  ghost function ProbeNode(): RpcNode {
    var node := BinaryNode(0, 0);
    RpcNode(_ => {}, _ => node, _ => {}, _ => node, _ => ContractLeafData(0, 0, None),
      (_, _) => {0}, _ => node, GlobalRoots(0, 0, 0))
  }

  lemma ProbeSeesKeys(address: Felt, keys: set<Felt>)
    requires keys != {}
    ensures StorageNodes(ProbeNode(), address, keys) != map[]
  {
    var node := ProbeNode();
    var path := (k: Felt) => node.storagePath(address, k);
    var k :| k in keys;
    assert 0 in path(k);
    assert 0 in PathNodes(keys, path, node.storageNode);
  }

  /** The exact condition: every honest node's split reply merges back into its whole reply if and only if no
      entry with keys is shadowed by a later entry of the same contract. */
  lemma SplitMergeExact(q: Query, maxKeys: nat)
    requires maxKeys > 0 && CountTotalKeys(q) > 0
    ensures |Split(q, maxKeys)| > 0
    ensures forall c :: 0 <= c < |Split(q, maxKeys)| ==> ChunkFits(Split(q, maxKeys)[c], q)
    ensures (forall node: RpcNode ::
               Merged(Replies(node, Split(q, maxKeys)), Split(q, maxKeys), q) == Reply(node, q))
            <==> ShadowedEntriesEmpty(q)
  {
    MergeOfSplit(ProbeNode(), q, maxKeys);
    if ShadowedEntriesEmpty(q) {
      forall node: RpcNode
        ensures Merged(Replies(node, Split(q, maxKeys)), Split(q, maxKeys), q) == Reply(node, q)
      {
        SplitMergeIdentity(node, q, maxKeys);
      }
    } else {
      var entries := q.contractStorageKeys;
      var i, j :| 0 <= i < j < |entries|
        && entries[i].contractAddress == entries[j].contractAddress && entries[i].storageKeys != [];
      var node := ProbeNode();
      assert EntryIndex(entries, entries[i].contractAddress) != Some(i);
      assert Answered(node, q, Flatten(q)).contractsStorageProofs[i] == map[];
      assert entries[i].storageKeys[0] in Elements(entries[i].storageKeys);
      ProbeSeesKeys(entries[i].contractAddress, Elements(entries[i].storageKeys));
      assert Reply(node, q).contractsStorageProofs[i] != map[];
      assert Merged(Replies(node, Split(q, maxKeys)), Split(q, maxKeys), q) != Reply(node, q);
    }
  }

  /** A query where the merge loses nodes: both entries are of one contract, and the first one's stay empty. */
  lemma MergeLosesShadowedKeys()
    ensures |Split(TWIN_ENTRIES, 1)| > 0
    ensures forall c :: 0 <= c < |Split(TWIN_ENTRIES, 1)| ==> ChunkFits(Split(TWIN_ENTRIES, 1)[c], TWIN_ENTRIES)
    ensures Merged(Replies(ProbeNode(), Split(TWIN_ENTRIES, 1)), Split(TWIN_ENTRIES, 1), TWIN_ENTRIES)
            != Reply(ProbeNode(), TWIN_ENTRIES)
  {
    var node, q := ProbeNode(), TWIN_ENTRIES;
    var entries := q.contractStorageKeys;
    assert CountStorageKeys(entries) >= |entries[1].storageKeys|;
    MergeOfSplit(node, q, 1);
    assert EntryIndex(entries, 1) == Some(1);
    assert Answered(node, q, Flatten(q)).contractsStorageProofs[0] == map[];
    assert 2 in Elements(entries[0].storageKeys);
    ProbeSeesKeys(1, Elements(entries[0].storageKeys));
    assert Reply(node, q).contractsStorageProofs[0] != map[];
  }
}
