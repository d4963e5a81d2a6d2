/** From the reads of an execution to the storage proofs handed to the OS: preparing the query, fetching it within
    the per-request limit, and pairing each address with its own leaf and storage trie. */
module ProofProvider {
  import opened Felts
  import opened Merkle
  import opened StorageQueries
  import opened StorageProofs
  import opened CachedState

  /** The height of every state trie. */
  const TREE_HEIGHT: nat := 251

  datatype ProviderError =
    | RpcError
    | LeavesLengthMismatch
    | StorageProofsLengthMismatch
    | InvalidContractAddress(address: Felt)
    | AddressNotQueried(address: Felt)

  // ------------------------------------------------------------------------
  // Preparing the query
  // ------------------------------------------------------------------------

  ghost predicate StrictlySorted(s: seq<ContractAddress>) {
    forall i, j :: 0 <= i < j < |s| ==> s[i] < s[j]
  }

  ghost predicate NoDuplicates(s: seq<Felt>) {
    forall i, j :: 0 <= i < j < |s| ==> s[i] != s[j]
  }

  /** What the rest of the pipeline relies on: sorted distinct addresses, one storage entry per address at the same
      position, and every read key listed exactly once. */
  ghost predicate Prepared(q: Query, initialReads: StateMaps, executedClasses: set<Felt>) {
    && NoDuplicates(q.classHashes) && Elements(q.classHashes) == executedClasses
    && StrictlySorted(q.contractAddresses) && Elements(q.contractAddresses) == ContractAddresses(initialReads)
    && |q.contractStorageKeys| == |q.contractAddresses|
    && forall i :: 0 <= i < |q.contractStorageKeys| ==>
         && q.contractStorageKeys[i].contractAddress == q.contractAddresses[i]
         && NoDuplicates(q.contractStorageKeys[i].storageKeys)
         && Elements(q.contractStorageKeys[i].storageKeys) == StorageKeysOf(initialReads, q.contractAddresses[i])
  }

  function InsertSorted(s: seq<ContractAddress>, a: ContractAddress): seq<ContractAddress> {
    if s == [] || s[|s| - 1] < a then s + [a]
    else InsertSorted(s[..|s| - 1], a) + [s[|s| - 1]]
  }

  ghost predicate AllBelow(elements: set<Felt>, bound: Felt) {
    forall x :: x in elements ==> x < bound
  }

  lemma ElementsSnoc(s: seq<ContractAddress>, a: ContractAddress)
    ensures Elements(s + [a]) == Elements(s) + {a}
  {
  }

  lemma SortedSnoc(s: seq<ContractAddress>, a: ContractAddress)
    requires StrictlySorted(s) && AllBelow(Elements(s), a)
    ensures StrictlySorted(s + [a])
  {
    forall i | 0 <= i < |s|
      ensures s[i] < a
    {
      assert s[i] in Elements(s);
    }
  }

  lemma SortedFront(s: seq<ContractAddress>)
    requires StrictlySorted(s) && s != []
    ensures StrictlySorted(s[..|s| - 1])
    ensures AllBelow(Elements(s[..|s| - 1]), s[|s| - 1])
    ensures Elements(s) == Elements(s[..|s| - 1]) + {s[|s| - 1]}
  {
    assert s == s[..|s| - 1] + [s[|s| - 1]];
  }

  lemma {:induction false} InsertSortedFacts(s: seq<ContractAddress>, a: ContractAddress)
    requires StrictlySorted(s) && a !in Elements(s)
    ensures StrictlySorted(InsertSorted(s, a)) && Elements(InsertSorted(s, a)) == Elements(s) + {a}
  {
    hide StrictlySorted;
    hide Elements;
    if s == [] {
      assert InsertSorted(s, a) == [] + [a];
      ElementsSnoc([], a);
      NothingBefore(a);
    } else {
      var front, last := s[..|s| - 1], s[|s| - 1];
      SortedFront(s);
      if last < a {
        ElementsSnoc(s, a);
        SortedSnoc(s, a);
      } else {
        InsertSortedFacts(front, a);
        ElementsSnoc(InsertSorted(front, a), last);
        SortedSnoc(InsertSorted(front, a), last);
      }
    }
  }

  lemma NothingBefore(a: ContractAddress)
    ensures StrictlySorted([] + [a])
  {
  }

  method SortAddresses(addresses: set<ContractAddress>) returns (sorted: seq<ContractAddress>)
    ensures StrictlySorted(sorted) && Elements(sorted) == addresses
  {
    sorted := [];
    var rest := addresses;
    while rest != {}
      invariant rest <= addresses && StrictlySorted(sorted) && Elements(sorted) == addresses - rest
      decreases rest
    {
      var a :| a in rest;
      InsertSortedFacts(sorted, a);
      sorted := InsertSorted(sorted, a);
      rest := rest - {a};
    }
  }

  method ListHashes(hashes: set<Felt>) returns (list: seq<Felt>)
    ensures NoDuplicates(list) && Elements(list) == hashes
  {
    list := [];
    var rest := hashes;
    while rest != {}
      invariant rest <= hashes && NoDuplicates(list) && Elements(list) == hashes - rest
      decreases rest
    {
      var h :| h in rest;
      ElementsConcat(list, [h]);
      list := list + [h];
      rest := rest - {h};
    }
  }

  /** Groups the read keys by contract, in whatever order the storage map yields them. */
  method GroupByAddress(initialReads: StateMaps) returns (groups: map<ContractAddress, seq<Felt>>)
    ensures forall a: ContractAddress :: a in groups <==> StorageKeysOf(initialReads, a) != {}
    ensures forall a :: a in groups ==> NoDuplicates(groups[a]) && Elements(groups[a]) == StorageKeysOf(initialReads, a)
  {
    groups := map[];
    var rest := initialReads.storage.Keys;
    while rest != {}
      invariant rest <= initialReads.storage.Keys
      invariant forall a :: a in groups ==> NoDuplicates(groups[a])
      invariant forall a :: a in groups ==> groups[a] != []
      invariant forall a, k :: (a in groups && k in groups[a]) <==> (a, k) in initialReads.storage.Keys - rest
      decreases rest
    {
      var entry :| entry in rest;
      var before := if entry.0 in groups then groups[entry.0] else [];
      groups := groups[entry.0 := before + [entry.1]];
      rest := rest - {entry};
    }
    forall a: ContractAddress
      ensures a in groups <==> StorageKeysOf(initialReads, a) != {}
      ensures a in groups ==> Elements(groups[a]) == StorageKeysOf(initialReads, a)
    {
      assert forall k :: k in StorageKeysOf(initialReads, a) <==> (a, k) in initialReads.storage.Keys;
      if a in groups {
        assert forall k :: k in groups[a] <==> (a, k) in initialReads.storage.Keys;
        assert groups[a][0] in StorageKeysOf(initialReads, a);
      } else {
        assert forall k :: (a, k) !in initialReads.storage.Keys - rest;
      }
    }
  }

  method PrepareQuery(initialReads: StateMaps, executedClasses: set<Felt>) returns (q: Query)
    ensures Prepared(q, initialReads, executedClasses)
    ensures forall a: ContractAddress :: a in q.contractAddresses <==> WasRead(initialReads, a)
    ensures forall i :: 0 <= i < |q.contractStorageKeys| ==>
              forall k: Felt :: k in q.contractStorageKeys[i].storageKeys <==> (q.contractAddresses[i], k) in initialReads.storage
  {
    var classHashes := ListHashes(executedClasses);
    var addresses := SortAddresses(ContractAddresses(initialReads));
    var groups := GroupByAddress(initialReads);
    var entries: seq<ContractStorageKeys> := [];
    for i := 0 to |addresses|
      invariant |entries| == i
      invariant forall j :: 0 <= j < i ==> entries[j].contractAddress == addresses[j]
      invariant forall j :: 0 <= j < i ==> NoDuplicates(entries[j].storageKeys)
                                           && Elements(entries[j].storageKeys) == StorageKeysOf(initialReads, addresses[j])
    {
      var keys := if addresses[i] in groups then groups[addresses[i]] else [];
      assert Elements([]) == {};
      entries := entries + [ContractStorageKeys(addresses[i], keys)];
    }
    q := Query(classHashes, addresses, entries);
    PreparedMeaning(q, initialReads, executedClasses);
    hide Prepared;
    hide WasRead;
  }

  lemma PreparedMeaning(q: Query, initialReads: StateMaps, executedClasses: set<Felt>)
    requires Prepared(q, initialReads, executedClasses)
    ensures forall a: ContractAddress :: a in q.contractAddresses <==> WasRead(initialReads, a)
    ensures forall i :: 0 <= i < |q.contractStorageKeys| ==>
              forall k: Felt :: k in q.contractStorageKeys[i].storageKeys <==> (q.contractAddresses[i], k) in initialReads.storage
  {
    forall a: ContractAddress
      ensures a in q.contractAddresses <==> WasRead(initialReads, a)
    {
      ReadsMeaning(initialReads, a);
      assert a in q.contractAddresses <==> a in Elements(q.contractAddresses);
    }
    forall i | 0 <= i < |q.contractStorageKeys|
      ensures forall k: Felt :: k in q.contractStorageKeys[i].storageKeys <==> (q.contractAddresses[i], k) in initialReads.storage
    {
      ReadsMeaning(initialReads, q.contractAddresses[i]);
      assert forall k: Felt :: k in q.contractStorageKeys[i].storageKeys <==> k in Elements(q.contractStorageKeys[i].storageKeys);
    }
  }

  /** A prepared query has no shadowed entries, so merging its split replies is lossless. */
  lemma PreparedNotShadowed(q: Query, initialReads: StateMaps, executedClasses: set<Felt>)
    requires Prepared(q, initialReads, executedClasses)
    ensures ShadowedEntriesEmpty(q)
  {
  }

  // ------------------------------------------------------------------------
  // Fetching
  // ------------------------------------------------------------------------

  /** The requests sent for a query. */
  function Requests(q: Query, maxKeys: nat): seq<Query>
    requires maxKeys > 0
  {
    if CountTotalKeys(q) <= maxKeys then [q] else Split(q, maxKeys)
  }

  /** Together the requests ask for every key of the query, once and in order, and each is within the limit. */
  lemma RequestsConserveKeys(q: Query, maxKeys: nat)
    requires maxKeys > 0
    ensures Concat(FlattenAll(Requests(q, maxKeys))) == Flatten(q)
    ensures forall i :: 0 <= i < |Requests(q, maxKeys)| ==> CountTotalKeys(Requests(q, maxKeys)[i]) <= maxKeys
  {
    if CountTotalKeys(q) <= maxKeys {
      assert FlattenAll([q]) == [Flatten(q)];
      assert Concat([Flatten(q)]) == Flatten(q) + Concat([]);
    } else {
      SplitConservesKeys(q, maxKeys);
    }
  }

  /** Fetches in one request when the query fits and in chunks otherwise. The node answers honestly or not at all
      (`answers` says which requests it serves); any failed request fails the fetch. */
  method FetchProofs(node: RpcNode, answers: Query -> bool, q: Query, maxKeys: nat)
    returns (r: Result<StorageProof, ProviderError>)
    requires maxKeys > 0
    ensures r.Ok? <==> forall i :: 0 <= i < |Requests(q, maxKeys)| ==> answers(Requests(q, maxKeys)[i])
    ensures r.Err? ==> r.error == RpcError
    ensures r.Ok? && CountTotalKeys(q) > maxKeys ==> r.value == Answered(node, q, Flatten(q))
    ensures r.Ok? && (CountTotalKeys(q) <= maxKeys || ShadowedEntriesEmpty(q)) ==> r.value == Reply(node, q)
  {
    if CountTotalKeys(q) <= maxKeys {
      if !answers(q) {
        assert !answers(Requests(q, maxKeys)[0]);
        return Err(RpcError);
      }
      return Ok(Reply(node, q));
    }
    var chunks := Split(q, maxKeys);
    var proofs: seq<StorageProof> := [];
    for i := 0 to |chunks|
      invariant |proofs| == i
      invariant forall j :: 0 <= j < i ==> answers(chunks[j]) && proofs[j] == Reply(node, chunks[j])
    {
      if !answers(chunks[i]) {
        assert !answers(Requests(q, maxKeys)[i]);
        return Err(RpcError);
      }
      proofs := proofs + [Reply(node, chunks[i])];
    }
    MergeOfSplit(node, q, maxKeys);
    assert proofs == Replies(node, chunks);
    var merged := MergeStorageProofs(proofs, chunks, q);
    if ShadowedEntriesEmpty(q) {
      SplitMergeIdentity(node, q, maxKeys);
    }
    return Ok(merged);
  }

  // ------------------------------------------------------------------------
  // Commitment infos
  // ------------------------------------------------------------------------

  datatype CommitmentInfo = CommitmentInfo(
    previousRoot: Felt, updatedRoot: Felt, treeHeight: nat, commitmentFacts: NodeMap)

  datatype CommitmentInfos = CommitmentInfos(
    contractsTrie: CommitmentInfo,
    classesTrie: CommitmentInfo,
    storageTries: map<ContractAddress, CommitmentInfo>)

  datatype ProvedReads = ProvedReads(extendedInitialReads: StateMaps, commitmentInfos: CommitmentInfos)

  function UnchangedTrie(root: Felt, facts: NodeMap): CommitmentInfo {
    CommitmentInfo(root, root, TREE_HEIGHT, facts)
  }

  function StorageRoot(leaf: ContractLeafData): Felt {
    if leaf.storageRoot.Some? then leaf.storageRoot.value else ZERO
  }

  /** Pairs addresses with leaves in order; a later pair of the same address wins. */
  function LeafMap(addresses: seq<ContractAddress>, leaves: seq<ContractLeafData>): map<ContractAddress, ContractLeafData> {
    if addresses == [] || leaves == [] then map[]
    else
      var rest := LeafMap(addresses[1..], leaves[1..]);
      if addresses[0] in rest then rest else rest[addresses[0] := leaves[0]]
  }

  function EntryInfo(entry: ContractStorageKeys, facts: NodeMap, leaves: map<ContractAddress, ContractLeafData>)
    : Result<(ContractAddress, CommitmentInfo), ProviderError>
  {
    var address := entry.contractAddress;
    if address >= ADDRESS_BOUND then Err(InvalidContractAddress(address))
    else if address !in leaves then Err(AddressNotQueried(address))
    else Ok((address, UnchangedTrie(StorageRoot(leaves[address]), facts)))
  }

  /** The infos of the first n entries, or the first error among them. */
  function EntryInfos(
    entries: seq<ContractStorageKeys>, facts: seq<NodeMap>, leaves: map<ContractAddress, ContractLeafData>, n: nat)
    : Result<map<ContractAddress, CommitmentInfo>, ProviderError>
    requires n <= |entries| == |facts|
  {
    if n == 0 then Ok(map[])
    else
      match EntryInfos(entries, facts, leaves, n - 1)
      case Err(e) => Err(e)
      case Ok(infos) =>
        match EntryInfo(entries[n - 1], facts[n - 1], leaves)
        case Err(e) => Err(e)
        case Ok((address, info)) => Ok(infos[address := info])
  }

  function BuildStorageCommitmentInfos(proof: StorageProof, q: Query)
    : Result<map<ContractAddress, CommitmentInfo>, ProviderError>
  {
    if |proof.contractsStorageProofs| != |q.contractStorageKeys| then Err(StorageProofsLengthMismatch)
    else
      EntryInfos(q.contractStorageKeys, proof.contractsStorageProofs,
        LeafMap(q.contractAddresses, proof.contractLeavesData), |q.contractStorageKeys|)
  }

  /** The address is among those that have a leaf at their position. */
  ghost predicate HasLeaf(addresses: seq<ContractAddress>, leaves: seq<ContractLeafData>, a: Felt) {
    exists j :: 0 <= j < |addresses| && j < |leaves| && addresses[j] == a
  }

  lemma {:induction false} LeafMapKeys(addresses: seq<ContractAddress>, leaves: seq<ContractLeafData>, a: ContractAddress)
    ensures a in LeafMap(addresses, leaves) <==> HasLeaf(addresses, leaves, a)
  {
    if addresses == [] || leaves == [] {
    } else {
      LeafMapKeys(addresses[1..], leaves[1..], a);
      if HasLeaf(addresses, leaves, a) && addresses[0] != a {
        var j :| 0 <= j < |addresses| && j < |leaves| && addresses[j] == a;
        assert addresses[1..][j - 1] == a;
      }
      if HasLeaf(addresses[1..], leaves[1..], a) {
        var j :| 0 <= j < |addresses[1..]| && j < |leaves[1..]| && addresses[1..][j] == a;
        assert addresses[j + 1] == a;
      }
    }
  }

  lemma {:induction false} EntryInfosExactly(
    entries: seq<ContractStorageKeys>, facts: seq<NodeMap>, leaves: map<ContractAddress, ContractLeafData>, n: nat)
    requires n <= |entries| == |facts|
    ensures EntryInfos(entries, facts, leaves, n).Ok?
            <==> forall i :: 0 <= i < n ==> entries[i].contractAddress < ADDRESS_BOUND && entries[i].contractAddress in leaves
    ensures EntryInfos(entries, facts, leaves, n).Err? ==>
              exists i :: 0 <= i < n
                          && EntryInfos(entries, facts, leaves, n).error
                             == (if entries[i].contractAddress >= ADDRESS_BOUND then InvalidContractAddress(entries[i].contractAddress)
                                 else AddressNotQueried(entries[i].contractAddress))
                          && !(entries[i].contractAddress < ADDRESS_BOUND && entries[i].contractAddress in leaves)
                          && forall j :: 0 <= j < i ==>
                               entries[j].contractAddress < ADDRESS_BOUND && entries[j].contractAddress in leaves
  {
    if n == 0 {
    } else {
      EntryInfosExactly(entries, facts, leaves, n - 1);
    }
  }

  /** For any reply and query, honest or not: the infos are built exactly when there is one storage proof per entry and
      each entry's address is valid and has a leaf; the length is checked first. */
  lemma InfosBuiltExactly(proof: StorageProof, q: Query)
    ensures var r := BuildStorageCommitmentInfos(proof, q);
            && (r == Err(StorageProofsLengthMismatch) <==> |proof.contractsStorageProofs| != |q.contractStorageKeys|)
            && (r.Ok? <==>
                  && |proof.contractsStorageProofs| == |q.contractStorageKeys|
                  && forall i :: 0 <= i < |q.contractStorageKeys| ==>
                       && q.contractStorageKeys[i].contractAddress < ADDRESS_BOUND
                       && HasLeaf(q.contractAddresses, proof.contractLeavesData, q.contractStorageKeys[i].contractAddress))
  {
    var leaves := LeafMap(q.contractAddresses, proof.contractLeavesData);
    forall a: ContractAddress
      ensures a in leaves <==> HasLeaf(q.contractAddresses, proof.contractLeavesData, a)
    {
      LeafMapKeys(q.contractAddresses, proof.contractLeavesData, a);
    }
    if |proof.contractsStorageProofs| == |q.contractStorageKeys| {
      EntryInfosExactly(q.contractStorageKeys, proof.contractsStorageProofs, leaves, |q.contractStorageKeys|);
    }
    hide LeafMap;
    hide HasLeaf;
    hide EntryInfos;
  }

  lemma {:induction false} LeafMapOfSorted(node: RpcNode, addresses: seq<ContractAddress>)
    requires StrictlySorted(addresses)
    ensures LeafMap(addresses, Leaves(node, addresses)).Keys == set a | a in addresses
    ensures forall a :: a in addresses ==> LeafMap(addresses, Leaves(node, addresses))[a] == node.leaf(a)
  {
    if addresses == [] {
    } else {
      var rest := addresses[1..];
      LeafMapOfSorted(node, rest);
      assert Leaves(node, addresses)[1..] == Leaves(node, rest);
      assert forall a :: a in addresses <==> a == addresses[0] || a in rest;
      assert addresses[0] !in rest;
    }
  }

  // ------------------------------------------------------------------------
  // End to end, for the configuration without state changes
  // ------------------------------------------------------------------------

  function ProvenStorageTrie(node: RpcNode, initialReads: StateMaps, a: ContractAddress): CommitmentInfo {
    UnchangedTrie(StorageRoot(node.leaf(a)), StorageNodes(node, a, StorageKeysOf(initialReads, a)))
  }

  /** What the OS should get: every address with its own leaf and the nodes of exactly its own read keys. */
  function Proven(node: RpcNode, initialReads: StateMaps, executedClasses: set<Felt>): ProvedReads {
    var addresses := ContractAddresses(initialReads);
    ProvedReads(
      StateMaps(NoncesOf(node, addresses), ClassHashesOf(node, addresses), initialReads.storage, map[], map[]),
      CommitmentInfos(
        UnchangedTrie(node.roots.contractsTreeRoot, ContractNodes(node, addresses)),
        UnchangedTrie(node.roots.classesTreeRoot, ClassNodes(node, executedClasses)),
        TriesOf(node, initialReads, addresses)))
  }

  function TriesOf(node: RpcNode, initialReads: StateMaps, addresses: set<ContractAddress>)
    : map<ContractAddress, CommitmentInfo>
  {
    map a | a in addresses :: ProvenStorageTrie(node, initialReads, a)
  }

  function AddressSet(addresses: seq<ContractAddress>): set<ContractAddress> {
    set a | a in addresses
  }

  lemma {:induction false} EntryInfosProven(
    node: RpcNode, initialReads: StateMaps, addresses: seq<ContractAddress>, entries: seq<ContractStorageKeys>,
    facts: seq<NodeMap>, leaves: map<ContractAddress, ContractLeafData>, n: nat)
    requires n <= |addresses| == |entries| == |facts|
    requires forall i :: 0 <= i < |entries| ==> entries[i].contractAddress == addresses[i]
    requires forall i :: 0 <= i < |entries| ==>
               facts[i] == StorageNodes(node, addresses[i], StorageKeysOf(initialReads, addresses[i]))
    requires forall i :: 0 <= i < |addresses| ==> addresses[i] in leaves && leaves[addresses[i]] == node.leaf(addresses[i])
    ensures EntryInfos(entries, facts, leaves, n) == Ok(TriesOf(node, initialReads, AddressSet(addresses[..n])))
  {
    if n == 0 {
    } else {
      var a := addresses[n - 1];
      EntryInfosProven(node, initialReads, addresses, entries, facts, leaves, n - 1);
      assert EntryInfo(entries[n - 1], facts[n - 1], leaves) == Ok((a, ProvenStorageTrie(node, initialReads, a)));
      assert AddressSet(addresses[..n]) == AddressSet(addresses[..n - 1]) + {a};
      assert TriesOf(node, initialReads, AddressSet(addresses[..n]))
             == TriesOf(node, initialReads, AddressSet(addresses[..n - 1]))[a := ProvenStorageTrie(node, initialReads, a)];
    }
  }

  /** Address, entry and nodes of a prepared query's reply are aligned. */
  lemma PreparedAligned(node: RpcNode, q: Query, initialReads: StateMaps, executedClasses: set<Felt>)
    requires Prepared(q, initialReads, executedClasses)
    ensures |q.contractAddresses| == |q.contractStorageKeys| == |Reply(node, q).contractsStorageProofs|
    ensures forall i :: 0 <= i < |q.contractStorageKeys| ==>
              && q.contractStorageKeys[i].contractAddress == q.contractAddresses[i]
              && Reply(node, q).contractsStorageProofs[i]
                 == StorageNodes(node, q.contractAddresses[i], StorageKeysOf(initialReads, q.contractAddresses[i]))
  {
    hide StorageNodes;
    hide StorageKeysOf;
  }

  // What the OS is handed, part by part.

  ghost predicate RootKept(info: CommitmentInfo, root: Felt) {
    info.previousRoot == root && info.updatedRoot == root && info.treeHeight == 251
  }

  /** The contracts trie: the nodes on the paths of exactly the contracts that were read. */
  ghost predicate ContractsProved(node: RpcNode, initialReads: StateMaps, info: CommitmentInfo) {
    && RootKept(info, node.roots.contractsTreeRoot)
    && (forall h: Felt :: h in info.commitmentFacts
          <==> exists a: ContractAddress :: WasRead(initialReads, a) && h in node.contractPath(a))
    && (forall h :: h in info.commitmentFacts ==> info.commitmentFacts[h] == node.contractNode(h))
  }

  /** The classes trie: the nodes on the paths of exactly the executed classes. */
  ghost predicate ClassesProved(node: RpcNode, executedClasses: set<Felt>, info: CommitmentInfo) {
    && RootKept(info, node.roots.classesTreeRoot)
    && (forall h: Felt :: h in info.commitmentFacts <==> exists c :: c in executedClasses && h in node.classPath(c))
    && (forall h :: h in info.commitmentFacts ==> info.commitmentFacts[h] == node.classNode(h))
  }

  /** A contract's storage trie: its own leaf's root, zero if it has none, and the nodes on the paths of exactly the keys
      that were read from it. */
  ghost predicate StorageProved(node: RpcNode, initialReads: StateMaps, a: ContractAddress, info: CommitmentInfo) {
    && RootKept(info, match node.leaf(a).storageRoot case Some(root) => root case None => 0)
    && (forall h: Felt :: h in info.commitmentFacts
          <==> exists k: Felt :: (a, k) in initialReads.storage && h in node.storagePath(a, k))
    && (forall h :: h in info.commitmentFacts ==> info.commitmentFacts[h] == node.storageNode(h))
  }

  ghost predicate TriesProved(node: RpcNode, initialReads: StateMaps, tries: map<ContractAddress, CommitmentInfo>) {
    && (forall a: ContractAddress :: a in tries <==> WasRead(initialReads, a))
    && (forall a :: a in tries ==> StorageProved(node, initialReads, a, tries[a]))
  }

  /** The extended reads: each read contract's own nonce and class hash, and the storage as it was read. */
  ghost predicate ReadsExtended(node: RpcNode, initialReads: StateMaps, extended: StateMaps) {
    && (forall a: ContractAddress :: a in extended.nonces <==> WasRead(initialReads, a))
    && (forall a: ContractAddress :: a in extended.classHashes <==> WasRead(initialReads, a))
    && (forall a :: a in extended.nonces ==> extended.nonces[a] == node.leaf(a).nonce)
    && (forall a :: a in extended.classHashes ==> extended.classHashes[a] == node.leaf(a).classHash)
    && extended.storage == initialReads.storage
    && extended.compiledClassHashes == map[] && extended.declaredContracts == map[]
  }

  ghost predicate HandedOver(node: RpcNode, initialReads: StateMaps, executedClasses: set<Felt>, proved: ProvedReads) {
    && ContractsProved(node, initialReads, proved.commitmentInfos.contractsTrie)
    && ClassesProved(node, executedClasses, proved.commitmentInfos.classesTrie)
    && TriesProved(node, initialReads, proved.commitmentInfos.storageTries)
    && ReadsExtended(node, initialReads, proved.extendedInitialReads)
  }

  lemma StorageNodesMeaning(node: RpcNode, a: Felt, keys: set<Felt>)
    ensures forall h :: h in StorageNodes(node, a, keys) <==> exists k :: k in keys && h in node.storagePath(a, k)
    ensures forall h :: h in StorageNodes(node, a, keys) ==> StorageNodes(node, a, keys)[h] == node.storageNode(h)
  {
    var path := (k: Felt) => node.storagePath(a, k);
    forall h, k | k in keys && h in node.storagePath(a, k)
      ensures h in StorageNodes(node, a, keys)
    {
      assert h in path(k);
    }
  }

  lemma StorageIsProved(node: RpcNode, initialReads: StateMaps, a: ContractAddress)
    ensures StorageProved(node, initialReads, a, ProvenStorageTrie(node, initialReads, a))
  {
    var keys := StorageKeysOf(initialReads, a);
    var info := ProvenStorageTrie(node, initialReads, a);
    ReadsMeaning(initialReads, a);
    StorageNodesMeaning(node, a, keys);
    assert info.commitmentFacts == StorageNodes(node, a, keys);
    hide StorageKeysOf;
    hide StorageNodes;
    forall h: Felt
      ensures h in info.commitmentFacts <==> exists k: Felt :: (a, k) in initialReads.storage && h in node.storagePath(a, k)
    {
      if h in info.commitmentFacts {
        var k :| k in keys && h in node.storagePath(a, k);
        assert (a, k) in initialReads.storage;
      }
    }
  }

  lemma TriesOfProved(node: RpcNode, initialReads: StateMaps)
    ensures TriesProved(node, initialReads, TriesOf(node, initialReads, ContractAddresses(initialReads)))
  {
    var tries := TriesOf(node, initialReads, ContractAddresses(initialReads));
    forall a: ContractAddress
      ensures a in tries <==> WasRead(initialReads, a)
      ensures a in tries ==> StorageProved(node, initialReads, a, tries[a])
    {
      ReadsMeaning(initialReads, a);
      StorageIsProved(node, initialReads, a);
      hide ContractAddresses;
      hide ProvenStorageTrie;
    }
  }

  lemma ContractsAreProved(node: RpcNode, initialReads: StateMaps)
    ensures ContractsProved(node, initialReads,
              UnchangedTrie(node.roots.contractsTreeRoot, ContractNodes(node, ContractAddresses(initialReads))))
  {
    forall a: ContractAddress
      ensures a in ContractAddresses(initialReads) <==> WasRead(initialReads, a)
    {
      ReadsMeaning(initialReads, a);
    }
    hide ContractAddresses;
    hide WasRead;
  }

  lemma ExtensionIsRight(node: RpcNode, initialReads: StateMaps)
    ensures var addresses := ContractAddresses(initialReads);
            ReadsExtended(node, initialReads,
              StateMaps(NoncesOf(node, addresses), ClassHashesOf(node, addresses), initialReads.storage, map[], map[]))
  {
    forall a: ContractAddress
      ensures a in ContractAddresses(initialReads) <==> WasRead(initialReads, a)
    {
      ReadsMeaning(initialReads, a);
    }
    hide ContractAddresses;
    hide WasRead;
  }

  /** Each part of what is proven is the right one. */
  lemma ProvenIsHandedOver(node: RpcNode, initialReads: StateMaps, executedClasses: set<Felt>)
    ensures HandedOver(node, initialReads, executedClasses, Proven(node, initialReads, executedClasses))
  {
    TriesOfProved(node, initialReads);
    ContractsAreProved(node, initialReads);
    ExtensionIsRight(node, initialReads);
    hide ContractAddresses;
    hide WasRead;
    hide TriesProved;
    hide ContractsProved;
    hide ReadsExtended;
  }

  /** With a prepared query and its honest reply, building the infos cannot fail and pairs every contract with its
      own leaf's storage root. */
  lemma CommitmentInfosProven(node: RpcNode, q: Query, initialReads: StateMaps, executedClasses: set<Felt>)
    requires Prepared(q, initialReads, executedClasses)
    ensures BuildStorageCommitmentInfos(Reply(node, q), q)
            == Ok(TriesOf(node, initialReads, ContractAddresses(initialReads)))
    ensures TriesProved(node, initialReads, BuildStorageCommitmentInfos(Reply(node, q), q).value)
  {
    hide TriesProved;
    hide WasRead;
    var proof, addresses := Reply(node, q), q.contractAddresses;
    assert proof.contractLeavesData == Leaves(node, addresses) && StrictlySorted(addresses);
    PreparedAligned(node, q, initialReads, executedClasses);
    PreparedAddresses(q, initialReads, executedClasses);
    hide Reply;
    hide Prepared;
    hide LeafMap;
    hide EntryInfos;
    hide StorageNodes;
    hide StorageKeysOf;
    hide ContractAddresses;
    hide AddressSet;
    hide TriesOf;
    LeafMapOfSorted(node, addresses);
    EntryInfosProven(node, initialReads, addresses, q.contractStorageKeys, proof.contractsStorageProofs,
      LeafMap(addresses, proof.contractLeavesData), |addresses|);
    assert addresses[..|addresses|] == addresses;
    TriesOfProved(node, initialReads);
  }

  lemma PreparedAddresses(q: Query, initialReads: StateMaps, executedClasses: set<Felt>)
    requires Prepared(q, initialReads, executedClasses)
    ensures AddressSet(q.contractAddresses) == ContractAddresses(initialReads)
  {
    assert forall a :: a in q.contractAddresses <==> a in Elements(q.contractAddresses);
  }

  function NoncesOf(node: RpcNode, addresses: set<ContractAddress>): map<ContractAddress, Felt> {
    map a | a in addresses :: node.leaf(a).nonce
  }

  function ClassHashesOf(node: RpcNode, addresses: set<ContractAddress>): map<ContractAddress, Felt> {
    map a | a in addresses :: node.leaf(a).classHash
  }

  /** The last place of an address. */
  ghost predicate LastPlace(addresses: seq<ContractAddress>, i: nat) {
    i < |addresses| && forall j :: i < j < |addresses| ==> addresses[j] != addresses[i]
  }

  /** Each address has the values of its last leaf, and there are no others. */
  ghost predicate Paired(
    addresses: seq<ContractAddress>, leaves: seq<ContractLeafData>,
    nonces: map<ContractAddress, Felt>, classHashes: map<ContractAddress, Felt>)
    requires |leaves| == |addresses|
  {
    && nonces.Keys == AddressSet(addresses) && classHashes.Keys == AddressSet(addresses)
    && forall i: nat :: LastPlace(addresses, i) ==>
         && addresses[i] in nonces && nonces[addresses[i]] == leaves[i].nonce
         && addresses[i] in classHashes && classHashes[addresses[i]] == leaves[i].classHash
  }

  lemma PairedNothing()
    ensures Paired([], [], map[], map[])
  {
  }

  lemma PairedStep(
    addresses: seq<ContractAddress>, leaves: seq<ContractLeafData>,
    nonces: map<ContractAddress, Felt>, classHashes: map<ContractAddress, Felt>, a: ContractAddress, leaf: ContractLeafData)
    requires |leaves| == |addresses| && Paired(addresses, leaves, nonces, classHashes)
    ensures Paired(addresses + [a], leaves + [leaf], nonces[a := leaf.nonce], classHashes[a := leaf.classHash])
  {
    var more := addresses + [a];
    assert AddressSet(more) == AddressSet(addresses) + {a};
    forall i: nat | i < |addresses| && LastPlace(more, i)
      ensures LastPlace(addresses, i) && addresses[i] != a
    {
      assert more[|addresses|] == a;
      assert forall j :: i < j < |addresses| ==> more[j] == addresses[j];
    }
  }

  /** Extends the reads with class hashes and nonces, pairing leaves and addresses in order; for a repeated address the
      last leaf counts. */
  method ExtendReads(addresses: seq<ContractAddress>, leaves: seq<ContractLeafData>, initialReads: StateMaps)
    returns (extended: StateMaps)
    requires |leaves| == |addresses|
    ensures Paired(addresses, leaves, extended.nonces, extended.classHashes)
    ensures extended.storage == initialReads.storage
    ensures extended.compiledClassHashes == map[] && extended.declaredContracts == map[]
  {
    hide Paired;
    hide LastPlace;
    hide AddressSet;
    var nonces: map<ContractAddress, Felt>, classHashes: map<ContractAddress, Felt> := map[], map[];
    PairedNothing();
    assert addresses[..0] == [] && leaves[..0] == [];
    for i := 0 to |addresses|
      invariant Paired(addresses[..i], leaves[..i], nonces, classHashes)
    {
      var a, leaf := addresses[i], leaves[i];
      PairedStep(addresses[..i], leaves[..i], nonces, classHashes, a, leaf);
      assert addresses[..i + 1] == addresses[..i] + [a] && leaves[..i + 1] == leaves[..i] + [leaf];
      classHashes := classHashes[a := leaf.classHash];
      nonces := nonces[a := leaf.nonce];
    }
    assert addresses[..|addresses|] == addresses && leaves[..|leaves|] == leaves;
    extended := EMPTY_STATE.(nonces := nonces, classHashes := classHashes);
    extended := extended.(storage := extended.storage + initialReads.storage);
  }

  /** With sorted addresses and honest leaves each address gets its own. */
  lemma PairedWithOwn(
    node: RpcNode, addresses: seq<ContractAddress>, nonces: map<ContractAddress, Felt>, classHashes: map<ContractAddress, Felt>)
    requires StrictlySorted(addresses) && Paired(addresses, Leaves(node, addresses), nonces, classHashes)
    ensures nonces == NoncesOf(node, AddressSet(addresses)) && classHashes == ClassHashesOf(node, AddressSet(addresses))
  {
    forall a | a in addresses
      ensures nonces[a] == node.leaf(a).nonce && classHashes[a] == node.leaf(a).classHash
    {
      var i: nat :| i < |addresses| && addresses[i] == a;
      assert LastPlace(addresses, i);
    }
  }

  /** The whole pipeline. Its result does not mention the limit: any `maxKeys >= 1` gives the same proofs. */
  method GetStorageProofs(
    node: RpcNode, answers: Query -> bool, initialReads: StateMaps, executedClasses: set<Felt>, maxKeys: nat)
    returns (r: Result<ProvedReads, ProviderError>)
    requires maxKeys > 0
    ensures r.Ok? ==> HandedOver(node, initialReads, executedClasses, r.value)
    ensures r == Ok(Proven(node, initialReads, executedClasses)) || r == Err(RpcError)
    ensures exists q :: Prepared(q, initialReads, executedClasses)
                        && (r.Ok? <==> forall i :: 0 <= i < |Requests(q, maxKeys)| ==> answers(Requests(q, maxKeys)[i]))
  {
    var q := PrepareQuery(initialReads, executedClasses);
    PreparedNotShadowed(q, initialReads, executedClasses);
    var fetched := FetchProofs(node, answers, q, maxKeys);
    if fetched.Err? {
      return Err(fetched.error);
    }
    var proof := fetched.value;
    if |proof.contractLeavesData| != |q.contractAddresses| {
      return Err(LeavesLengthMismatch);
    }
    var extended := ExtendReads(q.contractAddresses, proof.contractLeavesData, initialReads);
    PairedWithOwn(node, q.contractAddresses, extended.nonces, extended.classHashes);
    PreparedAddresses(q, initialReads, executedClasses);
    CommitmentInfosProven(node, q, initialReads, executedClasses);
    ProvenIsHandedOver(node, initialReads, executedClasses);
    hide HandedOver;
    match BuildStorageCommitmentInfos(proof, q) {
      case Err(e) =>
        return Err(e);
      case Ok(storageTries) =>
        var infos := CommitmentInfos(
          UnchangedTrie(proof.globalRoots.contractsTreeRoot, proof.contractsNodes),
          UnchangedTrie(proof.globalRoots.classesTreeRoot, proof.classesProof),
          storageTries);
        return Ok(ProvedReads(extended, infos));
    }
  }
}
