/** The whole way of an execution with state changes: fetch the proofs of its reads, build the facts database from them,
    and commit its writes to the storage tries and to the contracts trie. */
module Pipeline {
  import opened Felts
  import opened Merkle
  import opened Patricia
  import opened PatriciaUpdate
  import opened StorageQueries
  import opened StorageProofs
  import opened CachedState
  import opened ProofProvider
  import opened FactsDb
  import opened Commit
  import opened Signing

  datatype TrieHashes = TrieHashes(storage: Hasher, contracts: Hasher, leaves: LeafHashes)

  /** What the tries of the node's block hold. */
  datatype Chain = Chain(storage: ContractAddress -> Contents, contracts: Contents)

  datatype NewRoots = NewRoots(storage: map<ContractAddress, Felt>, contracts: Felt)

  datatype PipelineError = Provider(reason: ProviderError) | InvalidStateDiff(diffError: DiffError) | BlockCommitment(dbError: DbError)

  // ------------------------------------------------------------------------
  // What an honest node guarantees
  // ------------------------------------------------------------------------

  ghost predicate RootOf(h: Hasher, root: Felt, contents: Contents) {
    && KeysHaveLength(contents, TREE_HEIGHT)
    && NonZero(h, Build(TREE_HEIGHT, contents))
    && root == Hash(h, Build(TREE_HEIGHT, contents))
  }

  /** The roots are those of the block's tries, and the nodes returned for one key prove that key. */
  ghost predicate Honest(node: RpcNode, hashes: TrieHashes, chain: Chain) {
    && RootOf(hashes.contracts, node.roots.contractsTreeRoot, chain.contracts)
    && (forall a: ContractAddress ::
          Proves(ContractNodes(node, {a}), hashes.contracts, Build(TREE_HEIGHT, chain.contracts), ToBits(a, TREE_HEIGHT)))
    && (forall a: ContractAddress :: RootOf(hashes.storage, StorageRoot(node.leaf(a)), chain.storage(a)))
    && (forall a: ContractAddress, k: Felt :: k < ADDRESS_BOUND ==>
          Proves(StorageNodes(node, a, {k}), hashes.storage, Build(TREE_HEIGHT, chain.storage(a)), ToBits(k, TREE_HEIGHT)))
  }

  /** Where the node lists this hash, in whichever trie, it lists this Merkle node. */
  ghost predicate Lists(node: RpcNode, hash: Felt, listed: MerkleNode) {
    && (forall k: Felt :: hash in node.classPath(k) ==> node.classNode(hash) == listed)
    && (forall a: Felt :: hash in node.contractPath(a) ==> node.contractNode(hash) == listed)
    && (forall a: Felt, k: Felt :: hash in node.storagePath(a, k) ==> node.storageNode(hash) == listed)
  }

  ghost predicate ListsInner(node: RpcNode, h: Hasher, t: Trie) {
    && (Inner(t) ==> Lists(node, Hash(h, t), NodeOf(h, t)))
    && match t
       case Empty => true
       case Leaf(_) => true
       case Binary(left, right) => ListsInner(node, h, left) && ListsInner(node, h, right)
       case Edge(_, bottom) => ListsInner(node, h, bottom)
  }

  /** The hash of a binary node or an edge of one of the block's tries stands for that node wherever it is listed.
      Nothing is asked of leaves: a stored value may be any felt, also the hash of some node. */
  ghost predicate OneNodePerHash(node: RpcNode, hashes: TrieHashes, chain: Chain) {
    && ListsInner(node, hashes.contracts, Build(TREE_HEIGHT, chain.contracts))
    && (forall a: ContractAddress :: ListsInner(node, hashes.storage, Build(TREE_HEIGHT, chain.storage(a))))
  }

  // ------------------------------------------------------------------------
  // What the commit must give
  // ------------------------------------------------------------------------

  function Modified(diff: StateDiff): set<ContractAddress> {
    diff.storageUpdates.Keys + diff.addressToNonce.Keys
  }

  ghost function NewContents(chain: Chain, diff: StateDiff, a: ContractAddress): Contents
    requires a in diff.storageUpdates
  {
    chain.storage(a) + Writes(diff.storageUpdates[a], TREE_HEIGHT)
  }

  ghost function NewStorageRoots(hashes: TrieHashes, chain: Chain, diff: StateDiff): map<ContractAddress, Felt> {
    map a | a in diff.storageUpdates :: Hash(hashes.storage, Build(TREE_HEIGHT, NewContents(chain, diff, a)))
  }

  /** A written contract's new leaf: its class hash stays, nonce and storage root may be new. */
  function NewState(leaf: ContractLeafData, diff: StateDiff, a: ContractAddress, storageRoots: map<ContractAddress, Felt>)
    : ContractState
  {
    ContractState(
      if a in diff.addressToNonce then diff.addressToNonce[a] else leaf.nonce,
      leaf.classHash,
      if a in storageRoots then storageRoots[a] else StorageRoot(leaf))
  }

  function NewLeafHashes(
    hashes: TrieHashes, leaf: ContractAddress -> ContractLeafData, diff: StateDiff, storageRoots: map<ContractAddress, Felt>)
    : map<Felt, Felt>
  {
    map a | a in Modified(diff) :: hashes.leaves.contract(NewState(leaf(a), diff, a, storageRoots))
  }

  function LeavesOf(node: RpcNode): ContractAddress -> ContractLeafData {
    (a: ContractAddress) => node.leaf(a)
  }

  /** The roots of the canonical tries after the writes. */
  ghost function Committed(node: RpcNode, hashes: TrieHashes, chain: Chain, diff: StateDiff): NewRoots {
    var roots := NewStorageRoots(hashes, chain, diff);
    var writes := Writes(NewLeafHashes(hashes, LeavesOf(node), diff, roots), TREE_HEIGHT);
    NewRoots(roots, Hash(hashes.contracts, Build(TREE_HEIGHT, chain.contracts + writes)))
  }

  /** The diffs that the virtual OS does not support. */
  ghost predicate Unsupported(stateDiff: StateMaps) {
    || (exists e :: e in stateDiff.storage && stateDiff.storage[e] == ZERO)
    || stateDiff.classHashes != map[]
    || stateDiff.compiledClassHashes != map[]
  }

  /** No written contract's new leaf hashes to zero, the mark of a deletion. */
  ghost predicate NewLeavesStay(node: RpcNode, hashes: TrieHashes, chain: Chain, stateDiff: StateMaps) {
    var diff := ToCommitterStateDiff(stateDiff);
    var newLeaves := NewLeafHashes(hashes, LeavesOf(node), diff, NewStorageRoots(hashes, chain, diff));
    forall a :: a in newLeaves ==> newLeaves[a] != ZERO
  }

  // The same, read off the state diff itself.

  ghost predicate StorageWritten(stateDiff: StateMaps, a: ContractAddress) {
    exists k :: (a, k) in stateDiff.storage
  }

  ghost predicate Written(stateDiff: StateMaps, a: ContractAddress) {
    a in stateDiff.nonces || StorageWritten(stateDiff, a)
  }

  /** The old contents with the contract's storage writes laid over them. */
  ghost predicate Overlaid(contents: Contents, old': Contents, stateDiff: StateMaps, a: ContractAddress) {
    && (forall k: Felt :: (a, k) in stateDiff.storage ==>
          ToBits(k, 251) in contents && contents[ToBits(k, 251)] == stateDiff.storage[(a, k)])
    && (forall b :: b in old' ==> b in contents)
    && (forall b :: b in contents ==>
          || (b in old' && contents[b] == old'[b])
          || (exists k: Felt :: (a, k) in stateDiff.storage && b == ToBits(k, 251)))
  }

  /** A written contract's leaf after the diff: the written nonce or its old one, its old class hash, and the new storage
      root or its old one, zero if it had none. */
  ghost function LeafAfter(node: RpcNode, hashes: TrieHashes, stateDiff: StateMaps, storage: map<ContractAddress, Felt>,
                           a: ContractAddress): Felt {
    hashes.leaves.contract(ContractState(
      if a in stateDiff.nonces then stateDiff.nonces[a] else node.leaf(a).nonce,
      node.leaf(a).classHash,
      if a in storage then storage[a] else match node.leaf(a).storageRoot case Some(root) => root case None => 0))
  }

  /** The leaf writes: one for each written contract and no other. */
  ghost predicate LeavesWritten(
    w: Contents, node: RpcNode, hashes: TrieHashes, stateDiff: StateMaps, storage: map<ContractAddress, Felt>)
  {
    && (forall a: ContractAddress :: Written(stateDiff, a) ==>
          ToBits(a, 251) in w && w[ToBits(a, 251)] == LeafAfter(node, hashes, stateDiff, storage, a))
    && (forall b :: b in w ==> exists a: ContractAddress :: Written(stateDiff, a) && b == ToBits(a, 251))
  }

  /** Exactly the contracts with storage writes have a new storage root, that of the canonical trie of their storage with
      the writes; and the contracts root is that of the canonical trie with the written contracts' new leaves. */
  ghost predicate Settled(node: RpcNode, hashes: TrieHashes, chain: Chain, stateDiff: StateMaps, roots: NewRoots) {
    && (forall a: ContractAddress :: a in roots.storage <==> StorageWritten(stateDiff, a))
    && (forall a :: a in roots.storage ==>
          exists contents :: Overlaid(contents, chain.storage(a), stateDiff, a)
                             && roots.storage[a] == Hash(hashes.storage, Build(251, contents)))
    && (exists w :: LeavesWritten(w, node, hashes, stateDiff, roots.storage)
                    && roots.contracts == Hash(hashes.contracts, Build(251, chain.contracts + w)))
  }

  /** Storage keys are Patricia keys, and an execution has read what it writes. */
  ghost predicate WritesWereRead(initialReads: StateMaps, stateDiff: StateMaps) {
    && (forall e :: e in stateDiff.storage ==> e in initialReads.storage && e.1 < ADDRESS_BOUND)
    && (forall a :: a in stateDiff.nonces ==> a in ContractAddresses(initialReads))
  }

  // ------------------------------------------------------------------------
  // From honest replies to the conditions of the commit
  // ------------------------------------------------------------------------

  lemma HeightFits()
    ensures Pow(2, TREE_HEIGHT) == ADDRESS_BOUND
  {
    PowersOfTwo();
    assert Pow(2, 27) == 0x800_0000 by {
      assert Pow(2, 9) == 0x200;
      PowSum(2, 9, 9);
      PowSum(2, 18, 9);
    }
    hide Pow;
    PowSum(2, 64, 64);
    assert Pow(2, 128) == TWO128;
    PowSum(2, 128, 64);
    assert Pow(2, 192) == TWO192;
    PowSum(2, 192, 32);
    assert Pow(2, 224) == TWO192 * 0x1_0000_0000;
    PowSum(2, 224, 27);
  }

  /** More nodes prove no less. */
  lemma {:induction false} ProvesMore(nodes: NodeMap, more: NodeMap, h: Hasher, t: Trie, key: Bits)
    requires forall x :: x in nodes ==> x in more && more[x] == nodes[x]
    requires Proves(nodes, h, t, key)
    ensures Proves(more, h, t, key)
    decreases t
  {
    match t
    case Empty =>
    case Leaf(_) =>
    case Binary(left, right) =>
      if key == [] {
      } else {
        ProvesMore(nodes, more, h, if key[0] then right else left, key[1..]);
      }
    case Edge(path, bottom) =>
      if path <= key {
        ProvesMore(nodes, more, h, bottom, key[|path|..]);
      }
  }

  /** The nodes for a set of keys include those for each of them. */
  lemma PathNodesMore(keys: set<Felt>, k: Felt, path: Felt -> set<Felt>, node: Felt -> MerkleNode)
    requires k in keys
    ensures forall x :: x in PathNodes({k}, path, node) ==>
              x in PathNodes(keys, path, node) && PathNodes(keys, path, node)[x] == PathNodes({k}, path, node)[x]
  {
  }

  /** A union of proofs that agrees with the trie proves whatever its parts prove. */
  lemma {:induction false} ProvesInUnion(nodes: NodeMap, union: NodeMap, h: Hasher, t: Trie, key: Bits)
    requires nodes.Keys <= union.Keys && TrueNodes(union, h, t)
    requires Proves(nodes, h, t, key)
    ensures Proves(union, h, t, key)
    decreases t
  {
    assert Inner(t) ==> Hash(h, t) in nodes.Keys;
    match t
    case Empty =>
    case Leaf(_) =>
    case Binary(left, right) =>
      if key == [] {
      } else {
        ProvesInUnion(nodes, union, h, if key[0] then right else left, key[1..]);
      }
    case Edge(path, bottom) =>
      if path <= key {
        ProvesInUnion(nodes, union, h, bottom, key[|path|..]);
      }
  }

  lemma BatchKeys(batches: seq<NodeMap>, i: nat)
    requires i < |batches|
    ensures batches[i].Keys <= AllNodes(batches).Keys
  {
    forall x | x in batches[i]
      ensures x in AllNodes(batches)
    {
      NodesUpToMember(batches, |batches|, x);
    }
  }

  lemma BatchLists(node: RpcNode, q: Query, i: nat, hash: Felt, listed: MerkleNode)
    requires Lists(node, hash, listed)
    requires i < |Batches(Reply(node, q))| && hash in Batches(Reply(node, q))[i]
    ensures Batches(Reply(node, q))[i][hash] == listed
  {
    var reply, batches := Reply(node, q), Batches(Reply(node, q));
    if i >= 2 {
      assert batches[i] == reply.contractsStorageProofs[i - 2];
    }
  }

  /** An honest reply has the trie's own node under the hash of each of its inner nodes. */
  lemma {:induction false} ReplyIsTrue(node: RpcNode, h: Hasher, q: Query, t: Trie)
    requires ListsInner(node, h, t)
    ensures TrueNodes(AllNodes(Batches(Reply(node, q))), h, t)
    decreases t
  {
    var batches := Batches(Reply(node, q));
    hide Lists;
    hide Reply;
    hide Batches;
    if Inner(t) && Hash(h, t) in AllNodes(batches) {
      NodesUpToMember(batches, |batches|, Hash(h, t));
      var i :| 0 <= i < |batches| && Hash(h, t) in batches[i] && AllNodes(batches)[Hash(h, t)] == batches[i][Hash(h, t)];
      BatchLists(node, q, i, Hash(h, t), NodeOf(h, t));
    }
    match t
    case Empty =>
    case Leaf(_) =>
    case Binary(left, right) =>
      ReplyIsTrue(node, h, q, left);
      ReplyIsTrue(node, h, q, right);
    case Edge(_, bottom) =>
      ReplyIsTrue(node, h, q, bottom);
  }

  lemma PlaceOf(q: Query, initialReads: StateMaps, executedClasses: set<Felt>, a: ContractAddress) returns (i: nat)
    requires Prepared(q, initialReads, executedClasses) && a in ContractAddresses(initialReads)
    ensures i < |q.contractAddresses| && q.contractAddresses[i] == a
  {
    PreparedAddresses(q, initialReads, executedClasses);
    hide ContractAddresses;
    assert a in AddressSet(q.contractAddresses);
    i :| 0 <= i < |q.contractAddresses| && q.contractAddresses[i] == a;
  }

  /** The database of an honest reply. */
  ghost predicate HonestFacts(
    node: RpcNode, q: Query, entries: Entries, db: NodeMap, leaves: set<(DbKey, DbValue)>)
  {
    var batches := Batches(Reply(node, q));
    InnerNodesOf(db, entries) && Facts(entries, AllNodes(batches), OrphansUpTo(batches, |batches|), leaves)
  }

  lemma UpdatesNotEmpty(stateDiff: StateMaps, a: ContractAddress)
    requires a in ToCommitterStateDiff(stateDiff).storageUpdates
    ensures ToCommitterStateDiff(stateDiff).storageUpdates[a] != map[]
  {
    var e :| e in stateDiff.storage && e.0 == a;
    DiffKeepsUpdates(stateDiff, a, e.1, stateDiff.storage[e]);
    assert e.1 in ToCommitterStateDiff(stateDiff).storageUpdates[a];
  }

  /** The reply's nodes for a contract prove each of its read keys. */
  lemma ReadKeysProved(
    node: RpcNode, hashes: TrieHashes, chain: Chain, a: ContractAddress, keys: set<Felt>, k: Felt)
    requires Honest(node, hashes, chain) && k in keys && k < ADDRESS_BOUND
    ensures Proves(StorageNodes(node, a, keys), hashes.storage, Build(TREE_HEIGHT, chain.storage(a)), ToBits(k, TREE_HEIGHT))
  {
    hide Build;
    hide Proves;
    hide RootOf;
    PathNodesMore(keys, k, k' => node.storagePath(a, k'), node.storageNode);
    ProvesMore(StorageNodes(node, a, {k}), StorageNodes(node, a, keys), hashes.storage,
      Build(TREE_HEIGHT, chain.storage(a)), ToBits(k, TREE_HEIGHT));
  }

  /** The whole reply proves each key that was read from a contract. */
  lemma ReplyProvesKey(
    node: RpcNode, hashes: TrieHashes, chain: Chain, q: Query, initialReads: StateMaps, executedClasses: set<Felt>,
    a: ContractAddress, k: Felt)
    requires Honest(node, hashes, chain) && OneNodePerHash(node, hashes, chain)
    requires Prepared(q, initialReads, executedClasses) && a in ContractAddresses(initialReads)
    requires k in StorageKeysOf(initialReads, a) && k < ADDRESS_BOUND
    ensures Proves(AllNodes(Batches(Reply(node, q))), hashes.storage, Build(TREE_HEIGHT, chain.storage(a)),
              ToBits(k, TREE_HEIGHT))
  {
    hide *;
    var batches, t := Batches(Reply(node, q)), Build(TREE_HEIGHT, chain.storage(a));
    var own := OwnBatch(node, q, initialReads, executedClasses, a);
    StorageListed(node, hashes, chain, a);
    ReplyIsTrue(node, hashes.storage, q, t);
    BatchKeys(batches, own);
    ReadKeysProved(node, hashes, chain, a, StorageKeysOf(initialReads, a), k);
    ProvesInUnion(batches[own], AllNodes(batches), hashes.storage, t, ToBits(k, TREE_HEIGHT));
  }

  lemma StorageListed(node: RpcNode, hashes: TrieHashes, chain: Chain, a: ContractAddress)
    requires OneNodePerHash(node, hashes, chain)
    ensures ListsInner(node, hashes.storage, Build(TREE_HEIGHT, chain.storage(a)))
  {
    hide ListsInner;
    hide Build;
  }

  /** A contract's own batch of the reply. */
  lemma OwnBatch(node: RpcNode, q: Query, initialReads: StateMaps, executedClasses: set<Felt>, a: ContractAddress)
    returns (own: nat)
    requires Prepared(q, initialReads, executedClasses) && a in ContractAddresses(initialReads)
    ensures own < |Batches(Reply(node, q))|
    ensures Batches(Reply(node, q))[own] == StorageNodes(node, a, StorageKeysOf(initialReads, a))
  {
    hide *;
    var i := PlaceOf(q, initialReads, executedClasses, a);
    own := 2 + i;
    PreparedAligned(node, q, initialReads, executedClasses);
    StorageBatch(Reply(node, q), i);
  }

  lemma StorageBatch(proof: StorageProof, i: nat)
    requires i < |proof.contractsStorageProofs|
    ensures 2 + i < |Batches(proof)| && Batches(proof)[2 + i] == proof.contractsStorageProofs[i]
  {
  }

  lemma UpdatesWereRead(initialReads: StateMaps, stateDiff: StateMaps, a: ContractAddress)
    requires WritesWereRead(initialReads, stateDiff)
    requires a in ToCommitterStateDiff(stateDiff).storageUpdates
    ensures var updates := ToCommitterStateDiff(stateDiff).storageUpdates[a];
            updates != map[] && forall k :: k in updates ==> k < ADDRESS_BOUND && k in StorageKeysOf(initialReads, a)
    ensures a in ContractAddresses(initialReads)
  {
    var updates := ToCommitterStateDiff(stateDiff).storageUpdates[a];
    UpdatesNotEmpty(stateDiff, a);
    forall k | k in updates
      ensures k < ADDRESS_BOUND && k in StorageKeysOf(initialReads, a) && a in ContractAddresses(initialReads)
    {
      DiffKeepsUpdates(stateDiff, a, k, updates[k]);
      assert (a, k) in initialReads.storage && (a, k).0 == a && (a, k).1 == k;
    }
    var someKey :| someKey in updates;
  }

  /** Each written contract's storage trie gets its canonical new root. */
  lemma StorageCommitted(
    node: RpcNode, hashes: TrieHashes, chain: Chain, q: Query, initialReads: StateMaps, executedClasses: set<Felt>,
    stateDiff: StateMaps, entries: Entries, db: NodeMap, leaves: set<(DbKey, DbValue)>, a: ContractAddress)
    requires Honest(node, hashes, chain) && OneNodePerHash(node, hashes, chain)
    requires Prepared(q, initialReads, executedClasses) && HonestFacts(node, q, entries, db, leaves)
    requires WritesWereRead(initialReads, stateDiff) && !HasDeletion(ToCommitterStateDiff(stateDiff))
    requires a in ToCommitterStateDiff(stateDiff).storageUpdates
    ensures var diff := ToCommitterStateDiff(stateDiff);
            UpdateRoot(db, hashes.storage, StorageRoot(node.leaf(a)), TREE_HEIGHT, Writes(diff.storageUpdates[a], TREE_HEIGHT))
            == Ok(NewStorageRoots(hashes, chain, diff)[a])
  {
    hide Build;
    hide UpdateRoot;
    hide Proves;
    hide TrueNodes;
    hide ListsInner;
    hide AllNodes;
    hide NonZero;
    hide Hash;
    hide Facts;
    hide Writes;
    hide ToCommitterStateDiff;
    hide Prepared;
    hide HasDeletion;
    hide WritesWereRead;
    hide InnerNodesOf;
    hide StorageKeysOf;
    hide ContractAddresses;
    var diff, batches := ToCommitterStateDiff(stateDiff), Batches(Reply(node, q));
    HeightFits();
    UpdatesWereRead(initialReads, stateDiff, a);
    ReplyIsTrue(node, hashes.storage, q, Build(TREE_HEIGHT, chain.storage(a)));
    forall k | k in diff.storageUpdates[a]
      ensures Proves(AllNodes(batches), hashes.storage, Build(TREE_HEIGHT, chain.storage(a)), ToBits(k, TREE_HEIGHT))
    {
      ReplyProvesKey(node, hashes, chain, q, initialReads, executedClasses, a, k);
    }
    CommitOverFacts(entries, db, batches, leaves, hashes.storage, diff, a, TREE_HEIGHT, chain.storage(a));
  }

  /** The reply's nodes for the contracts trie prove each queried address. */
  lemma AddressesProved(node: RpcNode, hashes: TrieHashes, chain: Chain, addresses: set<Felt>, a: ContractAddress)
    requires Honest(node, hashes, chain) && a in addresses
    ensures Proves(ContractNodes(node, addresses), hashes.contracts, Build(TREE_HEIGHT, chain.contracts), ToBits(a, TREE_HEIGHT))
  {
    hide Build;
    hide Proves;
    hide RootOf;
    PathNodesMore(addresses, a, node.contractPath, node.contractNode);
    ProvesMore(ContractNodes(node, {a}), ContractNodes(node, addresses), hashes.contracts,
      Build(TREE_HEIGHT, chain.contracts), ToBits(a, TREE_HEIGHT));
  }

  /** New leaves are insertions whose paths the reply proves. */
  lemma LeafWritesProved(
    node: RpcNode, hashes: TrieHashes, chain: Chain, addresses: set<Felt>, newLeaves: map<Felt, Felt>)
    requires Honest(node, hashes, chain)
    requires newLeaves != map[] && forall a :: a in newLeaves ==> newLeaves[a] != ZERO && a < ADDRESS_BOUND && a in addresses
    ensures var writes := Writes(newLeaves, TREE_HEIGHT);
            && KeysHaveLength(writes, TREE_HEIGHT) && writes != map[] && NoDeletions(writes)
            && forall b :: b in writes ==>
              Proves(ContractNodes(node, addresses), hashes.contracts, Build(TREE_HEIGHT, chain.contracts), b)
  {
    hide Build;
    hide Proves;
    hide Honest;
    hide Writes;
    hide ContractNodes;
    var writes := Writes(newLeaves, TREE_HEIGHT);
    HeightFits();
    WritesMeaning(newLeaves, TREE_HEIGHT);
    var some :| some in newLeaves;
    assert ToBits(some, TREE_HEIGHT) in writes;
    forall b | b in writes
      ensures writes[b] != ZERO
      ensures Proves(ContractNodes(node, addresses), hashes.contracts, Build(TREE_HEIGHT, chain.contracts), b)
    {
      var a: ContractAddress :| a in newLeaves && b == ToBits(a, TREE_HEIGHT);
      AddressesProved(node, hashes, chain, addresses, a);
    }
  }

  /** The whole reply proves the paths of the new leaves. */
  lemma ReplyProvesLeaf(
    node: RpcNode, hashes: TrieHashes, chain: Chain, q: Query, b: Bits)
    requires OneNodePerHash(node, hashes, chain)
    requires Proves(ContractNodes(node, Elements(q.contractAddresses)), hashes.contracts, Build(TREE_HEIGHT, chain.contracts), b)
    ensures Proves(AllNodes(Batches(Reply(node, q))), hashes.contracts, Build(TREE_HEIGHT, chain.contracts), b)
  {
    var batches := Batches(Reply(node, q));
    assert batches[0] == ContractNodes(node, Elements(q.contractAddresses));
    ReplyIsTrue(node, hashes.contracts, q, Build(TREE_HEIGHT, chain.contracts));
    hide *;
    BatchKeys(batches, 0);
    ProvesInUnion(batches[0], AllNodes(batches), hashes.contracts, Build(TREE_HEIGHT, chain.contracts), b);
  }

  /** The contracts trie gets its canonical new root. */
  lemma ContractsCommitted(
    node: RpcNode, hashes: TrieHashes, chain: Chain, q: Query, initialReads: StateMaps, executedClasses: set<Felt>,
    entries: Entries, db: NodeMap, leaves: set<(DbKey, DbValue)>, newLeaves: map<Felt, Felt>)
    requires Honest(node, hashes, chain) && OneNodePerHash(node, hashes, chain)
    requires Prepared(q, initialReads, executedClasses) && HonestFacts(node, q, entries, db, leaves)
    requires newLeaves != map[] && forall a :: a in newLeaves ==> newLeaves[a] != ZERO
    requires forall a :: a in newLeaves ==> a < ADDRESS_BOUND && a in ContractAddresses(initialReads)
    ensures UpdateRoot(db, hashes.contracts, node.roots.contractsTreeRoot, TREE_HEIGHT, Writes(newLeaves, TREE_HEIGHT))
            == Ok(Hash(hashes.contracts, Build(TREE_HEIGHT, chain.contracts + Writes(newLeaves, TREE_HEIGHT))))
  {
    hide Build;
    hide UpdateRoot;
    hide Proves;
    hide TrueNodes;
    hide ListsInner;
    hide AllNodes;
    hide NonZero;
    hide Hash;
    hide Facts;
    hide Writes;
    hide InnerNodesOf;
    hide KeysHaveLength;
    hide NoDeletions;
    hide ContractNodes;
    assert forall a: ContractAddress :: a in newLeaves ==> a in Elements(q.contractAddresses);
    hide Prepared;
    hide ContractAddresses;
    hide Elements;
    var writes, batches := Writes(newLeaves, TREE_HEIGHT), Batches(Reply(node, q));
    LeafWritesProved(node, hashes, chain, Elements(q.contractAddresses), newLeaves);
    ReplyIsTrue(node, hashes.contracts, q, Build(TREE_HEIGHT, chain.contracts));
    forall b | b in writes
      ensures Proves(AllNodes(batches), hashes.contracts, Build(TREE_HEIGHT, chain.contracts), b)
    {
      ReplyProvesLeaf(node, hashes, chain, q, b);
    }
    CommitTrie(entries, db, batches, leaves, hashes.contracts, TREE_HEIGHT, chain.contracts, writes);
  }

  // ------------------------------------------------------------------------
  // The committed roots are the right ones
  // ------------------------------------------------------------------------

  lemma StorageWrittenIs(stateDiff: StateMaps, a: ContractAddress)
    ensures a in ToCommitterStateDiff(stateDiff).storageUpdates <==> StorageWritten(stateDiff, a)
  {
    var diff := ToCommitterStateDiff(stateDiff);
    if a in diff.storageUpdates {
      UpdatesNotEmpty(stateDiff, a);
      var k :| k in diff.storageUpdates[a];
      DiffKeepsUpdates(stateDiff, a, k, diff.storageUpdates[a][k]);
    }
    if StorageWritten(stateDiff, a) {
      var k :| (a, k) in stateDiff.storage;
      DiffKeepsUpdates(stateDiff, a, k, stateDiff.storage[(a, k)]);
    }
  }

  lemma ModifiedIsWritten(stateDiff: StateMaps, a: ContractAddress)
    ensures a in Modified(ToCommitterStateDiff(stateDiff)) <==> Written(stateDiff, a)
  {
    StorageWrittenIs(stateDiff, a);
    DiffKeepsTheRest(stateDiff);
  }

  lemma UpdatesAre(stateDiff: StateMaps, a: ContractAddress)
    requires a in ToCommitterStateDiff(stateDiff).storageUpdates
    ensures var updates := ToCommitterStateDiff(stateDiff).storageUpdates[a];
            && (forall k: Felt :: k in updates <==> (a, k) in stateDiff.storage)
            && (forall k: Felt :: k in updates ==> updates[k] == stateDiff.storage[(a, k)])
  {
    var updates := ToCommitterStateDiff(stateDiff).storageUpdates[a];
    hide ToCommitterStateDiff;
    forall k: Felt
      ensures k in updates <==> (a, k) in stateDiff.storage
      ensures k in updates ==> updates[k] == stateDiff.storage[(a, k)]
    {
      if k in updates {
        DiffKeepsUpdates(stateDiff, a, k, updates[k]);
      }
      if (a, k) in stateDiff.storage {
        DiffKeepsUpdates(stateDiff, a, k, stateDiff.storage[(a, k)]);
      }
    }
  }

  lemma WritesOverlaid(old': Contents, updates: map<Felt, Felt>, stateDiff: StateMaps, a: ContractAddress)
    requires forall k: Felt :: k in updates <==> (a, k) in stateDiff.storage
    requires forall k: Felt :: k in updates ==> updates[k] == stateDiff.storage[(a, k)] && k < ADDRESS_BOUND
    ensures Overlaid(old' + Writes(updates, TREE_HEIGHT), old', stateDiff, a)
  {
    hide Writes;
    hide ToBits;
    HeightFits();
    WritesMeaning(updates, TREE_HEIGHT);
    hide Pow;
    hide KeysHaveLength;
    var writes := Writes(updates, TREE_HEIGHT);
    forall b | b in writes
      ensures exists k: Felt :: (a, k) in stateDiff.storage && b == ToBits(k, 251)
    {
      var k :| k in updates && b == ToBits(k, TREE_HEIGHT);
      assert (a, k) in stateDiff.storage;
    }
  }

  lemma NewContentsOverlaid(chain: Chain, stateDiff: StateMaps, a: ContractAddress)
    requires a in ToCommitterStateDiff(stateDiff).storageUpdates
    requires forall e :: e in stateDiff.storage ==> e.1 < ADDRESS_BOUND
    ensures Overlaid(NewContents(chain, ToCommitterStateDiff(stateDiff), a), chain.storage(a), stateDiff, a)
  {
    UpdatesAre(stateDiff, a);
    assert forall k: Felt :: (a, k) in stateDiff.storage ==> (a, k).1 < ADDRESS_BOUND;
    hide ToCommitterStateDiff;
    hide Overlaid;
    hide Writes;
    WritesOverlaid(chain.storage(a), ToCommitterStateDiff(stateDiff).storageUpdates[a], stateDiff, a);
  }

  lemma NewLeafIs(node: RpcNode, hashes: TrieHashes, stateDiff: StateMaps, storage: map<ContractAddress, Felt>, a: ContractAddress)
    requires Written(stateDiff, a)
    ensures var newLeaves := NewLeafHashes(hashes, LeavesOf(node), ToCommitterStateDiff(stateDiff), storage);
            a in newLeaves && newLeaves[a] == LeafAfter(node, hashes, stateDiff, storage, a)
  {
    ModifiedIsWritten(stateDiff, a);
    DiffKeepsTheRest(stateDiff);
    hide Modified;
    hide Written;
  }

  lemma NewLeavesWritten(node: RpcNode, hashes: TrieHashes, stateDiff: StateMaps, storage: map<ContractAddress, Felt>)
    ensures var newLeaves := NewLeafHashes(hashes, LeavesOf(node), ToCommitterStateDiff(stateDiff), storage);
            LeavesWritten(Writes(newLeaves, TREE_HEIGHT), node, hashes, stateDiff, storage)
  {
    hide Writes;
    hide ToBits;
    hide LeafAfter;
    hide Written;
    var newLeaves := NewLeafHashes(hashes, LeavesOf(node), ToCommitterStateDiff(stateDiff), storage);
    var w := Writes(newLeaves, TREE_HEIGHT);
    HeightFits();
    forall a | a in newLeaves
      ensures a < ADDRESS_BOUND && Written(stateDiff, a)
    {
      ModifiedIsWritten(stateDiff, a);
    }
    WritesMeaning(newLeaves, TREE_HEIGHT);
    forall a: ContractAddress | Written(stateDiff, a)
      ensures ToBits(a, 251) in w && w[ToBits(a, 251)] == LeafAfter(node, hashes, stateDiff, storage, a)
    {
      NewLeafIs(node, hashes, stateDiff, storage, a);
    }
    hide NewLeafHashes;
    forall b | b in w
      ensures exists a: ContractAddress :: Written(stateDiff, a) && b == ToBits(a, 251)
    {
      var a :| a in newLeaves && b == ToBits(a, TREE_HEIGHT);
      var address: ContractAddress := a;
      assert Written(stateDiff, address);
    }
  }

  /** What the commit gives is what the state diff calls for. */
  lemma CommittedIsSettled(node: RpcNode, hashes: TrieHashes, chain: Chain, stateDiff: StateMaps)
    requires forall e :: e in stateDiff.storage ==> e.1 < ADDRESS_BOUND
    ensures Settled(node, hashes, chain, stateDiff, Committed(node, hashes, chain, ToCommitterStateDiff(stateDiff)))
  {
    hide Build;
    hide Hash;
    hide Writes;
    hide NewLeafHashes;
    hide NewContents;
    hide Overlaid;
    hide LeavesWritten;
    hide StorageWritten;
    hide ToCommitterStateDiff;
    var diff := ToCommitterStateDiff(stateDiff);
    var roots := Committed(node, hashes, chain, diff);
    forall a: ContractAddress
      ensures a in roots.storage <==> StorageWritten(stateDiff, a)
    {
      StorageWrittenIs(stateDiff, a);
    }
    forall a | a in roots.storage
      ensures exists contents :: Overlaid(contents, chain.storage(a), stateDiff, a)
                                 && roots.storage[a] == Hash(hashes.storage, Build(251, contents))
    {
      NewContentsOverlaid(chain, stateDiff, a);
      assert roots.storage[a] == Hash(hashes.storage, Build(251, NewContents(chain, diff, a)));
    }
    NewLeavesWritten(node, hashes, stateDiff, roots.storage);
  }

  // ------------------------------------------------------------------------
  // The pipeline
  // ------------------------------------------------------------------------

  /** What a trie reader sees of the database. */
  function InnerNodes(entries: Entries): NodeMap {
    map h | h in (set k | k in entries.Keys && k.InnerKey? :: k.hash)
      && InnerKey(h) in entries && entries[InnerKey(h)].InnerValue? :: entries[InnerKey(h)].node
  }

  lemma InnerNodesRead(entries: Entries, nodes: NodeMap, orphans: set<Felt>, leaves: set<(DbKey, DbValue)>)
    requires Facts(entries, nodes, orphans, leaves)
    ensures InnerNodesOf(InnerNodes(entries), entries)
  {
    forall h | InnerKey(h) in entries
      ensures h in InnerNodes(entries)
    {
      assert InnerKey(h).hash == h;
    }
  }

  lemma UnsupportedIsDeletion(stateDiff: StateMaps)
    ensures HasDeletion(ToCommitterStateDiff(stateDiff)) <==> exists e :: e in stateDiff.storage && stateDiff.storage[e] == ZERO
  {
    var diff := ToCommitterStateDiff(stateDiff);
    if HasDeletion(diff) {
      var a, k :| a in diff.storageUpdates && k in diff.storageUpdates[a] && diff.storageUpdates[a][k] == ZERO;
      DiffKeepsUpdates(stateDiff, a, k, ZERO);
    }
    if e :| e in stateDiff.storage && stateDiff.storage[e] == ZERO {
      DiffKeepsUpdates(stateDiff, e.0, e.1, ZERO);
      assert e.0 in diff.storageUpdates && e.1 in diff.storageUpdates[e.0];
    }
  }

  /** Updates every written contract's storage trie. */
  method CommitStorage(
    ghost node: RpcNode, hashes: TrieHashes, ghost q: Query, stateDiff: StateMaps, db: NodeMap,
    leafData: map<ContractAddress, ContractLeafData>, ghost chain: Chain, ghost initialReads: StateMaps,
    ghost executedClasses: set<Felt>, ghost entries: Entries, ghost leaves: set<(DbKey, DbValue)>)
    returns (r: Result<map<ContractAddress, Felt>, DbError>)
    requires Honest(node, hashes, chain) && OneNodePerHash(node, hashes, chain)
    requires Prepared(q, initialReads, executedClasses) && HonestFacts(node, q, entries, db, leaves)
    requires WritesWereRead(initialReads, stateDiff) && !HasDeletion(ToCommitterStateDiff(stateDiff))
    requires forall a :: a in ContractAddresses(initialReads) ==> a in leafData && leafData[a] == node.leaf(a)
    ensures r == Ok(NewStorageRoots(hashes, chain, ToCommitterStateDiff(stateDiff)))
  {
    hide Build;
    hide UpdateRoot;
    hide Hash;
    hide Facts;
    hide Writes;
    hide Honest;
    hide OneNodePerHash;
    hide Prepared;
    hide HonestFacts;
    hide WritesWereRead;
    hide ToCommitterStateDiff;
    hide HasDeletion;
    hide ContractAddresses;
    hide StorageKeysOf;
    hide StorageRoot;
    hide NewContents;
    var diff := ToCommitterStateDiff(stateDiff);
    ghost var wanted := NewStorageRoots(hashes, chain, diff);
    assert wanted.Keys == diff.storageUpdates.Keys;
    hide NewStorageRoots;
    var roots: map<ContractAddress, Felt> := map[];
    var rest := diff.storageUpdates.Keys;
    while rest != {}
      invariant rest <= diff.storageUpdates.Keys
      invariant forall a :: a in diff.storageUpdates <==> a in roots || a in rest
      invariant forall a :: a in roots ==> roots[a] == wanted[a]
      decreases rest
    {
      var a :| a in rest;
      assert a in ContractAddresses(initialReads) by {
        UpdatesWereRead(initialReads, stateDiff, a);
      }
      StorageCommitted(node, hashes, chain, q, initialReads, executedClasses, stateDiff, entries, db, leaves, a);
      match UpdateRoot(db, hashes.storage, StorageRoot(leafData[a]), TREE_HEIGHT, Writes(diff.storageUpdates[a], TREE_HEIGHT)) {
        case Err(e) =>
          return Err(e);
        case Ok(root) =>
          roots := roots[a := root];
          rest := rest - {a};
      }
    }
    assert roots == wanted;
    r := Ok(roots);
  }

  /** Only the leaves of the written contracts matter. */
  lemma NewLeavesAgree(
    hashes: TrieHashes, leaf: ContractAddress -> ContractLeafData, leaf': ContractAddress -> ContractLeafData,
    diff: StateDiff, roots: map<ContractAddress, Felt>)
    requires forall a :: a in Modified(diff) ==> leaf(a) == leaf'(a)
    ensures NewLeafHashes(hashes, leaf, diff, roots) == NewLeafHashes(hashes, leaf', diff, roots)
  {
  }

  /** Only contracts that were read get a new leaf. */
  lemma NewLeavesWereRead(
    hashes: TrieHashes, leaf: ContractAddress -> ContractLeafData, initialReads: StateMaps, stateDiff: StateMaps,
    roots: map<ContractAddress, Felt>)
    requires WritesWereRead(initialReads, stateDiff)
    ensures forall a :: a in Modified(ToCommitterStateDiff(stateDiff)) ==> a in ContractAddresses(initialReads)
    ensures forall a :: a in NewLeafHashes(hashes, leaf, ToCommitterStateDiff(stateDiff), roots) ==>
              a < ADDRESS_BOUND && a in ContractAddresses(initialReads)
  {
    var diff := ToCommitterStateDiff(stateDiff);
    forall a | a in diff.storageUpdates
      ensures a in ContractAddresses(initialReads)
    {
      UpdatesWereRead(initialReads, stateDiff, a);
    }
  }

  /** Without writes the root stays. */
  lemma NothingCommitted(node: RpcNode, hashes: TrieHashes, chain: Chain)
    requires Honest(node, hashes, chain)
    ensures node.roots.contractsTreeRoot
            == Hash(hashes.contracts, Build(TREE_HEIGHT, chain.contracts + Writes(map[], TREE_HEIGHT)))
  {
    hide Build;
    assert chain.contracts + Writes(map[], TREE_HEIGHT) == chain.contracts;
  }

  /** Updates the contracts trie with the written contracts' new leaves. */
  method CommitContracts(
    ghost node: RpcNode, hashes: TrieHashes, ghost q: Query, stateDiff: StateMaps, db: NodeMap, root: Felt,
    leafData: map<ContractAddress, ContractLeafData>, storageRoots: map<ContractAddress, Felt>,
    ghost chain: Chain, ghost initialReads: StateMaps,
    ghost executedClasses: set<Felt>, ghost entries: Entries, ghost leaves: set<(DbKey, DbValue)>)
    returns (r: Result<Felt, DbError>)
    requires Honest(node, hashes, chain) && OneNodePerHash(node, hashes, chain)
    requires Prepared(q, initialReads, executedClasses) && HonestFacts(node, q, entries, db, leaves)
    requires WritesWereRead(initialReads, stateDiff)
    requires NewLeavesStay(node, hashes, chain, stateDiff)
    requires root == node.roots.contractsTreeRoot
    requires storageRoots == NewStorageRoots(hashes, chain, ToCommitterStateDiff(stateDiff))
    requires forall a :: a in ContractAddresses(initialReads) ==> a in leafData && leafData[a] == node.leaf(a)
    ensures r == Ok(Committed(node, hashes, chain, ToCommitterStateDiff(stateDiff)).contracts)
  {
    hide Build;
    hide UpdateRoot;
    hide Hash;
    hide Facts;
    hide Honest;
    hide OneNodePerHash;
    hide Prepared;
    hide HonestFacts;
    hide ToCommitterStateDiff;
    hide WritesWereRead;
    hide Writes;
    hide NewLeafHashes;
    hide NewStorageRoots;
    hide ContractAddresses;
    var diff := ToCommitterStateDiff(stateDiff);
    var leafOf := (a: ContractAddress) => if a in leafData then leafData[a] else ContractLeafData(ZERO, ZERO, None);
    var newLeaves := NewLeafHashes(hashes, leafOf, diff, storageRoots);
    NewLeavesWereRead(hashes, leafOf, initialReads, stateDiff, storageRoots);
    NewLeavesAgree(hashes, leafOf, LeavesOf(node), diff, storageRoots);
    if newLeaves == map[] {
      NothingCommitted(node, hashes, chain);
      return Ok(root);
    }
    ContractsCommitted(node, hashes, chain, q, initialReads, executedClasses, entries, db, leaves, newLeaves);
    r := UpdateRoot(db, hashes.contracts, root, TREE_HEIGHT, Writes(newLeaves, TREE_HEIGHT));
  }

  lemma KeysFit(initialReads: StateMaps, stateDiff: StateMaps)
    requires WritesWereRead(initialReads, stateDiff)
    ensures forall e :: e in stateDiff.storage ==> e.1 < ADDRESS_BOUND
  {
  }

  /** Builds the facts database from the reply, validates the diff and commits it. */
  method NewStateRoots(
    ghost node: RpcNode, hashes: TrieHashes, q: Query, proof: StorageProof, extended: StateMaps, stateDiff: StateMaps,
    ghost chain: Chain, ghost initialReads: StateMaps, ghost executedClasses: set<Felt>)
    returns (r: Result<NewRoots, PipelineError>)
    requires proof == Reply(node, q) && Prepared(q, initialReads, executedClasses)
    requires Honest(node, hashes, chain) && OneNodePerHash(node, hashes, chain)
    requires WritesWereRead(initialReads, stateDiff)
    requires NewLeavesStay(node, hashes, chain, stateDiff)
    ensures r.Ok? ==> !Unsupported(stateDiff) && Settled(node, hashes, chain, stateDiff, r.value)
    ensures r.Ok? ==> r.value == Committed(node, hashes, chain, ToCommitterStateDiff(stateDiff))
    ensures r.Err? ==> r.error.InvalidStateDiff? && Unsupported(stateDiff)
  {
    hide Honest;
    hide OneNodePerHash;
    hide WritesWereRead;
    hide Facts;
    hide HasDeletion;
    var built := CreateFactsDbFromStorageProof(hashes.leaves, proof, q, extended);
    match built {
      case Err(e) =>
        return Err(Provider(e));
      case Ok(_) =>
    }
    var validated := ValidateVirtualOsStateDiff(ToCommitterStateDiff(stateDiff));
    UnsupportedIsDeletion(stateDiff);
    if validated.Err? {
      return Err(InvalidStateDiff(validated.error));
    }
    var entries := built.value.entries;
    var db := InnerNodes(entries);
    ghost var batches, leaves := Batches(proof), AllLeaves(hashes.leaves, proof, extended);
    InnerNodesRead(entries, NodesUpTo(batches, |batches|), OrphansUpTo(batches, |batches|), leaves);
    var leafData := LeafMap(q.contractAddresses, proof.contractLeavesData);
    LeafMapOfSorted(node, q.contractAddresses);
    PreparedAddresses(q, initialReads, executedClasses);
    hide Prepared;
    var storageRoots := CommitStorage(node, hashes, q, stateDiff, db, leafData, chain, initialReads, executedClasses, entries, leaves);
    var root := CommitContracts(node, hashes, q, stateDiff, db, proof.globalRoots.contractsTreeRoot, leafData,
      storageRoots.value, chain, initialReads, executedClasses, entries, leaves);
    KeysFit(initialReads, stateDiff);
    CommittedIsSettled(node, hashes, chain, stateDiff);
    hide Settled;
    return Ok(NewRoots(storageRoots.value, root.value));
  }

  /** Fetches, builds and commits. For an honest node and a supported diff the new roots are those of the canonical tries
      after the writes, whatever the limit on keys per request; the only errors are a failed request and an unsupported
      diff. */
  method CommitStateChanges(
    node: RpcNode, answers: Query -> bool, hashes: TrieHashes, initialReads: StateMaps, executedClasses: set<Felt>,
    stateDiff: StateMaps, maxKeys: nat, ghost chain: Chain)
    returns (r: Result<NewRoots, PipelineError>)
    requires maxKeys > 0
    requires Honest(node, hashes, chain) && OneNodePerHash(node, hashes, chain)
    requires WritesWereRead(initialReads, stateDiff)
    requires NewLeavesStay(node, hashes, chain, stateDiff)
    ensures r.Ok? ==> !Unsupported(stateDiff) && Settled(node, hashes, chain, stateDiff, r.value)
    ensures r.Ok? ==> r.value == Committed(node, hashes, chain, ToCommitterStateDiff(stateDiff))
    ensures r.Err? ==> r == Err(Provider(RpcError)) || (r.error.InvalidStateDiff? && Unsupported(stateDiff))
    ensures exists q :: Prepared(q, initialReads, executedClasses)
                        && (r == Err(Provider(RpcError))
                            <==> exists i :: 0 <= i < |Requests(q, maxKeys)| && !answers(Requests(q, maxKeys)[i]))
  {
    hide Honest;
    hide OneNodePerHash;
    hide WritesWereRead;
    hide Committed;
    hide Settled;
    hide Unsupported;
    var q := PrepareQuery(initialReads, executedClasses);
    PreparedNotShadowed(q, initialReads, executedClasses);
    var fetched := FetchProofs(node, answers, q, maxKeys);
    if fetched.Err? {
      return Err(Provider(fetched.error));
    }
    var proof := fetched.value;
    if |proof.contractLeavesData| != |q.contractAddresses| {
      return Err(Provider(LeavesLengthMismatch));
    }
    var extended := ExtendReads(q.contractAddresses, proof.contractLeavesData, initialReads);
    r := NewStateRoots(node, hashes, q, proof, extended, stateDiff, chain, initialReads, executedClasses);
  }
}
