/** Committing a validated state diff over the facts database. */
module Commit {
  import opened Felts
  import opened Merkle
  import opened Patricia
  import opened PatriciaUpdate
  import opened StorageQueries
  import opened CachedState
  import opened FactsDb
  import opened ProofProvider

  datatype StateDiff = StateDiff(
    addressToClassHash: map<ContractAddress, Felt>,
    addressToNonce: map<ContractAddress, Felt>,
    classHashToCompiledClassHash: map<Felt, Felt>,
    storageUpdates: map<ContractAddress, map<Felt, Felt>>)

  datatype DiffError =
    | StorageDeletion(address: ContractAddress, key: Felt)
    | ContractDeployment
    | ContractDeclaration

  // ------------------------------------------------------------------------
  // From state maps to the committer's diff
  // ------------------------------------------------------------------------

  function UpdatesOf(storage: map<(ContractAddress, Felt), Felt>, address: ContractAddress): map<Felt, Felt> {
    map k | k in (set e | e in storage.Keys && e.0 == address :: e.1) && (address, k) in storage :: storage[(address, k)]
  }

  function ToCommitterStateDiff(s: StateMaps): StateDiff {
    StateDiff(s.classHashes, s.nonces, s.compiledClassHashes,
      map a | a in (set e | e in s.storage.Keys :: e.0) :: UpdatesOf(s.storage, a))
  }

  /** Grouping by contract neither loses nor invents an update. */
  lemma DiffKeepsUpdates(s: StateMaps, address: ContractAddress, key: Felt, value: Felt)
    ensures var updates := ToCommitterStateDiff(s).storageUpdates;
            (address, key) in s.storage && s.storage[(address, key)] == value
            <==> address in updates && key in updates[address] && updates[address][key] == value
  {
    if (address, key) in s.storage {
      assert (address, key).0 == address && (address, key).1 == key;
    }
  }

  /** Nonces, class hashes and compiled class hashes go over as they are. */
  lemma DiffKeepsTheRest(s: StateMaps)
    ensures ToCommitterStateDiff(s).addressToNonce == s.nonces
    ensures ToCommitterStateDiff(s).addressToClassHash == s.classHashes
    ensures ToCommitterStateDiff(s).classHashToCompiledClassHash == s.compiledClassHashes
  {
  }

  // ------------------------------------------------------------------------
  // Validation
  // ------------------------------------------------------------------------

  ghost predicate HasDeletion(diff: StateDiff) {
    exists a, k :: a in diff.storageUpdates && k in diff.storageUpdates[a] && diff.storageUpdates[a][k] == ZERO
  }

  /** Accepts exactly the diffs without storage deletions, deployments and declarations, and reports the first of
      these that applies. */
  method ValidateVirtualOsStateDiff(diff: StateDiff) returns (r: Result<(), DiffError>)
    ensures r.Ok? <==> !HasDeletion(diff) && diff.addressToClassHash == map[] && diff.classHashToCompiledClassHash == map[]
    ensures HasDeletion(diff) <==> r.Err? && r.error.StorageDeletion?
    ensures r.Err? && r.error.StorageDeletion? ==>
              && r.error.address in diff.storageUpdates && r.error.key in diff.storageUpdates[r.error.address]
              && diff.storageUpdates[r.error.address][r.error.key] == ZERO
    ensures r == Err(ContractDeployment) <==> !HasDeletion(diff) && diff.addressToClassHash != map[]
  {
    var addresses := diff.storageUpdates.Keys;
    while addresses != {}
      invariant addresses <= diff.storageUpdates.Keys
      invariant forall a, k :: a in diff.storageUpdates.Keys - addresses && k in diff.storageUpdates[a] ==>
                  diff.storageUpdates[a][k] != ZERO
      decreases addresses
    {
      var address :| address in addresses;
      var updates := diff.storageUpdates[address];
      var keys := updates.Keys;
      while keys != {}
        invariant keys <= updates.Keys
        invariant forall k :: k in updates.Keys - keys ==> updates[k] != ZERO
        decreases keys
      {
        var key :| key in keys;
        if updates[key] == ZERO {
          assert key in diff.storageUpdates[address];
          return Err(StorageDeletion(address, key));
        }
        keys := keys - {key};
      }
      addresses := addresses - {address};
    }
    if diff.addressToClassHash != map[] {
      return Err(ContractDeployment);
    }
    if diff.classHashToCompiledClassHash != map[] {
      return Err(ContractDeclaration);
    }
    return Ok(());
  }

  // ------------------------------------------------------------------------
  // Keys as paths
  // ------------------------------------------------------------------------

  /** The low bits of a number, the most significant first. */
  function ToBits(n: nat, height: nat): (b: Bits)
    ensures |b| == height
  {
    if height == 0 then [] else ToBits(n / 2, height - 1) + [n % 2 == 1]
  }

  function FromBits(b: Bits): nat {
    if b == [] then 0 else 2 * FromBits(b[..|b| - 1]) + if b[|b| - 1] then 1 else 0
  }

  lemma {:induction false} BitsRoundTrip(n: nat, height: nat)
    requires n < Pow(2, height)
    ensures FromBits(ToBits(n, height)) == n
  {
    if height == 0 {
    } else {
      BitsRoundTrip(n / 2, height - 1);
      assert ToBits(n, height)[..height - 1] == ToBits(n / 2, height - 1);
    }
  }

  /** The trie writes of one contract's updates. */
  function Writes(updates: map<Felt, Felt>, height: nat): Contents {
    map b | b in (set k | k in updates :: ToBits(k, height)) && FromBits(b) in updates :: updates[FromBits(b)]
  }

  /** Each update writes its own path. */
  lemma WritesMeaning(updates: map<Felt, Felt>, height: nat)
    requires forall k :: k in updates ==> k < Pow(2, height)
    ensures KeysHaveLength(Writes(updates, height), height)
    ensures forall k :: k in updates ==>
              ToBits(k, height) in Writes(updates, height) && Writes(updates, height)[ToBits(k, height)] == updates[k]
    ensures forall b :: b in Writes(updates, height) ==> exists k :: k in updates && b == ToBits(k, height)
  {
    forall k | k in updates
      ensures ToBits(k, height) in Writes(updates, height) && Writes(updates, height)[ToBits(k, height)] == updates[k]
    {
      BitsRoundTrip(k, height);
    }
  }

  // ------------------------------------------------------------------------
  // The commit
  // ------------------------------------------------------------------------

  /** The inner nodes a trie reader finds in the database. */
  ghost predicate InnerNodesOf(db: NodeMap, entries: Entries) {
    && (forall h :: h in db <==> InnerKey(h) in entries)
    && (forall h :: h in db ==> entries[InnerKey(h)] == InnerValue(db[h]))
  }

  /** All nodes of the proof. */
  function AllNodes(batches: seq<NodeMap>): NodeMap {
    NodesUpTo(batches, |batches|)
  }

  /** The database is closed around all nodes of the proof, whatever they are. */
  lemma FactsClosed(entries: Entries, db: NodeMap, batches: seq<NodeMap>, leaves: set<(DbKey, DbValue)>)
    requires Facts(entries, AllNodes(batches), OrphansUpTo(batches, |batches|), leaves)
    requires InnerNodesOf(db, entries)
    ensures Closed(db, AllNodes(batches))
  {
    var nodes := AllNodes(batches);
    forall x | x in nodes
      ensures x in db && db[x] == nodes[x] && Children(nodes[x]) <= db.Keys
    {
      assert InnerKey(x) in entries;
      NodesUpToMember(batches, |batches|, x);
      var i :| 0 <= i < |batches| && x in batches[i] && nodes[x] == batches[i][x];
      forall c | c in Children(nodes[x])
        ensures c in db
      {
        assert c in AllChildren(batches[i]);
        assert IsChild(batches, c);
        OrphansAreGlobal(batches, c);
        assert InnerKey(c) in entries;
      }
    }
    forall x | x in db && x !in nodes
      ensures db[x].BinaryNode?
    {
      assert InnerKey(x) in entries;
    }
  }

  /** Any update without deletions of one trie, over nothing but the proofs of its keys, leaves and placeholders,
      gives the root of the canonical trie of the updated contents. */
  lemma CommitTrie(
    entries: Entries, db: NodeMap, batches: seq<NodeMap>, leaves: set<(DbKey, DbValue)>, h: Hasher,
    height: nat, contents: Contents, writes: Contents)
    requires Facts(entries, AllNodes(batches), OrphansUpTo(batches, |batches|), leaves)
    requires InnerNodesOf(db, entries)
    requires KeysHaveLength(contents, height) && NonZero(h, Build(height, contents))
    requires KeysHaveLength(writes, height) && writes != map[] && NoDeletions(writes)
    requires TrueNodes(AllNodes(batches), h, Build(height, contents))
    requires forall b :: b in writes ==> Proves(AllNodes(batches), h, Build(height, contents), b)
    ensures UpdateRoot(db, h, Hash(h, Build(height, contents)), height, writes)
            == Ok(Hash(h, Build(height, contents + writes)))
  {
    hide *;
    FactsClosed(entries, db, batches, leaves);
    forall b | b in writes
      ensures Open(db, h, Build(height, contents), b)
    {
      ProofOpens(db, h, AllNodes(batches), Build(height, contents), b);
    }
    PlaceholdersInvisible(db, h, height, contents, writes);
  }

  /** Committing a validated diff to one contract's storage. */
  lemma CommitOverFacts(
    entries: Entries, db: NodeMap, batches: seq<NodeMap>, leaves: set<(DbKey, DbValue)>, h: Hasher,
    diff: StateDiff, address: ContractAddress, height: nat, contents: Contents)
    requires Facts(entries, AllNodes(batches), OrphansUpTo(batches, |batches|), leaves)
    requires InnerNodesOf(db, entries)
    requires !HasDeletion(diff) && address in diff.storageUpdates && diff.storageUpdates[address] != map[]
    requires forall k :: k in diff.storageUpdates[address] ==> k < Pow(2, height)
    requires KeysHaveLength(contents, height) && NonZero(h, Build(height, contents))
    requires TrueNodes(AllNodes(batches), h, Build(height, contents))
    requires forall k :: k in diff.storageUpdates[address] ==>
               Proves(AllNodes(batches), h, Build(height, contents), ToBits(k, height))
    ensures UpdateRoot(db, h, Hash(h, Build(height, contents)), height, Writes(diff.storageUpdates[address], height))
            == Ok(Hash(h, Build(height, contents + Writes(diff.storageUpdates[address], height))))
  {
    var updates := diff.storageUpdates[address];
    var writes := Writes(updates, height);
    hide Build;
    hide UpdateRoot;
    hide Proves;
    hide TrueNodes;
    hide AllNodes;
    hide NonZero;
    hide Facts;
    hide Writes;
    hide Hash;
    hide InnerNodesOf;
    WritesMeaning(updates, height);
    var someKey :| someKey in updates;
    assert ToBits(someKey, height) in writes;
    forall b | b in writes
      ensures writes[b] != ZERO && Proves(AllNodes(batches), h, Build(height, contents), b)
    {
      var k :| k in updates && b == ToBits(k, height);
      assert writes[b] == updates[k];
    }
    CommitTrie(entries, db, batches, leaves, h, height, contents, writes);
  }
}
