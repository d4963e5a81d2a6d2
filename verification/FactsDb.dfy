/** The facts database built from a storage proof: real nodes, leaves, and placeholders for hashes without preimage. */
module FactsDb {
  import opened Felts
  import opened Merkle
  import opened Patricia
  import opened StorageQueries
  import opened StorageProofs
  import opened CachedState
  import opened ProofProvider

  datatype ContractState = ContractState(nonce: Felt, classHash: Felt, storageRootHash: Felt)

  /** The prefix of a database key keeps inner nodes and the kinds of leaf apart. */
  datatype DbKey =
    | InnerKey(hash: Felt)
    | ContractLeafKey(hash: Felt)
    | StorageLeafKey(address: ContractAddress, hash: Felt)
    | CompiledClassLeafKey(hash: Felt)

  datatype DbValue =
    | InnerValue(node: MerkleNode)
    | ContractLeafValue(state: ContractState)
    | StorageLeafValue(value: Felt)
    | CompiledClassLeafValue(compiledClassHash: Felt)

  datatype LeafHashes = LeafHashes(contract: ContractState -> Felt, storage: Felt -> Felt, compiledClass: Felt -> Felt)

  type Entries = map<DbKey, DbValue>

  // ------------------------------------------------------------------------
  // How the steps change the entries
  // ------------------------------------------------------------------------

  /** Nodes go in under their hashes and replace what was there. */
  ghost predicate NodesAdded(before: Entries, after: Entries, nodes: NodeMap) {
    && (forall k :: k in after <==> k in before || (k.InnerKey? && k.hash in nodes))
    && (forall k :: k in after ==>
          after[k] == if k.InnerKey? && k.hash in nodes then InnerValue(nodes[k.hash]) else before[k])
  }

  /** Placeholders go in only where there is no entry yet. */
  ghost predicate PlaceholdersAdded(before: Entries, after: Entries, hashes: set<Felt>) {
    && (forall k :: k in after <==> k in before || (k.InnerKey? && k.hash in hashes))
    && (forall k :: k in after ==> after[k] == if k in before then before[k] else InnerValue(PLACEHOLDER))
  }

  /** Leaves go in under their own keys; two leaves with one key leave one of them there. */
  ghost predicate LeavesAdded(before: Entries, after: Entries, leaves: set<(DbKey, DbValue)>) {
    && (forall k :: k in before ==> k in after)
    && (forall l :: l in leaves ==> l.0 in after && (l.0, after[l.0]) in leaves)
    && (forall k :: k in after ==> (k, after[k]) in leaves || (k in before && after[k] == before[k]))
  }

  function AllChildren(nodes: NodeMap): set<Felt> {
    set h, c | h in nodes && c in Children(nodes[h]) :: c
  }

  /** Child hashes without a preimage in the same batch. */
  function Orphans(nodes: NodeMap): set<Felt> {
    AllChildren(nodes) - nodes.Keys
  }

  function StateOf(leaf: ContractLeafData): ContractState {
    ContractState(leaf.nonce, leaf.classHash, StorageRoot(leaf))
  }

  function ContractLeaf(hashes: LeafHashes, leaf: ContractLeafData): (DbKey, DbValue) {
    (ContractLeafKey(hashes.contract(StateOf(leaf))), ContractLeafValue(StateOf(leaf)))
  }

  function ContractLeaves(hashes: LeafHashes, leaves: seq<ContractLeafData>): set<(DbKey, DbValue)> {
    set leaf | leaf in leaves :: ContractLeaf(hashes, leaf)
  }

  function StorageLeaf(hashes: LeafHashes, address: ContractAddress, value: Felt): (DbKey, DbValue) {
    (StorageLeafKey(address, hashes.storage(value)), StorageLeafValue(value))
  }

  function StorageLeaves(hashes: LeafHashes, storage: map<(ContractAddress, Felt), Felt>): set<(DbKey, DbValue)> {
    set e | e in storage :: StorageLeaf(hashes, e.0, storage[e])
  }

  function CompiledClassLeaf(hashes: LeafHashes, value: Felt): (DbKey, DbValue) {
    (CompiledClassLeafKey(hashes.compiledClass(value)), CompiledClassLeafValue(value))
  }

  function CompiledClassLeaves(hashes: LeafHashes, classes: map<Felt, Felt>): set<(DbKey, DbValue)> {
    set c | c in classes :: CompiledClassLeaf(hashes, classes[c])
  }

  lemma LeafStep(before: Entries, mid: Entries, leaves: set<(DbKey, DbValue)>, leaf: (DbKey, DbValue))
    requires LeavesAdded(before, mid, leaves)
    ensures LeavesAdded(before, mid[leaf.0 := leaf.1], leaves + {leaf})
  {
  }

  lemma CompiledClassStep(hashes: LeafHashes, classes: map<Felt, Felt>, c: Felt, value: Felt)
    requires c !in classes
    ensures CompiledClassLeaves(hashes, classes[c := value])
            == CompiledClassLeaves(hashes, classes) + {CompiledClassLeaf(hashes, value)}
  {
    var after := classes[c := value];
    forall l | l in CompiledClassLeaves(hashes, classes) + {CompiledClassLeaf(hashes, value)}
      ensures l in CompiledClassLeaves(hashes, after)
    {
      if l in CompiledClassLeaves(hashes, classes) {
        var x :| x in classes && l == CompiledClassLeaf(hashes, classes[x]);
        assert x in after && after[x] == classes[x];
      } else {
        assert c in after && after[c] == value;
      }
    }
  }

  lemma PlaceholdersTwice(before: Entries, mid: Entries, after: Entries, a: set<Felt>, b: set<Felt>)
    requires PlaceholdersAdded(before, mid, a) && PlaceholdersAdded(mid, after, b)
    ensures PlaceholdersAdded(before, after, a + b)
  {
  }

  // ------------------------------------------------------------------------
  // The database
  // ------------------------------------------------------------------------

  class Database {
    var entries: Entries

    constructor ()
      ensures entries == map[]
    {
      entries := map[];
    }

    method InsertInnerNodes(nodes: NodeMap)
      modifies this
      ensures NodesAdded(old(entries), entries, nodes)
    {
      var rest := nodes.Keys;
      while rest != {}
        invariant rest <= nodes.Keys
        invariant NodesAdded(old(entries), entries, nodes - rest)
        decreases rest
      {
        var hash :| hash in rest;
        entries := entries[InnerKey(hash) := InnerValue(nodes[hash])];
        rest := rest - {hash};
      }
      assert nodes - {} == nodes;
    }

    /** Inserts a leaf under the key made from its hash. */
    method InsertLeafNode(leaf: (DbKey, DbValue), ghost before: Entries, ghost leaves: set<(DbKey, DbValue)>)
      requires LeavesAdded(before, entries, leaves)
      modifies this
      ensures entries == old(entries)[leaf.0 := leaf.1]
      ensures LeavesAdded(before, entries, leaves + {leaf})
    {
      LeafStep(before, entries, leaves, leaf);
      entries := entries[leaf.0 := leaf.1];
    }

    method InsertContractLeaves(hashes: LeafHashes, proof: StorageProof, q: Query) returns (ok: bool)
      modifies this
      ensures ok <==> |proof.contractLeavesData| == |q.contractAddresses|
      ensures LeavesAdded(old(entries), entries, if ok then ContractLeaves(hashes, proof.contractLeavesData) else {})
    {
      var leaves := proof.contractLeavesData;
      if |leaves| != |q.contractAddresses| {
        return false;
      }
      for i := 0 to |leaves|
        invariant LeavesAdded(old(entries), entries, ContractLeaves(hashes, leaves[..i]))
      {
        InsertLeafNode(ContractLeaf(hashes, leaves[i]), old(entries), ContractLeaves(hashes, leaves[..i]));
        assert leaves[..i + 1] == leaves[..i] + [leaves[i]];
        assert ContractLeaves(hashes, leaves[..i + 1])
               == ContractLeaves(hashes, leaves[..i]) + {ContractLeaf(hashes, leaves[i])};
      }
      assert leaves[..|leaves|] == leaves;
      return true;
    }

    method InsertStorageLeaves(hashes: LeafHashes, initialReads: StateMaps)
      modifies this
      ensures LeavesAdded(old(entries), entries, StorageLeaves(hashes, initialReads.storage))
    {
      var storage := initialReads.storage;
      var rest := storage.Keys;
      while rest != {}
        invariant rest <= storage.Keys
        invariant LeavesAdded(old(entries), entries, StorageLeaves(hashes, storage - rest))
        decreases rest
      {
        var e :| e in rest;
        InsertLeafNode(StorageLeaf(hashes, e.0, storage[e]), old(entries), StorageLeaves(hashes, storage - rest));
        assert StorageLeaves(hashes, storage - (rest - {e}))
               == StorageLeaves(hashes, storage - rest) + {StorageLeaf(hashes, e.0, storage[e])};
        rest := rest - {e};
      }
      assert storage - {} == storage;
    }

    method InsertCompiledClassLeaves(hashes: LeafHashes, initialReads: StateMaps)
      modifies this
      ensures LeavesAdded(old(entries), entries, CompiledClassLeaves(hashes, initialReads.compiledClassHashes))
    {
      var classes := initialReads.compiledClassHashes;
      var rest := classes.Keys;
      while rest != {}
        invariant rest <= classes.Keys
        invariant LeavesAdded(old(entries), entries, CompiledClassLeaves(hashes, classes - rest))
        decreases rest
      {
        var c :| c in rest;
        InsertLeafNode(CompiledClassLeaf(hashes, classes[c]), old(entries), CompiledClassLeaves(hashes, classes - rest));
        assert classes - (rest - {c}) == (classes - rest)[c := classes[c]];
        CompiledClassStep(hashes, classes - rest, c, classes[c]);
        assert CompiledClassLeaves(hashes, classes - (rest - {c}))
               == CompiledClassLeaves(hashes, classes - rest) + {CompiledClassLeaf(hashes, classes[c])};
        rest := rest - {c};
      }
      assert classes - {} == classes;
    }

    /** Adds a placeholder unless the hash has a preimage in this batch or any entry already. */
    method AddDummyNodeForOrphanChild(child: Felt, hasPreimage: set<Felt>)
      modifies this
      ensures PlaceholdersAdded(old(entries), entries, {child} - hasPreimage)
    {
      if child !in hasPreimage {
        var key := InnerKey(child);
        if key !in entries {
          entries := entries[key := InnerValue(PLACEHOLDER)];
        }
      }
    }

    method AddDummyNodesForNode(node: MerkleNode, hasPreimage: set<Felt>)
      modifies this
      ensures PlaceholdersAdded(old(entries), entries, Children(node) - hasPreimage)
    {
      match node {
        case BinaryNode(left, right) =>
          AddDummyNodeForOrphanChild(left, hasPreimage);
          ghost var leftDone := entries;
          AddDummyNodeForOrphanChild(right, hasPreimage);
          PlaceholdersTwice(old(entries), leftDone, entries, {left} - hasPreimage, {right} - hasPreimage);
          assert Children(node) - hasPreimage == ({left} - hasPreimage) + ({right} - hasPreimage);
        case EdgeNode(child, _) =>
          AddDummyNodeForOrphanChild(child, hasPreimage);
      }
    }

    method AddDummyNodesForOrphanHashes(nodes: NodeMap)
      modifies this
      ensures PlaceholdersAdded(old(entries), entries, Orphans(nodes))
    {
      var hasPreimage := nodes.Keys;
      var rest := nodes.Keys;
      while rest != {}
        invariant rest <= nodes.Keys
        invariant PlaceholdersAdded(old(entries), entries, AllChildren(nodes - rest) - hasPreimage)
        decreases rest
      {
        var hash :| hash in rest;
        ghost var before := entries;
        AddDummyNodesForNode(nodes[hash], hasPreimage);
        PlaceholdersTwice(old(entries), before, entries,
          AllChildren(nodes - rest) - hasPreimage, Children(nodes[hash]) - hasPreimage);
        ChildrenStep(nodes, rest, hash);
        assert AllChildren(nodes - (rest - {hash})) - hasPreimage
               == (AllChildren(nodes - rest) - hasPreimage) + (Children(nodes[hash]) - hasPreimage);
        rest := rest - {hash};
      }
      assert nodes - {} == nodes;
    }
  }

  lemma ChildrenStep(nodes: NodeMap, rest: set<Felt>, hash: Felt)
    requires hash in nodes && hash in rest
    ensures AllChildren(nodes - (rest - {hash})) == AllChildren(nodes - rest) + Children(nodes[hash])
  {
    var before, after := nodes - rest, nodes - (rest - {hash});
    assert after == before[hash := nodes[hash]];
    forall c | c in AllChildren(before)
      ensures c in AllChildren(after)
    {
      var h :| h in before && c in Children(before[h]);
      assert h in after && c in Children(after[h]);
    }
    forall c | c in Children(nodes[hash])
      ensures c in AllChildren(after)
    {
      assert c in Children(after[hash]);
    }
  }

  // ------------------------------------------------------------------------
  // The whole database
  // ------------------------------------------------------------------------

  /** The proof's node batches in the order they are inserted. */
  function Batches(proof: StorageProof): seq<NodeMap> {
    [proof.contractsNodes, proof.classesProof] + proof.contractsStorageProofs
  }

  /** All nodes of the first n batches; on a conflict the later batch wins. */
  function NodesUpTo(batches: seq<NodeMap>, n: nat): NodeMap
    requires n <= |batches|
  {
    if n == 0 then map[] else NodesUpTo(batches, n - 1) + batches[n - 1]
  }

  function OrphansUpTo(batches: seq<NodeMap>, n: nat): set<Felt>
    requires n <= |batches|
  {
    if n == 0 then {} else OrphansUpTo(batches, n - 1) + Orphans(batches[n - 1])
  }

  function AllLeaves(hashes: LeafHashes, proof: StorageProof, initialReads: StateMaps): set<(DbKey, DbValue)> {
    ContractLeaves(hashes, proof.contractLeavesData) + StorageLeaves(hashes, initialReads.storage)
    + CompiledClassLeaves(hashes, initialReads.compiledClassHashes)
  }

  /** Inner entries: the real nodes, and placeholders for the other orphans. Leaf entries: the leaves. Nothing else. */
  ghost predicate Facts(entries: Entries, nodes: NodeMap, orphans: set<Felt>, leaves: set<(DbKey, DbValue)>) {
    && (forall h :: InnerKey(h) in entries <==> h in nodes || h in orphans)
    && (forall h :: InnerKey(h) in entries ==>
          entries[InnerKey(h)] == InnerValue(if h in nodes then nodes[h] else PLACEHOLDER))
    && (forall l :: l in leaves ==> l.0 in entries)
    && (forall k :: k in entries && !k.InnerKey? ==> (k, entries[k]) in leaves)
  }

  ghost predicate LeafKeysOnly(leaves: set<(DbKey, DbValue)>) {
    forall l :: l in leaves ==> !l.0.InnerKey?
  }

  lemma NodesTwice(before: Entries, mid: Entries, after: Entries, a: NodeMap, b: NodeMap)
    requires NodesAdded(before, mid, a) && NodesAdded(mid, after, b)
    ensures NodesAdded(before, after, a + b)
  {
  }

  lemma LeavesTwice(before: Entries, mid: Entries, after: Entries, a: set<(DbKey, DbValue)>, b: set<(DbKey, DbValue)>)
    requires LeavesAdded(before, mid, a) && LeavesAdded(mid, after, b)
    ensures LeavesAdded(before, after, a + b)
  {
  }

  lemma FactsComplete(
    nodesDone: Entries, leavesDone: Entries, entries: Entries,
    nodes: NodeMap, leaves: set<(DbKey, DbValue)>, orphans: set<Felt>)
    requires NodesAdded(map[], nodesDone, nodes)
    requires LeavesAdded(nodesDone, leavesDone, leaves) && LeafKeysOnly(leaves)
    requires PlaceholdersAdded(leavesDone, entries, orphans)
    ensures Facts(entries, nodes, orphans, leaves)
  {
    forall h
      ensures InnerKey(h) in leavesDone <==> h in nodes
      ensures InnerKey(h) in leavesDone ==> leavesDone[InnerKey(h)] == InnerValue(nodes[h])
    {
      if InnerKey(h) in leavesDone {
        assert (InnerKey(h), leavesDone[InnerKey(h)]) !in leaves;
      }
    }
  }

  lemma NothingAdded(e: Entries)
    ensures NodesAdded(e, e, map[]) && PlaceholdersAdded(e, e, {})
  {
  }

  lemma AllLeavesAreLeaves(hashes: LeafHashes, proof: StorageProof, initialReads: StateMaps)
    ensures LeafKeysOnly(AllLeaves(hashes, proof, initialReads))
  {
  }

  method CreateFactsDbFromStorageProof(hashes: LeafHashes, proof: StorageProof, q: Query, initialReads: StateMaps)
    returns (r: Result<Database, ProviderError>)
    ensures r.Ok? <==> |proof.contractLeavesData| == |q.contractAddresses|
    ensures r.Err? ==> r.error == LeavesLengthMismatch
    ensures r.Ok? ==> fresh(r.value)
    ensures r.Ok? ==> InnerStocked(proof, r.value.entries) && LeavesStocked(hashes, proof, initialReads, r.value.entries)
    ensures r.Ok? ==>
              var batches := Batches(proof);
              Facts(r.value.entries, NodesUpTo(batches, |batches|), OrphansUpTo(batches, |batches|),
                AllLeaves(hashes, proof, initialReads))
  {
    hide NodesAdded;
    hide LeavesAdded;
    hide PlaceholdersAdded;
    hide Facts;
    hide LeafKeysOnly;
    var db := new Database();
    var batches := Batches(proof);
    NothingAdded(db.entries);
    for i := 0 to |batches|
      invariant NodesAdded(map[], db.entries, NodesUpTo(batches, i))
    {
      ghost var before := db.entries;
      db.InsertInnerNodes(batches[i]);
      NodesTwice(map[], before, db.entries, NodesUpTo(batches, i), batches[i]);
    }
    ghost var nodesDone := db.entries;

    var ok := db.InsertContractLeaves(hashes, proof, q);
    if !ok {
      return Err(LeavesLengthMismatch);
    }
    ghost var mid := db.entries;
    db.InsertStorageLeaves(hashes, initialReads);
    LeavesTwice(nodesDone, mid, db.entries, ContractLeaves(hashes, proof.contractLeavesData),
      StorageLeaves(hashes, initialReads.storage));
    mid := db.entries;
    db.InsertCompiledClassLeaves(hashes, initialReads);
    LeavesTwice(nodesDone, mid, db.entries,
      ContractLeaves(hashes, proof.contractLeavesData) + StorageLeaves(hashes, initialReads.storage),
      CompiledClassLeaves(hashes, initialReads.compiledClassHashes));
    ghost var leavesDone := db.entries;
    NothingAdded(leavesDone);

    for i := 0 to |batches|
      invariant PlaceholdersAdded(leavesDone, db.entries, OrphansUpTo(batches, i))
    {
      ghost var before := db.entries;
      db.AddDummyNodesForOrphanHashes(batches[i]);
      PlaceholdersTwice(leavesDone, before, db.entries, OrphansUpTo(batches, i), Orphans(batches[i]));
    }
    AllLeavesAreLeaves(hashes, proof, initialReads);
    FactsComplete(nodesDone, leavesDone, db.entries, NodesUpTo(batches, |batches|),
      AllLeaves(hashes, proof, initialReads), OrphansUpTo(batches, |batches|));
    InnerFacts(db.entries, proof, AllLeaves(hashes, proof, initialReads));
    LeafFacts(hashes, db.entries, proof, initialReads);
    hide InnerStocked;
    hide LeavesStocked;
    return Ok(db);
  }

  // ------------------------------------------------------------------------
  // What the database means
  // ------------------------------------------------------------------------

  /** One hash stands for one node across the batches. */
  ghost predicate Consistent(batches: seq<NodeMap>) {
    forall i, j, h :: 0 <= i < |batches| && 0 <= j < |batches| && h in batches[i] && h in batches[j] ==>
      batches[i][h] == batches[j][h]
  }

  ghost predicate HasPreimage(batches: seq<NodeMap>, h: Felt) {
    exists i :: 0 <= i < |batches| && h in batches[i]
  }

  ghost predicate IsChild(batches: seq<NodeMap>, h: Felt) {
    exists i :: 0 <= i < |batches| && h in AllChildren(batches[i])
  }

  lemma {:induction false} NodesUpToMember(batches: seq<NodeMap>, n: nat, h: Felt)
    requires n <= |batches|
    ensures h in NodesUpTo(batches, n) <==> exists i :: 0 <= i < n && h in batches[i]
    ensures h in NodesUpTo(batches, n) ==> exists i :: 0 <= i < n && h in batches[i] && NodesUpTo(batches, n)[h] == batches[i][h]
  {
    if n == 0 {
    } else {
      NodesUpToMember(batches, n - 1, h);
    }
  }

  lemma {:induction false} OrphansUpToMember(batches: seq<NodeMap>, n: nat, h: Felt)
    requires n <= |batches|
    ensures h in OrphansUpTo(batches, n) <==> exists i :: 0 <= i < n && h in Orphans(batches[i])
  {
    if n == 0 {
    } else {
      OrphansUpToMember(batches, n - 1, h);
    }
  }

  /** Although preimages are looked up batch by batch, the placeholders are exactly those of the children that no
      batch has a preimage for. */
  lemma OrphansAreGlobal(batches: seq<NodeMap>, h: Felt)
    ensures h in NodesUpTo(batches, |batches|) <==> HasPreimage(batches, h)
    ensures !HasPreimage(batches, h) ==> (h in OrphansUpTo(batches, |batches|) <==> IsChild(batches, h))
    ensures HasPreimage(batches, h) || h in OrphansUpTo(batches, |batches|) <==> HasPreimage(batches, h) || IsChild(batches, h)
  {
    NodesUpToMember(batches, |batches|, h);
    OrphansUpToMember(batches, |batches|, h);
    if !HasPreimage(batches, h) && IsChild(batches, h) {
      var i :| 0 <= i < |batches| && h in AllChildren(batches[i]);
      assert h in Orphans(batches[i]);
    }
  }

  /** Every proof hash has its real node, every child hash has an entry, an inner entry without preimage is a
      placeholder, and there are no other inner entries. */
  lemma FactsMeaning(entries: Entries, batches: seq<NodeMap>, leaves: set<(DbKey, DbValue)>)
    requires Consistent(batches)
    requires Facts(entries, NodesUpTo(batches, |batches|), OrphansUpTo(batches, |batches|), leaves)
    ensures forall h :: InnerKey(h) in entries <==> HasPreimage(batches, h) || IsChild(batches, h)
    ensures forall i, h :: 0 <= i < |batches| && h in batches[i] ==>
              InnerKey(h) in entries && entries[InnerKey(h)] == InnerValue(batches[i][h])
    ensures forall h :: IsChild(batches, h) && !HasPreimage(batches, h) ==>
              entries[InnerKey(h)] == InnerValue(PLACEHOLDER)
  {
    forall h
      ensures InnerKey(h) in entries <==> HasPreimage(batches, h) || IsChild(batches, h)
      ensures IsChild(batches, h) && !HasPreimage(batches, h) ==> entries[InnerKey(h)] == InnerValue(PLACEHOLDER)
    {
      OrphansAreGlobal(batches, h);
    }
    forall i, h | 0 <= i < |batches| && h in batches[i]
      ensures InnerKey(h) in entries && entries[InnerKey(h)] == InnerValue(batches[i][h])
    {
      NodesUpToMember(batches, |batches|, h);
    }
  }

  /** Inner entries are placeholders exactly for the children without preimage in any batch, if and only if no real node
      looks like a placeholder. */
  lemma PlaceholderExactly(entries: Entries, batches: seq<NodeMap>, leaves: set<(DbKey, DbValue)>)
    requires Consistent(batches)
    requires Facts(entries, NodesUpTo(batches, |batches|), OrphansUpTo(batches, |batches|), leaves)
    ensures (forall h: Felt ::
               (InnerKey(h) in entries && entries[InnerKey(h)] == InnerValue(PLACEHOLDER))
               <==> (IsChild(batches, h) && !HasPreimage(batches, h)))
            <==> (forall i, x :: 0 <= i < |batches| && x in batches[i] ==> batches[i][x] != PLACEHOLDER)
  {
    FactsMeaning(entries, batches, leaves);
    hide Facts;
    hide Consistent;
    if i, x :| 0 <= i < |batches| && x in batches[i] && batches[i][x] == PLACEHOLDER {
      assert InnerKey(x) in entries && entries[InnerKey(x)] == InnerValue(PLACEHOLDER);
      assert HasPreimage(batches, x);
    }
  }

  /** A reply whose one node has two zero children. */
  const ZERO_CHILDREN := StorageProof(map[], map[7 := BinaryNode(ZERO, ZERO)], [], [], GlobalRoots(7, ZERO, ZERO))

  /** Its database has a placeholder under 7, a hash with a preimage. */
  lemma RealNodeLooksLikePlaceholder(entries: Entries, leaves: set<(DbKey, DbValue)>)
    requires var batches := Batches(ZERO_CHILDREN);
             Facts(entries, NodesUpTo(batches, |batches|), OrphansUpTo(batches, |batches|), leaves)
    ensures Consistent(Batches(ZERO_CHILDREN))
    ensures InnerKey(7) in entries && entries[InnerKey(7)] == InnerValue(PLACEHOLDER)
    ensures HasPreimage(Batches(ZERO_CHILDREN), 7)
  {
    var batches := Batches(ZERO_CHILDREN);
    assert batches[0] == ZERO_CHILDREN.contractsNodes && batches[1] == map[] && |batches| == 2;
    assert 7 in batches[0] && batches[0][7] == PLACEHOLDER;
    FactsMeaning(entries, batches, leaves);
  }

  /** The order of the batches does not matter. */
  lemma BatchOrderIrrelevant(
    entries: Entries, batches: seq<NodeMap>, entries': Entries, batches': seq<NodeMap>, leaves: set<(DbKey, DbValue)>)
    requires Consistent(batches) && Consistent(batches')
    requires forall b :: b in batches <==> b in batches'
    requires Facts(entries, NodesUpTo(batches, |batches|), OrphansUpTo(batches, |batches|), leaves)
    requires Facts(entries', NodesUpTo(batches', |batches'|), OrphansUpTo(batches', |batches'|), leaves)
    ensures forall h :: InnerKey(h) in entries <==> InnerKey(h) in entries'
    ensures forall h :: InnerKey(h) in entries ==> entries[InnerKey(h)] == entries'[InnerKey(h)]
  {
    FactsMeaning(entries, batches, leaves);
    FactsMeaning(entries', batches', leaves);
    forall h
      ensures InnerKey(h) in entries <==> InnerKey(h) in entries'
      ensures InnerKey(h) in entries ==> entries[InnerKey(h)] == entries'[InnerKey(h)]
    {
      SameBatches(batches, batches', h);
      SameBatches(batches', batches, h);
      if HasPreimage(batches, h) {
        var i :| 0 <= i < |batches| && h in batches[i];
        assert batches[i] in batches';
        var j :| 0 <= j < |batches'| && batches'[j] == batches[i];
        assert entries'[InnerKey(h)] == InnerValue(batches'[j][h]);
      }
    }
  }

  lemma SameBatches(batches: seq<NodeMap>, batches': seq<NodeMap>, h: Felt)
    requires forall b :: b in batches ==> b in batches'
    ensures HasPreimage(batches, h) ==> HasPreimage(batches', h)
    ensures IsChild(batches, h) ==> IsChild(batches', h)
  {
    if HasPreimage(batches, h) {
      var i :| 0 <= i < |batches| && h in batches[i];
      assert batches[i] in batches';
    }
    if IsChild(batches, h) {
      var i :| 0 <= i < |batches| && h in AllChildren(batches[i]);
      assert batches[i] in batches';
    }
  }

  // ------------------------------------------------------------------------
  // The database, read off the reply itself
  // ------------------------------------------------------------------------

  /** The reply lists this node under this hash, in the contracts, the classes or some storage proof. */
  ghost predicate Listed(proof: StorageProof, hash: Felt, node: MerkleNode) {
    || (hash in proof.contractsNodes && proof.contractsNodes[hash] == node)
    || (hash in proof.classesProof && proof.classesProof[hash] == node)
    || (exists i :: 0 <= i < |proof.contractsStorageProofs| && hash in proof.contractsStorageProofs[i]
                    && proof.contractsStorageProofs[i][hash] == node)
  }

  ghost predicate IsChildOf(hash: Felt, node: MerkleNode) {
    match node
    case BinaryNode(left, right) => hash == left || hash == right
    case EdgeNode(child, _) => hash == child
  }

  /** A hash has an inner entry exactly when it is listed or a child of a listed node. The entry of a listed hash is a node
      listed under it; any other is a binary node with two zero children. */
  ghost predicate InnerStocked(proof: StorageProof, entries: Entries) {
    && (forall h: Felt :: InnerKey(h) in entries
          <==> (exists n :: Listed(proof, h, n)) || (exists x: Felt, n :: Listed(proof, x, n) && IsChildOf(h, n)))
    && (forall h: Felt :: InnerKey(h) in entries ==>
          if exists n :: Listed(proof, h, n)
          then exists n :: Listed(proof, h, n) && entries[InnerKey(h)] == InnerValue(n)
          else entries[InnerKey(h)] == InnerValue(BinaryNode(0, 0)))
  }

  /** The state that a contract leaf of the reply stands for; without a storage root the root is zero. */
  ghost predicate LeafSays(leaf: ContractLeafData, state: ContractState) {
    && state.nonce == leaf.nonce && state.classHash == leaf.classHash
    && state.storageRootHash == (match leaf.storageRoot case Some(root) => root case None => 0)
  }

  /** Every leaf is there under its own hash. */
  ghost predicate LeavesPresent(hashes: LeafHashes, proof: StorageProof, initialReads: StateMaps, entries: Entries) {
    && (forall leaf, state :: leaf in proof.contractLeavesData && LeafSays(leaf, state) ==>
          ContractLeafKey(hashes.contract(state)) in entries)
    && (forall e :: e in initialReads.storage ==> StorageLeafKey(e.0, hashes.storage(initialReads.storage[e])) in entries)
    && (forall c :: c in initialReads.compiledClassHashes ==>
          CompiledClassLeafKey(hashes.compiledClass(initialReads.compiledClassHashes[c])) in entries)
  }

  /** Every leaf entry is one of the leaves, under its own hash. */
  ghost predicate LeavesReal(hashes: LeafHashes, proof: StorageProof, initialReads: StateMaps, entries: Entries) {
    && (forall h: Felt :: ContractLeafKey(h) in entries ==>
          exists leaf, state :: leaf in proof.contractLeavesData && LeafSays(leaf, state)
                                && h == hashes.contract(state) && entries[ContractLeafKey(h)] == ContractLeafValue(state))
    && (forall a: ContractAddress, h: Felt :: StorageLeafKey(a, h) in entries ==>
          exists k :: (a, k) in initialReads.storage
                      && h == hashes.storage(initialReads.storage[(a, k)])
                      && entries[StorageLeafKey(a, h)] == StorageLeafValue(initialReads.storage[(a, k)]))
    && (forall h: Felt :: CompiledClassLeafKey(h) in entries ==>
          exists c :: c in initialReads.compiledClassHashes
                      && h == hashes.compiledClass(initialReads.compiledClassHashes[c])
                      && entries[CompiledClassLeafKey(h)] == CompiledClassLeafValue(initialReads.compiledClassHashes[c]))
  }

  ghost predicate LeavesStocked(hashes: LeafHashes, proof: StorageProof, initialReads: StateMaps, entries: Entries) {
    LeavesPresent(hashes, proof, initialReads, entries) && LeavesReal(hashes, proof, initialReads, entries)
  }

  lemma BatchesList(proof: StorageProof, h: Felt, n: MerkleNode)
    ensures Listed(proof, h, n) <==> exists i :: 0 <= i < |Batches(proof)| && h in Batches(proof)[i] && Batches(proof)[i][h] == n
  {
    var batches := Batches(proof);
    assert batches[0] == proof.contractsNodes && batches[1] == proof.classesProof;
    assert forall i :: 0 <= i < |proof.contractsStorageProofs| ==> batches[2 + i] == proof.contractsStorageProofs[i];
    forall i | 0 <= i < |batches| && h in batches[i] && batches[i][h] == n
      ensures Listed(proof, h, n)
    {
      if i >= 2 {
        assert batches[i] == proof.contractsStorageProofs[i - 2];
      }
    }
  }

  lemma ListedHash(proof: StorageProof, h: Felt)
    ensures HasPreimage(Batches(proof), h) <==> exists n :: Listed(proof, h, n)
    ensures IsChild(Batches(proof), h) <==> exists x: Felt, n :: Listed(proof, x, n) && IsChildOf(h, n)
  {
    var batches := Batches(proof);
    hide Batches;
    hide Listed;
    if HasPreimage(batches, h) {
      var i :| 0 <= i < |batches| && h in batches[i];
      BatchesList(proof, h, batches[i][h]);
    }
    if n :| Listed(proof, h, n) {
      BatchesList(proof, h, n);
    }
    if IsChild(batches, h) {
      var i :| 0 <= i < |batches| && h in AllChildren(batches[i]);
      var x :| x in batches[i] && h in Children(batches[i][x]);
      BatchesList(proof, x, batches[i][x]);
    }
    if x: Felt, n :| Listed(proof, x, n) && IsChildOf(h, n) {
      BatchesList(proof, x, n);
      var i :| 0 <= i < |batches| && x in batches[i] && batches[i][x] == n;
      assert h in Children(batches[i][x]);
      assert h in AllChildren(batches[i]);
    }
  }

  lemma InnerFacts(entries: Entries, proof: StorageProof, leaves: set<(DbKey, DbValue)>)
    requires var batches := Batches(proof);
             Facts(entries, NodesUpTo(batches, |batches|), OrphansUpTo(batches, |batches|), leaves)
    ensures InnerStocked(proof, entries)
  {
    var batches := Batches(proof);
    hide Batches;
    hide Listed;
    hide HasPreimage;
    hide IsChild;
    hide IsChildOf;
    forall h: Felt
      ensures InnerKey(h) in entries
              <==> (exists n :: Listed(proof, h, n)) || (exists x: Felt, n :: Listed(proof, x, n) && IsChildOf(h, n))
    {
      OrphansAreGlobal(batches, h);
      ListedHash(proof, h);
    }
    forall h: Felt | InnerKey(h) in entries
      ensures if exists n :: Listed(proof, h, n)
              then exists n :: Listed(proof, h, n) && entries[InnerKey(h)] == InnerValue(n)
              else entries[InnerKey(h)] == InnerValue(BinaryNode(0, 0))
    {
      InnerEntry(entries, proof, leaves, h);
    }
  }

  lemma InnerEntry(entries: Entries, proof: StorageProof, leaves: set<(DbKey, DbValue)>, h: Felt)
    requires var batches := Batches(proof);
             Facts(entries, NodesUpTo(batches, |batches|), OrphansUpTo(batches, |batches|), leaves)
    requires InnerKey(h) in entries
    ensures if exists n :: Listed(proof, h, n)
            then exists n :: Listed(proof, h, n) && entries[InnerKey(h)] == InnerValue(n)
            else entries[InnerKey(h)] == InnerValue(BinaryNode(0, 0))
  {
    var batches := Batches(proof);
    hide Batches;
    hide Listed;
    OrphansAreGlobal(batches, h);
    ListedHash(proof, h);
    NodesUpToMember(batches, |batches|, h);
    if exists n :: Listed(proof, h, n) {
      var i :| 0 <= i < |batches| && h in batches[i] && NodesUpTo(batches, |batches|)[h] == batches[i][h];
      BatchesList(proof, h, batches[i][h]);
    }
  }

  lemma LeafKeys(hashes: LeafHashes, entries: Entries, proof: StorageProof, initialReads: StateMaps)
    requires var batches := Batches(proof);
             Facts(entries, NodesUpTo(batches, |batches|), OrphansUpTo(batches, |batches|), AllLeaves(hashes, proof, initialReads))
    ensures LeavesPresent(hashes, proof, initialReads, entries)
  {
    hide NodesUpTo;
    hide OrphansUpTo;
    var leaves := AllLeaves(hashes, proof, initialReads);
    forall leaf, state | leaf in proof.contractLeavesData && LeafSays(leaf, state)
      ensures ContractLeafKey(hashes.contract(state)) in entries
    {
      assert state == StateOf(leaf);
      assert ContractLeaf(hashes, leaf) in ContractLeaves(hashes, proof.contractLeavesData);
      assert ContractLeaf(hashes, leaf) in leaves;
    }
    forall e | e in initialReads.storage
      ensures StorageLeafKey(e.0, hashes.storage(initialReads.storage[e])) in entries
    {
      assert StorageLeaf(hashes, e.0, initialReads.storage[e]) in StorageLeaves(hashes, initialReads.storage);
      assert StorageLeaf(hashes, e.0, initialReads.storage[e]) in leaves;
    }
    forall c | c in initialReads.compiledClassHashes
      ensures CompiledClassLeafKey(hashes.compiledClass(initialReads.compiledClassHashes[c])) in entries
    {
      assert CompiledClassLeaf(hashes, initialReads.compiledClassHashes[c])
             in CompiledClassLeaves(hashes, initialReads.compiledClassHashes);
      assert CompiledClassLeaf(hashes, initialReads.compiledClassHashes[c]) in leaves;
    }
  }

  lemma LeafEntries(hashes: LeafHashes, entries: Entries, proof: StorageProof, initialReads: StateMaps)
    requires var batches := Batches(proof);
             Facts(entries, NodesUpTo(batches, |batches|), OrphansUpTo(batches, |batches|), AllLeaves(hashes, proof, initialReads))
    ensures LeavesReal(hashes, proof, initialReads, entries)
  {
    hide NodesUpTo;
    hide OrphansUpTo;
    var leaves := AllLeaves(hashes, proof, initialReads);
    forall h: Felt | ContractLeafKey(h) in entries
      ensures exists leaf, state :: leaf in proof.contractLeavesData && LeafSays(leaf, state)
                                    && h == hashes.contract(state) && entries[ContractLeafKey(h)] == ContractLeafValue(state)
    {
      assert (ContractLeafKey(h), entries[ContractLeafKey(h)]) in leaves;
      var leaf :| leaf in proof.contractLeavesData && ContractLeaf(hashes, leaf) == (ContractLeafKey(h), entries[ContractLeafKey(h)]);
      assert LeafSays(leaf, StateOf(leaf));
    }
    forall a: ContractAddress, h: Felt | StorageLeafKey(a, h) in entries
      ensures exists k :: (a, k) in initialReads.storage
                          && h == hashes.storage(initialReads.storage[(a, k)])
                          && entries[StorageLeafKey(a, h)] == StorageLeafValue(initialReads.storage[(a, k)])
    {
      assert (StorageLeafKey(a, h), entries[StorageLeafKey(a, h)]) in leaves;
      var e :| e in initialReads.storage
               && StorageLeaf(hashes, e.0, initialReads.storage[e]) == (StorageLeafKey(a, h), entries[StorageLeafKey(a, h)]);
      assert (a, e.1) == e;
    }
    forall h: Felt | CompiledClassLeafKey(h) in entries
      ensures exists c :: c in initialReads.compiledClassHashes
                          && h == hashes.compiledClass(initialReads.compiledClassHashes[c])
                          && entries[CompiledClassLeafKey(h)] == CompiledClassLeafValue(initialReads.compiledClassHashes[c])
    {
      assert (CompiledClassLeafKey(h), entries[CompiledClassLeafKey(h)]) in leaves;
      var c :| c in initialReads.compiledClassHashes
               && CompiledClassLeaf(hashes, initialReads.compiledClassHashes[c])
                  == (CompiledClassLeafKey(h), entries[CompiledClassLeafKey(h)]);
    }
  }

  lemma LeafFacts(hashes: LeafHashes, entries: Entries, proof: StorageProof, initialReads: StateMaps)
    requires var batches := Batches(proof);
             Facts(entries, NodesUpTo(batches, |batches|), OrphansUpTo(batches, |batches|), AllLeaves(hashes, proof, initialReads))
    ensures LeavesStocked(hashes, proof, initialReads, entries)
  {
    LeafKeys(hashes, entries, proof, initialReads);
    LeafEntries(hashes, entries, proof, initialReads);
    hide LeavesPresent;
    hide LeavesReal;
  }
}
