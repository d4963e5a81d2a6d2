/** A node that meets everything the pipeline asks of one: two keys in each trie, a sibling whose node is not in the proof,
    and a stored value that happens to be the hash of a node. */
module HonestNode {
  import opened Felts
  import opened Merkle
  import opened Patricia
  import opened StorageQueries
  import opened StorageProofs
  import opened ProofProvider
  import opened FactsDb
  import opened Commit
  import opened Pipeline

  function Zeros(n: nat): (path: Bits)
    ensures |path| == n
  {
    if n == 0 then [] else [false] + Zeros(n - 1)
  }

  const PATH: Bits := Zeros(TREE_HEIGHT - 1)

  const ROOT: Felt := 9
  const LEFT: Felt := 22
  const RIGHT: Felt := 12

  /** Every binary node hashes to the root; an edge adds ten to its child. */
  const HASHER := Hasher(v => v, (_, _) => ROOT, (child: Felt, _) => FromNat(child + 10))

  const HASHES := TrieHashes(HASHER, HASHER, LeafHashes(_ => 1, v => v, v => v))

  /** The value on the left is the hash of the edge on the right. */
  const CONTENTS: Contents := map[[true] + PATH := 2][[false] + PATH := RIGHT]

  const TRIE := Binary(Edge(PATH, Leaf(RIGHT)), Edge(PATH, Leaf(2)))

  function TopBit(n: Felt): bool {
    ToBits(n, TREE_HEIGHT)[0]
  }

  function NodeUnder(hash: Felt): MerkleNode {
    if hash == ROOT then BinaryNode(LEFT, RIGHT) else EdgeNode(if hash == LEFT then RIGHT else 2, PATH)
  }

  function PathOf(n: Felt): set<Felt> {
    {ROOT, if TopBit(n) then RIGHT else LEFT}
  }

  /** Every contract's storage trie and the contracts trie look alike. */
  function TwoKeyNode(): RpcNode {
    RpcNode(_ => {}, NodeUnder, PathOf, NodeUnder, _ => ContractLeafData(ZERO, ZERO, Some(ROOT)),
      (_, k) => PathOf(k), NodeUnder, GlobalRoots(ROOT, ZERO, ZERO))
  }

  function TwoKeyChain(): Chain {
    Chain(_ => CONTENTS, CONTENTS)
  }

  lemma BuildNothing(height: nat)
    ensures Build(height, map[]) == Empty
  {
  }

  lemma BuildOne(v: Felt)
    ensures Build(0, map[[] := v]) == Leaf(v)
  {
    var m: Contents := map[[] := v];
    assert [] in m && m[[]] == v;
  }

  lemma {:induction false} OneKeyTrie(key: Bits, v: Felt)
    ensures Build(|key|, map[key := v]) == if key == [] then Leaf(v) else Edge(key, Leaf(v))
  {
    hide Build;
    hide Half;
    if key == [] {
      BuildOne(v);
    } else {
      var m: Contents := map[key := v];
      HalfOfOne(key, v, false);
      HalfOfOne(key, v, true);
      OneKeyTrie(key[1..], v);
      BuildNothing(|key| - 1);
      BuildUnfold(|key|, m);
      assert key == [key[0]] + key[1..];
      assert key[1..] == [] ==> key == [key[0]];
    }
  }

  lemma TheHalves()
    ensures Half(CONTENTS, false) == map[PATH := RIGHT]
    ensures Half(CONTENTS, true) == map[PATH := 2]
  {
    hide Half;
    var left, right := [false] + PATH, [true] + PATH;
    assert left[1..] == PATH && right[1..] == PATH;
    HalfInsert(map[right := 2], left, RIGHT, false);
    HalfInsert(map[right := 2], left, RIGHT, true);
    HalfOfOne(right, 2, false);
    HalfOfOne(right, 2, true);
  }

  lemma TheTrie()
    ensures KeysHaveLength(CONTENTS, TREE_HEIGHT) && Build(TREE_HEIGHT, CONTENTS) == TRIE
  {
    hide Build;
    hide Half;
    TheHalves();
    OneKeyTrie(PATH, RIGHT);
    OneKeyTrie(PATH, 2);
    BuildUnfold(TREE_HEIGHT, CONTENTS);
  }

  lemma TheHashes()
    ensures Hash(HASHER, TRIE) == ROOT && NonZero(HASHER, TRIE)
    ensures Hash(HASHER, TRIE.left) == LEFT && Hash(HASHER, TRIE.right) == RIGHT
  {
    assert Hash(HASHER, TRIE.left) == FromNat(22) && Hash(HASHER, TRIE.right) == FromNat(12);
    assert NonZero(HASHER, TRIE.left) && NonZero(HASHER, TRIE.right);
  }

  /** The nodes of one path prove the key that has it. */
  lemma PathProves(nodes: NodeMap, n: Felt)
    requires forall x :: x in PathOf(n) ==> x in nodes && nodes[x] == NodeUnder(x)
    ensures Proves(nodes, HASHER, TRIE, ToBits(n, TREE_HEIGHT))
  {
    var key := ToBits(n, TREE_HEIGHT);
    TheHashes();
    hide ToBits;
    assert ROOT in PathOf(n);
    assert (if key[0] then RIGHT else LEFT) in PathOf(n);
    var below := if key[0] then TRIE.right else TRIE.left;
    assert Proves(nodes, HASHER, below.bottom, key[1..][|PATH|..]);
    assert PATH <= key[1..] ==> Proves(nodes, HASHER, below, key[1..]);
    assert Proves(nodes, HASHER, below, key[1..]);
  }

  lemma TwoKeyPaths(n: Felt, path: Felt -> set<Felt>)
    requires path(n) == PathOf(n)
    ensures forall x :: x in PathOf(n) ==>
              x in PathNodes({n}, path, NodeUnder) && PathNodes({n}, path, NodeUnder)[x] == NodeUnder(x)
  {
  }

  lemma {:induction false} ZeroBits(height: nat)
    requires height > 0
    ensures ToBits(0, height)[0] == false
  {
    if height == 1 {
      assert ToBits(0, 1) == [] + [false];
    } else {
      ZeroBits(height - 1);
    }
  }

  /** All guarantees hold, while the proof of contract 0 names a sibling without its node. */
  lemma TwoKeyNodeIsHonest()
    ensures Honest(TwoKeyNode(), HASHES, TwoKeyChain()) && OneNodePerHash(TwoKeyNode(), HASHES, TwoKeyChain())
    ensures var proof := ContractNodes(TwoKeyNode(), {0});
            RIGHT in AllChildren(proof) && RIGHT !in proof
  {
    hide Build;
    hide Proves;
    hide NonZero;
    hide Hash;
    hide ListsInner;
    hide ToBits;
    hide ContractNodes;
    hide StorageNodes;
    hide AllChildren;
    TheTrie();
    TheHashes();
    SiblingMissing();
    TrieListed();
    forall n: Felt
      ensures Proves(ContractNodes(TwoKeyNode(), {n}), HASHER, TRIE, ToBits(n, TREE_HEIGHT))
    {
      TwoKeysProved(n, 0);
    }
    forall n: Felt, a: Felt
      ensures Proves(StorageNodes(TwoKeyNode(), a, {n}), HASHER, TRIE, ToBits(n, TREE_HEIGHT))
    {
      TwoKeysProved(n, a);
    }
    assert StorageRoot(TwoKeyNode().leaf(0)) == ROOT;
  }

  lemma TwoKeysProved(n: Felt, a: Felt)
    ensures Proves(ContractNodes(TwoKeyNode(), {n}), HASHER, TRIE, ToBits(n, TREE_HEIGHT))
    ensures Proves(StorageNodes(TwoKeyNode(), a, {n}), HASHER, TRIE, ToBits(n, TREE_HEIGHT))
  {
    hide Proves;
    hide PathOf;
    hide NodeUnder;
    var node := TwoKeyNode();
    TwoKeyPaths(n, node.contractPath);
    PathProves(ContractNodes(node, {n}), n);
    TwoKeyPaths(n, k => node.storagePath(a, k));
    PathProves(StorageNodes(node, a, {n}), n);
  }

  lemma SiblingMissing()
    ensures var proof := ContractNodes(TwoKeyNode(), {0});
            RIGHT in AllChildren(proof) && RIGHT !in proof
  {
    ZeroBits(TREE_HEIGHT);
    var proof := ContractNodes(TwoKeyNode(), {0});
    assert PathOf(0) == {ROOT, LEFT};
    assert ROOT in TwoKeyNode().contractPath(0);
    assert proof[ROOT] == BinaryNode(LEFT, RIGHT);
    assert RIGHT in Children(proof[ROOT]);
  }

  lemma TrieListed()
    ensures ListsInner(TwoKeyNode(), HASHER, TRIE)
  {
    TheHashes();
    assert ListsInner(TwoKeyNode(), HASHER, TRIE.left);
    assert ListsInner(TwoKeyNode(), HASHER, TRIE.right);
  }
}
