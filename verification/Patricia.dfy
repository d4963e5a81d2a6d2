/** The Merkle-Patricia trie of the Starknet state, its canonical form, and an update that works on stored nodes only.

    The update reads the sibling of every node it rewrites. Proofs do not contain those siblings, so the facts
    database holds placeholders for them; PatriciaUpdate says when a placeholder does no harm. */
module Patricia {
  import opened Felts
  import opened Merkle

  /** The hash functions of one trie, uninterpreted. */
  datatype Hasher = Hasher(leaf: Felt -> Felt, binary: (Felt, Felt) -> Felt, edge: (Felt, Bits) -> Felt)

  // ------------------------------------------------------------------------
  // The reference: the canonical trie of a finite map
  // ------------------------------------------------------------------------

  datatype Trie =
    | Empty
    | Leaf(value: Felt)
    | Binary(left: Trie, right: Trie)
    | Edge(path: Bits, bottom: Trie)

  type Contents = map<Bits, Felt>

  ghost predicate KeysHaveLength(m: Contents, height: nat) {
    forall k :: k in m ==> |k| == height
  }

  /** The entries below one child, with the first bit removed from their keys. */
  function Half(m: Contents, bit: bool): Contents {
    map k | k in (set key | key in m.Keys && |key| > 0 && key[0] == bit :: key[1..]) && [bit] + k in m :: m[[bit] + k]
  }

  lemma HalfMember(m: Contents, bit: bool, k: Bits)
    ensures k in Half(m, bit) <==> [bit] + k in m
    ensures k in Half(m, bit) ==> Half(m, bit)[k] == m[[bit] + k]
  {
    assert ([bit] + k)[1..] == k;
  }

  /** An edge grows by one bit instead of ending in another edge. */
  function Extend(bit: bool, t: Trie): Trie {
    if t.Edge? then Edge([bit] + t.path, t.bottom) else Edge([bit], t)
  }

  function Combine(left: Trie, right: Trie): Trie {
    match (left, right)
    case (Empty, Empty) => Empty
    case (Empty, _) => Extend(true, right)
    case (_, Empty) => Extend(false, left)
    case _ => Binary(left, right)
  }

  function Build(height: nat, m: Contents): Trie {
    if m == map[] then Empty
    else if height == 0 then (if [] in m then Leaf(m[[]]) else Empty)
    else Combine(Build(height - 1, Half(m, false)), Build(height - 1, Half(m, true)))
  }

  function Hash(h: Hasher, t: Trie): Felt {
    match t
    case Empty => ZERO
    case Leaf(value) => h.leaf(value)
    case Binary(left, right) => h.binary(Hash(h, left), Hash(h, right))
    case Edge(path, bottom) => h.edge(Hash(h, bottom), path)
  }

  /** Writing to the map: a zero value removes its key. */
  function Apply(m: Contents, writes: Contents): Contents {
    map k | k in m.Keys + writes.Keys && (k in writes ==> writes[k] != ZERO) :: if k in writes then writes[k] else m[k]
  }

  // ------------------------------------------------------------------------
  // The update over stored nodes
  // ------------------------------------------------------------------------

  datatype DbError = MissingNode(hash: Felt) | MalformedNode

  /** Where the update stands: at a hashed node, or part of the way down an edge. */
  datatype Ref = Hashed(hash: Felt) | EdgeRest(path: Bits, bottom: Felt)

  /** The top of a subtree as far as its parent needs it. An edge is kept apart so that a parent can lengthen it. */
  datatype View = NoNode | Whole(hash: Felt) | EdgeTo(path: Bits, bottom: Felt)

  function ViewHash(h: Hasher, v: View): Felt {
    match v
    case NoNode => ZERO
    case Whole(hash) => hash
    case EdgeTo(path, bottom) => h.edge(bottom, path)
  }

  function ExtendView(bit: bool, v: View): View {
    match v
    case NoNode => NoNode
    case Whole(hash) => EdgeTo([bit], hash)
    case EdgeTo(path, bottom) => EdgeTo([bit] + path, bottom)
  }

  function JoinViews(h: Hasher, left: View, right: View): View {
    if left.NoNode? then ExtendView(true, right)
    else if right.NoNode? then ExtendView(false, left)
    else Whole(h.binary(ViewHash(h, left), ViewHash(h, right)))
  }

  function ExpandEdge(path: Bits, bottom: Felt): Result<(Ref, Ref), DbError> {
    if path == [] then Err(MalformedNode)
    else
      var rest := if |path| == 1 then Hashed(bottom) else EdgeRest(path[1..], bottom);
      Ok(if path[0] then (Hashed(ZERO), rest) else (rest, Hashed(ZERO)))
  }

  /** The two children of a node. */
  function Expand(db: NodeMap, ref: Ref): Result<(Ref, Ref), DbError> {
    match ref
    case EdgeRest(path, bottom) => ExpandEdge(path, bottom)
    case Hashed(hash) =>
      if hash == ZERO then Ok((Hashed(ZERO), Hashed(ZERO)))
      else if hash !in db then Err(MissingNode(hash))
      else
        match db[hash]
        case BinaryNode(left, right) => Ok((Hashed(left), Hashed(right)))
        case EdgeNode(child, path) => ExpandEdge(path, child)
  }

  /** Reads the top of a subtree that has no writes. Only leaves are not looked up. */
  function ReadView(db: NodeMap, ref: Ref, height: nat): Result<View, DbError> {
    match ref
    case EdgeRest(path, bottom) => Ok(EdgeTo(path, bottom))
    case Hashed(hash) =>
      if hash == ZERO then Ok(NoNode)
      else if height == 0 then Ok(Whole(hash))
      else if hash !in db then Err(MissingNode(hash))
      else
        match db[hash]
        case BinaryNode(_, _) => Ok(Whole(hash))
        case EdgeNode(child, path) => Ok(EdgeTo(path, child))
  }

  function Update(db: NodeMap, h: Hasher, ref: Ref, height: nat, writes: Contents): Result<View, DbError>
    decreases height
  {
    if writes == map[] then ReadView(db, ref, height)
    else if height == 0 then
      Ok(if [] in writes && writes[[]] != ZERO then Whole(h.leaf(writes[[]])) else NoNode)
    else
      match Expand(db, ref)
      case Err(e) => Err(e)
      case Ok((left, right)) =>
        match Update(db, h, left, height - 1, Half(writes, false))
        case Err(e) => Err(e)
        case Ok(l) =>
          match Update(db, h, right, height - 1, Half(writes, true))
          case Err(e) => Err(e)
          case Ok(r) => Ok(JoinViews(h, l, r))
  }

  /** The new root hash. */
  function UpdateRoot(db: NodeMap, h: Hasher, root: Felt, height: nat, writes: Contents): Result<Felt, DbError> {
    match Update(db, h, Hashed(root), height, writes)
    case Err(e) => Err(e)
    case Ok(v) => Ok(ViewHash(h, v))
  }

  // ------------------------------------------------------------------------
  // What the database must hold
  // ------------------------------------------------------------------------

  function NodeOf(h: Hasher, t: Trie): MerkleNode
    requires t.Binary? || t.Edge?
  {
    if t.Binary? then BinaryNode(Hash(h, t.left), Hash(h, t.right)) else EdgeNode(Hash(h, t.bottom), t.path)
  }

  ghost predicate Stored(nodes: NodeMap, h: Hasher, t: Trie) {
    t.Binary? || t.Edge? ==> Hash(h, t) in nodes && nodes[Hash(h, t)] == NodeOf(h, t)
  }

  /** The proof of one key: the nodes from the top of the trie down to the key's leaf, or to the place where the key
      leaves the trie. */
  ghost predicate Proves(nodes: NodeMap, h: Hasher, t: Trie, key: Bits)
    decreases t, 1
  {
    Stored(nodes, h, t) && ProvesBelow(nodes, h, t, key)
  }

  ghost predicate ProvesBelow(nodes: NodeMap, h: Hasher, t: Trie, key: Bits)
    decreases t, 0
  {
    match t
    case Empty => true
    case Leaf(_) => true
    case Binary(left, right) => key != [] ==> Proves(nodes, h, if key[0] then right else left, key[1..])
    case Edge(path, bottom) => path <= key ==> Proves(nodes, h, bottom, key[|path|..])
  }

  /** Every node of the trie is stored. */
  ghost predicate StoredAll(nodes: NodeMap, h: Hasher, t: Trie)
    decreases t, 1
  {
    Stored(nodes, h, t) && StoredBelow(nodes, h, t)
  }

  ghost predicate StoredBelow(nodes: NodeMap, h: Hasher, t: Trie)
    decreases t, 0
  {
    match t
    case Empty => true
    case Leaf(_) => true
    case Binary(left, right) => StoredAll(nodes, h, left) && StoredAll(nodes, h, right)
    case Edge(_, bottom) => StoredAll(nodes, h, bottom)
  }

  /** No node of the trie hashes to zero, the hash that stands for the empty trie. */
  ghost predicate NonZero(h: Hasher, t: Trie)
    decreases t, 1
  {
    t.Empty? || (Hash(h, t) != ZERO && NonZeroBelow(h, t))
  }

  ghost predicate NonZeroBelow(h: Hasher, t: Trie)
    decreases t, 0
  {
    match t
    case Empty => true
    case Leaf(_) => true
    case Binary(left, right) => NonZero(h, left) && NonZero(h, right)
    case Edge(_, bottom) => NonZero(h, bottom)
  }

  /** What the facts database holds for a hash without preimage. */
  const PLACEHOLDER := BinaryNode(ZERO, ZERO)

  /** Binary nodes and edges are looked up by their hash; leaves and the empty trie never are. */
  predicate Inner(t: Trie) {
    t.Binary? || t.Edge?
  }

  /** The sibling of a rewritten node is read but not opened: under its hash there must be its own node, or a binary
      node in its place. Nothing is asked of a leaf. */
  ghost predicate Readable(db: NodeMap, h: Hasher, t: Trie) {
    Inner(t) ==> Hash(h, t) in db && (db[Hash(h, t)].BinaryNode? || db[Hash(h, t)] == NodeOf(h, t))
  }

  /** What an update of one key touches: the nodes on the key's path are stored, their other children readable. */
  ghost predicate Open(db: NodeMap, h: Hasher, t: Trie, key: Bits)
    decreases t, 1
  {
    Stored(db, h, t) && OpenBelow(db, h, t, key)
  }

  ghost predicate OpenBelow(db: NodeMap, h: Hasher, t: Trie, key: Bits)
    decreases t, 0
  {
    match t
    case Empty => true
    case Leaf(_) => true
    case Binary(left, right) =>
      key != [] ==>
        if key[0] then Open(db, h, right, key[1..]) && Readable(db, h, left)
        else Open(db, h, left, key[1..]) && Readable(db, h, right)
    case Edge(path, bottom) => if path <= key then Open(db, h, bottom, key[|path|..]) else Readable(db, h, bottom)
  }

  /** Where the nodes have the hash of an inner node of the trie, they have that node. */
  ghost predicate TrueNodes(nodes: NodeMap, h: Hasher, t: Trie) {
    && (Inner(t) && Hash(h, t) in nodes ==> nodes[Hash(h, t)] == NodeOf(h, t))
    && match t
       case Empty => true
       case Leaf(_) => true
       case Binary(left, right) => TrueNodes(nodes, h, left) && TrueNodes(nodes, h, right)
       case Edge(_, bottom) => TrueNodes(nodes, h, bottom)
  }

  /** The database holds the nodes, an entry for each of their children, and otherwise only binary nodes. */
  ghost predicate Closed(db: NodeMap, nodes: NodeMap) {
    && (forall x :: x in nodes ==> x in db && db[x] == nodes[x] && Children(nodes[x]) <= db.Keys)
    && (forall x :: x in db && x !in nodes ==> db[x].BinaryNode?)
  }

  // ------------------------------------------------------------------------
  // From proofs to open paths
  // ------------------------------------------------------------------------

  lemma ChildReadable(db: NodeMap, h: Hasher, nodes: NodeMap, child: Trie)
    requires Closed(db, nodes) && TrueNodes(nodes, h, child)
    requires Hash(h, child) in db
    ensures Readable(db, h, child)
  {
  }

  /** The proof of a key and an entry for each child of a proof node open the key's path. */
  lemma {:induction false} ProofOpens(db: NodeMap, h: Hasher, nodes: NodeMap, t: Trie, key: Bits)
    requires Closed(db, nodes) && TrueNodes(nodes, h, t) && Proves(nodes, h, t, key)
    ensures Open(db, h, t, key)
    decreases t
  {
    match t
    case Empty =>
    case Leaf(_) =>
    case Binary(left, right) =>
      assert Children(nodes[Hash(h, t)]) == {Hash(h, left), Hash(h, right)};
      if key == [] {
      } else {
        ChildReadable(db, h, nodes, left);
        ChildReadable(db, h, nodes, right);
        ProofOpens(db, h, nodes, if key[0] then right else left, key[1..]);
      }
    case Edge(path, bottom) =>
      assert Children(nodes[Hash(h, t)]) == {Hash(h, bottom)};
      if path <= key {
        ProofOpens(db, h, nodes, bottom, key[|path|..]);
      } else {
        ChildReadable(db, h, nodes, bottom);
      }
  }

  // ------------------------------------------------------------------------
  // Reference lemmas
  // ------------------------------------------------------------------------

  lemma HalfInsert(m: Contents, key: Bits, v: Felt, bit: bool)
    requires key != []
    ensures Half(m[key := v], bit) == if key[0] == bit then Half(m, bit)[key[1..] := v] else Half(m, bit)
  {
    hide Half;
    var expected := if key[0] == bit then Half(m, bit)[key[1..] := v] else Half(m, bit);
    forall k: Bits
      ensures k in Half(m[key := v], bit) <==> k in expected
      ensures k in expected ==> Half(m[key := v], bit)[k] == expected[k]
    {
      HalfMember(m, bit, k);
      HalfMember(m[key := v], bit, k);
      assert key == [key[0]] + key[1..];
      assert ([bit] + k)[0] == bit && ([bit] + k)[1..] == k;
    }
  }

  lemma HalfOfOne(key: Bits, v: Felt, bit: bool)
    requires key != []
    ensures Half(map[key := v], bit) == if key[0] == bit then map[key[1..] := v] else map[]
  {
    HalfInsert(map[], key, v, bit);
    assert map[][key := v] == map[key := v];
    assert Half(map[], bit) == map[];
    assert map[][key[1..] := v] == map[key[1..] := v];
  }

  lemma HalfLength(m: Contents, bit: bool, height: nat)
    requires height > 0 && KeysHaveLength(m, height)
    ensures KeysHaveLength(Half(m, bit), height - 1)
  {
    forall k | k in Half(m, bit)
      ensures |k| == height - 1
    {
      HalfMember(m, bit, k);
    }
  }

  lemma HalvesEmpty(m: Contents, height: nat)
    requires height > 0 && KeysHaveLength(m, height)
    ensures m == map[] <==> Half(m, false) == map[] && Half(m, true) == map[]
  {
    if m != map[] {
      var k :| k in m;
      assert [k[0]] + k[1..] == k;
      HalfMember(m, k[0], k[1..]);
    }
  }

  lemma BuildUnfold(height: nat, m: Contents)
    requires height > 0 && KeysHaveLength(m, height)
    ensures Build(height, m) == Combine(Build(height - 1, Half(m, false)), Build(height - 1, Half(m, true)))
  {
    HalvesEmpty(m, height);
  }

  /** Leaves are exactly the tries of height zero. */
  lemma BuildLeaf(height: nat, m: Contents)
    requires KeysHaveLength(m, height)
    ensures height > 0 ==> !Build(height, m).Leaf?
    ensures height == 0 ==> !Build(height, m).Binary? && !Build(height, m).Edge?
  {
    if height > 0 {
      BuildUnfold(height, m);
    }
  }

  lemma {:induction false} BuildEmpty(height: nat, m: Contents)
    requires KeysHaveLength(m, height)
    ensures Build(height, m).Empty? <==> m == map[]
  {
    if height == 0 {
      if m != map[] {
        var k :| k in m;
        assert k == [];
      }
    } else {
      HalvesEmpty(m, height);
      HalfLength(m, false, height);
      HalfLength(m, true, height);
      BuildEmpty(height - 1, Half(m, false));
      BuildEmpty(height - 1, Half(m, true));
    }
  }

  lemma HalfApply(m: Contents, writes: Contents, bit: bool)
    ensures Half(Apply(m, writes), bit) == Apply(Half(m, bit), Half(writes, bit))
  {
    forall k: Bits
      ensures k in Half(Apply(m, writes), bit) <==> k in Apply(Half(m, bit), Half(writes, bit))
      ensures k in Half(Apply(m, writes), bit) ==>
                Half(Apply(m, writes), bit)[k] == Apply(Half(m, bit), Half(writes, bit))[k]
    {
      HalfMember(Apply(m, writes), bit, k);
      HalfMember(m, bit, k);
      HalfMember(writes, bit, k);
    }
  }

  lemma ApplyLength(m: Contents, writes: Contents, height: nat)
    requires KeysHaveLength(m, height) && KeysHaveLength(writes, height)
    ensures KeysHaveLength(Apply(m, writes), height)
    ensures writes == map[] ==> Apply(m, writes) == m
  {
  }

  function ViewOf(h: Hasher, t: Trie): View {
    match t
    case Empty => NoNode
    case Edge(path, bottom) => EdgeTo(path, Hash(h, bottom))
    case _ => Whole(Hash(h, t))
  }

  lemma ViewOfHash(h: Hasher, t: Trie)
    ensures ViewHash(h, ViewOf(h, t)) == Hash(h, t)
  {
  }

  // ------------------------------------------------------------------------
  // Opening a node
  // ------------------------------------------------------------------------

  ghost predicate Denotes(h: Hasher, ref: Ref, t: Trie) {
    match ref
    case Hashed(hash) => hash == Hash(h, t) && NonZero(h, t)
    case EdgeRest(path, bottom) => t.Edge? && path == t.path && bottom == Hash(h, t.bottom) && NonZero(h, t.bottom)
  }

  /** Edges are never empty, so an edge of length one ends right at its bottom. */
  ghost predicate ProperEdge(t: Trie) {
    t.Edge? ==> t.path != []
  }

  lemma BuildProper(height: nat, m: Contents)
    ensures ProperEdge(Build(height, m))
  {
    hide Half;
  }

  /** The four shapes of a combined trie. */
  lemma CombineShape(left: Trie, right: Trie)
    requires ProperEdge(left) && ProperEdge(right)
    ensures var t := Combine(left, right);
            if left.Empty? && right.Empty? then t == Empty
            else if !left.Empty? && !right.Empty? then t == Binary(left, right)
            else
              var bit := left.Empty?;
              var child := if bit then right else left;
              && t.Edge? && t.path != [] && t.path[0] == bit
              && (if |t.path| == 1 then t.bottom == child else child == Edge(t.path[1..], t.bottom))
  {
    if left.Empty? && !right.Empty? {
      ExtendShape(true, right);
    } else if right.Empty? && !left.Empty? {
      ExtendShape(false, left);
    }
  }

  lemma ExtendShape(bit: bool, child: Trie)
    requires ProperEdge(child)
    ensures var t := Extend(bit, child);
            && t.Edge? && t.path != [] && t.path[0] == bit
            && (if |t.path| == 1 then t.bottom == child else child == Edge(t.path[1..], t.bottom))
  {
    if child.Edge? {
      assert ([bit] + child.path)[1..] == child.path;
    }
  }

  ghost predicate OpenRef(db: NodeMap, h: Hasher, ref: Ref, t: Trie, key: Bits) {
    if ref.Hashed? then Open(db, h, t, key) else OpenBelow(db, h, t, key)
  }

  ghost predicate StoredRef(nodes: NodeMap, h: Hasher, ref: Ref, t: Trie) {
    if ref.Hashed? then StoredAll(nodes, h, t) else StoredBelow(nodes, h, t)
  }

  /** What is left of an edge is at hand; only a hash is looked up. */
  ghost predicate ReadableRef(db: NodeMap, h: Hasher, ref: Ref, t: Trie) {
    ref.Hashed? ==> Readable(db, h, t)
  }

  lemma ExpandDenotes(db: NodeMap, h: Hasher, ref: Ref, left: Trie, right: Trie)
    requires ProperEdge(left) && ProperEdge(right)
    requires Denotes(h, ref, Combine(left, right))
    requires ref.Hashed? ==> Stored(db, h, Combine(left, right))
    ensures var children := Expand(db, ref);
            && children.Ok?
            && Denotes(h, children.value.0, left)
            && Denotes(h, children.value.1, right)
  {
    CombineShape(left, right);
    assert ref.Hashed? ==> NonZeroBelow(h, Combine(left, right)) || Combine(left, right).Empty?;
  }

  /** The child on the key's side is open again. */
  lemma ExpandOpen(db: NodeMap, h: Hasher, ref: Ref, left: Trie, right: Trie, bit: bool, key: Bits)
    requires ProperEdge(left) && ProperEdge(right)
    requires Denotes(h, ref, Combine(left, right)) && OpenRef(db, h, ref, Combine(left, right), [bit] + key)
    ensures var children := Expand(db, ref);
            && children.Ok?
            && (if bit then OpenRef(db, h, children.value.1, right, key) else OpenRef(db, h, children.value.0, left, key))
  {
    var t := Combine(left, right);
    CombineShape(left, right);
    ExpandDenotes(db, h, ref, left, right);
    assert OpenBelow(db, h, t, [bit] + key);
    assert ([bit] + key)[0] == bit && ([bit] + key)[1..] == key;
    if t.Edge? && t.path[0] == bit {
      PrefixStep(t.path, bit, key);
    }
  }

  /** The child on the other side is readable. */
  lemma ExpandReadable(db: NodeMap, h: Hasher, ref: Ref, left: Trie, right: Trie, bit: bool, key: Bits)
    requires ProperEdge(left) && ProperEdge(right)
    requires Denotes(h, ref, Combine(left, right)) && OpenRef(db, h, ref, Combine(left, right), [bit] + key)
    ensures var children := Expand(db, ref);
            && children.Ok?
            && (if bit then ReadableRef(db, h, children.value.0, left) else ReadableRef(db, h, children.value.1, right))
  {
    var t := Combine(left, right);
    CombineShape(left, right);
    ExpandDenotes(db, h, ref, left, right);
    assert OpenBelow(db, h, t, [bit] + key);
    assert ([bit] + key)[0] == bit;
    if t.Edge? && t.path <= [bit] + key {
      assert t.path[0] == bit;
    }
  }

  lemma PrefixStep(path: Bits, bit: bool, key: Bits)
    requires path != [] && path[0] == bit
    ensures path <= [bit] + key <==> path[1..] <= key
    ensures path <= [bit] + key ==> ([bit] + key)[|path|..] == key[|path| - 1..]
  {
    var full := [bit] + key;
    if path[1..] <= key {
      assert path == [bit] + path[1..];
    }
    if path <= full {
      assert path[1..] == full[1..|path|];
      assert full[1..] == key;
    }
  }

  // ------------------------------------------------------------------------
  // The canonical trie holds exactly the map
  // ------------------------------------------------------------------------

  /** What a trie has at a path. */
  function Find(t: Trie, key: Bits): Option<Felt> {
    match t
    case Empty => None
    case Leaf(value) => if key == [] then Some(value) else None
    case Binary(left, right) => if key == [] then None else Find(if key[0] then right else left, key[1..])
    case Edge(path, bottom) => if path <= key then Find(bottom, key[|path|..]) else None
  }

  lemma FindInCombined(left: Trie, right: Trie, bit: bool, key: Bits)
    requires ProperEdge(left) && ProperEdge(right)
    ensures Find(Combine(left, right), [bit] + key) == Find(if bit then right else left, key)
  {
    var t := Combine(left, right);
    CombineShape(left, right);
    assert ([bit] + key)[0] == bit && ([bit] + key)[1..] == key;
    if t.Edge? {
      if t.path[0] == bit {
        PrefixStep(t.path, bit, key);
        if |t.path| == 1 {
          assert t.path == [bit] && [bit] <= [bit] + key;
        }
      } else {
        assert !(t.path <= [bit] + key);
      }
    }
  }

  /** Finding a key in the canonical trie is finding it in the map. */
  lemma {:induction false} FindInBuilt(height: nat, m: Contents, key: Bits)
    requires KeysHaveLength(m, height) && |key| == height
    ensures Find(Build(height, m), key) == if key in m then Some(m[key]) else None
  {
    if height == 0 {
      assert key == [];
      assert m != map[] ==> exists k :: k in m && k == [];
    } else {
      var bit, rest := key[0], key[1..];
      assert key == [bit] + rest;
      HalfLength(m, bit, height);
      HalfMember(m, bit, rest);
      FindInBuilt(height - 1, Half(m, bit), rest);
      BuildUnfold(height, m);
      BuildProper(height - 1, Half(m, false));
      BuildProper(height - 1, Half(m, true));
      hide Build;
      hide Half;
      hide Combine;
      hide Find;
      FindInCombined(Build(height - 1, Half(m, false)), Build(height - 1, Half(m, true)), bit, rest);
    }
  }
}
