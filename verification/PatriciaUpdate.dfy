/** Updates of the Merkle-Patricia trie over stored nodes only: when they get the canonical root of the written contents,
    and when a placeholder makes them miss it. */
module PatriciaUpdate {
  import opened Felts
  import opened Merkle
  import opened Patricia

  // ------------------------------------------------------------------------
  // The update is correct
  // ------------------------------------------------------------------------

  lemma UpdateUnfold(db: NodeMap, h: Hasher, ref: Ref, height: nat, writes: Contents, left: Ref, right: Ref, lv: View, rv: View)
    requires height > 0 && writes != map[]
    requires Expand(db, ref) == Ok((left, right))
    requires Update(db, h, left, height - 1, Half(writes, false)) == Ok(lv)
    requires Update(db, h, right, height - 1, Half(writes, true)) == Ok(rv)
    ensures Update(db, h, ref, height, writes) == Ok(JoinViews(h, lv, rv))
  {
  }

  lemma HalvesReady(m: Contents, writes: Contents, height: nat, bit: bool)
    requires height > 0 && KeysHaveLength(m, height) && KeysHaveLength(writes, height)
    ensures KeysHaveLength(Half(m, bit), height - 1) && KeysHaveLength(Half(writes, bit), height - 1)
    ensures Half(Apply(m, writes), bit) == Apply(Half(m, bit), Half(writes, bit))
    ensures KeysHaveLength(Apply(Half(m, bit), Half(writes, bit)), height - 1)
  {
    HalfLength(m, bit, height);
    HalfLength(writes, bit, height);
    HalfApply(m, writes, bit);
  }

  lemma ApplyAtLeaf(m: Contents, writes: Contents)
    requires KeysHaveLength(m, 0) && KeysHaveLength(writes, 0) && writes != map[]
    ensures [] in writes
    ensures Build(0, Apply(m, writes)) == if writes[[]] == ZERO then Empty else Leaf(writes[[]])
  {
    var k :| k in writes;
    assert k == [];
    assert forall x :: x in Apply(m, writes) ==> x == [];
    assert [] in Apply(m, writes) <==> writes[[]] != ZERO;
    if writes[[]] == ZERO {
      assert Apply(m, writes) == map[];
    }
  }

  ghost predicate NoDeletions(writes: Contents) {
    forall k :: k in writes ==> writes[k] != ZERO
  }

  /** An edge whose own node is not stored: there is a binary node in its place. */
  ghost predicate Hidden(db: NodeMap, h: Hasher, t: Trie) {
    t.Edge? && Hash(h, t) in db && db[Hash(h, t)].BinaryNode?
  }

  /** The writes delete everything on one side of a binary node and leave a hidden edge alone on the other. */
  ghost predicate Strands(db: NodeMap, h: Hasher, height: nat, m: Contents, writes: Contents, bit: bool)
    requires height > 0
  {
    && Half(m, !bit) != map[] && Apply(Half(m, !bit), Half(writes, !bit)) == map[]
    && Half(writes, bit) == map[] && Hidden(db, h, Build(height - 1, Half(m, bit)))
  }

  /** The writes leave no hidden edge alone anywhere. */
  ghost predicate Safe(db: NodeMap, h: Hasher, height: nat, m: Contents, writes: Contents)
    decreases height
  {
    || writes == map[]
    || height == 0
    || (&& Safe(db, h, height - 1, Half(m, false), Half(writes, false))
        && Safe(db, h, height - 1, Half(m, true), Half(writes, true))
        && !Strands(db, h, height, m, writes, false)
        && !Strands(db, h, height, m, writes, true))
  }

  // What is hashed, by the update and in the canonical trie.

  function NodeHash(h: Hasher, node: MerkleNode): Felt {
    match node
    case BinaryNode(left, right) => h.binary(left, right)
    case EdgeNode(child, path) => h.edge(child, path)
  }

  function ViewInputs(v: View): set<MerkleNode> {
    if v.EdgeTo? then {EdgeNode(v.bottom, v.path)} else {}
  }

  function JoinInputs(h: Hasher, left: View, right: View): set<MerkleNode> {
    if left.NoNode? || right.NoNode? then {}
    else ViewInputs(left) + ViewInputs(right) + {BinaryNode(ViewHash(h, left), ViewHash(h, right))}
  }

  /** The nodes that an update hashes. */
  function UpdateInputs(db: NodeMap, h: Hasher, ref: Ref, height: nat, writes: Contents): set<MerkleNode>
    decreases height
  {
    if writes == map[] || height == 0 then {}
    else
      match Expand(db, ref)
      case Err(_) => {}
      case Ok((left, right)) =>
        var l := Update(db, h, left, height - 1, Half(writes, false));
        var r := Update(db, h, right, height - 1, Half(writes, true));
        UpdateInputs(db, h, left, height - 1, Half(writes, false))
        + UpdateInputs(db, h, right, height - 1, Half(writes, true))
        + if l.Ok? && r.Ok? then JoinInputs(h, l.value, r.value) else {}
  }

  /** The same, with the root at the end. */
  function RootInputs(db: NodeMap, h: Hasher, root: Felt, height: nat, writes: Contents): set<MerkleNode> {
    var r := Update(db, h, Hashed(root), height, writes);
    UpdateInputs(db, h, Hashed(root), height, writes) + if r.Ok? then ViewInputs(r.value) else {}
  }

  /** The nodes hashed in a canonical trie, without a top edge that a parent may still lengthen. */
  function NodesBelow(h: Hasher, t: Trie): set<MerkleNode>
    decreases t, 0
  {
    match t
    case Empty => {}
    case Leaf(_) => {}
    case Binary(left, right) => {NodeOf(h, t)} + TrieNodes(h, left) + TrieNodes(h, right)
    case Edge(_, bottom) => TrieNodes(h, bottom)
  }

  function TrieNodes(h: Hasher, t: Trie): set<MerkleNode>
    decreases t, 1
  {
    NodesBelow(h, t) + if t.Edge? then {NodeOf(h, t)} else {}
  }

  /** Two different nodes with one hash, one from each set. */
  ghost predicate NodeCollision(h: Hasher, a: set<MerkleNode>, b: set<MerkleNode>) {
    exists x, y :: x in a && y in b && x != y && NodeHash(h, x) == NodeHash(h, y)
  }

  lemma CollisionAmongMore(h: Hasher, a: set<MerkleNode>, b: set<MerkleNode>, a': set<MerkleNode>, b': set<MerkleNode>)
    requires NodeCollision(h, a, b) && a <= a' && b <= b'
    ensures NodeCollision(h, a', b')
  {
  }

  // What an update promises of a subtree.

  /** The view of an unwritten subtree: exact, or the mere hash of an edge. */
  ghost predicate Seen(h: Hasher, v: View, t: Trie) {
    v == ViewOf(h, t) || (t.Edge? && v == Whole(Hash(h, t)))
  }

  ghost predicate SameKind(v: View, t: Trie) {
    (v.NoNode? <==> t.Empty?) && (v.EdgeTo? <==> t.Edge?)
  }

  /** The view of a written subtree: of the right kind, exact if it was safe to write, and otherwise wrong unless two
      hashed nodes collide. */
  ghost predicate Updated(h: Hasher, v: View, t: Trie, safe: bool, inputs: set<MerkleNode>) {
    && SameKind(v, t)
    && (safe ==> v == ViewOf(h, t))
    && (!safe ==> v != ViewOf(h, t) || NodeCollision(h, inputs, NodesBelow(h, t)))
  }

  lemma ReadSibling(db: NodeMap, h: Hasher, ref: Ref, height: nat, m: Contents)
    requires KeysHaveLength(m, height)
    requires Denotes(h, ref, Build(height, m)) && ReadableRef(db, h, ref, Build(height, m))
    ensures var r := ReadView(db, ref, height);
            && r.Ok? && Seen(h, r.value, Build(height, m))
            && (r.value != ViewOf(h, Build(height, m)) <==> ref.Hashed? && Hidden(db, h, Build(height, m)))
  {
    BuildLeaf(height, m);
    hide Build;
  }

  /** A wrong view has a wrong hash, or its edge collides with the right one. */
  lemma WrongView(h: Hasher, v: View, t: Trie)
    requires SameKind(v, t) && v != ViewOf(h, t)
    ensures ViewHash(h, v) != Hash(h, t) || NodeCollision(h, ViewInputs(v), TrieNodes(h, t))
  {
    if ViewHash(h, v) == Hash(h, t) && t.Edge? {
      assert EdgeNode(v.bottom, v.path) in ViewInputs(v);
      assert NodeOf(h, t) in TrieNodes(h, t);
      assert NodeHash(h, NodeOf(h, t)) == Hash(h, t);
    }
  }

  lemma WrongHalf(h: Hasher, v: View, t: Trie, inputs: set<MerkleNode>)
    requires Updated(h, v, t, false, inputs)
    ensures ViewHash(h, v) != Hash(h, t) || NodeCollision(h, inputs + ViewInputs(v), TrieNodes(h, t))
  {
    if v != ViewOf(h, t) {
      WrongView(h, v, t);
      if ViewHash(h, v) == Hash(h, t) {
        CollisionAmongMore(h, ViewInputs(v), TrieNodes(h, t), inputs + ViewInputs(v), TrieNodes(h, t));
      }
    } else {
      CollisionAmongMore(h, inputs, NodesBelow(h, t), inputs + ViewInputs(v), TrieNodes(h, t));
    }
  }

  /** A subtree that stays alone below a node lengthens into the node's edge. */
  lemma ExtendUpdated(h: Hasher, v: View, t: Trie, bit: bool, written: bool, safe: bool, inputs: set<MerkleNode>)
    requires !t.Empty? && ProperEdge(t)
    requires if written then Updated(h, v, t, safe, inputs) else Seen(h, v, t) && safe
    ensures Updated(h, ExtendView(bit, v), Extend(bit, t), safe && (written || v == ViewOf(h, t)), inputs)
  {
    var w, u := ExtendView(bit, v), Extend(bit, t);
    assert NodesBelow(h, u) == NodesBelow(h, t);
    if v == ViewOf(h, t) {
      assert w == ViewOf(h, u);
    } else {
      assert w != ViewOf(h, u) by {
        if v.EdgeTo? && t.Edge? {
          assert ([bit] + v.path)[1..] == v.path && ([bit] + t.path)[1..] == t.path;
        }
      }
    }
  }

  /** Two subtrees that both stay are joined by their hashes alone. */
  lemma JoinBoth(
    h: Hasher, lv: View, rv: View, left: Trie, right: Trie, lw: bool, rw: bool, ls: bool, rs: bool,
    li: set<MerkleNode>, ri: set<MerkleNode>)
    requires !left.Empty? && !right.Empty?
    requires if lw then Updated(h, lv, left, ls, li) else Seen(h, lv, left) && ls
    requires if rw then Updated(h, rv, right, rs, ri) else Seen(h, rv, right) && rs
    ensures Updated(h, JoinViews(h, lv, rv), Binary(left, right), ls && rs, li + ri + JoinInputs(h, lv, rv))
  {
    var t, inputs := Binary(left, right), li + ri + JoinInputs(h, lv, rv);
    ViewOfHash(h, left);
    ViewOfHash(h, right);
    var mine := BinaryNode(ViewHash(h, lv), ViewHash(h, rv));
    assert mine in inputs && NodeOf(h, t) in NodesBelow(h, t);
    assert NodeHash(h, mine) == h.binary(ViewHash(h, lv), ViewHash(h, rv));
    if !ls {
      WrongHalf(h, lv, left, li);
      if ViewHash(h, lv) == Hash(h, left) {
        CollisionAmongMore(h, li + ViewInputs(lv), TrieNodes(h, left), inputs, NodesBelow(h, t));
      }
    } else if !rs {
      WrongHalf(h, rv, right, ri);
      if ViewHash(h, rv) == Hash(h, right) {
        CollisionAmongMore(h, ri + ViewInputs(rv), TrieNodes(h, right), inputs, NodesBelow(h, t));
      }
    }
  }

  lemma EmptyIsSafe(h: Hasher, v: View, t: Trie, safe: bool, inputs: set<MerkleNode>)
    requires t.Empty? && Updated(h, v, t, safe, inputs)
    ensures safe && v == NoNode
  {
  }

  /** Joining the views of the halves, of which at least one was written. */
  lemma JoinUpdated(
    h: Hasher, lv: View, rv: View, left: Trie, right: Trie, lw: bool, rw: bool, ls: bool, rs: bool,
    li: set<MerkleNode>, ri: set<MerkleNode>)
    requires ProperEdge(left) && ProperEdge(right)
    requires if lw then Updated(h, lv, left, ls, li) else Seen(h, lv, left) && ls
    requires if rw then Updated(h, rv, right, rs, ri) else Seen(h, rv, right) && rs
    ensures var stranded := (!lw && right.Empty? && lv != ViewOf(h, left)) || (!rw && left.Empty? && rv != ViewOf(h, right));
            Updated(h, JoinViews(h, lv, rv), Combine(left, right), ls && rs && !stranded, li + ri + JoinInputs(h, lv, rv))
  {
    hide NodesBelow;
    hide TrieNodes;
    hide NodeCollision;
    hide Hash;
    if !left.Empty? && !right.Empty? {
      JoinBoth(h, lv, rv, left, right, lw, rw, ls, rs, li, ri);
    } else {
      if left.Empty? && lw {
        EmptyIsSafe(h, lv, left, ls, li);
      }
      if right.Empty? && rw {
        EmptyIsSafe(h, rv, right, rs, ri);
      }
      if !left.Empty? {
        ExtendUpdated(h, lv, left, false, lw, ls, li);
        MoreInputs(h, ExtendView(false, lv), Extend(false, left), ls && (lw || lv == ViewOf(h, left)), li, li + ri);
      } else if !right.Empty? {
        ExtendUpdated(h, rv, right, true, rw, rs, ri);
        MoreInputs(h, ExtendView(true, rv), Extend(true, right), rs && (rw || rv == ViewOf(h, right)), ri, li + ri);
      }
      assert JoinInputs(h, lv, rv) == {};
      assert li + ri + {} == li + ri;
    }
  }

  lemma MoreInputs(h: Hasher, v: View, t: Trie, safe: bool, inputs: set<MerkleNode>, more: set<MerkleNode>)
    requires Updated(h, v, t, safe, inputs) && inputs <= more
    ensures Updated(h, v, t, safe, more)
  {
    if NodeCollision(h, inputs, NodesBelow(h, t)) {
      CollisionAmongMore(h, inputs, NodesBelow(h, t), more, NodesBelow(h, t));
    }
  }

  /** The promise for every subtree that the update visits. */
  ghost predicate Promised(db: NodeMap, h: Hasher, ref: Ref, height: nat, m: Contents, writes: Contents) {
    var r := Update(db, h, ref, height, writes);
    && r.Ok?
    && if writes == map[] then
         && Seen(h, r.value, Build(height, m))
         && (r.value != ViewOf(h, Build(height, m)) <==> ref.Hashed? && Hidden(db, h, Build(height, m)))
       else
         Updated(h, r.value, Build(height, Apply(m, writes)), Safe(db, h, height, m, writes),
           UpdateInputs(db, h, ref, height, writes))
  }

  /** An update, deletions included, over no more than the open paths of its keys: every written subtree gets its
      canonical view exactly when no hidden edge was left alone in it, up to a hash collision. */
  lemma {:induction false} UpdateOverProof(db: NodeMap, h: Hasher, ref: Ref, height: nat, m: Contents, writes: Contents)
    requires KeysHaveLength(m, height) && KeysHaveLength(writes, height)
    requires Denotes(h, ref, Build(height, m))
    requires writes == map[] ==> ReadableRef(db, h, ref, Build(height, m))
    requires forall key :: key in writes ==> OpenRef(db, h, ref, Build(height, m), key)
    ensures Promised(db, h, ref, height, m, writes)
    decreases height, 1
  {
    if writes == map[] {
      ReadSibling(db, h, ref, height, m);
    } else if height == 0 {
      ApplyAtLeaf(m, writes);
    } else {
      UpdateOverProofStep(db, h, ref, height, m, writes);
    }
  }

  lemma {:induction false} UpdateOverProofStep(db: NodeMap, h: Hasher, ref: Ref, height: nat, m: Contents, writes: Contents)
    requires height > 0 && writes != map[]
    requires KeysHaveLength(m, height) && KeysHaveLength(writes, height)
    requires Denotes(h, ref, Build(height, m))
    requires forall key :: key in writes ==> OpenRef(db, h, ref, Build(height, m), key)
    ensures Promised(db, h, ref, height, m, writes)
    decreases height, 0
  {
    hide *;
    var m0, m1, w0, w1 := Half(m, false), Half(m, true), Half(writes, false), Half(writes, true);
    var left, right := Build(height - 1, m0), Build(height - 1, m1);
    BuildUnfold(height, m);
    BuildProper(height - 1, m0);
    BuildProper(height - 1, m1);
    var someKey :| someKey in writes;
    OpenStored(db, h, ref, Combine(left, right), someKey);
    ExpandDenotes(db, h, ref, left, right);
    HalfOpen(db, h, ref, height, m, writes, false);
    HalfOpen(db, h, ref, height, m, writes, true);
    HalvesReady(m, writes, height, false);
    HalvesReady(m, writes, height, true);
    var (l, r) := Expand(db, ref).value;
    UpdateOverProof(db, h, l, height - 1, m0, w0);
    UpdateOverProof(db, h, r, height - 1, m1, w1);
    JoinPromised(db, h, ref, height, m, writes, l, r);
  }

  lemma OpenStored(db: NodeMap, h: Hasher, ref: Ref, t: Trie, key: Bits)
    requires OpenRef(db, h, ref, t, key)
    ensures ref.Hashed? ==> Stored(db, h, t)
  {
  }

  lemma HalfOfKey(writes: Contents, key: Bits)
    requires key in writes && key != []
    ensures Half(writes, key[0]) != map[]
  {
    assert key == [key[0]] + key[1..];
    HalfMember(writes, key[0], key[1..]);
  }

  /** Each half is open along its written keys, and readable if there are none. */
  lemma HalfOpen(db: NodeMap, h: Hasher, ref: Ref, height: nat, m: Contents, writes: Contents, bit: bool)
    requires height > 0 && writes != map[]
    requires KeysHaveLength(m, height) && KeysHaveLength(writes, height)
    requires Denotes(h, ref, Build(height, m))
    requires forall key :: key in writes ==> OpenRef(db, h, ref, Build(height, m), key)
    requires Expand(db, ref).Ok?
    ensures var child := if bit then Expand(db, ref).value.1 else Expand(db, ref).value.0;
            var half := Build(height - 1, Half(m, bit));
            && (forall key :: key in Half(writes, bit) ==> OpenRef(db, h, child, half, key))
            && (Half(writes, bit) == map[] ==> ReadableRef(db, h, child, half))
  {
    hide Build;
    hide Half;
    hide Denotes;
    hide OpenRef;
    hide ReadableRef;
    hide Expand;
    hide Combine;
    var left, right := Build(height - 1, Half(m, false)), Build(height - 1, Half(m, true));
    BuildUnfold(height, m);
    BuildProper(height - 1, Half(m, false));
    BuildProper(height - 1, Half(m, true));
    forall key | key in Half(writes, bit)
      ensures OpenRef(db, h, if bit then Expand(db, ref).value.1 else Expand(db, ref).value.0,
                Build(height - 1, Half(m, bit)), key)
    {
      HalfMember(writes, bit, key);
      ExpandOpen(db, h, ref, left, right, bit, key);
    }
    if Half(writes, bit) == map[] {
      var key :| key in writes;
      HalfOfKey(writes, key);
      assert key == [!bit] + key[1..];
      ExpandReadable(db, h, ref, left, right, !bit, key[1..]);
    }
  }

  /** Where a half is an edge, its reference is a hash exactly when the other half is there too. */
  lemma EdgeSide(db: NodeMap, h: Hasher, ref: Ref, left: Trie, right: Trie)
    requires ProperEdge(left) && ProperEdge(right)
    requires Denotes(h, ref, Combine(left, right))
    requires ref.Hashed? ==> Stored(db, h, Combine(left, right))
    ensures Expand(db, ref).Ok?
    ensures left.Edge? ==> (Expand(db, ref).value.0.Hashed? <==> !right.Empty?)
    ensures right.Edge? ==> (Expand(db, ref).value.1.Hashed? <==> !left.Empty?)
  {
    CombineShape(left, right);
    ExpandDenotes(db, h, ref, left, right);
  }

  lemma SafeBase(db: NodeMap, h: Hasher, height: nat, m: Contents, writes: Contents)
    requires writes == map[] || height == 0
    ensures Safe(db, h, height, m, writes)
  {
    hide Half;
    hide Strands;
  }

  lemma SafeUnfold(db: NodeMap, h: Hasher, height: nat, m: Contents, writes: Contents)
    requires height > 0 && writes != map[]
    ensures Safe(db, h, height, m, writes)
            <==> && Safe(db, h, height - 1, Half(m, false), Half(writes, false))
                 && Safe(db, h, height - 1, Half(m, true), Half(writes, true))
                 && !Strands(db, h, height, m, writes, false) && !Strands(db, h, height, m, writes, true)
  {
  }

  lemma InputsUnfold(
    db: NodeMap, h: Hasher, ref: Ref, height: nat, writes: Contents, left: Ref, right: Ref, lv: View, rv: View)
    requires height > 0 && writes != map[]
    requires Expand(db, ref) == Ok((left, right))
    requires Update(db, h, left, height - 1, Half(writes, false)) == Ok(lv)
    requires Update(db, h, right, height - 1, Half(writes, true)) == Ok(rv)
    ensures UpdateInputs(db, h, ref, height, writes)
            == UpdateInputs(db, h, left, height - 1, Half(writes, false))
               + UpdateInputs(db, h, right, height - 1, Half(writes, true)) + JoinInputs(h, lv, rv)
  {
    hide Half;
    hide Expand;
    hide JoinInputs;
  }

  /** What the join sees of a half. */
  lemma HalfPromised(db: NodeMap, h: Hasher, ref: Ref, height: nat, m: Contents, writes: Contents)
    requires KeysHaveLength(m, height) && KeysHaveLength(writes, height)
    requires Promised(db, h, ref, height, m, writes)
    ensures var r, t := Update(db, h, ref, height, writes), Build(height, Apply(m, writes));
            && r.Ok?
            && (if writes != map[] then
                  Updated(h, r.value, t, Safe(db, h, height, m, writes), UpdateInputs(db, h, ref, height, writes))
                else
                  && Seen(h, r.value, t) && Safe(db, h, height, m, writes)
                  && t == Build(height, m)
                  && (r.value != ViewOf(h, t) <==> ref.Hashed? && Hidden(db, h, t)))
  {
    ApplyLength(m, writes, height);
    hide Build;
    hide Update;
    hide UpdateInputs;
    hide Apply;
    hide Updated;
    hide Seen;
    hide Hidden;
  }

  /** A view is stranded exactly where the writes strand a hidden edge. */
  lemma StrandedSide(db: NodeMap, h: Hasher, ref: Ref, child: Ref, height: nat, m: Contents, writes: Contents, bit: bool, v: View)
    requires height > 0 && KeysHaveLength(m, height) && KeysHaveLength(writes, height)
    requires Half(writes, bit) == map[] ==>
               var t := Build(height - 1, Half(m, bit));
               && (v != ViewOf(h, t) <==> child.Hashed? && Hidden(db, h, t))
               && (t.Edge? ==> (child.Hashed? <==> !Build(height - 1, Half(m, !bit)).Empty?))
    ensures Strands(db, h, height, m, writes, bit)
            <==> && Half(writes, bit) == map[]
                 && Build(height - 1, Apply(Half(m, !bit), Half(writes, !bit))).Empty?
                 && v != ViewOf(h, Build(height - 1, Half(m, bit)))
  {
    HalvesReady(m, writes, height, !bit);
    BuildEmpty(height - 1, Half(m, !bit));
    BuildEmpty(height - 1, Apply(Half(m, !bit), Half(writes, !bit)));
    hide Build;
    hide Half;
    hide Apply;
    hide ViewOf;
  }

  /** Joining the halves' views gives the node's, safely exactly when the whole update is safe. */
  lemma JoinHalves(
    db: NodeMap, h: Hasher, ref: Ref, height: nat, m: Contents, writes: Contents, l: Ref, r: Ref, lv: View, rv: View)
    requires height > 0 && writes != map[]
    requires KeysHaveLength(m, height) && KeysHaveLength(writes, height)
    requires Expand(db, ref) == Ok((l, r))
    requires Denotes(h, ref, Build(height, m)) && (ref.Hashed? ==> Stored(db, h, Build(height, m)))
    requires Promised(db, h, l, height - 1, Half(m, false), Half(writes, false))
    requires Promised(db, h, r, height - 1, Half(m, true), Half(writes, true))
    requires Update(db, h, l, height - 1, Half(writes, false)) == Ok(lv)
    requires Update(db, h, r, height - 1, Half(writes, true)) == Ok(rv)
    ensures Updated(h, JoinViews(h, lv, rv),
              Combine(Build(height - 1, Apply(Half(m, false), Half(writes, false))),
                Build(height - 1, Apply(Half(m, true), Half(writes, true)))),
              Safe(db, h, height, m, writes),
              UpdateInputs(db, h, l, height - 1, Half(writes, false))
              + UpdateInputs(db, h, r, height - 1, Half(writes, true)) + JoinInputs(h, lv, rv))
  {
    hide *;
    var m0, m1, w0, w1 := Half(m, false), Half(m, true), Half(writes, false), Half(writes, true);
    assert Build(height, m) == Combine(Build(height - 1, m0), Build(height - 1, m1)) by {
      BuildUnfold(height, m);
    }
    BuildProper(height - 1, m0);
    BuildProper(height - 1, m1);
    EdgeSide(db, h, ref, Build(height - 1, m0), Build(height - 1, m1));
    HalvesReady(m, writes, height, false);
    HalvesReady(m, writes, height, true);
    HalfPromised(db, h, l, height - 1, m0, w0);
    HalfPromised(db, h, r, height - 1, m1, w1);
    StrandedSide(db, h, ref, l, height, m, writes, false, lv);
    StrandedSide(db, h, ref, r, height, m, writes, true, rv);
    SafeUnfold(db, h, height, m, writes);
    BuildProper(height - 1, Apply(m0, w0));
    BuildProper(height - 1, Apply(m1, w1));
    JoinUpdated(h, lv, rv, Build(height - 1, Apply(m0, w0)), Build(height - 1, Apply(m1, w1)), w0 != map[], w1 != map[],
      Safe(db, h, height - 1, m0, w0), Safe(db, h, height - 1, m1, w1),
      UpdateInputs(db, h, l, height - 1, w0), UpdateInputs(db, h, r, height - 1, w1));
  }

  /** The halves' promises give the node's. */
  lemma JoinPromised(db: NodeMap, h: Hasher, ref: Ref, height: nat, m: Contents, writes: Contents, l: Ref, r: Ref)
    requires height > 0 && writes != map[]
    requires KeysHaveLength(m, height) && KeysHaveLength(writes, height)
    requires Expand(db, ref) == Ok((l, r))
    requires Denotes(h, ref, Build(height, m)) && (ref.Hashed? ==> Stored(db, h, Build(height, m)))
    requires Promised(db, h, l, height - 1, Half(m, false), Half(writes, false))
    requires Promised(db, h, r, height - 1, Half(m, true), Half(writes, true))
    ensures Promised(db, h, ref, height, m, writes)
  {
    hide *;
    PromisedIsOk(db, h, l, height - 1, Half(m, false), Half(writes, false));
    PromisedIsOk(db, h, r, height - 1, Half(m, true), Half(writes, true));
    var lv, rv := Update(db, h, l, height - 1, Half(writes, false)).value, Update(db, h, r, height - 1, Half(writes, true)).value;
    JoinHalves(db, h, ref, height, m, writes, l, r, lv, rv);
    UpdateUnfold(db, h, ref, height, writes, l, r, lv, rv);
    InputsUnfold(db, h, ref, height, writes, l, r, lv, rv);
    HalvesReady(m, writes, height, false);
    HalvesReady(m, writes, height, true);
    ApplyLength(m, writes, height);
    BuildUnfold(height, Apply(m, writes));
    PromisedWritten(db, h, ref, height, m, writes, JoinViews(h, lv, rv));
  }

  lemma PromisedIsOk(db: NodeMap, h: Hasher, ref: Ref, height: nat, m: Contents, writes: Contents)
    requires Promised(db, h, ref, height, m, writes)
    ensures Update(db, h, ref, height, writes).Ok?
  {
  }

  lemma PromisedWritten(db: NodeMap, h: Hasher, ref: Ref, height: nat, m: Contents, writes: Contents, v: View)
    requires writes != map[] && Update(db, h, ref, height, writes) == Ok(v)
    requires Updated(h, v, Build(height, Apply(m, writes)), Safe(db, h, height, m, writes),
               UpdateInputs(db, h, ref, height, writes))
    ensures Promised(db, h, ref, height, m, writes)
  {
  }

  // ------------------------------------------------------------------------
  // The root
  // ------------------------------------------------------------------------

  /** The exact condition, for any update that writes something: it gets the canonical root if it leaves no hidden edge
      alone, and if it does get that root although it leaves one, two of the nodes hashed on the way collide. */
  lemma {:induction false} UpdateExactly(db: NodeMap, h: Hasher, height: nat, m: Contents, writes: Contents)
    requires KeysHaveLength(m, height) && KeysHaveLength(writes, height) && writes != map[]
    requires NonZero(h, Build(height, m))
    requires forall key :: key in writes ==> Open(db, h, Build(height, m), key)
    ensures var before, after := Build(height, m), Build(height, Apply(m, writes));
            var root := UpdateRoot(db, h, Hash(h, before), height, writes);
            && root.Ok?
            && (Safe(db, h, height, m, writes) ==> root.value == Hash(h, after))
            && (root.value == Hash(h, after) ==>
                  || Safe(db, h, height, m, writes)
                  || NodeCollision(h, RootInputs(db, h, Hash(h, before), height, writes), TrieNodes(h, after)))
  {
    hide Build;
    hide Apply;
    hide Open;
    hide Safe;
    hide Update;
    hide UpdateInputs;
    hide NodesBelow;
    hide Hash;
    hide NodeCollision;
    var ref := Hashed(Hash(h, Build(height, m)));
    UpdateOverProof(db, h, ref, height, m, writes);
    var v, after := Update(db, h, ref, height, writes).value, Build(height, Apply(m, writes));
    ViewOfHash(h, after);
    if !Safe(db, h, height, m, writes) {
      WrongHalf(h, v, after, UpdateInputs(db, h, ref, height, writes));
    }
  }

  lemma {:induction false} InsertionsAreSafe(db: NodeMap, h: Hasher, height: nat, m: Contents, writes: Contents)
    requires KeysHaveLength(m, height) && KeysHaveLength(writes, height) && NoDeletions(writes)
    ensures Safe(db, h, height, m, writes)
    decreases height
  {
    hide *;
    if writes == map[] || height == 0 {
      SafeBase(db, h, height, m, writes);
    } else {
      HalvesReady(m, writes, height, false);
      HalvesReady(m, writes, height, true);
      HalfInsertions(writes, false);
      HalfInsertions(writes, true);
      InsertionsAreSafe(db, h, height - 1, Half(m, false), Half(writes, false));
      InsertionsAreSafe(db, h, height - 1, Half(m, true), Half(writes, true));
      InsertionsStay(db, h, height, m, writes, false);
      InsertionsStay(db, h, height, m, writes, true);
      SafeUnfold(db, h, height, m, writes);
    }
  }

  lemma HalfInsertions(writes: Contents, bit: bool)
    requires NoDeletions(writes)
    ensures NoDeletions(Half(writes, bit))
  {
    forall key | key in Half(writes, bit)
      ensures Half(writes, bit)[key] != ZERO
    {
      HalfMember(writes, bit, key);
    }
  }

  lemma InsertionsStay(db: NodeMap, h: Hasher, height: nat, m: Contents, writes: Contents, bit: bool)
    requires height > 0 && KeysHaveLength(writes, height) && writes != map[] && NoDeletions(writes)
    ensures !Strands(db, h, height, m, writes, bit)
  {
    hide Half;
    hide Hidden;
    HalvesEmpty(writes, height);
    HalfInsertions(writes, !bit);
    if Half(writes, !bit) != map[] {
      var key :| key in Half(writes, !bit);
      assert key in Apply(Half(m, !bit), Half(writes, !bit));
    }
  }

  /** A commit without deletions over the open paths of its keys gets the root of the canonical trie of the written
      contents: the placeholders are invisible. */
  lemma {:induction false} PlaceholdersInvisible(db: NodeMap, h: Hasher, height: nat, m: Contents, writes: Contents)
    requires KeysHaveLength(m, height) && KeysHaveLength(writes, height)
    requires writes != map[] && NoDeletions(writes)
    requires NonZero(h, Build(height, m))
    requires forall key :: key in writes ==> Open(db, h, Build(height, m), key)
    ensures UpdateRoot(db, h, Hash(h, Build(height, m)), height, writes) == Ok(Hash(h, Build(height, m + writes)))
  {
    hide Build;
    hide Open;
    hide UpdateRoot;
    hide Safe;
    assert Apply(m, writes) == m + writes;
    InsertionsAreSafe(db, h, height, m, writes);
    UpdateExactly(db, h, height, m, writes);
  }

  // ------------------------------------------------------------------------
  // With every node stored
  // ------------------------------------------------------------------------

  lemma {:induction false} StoredOpens(db: NodeMap, h: Hasher, t: Trie, key: Bits)
    requires StoredBelow(db, h, t)
    ensures OpenBelow(db, h, t, key)
    decreases t
  {
    match t
    case Empty =>
    case Leaf(_) =>
    case Binary(left, right) =>
      if key == [] {
      } else {
        StoredOpens(db, h, if key[0] then right else left, key[1..]);
      }
    case Edge(path, bottom) =>
      if path <= key {
        StoredOpens(db, h, bottom, key[|path|..]);
      }
  }

  lemma HalfStored(db: NodeMap, h: Hasher, left: Trie, right: Trie)
    requires ProperEdge(left) && ProperEdge(right)
    requires StoredBelow(db, h, Combine(left, right))
    ensures StoredBelow(db, h, left) && StoredBelow(db, h, right)
    ensures left.Empty? || right.Empty? || (!Hidden(db, h, left) && !Hidden(db, h, right))
  {
    CombineShape(left, right);
  }

  lemma {:induction false} StoredIsSafe(db: NodeMap, h: Hasher, height: nat, m: Contents, writes: Contents)
    requires KeysHaveLength(m, height) && KeysHaveLength(writes, height)
    requires StoredBelow(db, h, Build(height, m))
    ensures Safe(db, h, height, m, writes)
    decreases height
  {
    hide *;
    if writes == map[] || height == 0 {
      SafeBase(db, h, height, m, writes);
    } else {
      BuildUnfold(height, m);
      BuildProper(height - 1, Half(m, false));
      BuildProper(height - 1, Half(m, true));
      HalfStored(db, h, Build(height - 1, Half(m, false)), Build(height - 1, Half(m, true)));
      HalvesReady(m, writes, height, false);
      HalvesReady(m, writes, height, true);
      StoredIsSafe(db, h, height - 1, Half(m, false), Half(writes, false));
      StoredIsSafe(db, h, height - 1, Half(m, true), Half(writes, true));
      NothingStranded(db, h, height, m, writes, false);
      NothingStranded(db, h, height, m, writes, true);
      SafeUnfold(db, h, height, m, writes);
    }
  }

  lemma NothingStranded(db: NodeMap, h: Hasher, height: nat, m: Contents, writes: Contents, bit: bool)
    requires height > 0 && KeysHaveLength(m, height)
    requires var half, other := Build(height - 1, Half(m, bit)), Build(height - 1, Half(m, !bit));
             half.Empty? || other.Empty? || !Hidden(db, h, half)
    ensures !Strands(db, h, height, m, writes, bit)
  {
    HalfLength(m, !bit, height);
    BuildEmpty(height - 1, Half(m, !bit));
    hide Build;
    hide Half;
  }

  /** With every node stored, the update gives the canonical trie of the written map, deletions included. */
  lemma {:induction false} UpdateOverFullTrie(db: NodeMap, h: Hasher, ref: Ref, height: nat, m: Contents, writes: Contents)
    requires KeysHaveLength(m, height) && KeysHaveLength(writes, height)
    requires Denotes(h, ref, Build(height, m)) && StoredRef(db, h, ref, Build(height, m))
    ensures Update(db, h, ref, height, writes) == Ok(ViewOf(h, Build(height, Apply(m, writes))))
  {
    hide Build;
    hide Apply;
    hide Update;
    hide UpdateInputs;
    hide Safe;
    hide Denotes;
    var t := Build(height, m);
    assert StoredBelow(db, h, t);
    assert ref.Hashed? ==> Stored(db, h, t);
    forall key | key in writes
      ensures OpenRef(db, h, ref, t, key)
    {
      StoredOpens(db, h, t, key);
    }
    StoredIsSafe(db, h, height, m, writes);
    ApplyLength(m, writes, height);
    UpdateOverProof(db, h, ref, height, m, writes);
  }

  // ------------------------------------------------------------------------
  // Why deletions are refused
  // ------------------------------------------------------------------------

  /** Small hash functions under which every trie below has its own hash. */
  const TOY := Hasher(
    v => v,
    (l: Felt, r: Felt) => FromNat(l + 1000 * r),
    (c: Felt, p: Bits) => FromNat(10 * c + |p|))

  const TOY_KEY: Bits := [false, false]
  const TOY_OTHER: Bits := [true, false]
  const TOY_CONTENTS: Contents := map[TOY_OTHER := 6][TOY_KEY := 5]
  const TOY_DELETION: Contents := map[TOY_KEY := ZERO]
  const TOY_PROOF: NodeMap := map[61051 := BinaryNode(51, 61), 51 := EdgeNode(5, [false])]
  const TOY_DB: NodeMap := TOY_PROOF[61 := PLACEHOLDER][5 := PLACEHOLDER]

  lemma ToyBranch(v: Felt)
    ensures Build(1, map[[false] := v]) == Edge([false], Leaf(v))
  {
    HalfOfOne([false], v, false);
    HalfOfOne([false], v, true);
    assert [false][1..] == [];
    var leaf: Contents := map[[] := v];
    assert leaf[[]] == v;
    assert [false] in map[[false] := v];
    assert Build(0, leaf) == Leaf(v);
  }

  /** Two leaves below different children of the root; deleting one must leave one edge of length two. */
  lemma ToyTries()
    ensures Build(2, TOY_CONTENTS) == Binary(Edge([false], Leaf(5)), Edge([false], Leaf(6)))
    ensures Build(2, map[TOY_OTHER := 6]) == Edge([true, false], Leaf(6))
  {
    assert TOY_KEY[1..] == [false] && TOY_OTHER[1..] == [false];
    ToyBranch(5);
    ToyBranch(6);
    assert TOY_OTHER in TOY_CONTENTS && TOY_OTHER in map[TOY_OTHER := 6];
    forall bit: bool
      ensures Half(map[TOY_OTHER := 6], bit) == if bit then map[[false] := 6] else map[]
      ensures Half(TOY_CONTENTS, bit) == if bit then map[[false] := 6] else map[[false] := 5]
    {
      HalfOfOne(TOY_OTHER, 6, bit);
      HalfInsert(map[TOY_OTHER := 6], TOY_KEY, 5, bit);
    }
  }

  lemma ToyHalves(bit: bool)
    ensures Half(TOY_DELETION, bit) == if bit then map[] else map[[false] := ZERO]
    ensures Half(map[[false] := ZERO], bit) == if bit then map[] else map[[] := ZERO]
  {
    HalfOfOne(TOY_KEY, ZERO, bit);
    HalfOfOne([false], ZERO, bit);
    assert TOY_KEY[1..] == [false] && [false][1..] == [];
  }

  lemma ToyDeletion()
    ensures Update(TOY_DB, TOY, Hashed(61051), 2, TOY_DELETION) == Ok(EdgeTo([true], 61))
  {
    hide Half;
    var below: Contents := map[[false] := ZERO];
    var leaf: Contents := map[[] := ZERO];
    ToyHalves(false);
    ToyHalves(true);
    assert leaf[[]] == ZERO && [false] in below && TOY_KEY in TOY_DELETION;
    assert Update(TOY_DB, TOY, Hashed(5), 0, leaf) == Ok(NoNode);
    UpdateUnfold(TOY_DB, TOY, Hashed(51), 1, below, Hashed(5), Hashed(ZERO), NoNode, NoNode);
    UpdateUnfold(TOY_DB, TOY, Hashed(61051), 2, TOY_DELETION, Hashed(51), Hashed(61), NoNode, Whole(61));
  }

  lemma ToyProof()
    ensures var t := Binary(Edge([false], Leaf(5)), Edge([false], Leaf(6)));
            && Hash(TOY, t) == 61051 && NonZero(TOY, t)
            && Proves(TOY_PROOF, TOY, t, TOY_KEY) && TrueNodes(TOY_PROOF, TOY, t)
    ensures Closed(TOY_DB, TOY_PROOF)
  {
    var left, right := Edge([false], Leaf(5)), Edge([false], Leaf(6));
    assert Hash(TOY, left) == 51 && Hash(TOY, right) == 61;
    assert NonZero(TOY, left) && NonZero(TOY, right);
    assert TOY_KEY[1..] == [false];
    assert Proves(TOY_PROOF, TOY, left, [false]);
  }

  lemma ToyLengths()
    ensures KeysHaveLength(TOY_CONTENTS, 2) && KeysHaveLength(TOY_DELETION, 2)
    ensures Apply(TOY_CONTENTS, TOY_DELETION) == map[TOY_OTHER := 6]
  {
    assert TOY_KEY[0] != TOY_OTHER[0];
  }

  lemma ToyRoots()
    ensures UpdateRoot(TOY_DB, TOY, 61051, 2, TOY_DELETION) == Ok(611)
    ensures Hash(TOY, Edge([true, false], Leaf(6))) == 62
  {
    hide Update;
    ToyDeletion();
    assert ViewHash(TOY, EdgeTo([true], 61)) == 611;
  }

  /** The no-deletion check is needed: this database meets every other condition, yet deleting a leaf next to a
      placeholder gives a root that is not the root of the remaining contents. */
  lemma DeletionSeesPlaceholder()
    ensures KeysHaveLength(TOY_CONTENTS, 2) && KeysHaveLength(TOY_DELETION, 2)
    ensures var t := Build(2, TOY_CONTENTS);
            && NonZero(TOY, t) && Closed(TOY_DB, TOY_PROOF) && TrueNodes(TOY_PROOF, TOY, t)
            && (forall key :: key in TOY_DELETION ==> Proves(TOY_PROOF, TOY, t, key))
            && UpdateRoot(TOY_DB, TOY, Hash(TOY, t), 2, TOY_DELETION).Ok?
            && UpdateRoot(TOY_DB, TOY, Hash(TOY, t), 2, TOY_DELETION)
               != Ok(Hash(TOY, Build(2, Apply(TOY_CONTENTS, TOY_DELETION))))
    ensures !Safe(TOY_DB, TOY, 2, TOY_CONTENTS, TOY_DELETION)
  {
    hide Build;
    hide Update;
    hide NonZero;
    hide Proves;
    hide Closed;
    hide TrueNodes;
    hide UpdateRoot;
    hide Apply;
    hide Hash;
    hide KeysHaveLength;
    ToyLengths();
    ToyTries();
    ToyProof();
    ToyRoots();
    assert forall key :: key in TOY_DELETION ==> key == TOY_KEY;
    ProofOpens(TOY_DB, TOY, TOY_PROOF, Build(2, TOY_CONTENTS), TOY_KEY);
    assert TOY_KEY in TOY_DELETION;
    hide Open;
    hide Safe;
    hide TrieNodes;
    hide RootInputs;
    UpdateExactly(TOY_DB, TOY, 2, TOY_CONTENTS, TOY_DELETION);
  }
}
