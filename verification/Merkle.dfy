/** Merkle-Patricia nodes as the JSON-RPC storage proof lists them. */
module Merkle {
  import opened Felts

  /** A path down the trie, the most significant bit first. */
  type Bits = seq<bool>

  /** An edge stands for `|path|` levels with a single child at the end. */
  datatype MerkleNode =
    | BinaryNode(left: Felt, right: Felt)
    | EdgeNode(child: Felt, path: Bits)

  /** Nodes keyed by their hash. */
  type NodeMap = map<Felt, MerkleNode>

  function Children(node: MerkleNode): set<Felt> {
    match node
    case BinaryNode(left, right) => {left, right}
    case EdgeNode(child, _) => {child}
  }
}
