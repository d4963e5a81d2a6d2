# Verification of the SNIP-36 prover's storage-proof, record/replay, signing and demo-protocol logic

This project models, in Dafny 4.11, the parts of the repository that carry real logic, and proves what they promise for
every input, every run and every honest node. `dafny verify dfyconfig.toml` checks all of it.

| module | what it models |
|---|---|
| `Felts` | the Stark field, `{:#x}` printing, hex parsing, and their round trip |
| `StorageQueries` | counting, flattening, cutting and rebuilding storage-proof queries |
| `StorageProofs` | the honest node, merging chunk replies, and when the merge is the whole reply |
| `CachedState`, `ProofProvider` | from the reads of an execution to the proofs given to the OS |
| `Merkle`, `Patricia`, `PatriciaUpdate` | the canonical Merkle-Patricia trie, an update that sees only stored nodes, and when it gets the canonical root |
| `FactsDb` | the facts database, filled in place, with placeholders for hashes without preimage |
| `Commit` | the committer's diff, its validation, and a commit over the facts database |
| `Pipeline`, `HonestNode` | all of the above in a row: fetch, build the database, commit storage tries and contracts trie; and a node that meets the assumptions |
| `Json`, `JsonReader`, `LookupKey`, `Normalize`, `RpcRecords` | printed JSON, the flat lookup key, array-order normalisation, record and replay |
| `Signing`, `Payloads` | SNIP-8 and SNIP-36 packing and hashing, and the four builders |
| `Multicall` | the calldata of several counter calls and what running it does |
| `CoinFlip` | the commit-reveal handlers, all their interleavings, and the settled outcome |
| `StateReader` | the prefetched state reader with fallback |
| `ProofBytes` | base64 and the packing of legacy proofs |

## How the model relates to the code

- Hash functions (Poseidon, Pedersen, the trie hashes, the leaf hashes) and the signer are parameters. None is assumed
  injective: a binding result says "equal, or here are two different inputs with one digest". Facts about tries assume
  only that no node of the trie at hand hashes to zero.
- An honest node is a function from single keys to node hashes and leaves; a reply is the union over the keys of the
  query, with leaves and per-contract maps in query order (the order guarantee stated at
  `storage_proofs.rs` lines 263-271). A request may also fail.
- `ContractAddresses` is the union of the addresses whose storage, nonce or class hash was read, which is what
  `get_contract_addresses` (outside this repository) returns.
- Iteration over a hash map or hash set is a loop that takes the remaining elements in an arbitrary order.
- `Felt::from_hex` (outside this repository) is read as: an optional `0x`, then 1 to 64 hex digits, reduced modulo the
  prime. The round-trip results use it only on what `{:#x}` prints.
- `Pipeline` assumes of the node that its roots are those of the block's tries, that the nodes returned for a key prove that
  key, and that wherever it lists the hash of a binary node or an edge of one of these tries, also in the proof of another
  trie, it lists that node. Nothing is assumed of leaves: a stored value may be any felt, also the hash of a node. Of the
  execution it assumes that it read what it writes, and of the written contracts that no new leaf hashes to zero, which
  would be a deletion. A commit writes each changed contract's new leaf, made from its leaf in the
  reply, to the contracts trie after its storage trie.
- JSON objects list distinct names in order, as serde_json's default map does; a number is its printed text; printing is
  compact with the escapes of section 7 of RFC 8259. Strings are compared by code point, which for UTF-8 is the order
  of their bytes. A rendered transaction is a record with one field per JSON key, `None` for an absent key.
- The trie update in `Patricia` follows the Merkle-Patricia trie of the Starknet state: it descends from the root,
  reads the top of an unwritten subtree without going below, and lengthens an edge whose sibling is empty. It reads
  the database by hash only and fails on a missing entry.

Properties that do not hold for every input, with the exact condition under which they do:

- Merging split replies gives the whole reply if and only if no entry with keys is followed by another entry of the same
  contract (`StorageProofs.SplitMergeExact`). The address index keeps the last entry of a repeated address, so an
  earlier one is left empty. Prepared queries always meet the condition.
- Collecting a flattened query gives it back without its empty entries if and only if no two entries that become
  neighbours belong to one contract (`StorageQueries.CollectFlatten`).
- The announced increment of a multicall is the one the calls add if and only if the product fits 64 bits
  (`Multicall.ExpectedIncrementExact`); the model wraps as a release build does, a debug build panics instead.
- An update, deletions included, over proofs and placeholders gets the canonical root if it never deletes everything on
  one side of a binary node and leaves alone, unwritten, on the other side an edge whose node is not stored; and it gets
  that root otherwise only if two of the nodes hashed on the way collide (`PatriciaUpdate.UpdateExactly`). Updates
  without deletions always meet the condition, and the check at `committer_utils.rs` lines 69-82 refuses all others.
  `PatriciaUpdate.DeletionSeesPlaceholder` is a deletion that does not meet it and gets a wrong root without any error.
- The entries equal to the placeholder are exactly the children without preimage in any batch if and only if no real node
  has two zero children (`FactsDb.PlaceholderExactly`).

Each of these has an input at which the property fails: `StorageProofs.MergeLosesShadowedKeys`,
`StorageQueries.CollectJoinsTwins`, `Multicall.ExpectedIncrementWraps`, `PatriciaUpdate.DeletionSeesPlaceholder` and
`FactsDb.RealNodeLooksLikePlaceholder`.

## Model

| member | source | states |
|---|---|---|
| Pipeline.CommitStateChanges | portable-core/starknet_transaction_prover/src/running/storage_proofs.rs:501-548 | From an execution's reads and writes to the new roots, for every honest node and limit. Exactly the contracts with storage writes get a new storage root, that of the canonical trie of their old storage overlaid with the entries of the state diff. The contracts root is that of the canonical trie with a new leaf for exactly the contracts with a nonce or a storage write: the written nonce or else the old one, the old class hash, and the new storage root or else the old one. The only errors are a failed request and a diff with a deletion, deployment or declaration. |
| Pipeline.CommittedIsSettled | portable-core/starknet_transaction_prover/src/running/storage_proofs.rs:332-342 | The roots that the commit is proved to give are the ones the state diff calls for, contract by contract and key by key. |
| Pipeline.NewStateRoots | portable-core/starknet_transaction_prover/src/running/storage_proofs.rs:314-342 | Building the facts database from the reply, validating and committing never meets a missing or malformed node, and refuses exactly the unsupported diffs. |
| Pipeline.StorageCommitted | portable-core/starknet_transaction_prover/src/running/committer_utils.rs:283-304 | Over the database of an honest reply each written contract's storage trie gets its canonical new root. |
| Pipeline.ContractsCommitted | portable-core/starknet_transaction_prover/src/running/committer_utils.rs:283-304 | Over the same database the contracts trie with the new leaves gets its canonical new root. |
| Pipeline.ProvesMore | portable-core/starknet_transaction_prover/src/running/storage_proofs.rs:114-116 | Adding nodes to a proof keeps every key proved. |
| Pipeline.ProvesInUnion | portable-core/starknet_transaction_prover/src/running/storage_proofs.rs:114-116 | A union of proofs of several tries, in which one may overwrite another, still proves a key as long as it has the trie's own nodes under the hashes of its inner nodes. |
| Pipeline.ReplyIsTrue | portable-core/starknet_transaction_prover/src/running/storage_proofs.rs:263-271 | All nodes of an honest reply together, whatever the query, have the trie's own node under the hash of each of its inner nodes. |
| HonestNode.TwoKeyNodeIsHonest | portable-core/starknet_transaction_prover/src/running/storage_proofs.rs:263-271 | The guarantees asked of a node can be met: by a node with two keys in every trie, where a proof names a sibling without its node and a stored value is the hash of an edge. |
| PatriciaUpdate.PlaceholdersInvisible | portable-core/starknet_transaction_prover/src/running/committer_utils.rs:246-281 | Over only the nodes on the paths of the written keys, and for each inner sibling its own node or any binary node in its place, an update without deletions succeeds and its root is the hash of the canonical trie of the old contents overlaid with the writes; nothing is asked of entries under leaf hashes. |
| PatriciaUpdate.UpdateExactly | portable-core/starknet_transaction_prover/src/running/committer_utils.rs:246-281 | For any update, deletions included: it succeeds, it gets the canonical root if it leaves no edge alone whose node is not stored, and if it gets that root although it leaves one, two different nodes hashed by the update and in the canonical trie have one hash. |
| PatriciaUpdate.InsertionsAreSafe | portable-core/starknet_transaction_prover/src/running/committer_utils.rs:69-82 | An update without deletions leaves no such edge alone. |
| Patricia.ProofOpens | portable-core/starknet_transaction_prover/src/running/committer_utils.rs:246-281 | The proof of a key, in a database with an entry for each child of a proof node and only binary nodes besides, gives all that an update of the key touches. |
| Patricia.FindInBuilt | portable-core/starknet_transaction_prover/src/running/committer_utils.rs:283-304 | Finding a key in the canonical trie is finding it in the map, for every map and key. |
| PatriciaUpdate.UpdateOverFullTrie | portable-core/starknet_transaction_prover/src/running/committer_utils.rs:283-304 | With every node stored, the update of any subtree gives exactly the canonical trie of the written map, deletions included, so both databases lead to the same root. |
| PatriciaUpdate.UpdateOverProof | portable-core/starknet_transaction_prover/src/running/committer_utils.rs:246-281 | The promise for every subtree of the descent: an unread sibling has at least the right hash and is inexact only as an edge whose node is not stored; a written subtree has the right kind, and its exact canonical top if it was safe to write, and otherwise a wrong one up to a collision. |
| PatriciaUpdate.DeletionSeesPlaceholder | portable-core/starknet_transaction_prover/src/running/committer_utils.rs:249-251 | A concrete database that meets every condition except the one on deletions, where deleting a leaf beside a placeholder gives a root that is not the canonical one, without an error. |
| Commit.CommitTrie | portable-core/starknet_transaction_prover/src/running/committer_utils.rs:283-304 | Any update without deletions of one trie, over the entries that the facts database is proved to hold, gives the root of the canonical trie of the updated contents. |
| Commit.CommitOverFacts | portable-core/starknet_transaction_prover/src/running/storage_proofs.rs:317-342 | A diff that passes validation, committed to one contract's storage over the entries that the facts database is proved to hold, gives the root of the canonical trie of the updated storage. |
| Commit.FactsClosed | portable-core/starknet_transaction_prover/src/running/committer_utils.rs:109-134 | Whatever the proof holds, the built database has each of its nodes, an entry for each of their children, and otherwise only binary nodes. |
| Commit.ValidateVirtualOsStateDiff | portable-core/starknet_transaction_prover/src/running/committer_utils.rs:69-100 | Accepts exactly the diffs without a zero storage value, without deployments and without declarations; a deletion is reported with an address and key that really delete, and comes before the other errors. |
| Commit.DiffKeepsUpdates | portable-core/starknet_transaction_prover/src/running/committer_utils.rs:37-61 | Grouping the storage map by contract neither loses, invents nor changes an update. |
| Commit.DiffKeepsTheRest | portable-core/starknet_transaction_prover/src/running/committer_utils.rs:37-47 | Nonces, class hashes and compiled class hashes go over to the committer's diff as they are. |
| Commit.WritesMeaning | portable-core/starknet_transaction_prover/src/running/committer_utils.rs:48-59 | Each storage update writes the path of its own key, with its own value, and no other path is written. |
| FactsDb.CreateFactsDbFromStorageProof | portable-core/starknet_transaction_prover/src/running/committer_utils.rs:109-134 | Fails exactly on a leaf count that differs from the address count. Otherwise a hash has an inner entry exactly when the reply lists it or a listed node has it as a child; the entry is a node listed under it, or a binary node with two zero children; and the leaf entries are exactly the contract leaves (nonce, class hash, root or zero), the storage values and the compiled class hashes, each under its own hash. |
| FactsDb.FactsMeaning | portable-core/starknet_transaction_prover/src/running/committer_utils.rs:102-108 | For consistent batches every proof hash maps to its real node, every child hash has an entry, a child without preimage in any batch has a placeholder, and there are no other inner entries. |
| FactsDb.OrphansAreGlobal | portable-core/starknet_transaction_prover/src/running/committer_utils.rs:252-281 | Although preimages are looked up batch by batch, the hashes that end up with a placeholder are exactly the children that no batch has a preimage for. |
| FactsDb.PlaceholderExactly | portable-core/starknet_transaction_prover/src/running/committer_utils.rs:231-281 | The inner entries equal to the placeholder are exactly the children without preimage in any batch, if and only if no real node has two zero children. |
| FactsDb.RealNodeLooksLikePlaceholder | portable-core/starknet_transaction_prover/src/running/committer_utils.rs:259-265 | A concrete reply for which they are not: its node has two zero children. |
| FactsDb.BatchOrderIrrelevant | portable-core/starknet_transaction_prover/src/running/committer_utils.rs:116-131 | Two databases built from the same batches in any order, with repetitions or not, have the same inner entries. |
| FactsDb.Database.InsertInnerNodes | portable-core/starknet_transaction_prover/src/running/committer_utils.rs:136-151 | Each node of the batch goes in under its hash and replaces what was there; nothing else changes. |
| FactsDb.Database.InsertContractLeaves | portable-core/starknet_transaction_prover/src/running/committer_utils.rs:171-201 | Refuses a wrong leaf count without touching the database; otherwise adds one leaf per reply leaf under its hash, a missing storage root being zero. |
| FactsDb.Database.InsertStorageLeaves | portable-core/starknet_transaction_prover/src/running/committer_utils.rs:203-215 | Adds a leaf for each storage value read, under its contract and hash, in whatever order the map yields them. |
| FactsDb.Database.InsertCompiledClassLeaves | portable-core/starknet_transaction_prover/src/running/committer_utils.rs:217-229 | Adds a leaf for each compiled class hash read. |
| FactsDb.Database.AddDummyNodeForOrphanChild | portable-core/starknet_transaction_prover/src/running/committer_utils.rs:231-244 | Adds a placeholder only for a child without preimage and without any entry; an existing entry is never changed. |
| FactsDb.Database.AddDummyNodesForOrphanHashes | portable-core/starknet_transaction_prover/src/running/committer_utils.rs:252-281 | Placeholders for exactly the batch's children without preimage in the batch, existing entries untouched, in every visiting order. |
| LookupKey.KeyUnique | portable-core/starknet_transaction_prover/src/running/rpc_records.rs:98-101 | The text `method:params` can be split in only one way: equal keys come from equal methods and equal params, whatever colons, quotes or brackets the method holds. |
| LookupKey.NoValueAfterColon | portable-core/starknet_transaction_prover/src/running/rpc_records.rs:98-101 | No printed value is some text, a colon and another printed value: the scanner argument on strings and bracket depth. |
| LookupKey.RunPrint | portable-core/starknet_transaction_prover/src/running/rpc_records.rs:98-101 | A printed value is balanced: scanning it from any depth ends at that depth, outside strings, without a colon or a closing bracket at the starting depth. |
| LookupKey.RunOpposed | portable-core/starknet_transaction_prover/src/running/rpc_records.rs:98-101 | Two scans of one text that disagree on being inside a string go on disagreeing until one of them fails. |
| Json.PrintInjective | portable-core/starknet_transaction_prover/src/running/rpc_records.rs:84-101 | Equal printed texts come from equal values; sorting and keys by printed text rest on it. |
| JsonReader.ReadPrint | portable-core/starknet_transaction_prover/src/running/rpc_records.rs:84-101 | A reader for compact JSON texts after section 7 of RFC 8259 reads every printed value back. |
| Json.PrintUnique | portable-core/starknet_transaction_prover/src/running/rpc_records.rs:84-101 | A printed value followed by a separator can be read off the front of a text in only one way, so printing nests without ambiguity. |
| Json.EscapeUnique | portable-core/starknet_transaction_prover/src/running/rpc_records.rs:98-101 | An escaped string ends at its first bare quotation mark and determines the string. |
| Normalize.NormCanonical | portable-core/starknet_transaction_prover/src/running/rpc_records.rs:79-96 | Two values have one normal form if and only if they differ only by reordering arrays at any depth. |
| Normalize.NormIdempotent | portable-core/starknet_transaction_prover/src/running/rpc_records.rs:79-96 | Normalising twice changes nothing, although the sort compares texts and not values. |
| Normalize.NormOnlyReorders | portable-core/starknet_transaction_prover/src/running/rpc_records.rs:79-96 | Normalising changes nothing but the order of array items. |
| Normalize.SortFacts | portable-core/starknet_transaction_prover/src/running/rpc_records.rs:86-90 | The sort permutes the items and orders them by printed text. |
| Normalize.LexMeaning | portable-core/starknet_transaction_prover/src/running/rpc_records.rs:88-88 | The order of the sort: the first difference decides, and a text comes after its prefixes. |
| Normalize.SortedUnique | portable-core/starknet_transaction_prover/src/running/rpc_records.rs:86-90 | A multiset of values has only one listing sorted by printed text. |
| Normalize.NormWellFormed | portable-core/starknet_transaction_prover/src/running/rpc_records.rs:84-96 | Normalising keeps names distinct and in order, so the result prints as unambiguously as the input. |
| RpcRecords.ReplayIsLogSearch | portable-core/starknet_transaction_prover/src/running/rpc_records.rs:122-172 | For every recorded run, replay answers a request with the response of the last exchange of that method whose params agree up to array order, and with nothing exactly when there is none, although params are normalised both when recorded and when loaded. |
| RpcRecords.TableIsLogSearch | portable-core/starknet_transaction_prover/src/running/rpc_records.rs:122-127 | The same after every prefix of the records, so a later interaction replaces an earlier one and nothing else. |
| RpcRecords.KeysMeet | portable-core/starknet_transaction_prover/src/running/rpc_records.rs:161-163 | A recorded exchange and a request share a key if and only if the methods are equal and the params agree up to array order. |
| RpcRecords.RequestMeaning | portable-core/starknet_transaction_prover/src/running/rpc_records.rs:161-163 | The method that is read is the string in the field "method", or "unknown" if there is none, and the params are what is in the field "params", or null if there is none; a request says no other method or params. |
| RpcRecords.LookupKeyUnique | portable-core/starknet_transaction_prover/src/running/rpc_records.rs:98-101 | Two requests share a key if and only if methods and normalised params are equal. |
| RpcRecords.RecordingProxy.Handle | portable-core/starknet_transaction_prover/src/running/rpc_records.rs:260-292 | Appends one interaction with the method and the normalised params that the request says, so the interactions remain the records of the log so far, and passes the response through. |
| RpcRecords.RecordingProxy.IntoRecords | portable-core/starknet_transaction_prover/src/running/rpc_records.rs:253-257 | Returns everything recorded, in order. |
| RpcRecords.MockRpcServer.constructor | portable-core/starknet_transaction_prover/src/running/rpc_records.rs:119-127 | Fills the table so that the last interaction of each key stays. |
| RpcRecords.MockRpcServer.Handler | portable-core/starknet_transaction_prover/src/running/rpc_records.rs:154-172 | Looks up method, colon and normalised params as the request says them, and answers none for "not found". |
| StorageProofs.SplitMergeExact | portable-core/starknet_transaction_prover/src/running/storage_proofs.rs:64-154 | For every query with a key and every limit, merging the chunk replies equals the reply to the whole query for all honest nodes if and only if no entry with keys is followed by an entry of the same contract; the `expect` on the address never fires. |
| StorageProofs.MergeLosesShadowedKeys | portable-core/starknet_transaction_prover/src/running/storage_proofs.rs:130-150 | A concrete query and node for which it does not: two entries of one contract. |
| StorageProofs.SplitMergeIdentity | portable-core/starknet_transaction_prover/src/running/storage_proofs.rs:64-154 | Under that condition the merged reply has the same class nodes, contract nodes, leaf sequence, per-contract maps and roots as the single reply. |
| StorageProofs.MergeOfSplit | portable-core/starknet_transaction_prover/src/running/storage_proofs.rs:100-154 | Without any condition: the merge holds the nodes of exactly the requested keys, with the maps of a repeated address gathered at its last entry. |
| StorageProofs.SplitFits | portable-core/starknet_transaction_prover/src/running/storage_proofs.rs:146-149 | Every address of every chunk is found in the index of the original query. |
| StorageProofs.MergeStorageProofs | portable-core/starknet_transaction_prover/src/running/storage_proofs.rs:117-154 | The merging loops compute the step-by-step merge that the theorems above are about, for replies of any shape. |
| StorageProofs.IndexAddresses | portable-core/starknet_transaction_prover/src/running/storage_proofs.rs:130-135 | The index finds exactly the addresses of the query, at their last position. |
| StorageQueries.SplitConservesKeys | portable-core/starknet_transaction_prover/src/running/storage_proofs.rs:47-107 | Concatenating the flattened sub-queries gives the flattened query in order; each has between 1 and the limit of keys, all but the last are full, and their number is the ceiling of total over limit. |
| StorageQueries.CollectFlatten | portable-core/starknet_transaction_prover/src/running/storage_proofs.rs:64-98 | Collecting a flattened query gives it back without its empty entries if and only if no two entries that become neighbours belong to one contract. |
| StorageQueries.CollectJoinsTwins | portable-core/starknet_transaction_prover/src/running/storage_proofs.rs:82-94 | A concrete query that collecting does not give back: two neighbouring entries of one contract. |
| StorageQueries.FlattenCollect | portable-core/starknet_transaction_prover/src/running/storage_proofs.rs:64-98 | Any run of items in query order survives collecting and flattening unchanged, also when it starts or ends inside a contract's keys. |
| StorageQueries.CollectParts | portable-core/starknet_transaction_prover/src/running/storage_proofs.rs:76-98 | For items in any order: collecting keeps each kind in order, loses none, and leaves no empty entry and no two neighbouring entries of one contract. |
| StorageQueries.GroupingUnique | portable-core/starknet_transaction_prover/src/running/storage_proofs.rs:82-94 | There is only one way to group a run of storage keys into non-empty entries without neighbouring twins. |
| StorageQueries.FlattenCount | portable-core/starknet_transaction_prover/src/running/storage_proofs.rs:46-51 | The node's key count is the number of flattened items. |
| StorageQueries.FlattenQuery | portable-core/starknet_transaction_prover/src/running/storage_proofs.rs:64-74 | The loops list class hashes, then addresses, then each entry's keys, in query order. |
| StorageQueries.CollectQuery | portable-core/starknet_transaction_prover/src/running/storage_proofs.rs:76-98 | The loop, which extends the last entry in place, computes the collected query that the lemmas are about. |
| StorageQueries.ChunksFacts | portable-core/starknet_transaction_prover/src/running/storage_proofs.rs:106-106 | Cutting into chunks loses nothing, fills all but the last, and makes as few as possible. |
| ProofProvider.GetStorageProofs | portable-core/starknet_transaction_prover/src/running/storage_proofs.rs:501-548 | In the configuration without state changes (for the other see Pipeline.CommitStateChanges), for every set of reads, honest node and limit: either a request failed, or every trie keeps its root at height 251 and comes with exactly the nodes on the paths of the contracts that were read, of the executed classes, and of the keys read from each contract; each read contract has its own leaf's root (or zero), nonce and class hash. No other error can occur. |
| ProofProvider.ProvenIsHandedOver | portable-core/starknet_transaction_prover/src/running/storage_proofs.rs:378-413 | Each part of the result, roots, height, nodes and extended reads, is stated by itself in terms of the node and the reads. |
| ProofProvider.PrepareQuery | portable-core/starknet_transaction_prover/src/running/storage_proofs.rs:230-258 | Sorted distinct addresses, one storage entry per address at the same position, every read key in it exactly once and no other, every executed class exactly once. |
| CachedState.ReadsMeaning | portable-core/starknet_transaction_prover/src/running/storage_proofs.rs:237-248 | A contract is queried exactly when its nonce, its class hash or one of its storage keys was read, and its keys are the ones that were read. |
| ProofProvider.FetchProofs | portable-core/starknet_transaction_prover/src/running/storage_proofs.rs:272-289 | Succeeds exactly when each of its requests does; the result is the single reply whenever the query fits or has no shadowed keys, so chunking is invisible. |
| ProofProvider.RequestsConserveKeys | portable-core/starknet_transaction_prover/src/running/storage_proofs.rs:272-289 | The requests together ask for every key of the query once and in order, and each is within the limit. |
| ProofProvider.CommitmentInfosProven | portable-core/starknet_transaction_prover/src/running/storage_proofs.rs:435-496 | For a prepared query and its honest reply no error branch is taken, and each contract gets its own leaf's storage root and its own nodes. |
| ProofProvider.InfosBuiltExactly | portable-core/starknet_transaction_prover/src/running/storage_proofs.rs:435-496 | For any reply and query, honest or not: the infos are built exactly when there is one storage proof per entry and each entry's address is valid and has a leaf at its position; the length is checked first. |
| ProofProvider.ExtendReads | portable-core/starknet_transaction_prover/src/running/storage_proofs.rs:521-532 | For any leaves: each address gets the class hash and nonce of its last leaf; storage is kept and nothing else is added. |
| ProofProvider.PairedWithOwn | portable-core/starknet_transaction_prover/src/running/storage_proofs.rs:521-532 | With sorted addresses and honest leaves each address gets its own leaf's values. |
| ProofProvider.GroupByAddress | portable-core/starknet_transaction_prover/src/running/storage_proofs.rs:243-248 | An address has a group exactly when one of its keys was read; the group lists each of those keys once. |
| ProofProvider.PreparedNotShadowed | portable-core/starknet_transaction_prover/src/running/storage_proofs.rs:230-258 | Prepared queries meet the condition under which splitting is lossless. |
| Signing.HashBindsEveryField | crates/snip36-pure/src/signing.rs:26-80 | Two transactions with equal hash are equal in every field, proof facts being empty or not included, or two different inputs met while hashing them have one digest. |
| Signing.HashLayout | crates/snip36-pure/src/signing.rs:26-80 | The hash, position by position and with literal constants: "invoke", 3, sender, the hash of tip and the packed L1, L2 and L1-data bounds, the hash of the paymaster data, chain id, nonce, both data availability modes, the hashes of deployment data and calldata, and the hash of the proof facts only if there are any. |
| Signing.PackingIsExact | crates/snip36-pure/src/signing.rs:18-33 | The packed value is name * 2^192 + amount * 2^128 + price, below 2^248 and so below the prime, and the truncated name, the amount and the price are read back from it; for every name, 64-bit amount and 128-bit price. |
| Signing.NameReadsBack | crates/snip36-pure/src/signing.rs:18-24 | The name's number has the first seven bytes of the name, or all if fewer, as its big-endian digits. |
| Signing.ChainIdReadsBack | crates/snip36-pure/src/signing.rs:14-16 | A chain id of at most 31 bytes is the big-endian number of its bytes. |
| Signing.PackingInjective | crates/snip36-pure/src/signing.rs:26-33 | Equal packings of one resource come from equal bounds. |
| Signing.TipAndBoundsInjective | crates/snip36-pure/src/signing.rs:35-41 | The hashed tip and three packed bounds determine the tip and all six numbers. |
| Signing.DaModesInjective | crates/snip36-pure/src/signing.rs:43-80 | The combined field determines both 32-bit data availability modes. |
| Payloads.BuildersHashWhatTheyRender | crates/snip36-pure/src/signing.rs:95-285 | For all four builders and every input they accept: parsing every field of the built object and hashing again with the chain id gives the returned hash. |
| Payloads.UnsignedTransactionBuilt | crates/snip36-pure/src/signing.rs:180-220 | Built exactly when sender, nonce and every calldata text parse; then reading the object back gives the transaction with these texts parsed position by position, the caller's bounds or the literal zero-fee ones, everything else empty, and the returned hash is its hash. |
| Payloads.TransactionBuilt | crates/snip36-pure/src/signing.rs:134-178 | The same with a key that must parse too; the signature is the signer's answer on key and hash, and the only other failure is the signer's. |
| Payloads.UnsignedPayloadBuilt | crates/snip36-pure/src/signing.rs:238-285 | The same for payloads, whose proof facts must parse and are read back, with the literal default bounds and the caller's base64 text as proof. |
| Payloads.PayloadBuilt | crates/snip36-pure/src/signing.rs:95-132 | The same for signed payloads. |
| Payloads.SignedAgreesWithUnsigned | crates/snip36-pure/src/signing.rs:134-285 | A signed builder that succeeds returns the unsigned builder's hash and object with only the two signature felts added; given a parsable key it fails otherwise only if signing does. |
| Payloads.ReadBackRendered | crates/snip36-pure/src/signing.rs:95-132 | Every rendered field parses back to the hashed one, with absent proof facts meaning none. |
| Payloads.ParseRpcJson | crates/snip36-pure/src/types.rs:38-54 | The six printed bounds parse back to the bounds that were hashed. |
| Payloads.ParseAllPointwise | crates/snip36-pure/src/signing.rs:134-178 | A list of texts parses exactly when each text does, position by position. |
| Felts.FeltRoundTrip | crates/snip36-pure/src/signing.rs:293-295 | The parser undoes the hex printing of every field element. |
| Felts.PrintedShape | crates/snip36-pure/src/signing.rs:134-178 | Printed digits are lower-case hex without a leading zero, so there is one printed form of each felt. |
| Multicall.MulticallMeaning | crates/snip36-server/src/routes/prove_block.rs:122-143 | For every count, amount, contract and stored counters: running the decoded calldata changes nothing without calls, fails for an unknown contract, and otherwise adds count times the amount to that counter in the field and touches no other; this is the announced increment exactly when the product fits 64 bits. |
| Multicall.CalldataDecodes | crates/snip36-server/src/routes/prove_block.rs:135-155 | The calldata exists exactly when the contract parses or there is no call, and decodes to exactly `count` calls `increment(amount)` on it, with nothing left over. |
| Multicall.BuildIncrementCalls | crates/snip36-server/src/routes/prove_block.rs:135-143 | The loop pushes the call count and then one four-text group per call. |
| Multicall.RunIncrements | tests/contracts/src/lib.cairo:17-20 | n increments in a row add n times the amount modulo the prime to the called contract's counter and keep every other one. |
| Multicall.ExpectedIncrementExact | crates/snip36-server/src/routes/prove_block.rs:122-122 | The announced 64-bit product is the amount added in the field if and only if it does not wrap. |
| Multicall.ExpectedIncrementWraps | crates/snip36-server/src/routes/prove_block.rs:122-122 | Two calls with 2^63 each are announced as no increment. |
| CoinFlip.RevealedOnce | crates/snip36-server/src/routes/coinflip.rs:257-282 | In every interleaving of block advances, deployments, commits and plays: a reveal that finds a commitment consumes it whether or not the checks pass, and every later reveal of the session finds none. |
| CoinFlip.FirstRevealAccepted | crates/snip36-server/src/routes/coinflip.rs:272-314 | In every run the first reveal of a committed session is accepted exactly when it comes from the committed player, its nonce parses, and the hash of the clamped bet and the nonce prints as the committed text; whatever happens to other sessions in between. |
| CoinFlip.CommitmentKept | crates/snip36-server/src/routes/coinflip.rs:272-282 | Nothing but its own reveal takes a session's commitment away or changes it. |
| CoinFlip.PlaysNeedDeployment | crates/snip36-server/src/routes/coinflip.rs:262-270 | In every run a play reaches its reveal only once the contract is deployed. |
| CoinFlip.AcceptedUsesCommitted | crates/snip36-server/src/routes/coinflip.rs:199-314 | In every run an accepted reveal uses exactly the player and seed stored when its session was committed; the seed is the last head that this commit's handler read, minus one, floored at zero, and the stored commitment is the hash of the clamped bet and nonce. |
| CoinFlip.CommitmentOrigin | crates/snip36-server/src/routes/coinflip.rs:203-225 | A stored commitment is the one its own commit handler stored, with the seed from the last head that this handler read before storing. |
| CoinFlip.SeedOrigin | crates/snip36-server/src/routes/coinflip.rs:204-216 | A seed in flight is from the last head that its task read, even if blocks advance before it is stored. |
| CoinFlip.ConsumedForever | crates/snip36-server/src/routes/coinflip.rs:218-225 | Session ids being fresh, a session whose commitment is gone never gets one again. |
| CoinFlip.BetBinding | crates/snip36-server/src/routes/coinflip.rs:284-312 | Two reveals accepted against one commitment have the same clamped bet and nonce, or their two hash inputs are a Pedersen collision. |
| CoinFlip.OutcomeFixedAtCommit | tests/contracts/src/lib.cairo:71-89 | The message that settles an accepted reveal carries the player, the seed, and as outcome the parity of the hash of seed and player, all fixed at commit; the bet decides only whether it wins. |
| CoinFlip.PlayCalldataDecodes | crates/snip36-server/src/routes/coinflip.rs:353-380 | The play calldata is one call `play(seed, player, bet)` with nothing left over, and exists exactly when contract and player parse. |
| CoinFlip.AppState.DeployCoinflip | crates/snip36-server/src/routes/coinflip.rs:63-175 | An existing deployment is kept and returned; otherwise the new one is stored if deploying succeeded, and commitments are untouched. |
| CoinFlip.AppState.CommitBet | crates/snip36-server/src/routes/coinflip.rs:199-239 | Stores commitment, player and the floored seed under the fresh session, nothing when the head cannot be read, and leaves every other session as it was. |
| CoinFlip.AppState.PlayCoinflip | crates/snip36-server/src/routes/coinflip.rs:257-314 | Without a deployment nothing is consumed; otherwise exactly this session's commitment is, before any check, and every other session is left as it was; the answer in each case is the one of the first check that fails, or the acceptance with the committed seed and player and the clamped bet. |
| StateReader.IndistinguishableExactly | portable-core/starknet_transaction_prover/src/running/virtual_block_executor.rs:368-446 | Every execution, however it branches on what it reads, runs the same through the prefetched reader as through the RPC reader if and only if every prefetched entry is the node's own answer. |
| StateReader.OnlySentMatters | portable-core/starknet_transaction_prover/src/running/virtual_block_executor.rs:374-446 | The requests counted as sent, the reads without a prefetched entry, are exactly what an execution learns from the node: under another node it runs the same if and only if that node answers these requests alike, whatever it answers to others. |
| StateReader.ToStateMaps | portable-core/starknet_transaction_prover/src/running/serde_utils.rs:47-59 | Each prefetched map answers a read with the last listed entry for it and nothing else. |
| StateReader.LastStorageMeaning | portable-core/starknet_transaction_prover/src/running/serde_utils.rs:50-50 | The last listed entry of a key is the one with none after it, and there is none exactly when the key is not listed. |
| StateReader.ListsAgree | portable-core/starknet_transaction_prover/src/running/serde_utils.rs:47-65 | Prefetching from lists whose last entries are the node's answers changes no execution. |
| ProofBytes.DecodeProofExactly | crates/snip36-core/src/proof.rs:8-18 | A proof text is accepted if and only if it is the encoding of some bytes between white space, and then gives those bytes. |
| ProofBytes.WhitespaceByNumber | crates/snip36-core/src/proof.rs:9-13 | What is trimmed are the code points with the White_Space property, listed by number. |
| ProofBytes.DecodeEncode | crates/snip36-core/src/proof.rs:8-18 | Decoding undoes encoding on every byte string. |
| ProofBytes.TestVectors | crates/snip36-core/src/proof.rs:15-18 | The encoder gives the values of section 10 of RFC 4648. |
| ProofBytes.EncodeDecode | crates/snip36-core/src/proof.rs:8-13 | The strict decoder accepts nothing that the encoder does not write: padding must be complete and unused bits zero. |
| ProofBytes.CairoSerdeToBase64 | crates/snip36-core/src/proof.rs:20-35 | Fails exactly when some text is no felt, naming the first such text; otherwise decoding the result gives four bytes per felt, the big-endian form of each felt modulo 2^32. |
| ProofBytes.PackFeltMeaning | crates/snip36-core/src/proof.rs:29-32 | The last four of a felt's 32 big-endian bytes, read and written again as a 32-bit word, are the felt modulo 2^32. |

## Left out

- Networking, file access, process spawning, clocks, logging and the texts of error messages; a failed request or read is a parameter.
- The committer's own code, which is not in this repository: a commit is the specified update of each storage trie and then of the contracts trie; how it schedules and batches its reads is not modelled.
- `create_commitment_infos` after a commit with state changes: foreign code; the model stops at the new roots.
- Serialization of database values and the byte layout of database keys: a key is its kind, its hash and, for storage leaves, its contract.
- Replies that break the RPC order guarantee or give two nodes for one hash, beyond the length checks that are modelled.
- Decoding of JSON-RPC replies and of record files; saving and loading records.
- ECDSA signing: the signer is a parameter that may fail.
- `crates/snip36-core/src/signing.rs`, a near copy of the modelled file.
- Compiled classes and the rest of block execution: an execution is any function from the answers so far to the next read or a result.
- Two concurrent first deployments of the coin-flip contract: the deploy handler is one step, and which of two addresses stays is not modelled.
- What follows an accepted reveal or a built multicall: proving, submitting, retrying, session bookkeeping and settlement on the base layer.
- Account validation and fees: running calldata is running its calls in order, and one failing call fails all.
- The web and npm parts, configuration, transport modes, error-code mapping and origin checks: nothing to prove beyond one branch each.
