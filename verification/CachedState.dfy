/** The state maps that execution reads and writes. */
module CachedState {
  import opened Felts
  import opened StorageQueries

  datatype StateMaps = StateMaps(
    nonces: map<ContractAddress, Felt>,
    classHashes: map<ContractAddress, Felt>,
    storage: map<(ContractAddress, Felt), Felt>,
    compiledClassHashes: map<Felt, Felt>,
    declaredContracts: map<Felt, bool>)

  const EMPTY_STATE := StateMaps(map[], map[], map[], map[], map[])

  /** Every contract whose storage, nonce or class hash was read. */
  function ContractAddresses(s: StateMaps): set<ContractAddress> {
    (set e | e in s.storage.Keys :: e.0) + s.nonces.Keys + s.classHashes.Keys
  }

  /** The storage keys read from one contract. */
  function StorageKeysOf(s: StateMaps, address: ContractAddress): set<Felt> {
    set e | e in s.storage.Keys && e.0 == address :: e.1
  }

  /** Something of the contract was read. */
  ghost predicate WasRead(s: StateMaps, address: ContractAddress) {
    address in s.nonces || address in s.classHashes || exists k :: (address, k) in s.storage
  }

  lemma ReadsMeaning(s: StateMaps, address: ContractAddress)
    ensures address in ContractAddresses(s) <==> WasRead(s, address)
    ensures forall k :: k in StorageKeysOf(s, address) <==> (address, k) in s.storage
  {
    if exists k :: (address, k) in s.storage {
      var k :| (address, k) in s.storage;
      assert (address, k).0 == address;
    }
    forall k | (address, k) in s.storage
      ensures k in StorageKeysOf(s, address)
    {
      assert (address, k).0 == address && (address, k).1 == k;
    }
  }
}
