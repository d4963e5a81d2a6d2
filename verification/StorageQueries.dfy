/** Flattening a storage-proof query into single keys, cutting the keys into requests, and rebuilding
    a sub-query from each cut. */
module StorageQueries {
  import opened Felts

  /** The exclusive upper bound of a contract address (a Patricia key). */
  const ADDRESS_BOUND: nat := 0x800000000000000000000000000000000000000000000000000000000000000

  type ContractAddress = a: Felt | a < ADDRESS_BOUND

  datatype ContractStorageKeys = ContractStorageKeys(contractAddress: Felt, storageKeys: seq<Felt>)

  datatype Query = Query(
    classHashes: seq<Felt>,
    contractAddresses: seq<ContractAddress>,
    contractStorageKeys: seq<ContractStorageKeys>)

  const EMPTY_QUERY := Query([], [], [])

  datatype QueryItem =
    | ClassHashItem(hash: Felt)
    | AddressItem(address: ContractAddress)
    | StorageItem(contractAddress: Felt, key: Felt)

  // ------------------------------------------------------------------------
  // Counting and flattening
  // ------------------------------------------------------------------------

  function CountStorageKeys(entries: seq<ContractStorageKeys>): nat {
    if entries == [] then 0
    else CountStorageKeys(entries[..|entries| - 1]) + |entries[|entries| - 1].storageKeys|
  }

  function CountTotalKeys(q: Query): nat {
    |q.classHashes| + |q.contractAddresses| + CountStorageKeys(q.contractStorageKeys)
  }

  function ClassItems(hashes: seq<Felt>): seq<QueryItem> {
    seq(|hashes|, i requires 0 <= i < |hashes| => ClassHashItem(hashes[i]))
  }

  function AddressItems(addresses: seq<ContractAddress>): seq<QueryItem> {
    seq(|addresses|, i requires 0 <= i < |addresses| => AddressItem(addresses[i]))
  }

  function EntryItems(entry: ContractStorageKeys): seq<QueryItem> {
    seq(|entry.storageKeys|, i requires 0 <= i < |entry.storageKeys| =>
      StorageItem(entry.contractAddress, entry.storageKeys[i]))
  }

  function StorageItems(entries: seq<ContractStorageKeys>): seq<QueryItem> {
    if entries == [] then []
    else StorageItems(entries[..|entries| - 1]) + EntryItems(entries[|entries| - 1])
  }

  /** What the flattened query holds: class hashes, then addresses, then each entry's keys, all in query order. */
  function Flatten(q: Query): seq<QueryItem> {
    ClassItems(q.classHashes) + AddressItems(q.contractAddresses) + StorageItems(q.contractStorageKeys)
  }

  method FlattenQuery(q: Query) returns (items: seq<QueryItem>)
    ensures items == Flatten(q)
  {
    items := ClassItems(q.classHashes);
    items := items + AddressItems(q.contractAddresses);
    ghost var head := items;
    for c := 0 to |q.contractStorageKeys|
      invariant items == head + StorageItems(q.contractStorageKeys[..c])
    {
      var contract := q.contractStorageKeys[c];
      assert q.contractStorageKeys[..c + 1][..c] == q.contractStorageKeys[..c];
      ghost var before := items;
      for k := 0 to |contract.storageKeys|
        invariant items == before + EntryItems(contract)[..k]
      {
        items := items + [StorageItem(contract.contractAddress, contract.storageKeys[k])];
      }
      assert EntryItems(contract)[..|contract.storageKeys|] == EntryItems(contract);
    }
    assert q.contractStorageKeys[..|q.contractStorageKeys|] == q.contractStorageKeys;
  }

  lemma {:induction false} StorageItemsCount(entries: seq<ContractStorageKeys>)
    ensures |StorageItems(entries)| == CountStorageKeys(entries)
  {
    if entries == [] {
    } else {
      StorageItemsCount(entries[..|entries| - 1]);
    }
  }

  /** The node's key count is exactly the number of flattened items. */
  lemma FlattenCount(q: Query)
    ensures |Flatten(q)| == CountTotalKeys(q)
  {
    StorageItemsCount(q.contractStorageKeys);
  }

  // ------------------------------------------------------------------------
  // Collecting items back into a query
  // ------------------------------------------------------------------------

  /** A storage key joins the last entry when that entry has the same address, and opens a new one otherwise. */
  function PushKey(entries: seq<ContractStorageKeys>, address: Felt, key: Felt): seq<ContractStorageKeys> {
    var n := |entries|;
    if n > 0 && entries[n - 1].contractAddress == address then
      entries[n - 1 := ContractStorageKeys(address, entries[n - 1].storageKeys + [key])]
    else
      entries + [ContractStorageKeys(address, [key])]
  }

  function Push(q: Query, item: QueryItem): Query {
    match item
    case ClassHashItem(h) => q.(classHashes := q.classHashes + [h])
    case AddressItem(a) => q.(contractAddresses := q.contractAddresses + [a])
    case StorageItem(a, k) => q.(contractStorageKeys := PushKey(q.contractStorageKeys, a, k))
  }

  function Collect(items: seq<QueryItem>): Query {
    if items == [] then EMPTY_QUERY
    else Push(Collect(items[..|items| - 1]), items[|items| - 1])
  }

  method CollectQuery(items: seq<QueryItem>) returns (q: Query)
    ensures q == Collect(items)
  {
    q := EMPTY_QUERY;
    for i := 0 to |items|
      invariant q == Collect(items[..i])
    {
      assert items[..i + 1][..i] == items[..i];
      match items[i] {
        case ClassHashItem(h) => q := q.(classHashes := q.classHashes + [h]);
        case AddressItem(a) => q := q.(contractAddresses := q.contractAddresses + [a]);
        case StorageItem(a, k) =>
          var entries := q.contractStorageKeys;
          if |entries| > 0 && entries[|entries| - 1].contractAddress == a {
            var last := entries[|entries| - 1];
            entries := entries[|entries| - 1 := last.(storageKeys := last.storageKeys + [k])];
          } else {
            entries := entries + [ContractStorageKeys(a, [k])];
          }
          q := q.(contractStorageKeys := entries);
      }
    }
    assert items[..|items|] == items;
  }

  // The three kinds of item, each in the order of appearance.

  function ClassesOf(items: seq<QueryItem>): seq<Felt> {
    if items == [] then []
    else
      var last := items[|items| - 1];
      ClassesOf(items[..|items| - 1]) + if last.ClassHashItem? then [last.hash] else []
  }

  function AddressesOf(items: seq<QueryItem>): seq<ContractAddress> {
    if items == [] then []
    else
      var last := items[|items| - 1];
      AddressesOf(items[..|items| - 1]) + if last.AddressItem? then [last.address] else []
  }

  function StorageOf(items: seq<QueryItem>): seq<QueryItem> {
    if items == [] then []
    else
      var last := items[|items| - 1];
      StorageOf(items[..|items| - 1]) + if last.StorageItem? then [last] else []
  }

  ghost predicate NoAdjacentTwins(entries: seq<ContractStorageKeys>) {
    forall i :: 0 < i < |entries| ==> entries[i - 1].contractAddress != entries[i].contractAddress
  }

  ghost predicate NoEmptyEntry(entries: seq<ContractStorageKeys>) {
    forall i :: 0 <= i < |entries| ==> entries[i].storageKeys != []
  }

  lemma PushKeyFlattens(entries: seq<ContractStorageKeys>, address: Felt, key: Felt)
    ensures StorageItems(PushKey(entries, address, key)) == StorageItems(entries) + [StorageItem(address, key)]
  {
    var n := |entries|;
    var pushed := PushKey(entries, address, key);
    if n > 0 && entries[n - 1].contractAddress == address {
      assert pushed[..n - 1] == entries[..n - 1];
      assert EntryItems(pushed[n - 1]) == EntryItems(entries[n - 1]) + [StorageItem(address, key)];
    } else {
      assert pushed[..n] == entries;
      assert EntryItems(pushed[n]) == [StorageItem(address, key)];
    }
  }

  lemma PushKeyShape(entries: seq<ContractStorageKeys>, address: Felt, key: Felt)
    requires NoEmptyEntry(entries) && NoAdjacentTwins(entries)
    ensures NoEmptyEntry(PushKey(entries, address, key)) && NoAdjacentTwins(PushKey(entries, address, key))
  {
  }

  lemma {:induction false} CollectHeads(items: seq<QueryItem>)
    ensures Collect(items).classHashes == ClassesOf(items)
    ensures Collect(items).contractAddresses == AddressesOf(items)
  {
    if items == [] {
    } else {
      CollectHeads(items[..|items| - 1]);
    }
  }

  lemma {:induction false} CollectStorage(items: seq<QueryItem>)
    ensures StorageItems(Collect(items).contractStorageKeys) == StorageOf(items)
    ensures NoEmptyEntry(Collect(items).contractStorageKeys)
    ensures NoAdjacentTwins(Collect(items).contractStorageKeys)
  {
    if items == [] {
    } else {
      var front, last := items[..|items| - 1], items[|items| - 1];
      CollectStorage(front);
      if last.StorageItem? {
        PushKeyFlattens(Collect(front).contractStorageKeys, last.contractAddress, last.key);
        PushKeyShape(Collect(front).contractStorageKeys, last.contractAddress, last.key);
      }
    }
  }

  /** Collecting keeps each kind of item in order, loses none, and never leaves an empty entry or two
      neighbouring entries of one contract. */
  lemma {:induction false} CollectParts(items: seq<QueryItem>)
    ensures Collect(items).classHashes == ClassesOf(items)
    ensures Collect(items).contractAddresses == AddressesOf(items)
    ensures StorageItems(Collect(items).contractStorageKeys) == StorageOf(items)
    ensures NoEmptyEntry(Collect(items).contractStorageKeys)
    ensures NoAdjacentTwins(Collect(items).contractStorageKeys)
  {
    CollectHeads(items);
    CollectStorage(items);
  }

  function Rank(item: QueryItem): nat {
    match item
    case ClassHashItem(_) => 0
    case AddressItem(_) => 1
    case StorageItem(_, _) => 2
  }

  /** Class hashes before addresses before storage keys: the order every flattened query has. */
  ghost predicate Ordered(items: seq<QueryItem>) {
    forall i, j :: 0 <= i < j < |items| ==> Rank(items[i]) <= Rank(items[j])
  }

  function ByKind(items: seq<QueryItem>): seq<QueryItem> {
    ClassItems(ClassesOf(items)) + AddressItems(AddressesOf(items)) + StorageOf(items)
  }

  lemma ClassSnoc(c: seq<Felt>, h: Felt)
    ensures ClassItems(c + [h]) == ClassItems(c) + [ClassHashItem(h)]
  {
  }

  lemma AddressSnoc(a: seq<ContractAddress>, x: ContractAddress)
    ensures AddressItems(a + [x]) == AddressItems(a) + [AddressItem(x)]
  {
  }

  lemma ByKindSnoc(front: seq<QueryItem>, last: QueryItem)
    requires last.StorageItem? || StorageOf(front) == []
    requires last.ClassHashItem? ==> AddressesOf(front) == []
    ensures ByKind(front + [last]) == ByKind(front) + [last]
    ensures StorageOf(front + [last]) == StorageOf(front) + if last.StorageItem? then [last] else []
    ensures AddressesOf(front + [last]) == AddressesOf(front) + if last.AddressItem? then [last.address] else []
  {
    var items := front + [last];
    assert items[..|items| - 1] == front;
    match last {
      case ClassHashItem(h) => ClassSnoc(ClassesOf(front), h);
      case AddressItem(x) => AddressSnoc(AddressesOf(front), x);
      case StorageItem(_, _) =>
    }
  }

  ghost predicate KindsInOrder(items: seq<QueryItem>) {
    && ByKind(items) == items
    && (StorageOf(items) == [] || items[|items| - 1].StorageItem?)
    && (AddressesOf(items) == [] || !items[|items| - 1].ClassHashItem?)
  }

  lemma KindsInOrderSnoc(front: seq<QueryItem>, last: QueryItem)
    requires KindsInOrder(front)
    requires front != [] ==> Rank(front[|front| - 1]) <= Rank(last)
    ensures KindsInOrder(front + [last])
  {
    ByKindSnoc(front, last);
  }

  lemma NothingInOrder()
    ensures KindsInOrder([])
  {
  }

  lemma NeighboursOrdered(items: seq<QueryItem>, i: nat)
    requires Ordered(items) && 0 < i < |items|
    ensures Rank(items[i - 1]) <= Rank(items[i])
  {
  }

  lemma {:induction false} OrderedPrefix(items: seq<QueryItem>, n: nat)
    requires Ordered(items) && n <= |items|
    ensures KindsInOrder(items[..n])
  {
    hide *;
    if n == 0 {
      NothingInOrder();
      assert items[..0] == [];
    } else {
      var front := items[..n - 1];
      OrderedPrefix(items, n - 1);
      if n > 1 {
        NeighboursOrdered(items, n - 1);
        assert front[|front| - 1] == items[n - 2];
      }
      KindsInOrderSnoc(front, items[n - 1]);
      assert items[..n] == front + [items[n - 1]];
    }
  }

  lemma OrderedByKind(items: seq<QueryItem>)
    requires Ordered(items)
    ensures ByKind(items) == items
  {
    OrderedPrefix(items, |items|);
    assert items[..|items|] == items;
  }

  lemma {:induction false} StorageItemsAreStorage(entries: seq<ContractStorageKeys>)
    ensures forall i :: 0 <= i < |StorageItems(entries)| ==> StorageItems(entries)[i].StorageItem?
  {
    if entries == [] {
    } else {
      StorageItemsAreStorage(entries[..|entries| - 1]);
    }
  }

  lemma FlattenOrdered(q: Query)
    ensures Ordered(Flatten(q))
  {
    StorageItemsAreStorage(q.contractStorageKeys);
  }

  /** Collecting an ordered run of items and flattening it again changes nothing. */
  lemma FlattenCollect(items: seq<QueryItem>)
    requires Ordered(items)
    ensures Flatten(Collect(items)) == items
  {
    CollectParts(items);
    OrderedByKind(items);
  }

  // ------------------------------------------------------------------------
  // Collecting a whole flattened query
  // ------------------------------------------------------------------------

  function DropEmpty(entries: seq<ContractStorageKeys>): seq<ContractStorageKeys> {
    if entries == [] then []
    else
      var last := entries[|entries| - 1];
      DropEmpty(entries[..|entries| - 1]) + if last.storageKeys == [] then [] else [last]
  }

  lemma StorageItemsSnoc(front: seq<ContractStorageKeys>, last: ContractStorageKeys)
    ensures StorageItems(front + [last]) == StorageItems(front) + EntryItems(last)
  {
    assert (front + [last])[..|front|] == front;
  }

  lemma {:induction false} DropEmptyFacts(entries: seq<ContractStorageKeys>)
    ensures StorageItems(DropEmpty(entries)) == StorageItems(entries)
    ensures NoEmptyEntry(DropEmpty(entries))
  {
    if entries == [] {
    } else {
      var front, last := entries[..|entries| - 1], entries[|entries| - 1];
      DropEmptyFacts(front);
      if last.storageKeys == [] {
        assert DropEmpty(entries) == DropEmpty(front);
        assert EntryItems(last) == [];
      } else {
        StorageItemsSnoc(DropEmpty(front), last);
      }
    }
  }

  /** Two entry lists without empty entries and without neighbouring twins are equal once their items are. */
  lemma {:induction false} GroupingUnique(a: seq<ContractStorageKeys>, b: seq<ContractStorageKeys>)
    requires StorageItems(a) == StorageItems(b)
    requires NoEmptyEntry(a) && NoAdjacentTwins(a)
    requires NoEmptyEntry(b) && NoAdjacentTwins(b)
    ensures a == b
  {
    EntriesHaveItems(a);
    EntriesHaveItems(b);
    if a != [] && b != [] {
      LastEntry(a);
      LastEntry(b);
      LastEntryLength(a, b);
      LastEntryLength(b, a);
      var x, y := a[|a| - 1], b[|b| - 1];
      var items := StorageItems(a);
      assert EntryItems(x) == items[|items| - |x.storageKeys|..];
      assert EntryItems(y) == items[|items| - |y.storageKeys|..];
      forall i | 0 <= i < |x.storageKeys|
        ensures x.storageKeys[i] == y.storageKeys[i]
      {
        assert EntryItems(x)[i] == EntryItems(y)[i];
      }
      assert x.storageKeys == y.storageKeys;
      assert x.contractAddress == items[|items| - 1].contractAddress == y.contractAddress;
      assert StorageItems(a[..|a| - 1]) == items[..|items| - |x.storageKeys|];
      assert StorageItems(b[..|b| - 1]) == items[..|items| - |x.storageKeys|];
      GroupingUnique(a[..|a| - 1], b[..|b| - 1]);
      assert a == a[..|a| - 1] + [x];
      assert b == b[..|b| - 1] + [y];
    }
  }

  lemma EntriesHaveItems(entries: seq<ContractStorageKeys>)
    requires NoEmptyEntry(entries)
    ensures entries == [] <==> StorageItems(entries) == []
  {
    if entries != [] {
      LastEntry(entries);
    }
  }

  /** The last items are the last entry's, and no more. */
  lemma LastEntry(entries: seq<ContractStorageKeys>)
    requires entries != [] && NoEmptyEntry(entries)
    ensures var items := StorageItems(entries);
            var last := entries[|entries| - 1];
            && |items| >= |last.storageKeys| > 0
            && (forall k :: |items| - |last.storageKeys| <= k < |items| ==>
                  items[k].StorageItem? && items[k].contractAddress == last.contractAddress)
  {
    var items, last := StorageItems(entries), entries[|entries| - 1];
    var start := |StorageItems(entries[..|entries| - 1])|;
    forall k | start <= k < |items|
      ensures items[k] == StorageItem(last.contractAddress, last.storageKeys[k - start])
    {
      assert items[k] == EntryItems(last)[k - start];
    }
  }

  /** The item just before the last entry's items belongs to another contract. */
  lemma BeforeLastEntry(entries: seq<ContractStorageKeys>)
    requires entries != [] && NoEmptyEntry(entries) && NoAdjacentTwins(entries)
    ensures var items := StorageItems(entries);
            var last := entries[|entries| - 1];
            && |last.storageKeys| <= |items|
            && (|last.storageKeys| < |items| ==>
                  var k := |items| - |last.storageKeys| - 1;
                  items[k].StorageItem? && items[k].contractAddress != last.contractAddress)
  {
    var front := entries[..|entries| - 1];
    if front != [] {
      LastEntry(front);
      assert entries[|entries| - 2].contractAddress != entries[|entries| - 1].contractAddress;
    }
  }

  lemma LastEntryLength(a: seq<ContractStorageKeys>, b: seq<ContractStorageKeys>)
    requires a != [] && b != [] && StorageItems(a) == StorageItems(b)
    requires NoEmptyEntry(a) && NoAdjacentTwins(a)
    requires NoEmptyEntry(b)
    ensures |a[|a| - 1].storageKeys| >= |b[|b| - 1].storageKeys|
  {
    var items := StorageItems(a);
    LastEntry(a);
    LastEntry(b);
    BeforeLastEntry(a);
    assert items[|items| - 1].contractAddress == a[|a| - 1].contractAddress;
  }

  /** Collecting a flattened query gives the query back with its empty storage entries dropped, exactly
      when no two entries that become neighbours belong to the same contract. */
  lemma CollectFlatten(q: Query)
    ensures Collect(Flatten(q)) == q.(contractStorageKeys := DropEmpty(q.contractStorageKeys))
            <==> NoAdjacentTwins(DropEmpty(q.contractStorageKeys))
  {
    var items := Flatten(q);
    var collected := Collect(items);
    CollectParts(items);
    FlattenOrdered(q);
    OrderedByKind(items);
    FlattenParts(q);
    DropEmptyFacts(q.contractStorageKeys);
    if NoAdjacentTwins(DropEmpty(q.contractStorageKeys)) {
      GroupingUnique(collected.contractStorageKeys, DropEmpty(q.contractStorageKeys));
    }
  }

  lemma {:induction false} ClassesOfConcat(a: seq<QueryItem>, b: seq<QueryItem>)
    ensures ClassesOf(a + b) == ClassesOf(a) + ClassesOf(b)
  {
    if b == [] {
      assert a + b == a;
    } else {
      var front := b[..|b| - 1];
      ClassesOfConcat(a, front);
      assert (a + b)[..|a + b| - 1] == a + front;
    }
  }

  lemma {:induction false} AddressesOfConcat(a: seq<QueryItem>, b: seq<QueryItem>)
    ensures AddressesOf(a + b) == AddressesOf(a) + AddressesOf(b)
  {
    if b == [] {
      assert a + b == a;
    } else {
      var front := b[..|b| - 1];
      AddressesOfConcat(a, front);
      assert (a + b)[..|a + b| - 1] == a + front;
    }
  }

  lemma {:induction false} StorageOfConcat(a: seq<QueryItem>, b: seq<QueryItem>)
    ensures StorageOf(a + b) == StorageOf(a) + StorageOf(b)
  {
    if b == [] {
      assert a + b == a;
    } else {
      var front := b[..|b| - 1];
      StorageOfConcat(a, front);
      assert (a + b)[..|a + b| - 1] == a + front;
    }
  }

  lemma PartsOfConcat(a: seq<QueryItem>, b: seq<QueryItem>)
    ensures ClassesOf(a + b) == ClassesOf(a) + ClassesOf(b)
    ensures AddressesOf(a + b) == AddressesOf(a) + AddressesOf(b)
    ensures StorageOf(a + b) == StorageOf(a) + StorageOf(b)
  {
    ClassesOfConcat(a, b);
    AddressesOfConcat(a, b);
    StorageOfConcat(a, b);
  }

  lemma {:induction false} ClassItemsParts(hashes: seq<Felt>)
    ensures ClassesOf(ClassItems(hashes)) == hashes
    ensures AddressesOf(ClassItems(hashes)) == []
    ensures StorageOf(ClassItems(hashes)) == []
  {
    if hashes == [] {
    } else {
      ClassItemsParts(hashes[..|hashes| - 1]);
      assert ClassItems(hashes)[..|hashes| - 1] == ClassItems(hashes[..|hashes| - 1]);
    }
  }

  lemma {:induction false} AddressItemsParts(addresses: seq<ContractAddress>)
    ensures ClassesOf(AddressItems(addresses)) == []
    ensures AddressesOf(AddressItems(addresses)) == addresses
    ensures StorageOf(AddressItems(addresses)) == []
  {
    if addresses == [] {
    } else {
      AddressItemsParts(addresses[..|addresses| - 1]);
      assert AddressItems(addresses)[..|addresses| - 1] == AddressItems(addresses[..|addresses| - 1]);
    }
  }

  lemma {:induction false} AllStorageParts(items: seq<QueryItem>)
    requires forall i :: 0 <= i < |items| ==> items[i].StorageItem?
    ensures ClassesOf(items) == [] && AddressesOf(items) == [] && StorageOf(items) == items
  {
    if items == [] {
    } else {
      var front, last := items[..|items| - 1], items[|items| - 1];
      assert forall i :: 0 <= i < |front| ==> front[i] == items[i];
      AllStorageParts(front);
      assert items == front + [last];
    }
  }

  lemma FlattenParts(q: Query)
    ensures ClassesOf(Flatten(q)) == q.classHashes
    ensures AddressesOf(Flatten(q)) == q.contractAddresses
    ensures StorageOf(Flatten(q)) == StorageItems(q.contractStorageKeys)
  {
    var c, a, s := ClassItems(q.classHashes), AddressItems(q.contractAddresses), StorageItems(q.contractStorageKeys);
    PartsOfConcat(c + a, s);
    PartsOfConcat(c, a);
    ClassItemsParts(q.classHashes);
    AddressItemsParts(q.contractAddresses);
    StorageItemsAreStorage(q.contractStorageKeys);
    AllStorageParts(s);
  }

  /** Two neighbouring entries of one contract. */
  const TWIN_ENTRIES := Query([], [], [ContractStorageKeys(1, [2]), ContractStorageKeys(1, [3])])

  /** Collecting joins neighbouring entries of one contract, so it does not give every query back. */
  lemma CollectJoinsTwins()
    ensures TWIN_ENTRIES.contractStorageKeys == DropEmpty(TWIN_ENTRIES.contractStorageKeys)
    ensures Collect(Flatten(TWIN_ENTRIES)) != TWIN_ENTRIES
  {
    var entries := TWIN_ENTRIES.contractStorageKeys;
    assert entries[..1] == [entries[0]] && entries[..1][..0] == [];
    assert DropEmpty(entries[..1]) == [entries[0]];
    assert DropEmpty(entries) == entries;
    assert !NoAdjacentTwins(entries);
    CollectFlatten(TWIN_ENTRIES);
  }

  // ------------------------------------------------------------------------
  // Splitting
  // ------------------------------------------------------------------------

  /** Rust's `slice::chunks`. */
  function Chunks<T>(items: seq<T>, size: nat): seq<seq<T>>
    requires size > 0
  {
    if items == [] then []
    else if |items| <= size then [items]
    else [items[..size]] + Chunks(items[size..], size)
  }

  function Split(q: Query, maxKeys: nat): seq<Query>
    requires maxKeys > 0
  {
    var chunks := Chunks(Flatten(q), maxKeys);
    seq(|chunks|, i requires 0 <= i < |chunks| => Collect(chunks[i]))
  }

  function Concat<T>(parts: seq<seq<T>>): seq<T> {
    if parts == [] then [] else parts[0] + Concat(parts[1..])
  }

  lemma {:induction false} ChunksFacts<T>(items: seq<T>, size: nat)
    requires size > 0
    ensures var chunks := Chunks(items, size);
            && Concat(chunks) == items
            && |chunks| == (|items| + size - 1) / size
            && (forall i :: 0 <= i < |chunks| ==> 1 <= |chunks[i]| <= size)
            && (forall i :: 0 <= i < |chunks| - 1 ==> |chunks[i]| == size)
  {
    var chunks := Chunks(items, size);
    if items == [] {
      DivisionStep(0, size);
    } else if |items| <= size {
      assert Concat(chunks) == items + Concat([]);
      DivisionStep(|items|, size);
    } else {
      var rest := Chunks(items[size..], size);
      ChunksFacts(items[size..], size);
      assert chunks[1..] == rest;
      assert items == items[..size] + items[size..];
      DivisionStep(|items|, size);
    }
  }

  lemma DivisionStep(n: nat, size: nat)
    requires size > 0
    ensures n == 0 ==> (n + size - 1) / size == 0
    ensures 0 < n <= size ==> (n + size - 1) / size == 1
    ensures n > size ==> (n + size - 1) / size == (n - size + size - 1) / size + 1
  {
    if n > size {
      assert (n + size - 1) / size == (n - 1) / size + 1 by {
        DivPlusOne(n - 1, size);
      }
    } else if n > 0 {
      DivPlusOne(n - 1, size);
      assert (n - 1) / size == 0;
    }
  }

  lemma DivPlusOne(n: nat, d: nat)
    requires d > 0
    ensures (n + d) / d == n / d + 1
  {
    assert n + d == d * (n / d + 1) + n % d;
    DivModUnique(n + d, d, n / d + 1, n % d);
  }

  ghost predicate IsSlice<T>(part: seq<T>, items: seq<T>, lo: nat, hi: nat) {
    lo <= hi <= |items| && part == items[lo..hi]
  }

  lemma {:induction false} ChunkIsSlice<T>(items: seq<T>, size: nat, i: nat) returns (lo: nat, hi: nat)
    requires size > 0 && i < |Chunks(items, size)|
    ensures IsSlice(Chunks(items, size)[i], items, lo, hi)
  {
    if |items| <= size {
      lo, hi := 0, |items|;
      assert items == items[0..|items|];
    } else if i == 0 {
      lo, hi := 0, size;
      assert items[..size] == items[0..size];
    } else {
      var from, to := ChunkIsSlice(items[size..], size, i - 1);
      lo, hi := from + size, to + size;
      assert items[size..][from..to] == items[lo..hi];
    }
  }

  lemma ChunkOrdered(q: Query, maxKeys: nat, i: nat)
    requires maxKeys > 0 && i < |Chunks(Flatten(q), maxKeys)|
    ensures Ordered(Chunks(Flatten(q), maxKeys)[i])
  {
    var items := Flatten(q);
    FlattenOrdered(q);
    var lo, hi := ChunkIsSlice(items, maxKeys, i);
    forall x, y | 0 <= x < y < hi - lo
      ensures Rank(items[lo..hi][x]) <= Rank(items[lo..hi][y])
    {
      assert Rank(items[lo + x]) <= Rank(items[lo + y]);
    }
  }

  /** Flattening the sub-queries gives back the chunks of the flattened query. */
  lemma SplitFlattens(q: Query, maxKeys: nat)
    requires maxKeys > 0
    ensures |Split(q, maxKeys)| == |Chunks(Flatten(q), maxKeys)|
    ensures forall i :: 0 <= i < |Split(q, maxKeys)| ==>
              Flatten(Split(q, maxKeys)[i]) == Chunks(Flatten(q), maxKeys)[i]
  {
    forall i | 0 <= i < |Split(q, maxKeys)|
      ensures Flatten(Split(q, maxKeys)[i]) == Chunks(Flatten(q), maxKeys)[i]
    {
      ChunkOrdered(q, maxKeys, i);
      FlattenCollect(Chunks(Flatten(q), maxKeys)[i]);
    }
  }

  function FlattenAll(queries: seq<Query>): seq<seq<QueryItem>> {
    seq(|queries|, i requires 0 <= i < |queries| => Flatten(queries[i]))
  }

  /** Splitting conserves keys: nothing is lost, added or reordered, every request is within the limit,
      all but the last are full, and there are no more requests than needed. */
  lemma SplitConservesKeys(q: Query, maxKeys: nat)
    requires maxKeys > 0
    ensures var parts := Split(q, maxKeys);
            && Concat(FlattenAll(parts)) == Flatten(q)
            && |parts| == (CountTotalKeys(q) + maxKeys - 1) / maxKeys
            && (forall i :: 0 <= i < |parts| ==> 1 <= CountTotalKeys(parts[i]) <= maxKeys)
            && (forall i :: 0 <= i < |parts| - 1 ==> CountTotalKeys(parts[i]) == maxKeys)
  {
    var parts := Split(q, maxKeys);
    SplitFlattens(q, maxKeys);
    ChunksFacts(Flatten(q), maxKeys);
    FlattenCount(q);
    assert FlattenAll(parts) == Chunks(Flatten(q), maxKeys);
    forall i | 0 <= i < |parts|
      ensures CountTotalKeys(parts[i]) == |Chunks(Flatten(q), maxKeys)[i]|
    {
      FlattenCount(parts[i]);
    }
  }
}
