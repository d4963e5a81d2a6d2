/** The prefetched state reader with RPC fallback, and why executions cannot tell it from the RPC reader. */
module StateReader {
  import opened Felts
  import opened StorageQueries
  import opened CachedState

  /** The reads an execution makes of its state. */
  datatype Read =
    | StorageAt(address: ContractAddress, key: Felt)
    | NonceAt(address: ContractAddress)
    | ClassHashAt(address: ContractAddress)
    | IsDeclared(classHash: Felt)
    | CompiledClass(classHash: Felt)
    | CompiledClassHash(classHash: Felt)

  datatype StateError = StateError(message: string)

  datatype Value = FeltValue(felt: Felt) | Flag(b: bool) | Class(classId: nat)

  /** The RPC reader at one block: a fixed answer to every read, perhaps an error. */
  type RpcReader = Read -> Result<Value, StateError>

  // ------------------------------------------------------------------------
  // From the node's lists to the prefetched maps
  // ------------------------------------------------------------------------

  datatype StorageEntry = StorageEntry(address: ContractAddress, key: Felt, value: Felt)
  datatype NonceEntry = NonceEntry(address: ContractAddress, nonce: Felt)
  datatype ClassHashEntry = ClassHashEntry(address: ContractAddress, classHash: Felt)
  datatype DeclaredEntry = DeclaredEntry(classHash: Felt, isDeclared: bool)

  datatype RpcInitialReads = RpcInitialReads(
    storage: seq<StorageEntry>,
    nonces: seq<NonceEntry>,
    classHashes: seq<ClassHashEntry>,
    declaredContracts: seq<DeclaredEntry>)

  /** What one prefetched map entry answers. */
  function Prefetched(maps: StateMaps, read: Read): Option<Value> {
    match read
    case StorageAt(a, k) => if (a, k) in maps.storage then Some(FeltValue(maps.storage[(a, k)])) else None
    case NonceAt(a) => if a in maps.nonces then Some(FeltValue(maps.nonces[a])) else None
    case ClassHashAt(a) => if a in maps.classHashes then Some(FeltValue(maps.classHashes[a])) else None
    case IsDeclared(c) => if c in maps.declaredContracts then Some(Flag(maps.declaredContracts[c])) else None
    case CompiledClass(_) | CompiledClassHash(_) => None
  }

  /** The last listed value for a read. */
  function LastStorage(entries: seq<StorageEntry>, a: ContractAddress, k: Felt): Option<Value> {
    if entries == [] then None
    else
      var e := entries[|entries| - 1];
      if e.address == a && e.key == k then Some(FeltValue(e.value)) else LastStorage(entries[..|entries| - 1], a, k)
  }

  function LastNonce(entries: seq<NonceEntry>, a: ContractAddress): Option<Value> {
    if entries == [] then None
    else
      var e := entries[|entries| - 1];
      if e.address == a then Some(FeltValue(e.nonce)) else LastNonce(entries[..|entries| - 1], a)
  }

  function LastClassHash(entries: seq<ClassHashEntry>, a: ContractAddress): Option<Value> {
    if entries == [] then None
    else
      var e := entries[|entries| - 1];
      if e.address == a then Some(FeltValue(e.classHash)) else LastClassHash(entries[..|entries| - 1], a)
  }

  function LastDeclared(entries: seq<DeclaredEntry>, c: Felt): Option<Value> {
    if entries == [] then None
    else
      var e := entries[|entries| - 1];
      if e.classHash == c then Some(Flag(e.isDeclared)) else LastDeclared(entries[..|entries| - 1], c)
  }

  function LastListed(r: RpcInitialReads, read: Read): Option<Value> {
    match read
    case StorageAt(a, k) => LastStorage(r.storage, a, k)
    case NonceAt(a) => LastNonce(r.nonces, a)
    case ClassHashAt(a) => LastClassHash(r.classHashes, a)
    case IsDeclared(c) => LastDeclared(r.declaredContracts, c)
    case CompiledClass(_) | CompiledClassHash(_) => None
  }

  // What the last listed entry of a read is.

  lemma {:induction false} LastStorageMeaning(entries: seq<StorageEntry>, a: ContractAddress, k: Felt)
    ensures LastStorage(entries, a, k).None? <==> forall i :: 0 <= i < |entries| ==> entries[i].address != a || entries[i].key != k
    ensures forall i :: 0 <= i < |entries| && entries[i].address == a && entries[i].key == k
                        && (forall j :: i < j < |entries| ==> entries[j].address != a || entries[j].key != k) ==>
              LastStorage(entries, a, k) == Some(FeltValue(entries[i].value))
  {
    if entries == [] {
    } else {
      var front, last := entries[..|entries| - 1], |entries| - 1;
      LastStorageMeaning(front, a, k);
      assert forall j :: 0 <= j < last ==> front[j] == entries[j];
      forall i | 0 <= i < |entries| && entries[i].address == a && entries[i].key == k && (forall j :: i < j < |entries| ==> entries[j].address != a || entries[j].key != k)
        ensures LastStorage(entries, a, k) == Some(FeltValue(entries[i].value))
      {
        if i < last {
          assert entries[last].address != a || entries[last].key != k;
          assert front[i] == entries[i];
        }
      }
    }
  }

  lemma {:induction false} LastNonceMeaning(entries: seq<NonceEntry>, a: ContractAddress)
    ensures LastNonce(entries, a).None? <==> forall i :: 0 <= i < |entries| ==> entries[i].address != a
    ensures forall i :: 0 <= i < |entries| && entries[i].address == a
                        && (forall j :: i < j < |entries| ==> entries[j].address != a) ==>
              LastNonce(entries, a) == Some(FeltValue(entries[i].nonce))
  {
    if entries == [] {
    } else {
      var front, last := entries[..|entries| - 1], |entries| - 1;
      LastNonceMeaning(front, a);
      assert forall j :: 0 <= j < last ==> front[j] == entries[j];
      forall i | 0 <= i < |entries| && entries[i].address == a && (forall j :: i < j < |entries| ==> entries[j].address != a)
        ensures LastNonce(entries, a) == Some(FeltValue(entries[i].nonce))
      {
        if i < last {
          assert entries[last].address != a;
          assert front[i] == entries[i];
        }
      }
    }
  }

  lemma {:induction false} LastClassHashMeaning(entries: seq<ClassHashEntry>, a: ContractAddress)
    ensures LastClassHash(entries, a).None? <==> forall i :: 0 <= i < |entries| ==> entries[i].address != a
    ensures forall i :: 0 <= i < |entries| && entries[i].address == a
                        && (forall j :: i < j < |entries| ==> entries[j].address != a) ==>
              LastClassHash(entries, a) == Some(FeltValue(entries[i].classHash))
  {
    if entries == [] {
    } else {
      var front, last := entries[..|entries| - 1], |entries| - 1;
      LastClassHashMeaning(front, a);
      assert forall j :: 0 <= j < last ==> front[j] == entries[j];
      forall i | 0 <= i < |entries| && entries[i].address == a && (forall j :: i < j < |entries| ==> entries[j].address != a)
        ensures LastClassHash(entries, a) == Some(FeltValue(entries[i].classHash))
      {
        if i < last {
          assert entries[last].address != a;
          assert front[i] == entries[i];
        }
      }
    }
  }

  lemma {:induction false} LastDeclaredMeaning(entries: seq<DeclaredEntry>, c: Felt)
    ensures LastDeclared(entries, c).None? <==> forall i :: 0 <= i < |entries| ==> entries[i].classHash != c
    ensures forall i :: 0 <= i < |entries| && entries[i].classHash == c
                        && (forall j :: i < j < |entries| ==> entries[j].classHash != c) ==>
              LastDeclared(entries, c) == Some(Flag(entries[i].isDeclared))
  {
    if entries == [] {
    } else {
      var front, last := entries[..|entries| - 1], |entries| - 1;
      LastDeclaredMeaning(front, c);
      assert forall j :: 0 <= j < last ==> front[j] == entries[j];
      forall i | 0 <= i < |entries| && entries[i].classHash == c && (forall j :: i < j < |entries| ==> entries[j].classHash != c)
        ensures LastDeclared(entries, c) == Some(Flag(entries[i].isDeclared))
      {
        if i < last {
          assert entries[last].classHash != c;
          assert front[i] == entries[i];
        }
      }
    }
  }

  /** Extends one empty map after another; a later entry of a key wins. */
  method ToStateMaps(r: RpcInitialReads) returns (m: StateMaps)
    ensures forall read :: Prefetched(m, read) == LastListed(r, read)
    ensures m.compiledClassHashes == map[]
  {
    var storage: map<(ContractAddress, Felt), Felt> := map[];
    for i := 0 to |r.storage|
      invariant (forall a: ContractAddress, k: Felt ::
                   LastStorage(r.storage[..i], a, k) == (if (a, k) in storage then Some(FeltValue(storage[(a, k)])) else None))
    {
      assert r.storage[..i + 1][..i] == r.storage[..i];
      storage := storage[(r.storage[i].address, r.storage[i].key) := r.storage[i].value];
    }
    var nonces: map<ContractAddress, Felt> := map[];
    for i := 0 to |r.nonces|
      invariant (forall a: ContractAddress ::
                   LastNonce(r.nonces[..i], a) == (if a in nonces then Some(FeltValue(nonces[a])) else None))
    {
      assert r.nonces[..i + 1][..i] == r.nonces[..i];
      nonces := nonces[r.nonces[i].address := r.nonces[i].nonce];
    }
    var classHashes: map<ContractAddress, Felt> := map[];
    for i := 0 to |r.classHashes|
      invariant (forall a: ContractAddress ::
                   LastClassHash(r.classHashes[..i], a) == (if a in classHashes then Some(FeltValue(classHashes[a])) else None))
    {
      assert r.classHashes[..i + 1][..i] == r.classHashes[..i];
      classHashes := classHashes[r.classHashes[i].address := r.classHashes[i].classHash];
    }
    var declared: map<Felt, bool> := map[];
    for i := 0 to |r.declaredContracts|
      invariant (forall c: Felt ::
                   LastDeclared(r.declaredContracts[..i], c) == (if c in declared then Some(Flag(declared[c])) else None))
    {
      assert r.declaredContracts[..i + 1][..i] == r.declaredContracts[..i];
      declared := declared[r.declaredContracts[i].classHash := r.declaredContracts[i].isDeclared];
    }
    assert r.storage[..|r.storage|] == r.storage && r.nonces[..|r.nonces|] == r.nonces;
    assert r.classHashes[..|r.classHashes|] == r.classHashes;
    assert r.declaredContracts[..|r.declaredContracts|] == r.declaredContracts;
    m := StateMaps(nonces, classHashes, storage, map[], declared);
  }

  // ------------------------------------------------------------------------
  // The simulated reader
  // ------------------------------------------------------------------------

  datatype SimulatedStateReader = SimulatedStateReader(maps: StateMaps, rpc: RpcReader) {

    /** Serves a prefetched entry when there is one and asks the node otherwise; classes always come from the node. */
    function Get(read: Read): Result<Value, StateError> {
      match Prefetched(maps, read)
      case Some(v) => Ok(v)
      case None => rpc(read)
    }

    /** The requests one read sends to the node. */
    function Sent(read: Read): seq<Read> {
      if Prefetched(maps, read).Some? then [] else [read]
    }
  }

  // ------------------------------------------------------------------------
  // Executions
  // ------------------------------------------------------------------------

  type Answers = seq<Result<Value, StateError>>

  /** An execution decides from the answers so far whether to read again or to finish with a result. */
  datatype Move = ReadNext(read: Read) | Finish(result: nat)

  type Execution = Answers -> Move

  datatype Trace = Trace(answers: Answers, made: seq<Read>, result: Option<nat>)

  /** At most n reads of an execution, from the given answers on. */
  function RunFrom(e: Execution, reader: RpcReader, answers: Answers, n: nat): Trace
    decreases n
  {
    match e(answers)
    case Finish(result) => Trace(answers, [], Some(result))
    case ReadNext(read) =>
      if n == 0 then Trace(answers, [], None)
      else
        var rest := RunFrom(e, reader, answers + [reader(read)], n - 1);
        rest.(made := [read] + rest.made)
  }

  function Run(e: Execution, reader: RpcReader, n: nat): Trace {
    RunFrom(e, reader, [], n)
  }

  function AsReader(s: SimulatedStateReader): RpcReader {
    (read: Read) => s.Get(read)
  }

  /** All requests that the reads of a trace send to the node, in order. */
  function AllSent(s: SimulatedStateReader, made: seq<Read>): seq<Read> {
    if made == [] then [] else s.Sent(made[0]) + AllSent(s, made[1..])
  }

  /** Every prefetched entry is what the node would answer. */
  ghost predicate Agrees(maps: StateMaps, rpc: RpcReader) {
    && (forall a: ContractAddress, k: Felt :: (a, k) in maps.storage ==>
          rpc(StorageAt(a, k)) == Ok(FeltValue(maps.storage[(a, k)])))
    && (forall a: ContractAddress :: a in maps.nonces ==> rpc(NonceAt(a)) == Ok(FeltValue(maps.nonces[a])))
    && (forall a: ContractAddress :: a in maps.classHashes ==> rpc(ClassHashAt(a)) == Ok(FeltValue(maps.classHashes[a])))
    && (forall c: Felt :: c in maps.declaredContracts ==> rpc(IsDeclared(c)) == Ok(Flag(maps.declaredContracts[c])))
  }

  ghost predicate AgreesOnReads(maps: StateMaps, rpc: RpcReader) {
    forall read :: Prefetched(maps, read).Some? ==> rpc(read) == Ok(Prefetched(maps, read).value)
  }

  lemma AgreesReadByRead(maps: StateMaps, rpc: RpcReader)
    ensures Agrees(maps, rpc) <==> AgreesOnReads(maps, rpc)
  {
    if AgreesOnReads(maps, rpc) {
      assert forall a: ContractAddress, k: Felt :: (a, k) in maps.storage ==> Prefetched(maps, StorageAt(a, k)).Some?;
      assert forall a: ContractAddress :: a in maps.nonces ==> Prefetched(maps, NonceAt(a)).Some?;
      assert forall a: ContractAddress :: a in maps.classHashes ==> Prefetched(maps, ClassHashAt(a)).Some?;
      assert forall c: Felt :: c in maps.declaredContracts ==> Prefetched(maps, IsDeclared(c)).Some?;
    }
  }

  lemma {:induction false} RunsAgreeFrom(e: Execution, s: SimulatedStateReader, answers: Answers, n: nat)
    requires AgreesOnReads(s.maps, s.rpc)
    ensures RunFrom(e, AsReader(s), answers, n) == RunFrom(e, s.rpc, answers, n)
    decreases n
  {
    match e(answers)
    case Finish(_) =>
    case ReadNext(read) =>
      if n == 0 {
      } else {
        assert AsReader(s)(read) == s.rpc(read);
        RunsAgreeFrom(e, s, answers + [s.rpc(read)], n - 1);
      }
  }

  /** One read and then a result that tells the answer apart. */
  ghost function Probe(read: Read, expected: Result<Value, StateError>): Execution {
    (answers: Answers) => if answers == [] then ReadNext(read) else if answers == [expected] then Finish(1) else Finish(0)
  }

  lemma ProbeRuns(read: Read, expected: Result<Value, StateError>, reader: RpcReader)
    ensures Run(Probe(read, expected), reader, 1).result == Some(if reader(read) == expected then 1 else 0)
  {
    var e := Probe(read, expected);
    var answers: Answers := [] + [reader(read)];
    assert answers == [reader(read)];
    assert RunFrom(e, reader, answers, 0).result == Some(if reader(read) == expected then 1 else 0);
  }

  /** Every execution runs the same through the simulated reader as through the RPC reader, however it branches on what
      it reads, exactly when every prefetched entry is the node's answer. */
  lemma IndistinguishableExactly(s: SimulatedStateReader)
    ensures (forall e: Execution, n: nat :: Run(e, AsReader(s), n) == Run(e, s.rpc, n)) <==> Agrees(s.maps, s.rpc)
  {
    AgreesReadByRead(s.maps, s.rpc);
    hide Agrees;
    if AgreesOnReads(s.maps, s.rpc) {
      forall e: Execution, n: nat
        ensures Run(e, AsReader(s), n) == Run(e, s.rpc, n)
      {
        RunsAgreeFrom(e, s, [], n);
      }
    } else {
      var read :| Prefetched(s.maps, read).Some? && s.rpc(read) != Ok(Prefetched(s.maps, read).value);
      var expected := s.rpc(read);
      var e := Probe(read, expected);
      ProbeRuns(read, expected, AsReader(s));
      ProbeRuns(read, expected, s.rpc);
      assert Run(e, AsReader(s), 1) != Run(e, s.rpc, 1);
    }
  }

  lemma SentFirst(s: SimulatedStateReader, read: Read, made: seq<Read>)
    ensures AllSent(s, [read] + made) == s.Sent(read) + AllSent(s, made)
  {
    assert ([read] + made)[1..] == made;
  }

  /** A run keeps the answers it started from. */
  lemma {:induction false} AnswersGrow(e: Execution, reader: RpcReader, answers: Answers, n: nat)
    ensures answers <= RunFrom(e, reader, answers, n).answers
    decreases n
  {
    match e(answers)
    case Finish(_) =>
    case ReadNext(read) =>
      if n == 0 {
      } else {
        AnswersGrow(e, reader, answers + [reader(read)], n - 1);
      }
  }

  /** Runs whose first answers differ are different. */
  lemma FirstAnswerShows(e: Execution, reader: RpcReader, reader': RpcReader, answers: Answers, n: nat)
    requires n > 0 && e(answers).ReadNext? && reader(e(answers).read) != reader'(e(answers).read)
    ensures RunFrom(e, reader, answers, n) != RunFrom(e, reader', answers, n)
  {
    var read := e(answers).read;
    AnswersGrow(e, reader, answers + [reader(read)], n - 1);
    AnswersGrow(e, reader', answers + [reader'(read)], n - 1);
    assert (answers + [reader(read)])[|answers|] == RunFrom(e, reader, answers, n).answers[|answers|];
    assert (answers + [reader'(read)])[|answers|] == RunFrom(e, reader', answers, n).answers[|answers|];
  }

  /** What it sends is exactly what an execution learns from the node: under another node it runs the same if and only if
      that node gives the same answers to these requests, whatever it answers to others. */
  lemma {:induction false} OnlySentMatters(e: Execution, s: SimulatedStateReader, rpc: RpcReader, answers: Answers, n: nat)
    ensures RunFrom(e, AsReader(s.(rpc := rpc)), answers, n) == RunFrom(e, AsReader(s), answers, n)
            <==> forall read :: read in AllSent(s, RunFrom(e, AsReader(s), answers, n).made) ==> rpc(read) == s.rpc(read)
    decreases n
  {
    var other := s.(rpc := rpc);
    match e(answers)
    case Finish(_) =>
    case ReadNext(read) =>
      if n == 0 {
      } else {
        var next := answers + [s.Get(read)];
        var rest := RunFrom(e, AsReader(s), next, n - 1);
        assert RunFrom(e, AsReader(s), answers, n).made == [read] + rest.made;
        hide AllSent;
        SentFirst(s, read, rest.made);
        if other.Get(read) == s.Get(read) {
          OnlySentMatters(e, s, rpc, next, n - 1);
          assert read in s.Sent(read) ==> rpc(read) == s.rpc(read);
        } else {
          FirstAnswerShows(e, AsReader(other), AsReader(s), answers, n);
          assert read in s.Sent(read);
        }
      }
  }

  /** Prefetching from lists whose last entries are the node's answers is safe. */
  lemma ListsAgree(r: RpcInitialReads, m: StateMaps, rpc: RpcReader)
    requires forall read :: Prefetched(m, read) == LastListed(r, read)
    requires forall read :: LastListed(r, read).Some? ==> rpc(read) == Ok(LastListed(r, read).value)
    ensures Agrees(m, rpc)
    ensures forall e: Execution, n: nat :: Run(e, AsReader(SimulatedStateReader(m, rpc)), n) == Run(e, rpc, n)
  {
    AgreesReadByRead(m, rpc);
    IndistinguishableExactly(SimulatedStateReader(m, rpc));
  }
}
