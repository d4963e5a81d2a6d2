/** Recording RPC interactions and replaying them by lookup key. */
module RpcRecords {
  import opened Felts
  import opened Json
  import opened LookupKey
  import opened Normalize

  datatype RpcInteraction = RpcInteraction(rpcMethod: string, sortedParams: Json, response: Json)

  /** One request that went through the recorder, with the node's response. */
  datatype Exchange = Exchange(request: Json, response: Json)

  // ------------------------------------------------------------------------
  // Reading a request
  // ------------------------------------------------------------------------

  function FindField(fields: seq<Field>, name: string): Option<Json> {
    if fields == [] then None
    else if fields[0].name == name then Some(fields[0].value)
    else FindField(fields[1..], name)
  }

  /** A field of an object; any other value has none. */
  function Get(v: Json, name: string): Option<Json> {
    if v.Object? then FindField(v.fields, name) else None
  }

  /** The method of a request, "unknown" when there is no such string. */
  function MethodOf(request: Json): string {
    match Get(request, "method")
    case Some(String(m)) => m
    case _ => "unknown"
  }

  /** The params of a request, null when there are none. */
  function ParamsOf(request: Json): Json {
    match Get(request, "params")
    case Some(p) => p
    case None => Null
  }

  /** What a request says: its method is the string in the field "method", or "unknown" if there is no such string; its
      params are what is in the field "params", or null if there is no such field. */
  ghost predicate Asks(request: Json, rpcMethod: string, params: Json) {
    && (if request.Object? && exists i, m :: 0 <= i < |request.fields| && request.fields[i] == Field("method", String(m))
        then exists i :: 0 <= i < |request.fields| && request.fields[i] == Field("method", String(rpcMethod))
        else rpcMethod == "unknown")
    && (if request.Object? && exists i :: 0 <= i < |request.fields| && request.fields[i].name == "params"
        then exists i :: 0 <= i < |request.fields| && request.fields[i] == Field("params", params)
        else params == Null)
  }

  function MakeLookupKey(rpcMethod: string, params: Json): string {
    Key(rpcMethod, Norm(params))
  }

  /** Fields with distinct names: the first of a name is the only one. */
  lemma {:induction false} FindFieldMeaning(fields: seq<Field>, name: string)
    requires DistinctNames(fields)
    ensures FindField(fields, name).None? <==> forall i :: 0 <= i < |fields| ==> fields[i].name != name
    ensures forall i :: 0 <= i < |fields| && fields[i].name == name ==> FindField(fields, name) == Some(fields[i].value)
  {
    if fields == [] {
    } else {
      assert forall i :: 0 <= i < |fields[1..]| ==> fields[1..][i] == fields[i + 1];
      FindFieldMeaning(fields[1..], name);
    }
  }

  ghost predicate DistinctNames(fields: seq<Field>) {
    forall i, j :: 0 <= i < j < |fields| ==> fields[i].name != fields[j].name
  }

  /** The method and the params that are read are the ones the request says, and it says no others. */
  lemma RequestMeaning(request: Json)
    requires WellFormed(request)
    ensures forall m, p :: Asks(request, m, p) <==> m == MethodOf(request) && p == ParamsOf(request)
  {
    if request.Object? {
      assert DistinctNames(request.fields);
      FindFieldMeaning(request.fields, "method");
      FindFieldMeaning(request.fields, "params");
    }
  }

  // ------------------------------------------------------------------------
  // Recording
  // ------------------------------------------------------------------------

  function Record(e: Exchange): RpcInteraction {
    RpcInteraction(MethodOf(e.request), Norm(ParamsOf(e.request)), e.response)
  }

  function Records(log: seq<Exchange>): seq<RpcInteraction> {
    seq(|log|, i requires 0 <= i < |log| => Record(log[i]))
  }

  class RecordingProxy {
    var interactions: seq<RpcInteraction>

    constructor ()
      ensures interactions == []
    {
      interactions := [];
    }

    /** Handles one request: `response` is what the target node answered. */
    method Handle(request: Json, response: Json) returns (body: Json)
      modifies this
      ensures WellFormed(request) ==>
                exists m, p :: Asks(request, m, p)
                               && interactions == old(interactions) + [RpcInteraction(m, Norm(p), response)]
      ensures interactions == old(interactions) + [Record(Exchange(request, response))]
      ensures body == response
      ensures forall log :: old(interactions) == Records(log) ==>
                interactions == Records(log + [Exchange(request, response)])
    {
      var interaction := RpcInteraction(MethodOf(request), Norm(ParamsOf(request)), response);
      interactions := interactions + [interaction];
      if WellFormed(request) {
        RequestMeaning(request);
        assert Asks(request, MethodOf(request), ParamsOf(request));
      }
      body := response;
    }

    method IntoRecords() returns (records: seq<RpcInteraction>)
      ensures records == interactions
    {
      records := interactions;
    }
  }

  // ------------------------------------------------------------------------
  // Replaying
  // ------------------------------------------------------------------------

  /** The lookup table of the first n interactions; a later interaction replaces an earlier one with the same key. */
  function Table(records: seq<RpcInteraction>, n: nat): map<string, Json>
    requires n <= |records|
  {
    if n == 0 then map[]
    else
      var last := records[n - 1];
      Table(records, n - 1)[MakeLookupKey(last.rpcMethod, last.sortedParams) := last.response]
  }

  function Lookup(table: map<string, Json>, request: Json): Option<Json> {
    var key := MakeLookupKey(MethodOf(request), ParamsOf(request));
    if key in table then Some(table[key]) else None
  }

  class MockRpcServer {
    var lookup: map<string, Json>

    constructor (records: seq<RpcInteraction>)
      ensures lookup == Table(records, |records|)
    {
      var table: map<string, Json> := map[];
      for i := 0 to |records|
        invariant table == Table(records, i)
      {
        var key := MakeLookupKey(records[i].rpcMethod, records[i].sortedParams);
        table := table[key := records[i].response];
      }
      lookup := table;
    }

    /** The recorded response, or none for "not found". */
    method Handler(request: Json) returns (response: Option<Json>)
      ensures WellFormed(request) ==>
                exists m, p :: Asks(request, m, p)
                               && response == var key := m + ":" + Print(Norm(p));
                                              if key in lookup then Some(lookup[key]) else None
      ensures response == Lookup(lookup, request)
    {
      var key := MakeLookupKey(MethodOf(request), ParamsOf(request));
      if key in lookup {
        response := Some(lookup[key]);
      } else {
        response := None;
      }
      if WellFormed(request) {
        RequestMeaning(request);
        assert Asks(request, MethodOf(request), ParamsOf(request));
        assert key == MethodOf(request) + ":" + Print(Norm(ParamsOf(request)));
      }
    }
  }

  // ------------------------------------------------------------------------
  // Replay is a search of the log
  // ------------------------------------------------------------------------

  /** Two requests with one method and, up to array order, the same params. */
  ghost predicate SameCall(a: Json, b: Json) {
    exists m, p, q :: Asks(a, m, p) && Asks(b, m, q) && Reordered(p, q)
  }

  lemma SameCallIs(a: Json, b: Json)
    requires WellFormed(a) && WellFormed(b)
    ensures SameCall(a, b) <==> MethodOf(a) == MethodOf(b) && Reordered(ParamsOf(a), ParamsOf(b))
  {
    RequestMeaning(a);
    RequestMeaning(b);
    hide MethodOf;
    hide ParamsOf;
    hide Reordered;
    if MethodOf(a) == MethodOf(b) && Reordered(ParamsOf(a), ParamsOf(b)) {
      assert Asks(a, MethodOf(a), ParamsOf(a)) && Asks(b, MethodOf(a), ParamsOf(b));
    }
  }

  /** The response of the last exchange among the first n with the request's call. */
  ghost function LastMatch(log: seq<Exchange>, n: nat, request: Json): Option<Json>
    requires n <= |log|
  {
    if n == 0 then None
    else if SameCall(log[n - 1].request, request) then Some(log[n - 1].response)
    else LastMatch(log, n - 1, request)
  }

  lemma {:induction false} FindFieldWellFormed(fields: seq<Field>, name: string)
    requires AllFieldsWellFormed(fields)
    ensures FindField(fields, name).Some? ==> WellFormed(FindField(fields, name).value)
  {
    if fields == [] {
    } else {
      FindFieldWellFormed(fields[1..], name);
    }
  }

  lemma ParamsWellFormed(request: Json)
    requires WellFormed(request)
    ensures WellFormed(ParamsOf(request))
  {
    if request.Object? {
      FindFieldWellFormed(request.fields, "params");
    }
  }

  /** A recorded exchange and a request have one key exactly when the methods are equal and the params agree up to
      array order, although the recorded params were normalised once already. */
  lemma KeysMeet(recorded: Json, request: Json)
    requires WellFormed(recorded) && WellFormed(request)
    ensures MakeLookupKey(MethodOf(recorded), Norm(ParamsOf(recorded)))
            == MakeLookupKey(MethodOf(request), ParamsOf(request))
            <==> SameCall(recorded, request)
  {
    SameCallIs(recorded, request);
    hide SameCall;
    var p, q := ParamsOf(recorded), ParamsOf(request);
    ParamsWellFormed(recorded);
    ParamsWellFormed(request);
    NormIdempotent(p);
    NormCanonical(p, q);
    NormWellFormed(p);
    NormWellFormed(q);
    if MakeLookupKey(MethodOf(recorded), Norm(p)) == MakeLookupKey(MethodOf(request), q) {
      KeyUnique(MethodOf(recorded), MethodOf(request), Norm(Norm(p)), Norm(q));
    }
  }

  /** The flat key decides: two requests share a key only when methods are equal and normalised params are equal. */
  lemma LookupKeyUnique(m: string, n: string, p: Json, q: Json)
    requires WellFormed(p) && WellFormed(q)
    ensures MakeLookupKey(m, p) == MakeLookupKey(n, q) <==> m == n && Norm(p) == Norm(q)
  {
    NormWellFormed(p);
    NormWellFormed(q);
    if MakeLookupKey(m, p) == MakeLookupKey(n, q) {
      KeyUnique(m, n, Norm(p), Norm(q));
    }
  }

  lemma {:induction false} TableIsLogSearch(log: seq<Exchange>, n: nat, request: Json)
    requires n <= |log| && WellFormed(request)
    requires forall i :: 0 <= i < |log| ==> WellFormed(log[i].request)
    ensures Lookup(Table(Records(log), n), request) == LastMatch(log, n, request)
  {
    hide Norm;
    hide Reordered;
    hide WellFormed;
    hide MakeLookupKey;
    hide MethodOf;
    hide ParamsOf;
    hide SameCall;
    if n == 0 {
    } else {
      TableIsLogSearch(log, n - 1, request);
      KeysMeet(log[n - 1].request, request);
    }
  }

  /** For every recorded run, replay answers as a search of the run would, and finds nothing exactly when the search
      finds nothing. */
  lemma ReplayIsLogSearch(log: seq<Exchange>, request: Json)
    requires WellFormed(request)
    requires forall i :: 0 <= i < |log| ==> WellFormed(log[i].request)
    ensures Lookup(Table(Records(log), |log|), request) == LastMatch(log, |log|, request)
    ensures Lookup(Table(Records(log), |log|), request).None?
            <==> forall i :: 0 <= i < |log| ==>
                   !SameCall(log[i].request, request)
  {
    TableIsLogSearch(log, |log|, request);
    LastMatchNone(log, |log|, request);
  }

  lemma {:induction false} LastMatchNone(log: seq<Exchange>, n: nat, request: Json)
    requires n <= |log|
    ensures LastMatch(log, n, request).None?
            <==> forall i :: 0 <= i < n ==>
                   !SameCall(log[i].request, request)
  {
    if n == 0 {
    } else {
      LastMatchNone(log, n - 1, request);
    }
  }
}
