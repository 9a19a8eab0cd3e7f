/**
 The governed domain-tool runtime and its keyed result cache.

 A JSON value is identified with its canonical UTF-8 text, one character a byte, and a digest with what was
 hashed; handlers return objects. A handler also receives an arbitrary number standing for everything outside its
 input (time, network, randomness), so that tools that are not pure functions can be registered too.
 */
module ToolRuntime {
  import opened Wrappers

  type Json = string

  datatype Hash = Hash(prefix: string, value: Json)

  datatype Network = NoNetwork | Allowlisted

  datatype Status = Verified | Unsupported | InvalidInput | Failed

  datatype Capability = Capability(toolId: string, version: string, deterministic: bool, network: Network)

  datatype Request = Request(requestId: string, toolId: string, input: Json, tenant: string, policyVersion: string,
                             allowNetwork: bool, maxOutputBytes: nat)

  /** A handler returns a value, raises one of the expected exceptions, or raises something else. */
  datatype Outcome = Returned(output: Json) | RaisedExpected(message: string) | RaisedOther(exceptionType: string)

  type World = int
  type Handler = (Json, World) -> Outcome

  datatype Evidence = Evidence(toolId: string, version: string, inputHash: Hash, resultHash: Hash)

  datatype Failure = Failure(code: Status, message: string)

  datatype ToolResult = ToolResult(status: Status, output: Option<Json>, evidence: Option<Evidence>,
                                   failure: Option<Failure>)

  datatype ReceiptId = ReceiptId(tenant: string, toolId: string, version: string, inputHash: Hash, status: Status,
                                 resultHash: Option<Hash>)

  datatype Receipt = Receipt(id: ReceiptId, toolId: string, toolVersion: string, tenant: string,
                             policyVersion: string, inputHash: Hash, resultHash: Option<Hash>, status: Status,
                             reusable: bool)

  type Response = (ToolResult, Receipt)

  datatype Key = Key(tenant: string, toolId: string, version: string, policyVersion: string, inputHash: Hash)

  datatype State = State(capabilities: map<string, Capability>, handlers: map<string, Handler>,
                         cache: map<Key, Response>)

  function InputHash(request: Request): Hash {
    Hash("tool-input", request.input)
  }

  function MakeReceipt(request: Request, version: string, result: ToolResult): Receipt {
    var resultHash := if result.evidence.Some? then Some(result.evidence.value.resultHash) else None;
    Receipt(ReceiptId(request.tenant, request.toolId, version, InputHash(request), result.status, resultHash),
            request.toolId, version, request.tenant, request.policyVersion, InputHash(request), resultHash,
            result.status, result.status == Verified)
  }

  function Rejected(code: Status, message: string): ToolResult {
    ToolResult(code, None, None, Some(Failure(code, message)))
  }

  function VerifiedResult(toolId: string, version: string, inputHash: Hash, output: Json): ToolResult {
    ToolResult(Verified, Some(output), Some(Evidence(toolId, version, inputHash, Hash("tool-result", output))), None)
  }

  function Truncated(message: string): string {
    if |message| <= 500 then message else message[..500]
  }

  /** Runs the handler, as on a cache miss. */
  function RunHandler(capability: Capability, handler: Handler, request: Request, world: World): ToolResult {
    match handler(request.input, world)
    case Returned(output) =>
      if |output| > request.maxOutputBytes then Rejected(InvalidInput, "tool output exceeds budget")
      else VerifiedResult(request.toolId, capability.version, InputHash(request), output)
    case RaisedExpected(message) => Rejected(InvalidInput, Truncated(message))
    case RaisedOther(exceptionType) => Rejected(Failed, exceptionType)
  }

  predicate Denied(capability: Capability, request: Request) {
    capability.network != NoNetwork && !request.allowNetwork
  }

  function KeyOf(capability: Capability, request: Request): Key {
    Key(request.tenant, request.toolId, capability.version, request.policyVersion, InputHash(request))
  }

  predicate Reachable(s: State, request: Request) {
    request.toolId in s.capabilities && !Denied(s.capabilities[request.toolId], request)
  }

  /** The request is answered from the cache. */
  predicate Hit(s: State, request: Request) {
    && Reachable(s, request) && s.capabilities[request.toolId].deterministic
    && KeyOf(s.capabilities[request.toolId], request) in s.cache
  }

  /** What the runtime would answer if it had no cache. */
  function Uncached(s: State, request: Request, world: World): Response
    requires s.capabilities.Keys == s.handlers.Keys
  {
    if request.toolId !in s.capabilities then
      var result := Rejected(Unsupported, "tool capability is not registered");
      (result, MakeReceipt(request, "unregistered", result))
    else
      var capability := s.capabilities[request.toolId];
      if Denied(capability, request) then
        var result := Rejected(Unsupported, "network tool denied by policy");
        (result, MakeReceipt(request, capability.version, result))
      else
        var result := RunHandler(capability, s.handlers[request.toolId], request, world);
        (result, MakeReceipt(request, capability.version, result))
  }

  function Execute(s: State, request: Request, world: World): (State, Response)
    requires s.capabilities.Keys == s.handlers.Keys
  {
    if Hit(s, request) then
      (s, s.cache[KeyOf(s.capabilities[request.toolId], request)])
    else
      var response := Uncached(s, request, world);
      if Reachable(s, request) && s.capabilities[request.toolId].deterministic && response.0.status == Verified then
        (s.(cache := s.cache[KeyOf(s.capabilities[request.toolId], request) := response]), response)
      else
        (s, response)
  }

  /** `None` is the `ValueError` for a tool id registered before. */
  function Register(s: State, capability: Capability, handler: Handler): Option<State> {
    if capability.toolId in s.capabilities then None
    else Some(State(s.capabilities[capability.toolId := capability], s.handlers[capability.toolId := handler], s.cache))
  }

  const EMPTY := State(map[], map[], map[])

  /** `DomainToolRuntime`: the three dictionaries and the two operations on them. */
  class Runtime {
    var capabilities: map<string, Capability>
    var handlers: map<string, Handler>
    var cache: map<Key, Response>

    ghost function Snapshot(): State
      reads this
    {
      State(capabilities, handlers, cache)
    }

    constructor ()
      ensures Snapshot() == EMPTY
    {
      capabilities, handlers, cache := map[], map[], map[];
    }

    method RegisterTool(capability: Capability, handler: Handler) returns (ok: bool)
      modifies this
      ensures var after := Register(old(Snapshot()), capability, handler);
              ok == after.Some? && Snapshot() == if ok then after.value else old(Snapshot())
    {
      if capability.toolId in capabilities {
        return false;
      }
      capabilities := capabilities[capability.toolId := capability];
      handlers := handlers[capability.toolId := handler];
      ok := true;
    }

    method ExecuteRequest(request: Request, world: World) returns (response: Response)
      requires capabilities.Keys == handlers.Keys
      modifies this`cache
      ensures (Snapshot(), response) == Execute(old(Snapshot()), request, world)
    {
      if request.toolId !in capabilities {
        var result := Rejected(Unsupported, "tool capability is not registered");
        return (result, MakeReceipt(request, "unregistered", result));
      }
      var capability := capabilities[request.toolId];
      if capability.network != NoNetwork && !request.allowNetwork {
        var result := Rejected(Unsupported, "network tool denied by policy");
        return (result, MakeReceipt(request, capability.version, result));
      }
      var key := Key(request.tenant, request.toolId, capability.version, request.policyVersion, InputHash(request));
      if capability.deterministic && key in cache {
        return cache[key];
      }
      var result;
      match handlers[request.toolId](request.input, world) {
        case Returned(output) =>
          if |output| > request.maxOutputBytes {
            result := Rejected(InvalidInput, "tool output exceeds budget");
          } else {
            result := VerifiedResult(request.toolId, capability.version, InputHash(request), output);
          }
        case RaisedExpected(message) => result := Rejected(InvalidInput, Truncated(message));
        case RaisedOther(exceptionType) => result := Rejected(Failed, exceptionType);
      }
      var receipt := MakeReceipt(request, capability.version, result);
      if capability.deterministic && result.status == Verified {
        cache := cache[key := (result, receipt)];
      }
      response := (result, receipt);
    }
  }

  // ---- what every sequence of calls keeps

  /** The entry is what the key's tool verifiably returned for the key's input. */
  ghost predicate Genuine(s: State, key: Key, entry: Response)
    requires s.capabilities.Keys == s.handlers.Keys
  {
    && key.toolId in s.capabilities && s.capabilities[key.toolId].deterministic
    && s.capabilities[key.toolId].version == key.version
    && key.inputHash.prefix == "tool-input"
    && entry.0.output.Some?
    && (exists world :: s.handlers[key.toolId](key.inputHash.value, world) == Returned(entry.0.output.value))
    && entry.0 == VerifiedResult(key.toolId, key.version, key.inputHash, entry.0.output.value)
    && entry.1.toolId == key.toolId && entry.1.toolVersion == key.version && entry.1.tenant == key.tenant
    && entry.1.policyVersion == key.policyVersion && entry.1.inputHash == key.inputHash
    && entry.1.resultHash == Some(Hash("tool-result", entry.0.output.value))
    && entry.1.status == Verified && entry.1.reusable
    && entry.1.id == ReceiptId(key.tenant, key.toolId, key.version, key.inputHash, Verified, entry.1.resultHash)
  }

  ghost predicate Consistent(s: State) {
    && s.capabilities.Keys == s.handlers.Keys
    && (forall id <- s.capabilities :: s.capabilities[id].toolId == id)
    && (forall key <- s.cache :: Genuine(s, key, s.cache[key]))
  }

  /** `t` has all the tools and all the cache entries of `s`, unchanged. */
  ghost predicate Extends(s: State, t: State) {
    && (forall id <- s.capabilities :: id in t.capabilities && t.capabilities[id] == s.capabilities[id])
    && (forall id <- s.handlers :: id in t.handlers && t.handlers[id] == s.handlers[id])
    && (forall key <- s.cache :: key in t.cache && t.cache[key] == s.cache[key])
  }

  lemma ExecuteKeepsConsistent(s: State, request: Request, world: World)
    requires Consistent(s)
    ensures Consistent(Execute(s, request, world).0) && Extends(s, Execute(s, request, world).0)
  {
    var (t, response) := Execute(s, request, world);
    if t != s {
      var capability := s.capabilities[request.toolId];
      assert s.handlers[request.toolId](request.input, world) == Returned(response.0.output.value);
      assert Genuine(t, KeyOf(capability, request), response);
      forall key | key in s.cache
        ensures Genuine(t, key, s.cache[key])
      {
        assert Genuine(s, key, s.cache[key]);
      }
    }
  }

  datatype Call = RegisterCall(capability: Capability, handler: Handler) | ExecuteCall(request: Request, world: World)

  function Step(s: State, call: Call): State
    requires s.capabilities.Keys == s.handlers.Keys
  {
    match call
    case RegisterCall(capability, handler) =>
      var after := Register(s, capability, handler);
      if after.Some? then after.value else s
    case ExecuteCall(request, world) => Execute(s, request, world).0
  }

  function Run(calls: seq<Call>): (s: State)
    ensures s.capabilities.Keys == s.handlers.Keys
  {
    if calls == [] then EMPTY else Step(Run(calls[..|calls| - 1]), calls[|calls| - 1])
  }

  lemma {:induction false} RunsAreConsistent(calls: seq<Call>)
    ensures Consistent(Run(calls))
  {
    if calls != [] {
      var before, last := Run(calls[..|calls| - 1]), calls[|calls| - 1];
      RunsAreConsistent(calls[..|calls| - 1]);
      match last
      case RegisterCall(_, _) =>
      case ExecuteCall(request, world) => ExecuteKeepsConsistent(before, request, world);
    }
  }

  /** Tools and cache entries, once there, stay as they are. */
  lemma {:induction false} RunsOnlyExtend(calls: seq<Call>, n: nat)
    requires n <= |calls|
    ensures Extends(Run(calls[..n]), Run(calls))
    decreases |calls| - n
  {
    if n == |calls| {
      assert calls[..n] == calls;
    } else {
      RunsOnlyExtend(calls, n + 1);
      RunsAreConsistent(calls[..n]);
      var before := Run(calls[..n]);
      assert calls[..n + 1][..n] == calls[..n];
      assert Run(calls[..n + 1]) == Step(before, calls[n]);
      match calls[n]
      case RegisterCall(_, _) =>
      case ExecuteCall(request, world) => ExecuteKeepsConsistent(before, request, world);
    }
  }

  /** Every tool registered as deterministic is a function of its input. */
  ghost predicate DeterministicToolsArePure(s: State) {
    forall id, input, v, w :: id in s.capabilities && id in s.handlers && s.capabilities[id].deterministic ==>
      s.handlers[id](input, v) == s.handlers[id](input, w)
  }

  predicate CachedOutputExceedsBudget(s: State, request: Request)
    requires Hit(s, request)
  {
    |s.cache[KeyOf(s.capabilities[request.toolId], request)].0.output.GetOr("")| > request.maxOutputBytes
  }

  /**
   After any run in which the tools registered as deterministic are pure, a request gets the answer it would get
   without a cache, except exactly when the cached output is larger than the request's own output budget: the
   cache is asked before the budget is.
   */
  lemma CacheIsTransparentExactly(calls: seq<Call>, request: Request, world: World)
    requires DeterministicToolsArePure(Run(calls))
    ensures Execute(Run(calls), request, world).1 == Uncached(Run(calls), request, world)
       <==> !(Hit(Run(calls), request) && CachedOutputExceedsBudget(Run(calls), request))
  {
    hide Run;
    var s := Run(calls);
    RunsAreConsistent(calls);
    if Hit(s, request) {
      var key := KeyOf(s.capabilities[request.toolId], request);
      var entry := s.cache[key];
      assert Genuine(s, key, entry);
      var world0 :| s.handlers[key.toolId](key.inputHash.value, world0) == Returned(entry.0.output.value);
      assert s.handlers[request.toolId](request.input, world) == Returned(entry.0.output.value);
    }
  }

  /** A JSON object of 200 characters. */
  function Sevens(): Json {
    "{\"v\":\"" + seq(192, _ => '7') + "\"}"
  }

  function PrintSevens(): Handler {
    (input: Json, world: World) => Returned(Sevens())
  }

  function AskForSevens(maxOutputBytes: nat): Request {
    Request("r", "sevens", "{}", "tenant", "policy.v1", false, maxOutputBytes)
  }

  /** A tool that returns such an object, asked with enough room for them and then with room for 128. */
  function SevensCalls(): seq<Call> {
    [RegisterCall(Capability("sevens", "sevens.v1", true, NoNetwork), PrintSevens()),
     ExecuteCall(AskForSevens(1000), 0)]
  }

  lemma SevensRun()
    ensures var s := Run(SevensCalls());
            && s.handlers == map["sevens" := PrintSevens()]
            && Hit(s, AskForSevens(128)) && CachedOutputExceedsBudget(s, AskForSevens(128))
            && Execute(s, AskForSevens(128), 0).1.0.output == Some(Sevens())
  {
    var calls := SevensCalls();
    var first := calls[..1];
    assert first == [calls[0]] && first[..0] == [] && calls[..|calls| - 1] == first;
    assert Run(first) == Step(Run(first[..0]), first[0]);
    var registered := Register(EMPTY, calls[0].capability, calls[0].handler).value;
    assert Run(first) == registered && Run(calls) == Step(registered, calls[1]);
    assert PrintSevens()("{}", 0) == Returned(Sevens());
    var response := Uncached(registered, AskForSevens(1000), 0);
    assert response.0.output == Some(Sevens());
    var capability := registered.capabilities["sevens"];
    assert KeyOf(capability, AskForSevens(128)) == KeyOf(capability, AskForSevens(1000));
  }

  /** A request with a budget of 128 gets 200 characters from the cache, which without the cache would be an error. */
  lemma SmallerBudgetExposesCache()
    ensures var s, request := Run(SevensCalls()), AskForSevens(128);
            && DeterministicToolsArePure(s) && request.maxOutputBytes == 128 && |Sevens()| == 200
            && Execute(s, request, 0).1.0.output == Some(Sevens())
            && Uncached(s, request, 0).0.status == InvalidInput
  {
    SevensRun();
    CacheIsTransparentExactly(SevensCalls(), AskForSevens(128), 0);
  }

  /** Whatever ran before, a response is about the tenant, tool, policy and input of the request it answers. */
  lemma ReceiptsMatchRequests(calls: seq<Call>, request: Request, world: World)
    ensures var (result, receipt) := Execute(Run(calls), request, world).1;
            && receipt.tenant == request.tenant && receipt.toolId == request.toolId
            && receipt.policyVersion == request.policyVersion && receipt.inputHash == InputHash(request)
            && receipt.status == result.status
            && (receipt.reusable <==> result.output.Some?)
            && (result.output.Some? ==> receipt.resultHash == Some(Hash("tool-result", result.output.value)))
  {
    hide Run;
    var s := Run(calls);
    RunsAreConsistent(calls);
    if Hit(s, request) {
      var key := KeyOf(s.capabilities[request.toolId], request);
      assert Genuine(s, key, s.cache[key]);
    }
  }

  /** The result reports a failure and nothing else. */
  ghost predicate FailsWith(result: ToolResult, status: Status, message: string) {
    result == ToolResult(status, None, None, Some(Failure(status, message)))
  }

  /**
   What a request gets that is not answered from the cache: unsupported without a registered tool or against the network
   policy; else what the handler does decides. Too large an output and the exceptions expected of handlers, cut at 500
   characters, are invalid input; any other exception is a failure under its type's name.
   */
  lemma AnswerExactly(s: State, request: Request, world: World)
    requires s.capabilities.Keys == s.handlers.Keys && !Hit(s, request)
    ensures var result := Execute(s, request, world).1.0;
            && (request.toolId !in s.capabilities ==>
                  FailsWith(result, Unsupported, "tool capability is not registered"))
            && (request.toolId in s.capabilities ==>
                  if s.capabilities[request.toolId].network == Allowlisted && !request.allowNetwork
                  then FailsWith(result, Unsupported, "network tool denied by policy")
                  else match s.handlers[request.toolId](request.input, world)
                       case Returned(output) =>
                         && (|output| > request.maxOutputBytes ==>
                               FailsWith(result, InvalidInput, "tool output exceeds budget"))
                         && (|output| <= request.maxOutputBytes ==>
                               && result.status == Verified && result.output == Some(output) && result.failure == None
                               && result.evidence == Some(Evidence(request.toolId,
                                                                   s.capabilities[request.toolId].version,
                                                                   Hash("tool-input", request.input),
                                                                   Hash("tool-result", output))))
                       case RaisedExpected(message) =>
                         && (|message| <= 500 ==> FailsWith(result, InvalidInput, message))
                         && (|message| > 500 ==> FailsWith(result, InvalidInput, message[..500]))
                       case RaisedOther(exceptionType) => FailsWith(result, Failed, exceptionType))
  {
  }

  /** The receipt's version is the registered tool's, and its id is made of what it says. */
  lemma ReceiptExactly(s: State, request: Request, world: World)
    requires s.capabilities.Keys == s.handlers.Keys && !Hit(s, request)
    ensures var (result, receipt) := Execute(s, request, world).1;
            && receipt.toolVersion == (if request.toolId in s.capabilities then s.capabilities[request.toolId].version
                                       else "unregistered")
            && receipt.inputHash == Hash("tool-input", request.input)
            && receipt.id == ReceiptId(request.tenant, request.toolId, receipt.toolVersion, receipt.inputHash,
                                       result.status, receipt.resultHash)
  {
  }

  /** A verified answer of a deterministic tool is given again to all requests with that tenant, policy and input. */
  lemma VerifiedIsRemembered(s: State, request: Request, world: World, again: Request, later: World)
    requires s.capabilities.Keys == s.handlers.Keys && Execute(s, request, world).1.0.status == Verified
    requires request.toolId in s.capabilities && s.capabilities[request.toolId].deterministic
    requires again.toolId == request.toolId && again.tenant == request.tenant && again.input == request.input
    requires again.policyVersion == request.policyVersion && (request.allowNetwork ==> again.allowNetwork)
    ensures Execute(Execute(s, request, world).0, again, later) == Execute(s, request, world)
  {
    assert KeyOf(s.capabilities[request.toolId], request) == KeyOf(s.capabilities[request.toolId], again);
  }

  /** A request the network policy denies neither reads nor writes the cache. */
  lemma DeniedNeverReachesCache(s: State, request: Request, world: World, other: map<Key, Response>)
    requires s.capabilities.Keys == s.handlers.Keys
    requires request.toolId in s.capabilities && Denied(s.capabilities[request.toolId], request)
    ensures Execute(s, request, world).0 == s
    ensures Execute(s.(cache := other), request, world).1 == Execute(s, request, world).1
    ensures Execute(s, request, world).1.0.status == Unsupported
  {
  }

  /** A tool that is not deterministic is run anew each time and leaves the cache alone. */
  lemma NonDeterministicNeverCached(calls: seq<Call>, request: Request, world: World)
    requires request.toolId in Run(calls).capabilities && !Run(calls).capabilities[request.toolId].deterministic
    ensures Execute(Run(calls), request, world) == (Run(calls), Uncached(Run(calls), request, world))
    ensures forall key <- Run(calls).cache :: key.toolId != request.toolId
  {
    RunsAreConsistent(calls);
    forall key | key in Run(calls).cache
      ensures key.toolId != request.toolId
    {
      assert Genuine(Run(calls), key, Run(calls).cache[key]);
    }
  }
}
