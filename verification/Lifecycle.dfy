/**
  The JSON-RPC lifecycle coordinator of the language server.

  Framing delivers a sequence of bodies, each a JSON value or not JSON at all; a framing error or a failed
  write ends the run. The results compare the coordinator's three-state machine with 'Server lifecycle'
  of the Language Server Protocol 3.17 and with sections 4, 4.1 and 5 of JSON-RPC 2.0, stated on the
  messages alone.
*/
module Lifecycle {
  import opened Wrappers

  const PARSE_ERROR: int := -32700
  const INVALID_REQUEST: int := -32600
  const METHOD_NOT_FOUND: int := -32601
  const INVALID_PARAMS: int := -32602
  const SERVER_NOT_INITIALIZED: int := -32002

  datatype ResponseBody = Initialized(positionEncoding: string) | ShutDown | Error(code: int)

  datatype Response = Response(id: Json, body: ResponseBody)

  datatype ExitStatus = ExitSuccess | ExitFailure

  datatype Action = Action(response: Option<Response>, exit: Option<ExitStatus>)

  datatype State = WaitingForInitialize | Running | ShutdownRequested

  // ---------- Messages ----------

  function Field(members: map<string, Json>, name: string): Option<Json> {
    if name in members then Some(members[name]) else None
  }

  predicate ValidId(id: Json) { id.Null? || id.Str? || id.Number? }

  /** Version, identity and method name are as JSON-RPC wants them. */
  predicate WellFormed(members: map<string, Json>) {
    && Field(members, "jsonrpc") == Some(Str("2.0"))
    && ("id" in members ==> ValidId(members["id"]))
    && "method" in members && members["method"].Str?
  }

  predicate StructuredParams(members: map<string, Json>) {
    "params" in members ==> members["params"].Object? || members["params"].Array?
  }

  predicate Calls(members: map<string, Json>, method_: string) {
    WellFormed(members) && StructuredParams(members) && members["method"].s == method_
  }

  predicate IsExit(message: Json) {
    message.Object? && Calls(message.fields, "exit") && "id" !in message.fields
  }

  predicate IsInitialize(message: Json) {
    && message.Object? && Calls(message.fields, "initialize") && "id" in message.fields
    && "params" in message.fields && message.fields["params"].Object?
  }

  predicate IsShutdown(message: Json) {
    message.Object? && Calls(message.fields, "shutdown") && "id" in message.fields
  }

  /** A member of a member of a value. */
  function Member(value: Option<Json>, name: string): Option<Json> {
    if value.Some? && value.value.Object? then Field(value.value.fields, name) else None
  }

  function OfferedUtf8(params: Json): bool {
    var encodings := Member(Member(Member(Some(params), "capabilities"), "general"), "positionEncodings");
    encodings.Some? && encodings.value.Array? && Str("utf-8") in encodings.value.items
  }

  // ---------- The coordinator ----------

  function Silent(): Action { Action(None, None) }

  /** An error goes to requests only. */
  function RequestError(id: Option<Json>, code: int): Action {
    if id.None? then Silent() else Action(Some(Response(id.value, Error(code))), None)
  }

  function InvalidMessage(id: Option<Json>): Action {
    Action(Some(Response(if id.Some? then id.value else Null, Error(INVALID_REQUEST))), None)
  }

  class Coordinator {
    var lifecycle: State

    constructor ()
      ensures lifecycle == WaitingForInitialize
    {
      lifecycle := WaitingForInitialize;
    }

    method Handle(message: Json) returns (action: Action)
      modifies this
      ensures (lifecycle, action) == Handled(old(lifecycle), message)
    {
      if !message.Object? {
        return InvalidMessage(None);
      }
      action := HandleObject(message.fields);
    }

    method HandleObject(members: map<string, Json>) returns (action: Action)
      modifies this
      ensures (lifecycle, action) == Handled(old(lifecycle), Object(members))
    {
      var id := Field(members, "id");
      if Field(members, "jsonrpc") != Some(Str("2.0")) || (id.Some? && !ValidId(id.value)) {
        return InvalidMessage(id);
      }
      var method_ := Field(members, "method");
      if method_.None? || !method_.value.Str? {
        return InvalidMessage(id);
      }
      var params := Field(members, "params");
      if params.Some? && !params.value.Object? && !params.value.Array? {
        return RequestError(id, INVALID_PARAMS);
      }
      if method_.value.s == "exit" {
        if id.None? {
          return Action(None, Some(if lifecycle == ShutdownRequested then ExitSuccess else ExitFailure));
        }
        return RequestError(id, INVALID_REQUEST);
      }
      if method_.value.s == "$/cancelRequest" {
        return RequestError(id, INVALID_REQUEST);
      }
      match lifecycle {
        case WaitingForInitialize => action := BeforeInitialize(method_.value.s, params, id);
        case Running => action := WhileRunning(method_.value.s, id);
        case ShutdownRequested => action := RequestError(id, INVALID_REQUEST);
      }
    }

    method BeforeInitialize(method_: string, params: Option<Json>, id: Option<Json>) returns (action: Action)
      requires lifecycle == WaitingForInitialize
      modifies this
      ensures (lifecycle, action) == Initializing(method_, params, id)
    {
      if method_ != "initialize" {
        return RequestError(id, SERVER_NOT_INITIALIZED);
      }
      if id.None? {
        return Silent();
      }
      if params.None? || !params.value.Object? {
        return Action(Some(Response(id.value, Error(INVALID_PARAMS))), None);
      }
      lifecycle := Running;
      var encoding := if OfferedUtf8(params.value) then "utf-8" else "utf-16";
      action := Action(Some(Response(id.value, Initialized(encoding))), None);
    }

    method WhileRunning(method_: string, id: Option<Json>) returns (action: Action)
      requires lifecycle == Running
      modifies this
      ensures (lifecycle, action) == Serving(method_, id)
    {
      if method_ == "initialized" {
        action := RequestError(id, INVALID_REQUEST);
      } else if method_ == "shutdown" {
        if id.None? {
          return Silent();
        }
        lifecycle := ShutdownRequested;
        action := Action(Some(Response(id.value, ShutDown)), None);
      } else if method_ == "initialize" {
        action := RequestError(id, INVALID_REQUEST);
      } else {
        action := RequestError(id, METHOD_NOT_FOUND);
      }
    }
  }

  function Initializing(method_: string, params: Option<Json>, id: Option<Json>): (State, Action) {
    if method_ == "initialize" && id.Some? && params.Some? && params.value.Object? then
      (Running, Action(Some(Response(id.value, Initialized(if OfferedUtf8(params.value) then "utf-8" else "utf-16"))), None))
    else (WaitingForInitialize, RequestError(id, if method_ == "initialize" then INVALID_PARAMS else SERVER_NOT_INITIALIZED))
  }

  function Serving(method_: string, id: Option<Json>): (State, Action) {
    if method_ == "shutdown" then
      if id.None? then (Running, Silent()) else (ShutdownRequested, Action(Some(Response(id.value, ShutDown)), None))
    else (Running, RequestError(id, if method_ == "initialize" || method_ == "initialized" then INVALID_REQUEST else METHOD_NOT_FOUND))
  }

  /** One message, as a transition. */
  function Handled(state: State, message: Json): (State, Action) {
    if !message.Object? then (state, InvalidMessage(None))
    else
      var members := message.fields;
      var id := Field(members, "id");
      if !WellFormed(members) then (state, InvalidMessage(id))
      else if !StructuredParams(members) then (state, RequestError(id, INVALID_PARAMS))
      else
        var name := members["method"].s;
        if name == "exit" && id.None? then
          (state, Action(None, Some(if state == ShutdownRequested then ExitSuccess else ExitFailure)))
        else if name == "exit" || name == "$/cancelRequest" then (state, RequestError(id, INVALID_REQUEST))
        else
          match state
          case WaitingForInitialize => Initializing(name, Field(members, "params"), id)
          case Running => Serving(name, id)
          case ShutdownRequested => (state, RequestError(id, INVALID_REQUEST))
  }

  // ---------- One message ----------

  /**
    The identity of an answer is a string, a number or null, as section 5 of JSON-RPC 2.0 demands, except
    exactly when the message carries an identity of another kind: that one is echoed.
   */
  lemma AnswerHasAValidIdExactlyWhen(state: State, message: Json)
    ensures var response := Handled(state, message).1.response;
      response.Some? ==>
        (ValidId(response.value.id) <==> !(message.Object? && "id" in message.fields && !ValidId(message.fields["id"])))
  {
  }

  /** The shortest message that is answered under an identity no client can have used. */
  lemma InvalidIdIsEchoed(state: State)
    ensures Handled(state, Object(map["id" := Bool(true)])).1.response == Some(Response(Bool(true), Error(INVALID_REQUEST)))
  {
  }

  // ---------- Runs ----------

  /** What framing delivers: a framing error, or a body that is JSON or is not. */
  datatype Input = BadFrame | NotJson | Message(message: Json)

  datatype ServerResult = Exited(status: ExitStatus) | FrameFailure | OutputFailure

  function Answer(state: State, input: Input): Action {
    match input
    case BadFrame => Silent()
    case NotJson => Action(Some(Response(Null, Error(PARSE_ERROR))), None)
    case Message(message) => Handled(state, message).1
  }

  function StateAfter(inputs: seq<Input>, n: nat): State
    requires n <= |inputs|
  {
    if n == 0 then WaitingForInitialize
    else if inputs[n - 1].Message? then Handled(StateAfter(inputs, n - 1), inputs[n - 1].message).0
    else StateAfter(inputs, n - 1)
  }

  /** All answers to the first `n` inputs, in order. */
  function Answers(inputs: seq<Input>, n: nat): seq<Response>
    requires n <= |inputs|
  {
    if n == 0 then []
    else
      var response := Answer(StateAfter(inputs, n - 1), inputs[n - 1]).response;
      if response.Some? then Answers(inputs, n - 1) + [response.value] else Answers(inputs, n - 1)
  }

  /** Whom an input entitles to an answer, whatever the state: requests under their identity, garbage under null. */
  function Addressee(input: Input): Option<Json> {
    match input
    case BadFrame => None
    case NotJson => Some(Null)
    case Message(message) =>
      if !message.Object? then Some(Null)
      else if "id" in message.fields then Some(message.fields["id"])
      else if WellFormed(message.fields) then None
      else Some(Null)
  }

  function Addressees(inputs: seq<Input>, n: nat): seq<Json>
    requires n <= |inputs|
  {
    if n == 0 then []
    else if Addressee(inputs[n - 1]).Some? then Addressees(inputs, n - 1) + [Addressee(inputs[n - 1]).value]
    else Addressees(inputs, n - 1)
  }

  /**
    Every request gets exactly one answer with its own identity, every well-formed notification gets none,
    and answers come in the order of the messages.
   */
  lemma {:induction false} AnswersFollowTheRequests(inputs: seq<Input>, n: nat)
    requires n <= |inputs|
    ensures |Answers(inputs, n)| == |Addressees(inputs, n)|
    ensures forall k :: 0 <= k < |Answers(inputs, n)| ==> Answers(inputs, n)[k].id == Addressees(inputs, n)[k]
  {
    if n > 0 {
      AnswersFollowTheRequests(inputs, n - 1);
      var response := Answer(StateAfter(inputs, n - 1), inputs[n - 1]).response;
      assert response.Some? <==> Addressee(inputs[n - 1]).Some?;
      assert response.Some? ==> response.value.id == Addressee(inputs[n - 1]).value;
    }
  }

  predicate Stops(input: Input) { input.BadFrame? || (input.Message? && IsExit(input.message)) }

  /** The inputs before the first one that stops the run. */
  function Lifetime(inputs: seq<Input>): (n: nat)
    ensures n <= |inputs| && (forall i :: 0 <= i < n ==> !Stops(inputs[i])) && (n < |inputs| ==> Stops(inputs[n]))
  {
    if inputs == [] || Stops(inputs[0]) then 0
    else
      var n := Lifetime(inputs[1..]);
      assert forall i :: 1 <= i <= n ==> inputs[i] == inputs[1..][i - 1];
      1 + n
  }

  lemma OnlyExitEndsTheRun(state: State, message: Json)
    ensures Handled(state, message).1.exit.Some? <==> IsExit(message)
    ensures IsExit(message) ==>
      && Handled(state, message).1.response.None?
      && (Handled(state, message).1.exit == Some(ExitSuccess) <==> state == ShutdownRequested)
  {
  }

  /** A body that is not JSON is answered without consulting the coordinator. */
  method Respond(coordinator: Coordinator, input: Input) returns (action: Action)
    requires !input.BadFrame?
    modifies coordinator
    ensures action == Answer(old(coordinator.lifecycle), input)
    ensures coordinator.lifecycle == if input.Message? then Handled(old(coordinator.lifecycle), input.message).0 else old(coordinator.lifecycle)
    ensures action.exit.Some? <==> Stops(input)
    ensures action.exit.Some? ==> action.response.None? && (action.exit.value == ExitSuccess <==> old(coordinator.lifecycle) == ShutdownRequested)
  {
    if input.NotJson? {
      return Action(Some(Response(Null, Error(PARSE_ERROR))), None);
    }
    OnlyExitEndsTheRun(coordinator.lifecycle, input.message);
    action := coordinator.Handle(input.message);
  }

  /**
    The server loop. `writable` is how many answers the output takes before it fails. Without an output
    failure the run ends at the first framing error or exit notification, or fails at the end of input, and
    has written exactly the answers to everything before that.
   */
  method Run(inputs: seq<Input>, writable: nat) returns (result: ServerResult, output: seq<Response>)
    ensures output <= Answers(inputs, Lifetime(inputs))
    ensures result == OutputFailure <==> |Answers(inputs, Lifetime(inputs))| > writable
    ensures result == OutputFailure ==> |output| == writable
    ensures result != OutputFailure ==> var n := Lifetime(inputs);
      && output == Answers(inputs, n)
      && (result == FrameFailure <==> n < |inputs| && inputs[n].BadFrame?)
      && (result == Exited(ExitSuccess) <==> n < |inputs| && inputs[n].Message? && StateAfter(inputs, n) == ShutdownRequested)
  {
    var coordinator := new Coordinator();
    output := [];
    var i := 0;
    ghost var end := Lifetime(inputs);
    while i < |inputs|
      invariant 0 <= i <= |inputs| && i <= end
      invariant coordinator.lifecycle == StateAfter(inputs, i)
      invariant output == Answers(inputs, i) && |output| <= writable
    {
      if inputs[i].BadFrame? {
        return FrameFailure, output;
      }
      var action := Respond(coordinator, inputs[i]);
      if action.response.Some? {
        if |output| == writable {
          AnswerMissing(inputs, i, end);
          return OutputFailure, output;
        }
        output := output + [action.response.value];
      }
      if action.exit.Some? {
        return Exited(action.exit.value), output;
      }
      i := i + 1;
    }
    result := Exited(ExitFailure);
  }

  /** An answer that cannot be written is missing from what was. */
  lemma AnswerMissing(inputs: seq<Input>, i: nat, end: nat)
    requires i < end <= |inputs| && Answer(StateAfter(inputs, i), inputs[i]).response.Some?
    ensures Answers(inputs, i) <= Answers(inputs, end) && |Answers(inputs, i)| < |Answers(inputs, end)|
  {
    AnswersGrow(inputs, i, end);
    AnswersGrow(inputs, i + 1, end);
  }

  lemma {:induction false} AnswersGrow(inputs: seq<Input>, m: nat, n: nat)
    requires m <= n <= |inputs|
    ensures Answers(inputs, m) <= Answers(inputs, n)
    decreases n - m
  {
    if m < n {
      AnswersGrow(inputs, m, n - 1);
    }
  }

  // ---------- The lifecycle, on messages alone ----------

  predicate InitializeAt(inputs: seq<Input>, i: nat) {
    i < |inputs| && inputs[i].Message? && IsInitialize(inputs[i].message)
  }

  predicate ShutdownAt(inputs: seq<Input>, j: nat) {
    j < |inputs| && inputs[j].Message? && IsShutdown(inputs[j].message)
  }

  ghost predicate InitializedBefore(inputs: seq<Input>, n: nat) {
    exists i: nat :: i < n && InitializeAt(inputs, i)
  }

  ghost predicate ShutDownBefore(inputs: seq<Input>, n: nat) {
    exists i: nat, j: nat :: i < j < n && InitializeAt(inputs, i) && ShutdownAt(inputs, j)
  }

  /** What the state of the coordinator means: which requests have been seen, in which order. */
  lemma {:induction false} StateMeansHistory(inputs: seq<Input>, n: nat)
    requires n <= |inputs|
    ensures StateAfter(inputs, n) == WaitingForInitialize <==> !InitializedBefore(inputs, n)
    ensures StateAfter(inputs, n) == ShutdownRequested <==> ShutDownBefore(inputs, n)
  {
    if n > 0 {
      StateMeansHistory(inputs, n - 1);
      TransitionMeaning(StateAfter(inputs, n - 1), inputs[n - 1]);
      HistoryStep(inputs, n);
    }
  }

  lemma HistoryStep(inputs: seq<Input>, n: nat)
    requires 0 < n <= |inputs|
    ensures InitializedBefore(inputs, n) <==> InitializedBefore(inputs, n - 1) || InitializeAt(inputs, n - 1)
    ensures ShutDownBefore(inputs, n) <==>
      ShutDownBefore(inputs, n - 1) || (InitializedBefore(inputs, n - 1) && ShutdownAt(inputs, n - 1))
  {
    if InitializedBefore(inputs, n - 1) && ShutdownAt(inputs, n - 1) {
      var i: nat :| i < n - 1 && InitializeAt(inputs, i);
      assert i < n - 1 < n && InitializeAt(inputs, i) && ShutdownAt(inputs, n - 1);
    }
    if ShutDownBefore(inputs, n) && !ShutDownBefore(inputs, n - 1) {
      var i: nat, j: nat :| i < j < n && InitializeAt(inputs, i) && ShutdownAt(inputs, j);
      assert j == n - 1;
    }
  }

  lemma TransitionMeaning(state: State, input: Input)
    ensures var next := if input.Message? then Handled(state, input.message).0 else state;
      && (state == WaitingForInitialize ==>
           next == if input.Message? && IsInitialize(input.message) then Running else WaitingForInitialize)
      && (state == Running ==> next == if input.Message? && IsShutdown(input.message) then ShutdownRequested else Running)
      && (state == ShutdownRequested ==> next == ShutdownRequested)
  {
  }

  /**
    The exit status: success exactly when the exit notification that ends the run comes after a shutdown
    request that comes after an initialize request, both acceptable as such.
   */
  lemma SuccessExactlyAfterTheHandshake(inputs: seq<Input>)
    ensures var n := Lifetime(inputs);
      (n < |inputs| && inputs[n].Message? && StateAfter(inputs, n) == ShutdownRequested)
      <==> n < |inputs| && inputs[n].Message? && IsExit(inputs[n].message) && ShutDownBefore(inputs, n)
  {
    StateMeansHistory(inputs, Lifetime(inputs));
  }

  function Rank(state: State): nat {
    match state case WaitingForInitialize => 0 case Running => 1 case ShutdownRequested => 2
  }

  /** Answers that accept a lifecycle request. */
  function Acceptances(inputs: seq<Input>, n: nat): nat
    requires n <= |inputs|
  {
    if n == 0 then 0
    else
      var response := Answer(StateAfter(inputs, n - 1), inputs[n - 1]).response;
      Acceptances(inputs, n - 1) + if response.Some? && !response.value.body.Error? then 1 else 0
  }

  /** Initialize and shutdown are accepted at most once each: the acceptances are the forward moves. */
  lemma {:induction false} AcceptancesAreForwardMoves(inputs: seq<Input>, n: nat)
    requires n <= |inputs|
    ensures Acceptances(inputs, n) == Rank(StateAfter(inputs, n)) <= 2
    ensures n > 0 ==> Rank(StateAfter(inputs, n - 1)) <= Rank(StateAfter(inputs, n)) <= Rank(StateAfter(inputs, n - 1)) + 1
  {
    if n > 0 {
      AcceptancesAreForwardMoves(inputs, n - 1);
    }
  }
}
