/**
  The header and content part of 'Base Protocol' in the Language Server Protocol 3.17 specification,
  as the qualification clients speak it: a sender over a pipe that accepts arbitrary prefixes, a
  buffered receiver fed arbitrary chunks, and a decoder for a complete output.

  `Client.Receive` is proved to be a function of the remaining byte stream only, so the way the
  stream is cut into chunks cannot be observed.
*/
module Frames {
  import opened Wrappers

  type Bytes = seq<Byte>

  const SEPARATOR: Bytes := [RETURN, NEWLINE, RETURN, NEWLINE]
  /** `Content-Length: ` */
  const LABEL: Bytes := [67, 111, 110, 116, 101, 110, 116, 45, 76, 101, 110, 103, 116, 104, 58, 32]
  const RESPONSE_BOUND: nat := 8 * 1024 * 1024

  function Concat(parts: seq<Bytes>): Bytes {
    if parts == [] then [] else parts[0] + Concat(parts[1..])
  }

  // ---------- Decimal numbers ----------

  predicate Digit(b: Byte) { 48 <= b < 58 }

  predicate Digits(b: Bytes) { b != [] && forall d <- b :: Digit(d) }

  function Decimal(n: nat): (digits: Bytes)
    ensures Digits(digits)
  {
    if n < 10 then [48 + n] else Decimal(n / 10) + [48 + n % 10]
  }

  function Value(digits: Bytes): nat
    requires forall d <- digits :: Digit(d)
  {
    if digits == [] then 0
    else
      assert Digit(digits[|digits| - 1]);
      Value(digits[..|digits| - 1]) * 10 + (digits[|digits| - 1] as int - 48)
  }

  lemma {:induction false} ValueInvertsDecimal(n: nat)
    ensures Value(Decimal(n)) == n
  {
    if n >= 10 {
      ValueInvertsDecimal(n / 10);
      assert Decimal(n)[..|Decimal(n)| - 1] == Decimal(n / 10);
    }
  }

  // ---------- The separator ----------

  predicate SeparatorAt(b: Bytes, i: nat) {
    i + 4 <= |b| && b[i..i + 4] == SEPARATOR
  }

  /** `partition`: the first occurrence of the separator. */
  function FindSeparator(b: Bytes): (r: Option<nat>)
    ensures r.Some? ==> SeparatorAt(b, r.value) && forall k: nat :: k < r.value ==> !SeparatorAt(b, k)
    ensures r.None? ==> forall k: nat :: !SeparatorAt(b, k)
  {
    if |b| < 4 then None
    else if SeparatorAt(b, 0) then Some(0)
    else
      var later := FindSeparator(b[1..]);
      assert forall k: nat :: 0 < k && SeparatorAt(b, k) ==> SeparatorAt(b[1..], k - 1) by {
        forall k: nat | 0 < k && SeparatorAt(b, k) ensures SeparatorAt(b[1..], k - 1) {
          assert b[k..k + 4] == b[1..][k - 1..k + 3];
        }
      }
      assert later.Some? ==> b[later.value + 1..later.value + 5] == b[1..][later.value..later.value + 4];
      if later.None? then None else Some(later.value + 1)
  }

  lemma SeparatorAtExtends(b: Bytes, more: Bytes, i: nat)
    requires i + 4 <= |b|
    ensures SeparatorAt(b + more, i) == SeparatorAt(b, i)
  {
    assert (b + more)[i..i + 4] == b[i..i + 4];
  }

  /** The first separator is the only one with none before it. */
  lemma FirstSeparatorIsUnique(b: Bytes, i: nat)
    requires SeparatorAt(b, i) && forall k: nat :: k < i ==> !SeparatorAt(b, k)
    ensures FindSeparator(b) == Some(i)
  {
    var found := FindSeparator(b);
    if found.Some? {
      assert SeparatorAt(b, found.value);
    }
  }

  /** Bytes that arrive later cannot move a separator that has been found. */
  lemma FindSeparatorExtends(b: Bytes, more: Bytes)
    requires FindSeparator(b).Some?
    ensures FindSeparator(b + more) == FindSeparator(b)
  {
    var i := FindSeparator(b).value;
    SeparatorAtExtends(b, more, i);
    forall k: nat | k < i ensures !SeparatorAt(b + more, k) {
      SeparatorAtExtends(b, more, k);
    }
    FirstSeparatorIsUnique(b + more, i);
  }

  // ---------- Frames ----------

  datatype FrameError = InvalidFrame | ExceedsBound

  datatype Parsed = NeedMore | Bad(error: FrameError) | Complete(body: Bytes, rest: Bytes)

  function Frame(body: Bytes): (frame: Bytes)
    ensures |frame| >= 4
  {
    LABEL + Decimal(|body|) + SEPARATOR + body
  }

  function FrameAll(bodies: seq<Bytes>): Bytes {
    if bodies == [] then [] else Frame(bodies[0]) + FrameAll(bodies[1..])
  }

  /** `re.fullmatch(rb"Content-Length: (\d+)", headers)` */
  predicate StrictHeader(header: Bytes) {
    LABEL <= header && Digits(header[|LABEL|..])
  }

  /** What `receive` finds at the front of its buffer. */
  function NextFrame(buffer: Bytes): (r: Parsed)
    ensures r.Complete? ==> |r.rest| < |buffer|
  {
    var i := FindSeparator(buffer);
    if i.None? then NeedMore
    else
      var header, remaining := buffer[..i.value], buffer[i.value + 4..];
      if !StrictHeader(header) then Bad(InvalidFrame)
      else
        var count := Value(header[|LABEL|..]);
        if count > RESPONSE_BOUND then Bad(ExceedsBound)
        else if |remaining| < count then NeedMore
        else Complete(remaining[..count], remaining[count..])
  }

  /** A decision taken on a prefix of the stream is never revised. */
  lemma NextFrameExtends(buffer: Bytes, more: Bytes)
    requires !NextFrame(buffer).NeedMore?
    ensures NextFrame(buffer + more) ==
      match NextFrame(buffer) { case Complete(body, rest) => Complete(body, rest + more) case other => other }
  {
    FindSeparatorExtends(buffer, more);
    var i := FindSeparator(buffer).value;
    assert (buffer + more)[..i] == buffer[..i];
    assert (buffer + more)[i + 4..] == buffer[i + 4..] + more;
    var remaining := buffer[i + 4..];
    if NextFrame(buffer).Complete? {
      var count := Value(buffer[..i][|LABEL|..]);
      assert (remaining + more)[..count] == remaining[..count];
      assert (remaining + more)[count..] == remaining[count..] + more;
    }
  }

  lemma SeparatorFollows(header: Bytes, rest: Bytes)
    requires forall k :: 0 <= k < |header| ==> header[k] != RETURN
    ensures var b := header + SEPARATOR + rest;
      FindSeparator(b) == Some(|header|) && b[..|header|] == header && b[|header| + 4..] == rest
  {
    var b := header + SEPARATOR + rest;
    assert b[|header|..|header| + 4] == SEPARATOR;
    assert SeparatorAt(b, |header|);
    forall k: nat | k < |header| ensures !SeparatorAt(b, k) {
      assert b[k..k + 4][0] == header[k];
    }
  }

  lemma FrameHeader(body: Bytes, more: Bytes)
    ensures var b, header := Frame(body) + more, LABEL + Decimal(|body|);
      && FindSeparator(b) == Some(|header|) && b[..|header|] == header && b[|header| + 4..] == body + more
      && header[|LABEL|..] == Decimal(|body|)
  {
    var header := LABEL + Decimal(|body|);
    assert Frame(body) + more == header + SEPARATOR + (body + more);
    forall k | 0 <= k < |header| ensures header[k] != RETURN {
      assert k >= |LABEL| ==> Digit(Decimal(|body|)[k - |LABEL|]);
    }
    SeparatorFollows(header, body + more);
  }

  /** A sent frame is received exactly when its body respects the bound; nothing in the body matters. */
  lemma NextFrameInvertsFrame(body: Bytes, more: Bytes)
    ensures NextFrame(Frame(body) + more) ==
      if |body| <= RESPONSE_BOUND then Complete(body, more) else Bad(ExceedsBound)
  {
    FrameHeader(body, more);
    ValueInvertsDecimal(|body|);
    assert (body + more)[..|body|] == body && (body + more)[|body|..] == more;
  }

  // ---------- Messages ----------

  datatype Id = NullId | NumberId(number: int) | TextId(text: string)

  /** A decoded message; `id` is absent on notifications. */
  datatype Message = Message(id: Option<Id>, content: Bytes)

  /** The JSON reader, left uninterpreted. */
  type Loads = Bytes -> Option<Message>

  datatype Received =
    | Got(message: Message)
    | Rejected(error: FrameError)
    | NotJson
    | DuplicateResponse
    | UnexpectedResponse
    | Closed

  /** The outcome of one `receive`, the stream left behind, and the identities seen so far. */
  datatype Reception = Reception(result: Received, rest: Bytes, seen: set<Id>)

  /** `receive` on a whole stream: skip notifications until a response or a failure. */
  function Reply(loads: Loads, stream: Bytes, seen: set<Id>, identity: Id): Reception
    decreases |stream|
  {
    match NextFrame(stream)
    case NeedMore => Reception(Closed, stream, seen)
    case Bad(error) => Reception(Rejected(error), stream, seen)
    case Complete(body, rest) =>
      var message := loads(body);
      if message.None? then Reception(NotJson, stream, seen)
      else if message.value.id.None? then Reply(loads, rest, seen, identity)
      else Deliver(message.value, rest, seen, identity)
  }

  /** A response settles the call: each identity once, and only the one asked for. */
  function Deliver(message: Message, rest: Bytes, seen: set<Id>, identity: Id): Reception
    requires message.id.Some?
  {
    var id := message.id.value;
    if id in seen then Reception(DuplicateResponse, rest, seen)
    else if id != identity then Reception(UnexpectedResponse, rest, seen + {id})
    else Reception(Got(message), rest, seen + {id})
  }

  /** What the front of the buffer decides holds for the whole stream. */
  lemma ReplyDecidedByBuffer(loads: Loads, buffer: Bytes, more: Bytes, seen: set<Id>, identity: Id)
    requires !NextFrame(buffer).NeedMore?
    ensures var parsed, reply := NextFrame(buffer), Reply(loads, buffer + more, seen, identity);
      if parsed.Bad? then reply == Reception(Rejected(parsed.error), buffer + more, seen)
      else if loads(parsed.body).None? then reply == Reception(NotJson, buffer + more, seen)
      else if loads(parsed.body).value.id.None? then reply == Reply(loads, parsed.rest + more, seen, identity)
      else reply == Deliver(loads(parsed.body).value, parsed.rest + more, seen, identity)
  {
    NextFrameExtends(buffer, more);
  }

  predicate NonEmpty(chunks: seq<Bytes>) {
    forall i :: 0 <= i < |chunks| ==> chunks[i] != []
  }

  class Client {
    var buffer: Bytes
    var seen: set<Id>
    /** What the remaining reads will return; the child closes its output after them. */
    var chunks: seq<Bytes>

    constructor (chunks: seq<Bytes>)
      ensures buffer == [] && seen == {} && this.chunks == chunks
    {
      buffer, seen, this.chunks := [], {}, chunks;
    }

    /** Every byte the child has produced or will produce that no call has consumed yet. */
    ghost function Stream(): Bytes
      reads this
    {
      buffer + Concat(chunks)
    }

    method Receive(loads: Loads, identity: Id) returns (result: Received)
      requires NonEmpty(chunks)
      modifies this
      ensures NonEmpty(chunks)
      ensures Reception(result, Stream(), seen) == Reply(loads, old(Stream()), old(seen), identity)
    {
      while true
        invariant NonEmpty(chunks)
        invariant Reply(loads, Stream(), seen, identity) == Reply(loads, old(Stream()), old(seen), identity)
        decreases |Stream()|, |chunks|
      {
        var parsed := NextFrame(buffer);
        if parsed.NeedMore? {
          if chunks == [] {
            assert Stream() == buffer;
            return Closed;
          }
          ReadChunk();
        } else {
          ReplyDecidedByBuffer(loads, buffer, Concat(chunks), seen, identity);
          if parsed.Bad? {
            return Rejected(parsed.error);
          }
          var message := loads(parsed.body);
          if message.None? {
            return NotJson;
          }
          buffer := parsed.rest;
          if message.value.id.Some? {
            result := Settle(message.value, identity);
            return;
          }
        }
      }
    }

    method ReadChunk()
      requires chunks != [] && NonEmpty(chunks)
      modifies this`buffer, this`chunks
      ensures Stream() == old(Stream()) && chunks == old(chunks)[1..] && NonEmpty(chunks)
    {
      assert buffer + Concat(chunks) == buffer + chunks[0] + Concat(chunks[1..]);
      buffer := buffer + chunks[0];
      chunks := chunks[1..];
    }

    method Settle(message: Message, identity: Id) returns (result: Received)
      requires message.id.Some?
      modifies this`seen
      ensures Reception(result, Stream(), seen) == Deliver(message, old(Stream()), old(seen), identity)
    {
      var id := message.id.value;
      if id in seen {
        return DuplicateResponse;
      }
      seen := seen + {id};
      result := if id == identity then Got(message) else UnexpectedResponse;
    }
  }

  // ---------- Whole-stream decoding ----------

  /** Every body of a stream of complete frames, as `receive` reads them. */
  function StrictBodies(stream: Bytes): Option<seq<Bytes>>
    decreases |stream|
  {
    if stream == [] then Some([])
    else
      match NextFrame(stream)
      case Complete(body, rest) =>
        var later := StrictBodies(rest);
        if later.None? then None else Some([body] + later.value)
      case _ => None
  }

  predicate LabelAt(header: Bytes, i: nat) {
    i + |LABEL| < |header| && header[i..i + |LABEL|] == LABEL && Digit(header[i + |LABEL|])
  }

  function DigitRun(b: Bytes): (digits: Bytes)
    ensures digits <= b && forall d <- digits :: Digit(d)
    ensures |digits| < |b| ==> !Digit(b[|digits|])
  {
    if b == [] || !Digit(b[0]) then [] else [b[0]] + DigitRun(b[1..])
  }

  /** `re.search(rb"Content-Length: (\d+)", headers)`: the leftmost label with a digit after it. */
  function SearchLength(header: Bytes, from: nat): Option<nat>
    requires from <= |header|
    decreases |header| - from
  {
    if LabelAt(header, from) then Some(Value(DigitRun(header[from + |LABEL|..])))
    else if from == |header| then None
    else SearchLength(header, from + 1)
  }

  datatype WholeError = NoSeparator | NoLength | Truncated | BadBody

  /** The bodies of a whole output. */
  function WholeBodies(output: Bytes): Result<seq<Bytes>, WholeError>
    decreases |output|
  {
    if output == [] then Success([])
    else
      var frame := WholeFrame(output);
      if frame.Failure? then Failure(frame.error) else After([frame.value.0], WholeBodies(frame.value.1))
  }

  /** The first body of an output that is not empty, and what follows it. */
  function WholeFrame(output: Bytes): (r: Result<(Bytes, Bytes), WholeError>)
    ensures r.Success? ==> |r.value.1| < |output|
  {
    var i := FindSeparator(output);
    if i.None? then Failure(NoSeparator)
    else
      var remaining := output[i.value + 4..];
      var count := SearchLength(output[..i.value], 0);
      if count.None? then Failure(NoLength)
      else if |remaining| < count.value then Failure(Truncated)
      else Success((remaining[..count.value], remaining[count.value..]))
  }

  /** The messages of a whole output, up to the first failure of framing or of reading a body. */
  function WholeMessages(loads: Loads, output: Bytes): Result<seq<Message>, WholeError>
    decreases |output|
  {
    if output == [] then Success([])
    else
      var frame := WholeFrame(output);
      if frame.Failure? then Failure(frame.error)
      else if loads(frame.value.0).None? then Failure(BadBody)
      else After([loads(frame.value.0).value], WholeMessages(loads, frame.value.1))
  }

  function After<T>(items: seq<T>, later: Result<seq<T>, WholeError>): Result<seq<T>, WholeError> {
    if later.Failure? then later else Success(items + later.value)
  }

  lemma AfterOne<T>(items: seq<T>, item: T, later: Result<seq<T>, WholeError>)
    ensures After(items, After([item], later)) == After(items + [item], later)
  {
    if later.Success? {
      assert items + ([item] + later.value) == items + [item] + later.value;
    }
  }

  lemma AfterNothing<T>(items: seq<T>, later: Result<seq<T>, WholeError>)
    ensures After([], later) == later && After(items, Success([])) == Success(items)
  {
    assert items + [] == items;
    assert later.Success? ==> [] + later.value == later.value;
  }

  method DecodeWhole(loads: Loads, stdout: Bytes) returns (responses: Result<seq<Message>, WholeError>)
    ensures responses == WholeMessages(loads, stdout)
  {
    var output := stdout;
    var messages: seq<Message> := [];
    AfterNothing([], WholeMessages(loads, stdout));
    while output != []
      invariant After(messages, WholeMessages(loads, output)) == WholeMessages(loads, stdout)
      decreases |output|
    {
      var i := FindSeparator(output);
      if i.None? {
        return Failure(NoSeparator);
      }
      var remaining := output[i.value + 4..];
      var count := SearchLength(output[..i.value], 0);
      if count.None? {
        return Failure(NoLength);
      }
      if |remaining| < count.value {
        return Failure(Truncated);
      }
      var message := loads(remaining[..count.value]);
      if message.None? {
        return Failure(BadBody);
      }
      AfterOne(messages, message.value, WholeMessages(loads, remaining[count.value..]));
      messages := messages + [message.value];
      output := remaining[count.value..];
    }
    AfterNothing(messages, Success([]));
    responses := Success(messages);
  }

  predicate AllLoad(loads: Loads, bodies: seq<Bytes>) {
    forall i :: 0 <= i < |bodies| ==> loads(bodies[i]).Some?
  }

  function Loaded(loads: Loads, bodies: seq<Bytes>): (messages: seq<Message>)
    requires AllLoad(loads, bodies)
  {
    if bodies == [] then [] else [loads(bodies[0]).value] + Loaded(loads, bodies[1..])
  }

  lemma LoadedCons(loads: Loads, body: Bytes, later: seq<Bytes>)
    ensures AllLoad(loads, [body] + later) <==> loads(body).Some? && AllLoad(loads, later)
    ensures AllLoad(loads, [body] + later) ==> Loaded(loads, [body] + later) == [loads(body).value] + Loaded(loads, later)
  {
    var bodies := [body] + later;
    assert bodies[1..] == later && bodies[0] == body;
    assert forall i :: 0 <= i < |later| ==> bodies[i + 1] == later[i];
  }

  /** The messages are the bodies read one by one, if the framing is sound and every body can be read. */
  lemma {:induction false} WholeMessagesAreLoadedBodies(loads: Loads, output: Bytes)
    ensures WholeMessages(loads, output).Success? <==> WholeBodies(output).Success? && AllLoad(loads, WholeBodies(output).value)
    ensures WholeMessages(loads, output).Success? ==>
      WholeMessages(loads, output).value == Loaded(loads, WholeBodies(output).value)
    decreases |output|
  {
    if output != [] && WholeFrame(output).Success? {
      var (body, rest) := WholeFrame(output).value;
      WholeMessagesAreLoadedBodies(loads, rest);
      if WholeBodies(rest).Success? {
        LoadedCons(loads, body, WholeBodies(rest).value);
      }
    }
  }

  lemma {:induction false} DigitRunOfDigits(b: Bytes)
    requires forall d <- b :: Digit(d)
    ensures DigitRun(b) == b
  {
    if b != [] {
      DigitRunOfDigits(b[1..]);
    }
  }

  lemma SearchFindsStrictHeader(header: Bytes)
    requires StrictHeader(header)
    ensures SearchLength(header, 0) == Some(Value(header[|LABEL|..]))
  {
    DigitRunOfDigits(header[|LABEL|..]);
    assert header[0..0 + |LABEL|] == LABEL;
    assert header[|LABEL|] in header[|LABEL|..];
  }

  /** Every frame of an output has exactly the one header and a body within the bound. */
  predicate AllStrict(output: Bytes)
    decreases |output|
  {
    output == [] || (StrictFrame(output) && (WholeFrame(output).Success? ==> AllStrict(WholeFrame(output).value.1)))
  }

  predicate StrictFrame(output: Bytes) {
    var i := FindSeparator(output);
    i.Some? && StrictHeader(output[..i.value]) && Value(output[..i.value][|LABEL|..]) <= RESPONSE_BOUND
  }

  lemma StrictFrameIsNextFrame(output: Bytes)
    ensures NextFrame(output).Complete? <==> StrictFrame(output) && WholeFrame(output).Success?
    ensures NextFrame(output).Complete? ==> WholeFrame(output).value == (NextFrame(output).body, NextFrame(output).rest)
  {
    if StrictFrame(output) {
      SearchFindsStrictHeader(output[..FindSeparator(output).value]);
    }
  }

  /**
    The incremental decoder accepts a stream exactly when the whole-output decoder does and no frame has
    another header field or a body over the bound; then they decode the same bodies.
   */
  lemma {:induction false} DecodersAgreeExactlyWhen(stream: Bytes)
    ensures StrictBodies(stream).Some? <==> WholeBodies(stream).Success? && AllStrict(stream)
    ensures StrictBodies(stream).Some? ==> WholeBodies(stream) == Success(StrictBodies(stream).value)
    decreases |stream|
  {
    if stream != [] {
      StrictFrameIsNextFrame(stream);
      if NextFrame(stream).Complete? {
        DecodersAgreeExactlyWhen(NextFrame(stream).rest);
      }
    }
  }

  /**
    Decoding inverts framing. The incremental decoder accepts a framed sequence exactly when every body
    respects the response bound.
   */
  lemma {:induction false} StrictBodiesInvertsFrameAll(bodies: seq<Bytes>)
    ensures StrictBodies(FrameAll(bodies)).Some? <==> forall body <- bodies :: |body| <= RESPONSE_BOUND
    ensures StrictBodies(FrameAll(bodies)).Some? ==> StrictBodies(FrameAll(bodies)).value == bodies
  {
    if bodies != [] {
      NextFrameInvertsFrame(bodies[0], FrameAll(bodies[1..]));
      StrictBodiesInvertsFrameAll(bodies[1..]);
      assert bodies == [bodies[0]] + bodies[1..];
    }
  }

  /** The whole-output decoder has no bound. */
  lemma {:induction false} WholeBodiesInvertsFrameAll(bodies: seq<Bytes>)
    ensures WholeBodies(FrameAll(bodies)) == Success(bodies)
  {
    if bodies != [] {
      var body, more := bodies[0], FrameAll(bodies[1..]);
      FrameHeader(body, more);
      ValueInvertsDecimal(|body|);
      SearchFindsStrictHeader(LABEL + Decimal(|body|));
      assert (body + more)[..|body|] == body && (body + more)[|body|..] == more;
      WholeBodiesInvertsFrameAll(bodies[1..]);
      assert bodies == [body] + bodies[1..];
    }
  }

  /** On a framed stream `receive` skips exactly the leading notifications and returns the next response. */
  lemma {:induction false} ReplyToFramedStream(loads: Loads, bodies: seq<Bytes>, k: nat, tail: Bytes, seen: set<Id>, identity: Id)
    requires k < |bodies| && forall i :: 0 <= i <= k ==> |bodies[i]| <= RESPONSE_BOUND && loads(bodies[i]).Some?
    requires forall i :: 0 <= i < k ==> loads(bodies[i]).value.id.None?
    requires loads(bodies[k]).value.id == Some(identity) && identity !in seen
    ensures Reply(loads, FrameAll(bodies) + tail, seen, identity) ==
      Reception(Got(loads(bodies[k]).value), FrameAll(bodies[k + 1..]) + tail, seen + {identity})
  {
    var later := bodies[1..];
    assert FrameAll(bodies) + tail == Frame(bodies[0]) + (FrameAll(later) + tail);
    NextFrameInvertsFrame(bodies[0], FrameAll(later) + tail);
    if k > 0 {
      assert forall i :: 0 <= i < k ==> later[i] == bodies[i + 1];
      ReplyToFramedStream(loads, later, k - 1, tail, seen, identity);
      assert later[k..] == bodies[k + 1..];
    }
  }

  // ---------- Successive calls ----------

  /** What successive calls deliver: the messages before the first failure, and that failure. */
  datatype Conversation = Conversation(messages: seq<Message>, failure: Option<Received>, rest: Bytes, seen: set<Id>)

  function ReplyAll(loads: Loads, stream: Bytes, seen: set<Id>, identities: seq<Id>): Conversation
    decreases |identities|
  {
    if identities == [] then Conversation([], None, stream, seen)
    else
      var first := Reply(loads, stream, seen, identities[0]);
      if !first.result.Got? then Conversation([], Some(first.result), first.rest, first.seen)
      else
        var later := ReplyAll(loads, first.rest, first.seen, identities[1..]);
        later.(messages := [first.result.message] + later.messages)
  }

  /** Every message of a stream that the incremental decoder accepts. */
  function StrictMessages(loads: Loads, stream: Bytes): Option<seq<Message>>
    decreases |stream|
  {
    if stream == [] then Some([])
    else
      match NextFrame(stream)
      case Complete(body, rest) => (
        var later := StrictMessages(loads, rest);
        if loads(body).None? || later.None? then None else Some([loads(body).value] + later.value))
      case _ => None
  }

  lemma {:induction false} StrictMessagesAreWholeMessages(loads: Loads, stream: Bytes)
    requires StrictMessages(loads, stream).Some?
    ensures WholeMessages(loads, stream) == Success(StrictMessages(loads, stream).value)
    decreases |stream|
  {
    if stream != [] {
      StrictFrameIsNextFrame(stream);
      StrictMessagesAreWholeMessages(loads, NextFrame(stream).rest);
    }
  }

  function Responses(messages: seq<Message>): (r: seq<Message>)
    ensures forall i :: 0 <= i < |r| ==> r[i].id.Some?
  {
    if messages == [] then []
    else if messages[0].id.Some? then [messages[0]] + Responses(messages[1..])
    else Responses(messages[1..])
  }

  function ResponsesIn(loads: Loads, stream: Bytes): (r: seq<Message>)
    requires StrictMessages(loads, stream).Some?
    ensures forall i :: 0 <= i < |r| ==> r[i].id.Some?
  {
    Responses(StrictMessages(loads, stream).value)
  }

  lemma FirstMessage(loads: Loads, stream: Bytes) returns (message: Message, rest: Bytes)
    requires StrictMessages(loads, stream).Some? && stream != []
    ensures NextFrame(stream).Complete? && loads(NextFrame(stream).body) == Some(message) && NextFrame(stream).rest == rest
    ensures |rest| < |stream| && StrictMessages(loads, rest).Some?
    ensures ResponsesIn(loads, stream) == if message.id.Some? then [message] + ResponsesIn(loads, rest) else ResponsesIn(loads, rest)
  {
    message, rest := loads(NextFrame(stream).body).value, NextFrame(stream).rest;
    var later := StrictMessages(loads, rest).value;
    assert ([message] + later)[1..] == later;
  }

  lemma ReplyStep(loads: Loads, stream: Bytes, seen: set<Id>, identity: Id)
    requires NextFrame(stream).Complete? && loads(NextFrame(stream).body).Some?
    ensures var message, rest := loads(NextFrame(stream).body).value, NextFrame(stream).rest;
      Reply(loads, stream, seen, identity) ==
        if message.id.None? then Reply(loads, rest, seen, identity) else Deliver(message, rest, seen, identity)
  {
  }

  lemma ReplyToNothing(loads: Loads, seen: set<Id>, identity: Id)
    ensures Reply(loads, [], seen, identity).result == Closed
  {
    assert FindSeparator([]).None?;
  }

  /** The reply is the delivery of the first response, and the others are still to come. */
  ghost predicate TakesFirst(loads: Loads, reply: Reception, responses: seq<Message>, seen: set<Id>, identity: Id)
    requires forall i :: 0 <= i < |responses| ==> responses[i].id.Some?
  {
    if responses == [] then reply.result == Closed
    else
      && StrictMessages(loads, reply.rest).Some? && ResponsesIn(loads, reply.rest) == responses[1..]
      && reply == Deliver(responses[0], reply.rest, seen, identity)
  }

  lemma DeliveryTakesFirst(loads: Loads, message: Message, rest: Bytes, seen: set<Id>, identity: Id)
    requires StrictMessages(loads, rest).Some? && message.id.Some?
    ensures TakesFirst(loads, Deliver(message, rest, seen, identity), [message] + ResponsesIn(loads, rest), seen, identity)
  {
    assert ([message] + ResponsesIn(loads, rest))[1..] == ResponsesIn(loads, rest);
  }

  /** One call takes the next response of the stream, wherever it stands. */
  lemma {:induction false} ReplyTakesTheNextResponse(loads: Loads, stream: Bytes, seen: set<Id>, identity: Id)
    requires StrictMessages(loads, stream).Some?
    ensures TakesFirst(loads, Reply(loads, stream, seen, identity), ResponsesIn(loads, stream), seen, identity)
    decreases |stream|
  {
    if stream == [] {
      ReplyToNothing(loads, seen, identity);
    } else {
      var message, rest := FirstMessage(loads, stream);
      ReplyStep(loads, stream, seen, identity);
      if message.id.None? {
        ReplyTakesTheNextResponse(loads, rest, seen, identity);
      } else {
        DeliveryTakesFirst(loads, message, rest, seen, identity);
      }
    }
  }

  /** The identities asked for are those of the first responses, in order, each new. */
  predicate Asked(responses: seq<Message>, seen: set<Id>, identities: seq<Id>)
    requires forall i :: 0 <= i < |responses| ==> responses[i].id.Some?
  {
    identities == []
    || (responses != [] && responses[0].id == Some(identities[0]) && identities[0] !in seen
        && Asked(responses[1..], seen + {identities[0]}, identities[1..]))
  }

  /** A conversation fails exactly when it asks for anything but the responses in order; else it delivers them. */
  predicate Delivers(conversation: Conversation, responses: seq<Message>, seen: set<Id>, identities: seq<Id>)
    requires forall i :: 0 <= i < |responses| ==> responses[i].id.Some?
  {
    && (conversation.failure.None? <==> Asked(responses, seen, identities))
    && (conversation.failure.None? ==> |identities| <= |responses| && conversation.messages == responses[..|identities|])
  }

  lemma DeliversOneMore(later: Conversation, responses: seq<Message>, seen: set<Id>, identities: seq<Id>)
    requires forall i :: 0 <= i < |responses| ==> responses[i].id.Some?
    requires responses != [] && identities != [] && responses[0].id == Some(identities[0]) && identities[0] !in seen
    requires Delivers(later, responses[1..], seen + {identities[0]}, identities[1..])
    ensures Delivers(later.(messages := [responses[0]] + later.messages), responses, seen, identities)
  {
    if later.failure.None? {
      assert responses[..|identities|] == [responses[0]] + responses[1..][..|identities| - 1];
    }
  }

  /**
    Successive calls succeed exactly when they ask for the responses of the stream in their order; they then
    deliver these and skip every notification.
   */
  lemma {:induction false} ConversationDeliversTheResponses(loads: Loads, stream: Bytes, seen: set<Id>, identities: seq<Id>)
    requires StrictMessages(loads, stream).Some?
    ensures Delivers(
      ReplyAll(loads, stream, seen, identities), ResponsesIn(loads, stream), seen, identities)
    decreases |identities|
  {
    if identities != [] {
      var responses, reply := ResponsesIn(loads, stream), Reply(loads, stream, seen, identities[0]);
      ReplyTakesTheNextResponse(loads, stream, seen, identities[0]);
      if reply.result.Got? {
        ConversationDeliversTheResponses(loads, reply.rest, reply.seen, identities[1..]);
        DeliversOneMore(ReplyAll(loads, reply.rest, reply.seen, identities[1..]), responses, seen, identities);
      }
    }
  }

  /** The client asks for one identity after the other, until a call fails. */
  method ReceiveAll(client: Client, loads: Loads, identities: seq<Id>) returns (messages: seq<Message>, failure: Option<Received>)
    requires NonEmpty(client.chunks)
    modifies client
    ensures NonEmpty(client.chunks)
    ensures Conversation(messages, failure, client.Stream(), client.seen)
      == ReplyAll(loads, old(client.Stream()), old(client.seen), identities)
  {
    messages := [];
    ghost var whole := ReplyAll(loads, client.Stream(), client.seen, identities);
    assert identities[0..] == identities && [] + whole.messages == whole.messages;
    for i := 0 to |identities|
      invariant NonEmpty(client.chunks)
      invariant whole == Preceded(messages, ReplyAll(loads, client.Stream(), client.seen, identities[i..]))
    {
      var result := client.Receive(loads, identities[i]);
      if !result.Got? {
        assert messages + [] == messages;
        return messages, Some(result);
      }
      PrecededByOne(messages, result.message, ReplyAll(loads, client.Stream(), client.seen, identities[i + 1..]));
      assert identities[i..][1..] == identities[i + 1..];
      messages := messages + [result.message];
    }
    assert messages + [] == messages;
    failure := None;
  }

  function Preceded(messages: seq<Message>, later: Conversation): Conversation {
    later.(messages := messages + later.messages)
  }

  lemma PrecededByOne(messages: seq<Message>, message: Message, later: Conversation)
    ensures Preceded(messages, Preceded([message], later)) == Preceded(messages + [message], later)
  {
    assert messages + ([message] + later.messages) == messages + [message] + later.messages;
  }

  // ---------- Sending ----------

  /** What the operating system answers to the next write. */
  datatype WriteAnswer = WouldBlock | Accepted(count: nat)

  datatype Sent = Delivered | PeerClosed | TimedOut

  class Pipe {
    /** Everything the peer will read. */
    var written: Bytes
    /** The answers to the coming writes; the deadline passes after them. */
    var answers: seq<WriteAnswer>

    constructor (answers: seq<WriteAnswer>)
      ensures written == [] && this.answers == answers
    {
      written, this.answers := [], answers;
    }

    /** Frames all messages, then writes until everything has been taken. */
    method Send(bodies: seq<Bytes>) returns (sent: Sent)
      modifies this
      ensures sent == Delivered ==> written == old(written) + FrameAll(bodies)
      ensures sent != Delivered ==> old(written) <= written < old(written) + FrameAll(bodies)
      ensures |answers| <= |old(answers)|
      ensures sent == TimedOut ==> answers == []
      ensures sent == PeerClosed ==>
        |answers| < |old(answers)| && old(answers)[|old(answers)| - |answers| - 1] == Accepted(0)
    {
      var data := JoinFrames(bodies);
      sent := WriteAll(data);
    }

    method WriteAll(payload: Bytes) returns (sent: Sent)
      modifies this
      ensures sent == Delivered ==> written == old(written) + payload
      ensures sent != Delivered ==> old(written) <= written < old(written) + payload
      ensures |answers| <= |old(answers)|
      ensures sent == TimedOut ==> answers == []
      ensures sent == PeerClosed ==>
        |answers| < |old(answers)| && old(answers)[|old(answers)| - |answers| - 1] == Accepted(0)
    {
      var data := payload;
      while data != []
        invariant old(written) <= written && written + data == old(written) + payload
        invariant |answers| <= |old(answers)| && answers == old(answers)[|old(answers)| - |answers|..]
        decreases |answers|
      {
        if answers == [] {
          return TimedOut;
        }
        var answer := answers[0];
        answers := answers[1..];
        if answer.Accepted? {
          var count := if answer.count <= |data| then answer.count else |data|;
          if count == 0 {
            return PeerClosed;
          }
          assert written + data == written + data[..count] + data[count..];
          written := written + data[..count];
          data := data[count..];
        }
      }
      sent := Delivered;
    }
  }

  lemma FrameAllFrom(bodies: seq<Bytes>, i: nat, data: Bytes)
    requires i < |bodies|
    ensures data + FrameAll(bodies[i..]) == data + Frame(bodies[i]) + FrameAll(bodies[i + 1..])
  {
    assert bodies[i..][1..] == bodies[i + 1..];
  }

  /** `b"".join(frames)` after framing each message. */
  method JoinFrames(bodies: seq<Bytes>) returns (data: Bytes)
    ensures data == FrameAll(bodies)
  {
    data := [];
    var i := 0;
    while i < |bodies|
      invariant 0 <= i <= |bodies|
      invariant data + FrameAll(bodies[i..]) == FrameAll(bodies)
    {
      FrameAllFrom(bodies, i, data);
      data := data + Frame(bodies[i]);
      i := i + 1;
    }
  }

  /** The two decoders are not equivalent: only the whole-output one ignores other header fields. */
  lemma ExtraHeaderSeparatesTheDecoders()
    ensures var stream: Bytes := [88, 58, 49, RETURN, NEWLINE] + LABEL + [48] + SEPARATOR;
      WholeBodies(stream) == Success([[]]) && NextFrame(stream) == Bad(InvalidFrame)
  {
    var header: Bytes := [88, 58, 49, RETURN, NEWLINE] + LABEL + [48];
    var stream := header + SEPARATOR;
    assert stream[..|header|] == header && stream[|header|..|header| + 4] == SEPARATOR;
    assert SeparatorAt(stream, |header|);
    forall k: nat | k < |header| ensures !SeparatorAt(stream, k) {
      assert stream[k..k + 4][0] == header[k] && stream[k..k + 4][2] == stream[k + 2];
    }
    assert FindSeparator(stream) == Some(|header|);
    assert header[5..5 + |LABEL|] == LABEL;
    forall i: nat | i < 5 ensures !LabelAt(header, i) {
      assert header[i..i + |LABEL|][0] == header[i];
    }
    assert SearchLength(header, 0) == SearchLength(header, 1) == SearchLength(header, 2);
    assert SearchLength(header, 2) == SearchLength(header, 3) == SearchLength(header, 4);
    assert header[5 + |LABEL|..] == [48];
    DigitRunOfDigits([48]);
    assert Value([48]) == Value([]) * 10 + 0;
    assert SearchLength(header, 4) == SearchLength(header, 5) == Some(0);
    var remaining := stream[|header| + 4..];
    assert remaining == [] && remaining[..0] == [] && remaining[0..] == [];
    var bodies: seq<Bytes> := [remaining[..0]];
    assert WholeBodies(remaining[0..]) == Success([]) && bodies + [] == bodies;
  }
}
