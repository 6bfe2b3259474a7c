/**
  The canonical-input editor: physical lines are accumulated while the parser calls the buffer incomplete.

  The parser is an arbitrary deterministic classifier. Input read errors are not modelled.
*/
module RawEditor {
  import opened Wrappers

  /** `matches!(parse_opaal(..), ParseOutcome::Incomplete(_))` */
  type Classifier = string -> bool

  datatype EditorEvent = Submitted(source: string) | EndOfInput

  // ---------- Physical lines ----------

  /** The length of the first physical line, its newline included. */
  function LineLength(input: string): (n: nat)
    ensures n <= |input| && (input != [] ==> n > 0)
    ensures forall k :: 0 <= k < n - 1 ==> input[k] != '\n'
    ensures 0 < n < |input| ==> input[n - 1] == '\n'
  {
    if input == [] then 0
    else if input[0] == '\n' then 1
    else 1 + LineLength(input[1..])
  }

  /** A cut after `n` characters falls between two physical lines of `input`, or at one of its ends. */
  predicate AtLineEnd(input: string, n: nat) {
    n <= |input| && (n == 0 || n == |input| || input[n - 1] == '\n')
  }

  predicate IsLineBreak(c: char) { c == '\n' || c == '\r' }

  /** `trim_end_matches(['\n', '\r'])` */
  function Trimmed(line: string): (t: string)
    ensures t <= line && forall k :: |t| <= k < |line| ==> IsLineBreak(line[k])
    ensures t != [] ==> !IsLineBreak(t[|t| - 1])
  {
    if line != [] && IsLineBreak(line[|line| - 1]) then Trimmed(line[..|line| - 1]) else line
  }

  // ---------- The reference: where a buffer ends ----------

  /** Some complete buffer that ends at a line end, given the first `from` characters are incomplete. */
  predicate Ends(incomplete: Classifier, input: string, n: nat) {
    0 < n && AtLineEnd(input, n) && !incomplete(input[..n])
  }

  /** No nonempty proper line-prefix of the first `n` characters is a complete buffer. */
  ghost predicate NoEarlierEnd(incomplete: Classifier, input: string, n: nat) {
    forall k: nat :: k < n ==> !Ends(incomplete, input, k)
  }

  /** What one call must consume and answer, `n` being the length it takes from the input. */
  ghost predicate Answers(incomplete: Classifier, input: string, n: nat, event: EditorEvent, eof: bool) {
    && AtLineEnd(input, n) && NoEarlierEnd(incomplete, input, n)
    && if Ends(incomplete, input, n) then event == Submitted(Trimmed(input[..n])) && !eof
       else n == |input| && eof && event == if input == [] then EndOfInput else Submitted(input)
  }

  class RawLineEditor {
    var input: string
    var eof: bool

    constructor (input: string)
      ensures this.input == input && !eof
    {
      this.input, eof := input, false;
    }

    /** `BufRead::read_line`: one physical line, or nothing at the end. */
    method TakeLine() returns (line: string)
      modifies this`input
      ensures line == old(input)[..LineLength(old(input))] && old(input) == line + input
    {
      var n := LineLength(input);
      line := input[..n];
      input := input[n..];
    }

    /**
      A call takes the shortest run of whole lines that is not incomplete and submits it without its final
      line breaks; if there is none it submits whatever is left, verbatim, and from then on reports the end.
     */
    method ReadLine(incomplete: Classifier) returns (event: EditorEvent)
      modifies this
      ensures old(eof) ==> event == EndOfInput && eof && input == old(input)
      ensures !old(eof) ==> Consumes(incomplete, old(input), input, event, eof)
    {
      if eof {
        return EndOfInput;
      }
      var line, complete := Accumulate(incomplete);
      if complete {
        event := Submitted(Trimmed(line));
      } else {
        eof := true;
        event := if line == [] then EndOfInput else Submitted(line);
      }
    }

    /** The loop of `ReadLine`: read physical lines until the buffer is complete or the input ends. */
    method Accumulate(incomplete: Classifier) returns (line: string, complete: bool)
      modifies this`input
      ensures complete ==> Consumes(incomplete, old(input), input, Submitted(Trimmed(line)), false)
      ensures !complete ==> Consumes(incomplete, old(input), input, if line == [] then EndOfInput else Submitted(line), true)
    {
      line, complete := [], false;
      var more := TakeLine();
      while more != [] && !complete
        invariant |more| == LineLength(more + input) || complete
        invariant !complete ==> Pending(incomplete, old(input), line, more + input)
        invariant complete ==> Consumes(incomplete, old(input), input, Submitted(Trimmed(line)), false)
        decreases |more + input|, !complete
      {
        LineTaken(incomplete, old(input), line, more, input);
        line := line + more;
        if !incomplete(line) {
          complete := true;
        } else {
          more := TakeLine();
        }
      }
      if !complete {
        assert more + input == [];
        EndAnswers(incomplete, old(input), line);
      }
    }
  }

  /** `after` is what a call leaves of `before`. */
  ghost predicate Consumes(incomplete: Classifier, before: string, after: string, event: EditorEvent, eof: bool) {
    var n := |before| - |after|;
    n >= 0 && after == before[n..] && Answers(incomplete, before, n, event, eof)
  }

  /** The loop state: whole lines so far, none of whose nonempty line-prefixes was complete. */
  ghost predicate Pending(incomplete: Classifier, start: string, line: string, rest: string) {
    && start == line + rest && AtLineEnd(start, |line|)
    && NoEarlierEnd(incomplete, start, |line|) && !Ends(incomplete, start, |line|)
  }

  lemma ExtendPending(incomplete: Classifier, start: string, line: string, more: string, rest: string)
    requires Pending(incomplete, start, line, more + rest) && |more| == LineLength(more + rest) > 0
    ensures var longer := line + more;
      && start == longer + rest && start[..|longer|] == longer && AtLineEnd(start, |longer|)
      && NoEarlierEnd(incomplete, start, |longer|) && (Ends(incomplete, start, |longer|) <==> !incomplete(longer))
  {
    NoLineEndInside(start, line, more + rest);
    assert start == line + more + rest;
    assert start[..|line + more|] == line + more;
    forall k: nat | k < |line + more| ensures !Ends(incomplete, start, k) {
      assert k > |line| ==> !AtLineEnd(start, k);
    }
  }

  lemma CompleteAnswers(incomplete: Classifier, start: string, line: string, rest: string)
    requires start == line + rest && start[..|line|] == line && NoEarlierEnd(incomplete, start, |line|)
    requires Ends(incomplete, start, |line|)
    ensures Consumes(incomplete, start, rest, Submitted(Trimmed(line)), false)
  {
    assert start[|line|..] == rest;
  }

  /** One more physical line settles the call or leaves it pending. */
  lemma LineTaken(incomplete: Classifier, start: string, line: string, more: string, rest: string)
    requires Pending(incomplete, start, line, more + rest) && |more| == LineLength(more + rest) > 0
    ensures if incomplete(line + more) then Pending(incomplete, start, line + more, rest)
      else Consumes(incomplete, start, rest, Submitted(Trimmed(line + more)), false)
  {
    ExtendPending(incomplete, start, line, more, rest);
    if !incomplete(line + more) {
      CompleteAnswers(incomplete, start, line + more, rest);
    }
  }

  lemma EndAnswers(incomplete: Classifier, start: string, line: string)
    requires Pending(incomplete, start, line, [])
    ensures Consumes(incomplete, start, [], if line == [] then EndOfInput else Submitted(line), true)
  {
    assert start == line && start[|start|..] == [];
  }

  lemma NoLineEndInside(start: string, line: string, rest: string)
    requires start == line + rest
    ensures AtLineEnd(start, |line| + LineLength(rest))
    ensures forall k :: |line| < k < |line| + LineLength(rest) ==> !AtLineEnd(start, k)
  {
    var n := LineLength(rest);
    forall k | |line| < k < |line| + n ensures !AtLineEnd(start, k) {
      assert start[k - 1] == rest[k - 1 - |line|];
    }
    if 0 < n < |rest| {
      assert start[|line| + n - 1] == rest[n - 1];
    }
    if rest == [] {
      assert start == line;
    }
  }

  // ---------- A whole session ----------

  /** A session's calls: what each consumed and answered. */
  datatype Call = Call(raw: string, event: EditorEvent)

  function Raw(calls: seq<Call>, n: nat): string
    requires n <= |calls|
  {
    if n == 0 then [] else Raw(calls, n - 1) + calls[n - 1].raw
  }

  /** A submission is its raw lines without a tail of line breaks. */
  predicate Restores(call: Call) {
    match call.event
    case Submitted(source) =>
      source <= call.raw && forall k :: |source| <= k < |call.raw| ==> IsLineBreak(call.raw[k])
    case EndOfInput => call.raw == []
  }

  /** Whole lines, none of whose shorter nonempty line-prefixes was a complete buffer. */
  ghost predicate Minimal(incomplete: Classifier, call: Call) {
    forall k: nat :: 0 < k < |call.raw| && call.raw[k - 1] == '\n' ==> incomplete(call.raw[..k])
  }

  /** Submissions come first, then end of input; only the last submission may be incomplete. */
  predicate Ordered(incomplete: Classifier, calls: seq<Call>) {
    && (forall i, j :: 0 <= i < j < |calls| && calls[i].event.EndOfInput? ==> calls[j].event.EndOfInput?)
    && (forall i, j :: 0 <= i < j < |calls| && calls[i].event.Submitted? && incomplete(calls[i].raw) ==> calls[j].event.EndOfInput?)
  }

  ghost predicate Session(incomplete: Classifier, calls: seq<Call>) {
    && (forall i :: 0 <= i < |calls| ==> Restores(calls[i]) && Minimal(incomplete, calls[i]))
    && (forall i :: 0 <= i < |calls| && calls[i].event.Submitted? ==> calls[i].raw != [])
    && Ordered(incomplete, calls)
  }

  /**
    Any number of calls on one input: the raw pieces and what is still unread partition the input, every
    submission restores its piece, and once the input has ended only the end is reported.
   */
  method RunSession(incomplete: Classifier, text: string, rounds: nat) returns (calls: seq<Call>, rest: string)
    ensures |calls| == rounds && Session(incomplete, calls)
    ensures Raw(calls, |calls|) + rest == text
    ensures rounds > |text| ==> rest == [] && calls[rounds - 1].event == EndOfInput
  {
    var editor := new RawLineEditor(text);
    calls := [];
    while |calls| < rounds
      invariant |calls| <= rounds && Session(incomplete, calls) && Raw(calls, |calls|) + editor.input == text
      invariant Progress(incomplete, text, calls, editor.input, editor.eof)
    {
      ghost var eof := editor.eof;
      var before := editor.input;
      var event := editor.ReadLine(incomplete);
      var call := Call(before[..|before| - |editor.input|], event);
      SessionSnoc(incomplete, text, calls, before, eof, call, editor.input, editor.eof);
      RawIsConserved(calls, call, before, editor.input);
      calls := calls + [call];
    }
    rest := editor.input;
  }

  /** How far a session has come: unread input shrinks with every call until the end has been seen. */
  predicate Progress(incomplete: Classifier, text: string, calls: seq<Call>, input: string, eof: bool) {
    && (eof ==> input == []) && (!eof ==> |calls| + |input| <= |text|)
    && (forall i :: 0 <= i < |calls| && (calls[i].event.EndOfInput? || incomplete(calls[i].raw)) ==> eof)
    && (|calls| > |text| ==> eof && calls[|calls| - 1].event == EndOfInput)
  }

  lemma SessionSnoc(incomplete: Classifier, text: string, calls: seq<Call>, before: string, eof: bool, call: Call, after: string, ended: bool)
    requires Session(incomplete, calls) && Progress(incomplete, text, calls, before, eof)
    requires if eof then call.event == EndOfInput && ended && after == before
      else Consumes(incomplete, before, after, call.event, ended)
    requires |after| <= |before| && call.raw == before[..|before| - |after|]
    ensures Session(incomplete, calls + [call]) && Progress(incomplete, text, calls + [call], after, ended)
    ensures before == call.raw + after
  {
    if !eof {
      AnswerIsACall(incomplete, before, |before| - |after|, call.event, ended);
    }
    var longer := calls + [call];
    assert forall i :: 0 <= i < |calls| ==> longer[i] == calls[i];
  }

  lemma RawIsConserved(calls: seq<Call>, call: Call, before: string, after: string)
    requires before == call.raw + after
    ensures Raw(calls + [call], |calls| + 1) + after == Raw(calls, |calls|) + before
  {
    RawSnoc(calls, call);
    Associative(Raw(calls, |calls|), call.raw, after);
  }

  lemma Associative(a: string, b: string, c: string)
    ensures a + b + c == a + (b + c)
  {
  }

  lemma AnswerIsACall(incomplete: Classifier, input: string, n: nat, event: EditorEvent, eof: bool)
    requires Answers(incomplete, input, n, event, eof)
    ensures var call := Call(input[..n], event);
      && Restores(call) && Minimal(incomplete, call) && (event.Submitted? ==> n > 0) && (eof ==> n == |input|)
      && (!eof ==> event.Submitted? && !incomplete(call.raw))
  {
    var raw := input[..n];
    forall k: nat | 0 < k < n && raw[k - 1] == '\n' ensures incomplete(raw[..k]) {
      assert raw[..k] == input[..k] && AtLineEnd(input, k) && !Ends(incomplete, input, k);
    }
    assert input[..|input|] == input;
  }

  lemma {:induction false} RawAgrees(a: seq<Call>, b: seq<Call>, n: nat)
    requires n <= |a| && n <= |b| && forall i :: 0 <= i < n ==> a[i] == b[i]
    ensures Raw(a, n) == Raw(b, n)
  {
    if n > 0 {
      RawAgrees(a, b, n - 1);
    }
  }

  lemma RawSnoc(calls: seq<Call>, call: Call)
    ensures Raw(calls + [call], |calls| + 1) == Raw(calls, |calls|) + call.raw
  {
    RawAgrees(calls, calls + [call], |calls|);
  }
}
