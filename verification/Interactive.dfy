/**
  The interactive session and its driver against an arbitrary environment.

  The editor, the evaluator and the two output streams are a `Strategy`: each answer is any function of
  everything that happened before. The driver records every interaction in a trace. `Next` says which
  interaction may come in which phase; the driver is proved to produce only such traces, and the
  promises of the session are proved of all of them. Since a session may go on for ever, the loops carry
  a budget and may stop unfinished: the results hold of every finite beginning of every session.
*/
module Interactive {
  import opened Wrappers

  datatype Notice = Notice(id: nat, rendered: string)

  datatype EditorEvent = Submitted(source: string) | Cancelled | EndOfInput | HostCommand | ExternalBreak | ReadFailed

  datatype Evaluation = Continue | Exit(status: nat) | Diagnostic(rendered: string) | ProgramOutputFailed | HostFailed(rendered: string)

  datatype Decision = Permitted | Refused(rendered: string)

  datatype InteractiveExit = InputEnded | Requested(status: nat)

  datatype SessionError =
    | Editor
    | NoticeAcknowledgement
    | ProgramOutput
    | HostFailure(rendered: string)
    | DiagnosticOutput
    | UnsupportedEditorEvent(event: string)

  datatype HostExit = Success | Code(status: nat) | Failure

  /** One interaction together with its answer. */
  datatype Event =
    | PolledNotice(polled: Option<Notice>)
    | WroteNotice(notice: Notice, ok: bool)
    | AcknowledgedNotice(notice: Notice, ok: bool)
    | PolledPrint(polled: Option<Notice>)
    | RequestedAcknowledgement(id: nat)
    | AcknowledgedPrint(notice: Notice, ok: bool)
    | ReadLine(event: EditorEvent)
    | Evaluated(source: string, evaluation: Evaluation)
    | FlushedOutput(ok: bool)
    | AskedExit(decision: Decision)
    | WroteRefusal(rendered: string, ok: bool)
    | WroteDiagnostic(rendered: string, ok: bool)
    | FlushedDiagnostic(ok: bool)
    | CleanedUp(reports: seq<string>)

  /** What the editor may call during a read, with the evaluator's answer. */
  datatype PrintCall = NextPrint(notice: Option<Notice>) | AcknowledgePrint(id: nat, ok: bool)

  /** What the editor does next during a read: it asks for a notice, acknowledges one, or returns. */
  datatype EditorMove = AskNotice | Acknowledge(id: nat) | Return(event: EditorEvent)

  type Trace = seq<Event>

  datatype Strategy = Strategy(
    poll: Trace -> Option<Notice>,
    write: Trace -> bool,
    acknowledge: Trace -> bool,
    edit: Trace -> EditorMove,
    evaluate: Trace -> Evaluation,
    flush: Trace -> bool,
    ask: Trace -> Decision,
    cleanup: Trace -> seq<string>)

  function Concat(parts: seq<string>): string {
    if parts == [] then [] else parts[0] + Concat(parts[1..])
  }

  function Describe(error: SessionError): string {
    match error
    case Editor => "interactive editor failed"
    case NoticeAcknowledgement => "interactive notice acknowledgement failed"
    case ProgramOutput => "interactive command output failed"
    case HostFailure(rendered) => rendered
    case DiagnosticOutput => "interactive diagnostic output failed"
    case UnsupportedEditorEvent(event) => "interactive editor event is not supported: " + event
  }

  /** `render_fatal_report`, without the chains of causes. */
  function FatalReport(reports: seq<string>, error: SessionError): string {
    Concat(reports) + "opaal: " + Describe(error) + "\n"
  }

  /** A host failure keeps its own text and gains a note when the flush fails too. */
  function HostFailureText(rendered: string, flushed: bool): string {
    if flushed then rendered else rendered + "opaal: output flush failure\n"
  }

  // ---------- Phases ----------

  datatype Phase =
    | Polling(leaving: Option<InteractiveExit>)
    | Writing(notice: Notice, leaving: Option<InteractiveExit>)
    | Acknowledging(notice: Notice, leaving: Option<InteractiveExit>)
    | AtPrompt(pending: Option<Notice>)
    | AcknowledgingPrint(notice: Notice)
    | Evaluating(source: string)
    | Flushing(evaluation: Evaluation)
    | Asking(exit: InteractiveExit)
    | Refusing(rendered: string)
    | Diagnosing(rendered: string)
    | FlushingDiagnosis
    | Done(exit: InteractiveExit)
    | Fatal(error: SessionError)
    | Reporting(rendered: string)
    | FlushingReport
    | Closed

  /** The phase after an interaction, absent when the interaction must not happen now. */
  function Next(phase: Phase, e: Event): Option<Phase> {
    match phase
    case Polling(leaving) =>
      if !e.PolledNotice? then None
      else if e.polled.Some? then Some(Writing(e.polled.value, leaving))
      else if leaving.Some? then Some(Done(leaving.value)) else Some(AtPrompt(None))
    case Writing(notice, leaving) =>
      if !e.WroteNotice? || e.notice != notice then None
      else Some(if e.ok then Acknowledging(notice, leaving) else Fatal(Editor))
    case Acknowledging(notice, leaving) =>
      if !e.AcknowledgedNotice? || e.notice != notice then None
      else Some(if e.ok then Polling(leaving) else Fatal(NoticeAcknowledgement))
    case AtPrompt(pending) =>
      if e.PolledPrint? then Some(AtPrompt(if e.polled.Some? then e.polled else pending))
      else if e.RequestedAcknowledgement? then
        Some(if pending.Some? && pending.value.id == e.id then AcknowledgingPrint(pending.value) else AtPrompt(None))
      else if !e.ReadLine? then None
      else
        (match e.event
         case Submitted(source) => Some(Evaluating(source))
         case Cancelled => Some(Polling(None))
         case EndOfInput => Some(Asking(InputEnded))
         case HostCommand => Some(Fatal(UnsupportedEditorEvent("host command")))
         case ExternalBreak => Some(Fatal(UnsupportedEditorEvent("external break")))
         case ReadFailed => Some(Fatal(Editor)))
    case AcknowledgingPrint(notice) =>
      if !e.AcknowledgedPrint? || e.notice != notice then None else Some(AtPrompt(None))
    case Evaluating(source) =>
      if !e.Evaluated? || e.source != source then None
      else Some(if e.evaluation.ProgramOutputFailed? then Fatal(ProgramOutput) else Flushing(e.evaluation))
    case Flushing(evaluation) =>
      if !e.FlushedOutput? then None
      else if evaluation.HostFailed? then Some(Fatal(HostFailure(HostFailureText(evaluation.rendered, e.ok))))
      else if !e.ok then Some(Fatal(ProgramOutput))
      else
        (match evaluation
         case Exit(status) => Some(Asking(Requested(status)))
         case Diagnostic(rendered) => Some(Diagnosing(rendered))
         case _ => Some(Polling(None)))
    case Asking(exit) =>
      if !e.AskedExit? then None
      else Some(if e.decision.Permitted? then Polling(Some(exit)) else Refusing(e.decision.rendered))
    case Refusing(rendered) =>
      if !e.WroteRefusal? || e.rendered != rendered then None
      else Some(if e.ok then Polling(None) else Fatal(Editor))
    case Diagnosing(rendered) =>
      if !e.WroteDiagnostic? || e.rendered != rendered then None
      else Some(if e.ok then FlushingDiagnosis else Fatal(DiagnosticOutput))
    case FlushingDiagnosis =>
      if !e.FlushedDiagnostic? then None
      else Some(if e.ok then Polling(None) else Fatal(DiagnosticOutput))
    case Fatal(error) =>
      if !e.CleanedUp? then None
      else Some(if error.DiagnosticOutput? then Closed else Reporting(FatalReport(e.reports, error)))
    case Reporting(rendered) =>
      if !e.WroteDiagnostic? || e.rendered != rendered then None
      else Some(if e.ok then FlushingReport else Closed)
    case FlushingReport =>
      if !e.FlushedDiagnostic? then None else Some(Closed)
    case Done(_) => None
    case Closed => None
  }

  /** The phase reached by a whole trace, absent when some interaction came out of turn. */
  function Reached(trace: Trace): Option<Phase> {
    if trace == [] then Some(Polling(None))
    else
      var before := Reached(trace[..|trace| - 1]);
      if before.None? then None else Next(before.value, trace[|trace| - 1])
  }

  lemma ReachedSnoc(trace: Trace, e: Event)
    ensures Reached(trace + [e]) == if Reached(trace).None? then None else Next(Reached(trace).value, e)
  {
    assert (trace + [e])[..|trace|] == trace;
  }

  /** The answer in `e` is the one the environment gives at this point. */
  predicate Genuine(environment: Strategy, before: Trace, e: Event) {
    match e
    case PolledNotice(notice) => notice == environment.poll(before)
    case WroteNotice(_, ok) => ok == environment.write(before)
    case AcknowledgedNotice(_, ok) => ok == environment.acknowledge(before)
    case PolledPrint(notice) => environment.edit(before) == AskNotice && notice == environment.poll(before)
    case RequestedAcknowledgement(id) => environment.edit(before) == Acknowledge(id)
    case AcknowledgedPrint(_, ok) => ok == environment.acknowledge(before)
    case ReadLine(event) => environment.edit(before) == Return(event)
    case Evaluated(_, evaluation) => evaluation == environment.evaluate(before)
    case FlushedOutput(ok) => ok == environment.flush(before)
    case AskedExit(decision) => decision == environment.ask(before)
    case WroteRefusal(_, ok) => ok == environment.write(before)
    case WroteDiagnostic(_, ok) => ok == environment.write(before)
    case FlushedDiagnostic(ok) => ok == environment.flush(before)
    case CleanedUp(reports) => reports == environment.cleanup(before)
  }

  /** A run: interactions in turn, answered by the environment. */
  ghost predicate IsRun(environment: Strategy, trace: Trace) {
    forall n :: 0 <= n < |trace| ==> IsStep(environment, trace, n)
  }

  predicate IsStep(environment: Strategy, trace: Trace, n: nat)
    requires n < |trace|
  {
    Genuine(environment, trace[..n], trace[n]) && Reached(trace[..n + 1]).Some?
  }

  lemma IsRunSnoc(environment: Strategy, trace: Trace, e: Event)
    requires IsRun(environment, trace) && Genuine(environment, trace, e) && Reached(trace + [e]).Some?
    ensures IsRun(environment, trace + [e])
  {
    var longer := trace + [e];
    forall n | 0 <= n < |longer|
      ensures IsStep(environment, longer, n)
    {
      assert longer[..n] == if n < |trace| then trace[..n] else trace;
      assert longer[..n + 1] == if n < |trace| then trace[..n + 1] else longer;
      assert n < |trace| ==> IsStep(environment, trace, n);
    }
  }

  lemma IsRunPrefix(environment: Strategy, trace: Trace, k: nat)
    requires IsRun(environment, trace) && k <= |trace|
    ensures IsRun(environment, trace[..k])
  {
    forall n | 0 <= n < k
      ensures IsStep(environment, trace[..k], n)
    {
      assert IsStep(environment, trace, n);
      assert trace[..k][..n] == trace[..n] && trace[..k][..n + 1] == trace[..n + 1];
    }
  }

  /** The last step of a run. */
  lemma LastStep(environment: Strategy, trace: Trace)
    requires IsRun(environment, trace) && trace != []
    ensures Genuine(environment, trace[..|trace| - 1], trace[|trace| - 1]) && Reached(trace).Some?
  {
    assert IsStep(environment, trace, |trace| - 1);
    assert trace[..|trace|] == trace;
  }

  /** An environment has only one run: of two, one is the beginning of the other. */
  lemma {:induction false} RunsAreDetermined(environment: Strategy, a: Trace, b: Trace)
    requires IsRun(environment, a) && IsRun(environment, b) && |a| <= |b|
    ensures a == b[..|a|]
    decreases |a| + |b|
  {
    if |a| < |b| {
      var front := b[..|b| - 1];
      IsRunPrefix(environment, b, |b| - 1);
      RunsAreDetermined(environment, a, front);
      assert front[..|a|] == b[..|a|];
    } else if a != [] {
      IsRunPrefix(environment, a, |a| - 1);
      IsRunPrefix(environment, b, |b| - 1);
      RunsAreDetermined(environment, a[..|a| - 1], b[..|b| - 1]);
      LastStep(environment, a);
      LastStep(environment, b);
      assert b[..|b| - 1][..|a| - 1] == b[..|a| - 1];
      LastIsDetermined(environment, a, b);
    }
  }

  lemma LastIsDetermined(environment: Strategy, a: Trace, b: Trace)
    requires |a| == |b| > 0 && a[..|a| - 1] == b[..|a| - 1]
    requires Reached(a).Some? && Reached(b).Some?
    requires Genuine(environment, a[..|a| - 1], a[|a| - 1]) && Genuine(environment, b[..|b| - 1], b[|b| - 1])
    ensures a == b[..|a|]
  {
    var phase := PhaseBefore(a);
    var same := PhaseBefore(b);
    NextIsDetermined(environment, a[..|a| - 1], phase, a[|a| - 1], b[|b| - 1]);
    SameLast(a, b);
  }

  lemma SameLast(a: Trace, b: Trace)
    requires |a| == |b| > 0 && a[..|a| - 1] == b[..|a| - 1] && a[|a| - 1] == b[|b| - 1]
    ensures a == b[..|a|]
  {
    assert a == a[..|a| - 1] + [a[|a| - 1]] && b == b[..|a| - 1] + [b[|a| - 1]];
  }

  lemma PhaseBefore(trace: Trace) returns (phase: Phase)
    requires trace != [] && Reached(trace).Some?
    ensures Reached(trace[..|trace| - 1]) == Some(phase) && Next(phase, trace[|trace| - 1]).Some?
  {
    LastInteraction(trace);
    phase := Reached(trace[..|trace| - 1]).value;
  }

  lemma NextIsDetermined(environment: Strategy, before: Trace, phase: Phase, d: Event, e: Event)
    requires Genuine(environment, before, d) && Genuine(environment, before, e)
    requires Next(phase, d).Some? && Next(phase, e).Some?
    ensures d == e
  {
  }

  // ---------- Evaluators with a queue ----------

  /** Interactions that only look at a queue of notices. */
  predicate Keeps(e: Event) { e.PolledNotice? || e.WroteNotice? || e.PolledPrint? || e.RequestedAcknowledgement? }

  /** Successful acknowledgements, at the prompt boundary or of an external print. */
  predicate Removes(e: Event) { (e.AcknowledgedNotice? || e.AcknowledgedPrint?) && e.ok }

  /**
    The evaluator hands out the front of a queue, keeps it while the notice is shown and removes it when the
    notice is acknowledged. Evaluations may add notices.
   */
  ghost predicate Dequeues(environment: Strategy, queue: Trace -> seq<Notice>) {
    && (forall t: Trace :: environment.poll(t) == if queue(t) == [] then None else Some(queue(t)[0]))
    && (forall t: Trace, e: Event {:trigger queue(t + [e])} :: Keeps(e) ==> queue(t + [e]) == queue(t))
    && (forall t: Trace, e: Event {:trigger queue(t + [e])} :: Removes(e) && queue(t) != [] ==> queue(t + [e]) == queue(t)[1..])
  }

  function ShowingOne(notice: Notice): Trace {
    [PolledNotice(Some(notice)), WroteNotice(notice, true), AcknowledgedNotice(notice, true)]
  }

  /** Showing some notices, each polled, written and acknowledged, in order. */
  function Showing(notices: seq<Notice>): Trace {
    if notices == [] then [] else Showing(notices[..|notices| - 1]) + ShowingOne(notices[|notices| - 1])
  }

  /** The drain that began at `start` has shown the first `k` notices of the queue. */
  ghost predicate Shown(queue: Trace -> seq<Notice>, start: Trace, trace: Trace, k: nat) {
    && k <= |queue(start)| && trace == start + Showing(queue(start)[..k])
    && queue(trace) == queue(start)[k..]
  }

  lemma ShownAtStart(queue: Trace -> seq<Notice>, start: Trace)
    ensures Shown(queue, start, start, 0)
  {
    assert queue(start)[..0] == [] && start + [] == start && queue(start)[0..] == queue(start);
  }

  lemma ShownOneMore(environment: Strategy, queue: Trace -> seq<Notice>, start: Trace, trace: Trace, k: nat)
    requires Dequeues(environment, queue) && Shown(queue, start, trace, k) && queue(trace) != []
    ensures Shown(queue, start, trace + ShowingOne(queue(trace)[0]), k + 1)
  {
    var notice, all := queue(trace)[0], queue(start);
    var polled := trace + [PolledNotice(Some(notice))];
    var written := polled + [WroteNotice(notice, true)];
    var acknowledged := written + [AcknowledgedNotice(notice, true)];
    assert acknowledged == trace + ShowingOne(notice);
    assert queue(polled) == queue(trace) && queue(written) == queue(trace) && queue(acknowledged) == queue(trace)[1..];
    assert all[..k + 1][..k] == all[..k] && all[k] == notice;
    assert start + Showing(all[..k]) + ShowingOne(notice) == start + (Showing(all[..k]) + ShowingOne(notice));
  }

  /** The queue that starts as `initial` and loses its front with every acknowledgement. */
  function Remaining(initial: seq<Notice>, trace: Trace): seq<Notice> {
    if trace == [] then initial
    else
      var before := Remaining(initial, trace[..|trace| - 1]);
      var last := trace[|trace| - 1];
      if before != [] && Removes(last) then before[1..] else before
  }

  /** Such evaluators exist: the one that only ever holds the notices it started with. */
  lemma QueueDequeues(environment: Strategy, initial: seq<Notice>)
    requires forall t: Trace :: environment.poll(t) == if Remaining(initial, t) == [] then None else Some(Remaining(initial, t)[0])
    ensures Dequeues(environment, t => Remaining(initial, t))
  {
    forall t: Trace, e: Event
      ensures Remaining(initial, t + [e]) ==
        if Remaining(initial, t) != [] && Removes(e) then Remaining(initial, t)[1..] else Remaining(initial, t)
    {
      assert (t + [e])[..|t|] == t;
    }
  }

  // ---------- The driver ----------

  /** What a request to acknowledge adds: the request, and the evaluator's answer when the pending notice is meant. */
  function AfterRequest(environment: Strategy, trace: Trace, pending: Option<Notice>, id: nat): Trace {
    var asked := trace + [RequestedAcknowledgement(id)];
    if pending.Some? && pending.value.id == id then asked + [AcknowledgedPrint(pending.value, environment.acknowledge(asked))]
    else asked
  }

  /** Where an empty poll leads: to the prompt, or out of a session that was permitted to end. */
  function AfterDrain(leaving: Option<InteractiveExit>): Phase {
    if leaving.Some? then Done(leaving.value) else AtPrompt(None)
  }

  datatype Outcome = Ended(exit: InteractiveExit) | Failed(error: SessionError) | Unfinished

  class Session {
    const environment: Strategy
    var trace: Trace

    constructor (environment: Strategy)
      ensures trace == [] && this.environment == environment
    {
      this.environment, trace := environment, [];
    }

    method Record(e: Event)
      requires IsRun(environment, trace) && Genuine(environment, trace, e)
      requires Reached(trace).Some? && Next(Reached(trace).value, e).Some?
      modifies this
      ensures trace == old(trace) + [e] && IsRun(environment, trace)
      ensures Reached(trace) == Next(Reached(old(trace)).value, e)
    {
      ReachedSnoc(trace, e);
      IsRunSnoc(environment, trace, e);
      trace := trace + [e];
    }

    method ShowNotice(notice: Notice, ghost leaving: Option<InteractiveExit>) returns (outcome: Option<Outcome>)
      requires IsRun(environment, trace) && Reached(trace) == Some(Writing(notice, leaving))
      modifies this
      ensures IsRun(environment, trace) && |old(trace)| <= |trace|
      ensures outcome.None? ==> Reached(trace) == Some(Polling(leaving))
      ensures outcome.None? ==> trace == old(trace) + [WroteNotice(notice, true), AcknowledgedNotice(notice, true)]
      ensures outcome.Some? ==> outcome.value.Failed? && Reached(trace) == Some(Fatal(outcome.value.error))
    {
      var written := environment.write(trace);
      Record(WroteNotice(notice, written));
      if !written {
        return Some(Failed(Editor));
      }
      var acknowledged := environment.acknowledge(trace);
      Record(AcknowledgedNotice(notice, acknowledged));
      outcome := if acknowledged then None else Some(Failed(NoticeAcknowledgement));
    }

    /**
      Write and acknowledge every notice the evaluator holds. With an evaluator whose acknowledgements dequeue,
      the drain ends as soon as the budget covers the queue, and has then shown exactly the queue, in order.
     */
    method RenderPendingNotices(budget: nat, ghost leaving: Option<InteractiveExit>, ghost queue: Trace -> seq<Notice>)
      returns (outcome: Option<Outcome>)
      requires IsRun(environment, trace) && Reached(trace) == Some(Polling(leaving))
      modifies this
      ensures IsRun(environment, trace) && |old(trace)| <= |trace|
      ensures outcome.None? ==> Reached(trace) == Some(AfterDrain(leaving))
      ensures outcome.Some? ==> !outcome.value.Ended?
      ensures outcome.Some? && outcome.value.Failed? ==> Reached(trace) == Some(Fatal(outcome.value.error))
      ensures outcome.Some? && outcome.value.Unfinished? ==> |trace| >= |old(trace)| + budget && Reached(trace).Some?
      ensures Dequeues(environment, queue) && |queue(old(trace))| < budget ==> outcome != Some(Unfinished)
      ensures Dequeues(environment, queue) && outcome.None? ==>
        trace == old(trace) + Showing(queue(old(trace))) + [PolledNotice(None)]
    {
      var left := budget;
      ghost var start, dequeues := trace, Dequeues(environment, queue);
      ShownAtStart(queue, start);
      var empty := false;
      outcome := None;
      while left > 0 && !empty && outcome.None?
        invariant IsRun(environment, trace) && |trace| >= |start| && left <= budget
        invariant outcome.Some? ==> outcome.value.Failed? && Reached(trace) == Some(Fatal(outcome.value.error))
        invariant outcome.None? ==> Reached(trace) == Some(if empty then AfterDrain(leaving) else Polling(leaving))
        invariant outcome.None? && !empty ==> |trace| >= |start| + budget - left && (dequeues ==> Shown(queue, start, trace, budget - left))
        invariant empty && dequeues ==> trace == start + Showing(queue(start)) + [PolledNotice(None)]
      {
        empty, outcome := ShowNext(leaving, queue, start, budget - left, dequeues);
        left := left - 1;
      }
      if !empty && outcome.None? {
        outcome := Some(Unfinished);
      }
    }

    /** One turn of the drain. */
    method ShowNext(ghost leaving: Option<InteractiveExit>, ghost queue: Trace -> seq<Notice>, ghost start: Trace, ghost k: nat, ghost dequeues: bool)
      returns (empty: bool, outcome: Option<Outcome>)
      requires IsRun(environment, trace) && Reached(trace) == Some(Polling(leaving))
      requires dequeues ==> Dequeues(environment, queue) && Shown(queue, start, trace, k)
      modifies this
      ensures IsRun(environment, trace) && |trace| > |old(trace)|
      ensures empty ==> outcome.None? && Reached(trace) == Some(AfterDrain(leaving))
      ensures empty && dequeues ==> trace == start + Showing(queue(start)) + [PolledNotice(None)]
      ensures !empty && outcome.None? ==> Reached(trace) == Some(Polling(leaving))
      ensures !empty && outcome.None? && dequeues ==> Shown(queue, start, trace, k + 1)
      ensures outcome.Some? ==> outcome.value.Failed? && Reached(trace) == Some(Fatal(outcome.value.error))
    {
      var notice := environment.poll(trace);
      ghost var before := trace;
      Record(PolledNotice(notice));
      if notice.None? {
        assert dequeues ==> queue(start)[..k] == queue(start);
        return true, None;
      }
      outcome := ShowNotice(notice.value, leaving);
      empty := false;
      if outcome.None? && dequeues {
        assert trace == before + ShowingOne(notice.value);
        ShownOneMore(environment, queue, start, before, k);
      }
    }

    /** Ask whether the session may end; a refusal is shown and the session goes on (`None`). */
    method RequestExit(exit: InteractiveExit, budget: nat) returns (outcome: Option<Outcome>)
      requires IsRun(environment, trace) && Reached(trace) == Some(Asking(exit))
      modifies this
      ensures IsRun(environment, trace) && |old(trace)| <= |trace|
      ensures outcome.None? ==> Reached(trace) == Some(Polling(None))
      ensures outcome.Some? ==> Describes(outcome.value)
      ensures outcome == Some(Unfinished) ==> |trace| >= |old(trace)| + budget
    {
      var decision := environment.ask(trace);
      Record(AskedExit(decision));
      match decision {
        case Permitted =>
          var drained := RenderPendingNotices(budget, Some(exit), _ => []);
          return if drained.Some? then drained else Some(Ended(exit));
        case Refused(rendered) =>
          var written := environment.write(trace);
          Record(WroteRefusal(rendered, written));
          return if written then None else Some(Failed(Editor));
      }
    }

    /** The phase a finished session is in. */
    predicate Describes(outcome: Outcome)
      reads this
    {
      match outcome
      case Ended(exit) => Reached(trace) == Some(Done(exit))
      case Failed(error) => Reached(trace) == Some(Fatal(error))
      case Unfinished => Reached(trace).Some?
    }

    method HandleSubmission(source: string, budget: nat) returns (outcome: Option<Outcome>)
      requires IsRun(environment, trace) && Reached(trace) == Some(Evaluating(source))
      modifies this
      ensures IsRun(environment, trace) && |old(trace)| <= |trace|
      ensures outcome.None? ==> Reached(trace) == Some(Polling(None))
      ensures outcome.Some? ==> Describes(outcome.value)
      ensures outcome == Some(Unfinished) ==> |trace| >= |old(trace)| + budget
    {
      var evaluation := environment.evaluate(trace);
      Record(Evaluated(source, evaluation));
      if evaluation.ProgramOutputFailed? {
        return Some(Failed(ProgramOutput));
      }
      var flushed := environment.flush(trace);
      Record(FlushedOutput(flushed));
      if evaluation.HostFailed? {
        return Some(Failed(HostFailure(HostFailureText(evaluation.rendered, flushed))));
      }
      if !flushed {
        return Some(Failed(ProgramOutput));
      }
      if evaluation.Exit? {
        outcome := RequestExit(Requested(evaluation.status), budget);
      } else if evaluation.Diagnostic? {
        outcome := ShowDiagnostic(evaluation.rendered);
      } else {
        outcome := None;
      }
    }

    method ShowDiagnostic(rendered: string) returns (outcome: Option<Outcome>)
      requires IsRun(environment, trace) && Reached(trace) == Some(Diagnosing(rendered))
      modifies this
      ensures IsRun(environment, trace) && |old(trace)| <= |trace|
      ensures outcome.None? ==> Reached(trace) == Some(Polling(None))
      ensures outcome.Some? ==> Describes(outcome.value)
      ensures outcome != Some(Unfinished)
    {
      var written := environment.write(trace);
      Record(WroteDiagnostic(rendered, written));
      if !written {
        return Some(Failed(DiagnosticOutput));
      }
      var flushed := environment.flush(trace);
      Record(FlushedDiagnostic(flushed));
      outcome := if flushed then None else Some(Failed(DiagnosticOutput));
    }

    method HandleEvent(event: EditorEvent, budget: nat) returns (outcome: Option<Outcome>)
      requires IsRun(environment, trace) && Reached(trace).Some? && Next(AtPrompt(None), ReadLine(event)) == Reached(trace)
      modifies this
      ensures IsRun(environment, trace) && |old(trace)| <= |trace|
      ensures outcome.None? ==> Reached(trace) == Some(Polling(None))
      ensures outcome.Some? ==> Describes(outcome.value)
      ensures outcome == Some(Unfinished) ==> |trace| >= |old(trace)| + budget
    {
      match event {
        case Submitted(source) => outcome := HandleSubmission(source, budget);
        case Cancelled => outcome := None;
        case EndOfInput => outcome := RequestExit(InputEnded, budget);
        case HostCommand => outcome := Some(Failed(UnsupportedEditorEvent("host command")));
        case ExternalBreak => outcome := Some(Failed(UnsupportedEditorEvent("external break")));
        case ReadFailed => outcome := Some(Failed(Editor));
      }
    }

    /** The editor's request reaches the evaluator only for the pending notice. */
    method AcknowledgeOnRequest(events: EvaluatorEditorEvents, id: nat)
      requires IsRun(environment, trace) && Reached(trace) == Some(AtPrompt(events.pending))
      requires environment.edit(trace) == Acknowledge(id)
      modifies this, events
      ensures IsRun(environment, trace) && Reached(trace) == Some(AtPrompt(events.pending)) && events.pending.None?
      ensures trace == AfterRequest(environment, old(trace), old(events.pending), id)
    {
      Record(RequestedAcknowledgement(id));
      var answer := false;
      if events.pending.Some? && events.pending.value.id == id {
        answer := environment.acknowledge(trace);
        Record(AcknowledgedPrint(events.pending.value, answer));
      }
      var acknowledged := events.AcknowledgeExternalPrint(id, answer);
    }

    /** One read: the editor may ask for and acknowledge external prints until it returns. */
    method ReadWithEvents(budget: nat) returns (event: Option<EditorEvent>)
      requires IsRun(environment, trace) && Reached(trace) == Some(AtPrompt(None))
      modifies this
      ensures IsRun(environment, trace) && |old(trace)| <= |trace|
      ensures event.Some? ==> Reached(trace).Some? && Next(AtPrompt(None), ReadLine(event.value)) == Reached(trace)
      ensures event.Some? ==> |trace| > |old(trace)|
      ensures event.None? ==> Reached(trace).Some? && |trace| >= |old(trace)| + budget
    {
      var events := new EvaluatorEditorEvents();
      var left := budget;
      while left > 0
        invariant IsRun(environment, trace) && Reached(trace) == Some(AtPrompt(events.pending))
        invariant |trace| >= |old(trace)| + budget - left && fresh(events)
      {
        var move := environment.edit(trace);
        if move.Return? {
          Record(ReadLine(move.event));
          return Some(move.event);
        }
        if move.AskNotice? {
          var notice := environment.poll(trace);
          Record(PolledPrint(notice));
          var handed := events.NextExternalPrint(notice);
        } else {
          AcknowledgeOnRequest(events, move.id);
        }
        left := left - 1;
      }
      event := None;
    }

    method RunSession(rounds: nat, budget: nat) returns (outcome: Outcome)
      requires trace == []
      modifies this
      ensures IsRun(environment, trace)
      ensures Describes(outcome)
      ensures outcome.Unfinished? ==> |trace| >= rounds || |trace| >= budget
    {
      var left := rounds;
      while left > 0
        invariant IsRun(environment, trace) && Reached(trace) == Some(Polling(None)) && |trace| >= rounds - left
      {
        var drained := RenderPendingNotices(budget, None, _ => []);
        if drained.Some? {
          return drained.value;
        }
        var event := ReadWithEvents(budget);
        if event.None? {
          return Unfinished;
        }
        var handled := HandleEvent(event.value, budget);
        if handled.Some? {
          return handled.value;
        }
        left := left - 1;
      }
      outcome := Unfinished;
    }

    /**
      A normal end becomes its status; a failure is cleaned up, reported if possible, and becomes status 1.
      Without a status the run is at least as long as the budget, so every finite beginning is covered.
     */
    method RunDriver(rounds: nat, budget: nat) returns (status: Option<HostExit>)
      requires trace == []
      modifies this
      ensures IsRun(environment, trace)
      ensures status.None? ==> |trace| >= rounds || |trace| >= budget
      ensures status == Some(HostExit.Success) ==> Reached(trace) == Some(Done(InputEnded))
      ensures status.Some? && status.value.Code? ==> Reached(trace) == Some(Done(Requested(status.value.status)))
      ensures status == Some(HostExit.Failure) ==> Reached(trace) == Some(Closed)
    {
      var outcome := RunSession(rounds, budget);
      match outcome {
        case Unfinished => status := None;
        case Ended(exit) => status := Some(if exit.InputEnded? then HostExit.Success else Code(exit.status));
        case Failed(error) =>
          var reports := environment.cleanup(trace);
          Record(CleanedUp(reports));
          if error != DiagnosticOutput {
            WriteRequired(FatalReport(reports, error));
          }
          status := Some(HostExit.Failure);
      }
    }

    method FlushReport()
      requires IsRun(environment, trace) && Reached(trace) == Some(FlushingReport)
      modifies this
      ensures IsRun(environment, trace) && Reached(trace) == Some(Closed)
    {
      var flushed := environment.flush(trace);
      Record(FlushedDiagnostic(flushed));
    }

    /** Write then flush; the result is ignored. */
    method WriteRequired(rendered: string)
      requires IsRun(environment, trace) && Reached(trace) == Some(Reporting(rendered))
      modifies this
      ensures IsRun(environment, trace) && Reached(trace) == Some(Closed)
    {
      var written := environment.write(trace);
      Record(WroteDiagnostic(rendered, written));
      if written {
        FlushReport();
      }
    }
  }

  // ---------- What every trace keeps ----------

  lemma {:induction false} PrefixesAreReached(trace: Trace, n: nat)
    requires Reached(trace).Some? && n <= |trace|
    ensures Reached(trace[..n]).Some?
    ensures n < |trace| ==> Next(Reached(trace[..n]).value, trace[n]) == Reached(trace[..n + 1])
  {
    if n < |trace| - 1 {
      PrefixesAreReached(trace[..|trace| - 1], n);
      assert trace[..|trace| - 1][..n] == trace[..n] && trace[..|trace| - 1][..n + 1] == trace[..n + 1];
    } else {
      assert trace[..|trace|] == trace;
    }
  }

  /** How the last interaction led to the phase of a trace. */
  lemma LastInteraction(trace: Trace)
    requires trace != [] && Reached(trace).Some?
    ensures var front := trace[..|trace| - 1];
      Reached(front).Some? && Next(Reached(front).value, trace[|trace| - 1]) == Reached(trace)
  {
  }

  /** The phase before the `n`-th interaction of a trace, and the step it took. */
  lemma CameFrom(trace: Trace, n: nat) returns (before: Phase)
    requires Reached(trace).Some? && 0 < n <= |trace|
    ensures Reached(trace[..n - 1]) == Some(before) && Reached(trace[..n]).Some?
    ensures Next(before, trace[n - 1]) == Reached(trace[..n])
  {
    PrefixesAreReached(trace, n - 1);
    PrefixesAreReached(trace, n);
    before := Reached(trace[..n - 1]).value;
  }

  lemma IntoAcknowledging(before: Phase, e: Event, notice: Notice, leaving: Option<InteractiveExit>)
    requires Next(before, e) == Some(Acknowledging(notice, leaving))
    ensures before == Writing(notice, leaving) && e == WroteNotice(notice, true)
  {
  }

  lemma IntoWriting(before: Phase, e: Event, notice: Notice, leaving: Option<InteractiveExit>)
    requires Next(before, e) == Some(Writing(notice, leaving))
    ensures before == Polling(leaving) && e == PolledNotice(Some(notice))
  {
  }

  lemma IntoAsking(before: Phase, e: Event, exit: InteractiveExit)
    requires Next(before, e) == Some(Asking(exit))
    ensures exit.InputEnded? ==> e == ReadLine(EndOfInput)
    ensures exit.Requested? ==> before == Flushing(Exit(exit.status)) && e == FlushedOutput(true)
  {
  }

  lemma IntoFlushing(before: Phase, e: Event, evaluation: Evaluation)
    requires Next(before, e) == Some(Flushing(evaluation))
    ensures e.Evaluated? && e.evaluation == evaluation
  {
  }

  /** A notice is acknowledged only right after its own text was written, right after it was polled. */
  lemma AcknowledgedAfterItsWrite(trace: Trace, i: nat)
    requires Reached(trace).Some? && i < |trace| && trace[i].AcknowledgedNotice?
    ensures i >= 2 && trace[i - 1] == WroteNotice(trace[i].notice, true) && trace[i - 2] == PolledNotice(Some(trace[i].notice))
  {
    var notice := trace[i].notice;
    var acknowledging := CameFrom(trace, i + 1);
    var writing := CameFrom(trace, i);
    IntoAcknowledging(writing, trace[i - 1], notice, acknowledging.leaving);
    var polling := CameFrom(trace, i - 1);
    IntoWriting(polling, trace[i - 2], notice, acknowledging.leaving);
  }

  /** Every evaluation that did not lose program output is followed at once by a flush of it. */
  lemma EvaluationIsFlushedFirst(trace: Trace, i: nat)
    requires Reached(trace).Some? && i < |trace| && trace[i].Evaluated? && !trace[i].evaluation.ProgramOutputFailed?
    ensures i + 1 < |trace| ==> trace[i + 1].FlushedOutput?
    ensures i + 1 == |trace| ==> Reached(trace) == Some(Flushing(trace[i].evaluation))
  {
    PrefixesAreReached(trace, i);
    PrefixesAreReached(trace, i + 1);
    assert i + 1 == |trace| ==> trace[..i + 1] == trace;
  }

  predicate InCleanup(phase: Phase) { phase.Reporting? || phase.FlushingReport? || phase.Closed? }

  function Cleanups(trace: Trace): nat {
    if trace == [] then 0 else Cleanups(trace[..|trace| - 1]) + if trace[|trace| - 1].CleanedUp? then 1 else 0
  }

  /** Cleanup runs exactly once when the session has failed, before the status, and never otherwise. */
  lemma {:induction false} CleanupRunsExactlyOnce(trace: Trace)
    requires Reached(trace).Some?
    ensures Cleanups(trace) == if InCleanup(Reached(trace).value) then 1 else 0
  {
    if trace != [] {
      CleanupRunsExactlyOnce(trace[..|trace| - 1]);
    }
  }

  /** A stream is an event kind that may fail. */
  datatype Stream = EditorStream | ProgramStream | DiagnosticStream

  predicate Uses(e: Event, stream: Stream) {
    match stream
    case EditorStream => e.WroteNotice? || e.WroteRefusal?
    case ProgramStream => e.Evaluated? || e.FlushedOutput?
    case DiagnosticStream => e.WroteDiagnostic? || e.FlushedDiagnostic?
  }

  predicate Breaks(e: Event, stream: Stream) {
    match e
    case WroteNotice(_, ok) => stream == EditorStream && !ok
    case WroteRefusal(_, ok) => stream == EditorStream && !ok
    case Evaluated(_, evaluation) => stream == ProgramStream && evaluation.ProgramOutputFailed?
    case FlushedOutput(ok) => stream == ProgramStream && !ok
    case WroteDiagnostic(_, ok) => stream == DiagnosticStream && !ok
    case FlushedDiagnostic(ok) => stream == DiagnosticStream && !ok
    case _ => false
  }

  /** Phases from which a broken stream is not used any more. */
  predicate Avoids(phase: Phase, stream: Stream) {
    match phase
    case Fatal(error) => stream != DiagnosticStream || error == DiagnosticOutput
    case Reporting(_) => stream != DiagnosticStream
    case FlushingReport => stream != DiagnosticStream
    case Closed => true
    case _ => false
  }

  lemma {:induction false} BrokenStreamIsAvoided(trace: Trace, i: nat, stream: Stream)
    requires Reached(trace).Some? && i < |trace| && Breaks(trace[i], stream)
    ensures Avoids(Reached(trace).value, stream)
  {
    if i < |trace| - 1 {
      BrokenStreamIsAvoided(trace[..|trace| - 1], i, stream);
    }
  }

  /** No stream is used again after its own write or flush failed. */
  lemma NoUseAfterFailure(trace: Trace, i: nat, j: nat, stream: Stream)
    requires Reached(trace).Some? && i < j < |trace| && Breaks(trace[i], stream)
    ensures !Uses(trace[j], stream)
  {
    var phase := CameFrom(trace, j + 1);
    PrefixesAreReached(trace, j);
    assert trace[..j + 1][..j] == trace[..j];
    BrokenStreamIsAvoided(trace[..j], i, stream);
    AvoidedIsNotUsed(phase, trace[j], stream);
  }

  lemma AvoidedIsNotUsed(phase: Phase, e: Event, stream: Stream)
    requires Avoids(phase, stream) && Next(phase, e).Some?
    ensures !Uses(e, stream)
  {
  }

  /** The interactions of a drain. */
  predicate Draining(e: Event) {
    || e.PolledNotice?
    || (e.WroteNotice? && e.ok)
    || (e.AcknowledgedNotice? && e.ok)
  }

  predicate Leaving(phase: Phase, exit: InteractiveExit) {
    || phase == Done(exit)
    || ((phase.Polling? || phase.Writing? || phase.Acknowledging?) && phase.leaving == Some(exit))
  }

  /** While leaving, the permission is behind us and only notices have been drained since. */
  lemma {:induction false} LeavingSincePermission(trace: Trace, exit: InteractiveExit) returns (k: nat)
    requires Reached(trace).Some? && Leaving(Reached(trace).value, exit)
    ensures k < |trace| && trace[k] == AskedExit(Permitted) && Reached(trace[..k]) == Some(Asking(exit))
    ensures forall j :: k < j < |trace| ==> Draining(trace[j])
  {
    LastInteraction(trace);
    var front := trace[..|trace| - 1];
    if Reached(front) == Some(Asking(exit)) {
      k := |trace| - 1;
    } else {
      k := LeavingSincePermission(front, exit);
      assert front[..k] == trace[..k];
      assert forall j :: k < j < |front| ==> trace[j] == front[j];
    }
  }

  /**
    A normal exit happens only after the evaluator permitted it, with nothing in between but notices that
    were shown and acknowledged, and with its queue polled empty; and it was asked for by the end of input
    or by an evaluated exit whose program output had been flushed.
   */
  lemma NormalExitIsPermittedAndDrained(trace: Trace, exit: InteractiveExit) returns (k: nat)
    requires Reached(trace) == Some(Done(exit))
    ensures 1 <= k < |trace| - 1 && trace[k] == AskedExit(Permitted) && trace[|trace| - 1] == PolledNotice(None)
    ensures forall j :: k < j < |trace| ==> Draining(trace[j])
    ensures exit.InputEnded? ==> trace[k - 1] == ReadLine(EndOfInput)
    ensures exit.Requested? ==>
      k >= 2 && trace[k - 1] == FlushedOutput(true)
      && trace[k - 2].Evaluated? && trace[k - 2].evaluation == Exit(exit.status)
  {
    k := LeavingSincePermission(trace, exit);
    LastInteraction(trace);
    AskedBecause(trace, k, exit);
  }

  lemma AskingIsNotFirst(trace: Trace, k: nat, exit: InteractiveExit)
    requires k <= |trace| && Reached(trace[..k]) == Some(Asking(exit))
    ensures k >= 1
  {
  }

  /** Why the evaluator was asked for an exit. */
  lemma AskedBecause(trace: Trace, k: nat, exit: InteractiveExit)
    requires Reached(trace).Some? && k <= |trace| && Reached(trace[..k]) == Some(Asking(exit))
    ensures k >= 1
    ensures exit.InputEnded? ==> trace[k - 1] == ReadLine(EndOfInput)
    ensures exit.Requested? ==>
      k >= 2 && trace[k - 1] == FlushedOutput(true)
      && trace[k - 2].Evaluated? && trace[k - 2].evaluation == Exit(exit.status)
  {
    AskingIsNotFirst(trace, k, exit);
    var before := CameFrom(trace, k);
    IntoAsking(before, trace[k - 1], exit);
    if exit.Requested? {
      FlushedBecause(trace, k - 1, Exit(exit.status));
    }
  }

  lemma FlushingIsNotFirst(trace: Trace, k: nat, evaluation: Evaluation)
    requires k <= |trace| && Reached(trace[..k]) == Some(Flushing(evaluation))
    ensures k >= 1
  {
  }

  lemma FlushedBecause(trace: Trace, k: nat, evaluation: Evaluation)
    requires Reached(trace).Some? && k <= |trace| && Reached(trace[..k]) == Some(Flushing(evaluation))
    ensures k >= 1 && trace[k - 1].Evaluated? && trace[k - 1].evaluation == evaluation
  {
    FlushingIsNotFirst(trace, k, evaluation);
    var evaluating := CameFrom(trace, k);
    IntoFlushing(evaluating, trace[k - 1], evaluation);
  }

  // ---------- External prints while the editor owns the prompt ----------

  datatype PrintResult = Handed(notice: Notice) | NothingToPrint | AcknowledgedTo(notice: Notice, ok: bool) | NotPending | Mismatch

  function PrintStep(pending: Option<Notice>, call: PrintCall): (Option<Notice>, PrintResult) {
    match call
    case NextPrint(notice) =>
      if notice.None? then (pending, NothingToPrint) else (notice, Handed(notice.value))
    case AcknowledgePrint(id, ok) =>
      if pending.None? then (None, NotPending)
      else if pending.value.id != id then (None, Mismatch)
      else (None, AcknowledgedTo(pending.value, ok))
  }

  class EvaluatorEditorEvents {
    var pending: Option<Notice>

    constructor ()
      ensures pending == None
    {
      pending := None;
    }

    method NextExternalPrint(answer: Option<Notice>) returns (result: PrintResult)
      modifies this
      ensures (pending, result) == PrintStep(old(pending), NextPrint(answer))
    {
      if answer.None? {
        return NothingToPrint;
      }
      pending := answer;
      result := Handed(answer.value);
    }

    /** The pending notice is taken before its identity is compared, so a mismatch forgets it. */
    method AcknowledgeExternalPrint(id: nat, answer: bool) returns (result: PrintResult)
      modifies this
      ensures (pending, result) == PrintStep(old(pending), AcknowledgePrint(id, answer))
    {
      var taken := pending;
      pending := None;
      if taken.None? {
        return NotPending;
      }
      if taken.value.id != id {
        return Mismatch;
      }
      result := AcknowledgedTo(taken.value, answer);
    }
  }

  /** During a read, the pending notice is the one handed out last, and nothing but empty polls came since. */
  lemma {:induction false} PendingAtThePrompt(trace: Trace, notice: Notice) returns (k: nat)
    requires Reached(trace) == Some(AtPrompt(Some(notice)))
    ensures k < |trace| && trace[k] == PolledPrint(Some(notice))
    ensures forall j :: k < j < |trace| ==> trace[j] == PolledPrint(None)
  {
    LastInteraction(trace);
    var front, last := trace[..|trace| - 1], trace[|trace| - 1];
    if last == PolledPrint(None) {
      k := PendingAtThePrompt(front, notice);
      assert forall j :: k < j < |front| ==> trace[j] == front[j];
    } else {
      k := |trace| - 1;
    }
  }

  lemma IntoAcknowledgingPrint(before: Phase, e: Event, notice: Notice)
    requires Next(before, e) == Some(AcknowledgingPrint(notice))
    ensures before == AtPrompt(Some(notice)) && e == RequestedAcknowledgement(notice.id)
  {
  }

  lemma FromAcknowledgingPrint(before: Phase, e: Event)
    requires Next(before, e).Some? && e.AcknowledgedPrint?
    ensures before == AcknowledgingPrint(e.notice)
  {
  }

  lemma AcknowledgingPrintIsNotFirst(trace: Trace, i: nat, notice: Notice)
    requires i <= |trace| && Reached(trace[..i]) == Some(AcknowledgingPrint(notice))
    ensures i >= 1
  {
  }

  /**
    In every session, the evaluator is asked to acknowledge an external print only on the editor's request
    under its identity, right after that request, and only for the notice handed out last in the same read,
    with no other request since: at most once for each hand-out.
   */
  lemma ExternalPrintIsAcknowledgedOnce(trace: Trace, i: nat) returns (k: nat)
    requires Reached(trace).Some? && i < |trace| && trace[i].AcknowledgedPrint?
    ensures k + 1 < i && trace[k] == PolledPrint(Some(trace[i].notice))
    ensures trace[i - 1] == RequestedAcknowledgement(trace[i].notice.id)
    ensures forall j :: k < j < i - 1 ==> trace[j] == PolledPrint(None)
  {
    var notice := trace[i].notice;
    var acknowledging := CameFrom(trace, i + 1);
    FromAcknowledgingPrint(acknowledging, trace[i]);
    AcknowledgingPrintIsNotFirst(trace, i, notice);
    var prompt := CameFrom(trace, i);
    IntoAcknowledgingPrint(prompt, trace[i - 1], notice);
    k := PendingAtThePrompt(trace[..i - 1], notice);
    assert forall j :: 0 <= j < i - 1 ==> trace[..i - 1][j] == trace[j];
  }

  function PendingAfter(calls: seq<PrintCall>): Option<Notice> {
    if calls == [] then None else PrintStep(PendingAfter(calls[..|calls| - 1]), calls[|calls| - 1]).0
  }

  function ResultAt(calls: seq<PrintCall>, i: nat): PrintResult
    requires i < |calls|
  {
    PrintStep(PendingAfter(calls[..i]), calls[i]).1
  }

  lemma {:induction false} PendingWasHandedOut(calls: seq<PrintCall>) returns (k: nat)
    requires PendingAfter(calls).Some?
    ensures k < |calls| && calls[k] == NextPrint(PendingAfter(calls))
    ensures forall j :: k < j < |calls| ==> calls[j] == NextPrint(None)
  {
    var front, last := calls[..|calls| - 1], calls[|calls| - 1];
    if last == NextPrint(None) {
      k := PendingWasHandedOut(front);
      assert forall j :: k < j < |front| ==> calls[j] == front[j];
    } else {
      k := |calls| - 1;
    }
  }

  /**
    Only the notice handed out last is ever acknowledged to the evaluator, under its own identity, and no
    other acknowledgement was attempted since: so each hand-out is acknowledged at most once.
   */
  lemma OnlyTheLastHandedOutIsAcknowledged(calls: seq<PrintCall>, i: nat) returns (k: nat)
    requires i < |calls| && ResultAt(calls, i).AcknowledgedTo?
    ensures k < i && calls[k] == NextPrint(Some(ResultAt(calls, i).notice))
    ensures calls[i].AcknowledgePrint? && calls[i].id == ResultAt(calls, i).notice.id
    ensures forall j :: k < j < i ==> calls[j] == NextPrint(None)
  {
    k := PendingWasHandedOut(calls[..i]);
  }

  // ---------- The object and the session ----------

  /** The calls on the events object of the read that is under way. An answer still missing counts as a refusal. */
  function CallsOfRead(trace: Trace): seq<PrintCall> {
    if trace == [] then []
    else
      var before, last := CallsOfRead(trace[..|trace| - 1]), trace[|trace| - 1];
      if last.PolledPrint? then before + [NextPrint(last.polled)]
      else if last.RequestedAcknowledgement? then before + [AcknowledgePrint(last.id, false)]
      else if last.AcknowledgedPrint? && before != [] then
        before[..|before| - 1] + [AcknowledgePrint(last.notice.id, last.ok)]
      else []
  }

  lemma LastCall(calls: seq<PrintCall>, call: PrintCall)
    ensures (PendingAfter(calls + [call]), ResultAt(calls + [call], |calls|)) == PrintStep(PendingAfter(calls), call)
  {
    assert (calls + [call])[..|calls|] == calls;
  }

  /** What the phase of a session says of the calls of its read. */
  ghost predicate Follows(phase: Phase, calls: seq<PrintCall>) {
    && (phase.AtPrompt? ==> phase.pending == PendingAfter(calls))
    && (phase.AcknowledgingPrint? ==>
          calls != [] && calls[|calls| - 1] == AcknowledgePrint(phase.notice.id, false)
          && PendingAfter(calls[..|calls| - 1]) == Some(phase.notice))
  }

  /** Sessions follow the object: what is pending at the prompt is what the calls of this read leave pending. */
  lemma {:induction false} SessionFollowsTheObject(trace: Trace)
    requires Reached(trace).Some?
    ensures Follows(Reached(trace).value, CallsOfRead(trace))
  {
    if trace != [] {
      var front, e := trace[..|trace| - 1], trace[|trace| - 1];
      SessionFollowsTheObject(front);
      FollowsOn(Reached(front).value, e, CallsOfRead(front), CallsOfRead(trace));
    }
  }

  lemma FollowsOn(before: Phase, e: Event, calls: seq<PrintCall>, after: seq<PrintCall>)
    requires Follows(before, calls) && Next(before, e).Some?
    requires e.PolledPrint? ==> after == calls + [NextPrint(e.polled)]
    requires e.RequestedAcknowledgement? ==> after == calls + [AcknowledgePrint(e.id, false)]
    requires e.AcknowledgedPrint? && calls != [] ==> after == calls[..|calls| - 1] + [AcknowledgePrint(e.notice.id, e.ok)]
    requires !e.PolledPrint? && !e.RequestedAcknowledgement? && !e.AcknowledgedPrint? ==> after == []
    ensures Follows(Next(before, e).value, after)
  {
    if e.PolledPrint? {
      LastCall(calls, NextPrint(e.polled));
    } else if e.RequestedAcknowledgement? {
      LastCall(calls, AcknowledgePrint(e.id, false));
      assert after[..|after| - 1] == calls;
    } else if e.AcknowledgedPrint? {
      LastCall(calls[..|calls| - 1], AcknowledgePrint(e.notice.id, e.ok));
    }
  }

  /** A recorded acknowledgement is the result of the object's last call in this read. */
  lemma AcknowledgementIsTheObjectsResult(trace: Trace, e: Event)
    requires Reached(trace).Some? && Next(Reached(trace).value, e).Some? && e.AcknowledgedPrint?
    ensures var calls := CallsOfRead(trace + [e]);
      calls != [] && ResultAt(calls, |calls| - 1) == AcknowledgedTo(e.notice, e.ok)
  {
    var calls := CallsOfRead(trace);
    SessionFollowsTheObject(trace);
    FromAcknowledgingPrint(Reached(trace).value, e);
    assert (trace + [e])[..|trace|] == trace;
    LastCall(calls[..|calls| - 1], AcknowledgePrint(e.notice.id, e.ok));
  }
}
