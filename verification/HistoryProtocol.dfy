/**
  Any number of processes sharing one history file, in any interleaving.

  The file lock makes each operation one atomic step. `Run` folds the steps and keeps a log of what
  each of them did; the theorems relate the bytes on disk and every process's local view to that log.
*/
module HistoryProtocol {
  import opened Wrappers
  import opened HistoryCodec
  import opened History

  type Id = nat

  datatype World = World(bytes: seq<Byte>, processes: map<Id, Process>)

  datatype Event =
    | OpenDisabled(who: Id)
    | OpenShared(who: Id, fault: bool)
    | Record(who: Id, source: string, fault: bool)
    | Synchronize(who: Id, fault: bool)
    | Clear(who: Id, fault: bool)

  /** What a step did to the shared file. */
  datatype Change = Untouched | Committed(batch: seq<string>) | Erased

  /** One log line: the shared change, what the acting process queued and threw away, whether it emptied its view. */
  datatype LogEntry = LogEntry(who: Id, change: Change, queued: seq<string>, discarded: seq<string>, cleared: bool)

  datatype Outcome = Outcome(world: World, entry: LogEntry)

  function Idle(w: World, who: Id): Outcome {
    Outcome(w, LogEntry(who, Untouched, [], [], false))
  }

  /** A step that used `Synchronized` from the state `p`, with `queued` just added to its queue. */
  function AfterSync(w: World, who: Id, p: Process, fault: bool, queued: seq<string>): Outcome {
    var r := Synchronized(p, w.bytes, fault);
    Outcome(
      World(r.bytes, w.processes[who := r.process]),
      LogEntry(who, if r.ok && p.shared then Committed(p.pending) else Untouched, queued, [], false))
  }

  /** Identifiers name objects, so a second open of the same one, or an unknown actor, is no step. */
  function Next(capacity: nat, w: World, e: Event): Outcome {
    if (e.OpenDisabled? || e.OpenShared?) == (e.who in w.processes) then Idle(w, e.who)
    else
      match e
      case OpenDisabled(who) =>
        Outcome(w.(processes := w.processes[who := Process([], [], 0, false)]), LogEntry(who, Untouched, [], [], false))
      case OpenShared(who, fault) =>
        var empty := Process([], [], capacity, true);
        if Synchronized(empty, w.bytes, fault).ok then AfterSync(w, who, empty, fault, []) else Idle(w, who)
      case Record(who, source, fault) =>
        var p := w.processes[who];
        if Refuses(p, source) then Idle(w, who)
        else AfterSync(w, who, p.(pending := p.pending + [source]), fault, [source])
      case Synchronize(who, fault) => AfterSync(w, who, w.processes[who], fault, [])
      case Clear(who, fault) =>
        var p := w.processes[who];
        var r := AfterClear(p, w.bytes, fault);
        Outcome(
          World(r.bytes, w.processes[who := r.process]),
          LogEntry(who, if r.ok && p.shared then Erased else Untouched, [], p.pending, true))
  }

  datatype Trace = Trace(world: World, log: seq<LogEntry>)

  function Run(capacity: nat, bytes: seq<Byte>, events: seq<Event>): Trace {
    if events == [] then Trace(World(bytes, map[]), [])
    else
      var before := Run(capacity, bytes, events[..|events| - 1]);
      var step := Next(capacity, before.world, events[|events| - 1]);
      Trace(step.world, before.log + [step.entry])
  }

  // ---------- The reference: an unbounded log ----------

  function Initial(bytes: seq<Byte>): seq<string> {
    if Parse(bytes).Success? then Parse(bytes).value else []
  }

  /** Everything committed since the file was last erased, oldest first. */
  function Shared(initial: seq<string>, log: seq<LogEntry>): seq<string> {
    if log == [] then initial
    else
      var earlier := Shared(initial, log[..|log| - 1]);
      match log[|log| - 1].change
      case Untouched => earlier
      case Committed(batch) => earlier + batch
      case Erased => []
  }

  predicate Touched(log: seq<LogEntry>) {
    exists i :: 0 <= i < |log| && log[i].change != Untouched
  }

  /** What `who` queued, in order, over the whole run. */
  function Queued(who: Id, log: seq<LogEntry>): seq<string> {
    if log == [] then []
    else
      var last := log[|log| - 1];
      Queued(who, log[..|log| - 1]) + if last.who == who then last.queued else []
  }

  /** What of it was committed or deliberately discarded, in order. */
  function Settled(who: Id, log: seq<LogEntry>): seq<string> {
    if log == [] then []
    else
      var last := log[|log| - 1];
      Settled(who, log[..|log| - 1])
      + if last.who != who then [] else (if last.change.Committed? then last.change.batch else []) + last.discarded
  }

  function Kept(capacity: nat, bytes: seq<Byte>, log: seq<LogEntry>): seq<string> {
    Retained(capacity, Shared(Initial(bytes), log))
  }

  /** The shared history as `who` saw it at its own last commit, or nothing since it cleared its view. */
  function LastSeen(capacity: nat, bytes: seq<Byte>, who: Id, log: seq<LogEntry>): seq<string> {
    if log == [] then []
    else
      var last := log[|log| - 1];
      if last.who == who && last.change.Committed? then Kept(capacity, bytes, log)
      else if last.who == who && last.cleared then []
      else LastSeen(capacity, bytes, who, log[..|log| - 1])
  }

  // ---------- Safety over whole runs ----------

  ghost predicate FileInvariant(capacity: nat, bytes: seq<Byte>, current: seq<Byte>, log: seq<LogEntry>) {
    && (!Touched(log) ==> current == bytes && Shared(Initial(bytes), log) == Initial(bytes))
    && (Touched(log) ==> current == Render(Kept(capacity, bytes, log)))
  }

  predicate Shaped(capacity: nat, p: Process) {
    if p.shared then p.capacity == capacity else p == Process([], [], 0, false)
  }

  function ViewOf(w: World, who: Id): seq<string> {
    if who in w.processes then w.processes[who].entries else []
  }

  ghost predicate Current(capacity: nat, bytes: seq<Byte>, log: seq<LogEntry>, w: World, who: Id) {
    && (who in w.processes ==> Shaped(capacity, w.processes[who]))
    && ViewOf(w, who) == LastSeen(capacity, bytes, who, log)
  }

  predicate Accounted(log: seq<LogEntry>, who: Id, pending: seq<string>) {
    Queued(who, log) == Settled(who, log) + pending
  }

  ghost predicate Invariant(capacity: nat, bytes: seq<Byte>, h: Trace) {
    && FileInvariant(capacity, bytes, h.world.bytes, h.log)
    && (forall who: Id :: Current(capacity, bytes, h.log, h.world, who))
    && (forall who: Id :: Accounted(h.log, who, PendingOf(h.world, who)))
  }

  function PendingOf(w: World, who: Id): seq<string> {
    if who in w.processes then w.processes[who].pending else []
  }

  lemma LogSnoc(initial: seq<string>, log: seq<LogEntry>, entry: LogEntry)
    ensures (log + [entry])[..|log|] == log
    ensures Shared(initial, log + [entry]) ==
      match entry.change { case Untouched => Shared(initial, log) case Committed(b) => Shared(initial, log) + b case Erased => [] }
    ensures Touched(log + [entry]) <==> Touched(log) || entry.change != Untouched
  {
    var longer := log + [entry];
    assert longer[..|log|] == log;
    assert forall i :: 0 <= i < |log| ==> longer[i] == log[i];
    assert longer[|log|] == entry;
  }

  lemma LastSeenSnoc(capacity: nat, bytes: seq<Byte>, who: Id, log: seq<LogEntry>, entry: LogEntry)
    ensures LastSeen(capacity, bytes, who, log + [entry]) ==
      if entry.who == who && entry.change.Committed? then Kept(capacity, bytes, log + [entry])
      else if entry.who == who && entry.cleared then []
      else LastSeen(capacity, bytes, who, log)
  {
    assert (log + [entry])[..|log|] == log;
  }

  /** The accounting of one log line. */
  lemma AccountSnoc(who: Id, log: seq<LogEntry>, entry: LogEntry)
    ensures Queued(who, log + [entry]) == Queued(who, log) + if entry.who == who then entry.queued else []
    ensures Settled(who, log + [entry]) == Settled(who, log)
      + if entry.who != who then [] else (if entry.change.Committed? then entry.change.batch else []) + entry.discarded
  {
    assert (log + [entry])[..|log|] == log;
  }

  /** What a commit merges into the file is what the longer log retains. */
  lemma CommitKeeps(capacity: nat, bytes: seq<Byte>, current: seq<Byte>, log: seq<LogEntry>, entry: LogEntry)
    requires FileInvariant(capacity, bytes, current, log) && Parse(current).Success? && entry.change.Committed?
    ensures Retained(capacity, Parse(current).value + entry.change.batch) == Kept(capacity, bytes, log + [entry])
  {
    LogSnoc(Initial(bytes), log, entry);
    if Touched(log) {
      ParseInvertsRender(Kept(capacity, bytes, log));
      RetainedAbsorbsPrefix(capacity, Shared(Initial(bytes), log), entry.change.batch);
    }
  }

  function Taken(entry: LogEntry): seq<string> {
    (if entry.change.Committed? then entry.change.batch else []) + entry.discarded
  }

  /** What was pending plus what was queued equals what left the queue plus what is pending now. */
  lemma Balance(log: seq<LogEntry>, entry: LogEntry, before: seq<string>, after: seq<string>)
    requires Accounted(log, entry.who, before) && before + entry.queued == Taken(entry) + after
    ensures Accounted(log + [entry], entry.who, after)
  {
    AccountSnoc(entry.who, log, entry);
    var settled := Settled(entry.who, log);
    assert settled + before + entry.queued == settled + (before + entry.queued);
    assert settled + (Taken(entry) + after) == settled + Taken(entry) + after;
  }

  predicate OnlyMoved(w: World, w': World, who: Id) {
    w'.processes == w.processes || (who in w'.processes && w'.processes == w.processes[who := w'.processes[who]])
  }

  /** Everything the invariant needs to know about a step. */
  ghost predicate GoodStep(capacity: nat, bytes: seq<Byte>, h: Trace, step: Outcome) {
    var who, log := step.entry.who, h.log + [step.entry];
    && OnlyMoved(h.world, step.world, who)
    && Current(capacity, bytes, log, step.world, who)
    && PendingOf(h.world, who) + step.entry.queued == Taken(step.entry) + PendingOf(step.world, who)
    && (if step.entry.change == Untouched then step.world.bytes == h.world.bytes
        else step.world.bytes == Render(Kept(capacity, bytes, log)))
  }

  lemma GoodStepAccounts(w: World, log: seq<LogEntry>, step: Outcome, who: Id)
    requires OnlyMoved(w, step.world, step.entry.who) && Accounted(log, who, PendingOf(w, who))
    requires PendingOf(w, step.entry.who) + step.entry.queued == Taken(step.entry) + PendingOf(step.world, step.entry.who)
    ensures Accounted(log + [step.entry], who, PendingOf(step.world, who))
  {
    if who == step.entry.who {
      Balance(log, step.entry, PendingOf(w, who), PendingOf(step.world, who));
    } else {
      AccountSnoc(who, log, step.entry);
    }
  }

  lemma GoodStepStaysCurrent(capacity: nat, bytes: seq<Byte>, h: Trace, step: Outcome, who: Id)
    requires GoodStep(capacity, bytes, h, step) && Current(capacity, bytes, h.log, h.world, who)
    ensures Current(capacity, bytes, h.log + [step.entry], step.world, who)
  {
    LastSeenSnoc(capacity, bytes, who, h.log, step.entry);
  }

  lemma GoodStepKeepsFile(capacity: nat, bytes: seq<Byte>, h: Trace, step: Outcome)
    requires GoodStep(capacity, bytes, h, step) && FileInvariant(capacity, bytes, h.world.bytes, h.log)
    ensures FileInvariant(capacity, bytes, step.world.bytes, h.log + [step.entry])
  {
    LogSnoc(Initial(bytes), h.log, step.entry);
  }

  lemma GoodStepKeepsInvariant(capacity: nat, bytes: seq<Byte>, h: Trace, step: Outcome)
    requires Invariant(capacity, bytes, h) && GoodStep(capacity, bytes, h, step)
    ensures Invariant(capacity, bytes, Trace(step.world, h.log + [step.entry]))
  {
    GoodStepKeepsFile(capacity, bytes, h, step);
    forall who: Id ensures Current(capacity, bytes, h.log + [step.entry], step.world, who) {
      GoodStepStaysCurrent(capacity, bytes, h, step, who);
    }
    forall who: Id ensures Accounted(h.log + [step.entry], who, PendingOf(step.world, who)) {
      GoodStepAccounts(h.world, h.log, step, who);
    }
  }

  lemma IdleIsGood(capacity: nat, bytes: seq<Byte>, h: Trace, who: Id)
    requires Current(capacity, bytes, h.log, h.world, who)
    ensures GoodStep(capacity, bytes, h, Idle(h.world, who))
  {
    LastSeenSnoc(capacity, bytes, who, h.log, Idle(h.world, who).entry);
  }

  /** A sync from the state `p`, where the step has just added `queued` to the queue. */
  lemma SyncIsGood(capacity: nat, bytes: seq<Byte>, h: Trace, who: Id, p: Process, fault: bool, queued: seq<string>)
    requires FileInvariant(capacity, bytes, h.world.bytes, h.log) && Current(capacity, bytes, h.log, h.world, who)
    requires Shaped(capacity, p) && p.entries == ViewOf(h.world, who) && p.pending == PendingOf(h.world, who) + queued
    ensures GoodStep(capacity, bytes, h, AfterSync(h.world, who, p, fault, queued))
  {
    var step := AfterSync(h.world, who, p, fault, queued);
    LastSeenSnoc(capacity, bytes, who, h.log, step.entry);
    if step.entry.change.Committed? {
      CommitKeeps(capacity, bytes, h.world.bytes, h.log, step.entry);
    }
  }

  lemma ClearIsGood(capacity: nat, bytes: seq<Byte>, h: Trace, who: Id, fault: bool)
    requires who in h.world.processes && Current(capacity, bytes, h.log, h.world, who)
    ensures GoodStep(capacity, bytes, h, Next(capacity, h.world, Clear(who, fault)))
  {
    var step := Next(capacity, h.world, Clear(who, fault));
    LogSnoc(Initial(bytes), h.log, step.entry);
    LastSeenSnoc(capacity, bytes, who, h.log, step.entry);
    assert step.entry.change == Erased ==> Kept(capacity, bytes, h.log + [step.entry]) == [];
  }

  lemma NextIsGood(capacity: nat, bytes: seq<Byte>, h: Trace, e: Event)
    requires FileInvariant(capacity, bytes, h.world.bytes, h.log) && Current(capacity, bytes, h.log, h.world, e.who)
    ensures GoodStep(capacity, bytes, h, Next(capacity, h.world, e))
  {
    IdleIsGood(capacity, bytes, h, e.who);
    if (e.OpenDisabled? || e.OpenShared?) != (e.who in h.world.processes) {
      match e
      case OpenDisabled(who) =>
        SyncIsGood(capacity, bytes, h, who, Process([], [], 0, false), false, []);
      case OpenShared(who, fault) =>
        SyncIsGood(capacity, bytes, h, who, Process([], [], capacity, true), fault, []);
      case Record(who, source, fault) =>
        var p := h.world.processes[who];
        if !Refuses(p, source) {
          SyncIsGood(capacity, bytes, h, who, p.(pending := p.pending + [source]), fault, [source]);
        }
      case Synchronize(who, fault) =>
        SyncIsGood(capacity, bytes, h, who, h.world.processes[who], fault, []);
      case Clear(who, fault) =>
        ClearIsGood(capacity, bytes, h, who, fault);
    }
  }

  lemma {:induction false} RunKeepsInvariant(capacity: nat, bytes: seq<Byte>, events: seq<Event>)
    ensures Invariant(capacity, bytes, Run(capacity, bytes, events))
  {
    if events != [] {
      RunKeepsInvariant(capacity, bytes, events[..|events| - 1]);
      var before := Run(capacity, bytes, events[..|events| - 1]);
      assert Current(capacity, bytes, before.log, before.world, events[|events| - 1].who);
      NextIsGood(capacity, bytes, before, events[|events| - 1]);
      GoodStepKeepsInvariant(capacity, bytes, before, Next(capacity, before.world, events[|events| - 1]));
    }
  }

  // ---------- Main results ----------

  /**
    Serialization: once anything has been written, the file is exactly the rendering of the last
    `capacity` entries of the deduplicated log of all commits in order; before that it is untouched.
   */
  lemma FileIsTheRetainedLog(capacity: nat, bytes: seq<Byte>, events: seq<Event>)
    ensures var h := Run(capacity, bytes, events);
      h.world.bytes == if Touched(h.log) then Render(Retained(capacity, Shared(Initial(bytes), h.log))) else bytes
  {
    RunKeepsInvariant(capacity, bytes, events);
  }

  /** A process that just committed sees exactly that shared history, and so does the next reader. */
  lemma CommitterSeesTheSharedHistory(capacity: nat, bytes: seq<Byte>, events: seq<Event>)
    requires var log := Run(capacity, bytes, events).log; log != [] && log[|log| - 1].change.Committed?
    ensures var h := Run(capacity, bytes, events);
      var kept := Retained(capacity, Shared(Initial(bytes), h.log));
      var who := h.log[|h.log| - 1].who;
      && who in h.world.processes
      && h.world.processes[who].entries == kept && h.world.processes[who].pending == []
      && Parse(h.world.bytes) == Success(kept)
  {
    var front := events[..|events| - 1];
    var before, e := Run(capacity, bytes, front), events[|events| - 1];
    var step := Next(capacity, before.world, e);
    RunKeepsInvariant(capacity, bytes, front);
    assert Run(capacity, bytes, events).log == before.log + [step.entry];
    CommitKeeps(capacity, bytes, before.world.bytes, before.log, step.entry);
    ParseInvertsRender(Kept(capacity, bytes, before.log + [step.entry]));
    assert Current(capacity, bytes, before.log, before.world, e.who);
  }

  /**
    Conservation: everything a process ever queued was committed, discarded by its own `clear`, or is
    still pending, in order and without loss or duplication. In particular a failed sync keeps its
    entries for the next commit.
   */
  lemma QueuedEntriesAreConserved(capacity: nat, bytes: seq<Byte>, events: seq<Event>, who: Id)
    ensures var h := Run(capacity, bytes, events);
      Queued(who, h.log) == Settled(who, h.log) + PendingOf(h.world, who)
  {
    RunKeepsInvariant(capacity, bytes, events);
    var h := Run(capacity, bytes, events);
    assert Accounted(h.log, who, PendingOf(h.world, who));
  }

  /**
    A local view may be stale, but never wrong: it is exactly the shared history at the process's own last
    commit, or empty since the process cleared it or because it never committed.
   */
  lemma LocalViewIsTheOwnLastCommit(capacity: nat, bytes: seq<Byte>, events: seq<Event>, who: Id)
    ensures var h := Run(capacity, bytes, events);
      ViewOf(h.world, who) == LastSeen(capacity, bytes, who, h.log)
  {
    RunKeepsInvariant(capacity, bytes, events);
    var h := Run(capacity, bytes, events);
    assert Current(capacity, bytes, h.log, h.world, who);
  }

  // ---------- Refused records ----------

  /** What the next successful synchronisation of `p` writes. */
  function Synced(p: Process, bytes: seq<Byte>): seq<Byte> { Synchronized(p, bytes, false).bytes }

  function WithRecord(p: Process, source: string): Process { p.(pending := p.pending + [source]) }

  /** On a reachable file, merging a queue into the file is appending it to the unbounded log. */
  lemma ReachableMerge(capacity: nat, bytes: seq<Byte>, h: Trace, batch: seq<string>)
    requires FileInvariant(capacity, bytes, h.world.bytes, h.log) && Parse(h.world.bytes).Success?
    ensures Retained(capacity, Parse(h.world.bytes).value + batch) == Retained(capacity, Shared(Initial(bytes), h.log) + batch)
  {
    if Touched(h.log) {
      ParseInvertsRender(Kept(capacity, bytes, h.log));
      RetainedAbsorbsPrefix(capacity, Shared(Initial(bytes), h.log), batch);
    }
  }

  /** The next synchronisation of `p` leaves the same file with the record as without it. */
  predicate Harmless(p: Process, bytes: seq<Byte>, source: string) {
    Synced(WithRecord(p, source), bytes) == Synced(p, bytes)
  }

  lemma HarmlessExactlyWhen(capacity: nat, bytes: seq<Byte>, h: Trace, p: Process, source: string)
    requires FileInvariant(capacity, bytes, h.world.bytes, h.log) && Shaped(capacity, p)
    ensures var log := Shared(Initial(bytes), h.log) + p.pending;
      Harmless(p, h.world.bytes, source)
      <==> !p.shared || Parse(h.world.bytes).Failure? || capacity == 0 || (log != [] && log[|log| - 1] == source)
  {
    if p.shared && Parse(h.world.bytes).Success? {
      ReachableMerge(capacity, bytes, h, p.pending);
      ReachableMerge(capacity, bytes, h, p.pending + [source]);
      SyncedIsSameExactlyWhen(p, h.world.bytes, Shared(Initial(bytes), h.log), source);
    }
  }

  /**
    A reachable process refuses a record as a repeat. The file that its next synchronisation leaves is the
    one it would have left with the record exactly when nothing would have been written anyway, or the
    shared log, with what the process still has queued, ends in the record.
   */
  lemma RefusalIsHarmlessExactlyWhen(capacity: nat, bytes: seq<Byte>, events: seq<Event>, who: Id, source: string)
    requires who in Run(capacity, bytes, events).world.processes && source != []
    requires Refuses(Run(capacity, bytes, events).world.processes[who], source)
    ensures var h := Run(capacity, bytes, events); var p := h.world.processes[who];
      var log := Shared(Initial(bytes), h.log) + p.pending;
      Harmless(p, h.world.bytes, source)
      <==> !p.shared || Parse(h.world.bytes).Failure? || capacity == 0 || (log != [] && log[|log| - 1] == source)
  {
    var h := Run(capacity, bytes, events);
    RunKeepsInvariant(capacity, bytes, events);
    assert Current(capacity, bytes, h.log, h.world, who);
    HarmlessExactlyWhen(capacity, bytes, h, h.world.processes[who], source);
  }

  lemma SyncedIsSameExactlyWhen(p: Process, bytes: seq<Byte>, shared: seq<string>, source: string)
    requires p.shared && Parse(bytes).Success?
    requires Retained(p.capacity, Parse(bytes).value + p.pending) == Retained(p.capacity, shared + p.pending)
    requires Retained(p.capacity, Parse(bytes).value + (p.pending + [source])) == Retained(p.capacity, shared + (p.pending + [source]))
    ensures var log := shared + p.pending;
      Synced(WithRecord(p, source), bytes) == Synced(p, bytes) <==> p.capacity == 0 || (log != [] && log[|log| - 1] == source)
  {
    SyncedDiffers(p, bytes, source);
    assert shared + (p.pending + [source]) == shared + p.pending + [source];
    AppendIsInvisibleExactlyWhenRepeated(p.capacity, shared + p.pending, source);
  }

  lemma SyncedDiffers(p: Process, bytes: seq<Byte>, source: string)
    requires p.shared && Parse(bytes).Success?
    ensures Synced(WithRecord(p, source), bytes) == Synced(p, bytes) <==>
      Retained(p.capacity, Parse(bytes).value + (p.pending + [source])) == Retained(p.capacity, Parse(bytes).value + p.pending)
  {
    var a, b := Retained(p.capacity, Parse(bytes).value + (p.pending + [source])), Retained(p.capacity, Parse(bytes).value + p.pending);
    if Render(a) == Render(b) {
      RenderInjective(a, b);
    }
  }

  lemma RunSnoc(capacity: nat, bytes: seq<Byte>, events: seq<Event>, e: Event)
    ensures var before, after := Run(capacity, bytes, events), Run(capacity, bytes, events + [e]);
      var step := Next(capacity, before.world, e);
      after.world == step.world && after.log == before.log + [step.entry]
  {
    assert (events + [e])[..|events|] == events;
  }

  /** A short history without repeats is written and read back as it is. */
  lemma ShortHistory(entries: seq<string>)
    requires NoRepeats(entries) && |entries| <= DEFAULT_HISTORY_CAPACITY
    ensures Retained(DEFAULT_HISTORY_CAPACITY, entries) == entries && Parse(Render(entries)) == Success(entries)
  {
    DeduplicatedFixesNoRepeats(entries);
    ParseInvertsRender(entries);
  }

  const FIRST: Process := Process(["x"], [], DEFAULT_HISTORY_CAPACITY, true)

  /** Two processes open an empty file; one records `x`, then the other records `y`. */
  function StaleRun(): seq<Event> {
    [OpenShared(0, false), OpenShared(1, false)] + [Record(0, "x", false)] + [Record(1, "y", false)]
  }

  lemma BothOpen()
    ensures var c := DEFAULT_HISTORY_CAPACITY;
      var w := Run(c, [], [OpenShared(0, false), OpenShared(1, false)]).world;
      w == World([], map[0 := Process([], [], c, true), 1 := Process([], [], c, true)])
  {
    var c := DEFAULT_HISTORY_CAPACITY;
    var empty := Process([], [], c, true);
    ShortHistory([]);
    assert Render([]) == [] && [] + empty.pending == empty.pending;
    RunSnoc(c, [], [], OpenShared(0, false));
    RunSnoc(c, [], [OpenShared(0, false)], OpenShared(1, false));
    assert [] + [OpenShared(0, false)] == [OpenShared(0, false)];
    assert [OpenShared(0, false)] + [OpenShared(1, false)] == [OpenShared(0, false), OpenShared(1, false)];
  }

  /** Recording a new entry, of a process with nothing queued, in a short history without repeats. */
  lemma RecordAppends(w: World, who: Id, source: string, entries: seq<string>)
    requires w.bytes == Render(entries) && NoRepeats(entries + [source]) && |entries| < DEFAULT_HISTORY_CAPACITY
    requires who in w.processes && w.processes[who].shared && w.processes[who].capacity == DEFAULT_HISTORY_CAPACITY
    requires w.processes[who].pending == [] && !Refuses(w.processes[who], source)
    ensures var longer := entries + [source];
      Next(DEFAULT_HISTORY_CAPACITY, w, Record(who, source, false)).world ==
        World(Render(longer), w.processes[who := Process(longer, [], DEFAULT_HISTORY_CAPACITY, true)])
  {
    var p := WithRecord(w.processes[who], source);
    assert [] + [source] == [source] == p.pending;
    SyncAppends(p, source, entries);
    assert Next(DEFAULT_HISTORY_CAPACITY, w, Record(who, source, false)) == AfterSync(w, who, p, false, [source]);
  }

  lemma SyncAppends(p: Process, source: string, entries: seq<string>)
    requires p.shared && p.capacity == DEFAULT_HISTORY_CAPACITY && p.pending == [source]
    requires NoRepeats(entries + [source]) && |entries| < DEFAULT_HISTORY_CAPACITY
    ensures Synchronized(p, Render(entries), false) ==
      SyncResult(Process(entries + [source], [], DEFAULT_HISTORY_CAPACITY, true), Render(entries + [source]), true)
  {
    ParseInvertsRender(entries);
    ShortHistory(entries + [source]);
  }

  lemma FirstRecords()
    ensures var c := DEFAULT_HISTORY_CAPACITY;
      Run(c, [], [OpenShared(0, false), OpenShared(1, false)] + [Record(0, "x", false)]).world ==
        World(Render(["x"]), map[0 := FIRST, 1 := Process([], [], c, true)])
  {
    var c := DEFAULT_HISTORY_CAPACITY;
    var opens := [OpenShared(0, false), OpenShared(1, false)];
    BothOpen();
    assert Render([]) == [] && [] + ["x"] == ["x"];
    RecordAppends(Run(c, [], opens).world, 0, "x", []);
    RunSnoc(c, [], opens, Record(0, "x", false));
  }

  lemma StaleRunReaches()
    ensures Run(DEFAULT_HISTORY_CAPACITY, [], StaleRun()).world ==
      World(Render(["x", "y"]), map[0 := FIRST, 1 := Process(["x", "y"], [], DEFAULT_HISTORY_CAPACITY, true)])
  {
    var c := DEFAULT_HISTORY_CAPACITY;
    var start := [OpenShared(0, false), OpenShared(1, false)] + [Record(0, "x", false)];
    FirstRecords();
    assert ["x"] + ["y"] == ["x", "y"];
    RecordAppends(World(Render(["x"]), map[0 := FIRST, 1 := Process([], [], c, true)]), 1, "y", ["x"]);
    RunSnoc(c, [], start, Record(1, "y", false));
  }

  /**
    Such a loss happens: in the reached world the first process refuses `x` although the shared history
    ends in `y`, and the run goes on without it.
   */
  lemma StaleViewRefusesANewRecord()
    ensures var c := DEFAULT_HISTORY_CAPACITY;
      var w := Run(c, [], StaleRun()).world;
      && 0 in w.processes && Refuses(w.processes[0], "x") && Parse(w.bytes) == Success(["x", "y"])
      && Run(c, [], StaleRun() + [Record(0, "x", false)]).world == w
      && !Harmless(w.processes[0], w.bytes, "x")
  {
    var c := DEFAULT_HISTORY_CAPACITY;
    StaleRunReaches();
    RunSnoc(c, [], StaleRun(), Record(0, "x", false));
    ShortHistory(["x", "y"]);
    LostRecord();
  }

  lemma LostRecord()
    ensures !Harmless(FIRST, Render(["x", "y"]), "x")
  {
    var shared := ["x", "y"];
    ParseInvertsRender(shared);
    SyncedIsSameExactlyWhen(FIRST, Render(shared), shared, "x");
    assert shared + FIRST.pending == shared && shared[1] == "y" != "x";
  }

  // ---------- The same runs on objects ----------

  /** Live history objects over one file stand for a world. */
  ghost predicate Represents(file: HistoryFile, histories: map<Id, EditorHistory>, w: World)
    reads file, histories.Values
  {
    && file.bytes == w.bytes && histories.Keys == w.processes.Keys
    && (forall who <- histories :: IsObject(file, histories[who], w.processes[who]))
    && (forall a, b :: a in histories && b in histories && a != b ==> histories[a] != histories[b])
  }

  ghost predicate IsObject(file: HistoryFile, history: EditorHistory, p: Process)
    reads history
  {
    history.View() == p && (history.file == file || history.file == null)
  }

  /** One event, carried out by the methods of the objects. */
  method Perform(file: HistoryFile, histories: map<Id, EditorHistory>, e: Event, ghost w: World) returns (after: map<Id, EditorHistory>)
    requires Represents(file, histories, w)
    modifies file, histories.Values
    ensures Represents(file, after, Next(DEFAULT_HISTORY_CAPACITY, w, e).world)
    ensures forall who <- after :: after[who] in histories.Values || fresh(after[who])
  {
    after := histories;
    if (e.OpenDisabled? || e.OpenShared?) == (e.who in histories) {
      return;
    }
    if e.OpenDisabled? || e.OpenShared? {
      after := PerformOpen(file, histories, e, w);
    } else {
      PerformOn(file, histories, e, w);
    }
  }

  method PerformOpen(file: HistoryFile, histories: map<Id, EditorHistory>, e: Event, ghost w: World) returns (after: map<Id, EditorHistory>)
    requires Represents(file, histories, w) && (e.OpenDisabled? || e.OpenShared?) && e.who !in histories
    modifies file
    ensures Represents(file, after, Next(DEFAULT_HISTORY_CAPACITY, w, e).world)
    ensures forall who <- after :: after[who] in histories.Values || fresh(after[who])
  {
    after := histories;
    if e.OpenDisabled? {
      var history := new EditorHistory.Disabled();
      after := histories[e.who := history];
    } else {
      var history := EditorHistory.Open(file, e.fault);
      if history != null {
        after := histories[e.who := history];
      }
    }
  }

  method PerformOn(file: HistoryFile, histories: map<Id, EditorHistory>, e: Event, ghost w: World)
    requires Represents(file, histories, w) && !e.OpenDisabled? && !e.OpenShared? && e.who in histories
    modifies file, histories[e.who]
    ensures Represents(file, histories, Next(DEFAULT_HISTORY_CAPACITY, w, e).world)
  {
    var history := histories[e.who];
    if e.Record? {
      var result := history.Record(e.source, e.fault);
    } else if e.Synchronize? {
      var ok := history.Sync(e.fault);
    } else {
      var ok := history.Clear(e.fault);
    }
  }

  /** Objects that share one file follow the run of any events: the theorems about `Run` are about them. */
  method Simulate(bytes: seq<Byte>, events: seq<Event>) returns (file: HistoryFile, histories: map<Id, EditorHistory>)
    ensures Represents(file, histories, Run(DEFAULT_HISTORY_CAPACITY, bytes, events).world)
  {
    file := new HistoryFile();
    file.WriteAt(0, bytes);
    file.SetLength(|bytes|);
    assert file.bytes == bytes;
    histories := map[];
    for i := 0 to |events|
      invariant fresh(file) && forall who <- histories :: fresh(histories[who])
      invariant Represents(file, histories, Run(DEFAULT_HISTORY_CAPACITY, bytes, events[..i]).world)
    {
      RunSnoc(DEFAULT_HISTORY_CAPACITY, bytes, events[..i], events[i]);
      assert events[..i + 1] == events[..i] + [events[i]];
      ghost var w := Run(DEFAULT_HISTORY_CAPACITY, bytes, events[..i]).world;
      histories := Perform(file, histories, events[i], w);
    }
    assert events[..|events|] == events;
  }
}
