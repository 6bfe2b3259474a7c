/**
  The option parsers of the project plan, execute and task-run commands.

  Each parser advances an index through the arguments and fills its own slots. It is proved to be an
  instance of the table-driven grammar of `Options`, whose results then hold of it: reordering, printing,
  no repetition.
*/
module Cli {
  import opened Wrappers
  import opened Options
  import Utf8

  const PLAN_TABLE: Table := map[
    Project := Path,
    Task := Text,
    Environment := Text,
    Input := NativeInput,
    InputFile := FileInput,
    ExpiresIn := Seconds,
    Out := Path,
    Format := Digest
  ]

  function ExecutionTable(taskRun: bool): Table {
    var common := map[
      Plan := Path,
      Accept := Text,
      RunId := Text,
      SecretStdin := Text,
      Journal := Path,
      RequireTrue := Flag,
      ReceiptOut := Path
    ];
    if taskRun then common[AuditOut := Path] else common
  }

  const HELP := "--help"

  datatype Mode =
    | PlanHelp
    | ExecuteHelp
    | TaskRunHelp
    | ProjectPlan(
        project: Bytes, task: string, environment: string, inputs: seq<Binding>, expires: nat, out: Bytes, digest: bool)
    | Execute(
        plan: Bytes, accept: string, runId: Option<string>, secretStdin: Option<string>, journal: Bytes,
        receiptOut: Option<Bytes>, requireTrue: bool)
    | TaskRun(
        plan: Bytes, accept: string, runId: Option<string>, secretStdin: Option<string>, journal: Bytes,
        receipt: Bytes, requireTrue: bool, auditOut: Bytes)

  // ---------- From slots to modes ----------

  function PathAt(slots: Slots, name: Name): Option<Bytes> {
    if name in slots.values && slots.values[name].PathValue? then Some(slots.values[name].path) else None
  }

  function TextAt(slots: Slots, name: Name): Option<string> {
    if name in slots.values && slots.values[name].TextValue? then Some(slots.values[name].text) else None
  }

  function SecondsAt(slots: Slots, name: Name): Option<nat> {
    if name in slots.values && slots.values[name].SecondsValue? then Some(slots.values[name].seconds) else None
  }

  function ChosenAt(slots: Slots, name: Name): bool { name in slots.values }

  function PlanMode(slots: Slots): Result<Mode, Error> {
    var project, task, environment := PathAt(slots, Project), TextAt(slots, Task), TextAt(slots, Environment);
    var expires, out := SecondsAt(slots, ExpiresIn), PathAt(slots, Out);
    if project.None? then Failure(MissingRequired(Project))
    else if task.None? then Failure(MissingRequired(Task))
    else if environment.None? then Failure(MissingRequired(Environment))
    else if expires.None? then Failure(MissingRequired(ExpiresIn))
    else if out.None? then Failure(MissingRequired(Out))
    else Success(ProjectPlan(project.value, task.value, environment.value, slots.inputs, expires.value, out.value, ChosenAt(slots, Format)))
  }

  function ExecutionMode(slots: Slots, taskRun: bool): Result<Mode, Error> {
    var plan, accept, journal := PathAt(slots, Plan), TextAt(slots, Accept), PathAt(slots, Journal);
    var runId, secretStdin := TextAt(slots, RunId), TextAt(slots, SecretStdin);
    var receipt, audit, requireTrue := PathAt(slots, ReceiptOut), PathAt(slots, AuditOut), ChosenAt(slots, RequireTrue);
    if requireTrue && receipt.None? then Failure(RequireTrueNeedsReceipt)
    else if taskRun && receipt.None? then Failure(MissingRequired(ReceiptOut))
    else if plan.None? then Failure(MissingRequired(Plan))
    else if accept.None? then Failure(MissingRequired(Accept))
    else if journal.None? then Failure(MissingRequired(Journal))
    else if !taskRun then Success(Execute(plan.value, accept.value, runId, secretStdin, journal.value, receipt, requireTrue))
    else if audit.None? then Failure(MissingRequired(AuditOut))
    else Success(TaskRun(plan.value, accept.value, runId, secretStdin, journal.value, receipt.value, requireTrue, audit.value))
  }

  predicate OnlyHelp(arguments: seq<Bytes>) { arguments == [Utf8.Encode(HELP)] }

  function PlanParsed(arguments: seq<Bytes>): Result<Mode, Error> {
    if OnlyHelp(arguments) then Success(PlanHelp)
    else
      var slots := Parse(PLAN_TABLE, EMPTY, arguments);
      if slots.Failure? then Failure(slots.error) else PlanMode(slots.value)
  }

  function ExecutionParsed(arguments: seq<Bytes>, taskRun: bool): Result<Mode, Error> {
    if OnlyHelp(arguments) then Success(if taskRun then TaskRunHelp else ExecuteHelp)
    else
      var slots := Parse(ExecutionTable(taskRun), EMPTY, arguments);
      if slots.Failure? then Failure(slots.error) else ExecutionMode(slots.value, taskRun)
  }

  // ---------- Taking values ----------

  /** Takes a path for a slot that must be empty; `name` is the argument before `index`. */
  method SetPathOption(slot: Option<Bytes>, name: Name, arguments: seq<Bytes>, index: nat) returns (r: Result<Bytes, Error>)
    requires index <= |arguments|
    ensures slot.Some? ==> r == Failure(DuplicateOption(name))
    ensures slot.None? && index == |arguments| ==> r == Failure(MissingValue(name))
    ensures slot.None? && index < |arguments| ==> r == Success(arguments[index])
  {
    if slot.Some? {
      return Failure(DuplicateOption(name));
    }
    if index == |arguments| {
      return Failure(MissingValue(name));
    }
    r := Success(arguments[index]);
  }

  method TextOptionValue(name: Name, arguments: seq<Bytes>, index: nat) returns (r: Result<string, Error>)
    requires index <= |arguments|
    ensures index == |arguments| ==> r == Failure(MissingValue(name))
    ensures index < |arguments| ==> r == ReadText(name, arguments[index])
  {
    if index == |arguments| {
      return Failure(MissingValue(name));
    }
    var text := Utf8.Decode(arguments[index]);
    if text.None? {
      return Failure(ValueNotUtf8(name));
    }
    r := Success(text.value);
  }

  method SetTextOption(slot: Option<string>, name: Name, arguments: seq<Bytes>, index: nat) returns (r: Result<string, Error>)
    requires index <= |arguments|
    ensures slot.Some? ==> r == Failure(DuplicateOption(name))
    ensures slot.None? && index == |arguments| ==> r == Failure(MissingValue(name))
    ensures slot.None? && index < |arguments| ==> r == ReadText(name, arguments[index])
  {
    if slot.Some? {
      return Failure(DuplicateOption(name));
    }
    r := TextOptionValue(name, arguments, index);
  }

  /** Appends a binding whose name is new. */
  method PushBinding(bindings: seq<Binding>, option: Name, arguments: seq<Bytes>, index: nat) returns (r: Result<seq<Binding>, Error>)
    requires index <= |arguments|
    ensures index == |arguments| ==> r == Failure(MissingValue(option))
    ensures index < |arguments| ==>
      var binding := ReadBinding(option, option == InputFile, arguments[index]);
      if binding.Failure? then r == Failure(binding.error)
      else if exists k :: 0 <= k < |bindings| && bindings[k].name == binding.value.name then r == Failure(DuplicateInput(binding.value.name))
      else r == Success(bindings + [binding.value])
  {
    if index == |arguments| {
      return Failure(MissingValue(option));
    }
    var bytes := arguments[index];
    var separator := FirstEquals(bytes);
    if separator.None? {
      return Failure(NoSeparator(option));
    }
    var name := Utf8.Decode(bytes[..separator.value]);
    if name.None? {
      return Failure(InputNameNotUtf8(option));
    }
    if name.value == "" {
      return Failure(EmptyInputName(option));
    }
    for i := 0 to |bindings|
      invariant forall k :: 0 <= k < i ==> bindings[k].name != name.value
    {
      if bindings[i].name == name.value {
        return Failure(DuplicateInput(name.value));
      }
    }
    r := Success(bindings + [Binding(option == InputFile, name.value, bytes[separator.value + 1..])]);
  }

  // ---------- The project plan parser ----------

  datatype PlanSlots = PlanSlots(
    project: Option<Bytes>, task: Option<string>, environment: Option<string>, inputs: seq<Binding>,
    expires: Option<nat>, out: Option<Bytes>, digest: bool)

  function PathEntry(path: Option<Bytes>): Option<Value> { if path.Some? then Some(PathValue(path.value)) else None }
  function TextEntry(text: Option<string>): Option<Value> { if text.Some? then Some(TextValue(text.value)) else None }
  function ChosenEntry(chosen: bool): Option<Value> { if chosen then Some(Chosen) else None }

  function PlanEntry(p: PlanSlots, name: Name): Option<Value> {
    if name == Project then PathEntry(p.project)
    else if name == Task then TextEntry(p.task)
    else if name == Environment then TextEntry(p.environment)
    else if name == ExpiresIn then if p.expires.Some? then Some(SecondsValue(p.expires.value)) else None
    else if name == Out then PathEntry(p.out)
    else if name == Format then ChosenEntry(p.digest)
    else None
  }

  function PlanView(p: PlanSlots): Slots {
    Slots(map name | name in PLAN_TABLE && PlanEntry(p, name).Some? :: PlanEntry(p, name).value, p.inputs)
  }

  /** One slot was filled. */
  lemma PlanViewUpdate(p: PlanSlots, p': PlanSlots, name: Name, value: Value)
    requires name in PLAN_TABLE && p'.inputs == p.inputs
    requires forall n :: PlanEntry(p', n) == if n == name then Some(value) else PlanEntry(p, n)
    ensures PlanView(p') == Extend(PlanView(p), Setting(name, value))
  {
  }

  lemma PlanInputsUpdate(p: PlanSlots, inputs: seq<Binding>)
    ensures PlanView(p.(inputs := inputs)) == PlanView(p).(inputs := inputs)
  {
    assert PlanView(p.(inputs := inputs)).values == PlanView(p).values;
  }

  const NO_PLAN := PlanSlots(None, None, None, [], None, None, false)

  lemma PlanStartsEmpty()
    ensures PlanView(NO_PLAN) == EMPTY
  {
  }

  predicate PlanAgrees(r: Result<(PlanSlots, nat), Error>, step: Result<(Slots, nat), Error>, index: nat) {
    if r.Success? then step == Success((PlanView(r.value.0), r.value.1 - index)) else step == Failure(r.error)
  }

  method PlanFormat(p: PlanSlots, arguments: seq<Bytes>, index: nat) returns (r: Result<(PlanSlots, nat), Error>)
    requires index < |arguments| && OptionAt(arguments[index]) == Success(Format)
    ensures PlanAgrees(r, Step(PLAN_TABLE, PlanView(p), arguments[index..]), index)
  {
    StepAtDigest(PLAN_TABLE, PlanView(p), arguments[index..], Format);
    if p.digest {
      return Failure(DuplicateOption(Format));
    }
    var text := TextOptionValue(Format, arguments, index + 1);
    if text.Failure? {
      return Failure(text.error);
    }
    if text.value != DIGEST {
      return Failure(BadFormat);
    }
    PlanViewUpdate(p, p.(digest := true), Format, Chosen);
    r := Success((p.(digest := true), index + 2));
  }

  method PlanExpiry(p: PlanSlots, arguments: seq<Bytes>, index: nat) returns (r: Result<(PlanSlots, nat), Error>)
    requires index < |arguments| && OptionAt(arguments[index]) == Success(ExpiresIn)
    ensures PlanAgrees(r, Step(PLAN_TABLE, PlanView(p), arguments[index..]), index)
  {
    StepAtSeconds(PLAN_TABLE, PlanView(p), arguments[index..], ExpiresIn);
    if p.expires.Some? {
      return Failure(DuplicateOption(ExpiresIn));
    }
    var text := TextOptionValue(ExpiresIn, arguments, index + 1);
    if text.Failure? {
      return Failure(text.error);
    }
    var seconds := ReadSeconds(arguments[index + 1]);
    if seconds.None? {
      return Failure(BadSeconds);
    }
    PlanViewUpdate(p, p.(expires := seconds), ExpiresIn, SecondsValue(seconds.value));
    r := Success((p.(expires := seconds), index + 2));
  }

  method PlanPath(p: PlanSlots, name: Name, arguments: seq<Bytes>, index: nat) returns (r: Result<(PlanSlots, nat), Error>)
    requires index < |arguments| && OptionAt(arguments[index]) == Success(name)
    requires name == Project || name == Out
    ensures PlanAgrees(r, Step(PLAN_TABLE, PlanView(p), arguments[index..]), index)
  {
    StepAtPath(PLAN_TABLE, PlanView(p), arguments[index..], name);
    var path := SetPathOption(if name == Project then p.project else p.out, name, arguments, index + 1);
    if path.Failure? {
      return Failure(path.error);
    }
    var next := if name == Project then p.(project := Some(path.value)) else p.(out := Some(path.value));
    PlanViewUpdate(p, next, name, PathValue(path.value));
    r := Success((next, index + 2));
  }

  method PlanText(p: PlanSlots, name: Name, arguments: seq<Bytes>, index: nat) returns (r: Result<(PlanSlots, nat), Error>)
    requires index < |arguments| && OptionAt(arguments[index]) == Success(name)
    requires name == Task || name == Environment
    ensures PlanAgrees(r, Step(PLAN_TABLE, PlanView(p), arguments[index..]), index)
  {
    StepAtText(PLAN_TABLE, PlanView(p), arguments[index..], name);
    var text := SetTextOption(if name == Task then p.task else p.environment, name, arguments, index + 1);
    if text.Failure? {
      return Failure(text.error);
    }
    var next := if name == Task then p.(task := Some(text.value)) else p.(environment := Some(text.value));
    PlanViewUpdate(p, next, name, TextValue(text.value));
    r := Success((next, index + 2));
  }

  method PlanInput(p: PlanSlots, name: Name, arguments: seq<Bytes>, index: nat) returns (r: Result<(PlanSlots, nat), Error>)
    requires index < |arguments| && OptionAt(arguments[index]) == Success(name)
    requires name == Input || name == InputFile
    ensures PlanAgrees(r, Step(PLAN_TABLE, PlanView(p), arguments[index..]), index)
  {
    StepAtInput(PLAN_TABLE, PlanView(p), arguments[index..], name);
    var inputs := PushBinding(p.inputs, name, arguments, index + 1);
    if inputs.Failure? {
      return Failure(inputs.error);
    }
    PlanInputsUpdate(p, inputs.value);
    r := Success((p.(inputs := inputs.value), index + 2));
  }

  /** One turn of the loop. */
  method PlanTurn(p: PlanSlots, arguments: seq<Bytes>, index: nat) returns (r: Result<(PlanSlots, nat), Error>)
    requires index < |arguments|
    ensures PlanAgrees(r, Step(PLAN_TABLE, PlanView(p), arguments[index..]), index)
  {
    var option := OptionAt(arguments[index]);
    if option.Failure? {
      return Failure(option.error);
    }
    var name := option.value;
    if name == Project || name == Out {
      r := PlanPath(p, name, arguments, index);
    } else if name == Task || name == Environment {
      r := PlanText(p, name, arguments, index);
    } else if name == Input || name == InputFile {
      r := PlanInput(p, name, arguments, index);
    } else if name == ExpiresIn {
      r := PlanExpiry(p, arguments, index);
    } else if name == Format {
      r := PlanFormat(p, arguments, index);
    } else {
      r := Failure(Unexpected(Spelling(name)));
    }
  }

  method PlanParseTurn(p: PlanSlots, arguments: seq<Bytes>, index: nat) returns (r: Result<(PlanSlots, nat), Error>)
    requires index < |arguments|
    ensures r.Failure? ==> Parse(PLAN_TABLE, PlanView(p), arguments[index..]) == Failure(r.error)
    ensures r.Success? ==> index < r.value.1 <= |arguments|
    ensures r.Success? ==>
      Parse(PLAN_TABLE, PlanView(p), arguments[index..]) == Parse(PLAN_TABLE, PlanView(r.value.0), arguments[r.value.1..])
  {
    r := PlanTurn(p, arguments, index);
    if r.Success? {
      ParseAfterStep(PLAN_TABLE, PlanView(p), arguments, index, PlanView(r.value.0), r.value.1);
    } else {
      ParseFails(PLAN_TABLE, PlanView(p), arguments, index, r.error);
    }
  }

  /** Reads all options; `--help` is an option only when it is alone. */
  method PlanOptions(arguments: seq<Bytes>) returns (r: Result<PlanSlots, Error>)
    ensures var slots := Parse(PLAN_TABLE, EMPTY, arguments);
      if r.Success? then slots == Success(PlanView(r.value)) else slots == Failure(r.error)
  {
    var p := NO_PLAN;
    var index := 0;
    PlanStartsEmpty();
    assert arguments[0..] == arguments;
    while index < |arguments|
      invariant 0 <= index <= |arguments|
      invariant Parse(PLAN_TABLE, EMPTY, arguments) == Parse(PLAN_TABLE, PlanView(p), arguments[index..])
    {
      var turn := PlanParseTurn(p, arguments, index);
      if turn.Failure? {
        return Failure(turn.error);
      }
      p, index := turn.value.0, turn.value.1;
    }
    r := Success(p);
  }

  /** Parses the options of `opaal plan --project`. */
  method ParseProjectPlanArgs(arguments: seq<Bytes>) returns (r: Result<Mode, Error>)
    ensures r == PlanParsed(arguments)
  {
    if arguments == [Utf8.Encode(HELP)] {
      return Success(PlanHelp);
    }
    var p := PlanOptions(arguments);
    if p.Failure? {
      return Failure(p.error);
    }
    r := FinishPlan(p.value);
  }

  lemma PlanPathsRead(p: PlanSlots)
    ensures PathAt(PlanView(p), Project) == p.project && PathAt(PlanView(p), Out) == p.out
  {
  }

  lemma PlanTextsRead(p: PlanSlots)
    ensures TextAt(PlanView(p), Task) == p.task && TextAt(PlanView(p), Environment) == p.environment
  {
  }

  lemma PlanChoicesRead(p: PlanSlots)
    ensures SecondsAt(PlanView(p), ExpiresIn) == p.expires && ChosenAt(PlanView(p), Format) == p.digest
  {
  }

  method FinishPlan(p: PlanSlots) returns (r: Result<Mode, Error>)
    ensures r == PlanMode(PlanView(p))
  {
    PlanPathsRead(p);
    PlanTextsRead(p);
    PlanChoicesRead(p);
    if p.project.None? { return Failure(MissingRequired(Project)); }
    if p.task.None? { return Failure(MissingRequired(Task)); }
    if p.environment.None? { return Failure(MissingRequired(Environment)); }
    if p.expires.None? { return Failure(MissingRequired(ExpiresIn)); }
    if p.out.None? { return Failure(MissingRequired(Out)); }
    r := Success(ProjectPlan(p.project.value, p.task.value, p.environment.value, p.inputs, p.expires.value, p.out.value, p.digest));
  }

  // ---------- The execution parser ----------

  datatype ExecutionSlots = ExecutionSlots(
    plan: Option<Bytes>, accept: Option<string>, runId: Option<string>, secretStdin: Option<string>,
    journal: Option<Bytes>, requireTrue: bool, receiptOut: Option<Bytes>, auditOut: Option<Bytes>)

  function ExecutionEntry(e: ExecutionSlots, name: Name): Option<Value> {
    if name == Plan then PathEntry(e.plan)
    else if name == Accept then TextEntry(e.accept)
    else if name == RunId then TextEntry(e.runId)
    else if name == SecretStdin then TextEntry(e.secretStdin)
    else if name == Journal then PathEntry(e.journal)
    else if name == RequireTrue then ChosenEntry(e.requireTrue)
    else if name == ReceiptOut then PathEntry(e.receiptOut)
    else if name == AuditOut then PathEntry(e.auditOut)
    else None
  }

  function ExecutionView(e: ExecutionSlots, taskRun: bool): Slots {
    var table := ExecutionTable(taskRun);
    Slots(map name | name in table && ExecutionEntry(e, name).Some? :: ExecutionEntry(e, name).value, [])
  }

  lemma ExecutionViewUpdate(e: ExecutionSlots, e': ExecutionSlots, taskRun: bool, name: Name, value: Value)
    requires name in ExecutionTable(taskRun)
    requires forall n :: ExecutionEntry(e', n) == if n == name then Some(value) else ExecutionEntry(e, n)
    ensures ExecutionView(e', taskRun) == Extend(ExecutionView(e, taskRun), Setting(name, value))
  {
  }

  const NO_EXECUTION := ExecutionSlots(None, None, None, None, None, false, None, None)

  lemma ExecutionStartsEmpty(taskRun: bool)
    ensures ExecutionView(NO_EXECUTION, taskRun) == EMPTY
  {
  }

  predicate ExecutionAgrees(r: Result<(ExecutionSlots, nat), Error>, step: Result<(Slots, nat), Error>, taskRun: bool, index: nat) {
    if r.Success? then step == Success((ExecutionView(r.value.0, taskRun), r.value.1 - index)) else step == Failure(r.error)
  }

  predicate TakesPath(name: Name, taskRun: bool) {
    name == Plan || name == Journal || name == ReceiptOut || (name == AuditOut && taskRun)
  }

  function PathSlot(e: ExecutionSlots, name: Name): Option<Bytes> {
    if name == Plan then e.plan else if name == Journal then e.journal
    else if name == ReceiptOut then e.receiptOut else e.auditOut
  }

  function WithPath(e: ExecutionSlots, name: Name, path: Bytes): ExecutionSlots {
    if name == Plan then e.(plan := Some(path)) else if name == Journal then e.(journal := Some(path))
    else if name == ReceiptOut then e.(receiptOut := Some(path)) else e.(auditOut := Some(path))
  }

  lemma WithPathUpdate(e: ExecutionSlots, taskRun: bool, name: Name, path: Bytes)
    requires TakesPath(name, taskRun)
    ensures ExecutionView(WithPath(e, name, path), taskRun) == Extend(ExecutionView(e, taskRun), Setting(name, PathValue(path)))
  {
    ExecutionViewUpdate(e, WithPath(e, name, path), taskRun, name, PathValue(path));
  }

  lemma PathSlotIsEntry(e: ExecutionSlots, taskRun: bool, name: Name)
    requires TakesPath(name, taskRun)
    ensures name in ExecutionTable(taskRun) && ExecutionTable(taskRun)[name] == Path
    ensures name in ExecutionView(e, taskRun).values <==> PathSlot(e, name).Some?
  {
  }

  method ExecutionPath(e: ExecutionSlots, name: Name, arguments: seq<Bytes>, taskRun: bool, index: nat)
    returns (r: Result<(ExecutionSlots, nat), Error>)
    requires index < |arguments| && OptionAt(arguments[index]) == Success(name) && TakesPath(name, taskRun)
    ensures ExecutionAgrees(r, Step(ExecutionTable(taskRun), ExecutionView(e, taskRun), arguments[index..]), taskRun, index)
  {
    PathSlotIsEntry(e, taskRun, name);
    StepAtPath(ExecutionTable(taskRun), ExecutionView(e, taskRun), arguments[index..], name);
    var path := SetPathOption(PathSlot(e, name), name, arguments, index + 1);
    if path.Failure? {
      return Failure(path.error);
    }
    WithPathUpdate(e, taskRun, name, path.value);
    r := Success((WithPath(e, name, path.value), index + 2));
  }

  predicate TakesText(name: Name) { name == Accept || name == RunId || name == SecretStdin }

  function TextSlot(e: ExecutionSlots, name: Name): Option<string> {
    if name == Accept then e.accept else if name == RunId then e.runId else e.secretStdin
  }

  function WithText(e: ExecutionSlots, name: Name, text: string): ExecutionSlots {
    if name == Accept then e.(accept := Some(text)) else if name == RunId then e.(runId := Some(text))
    else e.(secretStdin := Some(text))
  }

  lemma WithTextUpdate(e: ExecutionSlots, taskRun: bool, name: Name, text: string)
    requires TakesText(name)
    ensures ExecutionView(WithText(e, name, text), taskRun) == Extend(ExecutionView(e, taskRun), Setting(name, TextValue(text)))
  {
    ExecutionViewUpdate(e, WithText(e, name, text), taskRun, name, TextValue(text));
  }

  lemma TextSlotIsEntry(e: ExecutionSlots, taskRun: bool, name: Name)
    requires TakesText(name)
    ensures name in ExecutionTable(taskRun) && ExecutionTable(taskRun)[name] == Text
    ensures name in ExecutionView(e, taskRun).values <==> TextSlot(e, name).Some?
  {
  }

  method ExecutionText(e: ExecutionSlots, name: Name, arguments: seq<Bytes>, taskRun: bool, index: nat)
    returns (r: Result<(ExecutionSlots, nat), Error>)
    requires index < |arguments| && OptionAt(arguments[index]) == Success(name) && TakesText(name)
    ensures ExecutionAgrees(r, Step(ExecutionTable(taskRun), ExecutionView(e, taskRun), arguments[index..]), taskRun, index)
  {
    TextSlotIsEntry(e, taskRun, name);
    StepAtText(ExecutionTable(taskRun), ExecutionView(e, taskRun), arguments[index..], name);
    var text := SetTextOption(TextSlot(e, name), name, arguments, index + 1);
    if text.Failure? {
      return Failure(text.error);
    }
    WithTextUpdate(e, taskRun, name, text.value);
    r := Success((WithText(e, name, text.value), index + 2));
  }

  /** A second `--require-true` is not a duplicate but an unexpected argument. */
  method ExecutionFlag(e: ExecutionSlots, arguments: seq<Bytes>, taskRun: bool, index: nat)
    returns (r: Result<(ExecutionSlots, nat), Error>)
    requires index < |arguments| && OptionAt(arguments[index]) == Success(RequireTrue)
    ensures ExecutionAgrees(r, Step(ExecutionTable(taskRun), ExecutionView(e, taskRun), arguments[index..]), taskRun, index)
  {
    StepAtFlag(ExecutionTable(taskRun), ExecutionView(e, taskRun), arguments[index..], RequireTrue);
    if e.requireTrue {
      return Failure(Unexpected(Spelling(RequireTrue)));
    }
    ExecutionViewUpdate(e, e.(requireTrue := true), taskRun, RequireTrue, Chosen);
    r := Success((e.(requireTrue := true), index + 1));
  }

  /** One turn of the loop. */
  method ExecutionTurn(e: ExecutionSlots, arguments: seq<Bytes>, taskRun: bool, index: nat)
    returns (r: Result<(ExecutionSlots, nat), Error>)
    requires index < |arguments|
    ensures ExecutionAgrees(r, Step(ExecutionTable(taskRun), ExecutionView(e, taskRun), arguments[index..]), taskRun, index)
  {
    var option := OptionAt(arguments[index]);
    if option.Failure? {
      StepAtUnknown(ExecutionTable(taskRun), ExecutionView(e, taskRun), arguments[index..]);
      return Failure(option.error);
    }
    var name := option.value;
    if TakesPath(name, taskRun) {
      r := ExecutionPath(e, name, arguments, taskRun, index);
    } else if TakesText(name) {
      r := ExecutionText(e, name, arguments, taskRun, index);
    } else if name == RequireTrue {
      r := ExecutionFlag(e, arguments, taskRun, index);
    } else {
      StepAtUnknown(ExecutionTable(taskRun), ExecutionView(e, taskRun), arguments[index..]);
      r := Failure(Unexpected(Spelling(name)));
    }
  }

  method ExecutionParseTurn(e: ExecutionSlots, arguments: seq<Bytes>, taskRun: bool, index: nat)
    returns (r: Result<(ExecutionSlots, nat), Error>)
    requires index < |arguments|
    ensures var table := ExecutionTable(taskRun);
      if r.Failure? then Parse(table, ExecutionView(e, taskRun), arguments[index..]) == Failure(r.error)
      else
        && index < r.value.1 <= |arguments|
        && Parse(table, ExecutionView(e, taskRun), arguments[index..])
             == Parse(table, ExecutionView(r.value.0, taskRun), arguments[r.value.1..])
  {
    r := ExecutionTurn(e, arguments, taskRun, index);
    if r.Success? {
      ParseAfterStep(
        ExecutionTable(taskRun), ExecutionView(e, taskRun), arguments, index, ExecutionView(r.value.0, taskRun), r.value.1);
    } else {
      ParseFails(ExecutionTable(taskRun), ExecutionView(e, taskRun), arguments, index, r.error);
    }
  }

  method ExecutionOptions(arguments: seq<Bytes>, taskRun: bool) returns (r: Result<ExecutionSlots, Error>)
    ensures var slots := Parse(ExecutionTable(taskRun), EMPTY, arguments);
      if r.Success? then slots == Success(ExecutionView(r.value, taskRun)) else slots == Failure(r.error)
  {
    var e := NO_EXECUTION;
    var index := 0;
    ghost var table := ExecutionTable(taskRun);
    ExecutionStartsEmpty(taskRun);
    assert arguments[0..] == arguments;
    while index < |arguments|
      invariant 0 <= index <= |arguments|
      invariant Parse(table, EMPTY, arguments) == Parse(table, ExecutionView(e, taskRun), arguments[index..])
    {
      var turn := ExecutionParseTurn(e, arguments, taskRun, index);
      if turn.Failure? {
        return Failure(turn.error);
      }
      e, index := turn.value.0, turn.value.1;
    }
    r := Success(e);
  }

  /** Parses the options of `opaal execute` and `opaal task run`. */
  method ParseExecutionArgs(arguments: seq<Bytes>, taskRun: bool) returns (r: Result<Mode, Error>)
    ensures r == ExecutionParsed(arguments, taskRun)
  {
    if arguments == [Utf8.Encode(HELP)] {
      return Success(if taskRun then TaskRunHelp else ExecuteHelp);
    }
    var e := ExecutionOptions(arguments, taskRun);
    if e.Failure? {
      return Failure(e.error);
    }
    r := FinishExecution(e.value, taskRun);
  }

  lemma ExecutionPathsRead(e: ExecutionSlots, taskRun: bool)
    ensures PathAt(ExecutionView(e, taskRun), Plan) == e.plan
    ensures PathAt(ExecutionView(e, taskRun), Journal) == e.journal
  {
  }

  lemma ExecutionOutputsRead(e: ExecutionSlots, taskRun: bool)
    ensures PathAt(ExecutionView(e, taskRun), ReceiptOut) == e.receiptOut
  {
  }

  lemma ExecutionAuditReads(e: ExecutionSlots, taskRun: bool)
    ensures PathAt(ExecutionView(e, taskRun), AuditOut) == if taskRun then e.auditOut else None
  {
  }

  lemma ExecutionTextsRead(e: ExecutionSlots, taskRun: bool)
    ensures TextAt(ExecutionView(e, taskRun), Accept) == e.accept
    ensures TextAt(ExecutionView(e, taskRun), RunId) == e.runId
    ensures TextAt(ExecutionView(e, taskRun), SecretStdin) == e.secretStdin
    ensures ChosenAt(ExecutionView(e, taskRun), RequireTrue) == e.requireTrue
  {
  }

  method FinishExecution(e: ExecutionSlots, taskRun: bool) returns (r: Result<Mode, Error>)
    ensures r == ExecutionMode(ExecutionView(e, taskRun), taskRun)
  {
    ExecutionPathsRead(e, taskRun);
    ExecutionOutputsRead(e, taskRun);
    ExecutionAuditReads(e, taskRun);
    ExecutionTextsRead(e, taskRun);
    if e.requireTrue && e.receiptOut.None? { return Failure(RequireTrueNeedsReceipt); }
    if taskRun {
      if e.receiptOut.None? { return Failure(MissingRequired(ReceiptOut)); }
      if e.plan.None? { return Failure(MissingRequired(Plan)); }
      if e.accept.None? { return Failure(MissingRequired(Accept)); }
      if e.journal.None? { return Failure(MissingRequired(Journal)); }
      if e.auditOut.None? { return Failure(MissingRequired(AuditOut)); }
      return Success(TaskRun(
        e.plan.value, e.accept.value, e.runId, e.secretStdin, e.journal.value, e.receiptOut.value, e.requireTrue, e.auditOut.value));
    }
    if e.plan.None? { return Failure(MissingRequired(Plan)); }
    if e.accept.None? { return Failure(MissingRequired(Accept)); }
    if e.journal.None? { return Failure(MissingRequired(Journal)); }
    r := Success(Execute(e.plan.value, e.accept.value, e.runId, e.secretStdin, e.journal.value, e.receiptOut, e.requireTrue));
  }

  // ---------- Reordering ----------

  /** Reordering the groups of an accepted plan command keeps its mode, if inputs keep their relative order. */
  lemma PlanReordering(chunks: seq<Chunk>, others: seq<Chunk>)
    requires Reordered(PLAN_TABLE, chunks, others) && PlanParsed(Flatten(chunks)).Success?
    requires InputsOf(GroupsOf(PLAN_TABLE, chunks)) == InputsOf(GroupsOf(PLAN_TABLE, others))
    ensures PlanParsed(Flatten(others)) == PlanParsed(Flatten(chunks))
  {
    ChunksAreNotHelp(PLAN_TABLE, chunks);
    ChunksAreNotHelp(PLAN_TABLE, others);
    ReorderingIsInvisible(PLAN_TABLE, chunks, others);
  }

  lemma ExecutionTakesNoInputs(taskRun: bool)
    ensures forall name <- ExecutionTable(taskRun) :: !Repeatable(ExecutionTable(taskRun)[name])
  {
  }

  /** Reordering the groups of an accepted execute or task-run command keeps its mode. */
  lemma ExecutionReordering(chunks: seq<Chunk>, others: seq<Chunk>, taskRun: bool)
    requires Reordered(ExecutionTable(taskRun), chunks, others) && ExecutionParsed(Flatten(chunks), taskRun).Success?
    ensures ExecutionParsed(Flatten(others), taskRun) == ExecutionParsed(Flatten(chunks), taskRun)
  {
    var table := ExecutionTable(taskRun);
    ChunksAreNotHelp(table, chunks);
    ChunksAreNotHelp(table, others);
    ExecutionTakesNoInputs(taskRun);
    NoInputs(table, chunks);
    NoInputs(table, others);
    ReorderingIsInvisible(table, chunks, others);
  }

  lemma HelpIsNoOption()
    ensures OptionAt(Utf8.Encode(HELP)) == Failure(Unexpected(HELP))
  {
    Utf8.DecodeInvertsEncode(HELP);
  }

  lemma ChunksAreNotHelp(table: Table, chunks: seq<Chunk>)
    requires Chunked(table, chunks)
    ensures !OnlyHelp(Flatten(chunks))
  {
    HelpIsNoOption();
    if chunks != [] {
      assert IsChunk(table, chunks[0]);
      assert Flatten(chunks)[0] == chunks[0][0];
    }
  }

  lemma {:induction false} NoInputs(table: Table, chunks: seq<Chunk>)
    requires Chunked(table, chunks) && forall name <- table :: !Repeatable(table[name])
    ensures InputsOf(GroupsOf(table, chunks)) == []
  {
    if chunks != [] {
      assert IsChunk(table, chunks[0]);
      assert GroupsOf(table, chunks)[1..] == GroupsOf(table, chunks[1..]);
      NoInputs(table, chunks[1..]);
    }
  }

  // ---------- Printing modes ----------

  /** The modes of the plan parser that are not help. */
  predicate PlanRepresentable(mode: Mode) {
    mode.ProjectPlan? && 0 < mode.expires <= 900 && WellFormedInputs(PLAN_TABLE, mode.inputs)
  }

  function PlanSlotsFrom(mode: Mode): PlanSlots
    requires mode.ProjectPlan?
  {
    PlanSlots(
      Some(mode.project), Some(mode.task), Some(mode.environment), mode.inputs, Some(mode.expires), Some(mode.out), mode.digest)
  }

  function PlanSlotsOf(mode: Mode): Slots
    requires mode.ProjectPlan?
  {
    PlanView(PlanSlotsFrom(mode))
  }

  predicate ExecutionRepresentable(mode: Mode, taskRun: bool) {
    if taskRun then mode.TaskRun? else mode.Execute? && (mode.requireTrue ==> mode.receiptOut.Some?)
  }

  function ExecutionSlotsFrom(mode: Mode, taskRun: bool): ExecutionSlots
    requires ExecutionRepresentable(mode, taskRun)
  {
    ExecutionSlots(
      Some(mode.plan), Some(mode.accept), mode.runId, mode.secretStdin, Some(mode.journal), mode.requireTrue,
      if taskRun then Some(mode.receipt) else mode.receiptOut, if taskRun then Some(mode.auditOut) else None)
  }

  function ExecutionSlotsOf(mode: Mode, taskRun: bool): Slots
    requires ExecutionRepresentable(mode, taskRun)
  {
    ExecutionView(ExecutionSlotsFrom(mode, taskRun), taskRun)
  }

  lemma PlanEntriesFit(p: PlanSlots, name: Name)
    requires name in PLAN_TABLE && PlanEntry(p, name).Some? && (p.expires.Some? ==> 0 < p.expires.value <= 900)
    ensures Fits(PLAN_TABLE[name], PlanEntry(p, name).value)
  {
  }

  lemma ExecutionEntriesFit(e: ExecutionSlots, taskRun: bool, name: Name)
    requires name in ExecutionTable(taskRun) && ExecutionEntry(e, name).Some?
    ensures Fits(ExecutionTable(taskRun)[name], ExecutionEntry(e, name).value)
  {
  }

  lemma PlanSlotsAreWellFormed(mode: Mode)
    requires PlanRepresentable(mode)
    ensures WellFormed(PLAN_TABLE, PlanSlotsOf(mode))
  {
    var slots := PlanSlotsOf(mode);
    var p := PlanSlotsFrom(mode);
    forall name <- slots.values
      ensures name in PLAN_TABLE && Fits(PLAN_TABLE[name], slots.values[name])
    {
      PlanEntriesFit(p, name);
    }
  }

  lemma ExecutionSlotsAreWellFormed(mode: Mode, taskRun: bool)
    requires ExecutionRepresentable(mode, taskRun)
    ensures WellFormed(ExecutionTable(taskRun), ExecutionSlotsOf(mode, taskRun))
  {
    var slots, table, e := ExecutionSlotsOf(mode, taskRun), ExecutionTable(taskRun), ExecutionSlotsFrom(mode, taskRun);
    forall name <- slots.values
      ensures name in table && Fits(table[name], slots.values[name])
    {
      ExecutionEntriesFit(e, taskRun, name);
    }
  }

  /** A mode is what its own slots mean. */
  lemma PlanModeInvertsSlots(mode: Mode)
    requires PlanRepresentable(mode)
    ensures PlanMode(PlanSlotsOf(mode)) == Success(mode)
  {
    PlanPathsRead(PlanSlotsFrom(mode));
    PlanTextsRead(PlanSlotsFrom(mode));
    PlanChoicesRead(PlanSlotsFrom(mode));
  }

  lemma ExecutionModeInvertsSlots(mode: Mode, taskRun: bool)
    requires ExecutionRepresentable(mode, taskRun)
    ensures ExecutionMode(ExecutionSlotsOf(mode, taskRun), taskRun) == Success(mode)
  {
    ExecutionPathsRead(ExecutionSlotsFrom(mode, taskRun), taskRun);
    ExecutionOutputsRead(ExecutionSlotsFrom(mode, taskRun), taskRun);
    ExecutionAuditReads(ExecutionSlotsFrom(mode, taskRun), taskRun);
    ExecutionTextsRead(ExecutionSlotsFrom(mode, taskRun), taskRun);
  }

  lemma AcceptedIsNotHelp(table: Table, arguments: seq<Bytes>)
    requires Parse(table, EMPTY, arguments).Success?
    ensures !OnlyHelp(arguments)
  {
    var chunks := AcceptedListSplits(table, EMPTY, arguments);
    ChunksAreNotHelp(table, chunks);
  }

  predicate Covers(names: seq<Name>, slots: Slots) {
    NoRepeats(names) && forall name <- slots.values :: name in names
  }

  function PlanPrinted(mode: Mode, names: seq<Name>): seq<Bytes>
    requires PlanRepresentable(mode) && NoRepeats(names)
  {
    PlanSlotsAreWellFormed(mode);
    PrintedSlots(PLAN_TABLE, names, PlanSlotsOf(mode))
  }

  function ExecutionPrinted(mode: Mode, taskRun: bool, names: seq<Name>): seq<Bytes>
    requires ExecutionRepresentable(mode, taskRun) && NoRepeats(names)
  {
    ExecutionSlotsAreWellFormed(mode, taskRun);
    PrintedSlots(ExecutionTable(taskRun), names, ExecutionSlotsOf(mode, taskRun))
  }

  /** Printing a plan mode as options, in any order, and parsing them gives the mode back. */
  lemma ParseInvertsPlanPrinted(mode: Mode, names: seq<Name>)
    requires PlanRepresentable(mode) && Covers(names, PlanSlotsOf(mode))
    ensures PlanParsed(PlanPrinted(mode, names)) == Success(mode)
  {
    PlanSlotsAreWellFormed(mode);
    PlanModeInvertsSlots(mode);
    ParseInvertsPrintedSlots(PLAN_TABLE, names, PlanSlotsOf(mode));
    AcceptedIsNotHelp(PLAN_TABLE, PlanPrinted(mode, names));
  }

  lemma ParseInvertsExecutionPrinted(mode: Mode, taskRun: bool, names: seq<Name>)
    requires ExecutionRepresentable(mode, taskRun) && Covers(names, ExecutionSlotsOf(mode, taskRun))
    ensures ExecutionParsed(ExecutionPrinted(mode, taskRun, names), taskRun) == Success(mode)
  {
    ExecutionSlotsAreWellFormed(mode, taskRun);
    ExecutionModeInvertsSlots(mode, taskRun);
    ParseInvertsPrintedSlots(ExecutionTable(taskRun), names, ExecutionSlotsOf(mode, taskRun));
    AcceptedIsNotHelp(ExecutionTable(taskRun), ExecutionPrinted(mode, taskRun, names));
  }

  lemma {:induction false} SomeOrder(keys: set<Name>) returns (names: seq<Name>)
    ensures NoRepeats(names) && forall name :: name in names <==> name in keys
  {
    names := [];
    if keys != {} {
      var name :| name in keys;
      var others := SomeOrder(keys - {name});
      names := [name] + others;
    }
  }

  /** Some argument list is parsed to the mode. */
  ghost predicate PlanReaches(mode: Mode) {
    exists arguments :: PlanParsed(arguments) == Success(mode)
  }

  ghost predicate ExecutionReaches(mode: Mode, taskRun: bool) {
    exists arguments :: ExecutionParsed(arguments, taskRun) == Success(mode)
  }

  lemma PlanTableIsRegular()
    ensures Regular(PLAN_TABLE)
  {
  }

  lemma WellFormedPlanIsRepresentable(slots: Slots)
    requires WellFormed(PLAN_TABLE, slots) && PlanMode(slots).Success?
    ensures PlanRepresentable(PlanMode(slots).value)
  {
    assert Fits(PLAN_TABLE[ExpiresIn], slots.values[ExpiresIn]);
  }

  lemma ReachedPlanIsRepresentable(mode: Mode, arguments: seq<Bytes>)
    requires PlanParsed(arguments) == Success(mode)
    ensures mode == PlanHelp || PlanRepresentable(mode)
  {
    if !OnlyHelp(arguments) {
      PlanTableIsRegular();
      ParsedIsWellFormed(PLAN_TABLE, EMPTY, arguments);
      WellFormedPlanIsRepresentable(Parse(PLAN_TABLE, EMPTY, arguments).value);
    }
  }

  lemma ReachedExecutionIsRepresentable(mode: Mode, taskRun: bool, arguments: seq<Bytes>)
    requires ExecutionParsed(arguments, taskRun) == Success(mode)
    ensures mode == (if taskRun then TaskRunHelp else ExecuteHelp) || ExecutionRepresentable(mode, taskRun)
  {
  }

  /**
    The plan modes are exactly help and those with an expiry of 1 to 900 seconds and inputs that have
    distinct, nonempty names without `=`.
   */
  lemma PlanModesAreExactlyTheRepresentable(mode: Mode)
    ensures PlanReaches(mode) <==> mode == PlanHelp || PlanRepresentable(mode)
  {
    if PlanReaches(mode) {
      var arguments :| PlanParsed(arguments) == Success(mode);
      ReachedPlanIsRepresentable(mode, arguments);
    } else if mode == PlanHelp {
      assert PlanParsed([Utf8.Encode(HELP)]) == Success(mode);
    } else if PlanRepresentable(mode) {
      var names := SomeOrder(PlanSlotsOf(mode).values.Keys);
      ParseInvertsPlanPrinted(mode, names);
    }
  }

  /** The execution modes are exactly help and those that name a receipt whenever they require truth. */
  lemma ExecutionModesAreExactlyTheRepresentable(mode: Mode, taskRun: bool)
    ensures ExecutionReaches(mode, taskRun)
      <==> mode == (if taskRun then TaskRunHelp else ExecuteHelp) || ExecutionRepresentable(mode, taskRun)
  {
    if ExecutionReaches(mode, taskRun) {
      var arguments :| ExecutionParsed(arguments, taskRun) == Success(mode);
      ReachedExecutionIsRepresentable(mode, taskRun, arguments);
    } else if mode == if taskRun then TaskRunHelp else ExecuteHelp {
      assert ExecutionParsed([Utf8.Encode(HELP)], taskRun) == Success(mode);
    } else if ExecutionRepresentable(mode, taskRun) {
      var names := SomeOrder(ExecutionSlotsOf(mode, taskRun).values.Keys);
      ParseInvertsExecutionPrinted(mode, taskRun, names);
    }
  }
}
