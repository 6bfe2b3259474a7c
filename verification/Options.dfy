/**
  The option grammar of the command line, as one table-driven parser.

  A table says what each option takes. Arguments are read group by group: an option name and, unless it is
  a flag, one value. The results are about every table: which lists are accepted, what they denote, that
  the order of the groups does not matter, and that printing inverts reading.
*/
module Options {
  import opened Wrappers
  import Utf8
  import Frames

  type Bytes = seq<Byte>

  const EQUALS: Byte := 61
  const SUFFIX: Byte := 115
  const PLUS: Byte := 43

  datatype Kind = Path | Text | Seconds | Digest | Flag | NativeInput | FileInput

  predicate Repeatable(kind: Kind) { kind.NativeInput? || kind.FileInput? }

  type Table = map<Name, Kind>

  datatype Name =
    | Project | Task | Environment | Input | InputFile | ExpiresIn | Out | Format
    | Plan | Accept | RunId | SecretStdin | Journal | RequireTrue | ReceiptOut | AuditOut

  datatype Binding = Binding(file: bool, name: string, value: Bytes)

  datatype Value = PathValue(path: Bytes) | TextValue(text: string) | SecondsValue(seconds: nat) | Chosen

  datatype Group = Setting(name: Name, value: Value) | Given(binding: Binding)

  /** What a group claims for itself: an option, or the name of an input. */
  datatype Key = OptionKey(name: Name) | InputKey(input: string)

  datatype Slots = Slots(values: map<Name, Value>, inputs: seq<Binding>)

  const EMPTY := Slots(map[], [])

  datatype Error =
    | NameNotUtf8
    | Unexpected(argument: string)
    | DuplicateOption(name: Name)
    | MissingValue(name: Name)
    | ValueNotUtf8(name: Name)
    | BadSeconds
    | BadFormat
    | NoSeparator(name: Name)
    | InputNameNotUtf8(name: Name)
    | EmptyInputName(name: Name)
    | DuplicateInput(input: string)
    | MissingRequired(name: Name)
    | RequireTrueNeedsReceipt

  // ---------- Names ----------

  function Spelling(name: Name): string {
    match name
    case Project => "--project"
    case Task => "--task"
    case Environment => "--environment"
    case Input => "--input"
    case InputFile => "--input-file"
    case ExpiresIn => "--expires-in"
    case Out => "--out"
    case Format => "--format"
    case Plan => "--plan"
    case Accept => "--accept"
    case RunId => "--run-id"
    case SecretStdin => "--secret-stdin"
    case Journal => "--journal"
    case RequireTrue => "--require-true"
    case ReceiptOut => "--receipt-out"
    case AuditOut => "--audit-out"
  }

  /** No two options are spelled alike. */
  lemma SpellingInjective(name: Name, other: Name)
    requires Spelling(name) == Spelling(other)
    ensures name == other
  {
  }

  lemma SpelledOnce()
    ensures forall name, other :: Spelling(name) == Spelling(other) ==> name == other
  {
    forall name, other | Spelling(name) == Spelling(other)
      ensures name == other
    {
      SpellingInjective(name, other);
    }
  }

  /** The option that is spelled `text`. */
  function Named(text: string): Option<Name> {
    if exists name: Name :: Spelling(name) == text then
      SpelledOnce();
      var name: Name :| Spelling(name) == text;
      Some(name)
    else None
  }

  /** The option that an argument names. */
  function OptionAt(argument: Bytes): Result<Name, Error> {
    var text := Utf8.Decode(argument);
    if text.None? then Failure(NameNotUtf8)
    else if Named(text.value).None? then Failure(Unexpected(text.value))
    else Success(Named(text.value).value)
  }

  function OptionBytes(name: Name): Bytes { Utf8.Encode(Spelling(name)) }

  lemma OptionAtInvertsOptionBytes(name: Name)
    ensures OptionAt(OptionBytes(name)) == Success(name)
  {
    Utf8.DecodeInvertsEncode(Spelling(name));
    SpellingInjective(Named(Spelling(name)).value, name);
  }

  // ---------- Values ----------

  /** The first `=`. */
  function FirstEquals(b: Bytes): (r: Option<nat>)
    ensures r.Some? ==> r.value < |b| && b[r.value] == EQUALS && EQUALS !in b[..r.value]
    ensures r.None? <==> EQUALS !in b
  {
    if b == [] then None
    else if b[0] == EQUALS then Some(0)
    else
      var later := FirstEquals(b[1..]);
      assert b == [b[0]] + b[1..];
      assert later.Some? ==> b[..later.value + 1] == [b[0]] + b[1..][..later.value];
      if later.None? then None else Some(later.value + 1)
  }

  function ReadBinding(option: Name, file: bool, b: Bytes): Result<Binding, Error> {
    var separator := FirstEquals(b);
    if separator.None? then Failure(NoSeparator(option))
    else
      var name := Utf8.Decode(b[..separator.value]);
      if name.None? then Failure(InputNameNotUtf8(option))
      else if name.value == "" then Failure(EmptyInputName(option))
      else Success(Binding(file, name.value, b[separator.value + 1..]))
  }

  function BindingBytes(binding: Binding): Bytes {
    Utf8.Encode(binding.name) + [EQUALS] + binding.value
  }

  predicate ProperName(name: string) { name != "" && '=' !in name }

  /** An accepted binding is the name up to the first `=` and everything after it, and rebuilds its argument. */
  lemma BindingRebuildsItsArgument(option: Name, file: bool, b: Bytes)
    requires ReadBinding(option, file, b).Success?
    ensures var binding := ReadBinding(option, file, b).value;
      ProperName(binding.name) && binding.file == file && BindingBytes(binding) == b
  {
    var separator := FirstEquals(b).value;
    var name := Utf8.Decode(b[..separator]).value;
    Utf8.EncodeInvertsDecode(b[..separator]);
    Utf8.AsciiBytesAreCharacters(name, '=');
    assert b == b[..separator] + [b[separator]] + b[separator + 1..];
  }

  lemma {:induction false} FirstEqualsAfterName(name: Bytes, value: Bytes)
    requires EQUALS !in name
    ensures FirstEquals(name + [EQUALS] + value) == Some(|name|)
  {
    if name != [] {
      FirstEqualsAfterName(name[1..], value);
      assert (name + [EQUALS] + value)[1..] == name[1..] + [EQUALS] + value;
    }
  }

  /** Every proper name with every value is read back, whatever the value contains. */
  lemma ReadBindingInvertsBindingBytes(option: Name, binding: Binding)
    requires ProperName(binding.name)
    ensures ReadBinding(option, binding.file, BindingBytes(binding)) == Success(binding)
  {
    var name := Utf8.Encode(binding.name);
    Utf8.AsciiBytesAreCharacters(binding.name, '=');
    FirstEqualsAfterName(name, binding.value);
    Utf8.DecodeInvertsEncode(binding.name);
    assert BindingBytes(binding)[..|name|] == name;
    assert BindingBytes(binding)[|name| + 1..] == binding.value;
  }

  /** `1s` through `900s`; a plus sign and leading zeros are tolerated. */
  function ReadSeconds(b: Bytes): (r: Option<nat>)
    ensures r.Some? ==> 0 < r.value <= 900
  {
    if b == [] || b[|b| - 1] != SUFFIX then None
    else
      var number := b[..|b| - 1];
      var digits := if number != [] && number[0] == PLUS then number[1..] else number;
      if Frames.Digits(digits) && 0 < Frames.Value(digits) <= 900 then Some(Frames.Value(digits)) else None
  }

  function SecondsBytes(n: nat): Bytes { Frames.Decimal(n) + [SUFFIX] }

  lemma {:induction false} AsciiDecodes(b: Bytes)
    requires forall k :: 0 <= k < |b| ==> b[k] < 0x80
    ensures Utf8.Decode(b).Some?
  {
    if b != [] {
      assert Utf8.ScalarOfWidth(Utf8.Payload(b[..1]), 1);
      AsciiDecodes(b[1..]);
    }
  }

  lemma ReadSecondsInvertsSecondsBytes(n: nat)
    requires 0 < n <= 900
    ensures ReadSeconds(SecondsBytes(n)) == Some(n) && Utf8.Decode(SecondsBytes(n)).Some?
  {
    var digits := Frames.Decimal(n);
    Frames.ValueInvertsDecimal(n);
    assert SecondsBytes(n)[..|digits|] == digits;
    assert Frames.Digit(digits[0]);
    forall k | 0 <= k < |SecondsBytes(n)| ensures SecondsBytes(n)[k] < 0x80 {
      assert k < |digits| ==> Frames.Digit(digits[k]);
    }
    AsciiDecodes(SecondsBytes(n));
  }

  // ---------- Groups ----------

  const DIGEST := "digest"

  function ReadText(name: Name, b: Bytes): Result<string, Error> {
    if Utf8.Decode(b).None? then Failure(ValueNotUtf8(name)) else Success(Utf8.Decode(b).value)
  }

  function ReadValue(kind: Kind, name: Name, b: Bytes): Result<Group, Error>
    requires !kind.Flag?
  {
    match kind
    case Path => Success(Setting(name, PathValue(b)))
    case Text => (
      var text := ReadText(name, b);
      if text.Failure? then Failure(text.error) else Success(Setting(name, TextValue(text.value))))
    case Seconds => (
      var text := ReadText(name, b);
      if text.Failure? then Failure(text.error)
      else if ReadSeconds(b).None? then Failure(BadSeconds)
      else Success(Setting(name, SecondsValue(ReadSeconds(b).value))))
    case Digest => (
      var text := ReadText(name, b);
      if text.Failure? then Failure(text.error)
      else if text.value != DIGEST then Failure(BadFormat)
      else Success(Setting(name, Chosen)))
    case NativeInput => Bound(ReadBinding(name, false, b))
    case FileInput => Bound(ReadBinding(name, true, b))
  }

  function Bound(binding: Result<Binding, Error>): Result<Group, Error> {
    if binding.Success? then Success(Given(binding.value)) else Failure(binding.error)
  }

  /** The group at the front of some arguments, and how many of them it takes. */
  function FirstGroup(table: Table, rest: seq<Bytes>): (r: Result<(Group, nat), Error>)
    requires rest != []
    ensures r.Success? ==> 0 < r.value.1 <= |rest|
  {
    var name := OptionAt(rest[0]);
    if name.Failure? then Failure(name.error)
    else if name.value !in table then Failure(Unexpected(Spelling(name.value)))
    else if table[name.value].Flag? then Success((Setting(name.value, Chosen), 1))
    else if |rest| == 1 then Failure(MissingValue(name.value))
    else
      var group := ReadValue(table[name.value], name.value, rest[1]);
      if group.Failure? then Failure(group.error) else Success((group.value, 2))
  }

  function KeyOf(g: Group): Key {
    match g
    case Setting(name, _) => OptionKey(name)
    case Given(binding) => InputKey(binding.name)
  }

  predicate Taken(slots: Slots, key: Key) {
    match key
    case OptionKey(name) => name in slots.values
    case InputKey(name) => exists k :: 0 <= k < |slots.inputs| && slots.inputs[k].name == name
  }

  function Extend(slots: Slots, g: Group): Slots {
    match g
    case Setting(name, value) => slots.(values := slots.values[name := value])
    case Given(binding) => slots.(inputs := slots.inputs + [binding])
  }

  // ---------- The parser ----------

  /** One turn of the loop. A repeated option is refused before its value is looked at, a repeated input after. */
  function Step(table: Table, slots: Slots, rest: seq<Bytes>): (r: Result<(Slots, nat), Error>)
    requires rest != []
    ensures r.Success? ==> 0 < r.value.1 <= |rest|
  {
    var name := OptionAt(rest[0]);
    if name.Success? && name.value in table && !Repeatable(table[name.value]) && name.value in slots.values then
      Failure(if table[name.value].Flag? then Unexpected(Spelling(name.value)) else DuplicateOption(name.value))
    else
      var first := FirstGroup(table, rest);
      if first.Failure? then Failure(first.error)
      else if first.value.0.Given? && Taken(slots, KeyOf(first.value.0)) then Failure(DuplicateInput(first.value.0.binding.name))
      else Success((Extend(slots, first.value.0), first.value.1))
  }

  lemma StepAtPath(table: Table, slots: Slots, rest: seq<Bytes>, name: Name)
    requires rest != [] && OptionAt(rest[0]) == Success(name) && name in table && table[name].Path?
    ensures Step(table, slots, rest) ==
      if name in slots.values then Failure(DuplicateOption(name))
      else if |rest| == 1 then Failure(MissingValue(name))
      else Success((Extend(slots, Setting(name, PathValue(rest[1]))), 2))
  {
  }

  lemma StepAtText(table: Table, slots: Slots, rest: seq<Bytes>, name: Name)
    requires rest != [] && OptionAt(rest[0]) == Success(name) && name in table && table[name].Text?
    ensures Step(table, slots, rest) ==
      if name in slots.values then Failure(DuplicateOption(name))
      else if |rest| == 1 then Failure(MissingValue(name))
      else if ReadText(name, rest[1]).Failure? then Failure(ReadText(name, rest[1]).error)
      else Success((Extend(slots, Setting(name, TextValue(ReadText(name, rest[1]).value))), 2))
  {
  }

  lemma StepAtDigest(table: Table, slots: Slots, rest: seq<Bytes>, name: Name)
    requires rest != [] && OptionAt(rest[0]) == Success(name) && name in table && table[name].Digest?
    ensures Step(table, slots, rest) ==
      if name in slots.values then Failure(DuplicateOption(name))
      else if |rest| == 1 then Failure(MissingValue(name))
      else if ReadText(name, rest[1]).Failure? then Failure(ReadText(name, rest[1]).error)
      else if ReadText(name, rest[1]).value != DIGEST then Failure(BadFormat)
      else Success((Extend(slots, Setting(name, Chosen)), 2))
  {
  }

  lemma StepAtSeconds(table: Table, slots: Slots, rest: seq<Bytes>, name: Name)
    requires rest != [] && OptionAt(rest[0]) == Success(name) && name in table && table[name].Seconds?
    ensures Step(table, slots, rest) ==
      if name in slots.values then Failure(DuplicateOption(name))
      else if |rest| == 1 then Failure(MissingValue(name))
      else if ReadText(name, rest[1]).Failure? then Failure(ReadText(name, rest[1]).error)
      else if ReadSeconds(rest[1]).None? then Failure(BadSeconds)
      else Success((Extend(slots, Setting(name, SecondsValue(ReadSeconds(rest[1]).value))), 2))
  {
  }

  lemma StepAtFlag(table: Table, slots: Slots, rest: seq<Bytes>, name: Name)
    requires rest != [] && OptionAt(rest[0]) == Success(name) && name in table && table[name].Flag?
    ensures Step(table, slots, rest) ==
      if name in slots.values then Failure(Unexpected(Spelling(name))) else Success((Extend(slots, Setting(name, Chosen)), 1))
  {
  }

  lemma StepAtUnknown(table: Table, slots: Slots, rest: seq<Bytes>)
    requires rest != [] && (OptionAt(rest[0]).Failure? || OptionAt(rest[0]).value !in table)
    ensures Step(table, slots, rest) ==
      Failure(if OptionAt(rest[0]).Failure? then OptionAt(rest[0]).error else Unexpected(Spelling(OptionAt(rest[0]).value)))
  {
  }

  lemma StepAtInput(table: Table, slots: Slots, rest: seq<Bytes>, name: Name)
    requires rest != [] && OptionAt(rest[0]) == Success(name) && name in table && Repeatable(table[name])
    ensures Step(table, slots, rest) ==
      if |rest| == 1 then Failure(MissingValue(name))
      else
        var binding := ReadBinding(name, table[name].FileInput?, rest[1]);
        if binding.Failure? then Failure(binding.error)
        else if Taken(slots, InputKey(binding.value.name)) then Failure(DuplicateInput(binding.value.name))
        else Success((slots.(inputs := slots.inputs + [binding.value]), 2))
  {
  }

  function Parse(table: Table, slots: Slots, rest: seq<Bytes>): Result<Slots, Error>
    decreases |rest|
  {
    if rest == [] then Success(slots)
    else
      var step := Step(table, slots, rest);
      if step.Failure? then Failure(step.error) else Parse(table, step.value.0, rest[step.value.1..])
  }

  /** A successful turn at an index of the whole list. */
  lemma ParseAfterStep(table: Table, slots: Slots, arguments: seq<Bytes>, index: nat, next: Slots, after: nat)
    requires index < |arguments| && Step(table, slots, arguments[index..]) == Success((next, after - index))
    ensures index < after <= |arguments|
    ensures Parse(table, slots, arguments[index..]) == Parse(table, next, arguments[after..])
  {
    assert arguments[index..][after - index..] == arguments[after..];
  }

  /** A turn that fails. */
  lemma ParseFails(table: Table, slots: Slots, arguments: seq<Bytes>, index: nat, error: Error)
    requires index < |arguments| && Step(table, slots, arguments[index..]) == Failure(error)
    ensures Parse(table, slots, arguments[index..]) == Failure(error)
  {
  }

  // ---------- Lists of groups ----------

  type Chunk = seq<Bytes>

  function Flatten(chunks: seq<Chunk>): seq<Bytes> {
    if chunks == [] then [] else chunks[0] + Flatten(chunks[1..])
  }

  predicate IsChunk(table: Table, chunk: Chunk) {
    chunk != [] && FirstGroup(table, chunk).Success? && FirstGroup(table, chunk).value.1 == |chunk|
  }

  function GroupOf(table: Table, chunk: Chunk): Group
    requires IsChunk(table, chunk)
  {
    FirstGroup(table, chunk).value.0
  }

  ghost predicate Chunked(table: Table, chunks: seq<Chunk>) {
    forall k :: 0 <= k < |chunks| ==> IsChunk(table, chunks[k])
  }

  function GroupsOf(table: Table, chunks: seq<Chunk>): seq<Group>
    requires Chunked(table, chunks)
  {
    if chunks == [] then [] else [GroupOf(table, chunks[0])] + GroupsOf(table, chunks[1..])
  }

  function Collected(slots: Slots, groups: seq<Group>): Slots
    decreases groups
  {
    if groups == [] then slots else Collected(Extend(slots, groups[0]), groups[1..])
  }

  /** No group repeats a key, neither of `slots` nor of an earlier group. */
  predicate Distinct(slots: Slots, groups: seq<Group>)
    decreases groups
  {
    groups == [] || (!Taken(slots, KeyOf(groups[0])) && Distinct(Extend(slots, groups[0]), groups[1..]))
  }

  lemma ChunkAtTheFront(table: Table, chunk: Chunk, after: seq<Bytes>)
    requires IsChunk(table, chunk)
    ensures FirstGroup(table, chunk + after) == FirstGroup(table, chunk)
    ensures (chunk + after)[|chunk|..] == after
  {
  }

  lemma FirstGroupIsAChunk(table: Table, rest: seq<Bytes>)
    requires rest != [] && FirstGroup(table, rest).Success?
    ensures var (group, width) := FirstGroup(table, rest).value;
      IsChunk(table, rest[..width]) && GroupOf(table, rest[..width]) == group
  {
  }

  lemma ExtendTakesOneKey(slots: Slots, g: Group, key: Key)
    ensures Taken(Extend(slots, g), key) <==> Taken(slots, key) || key == KeyOf(g)
  {
    if g.Given? && key.InputKey? {
      var inputs := Extend(slots, g).inputs;
      assert inputs[|slots.inputs|] == g.binding;
      assert forall k :: 0 <= k < |slots.inputs| ==> inputs[k] == slots.inputs[k];
    }
  }

  /** A chunk is taken in exactly when its key is free. */
  lemma StepOnAChunk(table: Table, slots: Slots, chunk: Chunk, after: seq<Bytes>)
    requires IsChunk(table, chunk)
    ensures var step := Step(table, slots, chunk + after);
      if Taken(slots, KeyOf(GroupOf(table, chunk))) then step.Failure?
      else step == Success((Extend(slots, GroupOf(table, chunk)), |chunk|))
  {
    ChunkAtTheFront(table, chunk, after);
  }

  /** A successful turn consumed a chunk with a free key. */
  lemma StepTookAChunk(table: Table, slots: Slots, rest: seq<Bytes>)
    requires rest != [] && Step(table, slots, rest).Success?
    ensures var (next, width) := Step(table, slots, rest).value;
      && IsChunk(table, rest[..width])
      && !Taken(slots, KeyOf(GroupOf(table, rest[..width])))
      && next == Extend(slots, GroupOf(table, rest[..width]))
  {
    var width := FirstGroup(table, rest).value.1;
    FirstGroupIsAChunk(table, rest);
    StepOnAChunk(table, slots, rest[..width], rest[width..]);
    assert rest[..width] + rest[width..] == rest;
  }

  /** A list of groups is accepted exactly when it repeats nothing. */
  lemma {:induction false} ParseOfChunks(table: Table, slots: Slots, chunks: seq<Chunk>)
    requires Chunked(table, chunks)
    ensures var parsed := Parse(table, slots, Flatten(chunks));
      if Distinct(slots, GroupsOf(table, chunks)) then parsed == Success(Collected(slots, GroupsOf(table, chunks))) else parsed.Failure?
    decreases chunks
  {
    if chunks != [] {
      var g, after := GroupOf(table, chunks[0]), Flatten(chunks[1..]);
      StepOnAChunk(table, slots, chunks[0], after);
      assert (chunks[0] + after)[|chunks[0]|..] == after;
      assert GroupsOf(table, chunks)[1..] == GroupsOf(table, chunks[1..]);
      ParseOfChunks(table, Extend(slots, g), chunks[1..]);
    }
  }

  lemma ChunkedCons(table: Table, chunk: Chunk, tail: seq<Chunk>)
    requires IsChunk(table, chunk) && Chunked(table, tail)
    ensures Chunked(table, [chunk] + tail) && Flatten([chunk] + tail) == chunk + Flatten(tail)
  {
    assert ([chunk] + tail)[1..] == tail;
  }

  /** An accepted list splits into groups. */
  lemma {:induction false} AcceptedListSplits(table: Table, slots: Slots, rest: seq<Bytes>) returns (chunks: seq<Chunk>)
    requires Parse(table, slots, rest).Success?
    ensures Chunked(table, chunks) && Flatten(chunks) == rest
    decreases |rest|
  {
    if rest == [] {
      chunks := [];
    } else {
      var (next, width) := Step(table, slots, rest).value;
      StepTookAChunk(table, slots, rest);
      var tail := AcceptedListSplits(table, next, rest[width..]);
      chunks := [rest[..width]] + tail;
      ChunkedCons(table, rest[..width], tail);
      assert rest[..width] + rest[width..] == rest;
    }
  }

  // ---------- What a list denotes ----------

  /** No option and no input name occurs twice. */
  predicate Unrepeated(groups: seq<Group>) {
    forall i, j :: 0 <= i < j < |groups| ==> KeyOf(groups[i]) != KeyOf(groups[j])
  }

  predicate Untaken(slots: Slots, groups: seq<Group>) {
    forall k :: 0 <= k < |groups| ==> !Taken(slots, KeyOf(groups[k]))
  }

  lemma {:induction false} DistinctMeans(slots: Slots, groups: seq<Group>)
    ensures Distinct(slots, groups) <==> Untaken(slots, groups) && Unrepeated(groups)
    decreases groups
  {
    if groups != [] {
      var next, tail := Extend(slots, groups[0]), groups[1..];
      DistinctMeans(next, tail);
      forall key
        ensures Taken(next, key) <==> Taken(slots, key) || key == KeyOf(groups[0])
      {
        ExtendTakesOneKey(slots, groups[0], key);
      }
      assert groups == [groups[0]] + tail;
    }
  }

  function InputsOf(groups: seq<Group>): seq<Binding> {
    if groups == [] then []
    else if groups[0].Given? then [groups[0].binding] + InputsOf(groups[1..])
    else InputsOf(groups[1..])
  }

  predicate Holds(values: map<Name, Value>, name: Name, value: Value) {
    name in values && values[name] == value
  }

  lemma {:induction false} CollectedMeans(slots: Slots, groups: seq<Group>)
    requires Distinct(slots, groups)
    ensures Collected(slots, groups).inputs == slots.inputs + InputsOf(groups)
    ensures forall name, value ::
      Holds(Collected(slots, groups).values, name, value) <==> Holds(slots.values, name, value) || Setting(name, value) in groups
    decreases groups
  {
    if groups != [] {
      CollectedMeans(Extend(slots, groups[0]), groups[1..]);
      assert groups == [groups[0]] + groups[1..];
    }
  }

  /** The denotation of a list of groups: the options it sets and its inputs in order. */
  ghost predicate Denotes(groups: seq<Group>, slots: Slots) {
    && (forall name, value :: Holds(slots.values, name, value) <==> Setting(name, value) in groups)
    && slots.inputs == InputsOf(groups)
  }

  /** A list without repetition is accepted as what it denotes; every other list of groups is refused. */
  lemma ParseMeans(table: Table, chunks: seq<Chunk>)
    requires Chunked(table, chunks)
    ensures var parsed := Parse(table, EMPTY, Flatten(chunks)); var groups := GroupsOf(table, chunks);
      if Unrepeated(groups) then parsed.Success? && Denotes(groups, parsed.value) else parsed.Failure?
  {
    var groups := GroupsOf(table, chunks);
    ParseOfChunks(table, EMPTY, chunks);
    DistinctMeans(EMPTY, groups);
    assert Untaken(EMPTY, groups);
    if Unrepeated(groups) {
      CollectedMeans(EMPTY, groups);
      assert forall name, value :: !Holds(EMPTY.values, name, value);
    }
  }

  ghost predicate SplitsInto(table: Table, arguments: seq<Bytes>, chunks: seq<Chunk>) {
    Chunked(table, chunks) && Flatten(chunks) == arguments && Unrepeated(GroupsOf(table, chunks))
  }

  /** The language of a table: sequences of complete groups in which no option and no input name repeats. */
  lemma AcceptedExactlyWhen(table: Table, arguments: seq<Bytes>)
    ensures Parse(table, EMPTY, arguments).Success? <==> exists chunks :: SplitsInto(table, arguments, chunks)
  {
    if Parse(table, EMPTY, arguments).Success? {
      var chunks := AcceptedListSplits(table, EMPTY, arguments);
      ParseMeans(table, chunks);
      assert SplitsInto(table, arguments, chunks);
    } else if exists chunks :: SplitsInto(table, arguments, chunks) {
      var chunks :| SplitsInto(table, arguments, chunks);
      ParseMeans(table, chunks);
    }
  }

  // ---------- Order ----------

  lemma RepeatIsCounted<T>(s: seq<T>, i: nat, j: nat)
    requires i < j < |s| && s[i] == s[j]
    ensures multiset(s)[s[i]] >= 2
  {
    assert s == s[..j] + s[j..];
    assert s[i] in s[..j] && s[j] in s[j..];
    assert multiset(s[..j])[s[i]] >= 1 && multiset(s[j..])[s[i]] >= 1;
  }

  lemma {:induction false} CountedOnce(groups: seq<Group>, g: Group)
    requires Unrepeated(groups)
    ensures multiset(groups)[g] <= 1
  {
    if groups != [] {
      assert groups == [groups[0]] + groups[1..];
      CountedOnce(groups[1..], g);
    }
  }

  lemma ReorderingKeepsUnrepeated(groups: seq<Group>, others: seq<Group>)
    requires multiset(groups) == multiset(others) && Unrepeated(groups)
    ensures Unrepeated(others)
  {
    forall i, j | 0 <= i < j < |others|
      ensures KeyOf(others[i]) != KeyOf(others[j])
    {
      if others[i] == others[j] {
        RepeatIsCounted(others, i, j);
        CountedOnce(groups, others[i]);
      } else {
        assert others[i] in multiset(others) && others[j] in multiset(others);
        assert others[i] in groups && others[j] in groups;
      }
    }
  }

  lemma SameHoldsIsSame(values: map<Name, Value>, others: map<Name, Value>)
    requires forall name, value :: Holds(values, name, value) <==> Holds(others, name, value)
    ensures values == others
  {
    forall name | name in values
      ensures name in others && values[name] == others[name]
    {
      assert Holds(values, name, values[name]);
    }
    forall name | name in others
      ensures name in values
    {
      assert Holds(others, name, others[name]);
    }
  }

  lemma ReorderingKeepsTheValues(groups: seq<Group>, slots: Slots, others: seq<Group>, slots': Slots)
    requires multiset(groups) == multiset(others) && Denotes(groups, slots) && Denotes(others, slots')
    ensures slots.values == slots'.values
  {
    forall g: Group
      ensures g in groups <==> g in others
    {
      assert g in groups <==> g in multiset(groups);
      assert g in others <==> g in multiset(others);
    }
    SameHoldsIsSame(slots.values, slots'.values);
  }

  /** The same groups, perhaps in another order. */
  ghost predicate Reordered(table: Table, chunks: seq<Chunk>, others: seq<Chunk>) {
    Chunked(table, chunks) && Chunked(table, others) && multiset(GroupsOf(table, chunks)) == multiset(GroupsOf(table, others))
  }

  /**
    Every reordering of an accepted list is accepted. It denotes the same options, and the same inputs
    exactly when these keep their relative order.
   */
  lemma ReorderingIsInvisible(table: Table, chunks: seq<Chunk>, others: seq<Chunk>)
    requires Reordered(table, chunks, others) && Parse(table, EMPTY, Flatten(chunks)).Success?
    ensures Parse(table, EMPTY, Flatten(others)).Success?
    ensures Parse(table, EMPTY, Flatten(others)).value.values == Parse(table, EMPTY, Flatten(chunks)).value.values
    ensures Parse(table, EMPTY, Flatten(others)) == Parse(table, EMPTY, Flatten(chunks))
      <==> InputsOf(GroupsOf(table, others)) == InputsOf(GroupsOf(table, chunks))
  {
    var groups, groups' := GroupsOf(table, chunks), GroupsOf(table, others);
    ParseMeans(table, chunks);
    ReorderingKeepsUnrepeated(groups, groups');
    ParseMeans(table, others);
    ReorderingKeepsTheValues(
      groups, Parse(table, EMPTY, Flatten(chunks)).value, groups', Parse(table, EMPTY, Flatten(others)).value);
  }

  function Mapped<A, B>(f: A -> B, s: seq<A>): seq<B> {
    if s == [] then [] else [f(s[0])] + Mapped(f, s[1..])
  }

  lemma {:induction false} MappedConcat<A, B>(f: A -> B, a: seq<A>, b: seq<A>)
    ensures Mapped(f, a + b) == Mapped(f, a) + Mapped(f, b)
  {
    if a == [] {
      assert a + b == b;
    } else {
      assert (a + b)[1..] == a[1..] + b;
      MappedConcat(f, a[1..], b);
    }
  }

  lemma CountWithOneMore<A>(before: seq<A>, x: A, after: seq<A>)
    ensures multiset(before + ([x] + after)) == multiset(before + after) + multiset{x}
  {
    assert multiset(before + ([x] + after)) == multiset(before) + multiset([x] + after);
    assert multiset([x] + after) == multiset{x} + multiset(after);
  }

  lemma Cancel<A>(a: multiset<A>, b: multiset<A>, x: A)
    requires a + multiset{x} == b + multiset{x}
    ensures a == b
  {
    assert a == (a + multiset{x}) - multiset{x};
    assert b == (b + multiset{x}) - multiset{x};
  }

  lemma HeadRemoved<A>(head: A, tail: seq<A>, before: seq<A>, after: seq<A>)
    requires multiset([head] + tail) == multiset(before + ([head] + after))
    ensures multiset(tail) == multiset(before + after)
  {
    CountWithOneMore(before, head, after);
    assert multiset([head] + tail) == multiset(tail) + multiset{head};
    Cancel(multiset(tail), multiset(before + after), head);
  }

  lemma Located<A>(t: seq<A>, x: A) returns (before: seq<A>, after: seq<A>)
    requires x in t
    ensures t == before + ([x] + after)
  {
    var k :| 0 <= k < |t| && t[k] == x;
    before, after := t[..k], t[k + 1..];
  }

  lemma {:induction false} MappedKeepsPermutation<A, B>(f: A -> B, s: seq<A>, t: seq<A>)
    requires multiset(s) == multiset(t)
    ensures multiset(Mapped(f, s)) == multiset(Mapped(f, t))
  {
    if s == [] {
      assert |multiset(t)| == 0;
    } else {
      assert s == [s[0]] + s[1..] && s[0] in multiset(s);
      var before, after := Located(t, s[0]);
      HeadRemoved(s[0], s[1..], before, after);
      MappedKeepsPermutation(f, s[1..], before + after);
      MappedConcat(f, before, [s[0]] + after);
      MappedConcat(f, before, after);
      assert ([s[0]] + after)[1..] == after;
    }
  }

  lemma {:induction false} GroupsOfIsMapped(table: Table, f: Chunk -> Group, chunks: seq<Chunk>)
    requires Chunked(table, chunks)
    requires forall k :: 0 <= k < |chunks| ==> f(chunks[k]) == GroupOf(table, chunks[k])
    ensures GroupsOf(table, chunks) == Mapped(f, chunks)
  {
    if chunks != [] {
      GroupsOfIsMapped(table, f, chunks[1..]);
    }
  }

  /** Permuting the chunks, word for word, is a reordering. */
  lemma PermutedChunksAreReordered(table: Table, chunks: seq<Chunk>, others: seq<Chunk>)
    requires Chunked(table, chunks) && multiset(chunks) == multiset(others)
    ensures Reordered(table, chunks, others)
  {
    forall k | 0 <= k < |others|
      ensures IsChunk(table, others[k])
    {
      assert others[k] in multiset(others);
      assert others[k] in chunks;
    }
    var f := (chunk: Chunk) => if IsChunk(table, chunk) then GroupOf(table, chunk) else Setting(Project, Chosen);
    MappedKeepsPermutation(f, chunks, others);
    GroupsOfIsMapped(table, f, chunks);
    GroupsOfIsMapped(table, f, others);
  }

  // ---------- Printing ----------

  function InputOption(binding: Binding): Name { if binding.file then InputFile else Input }

  predicate Printable(table: Table, g: Group) {
    match g
    case Given(binding) => (
      var option := InputOption(binding);
      ProperName(binding.name) && option in table && table[option] == if binding.file then FileInput else NativeInput)
    case Setting(name, value) => name in table && Fits(table[name], value)
  }

  predicate Fits(kind: Kind, value: Value) {
    match value
    case PathValue(_) => kind.Path?
    case TextValue(_) => kind.Text?
    case SecondsValue(n) => kind.Seconds? && 0 < n <= 900
    case Chosen => kind.Flag? || kind.Digest?
  }

  function ValueBytes(value: Value): Bytes {
    match value
    case PathValue(path) => path
    case TextValue(text) => Utf8.Encode(text)
    case SecondsValue(n) => SecondsBytes(n)
    case Chosen => Utf8.Encode(DIGEST)
  }

  function Printed(table: Table, g: Group): Chunk
    requires Printable(table, g)
  {
    match g
    case Given(binding) => [OptionBytes(InputOption(binding)), BindingBytes(binding)]
    case Setting(name, value) =>
      if table[name].Flag? then [OptionBytes(name)] else [OptionBytes(name), ValueBytes(value)]
  }

  lemma PairIsAChunk(table: Table, name: Name, bytes: Bytes)
    requires name in table && !table[name].Flag? && ReadValue(table[name], name, bytes).Success?
    ensures IsChunk(table, [OptionBytes(name), bytes])
    ensures GroupOf(table, [OptionBytes(name), bytes]) == ReadValue(table[name], name, bytes).value
  {
    OptionAtInvertsOptionBytes(name);
  }

  lemma PrintedValueIsRead(kind: Kind, name: Name, value: Value)
    requires Fits(kind, value) && !kind.Flag?
    ensures ReadValue(kind, name, ValueBytes(value)) == Success(Setting(name, value))
  {
    match value
    case PathValue(_) =>
    case TextValue(text) => Utf8.DecodeInvertsEncode(text);
    case SecondsValue(n) => ReadSecondsInvertsSecondsBytes(n);
    case Chosen => Utf8.DecodeInvertsEncode(DIGEST);
  }

  lemma FlagIsAChunk(table: Table, name: Name)
    requires name in table && table[name].Flag?
    ensures IsChunk(table, [OptionBytes(name)]) && GroupOf(table, [OptionBytes(name)]) == Setting(name, Chosen)
  {
    OptionAtInvertsOptionBytes(name);
  }

  lemma SettingInvertsPrinted(table: Table, name: Name, value: Value)
    requires Printable(table, Setting(name, value))
    ensures var chunk := Printed(table, Setting(name, value)); IsChunk(table, chunk) && GroupOf(table, chunk) == Setting(name, value)
  {
    if table[name].Flag? {
      FlagIsAChunk(table, name);
    } else {
      PrintedValueIsRead(table[name], name, value);
      PairIsAChunk(table, name, ValueBytes(value));
    }
  }

  lemma GivenInvertsPrinted(table: Table, binding: Binding)
    requires Printable(table, Given(binding))
    ensures var chunk := Printed(table, Given(binding)); IsChunk(table, chunk) && GroupOf(table, chunk) == Given(binding)
  {
    PrintedBindingIsRead(table[InputOption(binding)], InputOption(binding), binding);
    PairIsAChunk(table, InputOption(binding), BindingBytes(binding));
  }

  lemma PrintedBindingIsRead(kind: Kind, name: Name, binding: Binding)
    requires ProperName(binding.name) && kind == if binding.file then FileInput else NativeInput
    ensures ReadValue(kind, name, BindingBytes(binding)) == Success(Given(binding))
  {
    ReadBindingInvertsBindingBytes(name, binding);
  }

  /** A printed group is read back as itself. */
  lemma GroupOfInvertsPrinted(table: Table, g: Group)
    requires Printable(table, g)
    ensures IsChunk(table, Printed(table, g)) && GroupOf(table, Printed(table, g)) == g
  {
    match g
    case Given(binding) => GivenInvertsPrinted(table, binding);
    case Setting(name, value) => SettingInvertsPrinted(table, name, value);
  }

  /** The two input options, if any, have the names under which inputs are printed. */
  predicate Regular(table: Table) {
    forall name <- table :: Repeatable(table[name]) ==> name == if table[name].FileInput? then InputFile else Input
  }

  /** Every group that is read is printable. */
  lemma ReadGroupsArePrintable(table: Table, chunk: Chunk)
    requires IsChunk(table, chunk) && Regular(table)
    ensures Printable(table, GroupOf(table, chunk))
  {
    var name := OptionAt(chunk[0]).value;
    if |chunk| == 2 && Repeatable(table[name]) {
      BindingRebuildsItsArgument(name, table[name].FileInput?, chunk[1]);
    }
  }

  // ---------- Slots ----------

  predicate WellFormedValues(table: Table, values: map<Name, Value>) {
    forall name <- values :: name in table && Fits(table[name], values[name])
  }

  predicate WellFormedInputs(table: Table, inputs: seq<Binding>) {
    && (forall k :: 0 <= k < |inputs| ==> Printable(table, Given(inputs[k])))
    && (forall i, j :: 0 <= i < j < |inputs| ==> inputs[i].name != inputs[j].name)
  }

  /** Every option has a value of its kind; inputs have proper names, each once. */
  predicate WellFormed(table: Table, slots: Slots) {
    WellFormedValues(table, slots.values) && WellFormedInputs(table, slots.inputs)
  }

  lemma ExtendIsWellFormed(table: Table, slots: Slots, g: Group)
    requires WellFormed(table, slots) && Printable(table, g) && !Taken(slots, KeyOf(g))
    ensures WellFormed(table, Extend(slots, g))
  {
    if g.Given? {
      var inputs := Extend(slots, g).inputs;
      forall i, j | 0 <= i < j < |inputs|
        ensures inputs[i].name != inputs[j].name
      {
        assert slots.inputs[i].name != g.binding.name;
      }
    }
  }

  lemma {:induction false} ParsedIsWellFormed(table: Table, slots: Slots, rest: seq<Bytes>)
    requires Regular(table) && WellFormed(table, slots) && Parse(table, slots, rest).Success?
    ensures WellFormed(table, Parse(table, slots, rest).value)
    decreases |rest|
  {
    if rest != [] {
      var (next, width) := Step(table, slots, rest).value;
      StepTookAChunk(table, slots, rest);
      ReadGroupsArePrintable(table, rest[..width]);
      ExtendIsWellFormed(table, slots, GroupOf(table, rest[..width]));
      ParsedIsWellFormed(table, next, rest[width..]);
    }
  }

  // ---------- Printing slots ----------

  predicate NoRepeats(names: seq<Name>) {
    forall i, j :: 0 <= i < j < |names| ==> names[i] != names[j]
  }

  /** Settings in the order of `names`, then the inputs. */
  function Groups(names: seq<Name>, slots: Slots): seq<Group> {
    if names == [] then GivenGroups(slots.inputs)
    else if names[0] in slots.values then [Setting(names[0], slots.values[names[0]])] + Groups(names[1..], slots)
    else Groups(names[1..], slots)
  }

  function GivenGroups(inputs: seq<Binding>): seq<Group> {
    if inputs == [] then [] else [Given(inputs[0])] + GivenGroups(inputs[1..])
  }

  predicate AllPrintable(table: Table, groups: seq<Group>) {
    forall k :: 0 <= k < |groups| ==> Printable(table, groups[k])
  }

  function PrintedAll(table: Table, groups: seq<Group>): seq<Chunk>
    requires AllPrintable(table, groups)
  {
    if groups == [] then [] else [Printed(table, groups[0])] + PrintedAll(table, groups[1..])
  }

  lemma {:induction false} ParseInvertsPrintedAll(table: Table, slots: Slots, groups: seq<Group>)
    requires AllPrintable(table, groups) && Distinct(slots, groups)
    ensures Parse(table, slots, Flatten(PrintedAll(table, groups))) == Success(Collected(slots, groups))
    decreases groups
  {
    if groups != [] {
      var chunk, after := Printed(table, groups[0]), Flatten(PrintedAll(table, groups[1..]));
      GroupOfInvertsPrinted(table, groups[0]);
      StepOnAChunk(table, slots, chunk, after);
      assert (chunk + after)[|chunk|..] == after;
      assert PrintedAll(table, groups)[1..] == PrintedAll(table, groups[1..]);
      ParseInvertsPrintedAll(table, Extend(slots, groups[0]), groups[1..]);
    }
  }

  lemma {:induction false} GivenGroupsRebuildTheInputs(table: Table, slots: Slots, inputs: seq<Binding>)
    requires WellFormedInputs(table, slots.inputs + inputs)
    ensures AllPrintable(table, GivenGroups(inputs)) && Distinct(slots, GivenGroups(inputs))
    ensures Collected(slots, GivenGroups(inputs)) == slots.(inputs := slots.inputs + inputs)
    decreases inputs
  {
    if inputs == [] {
      assert slots.inputs + inputs == slots.inputs;
    } else {
      var all, g := slots.inputs + inputs, Given(inputs[0]);
      assert all[|slots.inputs|] == inputs[0];
      assert Extend(slots, g).inputs + inputs[1..] == all;
      assert forall k :: 0 <= k < |slots.inputs| ==> slots.inputs[k] == all[k];
      GivenGroupsRebuildTheInputs(table, Extend(slots, g), inputs[1..]);
      assert GivenGroups(inputs)[1..] == GivenGroups(inputs[1..]);
    }
  }

  /** The values of the options that are not in `names`. */
  function Without(values: map<Name, Value>, names: seq<Name>): map<Name, Value> {
    map name | name in values && name !in names :: values[name]
  }

  lemma {:induction false} GroupsRebuildTheSlots(table: Table, names: seq<Name>, slots: Slots)
    requires WellFormed(table, slots) && NoRepeats(names)
    ensures AllPrintable(table, Groups(names, slots))
    ensures var initial := Slots(Without(slots.values, names), []);
      Distinct(initial, Groups(names, slots)) && Collected(initial, Groups(names, slots)) == slots
    decreases names
  {
    var initial := Slots(Without(slots.values, names), []);
    if names == [] {
      assert initial.values == slots.values;
      assert [] + slots.inputs == slots.inputs;
      GivenGroupsRebuildTheInputs(table, initial, slots.inputs);
    } else {
      var name, later := names[0], names[1..];
      assert name !in later;
      assert names == [name] + later;
      GroupsRebuildTheSlots(table, later, slots);
      if name in slots.values {
        var g := Setting(name, slots.values[name]);
        assert Extend(initial, g).values == Without(slots.values, later);
        assert Groups(names, slots)[1..] == Groups(later, slots);
      } else {
        assert Without(slots.values, names) == Without(slots.values, later);
      }
    }
  }

  function PrintedSlots(table: Table, names: seq<Name>, slots: Slots): seq<Bytes>
    requires WellFormed(table, slots) && NoRepeats(names)
  {
    GroupsRebuildTheSlots(table, names, slots);
    Flatten(PrintedAll(table, Groups(names, slots)))
  }

  /** Printing slots and parsing them gives the slots back, in whatever order the options are printed. */
  lemma ParseInvertsPrintedSlots(table: Table, names: seq<Name>, slots: Slots)
    requires WellFormed(table, slots) && NoRepeats(names) && forall name <- slots.values :: name in names
    ensures Parse(table, EMPTY, PrintedSlots(table, names, slots)) == Success(slots)
  {
    GroupsRebuildTheSlots(table, names, slots);
    assert Slots(Without(slots.values, names), []) == EMPTY;
    ParseInvertsPrintedAll(table, EMPTY, Groups(names, slots));
  }
}
