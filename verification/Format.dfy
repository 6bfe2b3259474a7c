/**
  The formatter's batch orchestration: preflight of every operand in order, then either a report or a
  sequence of replacements that stops at the first failure.

  The formatter itself is an arbitrary function on complete sources; it is idempotent where a theorem
  needs that. The host file system resolves paths to identities, may refuse to read some paths and may
  refuse to replace some, in each case leaving everything as it was.
*/
module Format {
  import opened Wrappers
  import Utf8

  type Bytes = seq<Byte>
  type Path = string
  type Identity = string

  datatype FormatOutcome = Complete(canonical: string) | Incomplete | Invalid

  type Formatter = string -> FormatOutcome

  ghost predicate Idempotent(format: Formatter) {
    forall text: string :: format(text).Complete? ==> format(format(text).canonical) == format(text)
  }

  datatype Operation = Check | Write

  datatype Inspection = Inspection(identity: Identity, permissions: nat)

  datatype Reason =
    | CannotInspect
    | Duplicate(earlier: Path)
    | CannotRead
    | InvalidUtf8(validUpTo: nat)
    | IncompleteInput
    | InvalidInput
    | Noncanonical(start: nat, end: nat)
    | CannotReplace

  datatype FormatFailure = FormatFailure(path: Path, reason: Reason)

  datatype FormatRun = FormatRun(failures: seq<FormatFailure>, changedCount: nat)

  datatype Prepared = Prepared(path: Path, identity: Identity, permissions: nat, original: Bytes, text: string, canonical: string)
  {
    predicate Changed() { original != Utf8.Encode(canonical) }
  }

  type Preflight = seq<Result<Prepared, FormatFailure>>

  /** The host: everything fixed during a run, and the file contents. */
  datatype Host = Host(resolve: map<Path, Inspection>, unreadable: set<Path>, stuck: set<Path>)

  function Readable(host: Host, contents: map<Identity, Bytes>, path: Path): Option<Bytes> {
    if path in host.resolve && path !in host.unreadable && host.resolve[path].identity in contents
    then Some(contents[host.resolve[path].identity]) else None
  }

  // ---------- First difference ----------

  function CommonPrefix(a: string, b: string): string {
    if a == [] || b == [] || a[0] != b[0] then [] else [a[0]] + CommonPrefix(a[1..], b[1..])
  }

  /** It is the longest one. */
  lemma {:induction false} CommonPrefixIsLongest(a: string, b: string)
    ensures CommonPrefix(a, b) <= a && CommonPrefix(a, b) <= b
    ensures var n := |CommonPrefix(a, b)|; n < |a| && n < |b| ==> a[n] != b[n]
  {
    if a != [] && b != [] && a[0] == b[0] {
      CommonPrefixIsLongest(a[1..], b[1..]);
    }
  }

  lemma CommonPrefixSplit(shared: string, a: string, b: string)
    ensures CommonPrefix(shared + a, shared + b) == shared + CommonPrefix(a, b)
  {
    if shared != [] {
      assert (shared + a)[1..] == shared[1..] + a && (shared + b)[1..] == shared[1..] + b;
      CommonPrefixSplit(shared[1..], a, b);
    } else {
      assert shared + a == a && shared + b == b;
    }
  }

  /** The byte offset of the first differing scalar, or the shorter length. */
  method FirstDifference(original: string, canonical: string) returns (offset: nat)
    ensures offset == |Utf8.Encode(CommonPrefix(original, canonical))|
  {
    var i := 0;
    offset := 0;
    while i < |original| && i < |canonical|
      invariant i <= |original| && i <= |canonical| && original[..i] == canonical[..i]
      invariant offset == |Utf8.Encode(original[..i])|
    {
      assert original == original[..i] + original[i..] && canonical == original[..i] + canonical[i..];
      CommonPrefixSplit(original[..i], original[i..], canonical[i..]);
      if original[i] != canonical[i] {
        assert CommonPrefix(original, canonical) == original[..i];
        return;
      }
      assert original[..i + 1] == original[..i] + [original[i]];
      Utf8.EncodeConcat(original[..i], [original[i]]);
      assert Utf8.Encode([original[i]]) == Utf8.EncodeChar(original[i]) + [];
      offset := offset + |Utf8.EncodeChar(original[i])|;
      i := i + 1;
    }
    assert original == original[..i] + original[i..] && canonical == original[..i] + canonical[i..];
    CommonPrefixSplit(original[..i], original[i..], canonical[i..]);
    assert CommonPrefix(original, canonical) == original[..i];
    Utf8.EncodeConcat(original[..i], original[i..]);
    Utf8.EncodeConcat(original[..i], canonical[i..]);
    var shorter := if |Utf8.Encode(original)| <= |Utf8.Encode(canonical)| then |Utf8.Encode(original)| else |Utf8.Encode(canonical)|;
    offset := shorter;
  }

  /** The text around the first difference: what is shared, the differing scalar if any, the rest. */
  function SplitAtDifference(text: string, canonical: string): (parts: (string, string, string))
    ensures text == parts.0 + parts.1 + parts.2 && |parts.1| <= 1
    ensures parts.0 == CommonPrefix(text, canonical) && (parts.1 == [] ==> parts.2 == [])
  {
    CommonPrefixIsLongest(text, canonical);
    var n := |CommonPrefix(text, canonical)|;
    var next := if n < |text| then n + 1 else n;
    (text[..n], text[n..next], text[next..])
  }

  lemma EncodeOne(s: string)
    requires |s| == 1
    ensures Utf8.Encode(s) == Utf8.EncodeChar(s[0])
  {
    assert s[1..] == [];
    assert Utf8.EncodeChar(s[0]) + [] == Utf8.EncodeChar(s[0]);
  }

  function DifferenceSpan(text: string, canonical: string): (nat, nat) {
    var (shared, differing, _) := SplitAtDifference(text, canonical);
    var start := |Utf8.Encode(shared)|;
    (start, start + |Utf8.Encode(differing)|)
  }

  lemma EncodingOfParts(a: string, b: string, c: string)
    ensures Utf8.Encode(a + b + c) == Utf8.Encode(a) + Utf8.Encode(b) + Utf8.Encode(c)
  {
    Utf8.EncodeConcat(a + b, c);
    Utf8.EncodeConcat(a, b);
  }

  /**
    The reported span never cuts a scalar: before it lies the encoding of what is shared, it holds one
    scalar of the source (none at its end), and after it lies the encoding of the rest.
   */
  lemma DifferenceSpanIsAScalar(text: string, canonical: string)
    ensures var span, parts, source := DifferenceSpan(text, canonical), SplitAtDifference(text, canonical), Utf8.Encode(text);
      && span.0 <= span.1 <= |source| && source[..span.0] == Utf8.Encode(parts.0)
      && source[span.0..span.1] == Utf8.Encode(parts.1) && source[span.1..] == Utf8.Encode(parts.2)
  {
    var parts := SplitAtDifference(text, canonical);
    EncodingOfParts(parts.0, parts.1, parts.2);
    ConcatSlices(Utf8.Encode(parts.0), Utf8.Encode(parts.1), Utf8.Encode(parts.2));
  }

  lemma ConcatSlices(a: Bytes, b: Bytes, c: Bytes)
    ensures var all := a + b + c;
      all[..|a|] == a && all[|a|..|a| + |b|] == b && all[|a| + |b|..] == c
  {
  }

  // ---------- Preflight ----------

  function Prepare(host: Host, contents: map<Identity, Bytes>, format: Formatter, path: Path, identities: map<Identity, Path>)
    : Result<Prepared, FormatFailure>
  {
    if path !in host.resolve then Failure(FormatFailure(path, CannotInspect))
    else
      var inspection := host.resolve[path];
      if inspection.identity in identities then
        Failure(FormatFailure(path, Duplicate(identities[inspection.identity])))
      else
        var original := Readable(host, contents, path);
        if original.None? then Failure(FormatFailure(path, CannotRead))
        else
          var text := Utf8.Decode(original.value);
          if text.None? then Failure(FormatFailure(path, InvalidUtf8(Utf8.ValidUpTo(original.value))))
          else
            match format(text.value)
            case Incomplete => Failure(FormatFailure(path, IncompleteInput))
            case Invalid => Failure(FormatFailure(path, InvalidInput))
            case Complete(canonical) =>
              Success(Prepared(path, inspection.identity, inspection.permissions, original.value, text.value, canonical))
  }

  /** An identity is claimed by the first operand that resolves to it, even if that operand fails later. */
  function Claim(host: Host, path: Path, identities: map<Identity, Path>): map<Identity, Path> {
    if path !in host.resolve || host.resolve[path].identity in identities then identities
    else identities[host.resolve[path].identity := path]
  }

  function Claims(host: Host, paths: seq<Path>): map<Identity, Path> {
    if paths == [] then map[] else Claim(host, paths[|paths| - 1], Claims(host, paths[..|paths| - 1]))
  }

  function PrepareAll(host: Host, contents: map<Identity, Bytes>, format: Formatter, paths: seq<Path>): (p: Preflight)
    ensures |p| == |paths|
  {
    if paths == [] then []
    else
      var front, last := paths[..|paths| - 1], paths[|paths| - 1];
      PrepareAll(host, contents, format, front) + [Prepare(host, contents, format, last, Claims(host, front))]
  }

  /** What a prepared operand knows about the disk. */
  predicate Faithful(host: Host, contents: map<Identity, Bytes>, format: Formatter, p: Prepared) {
    && p.path in host.resolve && host.resolve[p.path] == Inspection(p.identity, p.permissions)
    && p.identity in contents && contents[p.identity] == p.original
    && Utf8.Decode(p.original) == Some(p.text) && format(p.text) == Complete(p.canonical)
  }

  predicate PairwiseDistinct(preflight: Preflight) {
    forall i, j :: 0 <= i < j < |preflight| && preflight[i].Success? && preflight[j].Success? ==>
      preflight[i].value.identity != preflight[j].value.identity
  }

  predicate AllFaithful(host: Host, contents: map<Identity, Bytes>, format: Formatter, preflight: Preflight) {
    forall i :: 0 <= i < |preflight| && preflight[i].Success? ==> Faithful(host, contents, format, preflight[i].value)
  }

  /** No two accepted operands are the same file, and each carries what the disk holds. */
  lemma {:induction false} PreflightIsSound(host: Host, contents: map<Identity, Bytes>, format: Formatter, paths: seq<Path>)
    ensures var preflight := PrepareAll(host, contents, format, paths);
      && PairwiseDistinct(preflight) && AllFaithful(host, contents, format, preflight)
      && forall i :: 0 <= i < |paths| && preflight[i].Success? ==>
           preflight[i].value.path == paths[i] && preflight[i].value.identity in Claims(host, paths)
  {
    if paths != [] {
      PreflightIsSound(host, contents, format, paths[..|paths| - 1]);
    }
  }

  // ---------- Reports ----------

  /** The rejections among the first `n` operands, in order. */
  function FailuresOf(preflight: Preflight, n: nat): seq<FormatFailure>
    requires n <= |preflight|
  {
    if n == 0 then []
    else
      var last, earlier := preflight[n - 1], FailuresOf(preflight, n - 1);
      if last.Failure? then earlier + [last.error] else earlier
  }

  function Failures(preflight: Preflight): seq<FormatFailure> { FailuresOf(preflight, |preflight|) }

  /** The accepted operands among the first `n` that are not canonical yet, in order. */
  function PendingOf(preflight: Preflight, n: nat): seq<Prepared>
    requires n <= |preflight|
  {
    if n == 0 then []
    else
      var last, earlier := preflight[n - 1], PendingOf(preflight, n - 1);
      if last.Success? && last.value.Changed() then earlier + [last.value] else earlier
  }

  function Pending(preflight: Preflight): seq<Prepared> { PendingOf(preflight, |preflight|) }

  /** The failure an operand contributes to a check, if any. */
  function Objection(entry: Result<Prepared, FormatFailure>): Option<FormatFailure> {
    match entry
    case Failure(error) => Some(error)
    case Success(p) =>
      if !p.Changed() then None
      else
        var (start, end) := DifferenceSpan(p.text, p.canonical);
        Some(FormatFailure(p.path, Noncanonical(start, end)))
  }

  function ObjectionsOf(preflight: Preflight, n: nat): seq<FormatFailure>
    requires n <= |preflight|
  {
    if n == 0 then []
    else
      var last, earlier := Objection(preflight[n - 1]), ObjectionsOf(preflight, n - 1);
      if last.Some? then earlier + [last.value] else earlier
  }

  function Objections(preflight: Preflight): seq<FormatFailure> { ObjectionsOf(preflight, |preflight|) }

  // ---------- Replacement ----------

  /** The disk after replacing `operands` in order. */
  function Committed(contents: map<Identity, Bytes>, operands: seq<Prepared>): map<Identity, Bytes> {
    if operands == [] then contents
    else
      var last := operands[|operands| - 1];
      Committed(contents, operands[..|operands| - 1])[last.identity := Utf8.Encode(last.canonical)]
  }

  predicate DistinctOperands(operands: seq<Prepared>) {
    forall i, j :: 0 <= i < j < |operands| ==> operands[i].identity != operands[j].identity
  }

  /** Exactly the committed operands change, each to its canonical bytes. */
  lemma {:induction false} CommittedChangesExactlyTheOperands(contents: map<Identity, Bytes>, operands: seq<Prepared>)
    requires DistinctOperands(operands)
    ensures forall i :: 0 <= i < |operands| ==>
      operands[i].identity in Committed(contents, operands)
      && Committed(contents, operands)[operands[i].identity] == Utf8.Encode(operands[i].canonical)
    ensures forall id :: (forall i :: 0 <= i < |operands| ==> operands[i].identity != id) ==>
      (id in Committed(contents, operands) <==> id in contents)
      && (id in contents ==> Committed(contents, operands)[id] == contents[id])
  {
    if operands != [] {
      var front := operands[..|operands| - 1];
      assert forall i :: 0 <= i < |front| ==> front[i] == operands[i];
      CommittedChangesExactlyTheOperands(contents, front);
    }
  }

  lemma {:induction false} PendingAreDistinct(preflight: Preflight, n: nat)
    requires PairwiseDistinct(preflight) && n <= |preflight|
    ensures DistinctOperands(PendingOf(preflight, n))
    ensures forall p <- PendingOf(preflight, n) :: ComesFrom(preflight, n, p)
  {
    if n > 0 {
      PendingAreDistinct(preflight, n - 1);
      forall p | p in PendingOf(preflight, n - 1)
        ensures ComesFrom(preflight, n, p)
        ensures preflight[n - 1].Success? ==> p.identity != preflight[n - 1].value.identity
      {
        assert ComesFrom(preflight, n - 1, p);
      }
    }
  }

  ghost predicate ComesFrom(preflight: Preflight, n: nat, p: Prepared)
    requires n <= |preflight|
  {
    exists k :: 0 <= k < n && preflight[k] == Success(p) && p.Changed()
  }

  lemma {:induction false} PendingOfPrefix(preflight: Preflight, i: nat)
    requires i <= |preflight|
    ensures PendingOf(preflight, i) <= Pending(preflight)
    decreases |preflight| - i
  {
    if i < |preflight| {
      PendingOfPrefix(preflight, i + 1);
    }
  }

  /** How many replacements happen before the first one that the host refuses. */
  function Replaceable(host: Host, operands: seq<Prepared>): (k: nat)
    ensures k <= |operands|
    ensures forall i :: 0 <= i < k ==> operands[i].path !in host.stuck
    ensures k < |operands| ==> operands[k].path in host.stuck
  {
    if operands == [] then 0
    else
      var front := operands[..|operands| - 1];
      var k := Replaceable(host, front);
      if k == |front| && operands[|operands| - 1].path !in host.stuck then k + 1 else k
  }

  /** The target is still what the preflight saw. */
  predicate AsExpected(host: Host, contents: map<Identity, Bytes>, path: Path, expected: Bytes, permissions: nat) {
    && path in host.resolve && host.resolve[path].permissions == permissions
    && host.resolve[path].identity in contents && contents[host.resolve[path].identity] == expected
  }

  /** When an operand's turn comes, its target is still what the preflight saw. */
  predicate ReadyAt(host: Host, before: map<Identity, Bytes>, preflight: Preflight, i: nat)
    requires i < |preflight| && preflight[i].Success?
  {
    var p := preflight[i].value;
    && AsExpected(host, Committed(before, PendingOf(preflight, i)), p.path, p.original, p.permissions)
    && host.resolve[p.path].identity == p.identity
  }

  ghost predicate Ready(host: Host, before: map<Identity, Bytes>, preflight: Preflight) {
    forall i {:trigger ReadyAt(host, before, preflight, i)} ::
      0 <= i < |preflight| && preflight[i].Success? ==> ReadyAt(host, before, preflight, i)
  }

  /** Replacing the earlier operands leaves the next one as the preflight saw it. */
  lemma NextIsAsExpected(host: Host, contents: map<Identity, Bytes>, format: Formatter, preflight: Preflight, i: nat)
    requires PairwiseDistinct(preflight) && AllFaithful(host, contents, format, preflight)
    requires i < |preflight| && preflight[i].Success?
    ensures ReadyAt(host, contents, preflight, i)
  {
    var p, pending := preflight[i].value, PendingOf(preflight, i);
    PendingAreDistinct(preflight, i);
    CommittedChangesExactlyTheOperands(contents, pending);
    assert Faithful(host, contents, format, p);
    forall j | 0 <= j < |pending| ensures pending[j].identity != p.identity {
      assert ComesFrom(preflight, i, pending[j]);
    }
  }

  /**
    What a write without rejected operands does: exactly the first `changedCount` pending operands are
    replaced, up to the first one the host refuses, and that one is reported.
   */
  predicate Wrote(host: Host, before: map<Identity, Bytes>, pending: seq<Prepared>, after: map<Identity, Bytes>, run: FormatRun) {
    var k := Replaceable(host, pending);
    && run.changedCount == k && after == Committed(before, pending[..k])
    && run.failures == if k < |pending| then [FormatFailure(pending[k].path, CannotReplace)] else []
  }

  lemma WroteEverything(host: Host, before: map<Identity, Bytes>, pending: seq<Prepared>)
    requires NoneStuck(host, pending)
    ensures Wrote(host, before, pending, Committed(before, pending), FormatRun([], |pending|))
  {
    assert pending[..|pending|] == pending;
  }

  /** Where the replacements stop when the operand at `i` is the first refused one. */
  lemma WroteUntilRefused(host: Host, before: map<Identity, Bytes>, preflight: Preflight, i: nat)
    requires i < |preflight| && preflight[i].Success? && preflight[i].value.path in host.stuck
    requires preflight[i].value.Changed() && NoneStuck(host, PendingOf(preflight, i))
    ensures var replaced := PendingOf(preflight, i);
      Wrote(host, before, Pending(preflight), Committed(before, replaced),
            FormatRun([FormatFailure(preflight[i].value.path, CannotReplace)], |replaced|))
  {
    PendingOfPrefix(preflight, i + 1);
    var pending, replaced := Pending(preflight), PendingOf(preflight, i);
    assert PendingOf(preflight, i + 1) == replaced + [preflight[i].value];
    assert pending[..|replaced| + 1] == PendingOf(preflight, i + 1);
    assert pending[..|replaced|] == replaced;
    ReplaceableIs(host, pending, |replaced|);
  }

  lemma ReplaceableIs(host: Host, operands: seq<Prepared>, k: nat)
    requires k < |operands| && NoneStuck(host, operands[..k]) && operands[k].path in host.stuck
    ensures Replaceable(host, operands) == k
  {
    var r := Replaceable(host, operands);
    assert forall j :: 0 <= j < k ==> operands[..k][j] == operands[j];
  }

  predicate NoneStuck(host: Host, operands: seq<Prepared>) {
    forall i :: 0 <= i < |operands| ==> operands[i].path !in host.stuck
  }

  datatype Turn = Skipped | Replaced | Refused

  class Filesystem {
    const host: Host
    var contents: map<Identity, Bytes>

    constructor (host: Host, contents: map<Identity, Bytes>)
      ensures this.host == host && this.contents == contents
    {
      this.host, this.contents := host, contents;
    }

    method Inspect(path: Path) returns (r: Option<Inspection>)
      ensures r == if path in host.resolve then Some(host.resolve[path]) else None
    {
      r := if path in host.resolve then Some(host.resolve[path]) else None;
    }

    method Read(path: Path) returns (r: Option<Bytes>)
      ensures r == Readable(host, contents, path)
    {
      r := Readable(host, contents, path);
    }

    /** Succeed and replace, or fail and leave; the target must still be what the preflight saw. */
    method ReplaceAtomically(path: Path, expected: Bytes, replacement: Bytes, permissions: nat) returns (ok: bool)
      modifies this
      ensures ok <==> AsExpected(host, old(contents), path, expected, permissions) && path !in host.stuck
      ensures contents == if ok then old(contents)[host.resolve[path].identity := replacement] else old(contents)
    {
      if path !in host.resolve || host.resolve[path].permissions != permissions || path in host.stuck {
        return false;
      }
      var identity := host.resolve[path].identity;
      if identity !in contents || contents[identity] != expected {
        return false;
      }
      contents := contents[identity := replacement];
      ok := true;
    }

    method PrepareSource(format: Formatter, path: Path, identities: map<Identity, Path>)
      returns (r: Result<Prepared, FormatFailure>, claimed: map<Identity, Path>)
      ensures r == Prepare(host, contents, format, path, identities)
      ensures claimed == Claim(host, path, identities)
    {
      claimed := identities;
      var inspection := Inspect(path);
      if inspection.None? {
        return Failure(FormatFailure(path, CannotInspect)), claimed;
      }
      var identity := inspection.value.identity;
      if identity in identities {
        return Failure(FormatFailure(path, Duplicate(identities[identity]))), claimed;
      }
      claimed := identities[identity := path];
      var original := Read(path);
      if original.None? {
        return Failure(FormatFailure(path, CannotRead)), claimed;
      }
      var text := Utf8.Decode(original.value);
      if text.None? {
        return Failure(FormatFailure(path, InvalidUtf8(Utf8.ValidUpTo(original.value)))), claimed;
      }
      match format(text.value) {
        case Incomplete => r := Failure(FormatFailure(path, IncompleteInput));
        case Invalid => r := Failure(FormatFailure(path, InvalidInput));
        case Complete(canonical) =>
          r := Success(Prepared(path, identity, inspection.value.permissions, original.value, text.value, canonical));
      }
    }

    /** The preflight loop; nothing is written. */
    method RunPreflight(format: Formatter, paths: seq<Path>) returns (preflight: Preflight)
      ensures preflight == PrepareAll(host, contents, format, paths)
    {
      var identities: map<Identity, Path> := map[];
      preflight := [];
      var i := 0;
      while i < |paths|
        invariant 0 <= i <= |paths|
        invariant identities == Claims(host, paths[..i])
        invariant preflight == PrepareAll(host, contents, format, paths[..i])
      {
        assert paths[..i + 1][..i] == paths[..i];
        var entry;
        entry, identities := PrepareSource(format, paths[i], identities);
        preflight := preflight + [entry];
        i := i + 1;
      }
      assert paths[..i] == paths;
    }

    /** One turn of the replacement loop, `before` being the disk when the write began. */
    method ReplaceNext(preflight: Preflight, i: nat, ghost before: map<Identity, Bytes>) returns (turn: Turn)
      requires i < |preflight| && preflight[i].Success? && ReadyAt(host, before, preflight, i)
      requires contents == Committed(before, PendingOf(preflight, i))
      modifies this
      ensures turn == Skipped <==> !preflight[i].value.Changed()
      ensures turn == Refused <==> preflight[i].value.Changed() && preflight[i].value.path in host.stuck
      ensures turn == Refused ==> contents == old(contents)
      ensures turn != Refused ==> contents == Committed(before, PendingOf(preflight, i + 1))
    {
      var prepared := preflight[i].value;
      if !prepared.Changed() {
        return Skipped;
      }
      ghost var replaced := PendingOf(preflight, i);
      assert (replaced + [prepared])[..|replaced|] == replaced;
      var ok := ReplaceAtomically(prepared.path, prepared.original, Utf8.Encode(prepared.canonical), prepared.permissions);
      turn := if ok then Replaced else Refused;
    }

    /**
      A write is prefix-committed: with any rejected operand nothing is replaced; otherwise exactly the first
      `changedCount` noncanonical operands are, up to the first refusal, which is reported.
     */
    method WritePreflight(format: Formatter, preflight: Preflight) returns (run: FormatRun)
      requires PairwiseDistinct(preflight) && AllFaithful(host, contents, format, preflight)
      modifies this
      ensures Failures(preflight) != [] ==> run == FormatRun(Failures(preflight), 0) && contents == old(contents)
      ensures Failures(preflight) == [] ==>
        Wrote(host, old(contents), Pending(preflight), contents, run)
    {
      var failures := CollectFailures(preflight);
      if failures != [] {
        return FormatRun(failures, 0);
      }
      NoFailuresMeansAllAccepted(preflight, |preflight|);
      forall i | 0 <= i < |preflight| && preflight[i].Success? ensures ReadyAt(host, contents, preflight, i) {
        NextIsAsExpected(host, contents, format, preflight, i);
      }
      run := ReplaceAll(preflight);
    }

    method ReplaceAll(preflight: Preflight) returns (run: FormatRun)
      requires forall i :: 0 <= i < |preflight| ==> preflight[i].Success?
      requires Ready(host, contents, preflight)
      modifies this
      ensures Wrote(host, old(contents), Pending(preflight), contents, run)
    {
      run := FormatRun([], 0);
      ghost var before := contents;
      var i := 0;
      while i < |preflight|
        invariant 0 <= i <= |preflight|
        invariant run == FormatRun([], |PendingOf(preflight, i)|)
        invariant NoneStuck(host, PendingOf(preflight, i))
        invariant contents == Committed(before, PendingOf(preflight, i))
      {
        assert ReadyAt(host, before, preflight, i);
        var turn := ReplaceNext(preflight, i, before);
        if turn == Refused {
          WroteUntilRefused(host, before, preflight, i);
          return run.(failures := [FormatFailure(preflight[i].value.path, CannotReplace)]);
        }
        if turn == Replaced {
          run := run.(changedCount := run.changedCount + 1);
        }
        i := i + 1;
      }
      WroteEverything(host, before, Pending(preflight));
    }

    method FormatFiles(format: Formatter, operation: Operation, paths: seq<Path>) returns (run: FormatRun)
      modifies this
      ensures var preflight := PrepareAll(host, old(contents), format, paths);
        match operation
        case Check =>
          contents == old(contents) && run == FormatRun(Objections(preflight), |Pending(preflight)|)
        case Write =>
          if Failures(preflight) != [] then run == FormatRun(Failures(preflight), 0) && contents == old(contents)
          else
            Wrote(host, old(contents), Pending(preflight), contents, run)
    {
      var preflight := RunPreflight(format, paths);
      PreflightIsSound(host, contents, format, paths);
      match operation {
        case Check => run := CheckPreflight(preflight);
        case Write => run := WritePreflight(format, preflight);
      }
    }
  }

  method CollectFailures(preflight: Preflight) returns (failures: seq<FormatFailure>)
    ensures failures == Failures(preflight)
  {
    failures := [];
    for i := 0 to |preflight|
      invariant failures == FailuresOf(preflight, i)
    {
      if preflight[i].Failure? {
        failures := failures + [preflight[i].error];
      }
    }
  }

  method CheckPreflight(preflight: Preflight) returns (run: FormatRun)
    ensures run == FormatRun(Objections(preflight), |Pending(preflight)|)
  {
    run := FormatRun([], 0);
    for i := 0 to |preflight|
      invariant run == FormatRun(ObjectionsOf(preflight, i), |PendingOf(preflight, i)|)
    {
      match preflight[i] {
        case Failure(failure) => run := run.(failures := run.failures + [failure]);
        case Success(prepared) =>
          if prepared.Changed() {
            var failure := NoncanonicalFailure(prepared);
            run := FormatRun(run.failures + [failure], run.changedCount + 1);
          }
      }
    }
  }

  /** The span as the source computes it. */
  lemma DifferenceSpanFromOffset(text: string, canonical: string)
    ensures var n, start := |CommonPrefix(text, canonical)|, |Utf8.Encode(CommonPrefix(text, canonical))|;
      && n <= |text|
      && DifferenceSpan(text, canonical) == (start, if n < |text| then start + |Utf8.EncodeChar(text[n])| else start)
  {
    var parts := SplitAtDifference(text, canonical);
    if parts.1 != [] {
      EncodeOne(parts.1);
    }
  }

  method NoncanonicalFailure(p: Prepared) returns (failure: FormatFailure)
    requires p.Changed()
    ensures Some(failure) == Objection(Success(p))
  {
    var start := FirstDifference(p.text, p.canonical);
    DifferenceSpanFromOffset(p.text, p.canonical);
    var n := |CommonPrefix(p.text, p.canonical)|;
    var end := if n < |p.text| then start + |Utf8.EncodeChar(p.text[n])| else start;
    failure := FormatFailure(p.path, Noncanonical(start, end));
  }

  /**
    What a write leaves on disk, file by file: the first `changedCount` noncanonical operands hold their
    canonical bytes, the later ones and every other file are as they were.
   */
  lemma WriteIsPrefixCommitted(host: Host, contents: map<Identity, Bytes>, format: Formatter, paths: seq<Path>,
                               after: map<Identity, Bytes>, run: FormatRun)
    requires Wrote(host, contents, Pending(PrepareAll(host, contents, format, paths)), after, run)
    ensures var pending := Pending(PrepareAll(host, contents, format, paths));
      && run.changedCount <= |pending| && after.Keys == contents.Keys
      && (run.failures == [] <==> run.changedCount == |pending|)
      && (forall j :: 0 <= j < |pending| ==>
           pending[j].identity in after
           && after[pending[j].identity] == if j < run.changedCount then Utf8.Encode(pending[j].canonical) else pending[j].original)
      && (forall id <- contents :: (forall j :: 0 <= j < |pending| ==> pending[j].identity != id) ==> after[id] == contents[id])
  {
    var preflight := PrepareAll(host, contents, format, paths);
    var pending, k := Pending(preflight), run.changedCount;
    PreflightIsSound(host, contents, format, paths);
    PendingAreDistinct(preflight, |preflight|);
    CommittedChangesExactlyTheOperands(contents, pending[..k]);
    forall j | 0 <= j < |pending|
      ensures pending[j].identity in contents && contents[pending[j].identity] == pending[j].original
    {
      assert ComesFrom(preflight, |preflight|, pending[j]);
      var i :| 0 <= i < |preflight| && preflight[i] == Success(pending[j]);
      assert Faithful(host, contents, format, preflight[i].value);
    }
    assert forall j :: 0 <= j < k ==> pending[..k][j] == pending[j];
    assert forall j :: k <= j < |pending| ==> forall i :: 0 <= i < k ==> pending[..k][i].identity != pending[j].identity;
    forall id ensures id in after <==> id in contents {
      if i :| 0 <= i < k && pending[..k][i].identity == id {
        assert pending[i].identity in contents;
      }
    }
  }

  // ---------- Checking after writing ----------

  lemma {:induction false} NoFailuresMeansAllAccepted(preflight: Preflight, n: nat)
    requires n <= |preflight| && FailuresOf(preflight, n) == []
    ensures forall i :: 0 <= i < n ==> preflight[i].Success?
  {
    if n > 0 {
      NoFailuresMeansAllAccepted(preflight, n - 1);
    }
  }

  lemma {:induction false} ChangedIsPending(preflight: Preflight, n: nat, i: nat)
    requires i < n <= |preflight| && preflight[i].Success? && preflight[i].value.Changed()
    ensures preflight[i].value in PendingOf(preflight, n)
  {
    if i < n - 1 {
      ChangedIsPending(preflight, n - 1, i);
    }
  }

  /** After a complete write every accepted operand's file holds its canonical bytes. */
  lemma WrittenOperandIsCanonical(contents: map<Identity, Bytes>, preflight: Preflight, i: nat)
    requires PairwiseDistinct(preflight) && i < |preflight| && preflight[i].Success?
    requires preflight[i].value.identity in contents && contents[preflight[i].value.identity] == preflight[i].value.original
    ensures Canonicalized(Committed(contents, Pending(preflight)), preflight[i])
  {
    var p, pending := preflight[i].value, Pending(preflight);
    PendingAreDistinct(preflight, |preflight|);
    CommittedChangesExactlyTheOperands(contents, pending);
    if p.Changed() {
      ChangedIsPending(preflight, |preflight|, i);
    } else {
      forall j | 0 <= j < |pending| ensures pending[j].identity != p.identity {
        assert ComesFrom(preflight, |preflight|, pending[j]);
      }
    }
  }

  predicate Canonicalized(after: map<Identity, Bytes>, entry: Result<Prepared, FormatFailure>) {
    && entry.Success? && entry.value.identity in after
    && after[entry.value.identity] == Utf8.Encode(entry.value.canonical)
  }

  /** Preparing one canonical file accepts it and finds nothing to change. */
  lemma PrepareCanonical(host: Host, before: map<Identity, Bytes>, after: map<Identity, Bytes>, format: Formatter,
                         path: Path, identities: map<Identity, Path>)
    requires Idempotent(format) && Canonicalized(after, Prepare(host, before, format, path, identities))
    ensures var now := Prepare(host, after, format, path, identities);
      now.Success? && !now.value.Changed()
  {
    var p := Prepare(host, before, format, path, identities).value;
    Utf8.DecodeInvertsEncode(p.canonical);
    assert format(p.canonical) == format(p.text) == Complete(p.canonical);
  }

  lemma {:induction false} PreparedAt(host: Host, contents: map<Identity, Bytes>, format: Formatter, paths: seq<Path>, i: nat)
    requires i < |paths|
    ensures PrepareAll(host, contents, format, paths)[i] == Prepare(host, contents, format, paths[i], Claims(host, paths[..i]))
  {
    if i < |paths| - 1 {
      PreparedAt(host, contents, format, paths[..|paths| - 1], i);
      assert paths[..|paths| - 1][..i] == paths[..i];
    }
  }

  lemma {:induction false} QuietPreflight(preflight: Preflight, n: nat)
    requires n <= |preflight| && forall i :: 0 <= i < n ==> preflight[i].Success? && !preflight[i].value.Changed()
    ensures FailuresOf(preflight, n) == [] && PendingOf(preflight, n) == [] && ObjectionsOf(preflight, n) == []
  {
    if n > 0 {
      QuietPreflight(preflight, n - 1);
    }
  }

  /**
    After a successful write, without concurrent change, a check of the same request reports nothing and a
    second write replaces nothing.
   */
  lemma WriteThenCheckIsClean(host: Host, contents: map<Identity, Bytes>, format: Formatter, paths: seq<Path>)
    requires Idempotent(format)
    requires var preflight := PrepareAll(host, contents, format, paths);
      Failures(preflight) == [] && Replaceable(host, Pending(preflight)) == |Pending(preflight)|
    ensures var after := Committed(contents, Pending(PrepareAll(host, contents, format, paths)));
      var preflight := PrepareAll(host, after, format, paths);
      Failures(preflight) == [] && Pending(preflight) == [] && Objections(preflight) == []
  {
    var preflight := PrepareAll(host, contents, format, paths);
    PreflightIsSound(host, contents, format, paths);
    NoFailuresMeansAllAccepted(preflight, |preflight|);
    var after := Committed(contents, Pending(preflight));
    var again := PrepareAll(host, after, format, paths);
    forall i | 0 <= i < |paths| ensures again[i].Success? && !again[i].value.Changed() {
      assert Faithful(host, contents, format, preflight[i].value);
      WrittenOperandIsCanonical(contents, preflight, i);
      PreparedAt(host, contents, format, paths, i);
      PreparedAt(host, after, format, paths, i);
      PrepareCanonical(host, contents, after, format, paths[i], Claims(host, paths[..i]));
    }
    QuietPreflight(again, |again|);
  }
}
