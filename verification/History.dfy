/**
  Persistent interactive history: the merge algebra, and one `EditorHistory` object over the shared file.

  A host failure while opening, locking or reading is an input (`fault`); it happens before the
  rewind, so nothing has been written yet.
*/
module History {
  import opened Wrappers
  import opened HistoryCodec
  import Utf8

  const DEFAULT_HISTORY_CAPACITY: nat := 1000

  // ---------- The merge algebra ----------

  function Push(deduplicated: seq<string>, entry: string): seq<string> {
    if deduplicated != [] && deduplicated[|deduplicated| - 1] == entry then deduplicated
    else deduplicated + [entry]
  }

  function Deduplicated(s: seq<string>): seq<string> {
    if s == [] then [] else Push(Deduplicated(s[..|s| - 1]), s[|s| - 1])
  }

  function Trimmed<T>(capacity: nat, s: seq<T>): seq<T> {
    if |s| <= capacity then s else s[|s| - capacity..]
  }

  /** What a history of the given capacity keeps of an unbounded log. */
  function Retained(capacity: nat, s: seq<string>): seq<string> {
    Trimmed(capacity, Deduplicated(s))
  }

  predicate NoRepeats(s: seq<string>) {
    forall i {:trigger s[i]} :: 1 <= i < |s| ==> s[i - 1] != s[i]
  }

  lemma DeduplicatedSnoc(s: seq<string>, entry: string)
    ensures Deduplicated(s + [entry]) == Push(Deduplicated(s), entry)
  {
    assert (s + [entry])[..|s|] == s;
  }

  lemma {:induction false} DeduplicatedHasNoRepeats(s: seq<string>)
    ensures NoRepeats(Deduplicated(s))
    ensures s != [] ==> Deduplicated(s) != [] && Deduplicated(s)[|Deduplicated(s)| - 1] == s[|s| - 1]
    ensures s == [] ==> Deduplicated(s) == []
  {
    if s != [] {
      DeduplicatedHasNoRepeats(s[..|s| - 1]);
    }
  }

  lemma {:induction false} DeduplicatedFixesNoRepeats(s: seq<string>)
    requires NoRepeats(s)
    ensures Deduplicated(s) == s
  {
    if s != [] {
      var front := s[..|s| - 1];
      DeduplicatedFixesNoRepeats(front);
      assert front != [] ==> s[|s| - 2] != s[|s| - 1];
      assert front + [s[|s| - 1]] == s;
    }
  }

  /** Deduplicating a prefix first changes nothing. */
  lemma {:induction false} DeduplicatedAbsorbsPrefix(x: seq<string>, y: seq<string>)
    ensures Deduplicated(Deduplicated(x) + y) == Deduplicated(x + y)
  {
    if y == [] {
      assert Deduplicated(x) + y == Deduplicated(x) && x + y == x;
      DeduplicatedHasNoRepeats(x);
      DeduplicatedFixesNoRepeats(Deduplicated(x));
    } else {
      var front, last := y[..|y| - 1], y[|y| - 1];
      DeduplicatedAbsorbsPrefix(x, front);
      assert Deduplicated(x) + y == Deduplicated(x) + front + [last];
      assert x + y == x + front + [last];
      DeduplicatedSnoc(Deduplicated(x) + front, last);
      DeduplicatedSnoc(x + front, last);
    }
  }

  lemma PushKeepsPrefix(p: seq<string>, d: seq<string>, entry: string)
    requires d != []
    ensures Push(p + d, entry) == p + Push(d, entry)
  {
    assert p + d + [entry] == p + (d + [entry]);
  }

  /** Forgetting the old entries `p` commutes with appending, as long as one entry is kept. */
  lemma {:induction false} DeduplicatedKeepsPrefix(p: seq<string>, t: seq<string>, y: seq<string>)
    requires NoRepeats(p + t) && t != []
    ensures |Deduplicated(t + y)| >= |t|
    ensures Deduplicated(p + t + y) == p + Deduplicated(t + y)
  {
    if y == [] {
      assert p + t + y == p + t && t + y == t;
      assert NoRepeats(t) by { NoRepeatsSuffix(p, t); }
      DeduplicatedFixesNoRepeats(p + t);
      DeduplicatedFixesNoRepeats(t);
    } else {
      var front, last := y[..|y| - 1], y[|y| - 1];
      DeduplicatedKeepsPrefix(p, t, front);
      assert p + t + y == p + t + front + [last] && t + y == t + front + [last];
      DeduplicatedSnoc(p + t + front, last);
      DeduplicatedSnoc(t + front, last);
      PushKeepsPrefix(p, Deduplicated(t + front), last);
    }
  }

  lemma NoRepeatsSuffix(p: seq<string>, t: seq<string>)
    requires NoRepeats(p + t)
    ensures NoRepeats(t)
  {
    forall i {:trigger t[i]} | 1 <= i < |t| ensures t[i - 1] != t[i] {
      assert (p + t)[|p| + i] == t[i] && (p + t)[|p| + i - 1] == t[i - 1];
    }
  }

  lemma TrimmedIgnoresPrefix<T>(capacity: nat, p: seq<T>, s: seq<T>)
    requires |s| >= capacity
    ensures Trimmed(capacity, p + s) == Trimmed(capacity, s)
  {
  }

  /**
    The key law: deduplicating and trimming at every commit equals doing both once at the end.
   */
  lemma RetainedAbsorbsPrefix(capacity: nat, x: seq<string>, y: seq<string>)
    ensures Retained(capacity, Retained(capacity, x) + y) == Retained(capacity, x + y)
  {
    var d := Deduplicated(x);
    DeduplicatedAbsorbsPrefix(x, y);
    if |d| > capacity > 0 {
      var p, t := d[..|d| - capacity], d[|d| - capacity..];
      assert d == p + t;
      DeduplicatedHasNoRepeats(x);
      DeduplicatedKeepsPrefix(p, t, y);
      TrimmedIgnoresPrefix(capacity, p, Deduplicated(t + y));
    }
  }

  /** A retained log that is not empty ends as the log does. */
  lemma RetainedEndsAsTheLog(capacity: nat, log: seq<string>)
    ensures capacity > 0 && log != [] ==>
      Retained(capacity, log) != [] && Retained(capacity, log)[|Retained(capacity, log)| - 1] == log[|log| - 1]
    ensures log == [] ==> Retained(capacity, log) == []
  {
    DeduplicatedHasNoRepeats(log);
  }

  lemma RepeatIsInvisible(log: seq<string>, source: string)
    requires log != [] && log[|log| - 1] == source
    ensures Deduplicated(log + [source]) == Deduplicated(log)
  {
    DeduplicatedSnoc(log, source);
    DeduplicatedHasNoRepeats(log);
  }

  lemma AppendEndsInSource(capacity: nat, log: seq<string>, source: string)
    requires capacity > 0
    ensures var after := Retained(capacity, log + [source]); after != [] && after[|after| - 1] == source
  {
    RetainedEndsAsTheLog(capacity, log + [source]);
  }

  /** Recording `source` at the end of `log` is invisible exactly when it repeats the last entry. */
  lemma AppendIsInvisibleExactlyWhenRepeated(capacity: nat, log: seq<string>, source: string)
    ensures Retained(capacity, log + [source]) == Retained(capacity, log)
       <==> capacity == 0 || (log != [] && log[|log| - 1] == source)
  {
    if capacity > 0 {
      if log != [] && log[|log| - 1] == source {
        RepeatIsInvisible(log, source);
      } else {
        AppendEndsInSource(capacity, log, source);
        RetainedEndsAsTheLog(capacity, log);
      }
    }
  }

  // ---------- One process, on values ----------

  /** `shared` is false for a history opened with persistence disabled. */
  datatype Process = Process(entries: seq<string>, pending: seq<string>, capacity: nat, shared: bool)

  datatype RecordResult = Unchanged | Recorded | SyncFailed

  datatype SyncResult = SyncResult(process: Process, bytes: seq<Byte>, ok: bool)

  function Synchronized(p: Process, bytes: seq<Byte>, fault: bool): SyncResult {
    if !p.shared then SyncResult(p, bytes, true)
    else if fault || Parse(bytes).Failure? then SyncResult(p, bytes, false)
    else
      var merged := Retained(p.capacity, Parse(bytes).value + p.pending);
      SyncResult(p.(entries := merged, pending := []), Render(merged), true)
  }

  /** The local view alone decides whether a record is refused as a repeat. */
  predicate Refuses(p: Process, source: string) {
    p.capacity == 0 || source == [] || (p.entries != [] && p.entries[|p.entries| - 1] == source)
  }

  function AfterRecord(p: Process, bytes: seq<Byte>, source: string, fault: bool): (Process, seq<Byte>, RecordResult) {
    if Refuses(p, source) then (p, bytes, Unchanged)
    else
      var r := Synchronized(p.(pending := p.pending + [source]), bytes, fault);
      (r.process, r.bytes, if r.ok then Recorded else SyncFailed)
  }

  function AfterClear(p: Process, bytes: seq<Byte>, fault: bool): SyncResult {
    var emptied := p.(entries := [], pending := []);
    if !p.shared then SyncResult(emptied, bytes, true)
    else if fault then SyncResult(emptied, bytes, false)
    else SyncResult(emptied, [], true)
  }

  // ---------- The shared file ----------

  class HistoryFile {
    var bytes: seq<Byte>

    constructor ()
      ensures bytes == []
    {
      bytes := [];
    }

    /** A positioned write: it overwrites in place, and extends the file only past its end. */
    method WriteAt(position: nat, data: seq<Byte>)
      requires position <= |bytes|
      modifies this
      ensures |bytes| >= position + |data|
      ensures bytes[..position] == old(bytes)[..position]
      ensures bytes[position..position + |data|] == data
      ensures forall k :: position + |data| <= k < |bytes| ==> k < |old(bytes)| && bytes[k] == old(bytes)[k]
    {
      var end := position + |data|;
      bytes := bytes[..position] + data + if end < |bytes| then bytes[end..] else [];
    }

    method SetLength(length: nat)
      requires length <= |bytes|
      modifies this
      ensures bytes == old(bytes)[..length]
    {
      bytes := bytes[..length];
    }
  }

  /** One pass over the merged entries, comparing with the back of the output only. */
  method Deduplicate(merged: seq<string>) returns (deduplicated: seq<string>)
    ensures deduplicated == Deduplicated(merged)
  {
    deduplicated := [];
    var i := 0;
    while i < |merged|
      invariant 0 <= i <= |merged|
      invariant deduplicated == Deduplicated(merged[..i])
    {
      assert merged[..i + 1] == merged[..i] + [merged[i]];
      DeduplicatedSnoc(merged[..i], merged[i]);
      if deduplicated == [] || deduplicated[|deduplicated| - 1] != merged[i] {
        deduplicated := deduplicated + [merged[i]];
      }
      i := i + 1;
    }
    assert merged[..i] == merged;
  }

  lemma RenderSnoc(entries: seq<string>, i: nat)
    requires i < |entries|
    ensures Render(entries[..i + 1]) == Render(entries[..i]) + RenderEntry(entries[i])
  {
    assert entries[..i + 1] == entries[..i] + [entries[i]];
    RenderConcat(entries[..i], [entries[i]]);
    assert Render([entries[i]]) == RenderEntry(entries[i]) + [];
  }

  class EditorHistory {
    var entries: seq<string>
    var pending: seq<string>
    const capacity: nat
    const file: HistoryFile?

    ghost function View(): Process
      reads this
    {
      Process(entries, pending, capacity, file != null)
    }

    ghost function Bytes(): seq<Byte>
      reads this, file
    {
      if file == null then [] else file.bytes
    }

    constructor Disabled()
      ensures View() == Process([], [], 0, false)
    {
      entries, pending, capacity, file := [], [], 0, null;
    }

    constructor Unsynchronized(file: HistoryFile)
      ensures View() == Process([], [], DEFAULT_HISTORY_CAPACITY, true) && this.file == file
    {
      entries, pending, capacity := [], [], DEFAULT_HISTORY_CAPACITY;
      this.file := file;
    }

    /** `open` for a persistent selection: the history exists only if its first sync succeeds. */
    static method Open(file: HistoryFile, fault: bool) returns (history: EditorHistory?)
      modifies file
      ensures var r := Synchronized(Process([], [], DEFAULT_HISTORY_CAPACITY, true), old(file.bytes), fault);
        && file.bytes == r.bytes
        && (history != null <==> r.ok)
        && (history != null ==> fresh(history) && history.View() == r.process && history.file == file)
    {
      var candidate := new EditorHistory.Unsynchronized(file);
      var ok := candidate.Sync(fault);
      history := if ok then candidate else null;
    }

    /** Rewind, write every entry, truncate at the final position. */
    method Rewrite(merged: seq<string>)
      requires file != null
      modifies file
      ensures file.bytes == Render(merged)
    {
      var position: nat := 0;
      var i := 0;
      while i < |merged|
        invariant 0 <= i <= |merged| && position <= |file.bytes|
        invariant file.bytes[..position] == Render(merged[..i])
      {
        position := WriteEntry(position, merged[i]);
        RenderSnoc(merged, i);
        i := i + 1;
      }
      assert merged[..i] == merged;
      file.SetLength(position);
    }

    method WriteEntry(start: nat, entry: string) returns (end: nat)
      requires file != null && start <= |file.bytes|
      modifies file
      ensures end <= |file.bytes|
      ensures file.bytes[..end] == old(file.bytes)[..start] + RenderEntry(entry)
    {
      var encoded := EncodeEntry(entry);
      var data := Utf8.Encode(encoded);
      file.WriteAt(start, data);
      end := start + |data|;
      assert file.bytes[..end] == old(file.bytes)[..start] + data;
      label Written:
      file.WriteAt(end, [NEWLINE]);
      assert file.bytes[..end + 1] == old@Written(file.bytes)[..end] + [NEWLINE];
      end := end + 1;
    }

    /** `while merged.len() > capacity { pop_front }` */
    method TrimToCapacity(merged: seq<string>) returns (trimmed: seq<string>)
      ensures trimmed == Trimmed(capacity, merged)
    {
      trimmed := merged;
      while |trimmed| > capacity
        invariant |trimmed| <= |merged| && (|trimmed| >= capacity || trimmed == merged)
        invariant trimmed == merged[|merged| - |trimmed|..]
      {
        assert merged[|merged| - |trimmed|..][1..] == merged[|merged| - |trimmed| + 1..];
        trimmed := trimmed[1..];
      }
    }

    method Sync(fault: bool) returns (ok: bool)
      modifies this, file
      ensures SyncResult(View(), Bytes(), ok) == Synchronized(old(View()), old(Bytes()), fault)
    {
      if file == null {
        return true;
      }
      if fault {
        return false;
      }
      var stored := ReadEntries(file.bytes);
      if stored.Failure? {
        return false;
      }
      var deduplicated := Deduplicate(stored.value + pending);
      var merged := TrimToCapacity(deduplicated);
      Rewrite(merged);
      entries := merged;
      pending := [];
      ok := true;
    }

    method Record(source: string, fault: bool) returns (result: RecordResult)
      modifies this, file
      ensures (View(), Bytes(), result) == AfterRecord(old(View()), old(Bytes()), source, fault)
    {
      if capacity == 0 || source == [] || (entries != [] && entries[|entries| - 1] == source) {
        return Unchanged;
      }
      pending := pending + [source];
      var ok := Sync(fault);
      result := if ok then Recorded else SyncFailed;
    }

    method Clear(fault: bool) returns (ok: bool)
      modifies this, file
      ensures SyncResult(View(), Bytes(), ok) == AfterClear(old(View()), old(Bytes()), fault)
    {
      entries := [];
      pending := [];
      if file == null {
        return true;
      }
      if fault {
        return false;
      }
      file.SetLength(0);
      ok := true;
    }
  }
}
