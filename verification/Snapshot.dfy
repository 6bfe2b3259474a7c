/**
  The bounded snapshot of path spellings below the current directory.

  `CwdPaths` is the explicit-stack traversal of the source. It is compared with `Total` and `Found`,
  which say by recursion on the depth what the tree holds; the tree itself is an arbitrary oracle and
  may be infinite.
*/
module Snapshot {
  import opened Wrappers
  import Utf8

  type Bytes = seq<Byte>
  /** A path relative to the current directory, one native name a component. */
  type Path = seq<Bytes>

  /** What iterating one directory yields; `isDirectory` is absent when the file type is unavailable. */
  datatype DirectoryEntry = Unreadable | Entry(name: Bytes, isDirectory: Option<bool>)

  /** `read_dir`: absent when the directory cannot be visited. */
  type Tree = Path -> Option<seq<DirectoryEntry>>

  datatype Limits = Limits(maxDirectories: nat, maxEntries: nat)

  datatype Collection = Values(paths: set<string>) | Exceeded | Cancelled

  const SLASH: Byte := 47

  // ---------- Spellings ----------

  function Join(path: Path): Bytes {
    if path == [] then []
    else if |path| == 1 then path[0]
    else Join(path[..|path| - 1]) + [SLASH] + path[|path| - 1]
  }

  function TrimSlashes(s: string): string {
    if s != [] && s[|s| - 1] == '/' then TrimSlashes(s[..|s| - 1]) else s
  }

  function Below(cwd: Bytes, relative: Bytes): Bytes {
    cwd + (if cwd != [] && cwd[|cwd| - 1] == SLASH then [] else [SLASH]) + relative
  }

  predicate Absolute(cwd: Bytes) { cwd != [] && cwd[0] == SLASH }

  /** Relative, dotted and absolute spelling of one entry, as far as they are UTF-8. */
  function Spellings(cwd: Bytes, path: Path, isDirectory: bool): set<string> {
    var text := Utf8.Decode(Join(path));
    if text.None? then {}
    else
      var mark := if isDirectory then "/" else "";
      var spelling := text.value + mark;
      {spelling, "./" + spelling}
      + if !Absolute(cwd) then {}
        else
          var absolute := Utf8.Decode(Below(cwd, Utf8.Encode(TrimSlashes(spelling))));
          if absolute.None? then {} else {absolute.value + mark}
  }

  // ---------- One directory ----------

  function Observed(entries: seq<DirectoryEntry>): nat {
    if entries == [] then 0
    else Observed(entries[..|entries| - 1]) + if entries[|entries| - 1].Unreadable? then 0 else 1
  }

  function ChildrenOf(path: Path, entries: seq<DirectoryEntry>): seq<Path> {
    if entries == [] then []
    else
      var last := entries[|entries| - 1];
      ChildrenOf(path, entries[..|entries| - 1])
      + if last.Entry? && last.isDirectory == Some(true) then [path + [last.name]] else []
  }

  function SpellingsOf(cwd: Bytes, path: Path, entries: seq<DirectoryEntry>): set<string> {
    if entries == [] then {}
    else
      var last := entries[|entries| - 1];
      SpellingsOf(cwd, path, entries[..|entries| - 1])
      + if last.Entry? && last.isDirectory.Some? then Spellings(cwd, path + [last.name], last.isDirectory.value) else {}
  }

  function Listing(tree: Tree, path: Path): seq<DirectoryEntry> {
    if tree(path).Some? then tree(path).value else []
  }

  function Children(tree: Tree, path: Path): seq<Path> {
    ChildrenOf(path, Listing(tree, path))
  }

  // ---------- The reference: recursion on the depth ----------

  /** The two quantities that are limited. */
  datatype Measure = Directories | Entries

  function Weight(tree: Tree, m: Measure, path: Path): nat {
    match m case Directories => 1 case Entries => Observed(Listing(tree, path))
  }

  /** How many directories (counting `path` and unreadable ones), or entries, lie within `depth` levels. */
  function Total(tree: Tree, m: Measure, path: Path, depth: nat): nat
    decreases depth, 1, 0
  {
    if depth == 0 then 0 else Weight(tree, m, path) + TotalAll(tree, m, Children(tree, path), depth - 1)
  }

  function TotalAll(tree: Tree, m: Measure, paths: seq<Path>, depth: nat): nat
    decreases depth, 2, |paths|
  {
    if paths == [] then 0
    else TotalAll(tree, m, paths[..|paths| - 1], depth) + Total(tree, m, paths[|paths| - 1], depth)
  }

  /** Every spelling found within `depth` levels below `path`. */
  function Found(tree: Tree, cwd: Bytes, path: Path, depth: nat): set<string>
    decreases depth, 1, 0
  {
    if depth == 0 then {}
    else SpellingsOf(cwd, path, Listing(tree, path)) + FoundAll(tree, cwd, Children(tree, path), depth - 1)
  }

  function FoundAll(tree: Tree, cwd: Bytes, paths: seq<Path>, depth: nat): set<string>
    decreases depth, 2, |paths|
  {
    if paths == [] then {}
    else FoundAll(tree, cwd, paths[..|paths| - 1], depth) + Found(tree, cwd, paths[|paths| - 1], depth)
  }

  /** The tree respects both limits at every depth. */
  ghost predicate WithinLimits(tree: Tree, limits: Limits) {
    && (forall depth: nat :: Total(tree, Directories, [], depth) <= limits.maxDirectories)
    && (forall depth: nat :: Total(tree, Entries, [], depth) <= limits.maxEntries)
  }

  ghost predicate Spelled(tree: Tree, cwd: Bytes, spelling: string) {
    exists depth: nat :: spelling in Found(tree, cwd, [], depth)
  }

  // ---------- Algebra of the reference ----------

  lemma {:induction false} TotalAllConcat(tree: Tree, m: Measure, a: seq<Path>, b: seq<Path>, depth: nat)
    ensures TotalAll(tree, m, a + b, depth) == TotalAll(tree, m, a, depth) + TotalAll(tree, m, b, depth)
    decreases |b|
  {
    if b == [] {
      assert a + b == a;
    } else {
      assert (a + b)[..|a + b| - 1] == a + b[..|b| - 1];
      TotalAllConcat(tree, m, a, b[..|b| - 1], depth);
    }
  }

  lemma {:induction false} FoundAllConcat(tree: Tree, cwd: Bytes, a: seq<Path>, b: seq<Path>, depth: nat)
    ensures FoundAll(tree, cwd, a + b, depth) == FoundAll(tree, cwd, a, depth) + FoundAll(tree, cwd, b, depth)
    decreases |b|
  {
    if b == [] {
      assert a + b == a;
    } else {
      assert (a + b)[..|a + b| - 1] == a + b[..|b| - 1];
      FoundAllConcat(tree, cwd, a, b[..|b| - 1], depth);
    }
  }

  lemma {:induction false} TotalGrows(tree: Tree, m: Measure, path: Path, depth: nat)
    ensures Total(tree, m, path, depth) <= Total(tree, m, path, depth + 1)
    decreases depth, 1, 0
  {
    if depth > 0 {
      TotalAllGrows(tree, m, Children(tree, path), depth - 1);
    }
  }

  lemma {:induction false} TotalAllGrows(tree: Tree, m: Measure, paths: seq<Path>, depth: nat)
    ensures TotalAll(tree, m, paths, depth) <= TotalAll(tree, m, paths, depth + 1)
    decreases depth, 2, |paths|
  {
    if paths != [] {
      TotalAllGrows(tree, m, paths[..|paths| - 1], depth);
      TotalGrows(tree, m, paths[|paths| - 1], depth);
    }
  }

  lemma {:induction false} FoundGrows(tree: Tree, cwd: Bytes, path: Path, depth: nat)
    ensures Found(tree, cwd, path, depth) <= Found(tree, cwd, path, depth + 1)
    decreases depth, 1, 0
  {
    if depth > 0 {
      FoundAllGrows(tree, cwd, Children(tree, path), depth - 1);
    }
  }

  lemma {:induction false} FoundAllGrows(tree: Tree, cwd: Bytes, paths: seq<Path>, depth: nat)
    ensures FoundAll(tree, cwd, paths, depth) <= FoundAll(tree, cwd, paths, depth + 1)
    decreases depth, 2, |paths|
  {
    if paths != [] {
      FoundAllGrows(tree, cwd, paths[..|paths| - 1], depth);
      FoundGrows(tree, cwd, paths[|paths| - 1], depth);
    }
  }

  // ---------- Reordering ----------

  /** Native paths compare component by component, each component byte by byte. */
  predicate NameLess(a: Bytes, b: Bytes) {
    b != [] && (a == [] || a[0] < b[0] || (a[0] == b[0] && NameLess(a[1..], b[1..])))
  }

  predicate PathLess(a: Path, b: Path) {
    b != [] && (a == [] || NameLess(a[0], b[0]) || (a[0] == b[0] && PathLess(a[1..], b[1..])))
  }

  function Insert(path: Path, sorted: seq<Path>): (r: seq<Path>)
    ensures multiset(r) == multiset(sorted) + multiset{path}
  {
    if sorted == [] then [path]
    else if !PathLess(path, sorted[|sorted| - 1]) then sorted + [path]
    else
      assert sorted == sorted[..|sorted| - 1] + [sorted[|sorted| - 1]];
      Insert(path, sorted[..|sorted| - 1]) + [sorted[|sorted| - 1]]
  }

  function Sorted(paths: seq<Path>): (r: seq<Path>)
    ensures multiset(r) == multiset(paths)
  {
    if paths == [] then []
    else
      assert paths == paths[..|paths| - 1] + [paths[|paths| - 1]];
      Insert(paths[|paths| - 1], Sorted(paths[..|paths| - 1]))
  }

  function Reversed(paths: seq<Path>): (r: seq<Path>)
    ensures multiset(r) == multiset(paths)
  {
    if paths == [] then []
    else
      assert paths == paths[..|paths| - 1] + [paths[|paths| - 1]];
      [paths[|paths| - 1]] + Reversed(paths[..|paths| - 1])
  }

  /** Taking one occurrence of `path` out of a sequence. */
  lemma Extract(paths: seq<Path>, path: Path) returns (before: seq<Path>, after: seq<Path>)
    requires path in paths
    ensures paths == before + [path] + after
    ensures multiset(before + after) == multiset(paths) - multiset{path}
  {
    var i :| 0 <= i < |paths| && paths[i] == path;
    before, after := paths[..i], paths[i + 1..];
    assert paths == before + [path] + after;
  }

  /** The order of the stack is irrelevant to what is counted and found. */
  lemma {:induction false} OrderIsIrrelevant(tree: Tree, cwd: Bytes, a: seq<Path>, b: seq<Path>, depth: nat)
    requires multiset(a) == multiset(b)
    ensures forall m :: TotalAll(tree, m, a, depth) == TotalAll(tree, m, b, depth)
    ensures FoundAll(tree, cwd, a, depth) == FoundAll(tree, cwd, b, depth)
    decreases |a|
  {
    if a == [] {
      assert |multiset(b)| == |b|;
    } else {
      var front, last := a[..|a| - 1], a[|a| - 1];
      assert a == front + [last];
      assert last in multiset(b);
      var before, after := Extract(b, last);
      assert multiset(front) == multiset(a) - multiset{last};
      OrderIsIrrelevant(tree, cwd, front, before + after, depth);
      forall m ensures TotalAll(tree, m, a, depth) == TotalAll(tree, m, b, depth) {
        TotalAllConcat(tree, m, before + [last], after, depth);
        TotalAllConcat(tree, m, before, [last], depth);
        TotalAllConcat(tree, m, before, after, depth);
        TotalAllConcat(tree, m, front, [last], depth);
      }
      FoundAllConcat(tree, cwd, before + [last], after, depth);
      FoundAllConcat(tree, cwd, before, [last], depth);
      FoundAllConcat(tree, cwd, before, after, depth);
      FoundAllConcat(tree, cwd, front, [last], depth);
    }
  }

  // ---------- The traversal ----------

  /** One visit: what a directory adds, against the reference at neighbouring depths. */
  lemma VisitIsCounted(tree: Tree, m: Measure, path: Path, depth: nat)
    ensures Total(tree, m, path, depth) <= Weight(tree, m, path) + TotalAll(tree, m, Children(tree, path), depth)
    ensures Total(tree, m, path, depth + 1) == Weight(tree, m, path) + TotalAll(tree, m, Children(tree, path), depth)
  {
    if depth > 0 {
      TotalAllGrows(tree, m, Children(tree, path), depth - 1);
    }
  }

  lemma VisitIsFound(tree: Tree, cwd: Bytes, path: Path, depth: nat)
    ensures Found(tree, cwd, path, depth)
      <= SpellingsOf(cwd, path, Listing(tree, path)) + FoundAll(tree, cwd, Children(tree, path), depth)
    ensures Found(tree, cwd, path, depth + 1)
      == SpellingsOf(cwd, path, Listing(tree, path)) + FoundAll(tree, cwd, Children(tree, path), depth)
  {
    if depth > 0 {
      FoundAllGrows(tree, cwd, Children(tree, path), depth - 1);
    }
  }

  /** `counted` plus what the stack still holds lies between two depths of the reference. */
  ghost predicate CountsBetween(tree: Tree, m: Measure, pending: seq<Path>, counted: nat, visits: nat) {
    && (forall depth: nat :: Total(tree, m, [], depth) <= counted + TotalAll(tree, m, pending, depth))
    && (forall depth: nat :: counted + TotalAll(tree, m, pending, depth) <= Total(tree, m, [], depth + visits))
  }

  ghost predicate FoundBetween(tree: Tree, cwd: Bytes, pending: seq<Path>, paths: set<string>, visits: nat) {
    && (forall depth: nat :: Found(tree, cwd, [], depth) <= paths + FoundAll(tree, cwd, pending, depth))
    && (forall depth: nat :: paths + FoundAll(tree, cwd, pending, depth) <= Found(tree, cwd, [], depth + visits))
  }

  /** `rest` is the stack after a pop of `path`, `next` the stack after its children were pushed. */
  lemma VisitCountsAt(tree: Tree, m: Measure, rest: seq<Path>, path: Path, next: seq<Path>, depth: nat)
    requires multiset(next) == multiset(rest + Children(tree, path))
    ensures var own := Weight(tree, m, path);
      && TotalAll(tree, m, rest + [path], depth) <= own + TotalAll(tree, m, next, depth)
      && own + TotalAll(tree, m, next, depth) <= TotalAll(tree, m, rest + [path], depth + 1)
  {
    OrderIsIrrelevant(tree, [], next, rest + Children(tree, path), depth);
    TotalAllConcat(tree, m, rest, Children(tree, path), depth);
    VisitIsCounted(tree, m, path, depth);
    assert (rest + [path])[..|rest|] == rest;
    TotalAllGrows(tree, m, rest, depth);
  }

  lemma VisitKeepsCounts(tree: Tree, m: Measure, rest: seq<Path>, path: Path, next: seq<Path>, counted: nat, visits: nat)
    requires CountsBetween(tree, m, rest + [path], counted, visits)
    requires multiset(next) == multiset(rest + Children(tree, path))
    ensures CountsBetween(tree, m, next, counted + Weight(tree, m, path), visits + 1)
  {
    var own := Weight(tree, m, path);
    forall depth: nat ensures Total(tree, m, [], depth) <= counted + own + TotalAll(tree, m, next, depth) {
      VisitCountsAt(tree, m, rest, path, next, depth);
      assert Total(tree, m, [], depth) <= counted + TotalAll(tree, m, rest + [path], depth);
    }
    forall depth: nat ensures counted + own + TotalAll(tree, m, next, depth) <= Total(tree, m, [], depth + (visits + 1)) {
      VisitCountsAt(tree, m, rest, path, next, depth);
      assert counted + TotalAll(tree, m, rest + [path], depth + 1) <= Total(tree, m, [], depth + 1 + visits);
    }
  }

  lemma VisitFoundAt(tree: Tree, cwd: Bytes, rest: seq<Path>, path: Path, next: seq<Path>, depth: nat)
    requires multiset(next) == multiset(rest + Children(tree, path))
    ensures var own := SpellingsOf(cwd, path, Listing(tree, path));
      && FoundAll(tree, cwd, rest + [path], depth) <= own + FoundAll(tree, cwd, next, depth)
      && own + FoundAll(tree, cwd, next, depth) <= FoundAll(tree, cwd, rest + [path], depth + 1)
  {
    OrderIsIrrelevant(tree, cwd, next, rest + Children(tree, path), depth);
    FoundAllConcat(tree, cwd, rest, Children(tree, path), depth);
    VisitIsFound(tree, cwd, path, depth);
    assert (rest + [path])[..|rest|] == rest;
    FoundAllGrows(tree, cwd, rest, depth);
  }

  lemma VisitKeepsFound(tree: Tree, cwd: Bytes, rest: seq<Path>, path: Path, next: seq<Path>, paths: set<string>, visits: nat)
    requires FoundBetween(tree, cwd, rest + [path], paths, visits)
    requires multiset(next) == multiset(rest + Children(tree, path))
    ensures FoundBetween(tree, cwd, next, paths + SpellingsOf(cwd, path, Listing(tree, path)), visits + 1)
  {
    var own := SpellingsOf(cwd, path, Listing(tree, path));
    forall depth: nat ensures Found(tree, cwd, [], depth) <= paths + own + FoundAll(tree, cwd, next, depth) {
      VisitFoundAt(tree, cwd, rest, path, next, depth);
      assert Found(tree, cwd, [], depth) <= paths + FoundAll(tree, cwd, rest + [path], depth);
    }
    forall depth: nat ensures paths + own + FoundAll(tree, cwd, next, depth) <= Found(tree, cwd, [], depth + (visits + 1)) {
      VisitFoundAt(tree, cwd, rest, path, next, depth);
      assert paths + FoundAll(tree, cwd, rest + [path], depth + 1) <= Found(tree, cwd, [], depth + 1 + visits);
    }
  }

  /** A directory on the stack has not been counted yet, so its weight fits into a deeper total. */
  lemma PendingWeight(tree: Tree, m: Measure, rest: seq<Path>, path: Path, counted: nat, visits: nat)
    requires CountsBetween(tree, m, rest + [path], counted, visits)
    ensures counted + Weight(tree, m, path) <= Total(tree, m, [], 1 + visits)
  {
    TotalAllConcat(tree, m, rest, [path], 1);
    assert TotalAll(tree, m, [path], 1) == Total(tree, m, path, 1);
  }

  datatype Scan = Scanned(children: seq<Path>, spellings: set<string>) | ScanExceeded | ScanCancelled

  lemma {:induction false} ObservedPrefix(entries: seq<DirectoryEntry>, i: nat)
    requires i <= |entries|
    ensures Observed(entries[..i]) <= Observed(entries)
    decreases |entries| - i
  {
    if i < |entries| {
      assert entries[..i + 1][..i] == entries[..i];
      ObservedPrefix(entries, i + 1);
    } else {
      assert entries[..i] == entries;
    }
  }

  /** The inner loop over one directory; `cancelled(n)` answers the n-th poll. */
  method ScanDirectory(cwd: Bytes, path: Path, entries: seq<DirectoryEntry>, before: nat, limits: Limits,
                       cancelled: nat -> bool, polled: nat)
    returns (scan: Scan, observed: nat, polls: nat)
    requires before <= limits.maxEntries
    ensures scan.Scanned? ==> observed == before + Observed(entries) <= limits.maxEntries
    ensures scan.Scanned? ==> scan.children == ChildrenOf(path, entries) && scan.spellings == SpellingsOf(cwd, path, entries)
    ensures scan.ScanExceeded? ==> before + Observed(entries) > limits.maxEntries
    ensures scan.ScanCancelled? ==> exists poll :: cancelled(poll)
  {
    observed, polls := before, polled;
    var children, spellings := [], {};
    var i := 0;
    while i < |entries|
      invariant 0 <= i <= |entries|
      invariant observed == before + Observed(entries[..i]) <= limits.maxEntries
      invariant children == ChildrenOf(path, entries[..i]) && spellings == SpellingsOf(cwd, path, entries[..i])
    {
      if cancelled(polls) {
        return ScanCancelled, observed, polls + 1;
      }
      polls := polls + 1;
      assert entries[..i + 1][..i] == entries[..i];
      var entry := entries[i];
      i := i + 1;
      if entry.Entry? {
        observed := observed + 1;
        if observed > limits.maxEntries {
          ObservedPrefix(entries, i);
          return ScanExceeded, observed, polls;
        }
        if entry.isDirectory.Some? {
          if entry.isDirectory.value {
            children := children + [path + [entry.name]];
          }
          spellings := spellings + Spellings(cwd, path + [entry.name], entry.isDirectory.value);
        }
      }
    }
    assert entries[..i] == entries;
    scan := Scanned(children, spellings);
  }

  /** The state of the traversal: the stack, the two counters and the spellings so far. */
  datatype State = State(pending: seq<Path>, visited: nat, observed: nat, paths: set<string>)

  ghost predicate Progress(tree: Tree, cwd: Bytes, s: State, visits: nat) {
    && CountsBetween(tree, Directories, s.pending, s.visited, visits)
    && CountsBetween(tree, Entries, s.pending, s.observed, visits)
    && FoundBetween(tree, cwd, s.pending, s.paths, visits)
  }

  lemma ProgressInitially(tree: Tree, cwd: Bytes)
    ensures Progress(tree, cwd, State([[]], 0, 0, {}), 0)
  {
    forall depth: nat
      ensures forall m :: TotalAll(tree, m, [[]], depth) == Total(tree, m, [], depth)
      ensures FoundAll(tree, cwd, [[]], depth) == Found(tree, cwd, [], depth)
    {
      var root: seq<Path> := [[]];
      assert root[..0] == [];
    }
  }

  lemma ProgressAfterVisit(tree: Tree, cwd: Bytes, s: State, path: Path, next: seq<Path>, visits: nat)
    requires s.pending != [] && path == s.pending[|s.pending| - 1] && Progress(tree, cwd, s, visits)
    requires multiset(next) == multiset(s.pending[..|s.pending| - 1] + Children(tree, path))
    ensures Progress(tree, cwd,
      State(next, s.visited + 1, s.observed + Observed(Listing(tree, path)),
            s.paths + SpellingsOf(cwd, path, Listing(tree, path))), visits + 1)
  {
    var rest := s.pending[..|s.pending| - 1];
    assert s.pending == rest + [path];
    VisitKeepsCounts(tree, Directories, rest, path, next, s.visited, visits);
    VisitKeepsCounts(tree, Entries, rest, path, next, s.observed, visits);
    VisitKeepsFound(tree, cwd, rest, path, next, s.paths, visits);
  }

  /** Once a counter has passed its limit, so has the tree. */
  lemma ExceededBreaksLimits(tree: Tree, cwd: Bytes, limits: Limits, s: State, path: Path, visits: nat)
    requires s.pending != [] && path == s.pending[|s.pending| - 1] && Progress(tree, cwd, s, visits)
    requires s.visited + 1 > limits.maxDirectories || s.observed + Observed(Listing(tree, path)) > limits.maxEntries
    ensures !WithinLimits(tree, limits)
  {
    var rest := s.pending[..|s.pending| - 1];
    assert s.pending == rest + [path];
    PendingWeight(tree, Directories, rest, path, s.visited, visits);
    PendingWeight(tree, Entries, rest, path, s.observed, visits);
  }

  lemma EmptyStackIsComplete(tree: Tree, cwd: Bytes, limits: Limits, s: State, visits: nat)
    requires s.pending == [] && s.visited <= limits.maxDirectories && s.observed <= limits.maxEntries
    requires Progress(tree, cwd, s, visits)
    ensures WithinLimits(tree, limits)
    ensures forall spelling :: spelling in s.paths <==> Spelled(tree, cwd, spelling)
  {
    forall depth: nat
      ensures Total(tree, Directories, [], depth) <= s.visited && Total(tree, Entries, [], depth) <= s.observed
      ensures Found(tree, cwd, [], depth) <= s.paths
    {
      assert TotalAll(tree, Directories, [], depth) == TotalAll(tree, Entries, [], depth) == 0;
      assert FoundAll(tree, cwd, [], depth) == {};
    }
    assert s.paths + FoundAll(tree, cwd, [], 0) <= Found(tree, cwd, [], 0 + visits);
    forall spelling | spelling in s.paths ensures Spelled(tree, cwd, spelling) {
      assert spelling in Found(tree, cwd, [], visits);
    }
  }

  datatype Visit = Visited(state: State) | VisitExceeded | VisitCancelled

  lemma PushedChildren(rest: seq<Path>, children: seq<Path>)
    ensures multiset(rest + Reversed(Sorted(children))) == multiset(rest + children)
  {
  }

  /** One turn of the outer loop: pop, poll, open, scan, push the sorted children in reverse. */
  method VisitTop(tree: Tree, cwd: Bytes, limits: Limits, s: State, cancelled: nat -> bool, polled: nat, ghost visits: nat)
    returns (visit: Visit, polls: nat)
    requires s.pending != [] && s.observed <= limits.maxEntries && Progress(tree, cwd, s, visits)
    ensures visit.VisitCancelled? ==> exists poll :: cancelled(poll)
    ensures visit.VisitExceeded? ==> !WithinLimits(tree, limits)
    ensures visit.Visited? ==>
      && visit.state.visited == s.visited + 1 <= limits.maxDirectories && visit.state.observed <= limits.maxEntries
      && Progress(tree, cwd, visit.state, visits + 1)
  {
    var rest, path := s.pending[..|s.pending| - 1], s.pending[|s.pending| - 1];
    polls := polled + 1;
    if cancelled(polled) {
      return VisitCancelled, polls;
    }
    if s.visited + 1 > limits.maxDirectories {
      ExceededBreaksLimits(tree, cwd, limits, s, path, visits);
      return VisitExceeded, polls;
    }
    var scan, observed;
    scan, observed, polls := ScanDirectory(cwd, path, Listing(tree, path), s.observed, limits, cancelled, polls);
    if scan.ScanCancelled? {
      return VisitCancelled, polls;
    }
    if scan.ScanExceeded? {
      ExceededBreaksLimits(tree, cwd, limits, s, path, visits);
      return VisitExceeded, polls;
    }
    var pending := rest + Reversed(Sorted(scan.children));
    PushedChildren(rest, scan.children);
    ProgressAfterVisit(tree, cwd, s, path, pending, visits);
    visit := Visited(State(pending, s.visited + 1, observed, s.paths + scan.spellings));
  }

  /**
    Without cancellation the snapshot is complete exactly when the whole tree, whatever its depth, respects
    both limits; otherwise it reports that, after finitely many steps even on an infinite tree.
   */
  method CwdPaths(tree: Tree, cwd: Bytes, limits: Limits, cancelled: nat -> bool) returns (r: Collection)
    ensures r.Cancelled? ==> exists poll :: cancelled(poll)
    ensures r.Values? ==> WithinLimits(tree, limits)
    ensures r.Values? ==> forall spelling :: spelling in r.paths <==> Spelled(tree, cwd, spelling)
    ensures r.Exceeded? ==> !WithinLimits(tree, limits)
  {
    var polls := 0;
    var s := State([[]], 0, 0, {});
    ghost var visits := 0;
    ProgressInitially(tree, cwd);
    while s.pending != []
      invariant s.visited <= limits.maxDirectories && s.observed <= limits.maxEntries
      invariant Progress(tree, cwd, s, visits)
      decreases limits.maxDirectories - s.visited
    {
      var visit;
      visit, polls := VisitTop(tree, cwd, limits, s, cancelled, polls, visits);
      if visit.VisitCancelled? {
        return Cancelled;
      }
      if visit.VisitExceeded? {
        return Exceeded;
      }
      s := visit.state;
      visits := visits + 1;
    }
    EmptyStackIsComplete(tree, cwd, limits, s, visits);
    r := Values(s.paths);
  }
}
