/**
  The hash-chained run journal built by the evidence qualification.

  A dictionary is an object whose members are reassigned in place; values inside it are plain JSON values.
  The serialisation gives every dictionary a line of its own, as canonical JSON is shown to do. The digest is
  an arbitrary function of these lines: nothing is assumed of it, and the results say exactly which collision
  it takes for two runs to end in the same digest.
*/
module Journal {
  import opened Wrappers
  import CanonicalJson

  type Members = map<string, Json>

  /** The two foreign functions: the canonical serialisation and the hexadecimal SHA-256 digest. */
  datatype Functions = Functions(canonical: Members -> seq<Byte>, sha: seq<Byte> -> string)

  /** Every dictionary is serialised on one line of its own. */
  ghost predicate OwnLine(how: Functions) {
    && (forall m :: IsOneLine(how, m))
    && (forall m, m' :: SameLine(how, m, m') ==> m == m')
  }

  predicate IsOneLine(how: Functions, m: Members) { NEWLINE !in how.canonical(m) }

  predicate SameLine(how: Functions, m: Members, m': Members) { how.canonical(m) == how.canonical(m') }

  /** Canonical JSON with any digest at all. */
  function JsonSealing(sha: seq<Byte> -> string): (how: Functions)
    ensures OwnLine(how) && how.sha == sha && forall m :: how.canonical(m) == CanonicalJson.Canonical(m)
  {
    var how := Functions(CanonicalJson.Canonical, sha);
    JsonOwnsItsLines(how);
    how
  }

  lemma JsonOwnsItsLines(how: Functions)
    requires forall m :: how.canonical(m) == CanonicalJson.Canonical(m)
    ensures OwnLine(how)
  {
    forall m
      ensures IsOneLine(how, m)
    {
      CanonicalJson.CanonicalIsOneLine(m);
    }
    forall m, m' | SameLine(how, m, m')
      ensures m == m'
    {
      CanonicalJson.CanonicalIsInjective(m, m');
    }
  }

  /** What the journal needs of the two functions; of the digest, nothing. */
  type Sealing = how: Functions | OwnLine(how) ghost witness JsonSealing(_ => [])

  // ---------- One dictionary ----------

  function Unsealed(m: Members): Members { m - {"digest"} }

  function DigestOf(how: Sealing, m: Members): string {
    "sha256:" + how.sha(how.canonical(Unsealed(m)))
  }

  function Resealed(how: Sealing, m: Members): Members {
    Unsealed(m)["digest" := Str(DigestOf(how, m))]
  }

  /** What the journal keeps of an event: the rest is rewritten. */
  function Payload(m: Members): Members { m - {"seq", "previous", "digest"} }

  class Dict {
    var members: Members

    constructor (members: Members)
      ensures this.members == members
    {
      this.members := members;
    }
  }

  method Reseal(how: Sealing, value: Dict)
    modifies value
    ensures value.members == Resealed(how, old(value.members))
  {
    value.members := value.members - {"digest"};
    value.members := value.members["digest" := Str("sha256:" + how.sha(how.canonical(value.members)))];
  }

  // ---------- The chain ----------

  function Linked(m: Members, seq_: nat, previous: Json): Members {
    m["seq" := Number(seq_)]["previous" := previous]
  }

  /** The dictionary written for the `k`-th event. */
  function Sealed(how: Sealing, events: seq<Members>, k: nat): (m: Members)
    requires k < |events|
    ensures "digest" in m && "seq" in m && "previous" in m
    decreases k, 1
  {
    Resealed(how, Linked(events[k], k, Previous(how, events, k)))
  }

  /** The digest that the `k`-th event refers back to. */
  function Previous(how: Sealing, events: seq<Members>, k: nat): Json
    requires k <= |events|
    decreases k, 0
  {
    if k == 0 then Null else Sealed(how, events, k - 1)["digest"]
  }

  function SealedAll(how: Sealing, events: seq<Members>): (records: seq<Members>)
    ensures |records| == |events| && forall k :: 0 <= k < |records| ==> records[k] == Sealed(how, events, k)
  {
    seq(|events|, k requires 0 <= k < |events| => Sealed(how, events, k))
  }

  /** The first `n` lines, each with its end. */
  function Rendered(lines: seq<seq<Byte>>, n: nat): seq<Byte>
    requires n <= |lines|
  {
    if n == 0 then [] else Rendered(lines, n - 1) + (lines[n - 1] + [NEWLINE])
  }

  function Lines(how: Sealing, records: seq<Members>): (lines: seq<seq<Byte>>)
    ensures |lines| == |records| && forall k :: 0 <= k < |lines| ==> lines[k] == how.canonical(records[k])
  {
    seq(|records|, k requires 0 <= k < |records| => how.canonical(records[k]))
  }

  function Journaled(how: Sealing, events: seq<Members>): seq<Byte> {
    Rendered(Lines(how, SealedAll(how, events)), |events|)
  }

  function Snapshot(events: seq<Dict>): (s: seq<Members>)
    reads events
    ensures |s| == |events| && forall k :: 0 <= k < |s| ==> s[k] == events[k].members
  {
    seq(|events|, k requires 0 <= k < |events| reads events => events[k].members)
  }

  /** Copies keep the sharing of the originals, as the memo of a deep copy does. */
  method DeepCopy(events: seq<Dict>) returns (copies: seq<Dict>)
    ensures |copies| == |events|
    ensures forall k :: 0 <= k < |events| ==> fresh(copies[k]) && copies[k].members == events[k].members
    ensures forall j, k :: 0 <= j < |events| && 0 <= k < |events| ==> (copies[j] == copies[k] <==> events[j] == events[k])
  {
    copies := [];
    var memo: map<Dict, Dict> := map[];
    for i := 0 to |events|
      invariant |copies| == i
      invariant forall k :: 0 <= k < i ==> events[k] in memo && memo[events[k]] == copies[k]
      invariant forall d :: d in memo ==> fresh(memo[d]) && memo[d].members == d.members
      invariant forall d, e :: d in memo && e in memo && memo[d] == memo[e] ==> d == e
    {
      if events[i] !in memo {
        var copied := new Dict(events[i].members);
        memo := memo[events[i] := copied];
      }
      copies := copies + [memo[events[i]]];
    }
  }

  lemma LinkedKeepsPayload(m: Members, seq_: nat, previous: Json)
    ensures Payload(Linked(m, seq_, previous)) == Payload(m)
    ensures Unsealed(Linked(m, seq_, previous)) == Linked(Payload(m), seq_, previous)
  {
  }

  lemma ResealedKeepsPayload(how: Sealing, m: Members)
    ensures Payload(Resealed(how, m)) == Payload(m)
  {
    assert Payload(Unsealed(m)) == Payload(m);
  }

  lemma SealedForgetsBookkeeping(how: Sealing, m: Members, m': Members, seq_: nat, previous: Json)
    requires Payload(m) == Payload(m')
    ensures Resealed(how, Linked(m, seq_, previous)) == Resealed(how, Linked(m', seq_, previous))
    ensures Payload(Resealed(how, Linked(m, seq_, previous))) == Payload(m)
  {
    LinkedKeepsPayload(m, seq_, previous);
    LinkedKeepsPayload(m', seq_, previous);
    ResealedKeepsPayload(how, Linked(m, seq_, previous));
  }

  /** One line of the journal, from an event that is sealed in place. */
  method WriteLine(how: Sealing, event: Dict, seq_: nat, previous: Json) returns (line: seq<Byte>)
    modifies event
    ensures event.members == Resealed(how, Linked(old(event.members), seq_, previous))
    ensures line == how.canonical(event.members) + [NEWLINE]
  {
    event.members := event.members["seq" := Number(seq_)]["previous" := previous];
    Reseal(how, event);
    line := how.canonical(event.members) + [NEWLINE];
  }

  /** `records` and `links` are the sealed events and the digests they refer back to. */
  predicate IsChain(how: Sealing, events: seq<Members>, records: seq<Members>, links: seq<Json>) {
    && |records| == |events| && |links| == |events| + 1 && links[0] == Null
    && forall k {:trigger IsLink(how, events, records, links, k)} :: 0 <= k < |events| ==> IsLink(how, events, records, links, k)
  }

  predicate IsLink(how: Sealing, events: seq<Members>, records: seq<Members>, links: seq<Json>, k: nat)
    requires |records| == |events| && |links| == |events| + 1 && k < |events|
  {
    && records[k] == Resealed(how, Linked(events[k], k, links[k]))
    && "digest" in records[k] && links[k + 1] == records[k]["digest"]
  }

  lemma SealedAllIsChain(how: Sealing, events: seq<Members>) returns (links: seq<Json>)
    ensures IsChain(how, events, SealedAll(how, events), links)
  {
    links := seq(|events| + 1, k requires 0 <= k <= |events| => Previous(how, events, k));
  }

  /** The copies still carry the payloads of the originals. */
  predicate Faithful(copies: seq<Dict>, originals: seq<Members>)
    reads copies
  {
    |copies| == |originals| && forall k :: 0 <= k < |copies| ==> Payload(copies[k].members) == Payload(originals[k])
  }

  /** One turn: sealing a copy in place keeps all payloads, even when copies are shared. */
  method SealNext(how: Sealing, copies: seq<Dict>, i: nat, previous: Json,
                  ghost originals: seq<Members>, ghost records: seq<Members>, ghost links: seq<Json>)
    returns (line: seq<Byte>, digest: Json)
    requires Faithful(copies, originals) && IsChain(how, originals, records, links)
    requires i < |copies| && previous == links[i]
    modifies copies[i]
    ensures Faithful(copies, originals) && digest == links[i + 1]
    ensures line == how.canonical(records[i]) + [NEWLINE]
  {
    assert IsLink(how, originals, records, links, i);
    SealedForgetsBookkeeping(how, copies[i].members, originals[i], i, previous);
    line := WriteLine(how, copies[i], i, previous);
    digest := copies[i].members["digest"];
  }

  /** The loop over the copies. */
  method SealAll(how: Sealing, copies: seq<Dict>, ghost originals: seq<Members>, ghost records: seq<Members>, ghost links: seq<Json>)
    returns (bytes: seq<Byte>)
    requires Faithful(copies, originals) && IsChain(how, originals, records, links)
    modifies copies
    ensures bytes == Rendered(Lines(how, records), |records|)
  {
    var previous := Null;
    bytes := [];
    for i := 0 to |copies|
      invariant previous == links[i] && bytes == Rendered(Lines(how, records), i)
      invariant Faithful(copies, originals)
    {
      var line;
      line, previous := SealNext(how, copies, i, previous, originals, records, links);
      bytes := bytes + line;
    }
  }

  /** Writes the journal of the events. The caller's dictionaries are untouched, even when some are shared. */
  method JournalBytes(how: Sealing, events: seq<Dict>) returns (bytes: seq<Byte>)
    ensures bytes == Journaled(how, Snapshot(events))
  {
    ghost var originals := Snapshot(events);
    ghost var links := SealedAllIsChain(how, originals);
    var copies := DeepCopy(events);
    bytes := SealAll(how, copies, originals, SealedAll(how, originals), links);
    assert Snapshot(events) == originals;
  }

  // ---------- What a reader checks ----------

  /** A list of records a journal reader accepts: contiguous numbers, linked digests, matching digests. */
  ghost predicate ValidChain(how: Sealing, records: seq<Members>) {
    forall k :: 0 <= k < |records| ==> ValidRecord(how, records, k)
  }

  predicate ValidRecord(how: Sealing, records: seq<Members>, k: nat)
    requires k < |records|
  {
    && "seq" in records[k] && records[k]["seq"] == Number(k)
    && "previous" in records[k]
    && (if k == 0 then records[k]["previous"] == Null
        else "digest" in records[k - 1] && records[k]["previous"] == records[k - 1]["digest"])
    && "digest" in records[k] && records[k]["digest"] == Str(DigestOf(how, records[k]))
  }

  lemma ResealedTwice(how: Sealing, m: Members)
    ensures Resealed(how, Resealed(how, m)) == Resealed(how, m)
    ensures DigestOf(how, Resealed(how, m)) == DigestOf(how, m)
  {
    assert Unsealed(Resealed(how, m)) == Unsealed(m);
  }

  /** Every journal is a valid chain that keeps each event's payload. */
  lemma JournalIsAValidChain(how: Sealing, events: seq<Members>)
    ensures ValidChain(how, SealedAll(how, events))
    ensures forall k :: 0 <= k < |events| ==> Payload(SealedAll(how, events)[k]) == Payload(events[k])
    ensures forall k :: 0 <= k < |events| ==> Resealed(how, SealedAll(how, events)[k]) == SealedAll(how, events)[k]
  {
    forall k | 0 <= k < |events|
      ensures ValidRecord(how, SealedAll(how, events), k)
      ensures Payload(SealedAll(how, events)[k]) == Payload(events[k])
      ensures Resealed(how, SealedAll(how, events)[k]) == SealedAll(how, events)[k]
    {
      var linked := Linked(events[k], k, Previous(how, events, k));
      ResealedTwice(how, linked);
      SealedForgetsBookkeeping(how, events[k], events[k], k, Previous(how, events, k));
    }
  }

  /** A list is a valid chain exactly when rebuilding the journal from it changes nothing. */
  lemma ValidExactlyWhenRebuiltUnchanged(how: Sealing, records: seq<Members>)
    ensures ValidChain(how, records) <==> SealedAll(how, records) == records
  {
    if ValidChain(how, records) {
      forall k | 0 <= k < |records|
        ensures Sealed(how, records, k) == records[k]
      {
        ValidRecordIsKept(how, records, k);
      }
    } else {
      JournalIsAValidChain(how, records);
    }
  }

  lemma {:induction false} ValidRecordIsKept(how: Sealing, records: seq<Members>, k: nat)
    requires ValidChain(how, records) && k < |records|
    ensures Sealed(how, records, k) == records[k]
  {
    assert ValidRecord(how, records, k);
    if k > 0 {
      ValidRecordIsKept(how, records, k - 1);
    }
    assert Linked(records[k], k, Previous(how, records, k)) == records[k];
    assert Resealed(how, records[k]) == records[k];
  }

  // ---------- The last digest commits to the whole run ----------

  /** The first `n` events are the same, up to the members the journal rewrites. */
  predicate Agree(events: seq<Members>, others: seq<Members>, n: nat)
    requires n <= |events| && n <= |others|
  {
    SameBetween(events, others, 0, n)
  }

  predicate SamePayload(m: Members, m': Members) { Payload(m) == Payload(m') }

  /** The events from `from` up to `to` are the same, up to the members the journal rewrites. */
  predicate SameBetween(events: seq<Members>, others: seq<Members>, from: nat, to: nat)
    requires to <= |events| && to <= |others|
  {
    forall k :: from <= k < to ==> SamePayload(events[k], others[k])
  }

  predicate SamePayloads(events: seq<Members>, others: seq<Members>) {
    |events| == |others| && Agree(events, others, |events|)
  }

  lemma {:induction false} AgreementIsLinkedAlike(how: Sealing, events: seq<Members>, others: seq<Members>, n: nat)
    requires n <= |events| && n <= |others| && Agree(events, others, n)
    ensures Previous(how, events, n) == Previous(how, others, n)
    ensures n > 0 ==> Sealed(how, events, n - 1) == Sealed(how, others, n - 1)
  {
    if n > 0 {
      AgreementIsLinkedAlike(how, events, others, n - 1);
      SealedForgetsBookkeeping(how, events[n - 1], others[n - 1], n - 1, Previous(how, events, n - 1));
    }
  }

  lemma SameRecordsExactlyWhenSamePayloads(how: Sealing, events: seq<Members>, others: seq<Members>)
    ensures SealedAll(how, events) == SealedAll(how, others) <==> SamePayloads(events, others)
  {
    if SamePayloads(events, others) {
      forall k | 0 <= k < |events|
        ensures Sealed(how, events, k) == Sealed(how, others, k)
      {
        AgreementIsLinkedAlike(how, events, others, k + 1);
      }
    } else if SealedAll(how, events) == SealedAll(how, others) {
      JournalIsAValidChain(how, events);
      JournalIsAValidChain(how, others);
    }
  }

  /** The bytes whose digest seals the `k`-th event. */
  function HashedBytes(how: Sealing, events: seq<Members>, k: nat): seq<Byte>
    requires k < |events|
  {
    how.canonical(Unsealed(Linked(events[k], k, Previous(how, events, k))))
  }

  /** Two records are sealed by one digest although different bytes are hashed. */
  predicate Collide(how: Sealing, events: seq<Members>, j: nat, others: seq<Members>, k: nat)
    requires j < |events| && k < |others|
  {
    var a, b := HashedBytes(how, events, j), HashedBytes(how, others, k);
    a != b && how.sha(a) == how.sha(b)
  }

  /**
    The first `n` and the first `m` events meet in a collision: it is one of the last records of both, or
    stands at one place in both and the same events follow.
   */
  predicate MeetAt(how: Sealing, events: seq<Members>, n: nat, others: seq<Members>, m: nat, j: nat, k: nat)
    requires n <= |events| && m <= |others|
  {
    j < n && k < m && Collide(how, events, j, others, k) && Follows(events, n, others, m, j, k)
  }

  /** Behind the `j`-th and the `k`-th record come the same events, if any. */
  predicate Follows(events: seq<Members>, n: nat, others: seq<Members>, m: nat, j: nat, k: nat)
    requires j < n <= |events| && k < m <= |others|
  {
    n - j == m - k && if j == k then SameBetween(events, others, j + 1, n) else j + 1 == n
  }

  ghost predicate Meet(how: Sealing, events: seq<Members>, n: nat, others: seq<Members>, m: nat)
    requires n <= |events| && m <= |others|
  {
    exists j: nat, k: nat :: MeetAt(how, events, n, others, m, j, k)
  }

  lemma LinkIsTheDigest(how: Sealing, events: seq<Members>, k: nat)
    requires k < |events|
    ensures Previous(how, events, k + 1) == Str("sha256:" + how.sha(HashedBytes(how, events, k)))
  {
  }

  lemma LinksAreDigests(how: Sealing, events: seq<Members>, j: nat, others: seq<Members>, k: nat)
    requires j < |events| && k < |others|
    ensures Previous(how, events, j + 1) == Previous(how, others, k + 1) <==>
      how.sha(HashedBytes(how, events, j)) == how.sha(HashedBytes(how, others, k))
  {
    LinkIsTheDigest(how, events, j);
    LinkIsTheDigest(how, others, k);
    var a, b := how.sha(HashedBytes(how, events, j)), how.sha(HashedBytes(how, others, k));
    assert a == ("sha256:" + a)[7..] && b == ("sha256:" + b)[7..];
  }

  /** What is hashed determines the number, the link and the payload. */
  lemma HashedBytesDetermineTheEvent(how: Sealing, events: seq<Members>, j: nat, others: seq<Members>, k: nat)
    requires j < |events| && k < |others| && HashedBytes(how, events, j) == HashedBytes(how, others, k)
    ensures j == k && Previous(how, events, j) == Previous(how, others, k) && Payload(events[j]) == Payload(others[k])
  {
    var p, q := Previous(how, events, j), Previous(how, others, k);
    assert SameLine(how, Unsealed(Linked(events[j], j, p)), Unsealed(Linked(others[k], k, q)));
    UnsealedDeterminesEvent(events[j], j, p, others[k], k, q);
  }

  lemma UnsealedDeterminesEvent(m: Members, seq_: nat, previous: Json, m': Members, seq': nat, previous': Json)
    requires Unsealed(Linked(m, seq_, previous)) == Unsealed(Linked(m', seq', previous'))
    ensures seq_ == seq' && previous == previous' && Payload(m) == Payload(m')
  {
    var u, u' := Unsealed(Linked(m, seq_, previous)), Unsealed(Linked(m', seq', previous'));
    assert u["seq"] == Number(seq_) && u'["seq"] == Number(seq');
    assert u["previous"] == previous && u'["previous"] == previous';
    assert Payload(m) == u - {"seq", "previous"};
    assert Payload(m') == u' - {"seq", "previous"};
  }

  /** Equal links stand behind equal events, or behind a collision. */
  lemma {:induction false} LinkDeterminesPast(how: Sealing, events: seq<Members>, n: nat, others: seq<Members>, m: nat)
    requires n <= |events| && m <= |others| && Previous(how, events, n) == Previous(how, others, m)
    ensures (n == m && Agree(events, others, n)) || Meet(how, events, n, others, m)
  {
    if n == 0 || m == 0 {
      LinksOfNothing(how, events, n, others, m);
    } else {
      LinksAreDigests(how, events, n - 1, others, m - 1);
      if Collide(how, events, n - 1, others, m - 1) {
        CollisionMeets(how, events, n, others, m);
      } else {
        HashedBytesDetermineTheEvent(how, events, n - 1, others, m - 1);
        LinkDeterminesPast(how, events, n - 1, others, m - 1);
        MeetingGoesOn(how, events, others, n - 1);
      }
    }
  }

  lemma CollisionMeets(how: Sealing, events: seq<Members>, n: nat, others: seq<Members>, m: nat)
    requires 0 < n <= |events| && 0 < m <= |others| && Collide(how, events, n - 1, others, m - 1)
    ensures Meet(how, events, n, others, m)
  {
    assert MeetAt(how, events, n, others, m, n - 1, m - 1);
  }

  lemma LinksOfNothing(how: Sealing, events: seq<Members>, n: nat, others: seq<Members>, m: nat)
    requires n <= |events| && m <= |others| && Previous(how, events, n) == Previous(how, others, m) && (n == 0 || m == 0)
    ensures n == m
  {
  }

  lemma MeetingGoesOn(how: Sealing, events: seq<Members>, others: seq<Members>, n: nat)
    requires n < |events| && n < |others| && SamePayload(events[n], others[n])
    ensures Meet(how, events, n, others, n) ==> Meet(how, events, n + 1, others, n + 1)
  {
    if Meet(how, events, n, others, n) {
      var j: nat, k: nat :| MeetAt(how, events, n, others, n, j, k);
      assert MeetAt(how, events, n + 1, others, n + 1, j, k);
    }
  }

  lemma EqualLinkGoesOn(how: Sealing, events: seq<Members>, others: seq<Members>, n: nat)
    requires n < |events| && n < |others| && Previous(how, events, n) == Previous(how, others, n)
    requires SamePayload(events[n], others[n])
    ensures Previous(how, events, n + 1) == Previous(how, others, n + 1)
  {
    SealedForgetsBookkeeping(how, events[n], others[n], n, Previous(how, events, n));
  }

  /** Equal links stay equal while the same events follow. */
  lemma {:induction false} EqualLinksGoOn(how: Sealing, events: seq<Members>, others: seq<Members>, j: nat, n: nat)
    requires j <= n <= |events| && n <= |others| && Previous(how, events, j) == Previous(how, others, j)
    requires SameBetween(events, others, j, n)
    ensures Previous(how, events, n) == Previous(how, others, n)
  {
    if j < n {
      assert SamePayload(events[n - 1], others[n - 1]);
      EqualLinksGoOn(how, events, others, j, n - 1);
      EqualLinkGoesOn(how, events, others, n - 1);
    }
  }

  lemma CollisionHasOneLink(how: Sealing, events: seq<Members>, j: nat, others: seq<Members>, k: nat)
    requires j < |events| && k < |others| && Collide(how, events, j, others, k)
    ensures Previous(how, events, j + 1) == Previous(how, others, k + 1)
  {
    LinksAreDigests(how, events, j, others, k);
  }

  lemma FollowersKeepTheLink(how: Sealing, events: seq<Members>, n: nat, others: seq<Members>, m: nat, j: nat, k: nat)
    requires j < n <= |events| && k < m <= |others| && Follows(events, n, others, m, j, k)
    requires Previous(how, events, j + 1) == Previous(how, others, k + 1)
    ensures Previous(how, events, n) == Previous(how, others, m)
  {
    if j == k {
      EqualLinksGoOn(how, events, others, j + 1, n);
    }
  }

  lemma MeetingHasOneLink(how: Sealing, events: seq<Members>, n: nat, others: seq<Members>, m: nat)
    requires n <= |events| && m <= |others| && Meet(how, events, n, others, m)
    ensures Previous(how, events, n) == Previous(how, others, m)
  {
    var j: nat, k: nat :| MeetAt(how, events, n, others, m, j, k);
    CollisionHasOneLink(how, events, j, others, k);
    FollowersKeepTheLink(how, events, n, others, m, j, k);
  }

  /** The digest of the last record. */
  function LastDigest(how: Sealing, events: seq<Members>): Json { Previous(how, events, |events|) }

  /**
    Two journals end in the same digest exactly when they record the same events, up to the members the
    journal rewrites, or meet in a collision. Truncating, reordering, dropping or editing events changes the
    last digest unless a collision of two different byte strings is found among the hashed ones.
   */
  lemma LastDigestCommitsToTheRun(how: Sealing, events: seq<Members>, others: seq<Members>)
    ensures LastDigest(how, events) == LastDigest(how, others) <==>
      SamePayloads(events, others) || Meet(how, events, |events|, others, |others|)
  {
    if LastDigest(how, events) == LastDigest(how, others) {
      LinkDeterminesPast(how, events, |events|, others, |others|);
    } else if SamePayloads(events, others) {
      AgreementIsLinkedAlike(how, events, others, |events|);
    } else if Meet(how, events, |events|, others, |others|) {
      MeetingHasOneLink(how, events, |events|, others, |others|);
    }
  }

  /** Two valid chains, however produced, end in the same digest exactly when they are equal or meet in a collision. */
  lemma ValidChainsWithOneEndAreEqual(how: Sealing, records: seq<Members>, others: seq<Members>)
    requires ValidChain(how, records) && ValidChain(how, others) && records != [] && others != []
    requires ValidRecord(how, records, |records| - 1) && ValidRecord(how, others, |others| - 1)
    ensures records[|records| - 1]["digest"] == others[|others| - 1]["digest"] <==>
      records == others || Meet(how, records, |records|, others, |others|)
  {
    ValidExactlyWhenRebuiltUnchanged(how, records);
    ValidExactlyWhenRebuiltUnchanged(how, others);
    LastDigestCommitsToTheRun(how, records, others);
    SameRecordsExactlyWhenSamePayloads(how, records, others);
  }

  // ---------- The bytes determine the run ----------

  /** Where the unfinished last line of some bytes starts. */
  function LineStart(bytes: seq<Byte>): nat {
    if bytes == [] || bytes[|bytes| - 1] == NEWLINE then |bytes| else LineStart(bytes[..|bytes| - 1])
  }

  predicate WholeLines(bytes: seq<Byte>) { LineStart(bytes) == |bytes| }

  lemma {:induction false} LineStartAfterLines(lines: seq<Byte>, line: seq<Byte>)
    requires WholeLines(lines) && NEWLINE !in line
    ensures LineStart(lines + line) == |lines|
  {
    if line == [] {
      assert lines + line == lines;
    } else {
      LineStartAfterLines(lines, line[..|line| - 1]);
      assert (lines + line)[..|lines + line| - 1] == lines + line[..|line| - 1];
    }
  }

  lemma LastLineIsUnique(lines: seq<Byte>, line: seq<Byte>, lines': seq<Byte>, line': seq<Byte>)
    requires WholeLines(lines) && WholeLines(lines') && NEWLINE !in line && NEWLINE !in line'
    requires lines + (line + [NEWLINE]) == lines' + (line' + [NEWLINE])
    ensures lines == lines' && line == line'
  {
    var whole, whole' := lines + line, lines' + line';
    assert whole + [NEWLINE] == lines + (line + [NEWLINE]) == whole' + [NEWLINE];
    assert whole == (whole + [NEWLINE])[..|whole|] == whole';
    LineStartAfterLines(lines, line);
    LineStartAfterLines(lines', line');
    assert lines == whole[..|lines|] == lines';
    assert line == whole[|lines|..] == line';
  }

  predicate IsLine(line: seq<Byte>) { NEWLINE !in line }

  lemma RenderedHasWholeLines(lines: seq<seq<Byte>>, n: nat)
    requires n <= |lines|
    ensures WholeLines(Rendered(lines, n))
    ensures Rendered(lines, n) == [] <==> n == 0
  {
  }

  /** Lines are read back from their bytes in one way only. */
  lemma {:induction false} RenderedDeterminesTheLines(lines: seq<seq<Byte>>, n: nat, others: seq<seq<Byte>>, m: nat)
    requires (forall l <- lines :: IsLine(l)) && (forall l <- others :: IsLine(l))
    requires n <= |lines| && m <= |others| && Rendered(lines, n) == Rendered(others, m)
    ensures n == m && forall k :: 0 <= k < n ==> lines[k] == others[k]
  {
    RenderedHasWholeLines(lines, n);
    RenderedHasWholeLines(others, m);
    if n > 0 {
      assert IsLine(lines[n - 1]) && IsLine(others[m - 1]);
      RenderedHasWholeLines(lines, n - 1);
      RenderedHasWholeLines(others, m - 1);
      LastLineIsUnique(Rendered(lines, n - 1), lines[n - 1], Rendered(others, m - 1), others[m - 1]);
      RenderedDeterminesTheLines(lines, n - 1, others, m - 1);
    }
  }

  lemma SameBytesSameLines(lines: seq<seq<Byte>>, others: seq<seq<Byte>>)
    requires (forall l <- lines :: IsLine(l)) && (forall l <- others :: IsLine(l))
    requires Rendered(lines, |lines|) == Rendered(others, |others|)
    ensures lines == others
  {
    RenderedDeterminesTheLines(lines, |lines|, others, |others|);
  }

  /** Records are read back from their lines in one way only. */
  lemma LinesDetermineTheRecords(how: Sealing, records: seq<Members>, others: seq<Members>)
    requires Rendered(Lines(how, records), |records|) == Rendered(Lines(how, others), |others|)
    ensures records == others
  {
    LinesAreLines(how, records);
    LinesAreLines(how, others);
    SameBytesSameLines(Lines(how, records), Lines(how, others));
    SameLinesSameRecords(how, records, others);
  }

  lemma SameLinesSameRecords(how: Sealing, records: seq<Members>, others: seq<Members>)
    requires Lines(how, records) == Lines(how, others)
    ensures records == others
  {
    forall k | 0 <= k < |records|
      ensures records[k] == others[k]
    {
      assert Lines(how, records)[k] == Lines(how, others)[k];
      assert SameLine(how, records[k], others[k]);
    }
  }

  lemma LinesAreLines(how: Sealing, records: seq<Members>)
    ensures forall l <- Lines(how, records) :: IsLine(l)
  {
    forall k | 0 <= k < |records|
      ensures IsLine(Lines(how, records)[k])
    {
      assert IsOneLine(how, records[k]);
    }
  }

  /** Two journals are byte for byte equal exactly when they record the same events. */
  lemma BytesCommitToTheRun(how: Sealing, events: seq<Members>, others: seq<Members>)
    ensures Journaled(how, events) == Journaled(how, others) <==> SamePayloads(events, others)
  {
    SameRecordsExactlyWhenSamePayloads(how, events, others);
    if Journaled(how, events) == Journaled(how, others) {
      LinesDetermineTheRecords(how, SealedAll(how, events), SealedAll(how, others));
    }
  }
}
