/**
 * Durable memory entries and their feedback log (internal/memory/repo.go). Each
 * transaction is one atomic step; a statement that fails rolls the step back.
 */
module MemoryStore {
  import opened Ordering
  import opened Replacement
  import opened Wrappers

  const STATUS_SUPERSEDED := "superseded"

  datatype Signal = Useful | Harmful

  /** A row of memory_feedback, by its unique key within an account. */
  datatype SignalRow = SignalRow(memory: MemoryId, session: string, signal: Signal)

  datatype MemoryState = MemoryState(entries: Entries, log: set<SignalRow>)

  // ---------------------------------------------------------------------------------------
  // The transactions.
  // ---------------------------------------------------------------------------------------

  /** The CHECK on memory_entries: a validity window does not end before it starts. */
  predicate WindowHolds(entry: Entry) {
    entry.validTo.None? || entry.validTo.value >= entry.validFrom
  }

  datatype SupersedeOutcome =
    | Replaced
    | AlreadyReplaced
    | NotFound(id: MemoryId)
    | ReplacedByAnother(id: MemoryId)
    | WouldCycle
    | WindowViolated

  function Min(a: int, b: int): int {
    if a <= b then a else b
  }

  /** LEAST(COALESCE(valid_to, at), at) */
  function ClosedAt(validTo: Option<int>, at: int): int {
    match validTo
    case None => at
    case Some(end) => Min(end, at)
  }

  function MarkSuperseded(entry: Entry, replacement: MemoryId, at: int): Entry {
    entry.(supersededBy := Some(replacement), status := STATUS_SUPERSEDED, validTo := Some(ClosedAt(entry.validTo, at)))
  }

  /** The ids in the order their rows are locked. */
  function SortedPair(a: MemoryId, b: MemoryId): (MemoryId, MemoryId) {
    if LessEq(a, b) then (a, b) else (b, a)
  }

  ghost function SupersedeOutcomeOf(
    entries: Entries, superseding: MemoryId, superseded: MemoryId, at: int): SupersedeOutcome
  {
    var pair := SortedPair(superseding, superseded);
    if pair.0 !in entries then NotFound(pair.0)
    else if pair.1 !in entries then NotFound(pair.1)
    else if entries[superseded].supersededBy == Some(superseding) then AlreadyReplaced
    else if entries[superseded].supersededBy.Some? then ReplacedByAnother(entries[superseded].supersededBy.value)
    else if Reaches(entries, superseding, superseded) then WouldCycle
    else if !WindowHolds(MarkSuperseded(entries[superseded], superseding, at)) then WindowViolated
    else Replaced
  }

  ghost function Superseded(entries: Entries, superseding: MemoryId, superseded: MemoryId, at: int): Entries {
    if SupersedeOutcomeOf(entries, superseding, superseded, at).Replaced? && superseded in entries then
      entries[superseded := MarkSuperseded(entries[superseded], superseding, at)]
    else
      entries
  }

  datatype FeedbackOutcome = Recorded(created: bool, entry: Entry) | UnknownMemory

  function CountSignal(entry: Entry, signal: Signal): Entry {
    match signal
    case Useful => entry.(usefulCount := entry.usefulCount + 1)
    case Harmful => entry.(harmfulCount := entry.harmfulCount + 1)
  }

  function WithFeedback(s: MemoryState, row: SignalRow): MemoryState {
    if row.memory !in s.entries || row in s.log then s
    else MemoryState(s.entries[row.memory := CountSignal(s.entries[row.memory], row.signal)], s.log + {row})
  }

  /** What INSERT gives a new row: not superseded, no signals yet. */
  function Inserted(entry: Entry): Entry {
    entry.(supersededBy := None, usefulCount := 0, harmfulCount := 0)
  }

  function WithEntry(s: MemoryState, id: MemoryId, entry: Entry): MemoryState {
    if id in s.entries || !WindowHolds(entry) then s else s.(entries := s.entries[id := Inserted(entry)])
  }

  // ---------------------------------------------------------------------------------------
  // What holds between transactions.
  // ---------------------------------------------------------------------------------------

  function RowsFor(log: set<SignalRow>, id: MemoryId, signal: Signal): set<SignalRow> {
    set row | row in log && row.memory == id && row.signal == signal
  }

  ghost predicate CountsLog(s: MemoryState, id: MemoryId)
    requires id in s.entries
  {
    && s.entries[id].usefulCount == |RowsFor(s.log, id, Useful)|
    && s.entries[id].harmfulCount == |RowsFor(s.log, id, Harmful)|
  }

  /** A replaced entry is marked so and its validity is closed. */
  predicate ClosedWhenReplaced(entry: Entry) {
    entry.supersededBy.Some? ==> entry.validTo.Some? && entry.status == STATUS_SUPERSEDED
  }

  ghost predicate Inv(s: MemoryState) {
    && Forest(s.entries)
    && (forall row | row in s.log :: row.memory in s.entries)
    && (forall id | id in s.entries :: EntryInv(s, id))
  }

  ghost predicate EntryInv(s: MemoryState, id: MemoryId)
    requires id in s.entries
  {
    CountsLog(s, id) && WindowHolds(s.entries[id]) && ClosedWhenReplaced(s.entries[id])
  }

  /** What no later transaction undoes: a replacement, and the end of a replaced entry's validity. */
  ghost predicate Keeps(before: MemoryState, after: MemoryState) {
    && before.log <= after.log
    && forall id | id in before.entries ::
         && id in after.entries
         && (before.entries[id].supersededBy.Some? ==>
               && after.entries[id].supersededBy == before.entries[id].supersededBy
               && after.entries[id].validTo == before.entries[id].validTo)
  }

  datatype Op =
    | Create(id: MemoryId, entry: Entry)
    | Supersede(superseding: MemoryId, superseded: MemoryId, at: int)
    | Feedback(row: SignalRow)

  ghost function Apply(s: MemoryState, op: Op): MemoryState {
    match op
    case Create(id, entry) => WithEntry(s, id, entry)
    case Supersede(superseding, superseded, at) => s.(entries := Superseded(s.entries, superseding, superseded, at))
    case Feedback(row) => WithFeedback(s, row)
  }

  ghost function Run(s: MemoryState, ops: seq<Op>): MemoryState {
    if ops == [] then s else Apply(Run(s, ops[..|ops| - 1]), ops[|ops| - 1])
  }

  lemma NextOfSuperseded(entries: Entries, superseding: MemoryId, superseded: MemoryId, at: int)
    requires SupersedeOutcomeOf(entries, superseding, superseded, at).Replaced?
    ensures superseding in entries && superseded in entries
    ensures Replaces(entries, Superseded(entries, superseding, superseded, at), superseded, superseding)
    ensures Superseded(entries, superseding, superseded, at).Keys == entries.Keys
    ensures !Reaches(entries, superseding, superseded)
  {
  }

  lemma SupersedeKeepsForest(entries: Entries, superseding: MemoryId, superseded: MemoryId, at: int)
    requires Forest(entries)
    ensures Forest(Superseded(entries, superseding, superseded, at))
  {
    if SupersedeOutcomeOf(entries, superseding, superseded, at).Replaced? {
      NextOfSuperseded(entries, superseding, superseded, at);
      CycleCheckIsExact(entries, Superseded(entries, superseding, superseded, at), superseded, superseding);
    }
  }

  lemma {:induction false} SameChains(before: Entries, after: Entries, id: MemoryId, n: nat)
    requires forall id :: Next(before, id) == Next(after, id)
    ensures Nth(before, id, n) == Nth(after, id, n)
  {
    if n > 0 {
      SameChains(before, after, id, n - 1);
    }
  }

  /** Inserting an unreplaced entry, or changing anything but replacements, keeps a forest. */
  lemma SameLinksKeepForest(before: Entries, after: Entries)
    requires Forest(before) && before.Keys <= after.Keys
    requires forall id :: Next(before, id) == Next(after, id)
    ensures Forest(after)
  {
    forall id | id in after ensures ChainEnds(after, id) {
      if id in before {
        assert ChainEnds(before, id);
        var end: nat :| EndsAfter(before, id, end);
        SameChains(before, after, id, end);
        assert EndsAfter(after, id, end);
      } else {
        assert Next(before, id) == None;
        assert EndsAfter(after, id, 0);
      }
    }
    forall id | id in after && after[id].supersededBy.Some? ensures after[id].supersededBy.value in after {
      assert Next(after, id) == after[id].supersededBy && Next(before, id).Some?;
    }
  }

  lemma RowsForNew(log: set<SignalRow>, row: SignalRow, id: MemoryId, signal: Signal)
    requires row !in log
    ensures |RowsFor(log + {row}, id, signal)|
         == |RowsFor(log, id, signal)| + if row.memory == id && row.signal == signal then 1 else 0
  {
    if row.memory == id && row.signal == signal {
      assert RowsFor(log + {row}, id, signal) == RowsFor(log, id, signal) + {row};
    } else {
      assert RowsFor(log + {row}, id, signal) == RowsFor(log, id, signal);
    }
  }

  lemma FeedbackKeepsEntry(s: MemoryState, row: SignalRow, id: MemoryId)
    requires id in s.entries && EntryInv(s, id) && row.memory in s.entries
    ensures EntryInv(WithFeedback(s, row), id)
  {
    if row !in s.log {
      RowsForNew(s.log, row, id, Useful);
      RowsForNew(s.log, row, id, Harmful);
    }
  }

  lemma FeedbackKeepsForest(s: MemoryState, row: SignalRow)
    requires Forest(s.entries)
    ensures Forest(WithFeedback(s, row).entries)
  {
    SameLinksKeepForest(s.entries, WithFeedback(s, row).entries);
  }

  lemma FeedbackKeeps(s: MemoryState, row: SignalRow)
    ensures Keeps(s, WithFeedback(s, row))
  {
  }

  lemma FeedbackKeepsInv(s: MemoryState, row: SignalRow)
    requires Inv(s)
    ensures Inv(WithFeedback(s, row)) && Keeps(s, WithFeedback(s, row))
  {
    FeedbackKeeps(s, row);
    if row.memory in s.entries && row !in s.log {
      FeedbackKeepsForest(s, row);
      forall id | id in s.entries ensures EntryInv(WithFeedback(s, row), id) {
        FeedbackKeepsEntry(s, row, id);
      }
    }
  }

  lemma CreateKeepsInv(s: MemoryState, id: MemoryId, entry: Entry)
    requires Inv(s)
    ensures Inv(WithEntry(s, id, entry)) && Keeps(s, WithEntry(s, id, entry))
  {
    var after := WithEntry(s, id, entry);
    if id !in s.entries && WindowHolds(entry) {
      SameLinksKeepForest(s.entries, after.entries);
      assert RowsFor(s.log, id, Useful) == {} && RowsFor(s.log, id, Harmful) == {};
      forall other | other in after.entries ensures EntryInv(after, other) {
        assert other != id ==> EntryInv(s, other);
      }
    }
  }

  lemma SupersedeKeepsInv(s: MemoryState, superseding: MemoryId, superseded: MemoryId, at: int)
    requires Inv(s)
    ensures var after := s.(entries := Superseded(s.entries, superseding, superseded, at));
            Inv(after) && Keeps(s, after)
  {
    var after := s.(entries := Superseded(s.entries, superseding, superseded, at));
    SupersedeKeepsForest(s.entries, superseding, superseded, at);
    forall id | id in after.entries ensures EntryInv(after, id) {
      assert EntryInv(s, id);
    }
  }

  lemma OpKeepsInv(s: MemoryState, op: Op)
    requires Inv(s)
    ensures Inv(Apply(s, op)) && Keeps(s, Apply(s, op))
  {
    match op
    case Create(id, entry) => CreateKeepsInv(s, id, entry);
    case Supersede(superseding, superseded, at) => SupersedeKeepsInv(s, superseding, superseded, at);
    case Feedback(row) => FeedbackKeepsInv(s, row);
  }

  lemma {:induction false} RunKeepsInv(s: MemoryState, ops: seq<Op>)
    requires Inv(s)
    ensures Inv(Run(s, ops)) && Keeps(s, Run(s, ops))
  {
    if ops != [] {
      RunKeepsInv(s, ops[..|ops| - 1]);
      OpKeepsInv(Run(s, ops[..|ops| - 1]), ops[|ops| - 1]);
    }
  }

  // ---------------------------------------------------------------------------------------
  // Over every sequence of transactions.
  // ---------------------------------------------------------------------------------------

  const EMPTY := MemoryState(map[], {})

  lemma EmptyInv()
    ensures Inv(EMPTY)
  {
  }

  /** Whatever is created, superseded and voted on, in any order: every entry's chain of replacements ends at
      one entry, which exists and is itself current. */
  lemma ReplacementsStayForest(ops: seq<Op>, id: MemoryId)
    requires id in Run(EMPTY, ops).entries
    ensures var entries := Run(EMPTY, ops).entries;
      && Forest(entries) && ChainEnds(entries, id)
      && Current(entries, id) in entries && entries[Current(entries, id)].supersededBy.None?
      && forall n: nat | n > 0 :: Nth(entries, id, n) != Some(id)
  {
    EmptyInv();
    RunKeepsInv(EMPTY, ops);
    var entries := Run(EMPTY, ops).entries;
    assert ChainEnds(entries, id);
    var end: nat :| EndsAfter(entries, id, end);
    CurrentExact(entries, id, end);
    forall n: nat | n > 0 ensures Nth(entries, id, n) != Some(id) {
      NoCycle(entries, id, n);
    }
  }

  /** The counters are the log: for every reachable state and both signals. */
  lemma CountersEqualLog(ops: seq<Op>, id: MemoryId)
    requires id in Run(EMPTY, ops).entries
    ensures var s := Run(EMPTY, ops);
      && s.entries[id].usefulCount == |RowsFor(s.log, id, Useful)|
      && s.entries[id].harmfulCount == |RowsFor(s.log, id, Harmful)|
  {
    EmptyInv();
    RunKeepsInv(EMPTY, ops);
    assert EntryInv(Run(EMPTY, ops), id);
  }

  /** When a supersede takes effect. An entry whose validity starts after the call cannot be superseded:
      closing its window at the call time would violate the table's constraint. */
  lemma SupersedesExactlyWhen(s: MemoryState, superseding: MemoryId, superseded: MemoryId, at: int)
    requires Inv(s)
    ensures SupersedeOutcomeOf(s.entries, superseding, superseded, at).Replaced? <==>
      && superseding in s.entries && superseded in s.entries
      && s.entries[superseded].supersededBy.None?
      && !Reaches(s.entries, superseding, superseded)
      && s.entries[superseded].validFrom <= at
  {
    if superseded in s.entries {
      assert EntryInv(s, superseded);
    }
  }

  /** Why a supersede is refused: the first condition that fails, a missing entry first; of two missing entries the one
      whose row would be locked first is named. */
  lemma SupersedeRefusedExactly(s: MemoryState, superseding: MemoryId, superseded: MemoryId, at: int)
    requires Inv(s)
    ensures var outcome := SupersedeOutcomeOf(s.entries, superseding, superseded, at);
      if superseding !in s.entries || superseded !in s.entries then
        && outcome.NotFound? && outcome.id !in s.entries && (outcome.id == superseding || outcome.id == superseded)
        && (superseding !in s.entries && superseded !in s.entries && superseding != superseded ==>
              Less(outcome.id, if outcome.id == superseding then superseded else superseding))
      else match s.entries[superseded].supersededBy
        case Some(other) => outcome == if other == superseding then AlreadyReplaced else ReplacedByAnother(other)
        case None =>
          outcome == if Reaches(s.entries, superseding, superseded) then WouldCycle
                     else if s.entries[superseded].validFrom > at then WindowViolated else Replaced
  {
    LessExact(superseding, superseded);
    if superseding in s.entries && superseded in s.entries {
      SupersedesExactlyWhen(s, superseding, superseded, at);
    }
  }

  /** What a supersede writes: the replaced entry points at its replacement, is marked and its validity ends now or
      earlier; nothing else of it changes, nor does any other entry. */
  lemma SupersededRowExactly(s: MemoryState, superseding: MemoryId, superseded: MemoryId, at: int)
    requires Inv(s) && SupersedeOutcomeOf(s.entries, superseding, superseded, at).Replaced?
    ensures superseded in s.entries
    ensures var before := s.entries[superseded];
      Superseded(s.entries, superseding, superseded, at) == s.entries[superseded := Entry(
        "superseded", before.scopeType, before.scopeKey, before.memoryType, before.validFrom,
        Some(if before.validTo.Some? && before.validTo.value <= at then before.validTo.value else at),
        before.ttlAt, Some(superseding), before.usefulCount, before.harmfulCount)]
  {
  }

  /** Where every entry's chain ends after a supersede: the replaced tree hangs under the replacement's. */
  lemma SupersedeMovesCurrent(s: MemoryState, superseding: MemoryId, superseded: MemoryId, at: int, id: MemoryId)
    requires Inv(s) && id in s.entries
    requires SupersedeOutcomeOf(s.entries, superseding, superseded, at).Replaced?
    ensures superseding in s.entries
    ensures var after := Superseded(s.entries, superseding, superseded, at);
      && ChainEnds(s.entries, id) && ChainEnds(s.entries, superseding) && ChainEnds(after, id)
      && Current(after, id) == if Current(s.entries, id) == superseded
                               then Current(s.entries, superseding) else Current(s.entries, id)
  {
    NextOfSuperseded(s.entries, superseding, superseded, at);
    assert ChainEnds(s.entries, id) && ChainEnds(s.entries, superseding);
    ReplacementMovesCurrent(s.entries, Superseded(s.entries, superseding, superseded, at), superseded, superseding, id);
  }

  /** Two supersedes of disjoint pairs that both did their checks before either wrote: the row locks do not
      exclude this, and it closes a cycle exactly when each replacement's chain ends at the entry the other
      call replaces. The guarantees above are about transactions that take effect one at a time. */
  lemma OverlappingSupersedesExact(entries: Entries, x: MemoryId, y: MemoryId, w: MemoryId, z: MemoryId, at: int)
    requires Forest(entries) && y != z
    requires SupersedeOutcomeOf(entries, x, y, at).Replaced? && SupersedeOutcomeOf(entries, w, z, at).Replaced?
    ensures x in entries && w in entries && y in entries && z in entries
    ensures ChainEnds(entries, x) && ChainEnds(entries, w)
    ensures Forest(entries[y := MarkSuperseded(entries[y], x, at)][z := MarkSuperseded(entries[z], w, at)])
       <==> !(Current(entries, x) == z && Current(entries, w) == y)
  {
    NextOfSuperseded(entries, x, y, at);
    NextOfSuperseded(entries, w, z, at);
    var first := Superseded(entries, x, y, at);
    assert ChainEnds(entries, x) && ChainEnds(entries, w);
    SupersedeKeepsForest(entries, x, y, at);
    ReplacementMovesCurrent(entries, first, y, x, w);
    ReachesCurrent(entries, w, z);
    ReachesCurrent(first, w, z);
    CycleCheckIsExact(first, first[z := MarkSuperseded(first[z], w, at)], z, w);
  }

  /** What a supersede that took effect leaves, in every later state. */
  lemma StaysReplaced(s: MemoryState, superseding: MemoryId, superseded: MemoryId, at: int, ops: seq<Op>)
    requires Inv(s) && SupersedeOutcomeOf(s.entries, superseding, superseded, at).Replaced?
    ensures superseded in s.entries
    ensures var s' := Run(Apply(s, Supersede(superseding, superseded, at)), ops);
      && superseding in s'.entries && superseded in s'.entries
      && s'.entries[superseded].supersededBy == Some(superseding)
      && s'.entries[superseded].validTo == Some(ClosedAt(s.entries[superseded].validTo, at))
  {
    var s1 := Apply(s, Supersede(superseding, superseded, at));
    OpKeepsInv(s, Supersede(superseding, superseded, at));
    RunKeepsInv(s1, ops);
    assert s1.entries[superseded] == MarkSuperseded(s.entries[superseded], superseding, at);
    assert superseding in s1.entries;
  }

  /** A supersede repeated, after anything and at any time, changes nothing; another replacement is refused. */
  lemma ReplayChangesNothing(s: MemoryState, superseding: MemoryId, superseded: MemoryId, at: int,
      ops: seq<Op>, other: MemoryId, later: int)
    requires Inv(s) && SupersedeOutcomeOf(s.entries, superseding, superseded, at).Replaced?
    ensures var entries := Run(Apply(s, Supersede(superseding, superseded, at)), ops).entries;
      && SupersedeOutcomeOf(entries, superseding, superseded, later) == AlreadyReplaced
      && Superseded(entries, superseding, superseded, later) == entries
      && (other != superseding && other in entries ==>
            SupersedeOutcomeOf(entries, other, superseded, later) == ReplacedByAnother(superseding)
            && Superseded(entries, other, superseded, later) == entries)
  {
    StaysReplaced(s, superseding, superseded, at, ops);
  }

  /** A signal sent twice in a session counts once, whatever happens in between. */
  lemma FeedbackCountsOnce(s: MemoryState, row: SignalRow, ops: seq<Op>)
    requires Inv(s) && row.memory in s.entries
    ensures WithFeedback(Run(WithFeedback(s, row), ops), row) == Run(WithFeedback(s, row), ops)
  {
    FeedbackKeepsInv(s, row);
    RunKeepsInv(WithFeedback(s, row), ops);
  }

  // ---------------------------------------------------------------------------------------
  // Search.
  // ---------------------------------------------------------------------------------------

  datatype SearchRequest = SearchRequest(status: string, scopeType: string, scopeKey: string, memoryType: string)

  predicate IsValidAt(entry: Entry, now: int) {
    entry.validFrom <= now && (entry.validTo.None? || now < entry.validTo.value)
  }

  predicate EntryMatchesSearch(entry: Entry, req: SearchRequest, now: int) {
    && entry.status == req.status
    && (req.scopeType == "" || entry.scopeType == req.scopeType)
    && (req.scopeKey == "" || entry.scopeKey == req.scopeKey)
    && (req.memoryType == "" || entry.memoryType == req.memoryType)
    && IsValidAt(entry, now)
    && (entry.ttlAt.None? || now < entry.ttlAt.value)
  }

  /** Superseded at `at`, an entry matches no search from then on, whatever the request and whatever was done
      since; and the supersede made it valid at no time it was not valid before. */
  lemma SupersededIsNeverFound(s: MemoryState, superseding: MemoryId, superseded: MemoryId, at: int,
      ops: seq<Op>, req: SearchRequest, now: int)
    requires Inv(s) && SupersedeOutcomeOf(s.entries, superseding, superseded, at).Replaced?
    ensures var s' := Run(Apply(s, Supersede(superseding, superseded, at)), ops);
      && superseded in s'.entries && superseded in s.entries
      && (now >= at ==> !EntryMatchesSearch(s'.entries[superseded], req, now))
      && (EntryMatchesSearch(MarkSuperseded(s.entries[superseded], superseding, at), req, now) ==>
            IsValidAt(s.entries[superseded], now))
  {
    StaysReplaced(s, superseding, superseded, at, ops);
    assert ClosedAt(s.entries[superseded].validTo, at) <= at;
  }

  // ---------------------------------------------------------------------------------------
  // The repository.
  // ---------------------------------------------------------------------------------------

  ghost predicate ReachesWithin(entries: Entries, from: MemoryId, to: MemoryId, n: nat) {
    exists k: nat :: k < n && Nth(entries, from, k) == Some(to)
  }

  lemma WalkStep(entries: Entries, from: MemoryId, to: MemoryId, end: nat, n: nat, row: MemoryId)
    requires ReferencesHold(entries) && from in entries
    requires EndsAfter(entries, from, end) && Nth(entries, from, n) == Some(row)
    ensures n <= end && row in entries
    ensures Nth(entries, from, n + 1) == entries[row].supersededBy
    ensures ReachesWithin(entries, from, to, n + 1) <==> ReachesWithin(entries, from, to, n) || row == to
  {
    ChainUpToEnd(entries, from, end, n);
    NthIsEntry(entries, from, n);
    if k: nat :| k < n + 1 && Nth(entries, from, k) == Some(to) {
      assert k == n || ReachesWithin(entries, from, to, n);
    }
    if row == to {
      assert n < n + 1 && Nth(entries, from, n) == Some(to);
    }
    if k: nat :| k < n && Nth(entries, from, k) == Some(to) {
      assert k < n + 1;
    }
  }

  lemma WholeChainWalked(entries: Entries, from: MemoryId, to: MemoryId, end: nat, n: nat)
    requires EndsAfter(entries, from, end) && Nth(entries, from, n).None?
    ensures ReachesWithin(entries, from, to, n) <==> Reaches(entries, from, to)
  {
    ChainUpToEnd(entries, from, end, n);
    forall k: nat | Nth(entries, from, k) == Some(to) ensures k < n {
      ChainUpToEnd(entries, from, end, k);
    }
  }

  class Repo {
    var entries: Entries
    var log: set<SignalRow>

    ghost function State(): MemoryState
      reads this
    {
      MemoryState(entries, log)
    }

    constructor ()
      ensures State() == EMPTY && Inv(State())
    {
      entries := map[];
      log := {};
    }

    method CreateEntry(id: MemoryId, entry: Entry) returns (created: bool)
      requires Inv(State())
      modifies this
      ensures Inv(State())
      ensures State() == old(Apply(State(), Create(id, entry)))
      ensures created <==> id !in old(entries) && (entry.validTo.Some? ==> entry.validFrom <= entry.validTo.value)
      ensures created ==>
        entries == old(entries)[id := entry.(supersededBy := None, usefulCount := 0, harmfulCount := 0)]
      ensures log == old(log) && (!created ==> entries == old(entries))
    {
      CreateKeepsInv(State(), id, entry);
      created := id !in entries && WindowHolds(entry);
      if created {
        entries := entries[id := Inserted(entry)];
      }
    }

    /** The recursive walk up the replacement chain: it terminates, and finds the target exactly when it is there. */
    method ChainHolds(start: MemoryId, target: MemoryId) returns (found: bool)
      requires Forest(entries) && start in entries
      ensures found <==> Reaches(entries, start, target)
    {
      assert ChainEnds(entries, start);
      ghost var end: nat :| EndsAfter(entries, start, end);
      ghost var n: nat := 0;
      var row := Some(start);
      found := false;
      while row.Some?
        invariant row == Nth(entries, start, n)
        invariant found <==> ReachesWithin(entries, start, target, n)
        decreases end + 1 - n
      {
        WalkStep(entries, start, target, end, n, row.value);
        found := found || row.value == target;
        row := entries[row.value].supersededBy;
        n := n + 1;
      }
      WholeChainWalked(entries, start, target, end, n);
    }

    method SupersedeEntry(superseding: MemoryId, superseded: MemoryId, at: int) returns (outcome: SupersedeOutcome)
      requires Inv(State())
      modifies this
      ensures Inv(State())
      ensures outcome == SupersedeOutcomeOf(old(entries), superseding, superseded, at)
      ensures State() == old(Apply(State(), Supersede(superseding, superseded, at)))
    {
      SupersedeKeepsInv(State(), superseding, superseded, at);
      var (first, second) := SortedPair(superseding, superseded);
      if first !in entries {
        return NotFound(first);
      }
      if second !in entries {
        return NotFound(second);
      }
      var entry := entries[superseded];
      if entry.supersededBy.Some? {
        if entry.supersededBy.value == superseding {
          return AlreadyReplaced;
        }
        return ReplacedByAnother(entry.supersededBy.value);
      }
      var cycle := ChainHolds(superseding, superseded);
      if cycle {
        return WouldCycle;
      }
      var updated := MarkSuperseded(entry, superseding, at);
      if !WindowHolds(updated) {
        return WindowViolated;
      }
      entries := entries[superseded := updated];
      return Replaced;
    }

    method RecordFeedback(row: SignalRow) returns (outcome: FeedbackOutcome)
      requires Inv(State())
      modifies this
      ensures Inv(State())
      ensures State() == old(Apply(State(), Feedback(row)))
      ensures outcome == if row.memory !in entries then UnknownMemory
                         else Recorded(row !in old(log), entries[row.memory])
    {
      FeedbackKeepsInv(State(), row);
      if row.memory !in entries {
        return UnknownMemory;
      }
      if row in log {
        return Recorded(false, entries[row.memory]);
      }
      log := log + {row};
      entries := entries[row.memory := CountSignal(entries[row.memory], row.signal)];
      return Recorded(true, entries[row.memory]);
    }
  }
}
