/**
 * The replacement graph of durable memories (internal/memory/repo.go): each entry may be
 * superseded by one other. The graph is a forest when every chain of replacements ends.
 */
module Replacement {
  import opened Wrappers

  type MemoryId = string

  datatype Entry = Entry(
    status: string, scopeType: string, scopeKey: string, memoryType: string,
    validFrom: int, validTo: Option<int>, ttlAt: Option<int>,
    supersededBy: Option<MemoryId>, usefulCount: nat, harmfulCount: nat)

  type Entries = map<MemoryId, Entry>

  function Next(entries: Entries, id: MemoryId): Option<MemoryId> {
    if id in entries then entries[id].supersededBy else None
  }

  /** What replaced what replaced ... the entry, `n` replacements on. */
  function Nth(entries: Entries, id: MemoryId, n: nat): Option<MemoryId> {
    if n == 0 then Some(id) else
      match Nth(entries, id, n - 1)
      case None => None
      case Some(previous) => Next(entries, previous)
  }

  predicate EndsAfter(entries: Entries, id: MemoryId, n: nat) {
    Nth(entries, id, n).Some? && Next(entries, Nth(entries, id, n).value).None?
  }

  ghost predicate Reaches(entries: Entries, from: MemoryId, to: MemoryId) {
    exists n: nat :: Nth(entries, from, n) == Some(to)
  }

  ghost predicate ReferencesHold(entries: Entries) {
    forall id | id in entries && entries[id].supersededBy.Some? :: entries[id].supersededBy.value in entries
  }

  ghost predicate ChainEnds(entries: Entries, id: MemoryId) {
    exists n: nat :: EndsAfter(entries, id, n)
  }

  ghost predicate Forest(entries: Entries) {
    ReferencesHold(entries) && forall id | id in entries :: ChainEnds(entries, id)
  }

  // ---------------------------------------------------------------------------------------
  // Chains.
  // ---------------------------------------------------------------------------------------

  lemma {:induction false} NthAdd(entries: Entries, id: MemoryId, a: nat, b: nat)
    requires Nth(entries, id, a).Some?
    ensures Nth(entries, id, a + b) == Nth(entries, Nth(entries, id, a).value, b)
    decreases b
  {
    if b > 0 {
      NthAdd(entries, id, a, b - 1);
      assert a + b - 1 == a + (b - 1);
    }
  }

  lemma {:induction false} NthIsEntry(entries: Entries, id: MemoryId, n: nat)
    requires ReferencesHold(entries) && id in entries && Nth(entries, id, n).Some?
    ensures Nth(entries, id, n).value in entries
  {
    if n > 0 {
      NthIsEntry(entries, id, n - 1);
    }
  }

  /** Before its end a chain goes on; after its end there is nothing. */
  lemma {:induction false} ChainUpToEnd(entries: Entries, id: MemoryId, end: nat, n: nat)
    requires EndsAfter(entries, id, end)
    ensures n <= end <==> Nth(entries, id, n).Some?
    decreases if n <= end then end - n else n - end
  {
    if n < end {
      ChainUpToEnd(entries, id, end, n + 1);
    } else if n > end {
      if n - 1 > end {
        ChainUpToEnd(entries, id, end, n - 1);
      }
    }
  }

  lemma EndIsUnique(entries: Entries, id: MemoryId, a: nat, b: nat)
    requires EndsAfter(entries, id, a) && EndsAfter(entries, id, b)
    ensures a == b
  {
    ChainUpToEnd(entries, id, a, b);
    ChainUpToEnd(entries, id, b, a);
  }

  lemma LoopShortensChain(entries: Entries, id: MemoryId, n: nat, end: nat)
    requires n <= end && EndsAfter(entries, id, end) && Nth(entries, id, n) == Some(id)
    ensures EndsAfter(entries, id, end - n)
  {
    NthAdd(entries, id, n, end - n);
    assert n + (end - n) == end;
  }

  /** In a forest no entry is, through any number of replacements, replaced by itself. */
  lemma NoCycle(entries: Entries, id: MemoryId, n: nat)
    requires ChainEnds(entries, id) && n > 0
    ensures Nth(entries, id, n) != Some(id)
  {
    var end: nat :| EndsAfter(entries, id, end);
    if Nth(entries, id, n) == Some(id) {
      ChainUpToEnd(entries, id, end, n);
      LoopShortensChain(entries, id, n, end);
      EndIsUnique(entries, id, end, end - n);
    }
  }

  /** The entry that is current for `id`: the end of its chain. */
  ghost function Current(entries: Entries, id: MemoryId): MemoryId
    requires ChainEnds(entries, id)
  {
    var end: nat :| EndsAfter(entries, id, end);
    Nth(entries, id, end).value
  }

  /** There is one current entry for each, it exists, and nothing has replaced it. */
  lemma CurrentExact(entries: Entries, id: MemoryId, end: nat)
    requires Forest(entries) && id in entries
    requires EndsAfter(entries, id, end)
    ensures Current(entries, id) == Nth(entries, id, end).value
    ensures Current(entries, id) in entries && entries[Current(entries, id)].supersededBy.None?
  {
    CurrentUnique(entries, id, end);
    NthIsEntry(entries, id, end);
  }

  lemma CurrentUnique(entries: Entries, id: MemoryId, end: nat)
    requires EndsAfter(entries, id, end)
    ensures Current(entries, id) == Nth(entries, id, end).value
  {
    forall other: nat | EndsAfter(entries, id, other) ensures other == end {
      EndIsUnique(entries, id, other, end);
    }
  }

  // ---------------------------------------------------------------------------------------
  // One more replacement.
  // ---------------------------------------------------------------------------------------

  /** `after` differs from `before` in that `old` is now replaced by `new'`. */
  ghost predicate Replaces(before: Entries, after: Entries, old': MemoryId, new': MemoryId) {
    && old' in before && new' in before
    && before[old'].supersededBy.None?
    && forall id :: Next(after, id) == if id == old' then Some(new') else Next(before, id)
  }

  lemma {:induction false} SameUntil(
    before: Entries, after: Entries, old': MemoryId, new': MemoryId, id: MemoryId, n: nat)
    requires Replaces(before, after, old', new')
    requires forall k: nat | k < n :: Nth(before, id, k) != Some(old')
    ensures Nth(after, id, n) == Nth(before, id, n)
  {
    if n > 0 {
      SameUntil(before, after, old', new', id, n - 1);
    }
  }

  /** The replaced entry was the end of every chain it was on. */
  lemma OldIsEnd(before: Entries, old': MemoryId, id: MemoryId, end: nat, k: nat)
    requires old' in before && before[old'].supersededBy.None?
    requires EndsAfter(before, id, end) && Nth(before, id, k) == Some(old')
    ensures k == end
  {
    assert EndsAfter(before, id, k);
    EndIsUnique(before, id, end, k);
  }

  /** Chains that ended elsewhere are untouched. */
  lemma ChainElsewhere(before: Entries, after: Entries, old': MemoryId, new': MemoryId, id: MemoryId, end: nat)
    requires Replaces(before, after, old', new')
    requires EndsAfter(before, id, end) && Nth(before, id, end) != Some(old')
    ensures EndsAfter(after, id, end) && Nth(after, id, end) == Nth(before, id, end)
  {
    forall k: nat | k < end ensures Nth(before, id, k) != Some(old') {
      if Nth(before, id, k) == Some(old') {
        OldIsEnd(before, old', id, end, k);
      }
    }
    SameUntil(before, after, old', new', id, end);
  }

  /** Chains that ended at the replaced entry go on to where the replacement's chain ends. */
  lemma ChainThroughOld(
    before: Entries, after: Entries, old': MemoryId, new': MemoryId, id: MemoryId, end: nat, rest: nat)
    requires Replaces(before, after, old', new')
    requires EndsAfter(before, id, end) && Nth(before, id, end) == Some(old')
    requires EndsAfter(before, new', rest) && Nth(before, new', rest) != Some(old')
    ensures EndsAfter(after, id, end + 1 + rest) && Nth(after, id, end + 1 + rest) == Nth(before, new', rest)
  {
    forall k: nat | k < end ensures Nth(before, id, k) != Some(old') {
      if Nth(before, id, k) == Some(old') {
        OldIsEnd(before, old', id, end, k);
      }
    }
    SameUntil(before, after, old', new', id, end);
    ChainElsewhere(before, after, old', new', new', rest);
    assert Nth(after, id, end + 1) == Some(new');
    NthAdd(after, id, end + 1, rest);
  }

  /** Where each chain ends after a replacement: the replaced entry's tree hangs under the replacement's. */
  lemma ReplacementMovesCurrent(before: Entries, after: Entries, old': MemoryId, new': MemoryId, id: MemoryId)
    requires Replaces(before, after, old', new') && ReferencesHold(before)
    requires ChainEnds(before, id) && ChainEnds(before, new')
    requires !Reaches(before, new', old')
    ensures ChainEnds(after, id)
    ensures Current(after, id) ==
            if Current(before, id) == old' then Current(before, new') else Current(before, id)
  {
    var end: nat :| EndsAfter(before, id, end);
    CurrentUnique(before, id, end);
    var rest: nat :| EndsAfter(before, new', rest);
    CurrentUnique(before, new', rest);
    if Nth(before, id, end) == Some(old') {
      ChainThroughOld(before, after, old', new', id, end, rest);
      CurrentUnique(after, id, end + 1 + rest);
    } else {
      ChainElsewhere(before, after, old', new', id, end);
      CurrentUnique(after, id, end);
    }
  }

  /** The cycle check is exact: replacing keeps a forest if and only if the replacement does not lead back. */
  lemma CycleCheckIsExact(before: Entries, after: Entries, old': MemoryId, new': MemoryId)
    requires Forest(before) && Replaces(before, after, old', new') && after.Keys == before.Keys
    ensures Forest(after) <==> !Reaches(before, new', old')
  {
    if Reaches(before, new', old') {
      var n: nat :| Nth(before, new', n) == Some(old');
      assert ChainEnds(before, new');
      var end: nat :| EndsAfter(before, new', end);
      OldIsEnd(before, old', new', end, n);
      ReplacementClosesLoop(before, after, old', new', n);
    } else {
      forall id | id in after ensures ChainEnds(after, id) {
        assert ChainEnds(before, id) && ChainEnds(before, new');
        ReplacementMovesCurrent(before, after, old', new', id);
      }
      forall id | id in after && after[id].supersededBy.Some? ensures after[id].supersededBy.value in after {
        assert Next(after, id) == after[id].supersededBy;
        assert id in before && Next(before, id) == before[id].supersededBy;
      }
    }
  }

  lemma ReplacementClosesLoop(before: Entries, after: Entries, old': MemoryId, new': MemoryId, end: nat)
    requires Replaces(before, after, old', new') && new' in after
    requires EndsAfter(before, new', end) && Nth(before, new', end) == Some(old')
    ensures !Forest(after)
  {
    forall k: nat | k < end ensures Nth(before, new', k) != Some(old') {
      if Nth(before, new', k) == Some(old') {
        OldIsEnd(before, old', new', end, k);
      }
    }
    SameUntil(before, after, old', new', new', end);
    assert Nth(after, new', end + 1) == Some(new');
    if Forest(after) {
      NoCycle(after, new', end + 1);
    }
  }

  /** A current entry is reached by exactly the chains that end at it. */
  lemma ReachesCurrent(entries: Entries, id: MemoryId, root: MemoryId)
    requires ChainEnds(entries, id) && root in entries && entries[root].supersededBy.None?
    ensures Reaches(entries, id, root) <==> Current(entries, id) == root
  {
    var end: nat :| EndsAfter(entries, id, end);
    CurrentUnique(entries, id, end);
    if n: nat :| Nth(entries, id, n) == Some(root) {
      OldIsEnd(entries, root, id, end, n);
    }
  }
}
