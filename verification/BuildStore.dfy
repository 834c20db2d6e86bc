/** The build table as a leased queue (internal/knowledge/wiki_repo.go:140-658).

    Each repository method is one database transaction, so each is one step on the tables.
    Times are whole seconds; `""` is the absent lease owner, as in the schema. */
module BuildStore {
  import opened Assembly
  import opened Check
  import opened Incremental
  import opened IncrementalBuild
  import opened Wiki
  import opened Wrappers

  datatype Status = Queued | Running | Succeeded | Failed | Cancelled

  datatype CheckStatus = CheckPending | CheckPassed | CheckFailed

  datatype Mode = Full | Incremental

  datatype Build = Build(
    source: string, revision: string, identity: Identity, parent: Option<BuildId>, mode: Mode,
    status: Status, checkStatus: CheckStatus,
    leaseOwner: string, leaseExpires: Option<int>, attempt: int, maxAttempts: int,
    nextAttemptAt: int, queuedAt: int, activateOnSuccess: bool, pagesWritten: nat, pagesReused: nat)
  {
    predicate IsTerminal() { status == Succeeded || status == Failed || status == Cancelled }
  }

  datatype Revision = Revision(source: string, files: StoredDocuments)
  {
    /** What the queries for the compiler select. */
    function Docs(): Documents { Indexable(files) }
  }

  /** The tables. A build's identifier is its position in creation order. */
  datatype Db = Db(
    now: int, builds: map<BuildId, Build>, pages: map<BuildId, seq<WikiPage>>,
    active: map<string, BuildId>, activeRevision: map<string, string>,
    revisions: map<string, Revision>, profiles: map<string, Profile>, nextId: BuildId)

  // ---------------------------------------------------------------------------------------
  // One function per transaction.
  // ---------------------------------------------------------------------------------------

  datatype NewBuild = NewBuild(
    source: string, revision: string, identity: Identity, parent: Option<BuildId>, mode: Mode,
    maxAttempts: int, activateOnSuccess: bool)

  function CreateBuild(db: Db, input: NewBuild): Db {
    var maxAttempts := if input.maxAttempts <= 0 then 3 else input.maxAttempts;
    var build := Build(
      input.source, input.revision, input.identity, input.parent, input.mode, Queued, CheckPending,
      "", None, 0, maxAttempts, db.now, db.now, input.activateOnSuccess, 0, 0);
    db.(builds := db.builds[db.nextId := build], nextId := db.nextId + 1)
  }

  predicate Eligible(db: Db, b: BuildId) {
    && b in db.builds
    && (db.builds[b].status == Queued || db.builds[b].status == Running)
    && db.builds[b].nextAttemptAt <= db.now
    && (db.builds[b].leaseExpires.None? || db.builds[b].leaseExpires.value <= db.now)
  }

  /** Waiting or abandoned, and its time has come: no lease on the row is alive. */
  predicate IsDue(row: Build, now: int) {
    && (row.status == Queued || row.status == Running) && row.nextAttemptAt <= now
    && (row.leaseExpires.Some? ==> row.leaseExpires.value <= now)
  }

  /** The chosen row: retired if its attempts are spent, otherwise leased and cleared of pages. */
  function Claim(db: Db, b: BuildId, owner: string, leaseFor: int): Db
    requires b in db.builds
  {
    var row := db.builds[b];
    if row.attempt >= row.maxAttempts then
      db.(builds := db.builds[b := row.(status := Failed, leaseOwner := "", leaseExpires := None)])
    else
      db.(builds := db.builds[b := row.(status := Running, attempt := row.attempt + 1,
                                        leaseOwner := owner, leaseExpires := Some(db.now + leaseFor))],
          pages := db.pages - {b})
  }

  predicate HoldsLease(db: Db, b: BuildId, owner: string) {
    b in db.builds && db.builds[b].leaseOwner == owner
  }

  predicate HeldByAnyone(row: Build) {
    row.leaseOwner != "" || row.leaseExpires.Some?
  }

  predicate HoldsRunningLease(db: Db, b: BuildId, owner: string) {
    HoldsLease(db, b, owner) && db.builds[b].status == Running
  }

  function Heartbeat(db: Db, b: BuildId, owner: string, leaseFor: int): Db {
    if !HoldsRunningLease(db, b, owner) then db
    else db.(builds := db.builds[b := db.builds[b].(leaseExpires := Some(db.now + leaseFor))])
  }

  function Requeue(db: Db, b: BuildId, owner: string, retryIn: int): Db {
    if !HoldsLease(db, b, owner) then db
    else db.(builds := db.builds[b := db.builds[b].(status := Queued, leaseOwner := "", leaseExpires := None,
                                                    nextAttemptAt := db.now + retryIn)])
  }

  function Yield(db: Db, b: BuildId, owner: string): Db {
    if !HoldsRunningLease(db, b, owner) then db
    else
      var row := db.builds[b];
      db.(builds := db.builds[b := row.(status := Queued, leaseOwner := "", leaseExpires := None,
                                        attempt := if row.attempt - 1 > 0 then row.attempt - 1 else 0,
                                        nextAttemptAt := db.now)])
  }

  datatype CommitResult = Committed | LeaseLost | InsertFailed

  /** Inserts fail on a constraint: an unstorable page, or a path the build already has. */
  ghost predicate Insertable(db: Db, b: BuildId, pages: seq<WikiPage>) {
    && b in db.builds
    && DistinctPaths(pages)
    && (forall p | p in pages :: Storable(p))
    && (b in db.pages ==> PathsOf(pages) !! PathsOf(db.pages[b]))
  }

  ghost function CommitOutcome(db: Db, b: BuildId, owner: string, pages: seq<WikiPage>): CommitResult {
    if !Insertable(db, b, pages) then InsertFailed
    else if !HoldsLease(db, b, owner) then LeaseLost
    else Committed
  }

  /** Pages and terminal status land together or not at all. */
  ghost function Commit(db: Db, b: BuildId, owner: string, pages: seq<WikiPage>, reusedCount: nat): Db {
    if CommitOutcome(db, b, owner, pages) != Committed then db
    else
      var existing := if b in db.pages then db.pages[b] else [];
      db.(builds := db.builds[b := db.builds[b].(status := Succeeded, checkStatus := CheckPassed,
                                                 pagesWritten := |pages|, pagesReused := reusedCount,
                                                 leaseOwner := "", leaseExpires := None)],
          pages := db.pages[b := existing + StorePages(b, pages)])
  }

  /** No lease guard: whoever calls it writes the row. */
  function Finish(db: Db, b: BuildId, status: Status, checkStatus: CheckStatus): Db {
    if b !in db.builds then db
    else db.(builds := db.builds[b := db.builds[b].(status := status, checkStatus := checkStatus,
                                                    leaseOwner := "", leaseExpires := None)])
  }

  predicate Activatable(db: Db, b: BuildId) {
    b in db.builds && db.builds[b].status == Succeeded && db.builds[b].checkStatus == CheckPassed
  }

  function Activate(db: Db, b: BuildId): Db {
    if !Activatable(db, b) then db
    else db.(active := db.active[db.builds[b].source := b])
  }

  // ---------------------------------------------------------------------------------------
  // Queue order.
  // ---------------------------------------------------------------------------------------

  predicate ClaimsBefore(db: Db, a: BuildId, b: BuildId)
    requires a in db.builds && b in db.builds
  {
    || db.builds[a].nextAttemptAt < db.builds[b].nextAttemptAt
    || (db.builds[a].nextAttemptAt == db.builds[b].nextAttemptAt && db.builds[a].queuedAt <= db.builds[b].queuedAt)
  }

  /** First in queue order among the eligible rows no other transaction has locked. */
  ghost predicate IsNextClaim(db: Db, locked: set<BuildId>, b: BuildId) {
    && Eligible(db, b) && b !in locked
    && forall c | c in db.builds && Eligible(db, c) && c !in locked :: ClaimsBefore(db, b, c)
  }

  /** At most the row of one build differs, and no row came or went. */
  ghost predicate ChangesOnlyRow(before: Db, after: Db, b: BuildId) {
    && after == before.(builds := after.builds)
    && after.builds.Keys == before.builds.Keys
    && forall c | c in before.builds && c != b :: after.builds[c] == before.builds[c]
  }

  /** The repository: the tables as fields, one method per transaction. */
  class Repo {
    var now: int
    var builds: map<BuildId, Build>
    var pages: map<BuildId, seq<WikiPage>>
    var active: map<string, BuildId>
    var activeRevision: map<string, string>
    var revisions: map<string, Revision>
    var profiles: map<string, Profile>
    var nextId: BuildId

    ghost function Snapshot(): Db
      reads this
    {
      Db(now, builds, pages, active, activeRevision, revisions, profiles, nextId)
    }

    constructor (profiles: map<string, Profile>)
      ensures Snapshot() == Db(0, map[], map[], map[], map[], map[], profiles, 0)
    {
      now, builds, pages, active := 0, map[], map[], map[];
      activeRevision, revisions, nextId := map[], map[], 0;
      this.profiles := profiles;
    }

    method Create(input: NewBuild) returns (b: BuildId)
      modifies this
      ensures b == old(nextId)
      ensures Snapshot() == CreateBuild(old(Snapshot()), input)
      ensures builds[b].status == Queued && builds[b].attempt == 0 && !HeldByAnyone(builds[b])
      ensures builds[b].queuedAt == builds[b].nextAttemptAt == now
      ensures builds[b].maxAttempts == if input.maxAttempts > 0 then input.maxAttempts else 3
    {
      var maxAttempts := input.maxAttempts;
      if maxAttempts <= 0 {
        maxAttempts := 3;
      }
      b := nextId;
      builds := builds[b := Build(
        input.source, input.revision, input.identity, input.parent, input.mode, Queued, CheckPending,
        "", None, 0, maxAttempts, now, now, input.activateOnSuccess, 0, 0)];
      nextId := nextId + 1;
    }

    method FindNextClaim(locked: set<BuildId>) returns (found: Option<BuildId>)
      ensures found.Some? ==> IsNextClaim(Snapshot(), locked, found.value)
      ensures found.None? ==> forall c | c in builds && Eligible(Snapshot(), c) :: c in locked
      ensures found.Some? ==>
        var row := builds[found.value];
        && (row.status == Queued || row.status == Running) && row.nextAttemptAt <= now
        && (row.leaseExpires.Some? ==> row.leaseExpires.value <= now) && found.value !in locked
      ensures forall c | c in builds && c !in locked && IsDue(builds[c], now) ::
        && found.Some?
        && (builds[found.value].nextAttemptAt == builds[c].nextAttemptAt ==>
              builds[found.value].queuedAt <= builds[c].queuedAt)
        && builds[found.value].nextAttemptAt <= builds[c].nextAttemptAt
    {
      found := None;
      var remaining := builds.Keys;
      while remaining != {}
        invariant remaining <= builds.Keys
        invariant found.Some? ==> Eligible(Snapshot(), found.value) && found.value !in locked
        invariant forall c | c in builds.Keys - remaining && Eligible(Snapshot(), c) && c !in locked ::
          found.Some? && ClaimsBefore(Snapshot(), found.value, c)
        decreases remaining
      {
        var b :| b in remaining;
        var row := builds[b];
        if (row.status == Queued || row.status == Running)
          && row.nextAttemptAt <= now
          && (row.leaseExpires.None? || row.leaseExpires.value <= now)
          && b !in locked
        {
          if found.None?
            || row.nextAttemptAt < builds[found.value].nextAttemptAt
            || (row.nextAttemptAt == builds[found.value].nextAttemptAt
                && row.queuedAt < builds[found.value].queuedAt)
          {
            found := Some(b);
          }
        }
        remaining := remaining - {b};
      }
    }

    /** ClaimNextBuild: nothing for an empty owner, an idle queue or a build out of attempts. */
    method ClaimNextBuild(owner: string, leaseFor: int, locked: set<BuildId>) returns (claimed: Option<BuildId>)
      modifies this
      ensures owner == "" ==> claimed.None? && Snapshot() == old(Snapshot())
      ensures claimed.Some? ==>
        && IsNextClaim(old(Snapshot()), locked, claimed.value)
        && old(builds[claimed.value].attempt < builds[claimed.value].maxAttempts)
        && Snapshot() == Claim(old(Snapshot()), claimed.value, owner, leaseFor)
      ensures claimed.Some? ==>
        var b := claimed.value;
        && b in old(builds) && builds == old(builds)[b := builds[b]] && b !in pages
        && builds[b].status == Running && builds[b].leaseOwner == owner
        && builds[b].leaseExpires == Some(now + leaseFor) && builds[b].attempt == old(builds[b].attempt) + 1
      ensures owner != "" && claimed.None? ==>
        || (Snapshot() == old(Snapshot()) && forall c | c in builds && Eligible(Snapshot(), c) :: c in locked)
        || (exists b ::
              && IsNextClaim(old(Snapshot()), locked, b)
              && old(Snapshot()).builds[b].attempt >= old(Snapshot()).builds[b].maxAttempts
              && Snapshot() == Claim(old(Snapshot()), b, owner, leaseFor))
    {
      if owner == "" {
        return None;
      }
      var found := FindNextClaim(locked);
      if found.None? {
        return None;
      }
      var b := found.value;
      var row := builds[b];
      ghost var before := Snapshot();
      if row.attempt >= row.maxAttempts {
        builds := builds[b := row.(status := Failed, leaseOwner := "", leaseExpires := None)];
        assert IsNextClaim(before, locked, b) && Snapshot() == Claim(before, b, owner, leaseFor);
        return None;
      }
      pages := pages - {b};
      builds := builds[b := row.(status := Running, attempt := row.attempt + 1,
                                 leaseOwner := owner, leaseExpires := Some(now + leaseFor))];
      return Some(b);
    }

    method HeartbeatBuild(b: BuildId, owner: string, leaseFor: int) returns (kept: bool)
      modifies this
      ensures kept == HoldsRunningLease(old(Snapshot()), b, owner)
      ensures ChangesOnlyRow(old(Snapshot()), Snapshot(), b)
      ensures if kept then builds[b] == old(builds[b]).(leaseExpires := Some(now + leaseFor)) else builds == old(builds)
      ensures Snapshot() == Heartbeat(old(Snapshot()), b, owner, leaseFor)
    {
      kept := b in builds && builds[b].leaseOwner == owner && builds[b].status == Running;
      if kept {
        builds := builds[b := builds[b].(leaseExpires := Some(now + leaseFor))];
      }
    }

    method RequeueBuild(b: BuildId, owner: string, retryIn: int) returns (kept: bool)
      modifies this
      ensures kept == HoldsLease(old(Snapshot()), b, owner)
      ensures ChangesOnlyRow(old(Snapshot()), Snapshot(), b)
      ensures kept ==>
        builds[b].status == Queued && builds[b].nextAttemptAt == now + retryIn && !HeldByAnyone(builds[b])
      ensures kept ==> builds[b].attempt == old(builds[b].attempt)
      ensures !kept ==> builds == old(builds)
      ensures Snapshot() == Requeue(old(Snapshot()), b, owner, retryIn)
    {
      kept := b in builds && builds[b].leaseOwner == owner;
      if kept {
        builds := builds[b := builds[b].(status := Queued, leaseOwner := "", leaseExpires := None,
                                         nextAttemptAt := now + retryIn)];
      }
    }

    method YieldBuild(b: BuildId, owner: string)
      modifies this
      ensures ChangesOnlyRow(old(Snapshot()), Snapshot(), b)
      ensures old(HoldsRunningLease(Snapshot(), b, owner)) ==>
        && builds[b].status == Queued && builds[b].nextAttemptAt == now && !HeldByAnyone(builds[b])
        && (old(builds[b].attempt) >= 1 ==> builds[b].attempt == old(builds[b].attempt) - 1)
      ensures !old(HoldsRunningLease(Snapshot(), b, owner)) ==> builds == old(builds)
      ensures Snapshot() == Yield(old(Snapshot()), b, owner)
    {
      if b in builds && builds[b].leaseOwner == owner && builds[b].status == Running {
        var attempt := builds[b].attempt - 1;
        if attempt < 0 {
          attempt := 0;
        }
        builds := builds[b := builds[b].(status := Queued, leaseOwner := "", leaseExpires := None,
                                         attempt := attempt, nextAttemptAt := now)];
      }
    }

    /** CommitBuild: insert page by page, then flip the row under the lease, or roll all of it back. */
    method CommitBuild(b: BuildId, owner: string, written: seq<WikiPage>, reusedCount: nat)
      returns (result: CommitResult)
      modifies this
      ensures result == CommitOutcome(old(Snapshot()), b, owner, written)
      ensures Snapshot() == Commit(old(Snapshot()), b, owner, written, reusedCount)
      ensures result == Committed ==>
        && b in old(builds) && old(builds[b].leaseOwner) == owner && b in builds && b in pages
        && builds[b].status == Succeeded && builds[b].checkStatus == CheckPassed && !HeldByAnyone(builds[b])
        && builds[b].pagesWritten == |written| && builds[b].pagesReused == reusedCount
        && |pages[b]| == |written| + if b in old(pages) then |old(pages[b])| else 0
      ensures result == LeaseLost ==> b in old(builds) && old(builds[b].leaseOwner) != owner
      ensures (exists i, j | 0 <= i < j < |written| :: written[i].path == written[j].path) ==> result == InsertFailed
      ensures result != Committed ==> Snapshot() == old(Snapshot())
    {
      if b !in builds {
        return InsertFailed;
      }
      var existing := if b in pages then pages[b] else [];
      var taken := PathsOf(existing);
      for i := 0 to |written|
        invariant Snapshot() == old(Snapshot())
        invariant taken == PathsOf(existing) + PathsOf(written[..i])
        invariant DistinctPaths(written[..i])
        invariant forall p | p in written[..i] :: Storable(p)
        invariant PathsOf(written[..i]) !! PathsOf(existing)
      {
        InsertSnoc(written, i);
        if !Storable(written[i]) || written[i].path in taken {
          assert !Insertable(old(Snapshot()), b, written);
          return InsertFailed;
        }
        taken := taken + {written[i].path};
      }
      assert written[..|written|] == written;
      if builds[b].leaseOwner != owner {
        return LeaseLost;
      }
      builds := builds[b := builds[b].(status := Succeeded, checkStatus := CheckPassed,
                                       pagesWritten := |written|, pagesReused := reusedCount,
                                       leaseOwner := "", leaseExpires := None)];
      pages := pages[b := existing + StorePages(b, written)];
      return Committed;
    }

    method FinishBuild(b: BuildId, status: Status, checkStatus: CheckStatus) returns (found: bool)
      modifies this
      ensures found == old(b in builds)
      ensures ChangesOnlyRow(old(Snapshot()), Snapshot(), b)
      ensures found ==>
        builds[b].status == status && builds[b].checkStatus == checkStatus && !HeldByAnyone(builds[b])
      ensures Snapshot() == Finish(old(Snapshot()), b, status, checkStatus)
    {
      found := b in builds;
      if found {
        builds := builds[b := builds[b].(status := status, checkStatus := checkStatus,
                                         leaseOwner := "", leaseExpires := None)];
      }
    }

    /** ActivateBuild also reports the outgoing pointer, so a rollback can be undone. */
    method ActivateBuild(b: BuildId) returns (ok: bool, previous: Option<BuildId>)
      modifies this
      ensures ok == Activatable(old(Snapshot()), b)
      ensures ok && old(builds[b].source in active) ==> previous == Some(old(active[builds[b].source]))
      ensures ok && old(builds[b].source !in active) ==> previous.None?
      ensures Snapshot() == Activate(old(Snapshot()), b)
      ensures ok <==> b in builds && builds[b].status == Succeeded && builds[b].checkStatus == CheckPassed
      ensures active == if ok then old(active)[builds[b].source := b] else old(active)
    {
      ok, previous := false, None;
      if b in builds && builds[b].status == Succeeded && builds[b].checkStatus == CheckPassed {
        ok := true;
        var source := builds[b].source;
        if source in active {
          previous := Some(active[source]);
        }
        active := active[source := b];
      }
    }
  }

  lemma InsertSnoc(written: seq<WikiPage>, i: nat)
    requires i < |written|
    ensures PathsOf(written[..i + 1]) == PathsOf(written[..i]) + {written[i].path}
    ensures forall p :: p in written[..i + 1] <==> p in written[..i] || p == written[i]
    ensures DistinctPaths(written[..i]) ==>
      (DistinctPaths(written[..i + 1]) <==> written[i].path !in PathsOf(written[..i]))
    ensures DistinctPaths(written) ==> DistinctPaths(written[..i + 1])
    ensures written[i] in written && written[i].path in PathsOf(written)
  {
    assert written[..i + 1] == written[..i] + [written[i]];
    if DistinctPaths(written[..i]) && written[i].path in PathsOf(written[..i]) {
      var j :| 0 <= j < i && written[..i][j].path == written[i].path;
      assert written[..i + 1][j].path == written[..i + 1][i].path;
    }
  }

  /** Why a commit fails before it reaches the row: the build is gone, a path comes twice or is there already, or a page
      does not fit its columns. */
  lemma InsertFailsExactly(db: Db, b: BuildId, owner: string, pages: seq<WikiPage>)
    ensures CommitOutcome(db, b, owner, pages) == InsertFailed <==>
      || b !in db.builds
      || (exists i, j :: 0 <= i < j < |pages| && pages[i].path == pages[j].path)
      || (exists p :: p in pages && (p.path == "" || |p.path| > 512 || |p.kind| > 32))
      || (exists p, l :: p in pages && l in p.links
            && l.linkType !in {"references", "contradicts", "supersedes", "elaborates", "mentions_entity"})
      || (b in db.pages && exists p, q :: p in pages && q in db.pages[b] && p.path == q.path)
    ensures CommitOutcome(db, b, owner, pages) == Committed ==> b in db.builds && db.builds[b].leaseOwner == owner
  {
    if b in db.builds && DistinctPaths(pages) && b in db.pages {
      SharedPathExactly(pages, db.pages[b]);
    }
  }

  lemma SharedPathExactly(a: seq<WikiPage>, b: seq<WikiPage>)
    ensures PathsOf(a) !! PathsOf(b) <==> forall p, q | p in a && q in b :: p.path != q.path
  {
    if p, q :| p in a && q in b && p.path == q.path {
      assert p.path in PathsOf(a) && q.path in PathsOf(b);
    }
    if path :| path in PathsOf(a) && path in PathsOf(b) {
      var i :| 0 <= i < |a| && a[i].path == path;
      var j :| 0 <= j < |b| && b[j].path == path;
      assert a[i] in a && b[j] in b;
    }
  }

  /** Rolling back a rollback: activating the reported previous build restores the pointer. */
  lemma RollbackIsUndone(db: Db, source: string, old_: BuildId, b: BuildId)
    requires source in db.active && db.active[source] == old_
    requires Activatable(db, old_) && Activatable(db, b)
    requires db.builds[old_].source == source == db.builds[b].source
    ensures Activate(Activate(db, b), old_) == db
  {
    assert db.active[source := b][source := old_] == db.active;
  }
}
