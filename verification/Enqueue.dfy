/** Queueing a compile request (internal/knowledge/wiki_service.go:31-167 and 451-479).

    The model configured for the compiler and the profile version resolved for the source
    arrive as the request's `identity`. */
module Enqueue {
  import opened BuildStore
  import opened IncrementalBuild
  import opened Wiki
  import opened Wrappers

  datatype CompileRequest = CompileRequest(
    source: string, mode: Mode, force: bool, activate: bool, identity: Identity, maxAttempts: int)

  datatype EnqueueError = NoActiveRevision | EmptyRevision | NoParent | BadParent

  datatype EnqueueOutcome =
    Rejected(error: EnqueueError) | Reused(build: BuildId, activated: bool) | Created(build: BuildId)

  /** ORDER BY created_at DESC LIMIT 1. */
  ghost predicate IsLatest(candidates: set<BuildId>, latest: Option<BuildId>) {
    match latest
    case None => candidates == {}
    case Some(b) => b in candidates && forall c | c in candidates :: c <= b
  }

  lemma {:induction false} LatestExists(candidates: set<BuildId>)
    ensures exists latest :: IsLatest(candidates, latest)
  {
    if candidates == {} {
      assert IsLatest(candidates, None);
    } else {
      var b :| b in candidates;
      LatestExists(candidates - {b});
      var rest :| IsLatest(candidates - {b}, rest);
      var latest := if rest.None? || rest.value < b then Some(b) else rest;
      assert forall c | c in candidates :: c == b || c in candidates - {b};
      assert IsLatest(candidates, latest);
    }
  }

  ghost function Latest(candidates: set<BuildId>): (latest: Option<BuildId>)
    ensures IsLatest(candidates, latest)
  {
    LatestExists(candidates);
    var latest :| IsLatest(candidates, latest);
    latest
  }

  method FindLatest(candidates: set<BuildId>) returns (latest: Option<BuildId>)
    ensures latest == Latest(candidates)
  {
    latest := None;
    var remaining := candidates;
    while remaining != {}
      invariant remaining <= candidates
      invariant IsLatest(candidates - remaining, latest)
      decreases remaining
    {
      var b :| b in remaining;
      if latest.None? || latest.value < b {
        latest := Some(b);
      }
      assert forall c | c in candidates - (remaining - {b}) :: c == b || c in candidates - remaining;
      remaining := remaining - {b};
    }
    assert candidates - remaining == candidates;
  }

  function SucceededOf(db: Db, source: string): set<BuildId> {
    set b | b in db.builds && db.builds[b].source == source && db.builds[b].status == Succeeded
  }

  function SameInputs(db: Db, input: NewBuild): set<BuildId> {
    set b | b in db.builds
      && db.builds[b].revision == input.revision && db.builds[b].identity == input.identity
      && db.builds[b].mode == input.mode && db.builds[b].parent == input.parent
      && db.builds[b].status == Succeeded
  }

  /** The parent already compiled this revision under this identity. */
  predicate ParentCovers(parent: Build, input: NewBuild) {
    parent.revision == input.revision && parent.identity == input.identity
  }

  ghost function ReuseOrCreate(db: Db, req: CompileRequest, input: NewBuild): (Db, EnqueueOutcome) {
    var existing := if req.force then None else Latest(SameInputs(db, input));
    if existing.Some? then Reuse(db, req, existing.value)
    else (CreateBuild(db, input), Created(db.nextId))
  }

  function Reuse(db: Db, req: CompileRequest, b: BuildId): (Db, EnqueueOutcome) {
    if !req.activate then (db, Reused(b, false)) else (Activate(db, b), Reused(b, Activatable(db, b)))
  }

  ghost function InputFor(db: Db, req: CompileRequest): NewBuild
    requires req.source in db.activeRevision
  {
    NewBuild(req.source, db.activeRevision[req.source], req.identity,
             if req.mode == Incremental then Latest(SucceededOf(db, req.source)) else None,
             req.mode, req.maxAttempts, req.activate)
  }

  ghost function EnqueueCompile(db: Db, req: CompileRequest): (Db, EnqueueOutcome) {
    if req.source !in db.activeRevision || db.activeRevision[req.source] !in db.revisions then
      (db, Rejected(NoActiveRevision))
    else if db.revisions[db.activeRevision[req.source]].Docs() == map[] then (db, Rejected(EmptyRevision))
    else
      var input := InputFor(db, req);
      if req.mode == Incremental then
        if input.parent.None? then (db, Rejected(NoParent))
        else
          var parent := db.builds[input.parent.value];
          if parent.identity != req.identity then (db, Rejected(BadParent))
          else if !req.force && ParentCovers(parent, input) then Reuse(db, req, input.parent.value)
          else ReuseOrCreate(db, req, input)
      else ReuseOrCreate(db, req, input)
  }

  method ReuseBuild(repo: Repo, req: CompileRequest, b: BuildId) returns (outcome: EnqueueOutcome)
    modifies repo
    ensures (repo.Snapshot(), outcome) == Reuse(old(repo.Snapshot()), req, b)
  {
    if !req.activate {
      return Reused(b, false);
    }
    var ok, _ := repo.ActivateBuild(b);
    outcome := Reused(b, ok);
  }

  method RunEnqueue(repo: Repo, req: CompileRequest) returns (outcome: EnqueueOutcome)
    modifies repo
    ensures (repo.Snapshot(), outcome) == EnqueueCompile(old(repo.Snapshot()), req)
  {
    if req.source !in repo.activeRevision || repo.activeRevision[req.source] !in repo.revisions {
      return Rejected(NoActiveRevision);
    }
    var revision := repo.activeRevision[req.source];
    if repo.revisions[revision].Docs() == map[] {
      return Rejected(EmptyRevision);
    }
    var input := NewBuild(req.source, revision, req.identity, None, req.mode, req.maxAttempts, req.activate);
    if req.mode == Incremental {
      var succeeded := set b | b in repo.builds
        && repo.builds[b].source == req.source && repo.builds[b].status == Succeeded;
      assert succeeded == SucceededOf(repo.Snapshot(), req.source);
      var parent := FindLatest(succeeded);
      if parent.None? {
        return Rejected(NoParent);
      }
      input := input.(parent := parent);
      if repo.builds[parent.value].identity != req.identity {
        return Rejected(BadParent);
      }
      if !req.force && ParentCovers(repo.builds[parent.value], input) {
        outcome := ReuseBuild(repo, req, parent.value);
        return;
      }
    }
    assert input == InputFor(repo.Snapshot(), req);
    if !req.force {
      var same := set b | b in repo.builds
        && repo.builds[b].revision == input.revision && repo.builds[b].identity == input.identity
        && repo.builds[b].mode == input.mode && repo.builds[b].parent == input.parent
        && repo.builds[b].status == Succeeded;
      assert same == SameInputs(repo.Snapshot(), input);
      var existing := FindLatest(same);
      if existing.Some? {
        outcome := ReuseBuild(repo, req, existing.value);
        return;
      }
    }
    var b := repo.Create(input);
    outcome := Created(b);
  }

  // ---------------------------------------------------------------------------------------
  // Enqueue is stable.
  // ---------------------------------------------------------------------------------------

  ghost predicate HasInputs(db: Db, req: CompileRequest) {
    && req.source in db.activeRevision && db.activeRevision[req.source] in db.revisions
    && db.revisions[db.activeRevision[req.source]].Docs() != map[]
  }

  /** An incremental request needs a succeeded build of the same compiler identity to build on. */
  ghost predicate HasUsableParent(db: Db, req: CompileRequest) {
    var parent := Latest(SucceededOf(db, req.source));
    parent.Some? && db.builds[parent.value].identity == req.identity
  }

  /** What makes a non-forced request return an existing build. */
  ghost predicate AlreadyBuilt(db: Db, req: CompileRequest)
    requires HasInputs(db, req)
  {
    || SameInputs(db, InputFor(db, req)) != {}
    || (&& req.mode == Incremental && HasUsableParent(db, req)
        && ParentCovers(db.builds[Latest(SucceededOf(db, req.source)).value], InputFor(db, req)))
  }

  lemma ReuseOrCreateExact(db: Db, req: CompileRequest, input: NewBuild)
    ensures var (db', outcome) := ReuseOrCreate(db, req, input);
      && (outcome.Created? <==> req.force || SameInputs(db, input) == {})
      && if outcome.Created? then db' == CreateBuild(db, input) && outcome.build == db.nextId
         else db' == db.(active := db'.active)
  {
  }

  lemma RejectedWithoutInputs(db: Db, req: CompileRequest)
    requires !HasInputs(db, req)
    ensures EnqueueCompile(db, req).1.Rejected? && EnqueueCompile(db, req).0 == db
  {
  }

  lemma FullRequest(db: Db, req: CompileRequest)
    requires HasInputs(db, req) && req.mode == Full
    ensures EnqueueCompile(db, req) == ReuseOrCreate(db, req, InputFor(db, req))
  {
  }

  lemma IncrementalRequest(db: Db, req: CompileRequest)
    requires HasInputs(db, req) && req.mode == Incremental
    ensures !HasUsableParent(db, req) ==> EnqueueCompile(db, req).1.Rejected? && EnqueueCompile(db, req).0 == db
    ensures HasUsableParent(db, req) ==>
      var parent := Latest(SucceededOf(db, req.source)).value;
      EnqueueCompile(db, req) ==
        if !req.force && ParentCovers(db.builds[parent], InputFor(db, req)) then Reuse(db, req, parent)
        else ReuseOrCreate(db, req, InputFor(db, req))
  {
  }

  /** Exactly which requests queue a new build. */
  lemma CreatesExactlyWhen(db: Db, req: CompileRequest)
    ensures EnqueueCompile(db, req).1.Created? <==>
      && HasInputs(db, req)
      && (req.mode == Incremental ==> HasUsableParent(db, req))
      && (req.force || !AlreadyBuilt(db, req))
    ensures !EnqueueCompile(db, req).1.Created? ==>
      EnqueueCompile(db, req).0 == db.(active := EnqueueCompile(db, req).0.active)
    ensures EnqueueCompile(db, req).1.Created? ==>
      EnqueueCompile(db, req) == (CreateBuild(db, InputFor(db, req)), Created(db.nextId))
  {
    if !HasInputs(db, req) {
      RejectedWithoutInputs(db, req);
    } else {
      ReuseOrCreateExact(db, req, InputFor(db, req));
      if req.mode == Full {
        FullRequest(db, req);
      } else {
        IncrementalRequest(db, req);
      }
    }
  }

  /** What a request that settled on a revision and a parent earlier inserts. */
  function Settled(req: CompileRequest, revision: string, parent: Option<BuildId>): NewBuild {
    NewBuild(req.source, revision, req.identity, parent, req.mode, req.maxAttempts, req.activate)
  }

  /**
   * A request's statements are not one transaction. Whatever it read before, its insert does
   * what the whole request would do at the moment of the insert if and only if neither the
   * active revision nor the latest succeeded build has moved, and no build covering it was
   * finished, in between.
   */
  lemma LateInsertExact(db: Db, req: CompileRequest, revision: string, parent: Option<BuildId>)
    requires req.mode == Full ==> parent.None?
    ensures CreateBuild(db, Settled(req, revision, parent)) == EnqueueCompile(db, req).0 <==>
      && HasInputs(db, req) && revision == db.activeRevision[req.source]
      && (req.mode == Incremental ==> HasUsableParent(db, req) && parent == Latest(SucceededOf(db, req.source)))
      && (req.force || !AlreadyBuilt(db, req))
  {
    var input := Settled(req, revision, parent);
    CreatesExactlyWhen(db, req);
    if EnqueueCompile(db, req).1.Created? {
      SameRowSameInput(db, input, InputFor(db, req));
    } else {
      assert CreateBuild(db, input).nextId != db.nextId;
    }
  }

  lemma SameRowSameInput(db: Db, a: NewBuild, b: NewBuild)
    requires a.maxAttempts == b.maxAttempts
    ensures CreateBuild(db, a) == CreateBuild(db, b) <==> a == b
  {
    if CreateBuild(db, a) == CreateBuild(db, b) {
      assert CreateBuild(db, a).builds[db.nextId] == CreateBuild(db, b).builds[db.nextId];
    }
  }

  /** The newest succeeded build of the source, or none. */
  ghost predicate IsNewestSucceeded(db: Db, source: string, newest: Option<BuildId>) {
    match newest
    case None => forall c | c in db.builds && db.builds[c].source == source :: db.builds[c].status != Succeeded
    case Some(b) =>
      && b in db.builds && db.builds[b].source == source && db.builds[b].status == Succeeded
      && forall c | c in db.builds && db.builds[c].source == source && db.builds[c].status == Succeeded :: c <= b
  }

  /** The parent a request builds on: the newest succeeded build for an incremental one, none for a full one. */
  ghost predicate IsParentFor(db: Db, req: CompileRequest, parent: Option<BuildId>) {
    if req.mode == Incremental then IsNewestSucceeded(db, req.source, parent) else parent.None?
  }

  lemma ParentForExactly(db: Db, req: CompileRequest, parent: Option<BuildId>)
    requires req.source in db.activeRevision && IsParentFor(db, req, parent)
    ensures InputFor(db, req).parent == parent
    ensures req.mode == Incremental ==> Latest(SucceededOf(db, req.source)) == parent
  {
    if req.mode == Incremental {
      var succeeded := SucceededOf(db, req.source);
      var latest := Latest(succeeded);
      assert parent.Some? ==> parent.value in succeeded;
      assert latest.Some? ==> latest.value in succeeded;
    }
  }

  /** A succeeded build of the active revision by the same compiler, that answers the request: built in the same way
      from the same parent, or the newest one itself for an incremental request. */
  ghost predicate AnsweredBy(db: Db, req: CompileRequest, parent: Option<BuildId>, b: BuildId)
    requires req.source in db.activeRevision
  {
    && b in db.builds && db.builds[b].status == Succeeded
    && db.builds[b].revision == db.activeRevision[req.source] && db.builds[b].identity == req.identity
    && ((db.builds[b].mode == req.mode && db.builds[b].parent == parent)
        || (req.mode == Incremental && parent == Some(b)))
  }

  lemma AnsweredByExactly(db: Db, req: CompileRequest, parent: Option<BuildId>)
    requires HasInputs(db, req) && IsParentFor(db, req, parent)
    requires req.mode == Incremental ==> HasUsableParent(db, req)
    ensures AlreadyBuilt(db, req) <==> exists b :: AnsweredBy(db, req, parent, b)
  {
    ParentForExactly(db, req, parent);
    if b :| AnsweredBy(db, req, parent, b) && db.builds[b].mode == req.mode && db.builds[b].parent == parent {
      assert b in SameInputs(db, InputFor(db, req));
    }
    if b :| b in SameInputs(db, InputFor(db, req)) {
      assert AnsweredBy(db, req, parent, b);
    }
    if req.mode == Incremental && AlreadyBuilt(db, req) && SameInputs(db, InputFor(db, req)) == {} {
      assert AnsweredBy(db, req, parent, parent.value);
    }
  }

  /** Exactly which requests queue a build, in terms of the tables alone. */
  lemma QueuesExactlyWhen(db: Db, req: CompileRequest, parent: Option<BuildId>)
    requires IsParentFor(db, req, parent)
    ensures EnqueueCompile(db, req).1.Created? <==>
      && req.source in db.activeRevision && db.activeRevision[req.source] in db.revisions
      && (exists path :: path in db.revisions[db.activeRevision[req.source]].files
                         && db.revisions[db.activeRevision[req.source]].files[path].indexable)
      && (req.mode == Incremental ==> parent.Some? && db.builds[parent.value].identity == req.identity)
      && (req.force || forall b :: !AnsweredBy(db, req, parent, b))
  {
    CreatesExactlyWhen(db, req);
    HasInputsExactly(db, req);
    if HasInputs(db, req) {
      ParentForExactly(db, req, parent);
      if req.mode == Incremental ==> HasUsableParent(db, req) {
        AnsweredByExactly(db, req, parent);
      }
    }
  }

  lemma HasInputsExactly(db: Db, req: CompileRequest)
    ensures HasInputs(db, req) <==>
      && req.source in db.activeRevision && db.activeRevision[req.source] in db.revisions
      && exists path :: path in db.revisions[db.activeRevision[req.source]].files
                        && db.revisions[db.activeRevision[req.source]].files[path].indexable
  {
    if req.source in db.activeRevision && db.activeRevision[req.source] in db.revisions {
      var revision := db.revisions[db.activeRevision[req.source]];
      if revision.Docs() != map[] {
        assert revision.Docs().Keys != {};
        var path :| path in revision.Docs();
      }
      if path :| path in revision.files && revision.files[path].indexable {
        assert path in revision.Docs();
      }
    }
  }

  /** The row a request queues. */
  lemma QueuedRowExactly(db: Db, req: CompileRequest, parent: Option<BuildId>)
    requires IsParentFor(db, req, parent) && EnqueueCompile(db, req).1.Created?
    ensures req.source in db.activeRevision
    ensures EnqueueCompile(db, req) == (db.(
      builds := db.builds[db.nextId := Build(
        req.source, db.activeRevision[req.source], req.identity, parent, req.mode, Queued, CheckPending, "", None,
        0, if req.maxAttempts <= 0 then 3 else req.maxAttempts, db.now, db.now, req.activate, 0, 0)],
      nextId := db.nextId + 1), Created(db.nextId))
  {
    CreatesExactlyWhen(db, req);
    ParentForExactly(db, req, parent);
  }

  /** What a request that is answered does: it points the source at the build that answers it exactly when it asked
      for that and the build is a success that passed the check, says so, and changes nothing else. */
  lemma ReusesExactly(db: Db, req: CompileRequest, parent: Option<BuildId>, db': Db, b: BuildId, activated: bool)
    requires IsParentFor(db, req, parent) && EnqueueCompile(db, req) == (db', Reused(b, activated))
    ensures req.source in db.activeRevision && AnsweredBy(db, req, parent, b) && !req.force
    ensures activated <==> req.activate && db.builds[b].checkStatus == CheckPassed
    ensures db' == db.(active := if activated then db.active[db.builds[b].source := b] else db.active)
  {
    if !HasInputs(db, req) {
      RejectedWithoutInputs(db, req);
      assert false;
    }
    ParentForExactly(db, req, parent);
    ReuseOrCreateExact(db, req, InputFor(db, req));
    if req.mode == Full {
      FullRequest(db, req);
    } else {
      IncrementalRequest(db, req);
    }
  }

  /** Which error a refused request gets: the first of its inputs that is missing. */
  lemma RejectsExactlyWhen(db: Db, req: CompileRequest, parent: Option<BuildId>)
    requires IsParentFor(db, req, parent)
    ensures EnqueueCompile(db, req).1 == Rejected(NoActiveRevision) <==>
      req.source !in db.activeRevision || db.activeRevision[req.source] !in db.revisions
    ensures EnqueueCompile(db, req).1 == Rejected(EmptyRevision) <==>
      && req.source in db.activeRevision && db.activeRevision[req.source] in db.revisions && !HasInputs(db, req)
    ensures EnqueueCompile(db, req).1 == Rejected(NoParent) <==>
      HasInputs(db, req) && req.mode == Incremental && parent.None?
    ensures EnqueueCompile(db, req).1 == Rejected(BadParent) <==>
      HasInputs(db, req) && req.mode == Incremental && parent.Some? && db.builds[parent.value].identity != req.identity
    ensures EnqueueCompile(db, req).1.Rejected? ==> EnqueueCompile(db, req).0 == db
  {
    if HasInputs(db, req) {
      ParentForExactly(db, req, parent);
    }
  }

  /** Full mode: one succeeded full build of the active revision covers it. */
  ghost predicate FullyCovered(db: Db, req: CompileRequest) {
    && HasInputs(db, req)
    && exists b :: b in SucceededOf(db, req.source) && db.builds[b].mode == Full && db.builds[b].parent.None?
         && db.builds[b].revision == db.activeRevision[req.source] && db.builds[b].identity == req.identity
  }

  /** Incremental mode: the source's latest succeeded build covers it. */
  ghost predicate IncrementallyCovered(db: Db, req: CompileRequest) {
    && HasInputs(db, req)
    && var parent := Latest(SucceededOf(db, req.source));
       parent.Some? && db.builds[parent.value].identity == req.identity
       && db.builds[parent.value].revision == db.activeRevision[req.source]
  }

  ghost predicate Covers(db: Db, req: CompileRequest) {
    if req.mode == Full then FullyCovered(db, req) else IncrementallyCovered(db, req)
  }

  lemma CoveredRequestQueuesNothing(db: Db, req: CompileRequest)
    requires Covers(db, req) && !req.force
    ensures EnqueueCompile(db, req).1.Reused?
    ensures EnqueueCompile(db, req).0 == db.(active := EnqueueCompile(db, req).0.active)
  {
    if req.mode == Full {
      var b :| b in SucceededOf(db, req.source) && db.builds[b].mode == Full && db.builds[b].parent.None?
         && db.builds[b].revision == db.activeRevision[req.source] && db.builds[b].identity == req.identity;
      assert b in SameInputs(db, InputFor(db, req));
    }
  }

  ghost function EnqueueAll(db: Db, reqs: seq<CompileRequest>): Db
    decreases |reqs|
  {
    if reqs == [] then db else EnqueueAll(EnqueueCompile(db, reqs[0]).0, reqs[1..])
  }

  /** However often the same covered inputs are requested, in whatever mix of modes, the build
      table does not change. */
  lemma {:induction false} PollingQueuesNothing(db: Db, reqs: seq<CompileRequest>)
    requires forall i | 0 <= i < |reqs| :: Covers(db, reqs[i]) && !reqs[i].force
    ensures EnqueueAll(db, reqs).builds == db.builds
    decreases |reqs|
  {
    if reqs != [] {
      CoveredRequestQueuesNothing(db, reqs[0]);
      var next := EnqueueCompile(db, reqs[0]).0;
      forall i | 0 <= i < |reqs[1..]|
        ensures Covers(next, reqs[1..][i]) && !reqs[1..][i].force
      {
        CoverageIgnoresPointers(db, next, reqs[i + 1]);
      }
      PollingQueuesNothing(next, reqs[1..]);
    }
  }

  lemma CoverageIgnoresPointers(db: Db, next: Db, req: CompileRequest)
    requires next == db.(active := next.active)
    requires Covers(db, req)
    ensures Covers(next, req)
  {
    assert SucceededOf(next, req.source) == SucceededOf(db, req.source);
    if req.mode == Full {
      var b :| b in SucceededOf(db, req.source) && db.builds[b].mode == Full && db.builds[b].parent.None?
         && db.builds[b].revision == db.activeRevision[req.source] && db.builds[b].identity == req.identity;
      assert b in SucceededOf(next, req.source);
    }
  }
}
