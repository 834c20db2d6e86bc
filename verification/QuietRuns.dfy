/** Enqueue is stable over whole runs: while nothing commits, the source stands still and none of its
    committed builds is finished again, covered requests queue nothing. */
module QuietRuns {
  import opened BuildStore
  import opened Protocol
  import opened ProtocolSteps
  import opened ProtocolTheorems
  import opened Wiki
  import opened Wrappers
  import Enqueue

  function BuildsOf(db: Db, source: string): set<BuildId> {
    set b | b in db.builds && db.builds[b].source == source
  }

  /** The committed build a step marks failed, if it is such a step. */
  ghost function Finished(s: System, e: Event): set<BuildId> {
    if e.Close? && FinishesCommitted(s, e, e.build) then {e.build} else {}
  }

  // ---------------------------------------------------------------------------------------
  // Which builds count as succeeded after a step.
  // ---------------------------------------------------------------------------------------

  lemma SucceededExact(s: System, b: BuildId)
    requires Inv(s) && b in s.db.builds
    ensures b in s.hist
    ensures s.db.builds[b].status == Succeeded <==> b in s.db.pages && !s.hist[b].relabelled
  {
    assert RowInv(s, b);
  }

  lemma ClaimKeepsPages(s: System, b: BuildId, owner: string, leaseFor: int)
    requires Eligible(s.db, b) ==> b !in s.db.pages
    ensures StepClaim(s, b, owner, leaseFor).db.pages == s.db.pages
  {
    if Eligible(s.db, b) {
      assert s.db.pages - {b} == s.db.pages;
    }
  }

  lemma EligibleHasNoPages(s: System, b: BuildId)
    requires Inv(s) && Eligible(s.db, b)
    ensures b !in s.db.pages
  {
    assert RowInv(s, b);
  }

  lemma CreatedFrame(db: Db, req: Enqueue.CompileRequest)
    requires Enqueue.EnqueueCompile(db, req).1.Created?
    ensures var db' := Enqueue.EnqueueCompile(db, req).0;
      && db'.pages == db.pages && db'.activeRevision == db.activeRevision
      && db'.builds.Keys == db.builds.Keys + {db.nextId} && db'.builds[db.nextId].source == req.source
  {
    Enqueue.CreatesExactlyWhen(db, req);
  }

  lemma ReusedFrame(db: Db, req: Enqueue.CompileRequest)
    requires !Enqueue.EnqueueCompile(db, req).1.Created?
    ensures var db' := Enqueue.EnqueueCompile(db, req).0;
      db'.pages == db.pages && db'.activeRevision == db.activeRevision && db'.builds == db.builds
  {
    Enqueue.CreatesExactlyWhen(db, req);
  }

  lemma OtherStepKeepsPages(s: System, e: Event)
    requires !e.ClaimOne? && !e.Request? && !e.CommitDraft?
    ensures Step(s, e).db.pages == s.db.pages
  {
  }

  lemma RequestKeepsPages(s: System, req: Enqueue.CompileRequest)
    ensures StepRequest(s, req).db.pages == s.db.pages
  {
    if Enqueue.EnqueueCompile(s.db, req).1.Created? {
      CreatedFrame(s.db, req);
    } else {
      ReusedFrame(s.db, req);
    }
  }

  lemma OnlyCommitsWritePages(s: System, e: Event)
    requires Inv(s) && !e.CommitDraft?
    ensures Step(s, e).db.pages == s.db.pages
  {
    match e {
      case ClaimOne(b, owner, leaseFor) =>
        if Eligible(s.db, b) {
          EligibleHasNoPages(s, b);
        }
        ClaimKeepsPages(s, b, owner, leaseFor);
      case Request(req) => RequestKeepsPages(s, req);
      case _ => OtherStepKeepsPages(s, e);
    }
  }

  /** Labels move with the history bit: between two states with the same pages, exactly the builds marked in between
      stop counting as succeeded. */
  ghost predicate MarkedBetween(s: System, s': System, gone: set<BuildId>) {
    && s'.db.pages == s.db.pages && gone <= s.db.pages.Keys
    && forall b | b in s'.hist :: s'.hist[b].relabelled <==> (b in s.hist && s.hist[b].relabelled) || b in gone
  }

  lemma SucceededFollows(s: System, s': System, gone: set<BuildId>, b: BuildId)
    requires Inv(s) && Inv(s') && MarkedBetween(s, s', gone) && b in s'.db.builds
    ensures s'.db.builds[b].status == Succeeded <==>
      b in s.db.builds && s.db.builds[b].status == Succeeded && b !in gone
  {
    SucceededExact(s', b);
    if b in s.db.builds {
      SucceededExact(s, b);
    }
  }

  lemma SucceededOfFollows(s: System, s': System, gone: set<BuildId>, source: string)
    requires Inv(s) && Kept(s, s') && MarkedBetween(s, s', gone)
    ensures Enqueue.SucceededOf(s'.db, source) == Enqueue.SucceededOf(s.db, source) - gone
  {
    forall b
      ensures b in Enqueue.SucceededOf(s'.db, source) <==> b in Enqueue.SucceededOf(s.db, source) - gone
    {
      if b in s'.db.builds {
        SucceededFollows(s, s', gone, b);
      }
    }
  }

  lemma StepMarks(s: System, e: Event)
    requires Inv(s) && !e.CommitDraft?
    ensures MarkedBetween(s, Step(s, e), Finished(s, e))
  {
    OnlyCommitsWritePages(s, e);
    forall b | b in Step(s, e).hist
      ensures Step(s, e).hist[b].relabelled <==> (b in s.hist && s.hist[b].relabelled) || b in Finished(s, e)
    {
      StepMarksExactly(s, e, b);
    }
  }

  lemma SucceededOfAfter(s: System, e: Event, source: string)
    requires Inv(s) && !e.CommitDraft?
    ensures Enqueue.SucceededOf(Step(s, e).db, source) == Enqueue.SucceededOf(s.db, source) - Finished(s, e)
    ensures Kept(s, Step(s, e))
  {
    StepKeepsInv(s, e);
    StepMarks(s, e);
    SucceededOfFollows(s, Step(s, e), Finished(s, e), source);
  }

  // ---------------------------------------------------------------------------------------
  // When coverage survives a step.
  // ---------------------------------------------------------------------------------------

  /** Coverage by the succeeded builds left when `gone` no longer count. */
  ghost predicate CoversWithout(db: Db, req: Enqueue.CompileRequest, gone: set<BuildId>)
    requires Enqueue.HasInputs(db, req)
  {
    var left := Enqueue.SucceededOf(db, req.source) - gone;
    if req.mode == Full then
      exists b :: b in left && db.builds[b].mode == Full && db.builds[b].parent.None?
        && db.builds[b].revision == db.activeRevision[req.source] && db.builds[b].identity == req.identity
    else
      var parent := Enqueue.Latest(left);
      parent.Some? && db.builds[parent.value].identity == req.identity
        && db.builds[parent.value].revision == db.activeRevision[req.source]
  }

  lemma RequestKeepsRevision(s: System, req: Enqueue.CompileRequest)
    ensures StepRequest(s, req).db.activeRevision == s.db.activeRevision
  {
    if Enqueue.EnqueueCompile(s.db, req).1.Created? {
      CreatedFrame(s.db, req);
    } else {
      ReusedFrame(s.db, req);
    }
  }

  lemma OthersKeepRevision(s: System, e: Event)
    requires !e.Request? && !e.Sync?
    ensures Step(s, e).db.activeRevision == s.db.activeRevision
  {
  }

  lemma SyncKeepsOtherRevisions(s: System, e: Event, source: string)
    requires e.Sync? && e.source != source && source in s.db.activeRevision
    ensures var db' := Step(s, e).db;
      source in db'.activeRevision && db'.activeRevision[source] == s.db.activeRevision[source]
  {
  }

  lemma StandsStill(s: System, e: Event, source: string)
    requires (e.Sync? ==> e.source != source) && source in s.db.activeRevision
    ensures var db' := Step(s, e).db;
      source in db'.activeRevision && db'.activeRevision[source] == s.db.activeRevision[source]
  {
    if e.Request? {
      RequestKeepsRevision(s, e.req);
    } else if e.Sync? {
      SyncKeepsOtherRevisions(s, e, source);
    } else {
      OthersKeepRevision(s, e);
    }
  }

  lemma CoverageFollows(db: Db, db': Db, req: Enqueue.CompileRequest, gone: set<BuildId>)
    requires Extends(db, db') && Enqueue.HasInputs(db, req)
    requires Enqueue.SucceededOf(db', req.source) == Enqueue.SucceededOf(db, req.source) - gone
    requires req.source in db'.activeRevision && db'.activeRevision[req.source] == db.activeRevision[req.source]
    ensures Enqueue.Covers(db', req) <==> CoversWithout(db, req, gone)
  {
    forall b | b in Enqueue.SucceededOf(db', req.source)
      ensures b in db.builds && SameInputs(db.builds[b], db'.builds[b])
    {
      assert b in Enqueue.SucceededOf(db, req.source);
    }
  }

  /** Exactly when coverage survives a step that neither commits nor syncs the source: when the step does not finish
      the build it rests on, or another succeeded build covers too. */
  lemma CoverageSurvivesExactly(s: System, e: Event, req: Enqueue.CompileRequest)
    requires Inv(s) && !e.CommitDraft? && (e.Sync? ==> e.source != req.source)
    requires Enqueue.HasInputs(s.db, req)
    ensures Enqueue.Covers(Step(s, e).db, req) <==> CoversWithout(s.db, req, Finished(s, e))
  {
    SucceededOfAfter(s, e, req.source);
    StandsStill(s, e, req.source);
    CoverageFollows(s.db, Step(s, e).db, req, Finished(s, e));
  }

  lemma NothingGone(db: Db, req: Enqueue.CompileRequest, gone: set<BuildId>)
    requires Enqueue.Covers(db, req) && gone !! Enqueue.SucceededOf(db, req.source)
    ensures CoversWithout(db, req, gone)
  {
    assert Enqueue.SucceededOf(db, req.source) - gone == Enqueue.SucceededOf(db, req.source);
  }

  lemma SameInputsAfterFinish(s: System, b: BuildId, owner: string, checkStatus: CheckStatus, input: NewBuild)
    requires (b, owner) in s.claimants && b in s.db.builds && b in s.hist
    ensures Enqueue.SameInputs(Step(s, Close(b, owner, checkStatus)).db, input) == Enqueue.SameInputs(s.db, input) - {b}
  {
  }

  /** And it can be lost: when a worker that once claimed the only covering full build finishes it again, the next
      unforced request, covered until then, queues a new build. */
  lemma FinishUncovers(s: System, b: BuildId, owner: string, checkStatus: CheckStatus, req: Enqueue.CompileRequest)
    requires Inv(s) && (b, owner) in s.claimants
    requires Enqueue.HasInputs(s.db, req) && req.mode == Full && !req.force
    requires Enqueue.SameInputs(s.db, Enqueue.InputFor(s.db, req)) == {b}
    ensures !Enqueue.EnqueueCompile(s.db, req).1.Created?
    ensures Enqueue.EnqueueCompile(Step(s, Close(b, owner, checkStatus)).db, req).1.Created?
  {
    assert b in Enqueue.SameInputs(s.db, Enqueue.InputFor(s.db, req));
    var s' := Step(s, Close(b, owner, checkStatus));
    SameInputsAfterFinish(s, b, owner, checkStatus, Enqueue.InputFor(s.db, req));
    FinishKeepsInputs(s, b, owner, checkStatus, req);
    Enqueue.CreatesExactlyWhen(s.db, req);
    Enqueue.CreatesExactlyWhen(s'.db, req);
  }

  lemma FinishKeepsInputs(s: System, b: BuildId, owner: string, checkStatus: CheckStatus, req: Enqueue.CompileRequest)
    requires Enqueue.HasInputs(s.db, req) && req.mode == Full
    ensures var db' := Step(s, Close(b, owner, checkStatus)).db;
      Enqueue.HasInputs(db', req) && Enqueue.InputFor(db', req) == Enqueue.InputFor(s.db, req)
  {
  }

  // ---------------------------------------------------------------------------------------
  // Whole runs.
  // ---------------------------------------------------------------------------------------

  /** Nothing commits, the source is not synced and gets no build from a request begun earlier, and none of its
      committed builds is finished again; a request for it is not forced and was covered at the start. */
  ghost predicate Quiet(s: System, e: Event, source: string, start: Db) {
    match e
    case CommitDraft(_) => false
    case Sync(synced, _, _) => synced != source
    case Insert(input) => input.source != source
    case Close(_, _, _) => Finished(s, e) !! Enqueue.SucceededOf(s.db, source)
    case Request(req) => req.source == source ==> !req.force && Enqueue.Covers(start, req)
    case _ => true
  }

  ghost predicate QuietRun(s: System, events: seq<Event>, source: string, start: Db)
    decreases |events|
  {
    events == [] || (Quiet(s, events[0], source, start) && QuietRun(Step(s, events[0]), events[1..], source, start))
  }

  ghost predicate KeepsCovering(start: Db, now: Db, source: string) {
    forall req: Enqueue.CompileRequest | req.source == source && Enqueue.Covers(start, req) :: Enqueue.Covers(now, req)
  }

  lemma WorkersAddNoBuilds(s: System, e: Event)
    requires e.ClaimOne? || e.Beat? || e.Retry? || e.GiveBack? || e.Close?
    ensures Step(s, e).db.builds.Keys == s.db.builds.Keys
  {
  }

  lemma OnlyRequestsAddBuilds(s: System, e: Event)
    requires !e.Request? && !e.Insert?
    ensures Step(s, e).db.builds.Keys == s.db.builds.Keys
  {
    if e.ClaimOne? || e.Beat? || e.Retry? || e.GiveBack? || e.Close? {
      WorkersAddNoBuilds(s, e);
    }
  }

  lemma InsertAddsOne(s: System, input: NewBuild)
    ensures forall b | b in Step(s, Insert(input)).db.builds && b !in s.db.builds ::
      Step(s, Insert(input)).db.builds[b].source == input.source
  {
  }

  lemma RequestAddsOne(s: System, req: Enqueue.CompileRequest)
    ensures forall b | b in StepRequest(s, req).db.builds && b !in s.db.builds ::
      StepRequest(s, req).db.builds[b].source == req.source && Enqueue.EnqueueCompile(s.db, req).1.Created?
  {
    if Enqueue.EnqueueCompile(s.db, req).1.Created? {
      CreatedFrame(s.db, req);
    } else {
      ReusedFrame(s.db, req);
    }
  }

  lemma SameKeysSameBuilds(db: Db, db': Db, source: string)
    requires Extends(db, db')
    requires forall b | b in db'.builds && b !in db.builds :: db'.builds[b].source != source
    ensures BuildsOf(db', source) == BuildsOf(db, source)
  {
  }

  lemma QuietKeepsBuilds(s: System, e: Event, source: string, start: Db)
    requires Extends(s.db, Step(s, e).db) && Quiet(s, e, source, start) && KeepsCovering(start, s.db, source)
    ensures BuildsOf(Step(s, e).db, source) == BuildsOf(s.db, source)
  {
    if e.Request? {
      RequestAddsOne(s, e.req);
      if e.req.source == source {
        Enqueue.CoveredRequestQueuesNothing(s.db, e.req);
      }
    } else if e.Insert? {
      InsertAddsOne(s, e.input);
    } else {
      OnlyRequestsAddBuilds(s, e);
    }
    SameKeysSameBuilds(s.db, Step(s, e).db, source);
  }

  lemma QuietKeepsCoverage(s: System, e: Event, req: Enqueue.CompileRequest, start: Db)
    requires Inv(s) && Quiet(s, e, req.source, start) && Enqueue.Covers(s.db, req)
    ensures Enqueue.Covers(Step(s, e).db, req)
  {
    NothingGone(s.db, req, Finished(s, e));
    CoverageSurvivesExactly(s, e, req);
  }

  lemma QuietKeepsCovering(s: System, e: Event, source: string, start: Db)
    requires Inv(s) && Quiet(s, e, source, start) && KeepsCovering(start, s.db, source)
    ensures KeepsCovering(start, Step(s, e).db, source)
  {
    forall req: Enqueue.CompileRequest | req.source == source && Enqueue.Covers(start, req)
      ensures Enqueue.Covers(Step(s, e).db, req)
    {
      QuietKeepsCoverage(s, e, req, start);
    }
  }

  lemma {:induction false} QuietRunFrom(s: System, events: seq<Event>, source: string, start: Db)
    requires Inv(s) && QuietRun(s, events, source, start) && KeepsCovering(start, s.db, source)
    ensures BuildsOf(Run(s, events).db, source) == BuildsOf(s.db, source)
    ensures KeepsCovering(start, Run(s, events).db, source)
    decreases |events|
  {
    if events != [] {
      StepKeepsInv(s, events[0]);
      QuietKeepsBuilds(s, events[0], source, start);
      QuietKeepsCovering(s, events[0], source, start);
      QuietRunFrom(Step(s, events[0]), events[1..], source, start);
    }
  }

  /** However often covered inputs are requested, and whatever workers claim, retry, give back or lose in between,
      short of finishing a succeeded build of the source: the source gets no new build, and what was covered
      still is. */
  lemma QuietRunQueuesNothing(s: System, events: seq<Event>, source: string)
    requires Inv(s) && QuietRun(s, events, source, s.db)
    ensures BuildsOf(Run(s, events).db, source) == BuildsOf(s.db, source)
    ensures KeepsCovering(s.db, Run(s, events).db, source)
  {
    QuietRunFrom(s, events, source, s.db);
  }
}
