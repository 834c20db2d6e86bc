/** What the build protocol guarantees in every reachable state of every run. */
module ProtocolTheorems {
  import opened Assembly
  import opened BuildStore
  import opened Check
  import opened Ordering
  import opened Protocol
  import opened ProtocolSteps
  import opened Wiki
  import Enqueue

  ghost predicate Reachable(s: System) {
    exists profiles, events :: s == Run(Init(profiles), events)
  }

  lemma ReachableInv(s: System)
    requires Reachable(s)
    ensures Inv(s)
  {
    var profiles, events :| s == Run(Init(profiles), events);
    InitInv(profiles);
    RunKeepsInv(Init(profiles), events);
  }

  // ---------------------------------------------------------------------------------------
  // The active wiki.
  // ---------------------------------------------------------------------------------------

  /** The build under a source's active pointer belongs to that source and holds exactly what one
      commit wrote: the whole page set of a draft that passed the gate. */
  lemma ActiveWikiIsOneCheckedCommit(s: System, source: string)
    requires Reachable(s) && source in s.db.active
    ensures var b := s.db.active[source];
      && b in s.db.builds && s.db.builds[b].source == source
      && b in s.hist && s.hist[b].commits == 1
      && exists d :: CommittedAs(s, b, d) && PassedGate(s.db, b, d.pages)
  {
    ReachableInv(s);
    var b := s.db.active[source];
    assert RowInv(s, b);
    var d :| CommittedAs(s, b, d);
    assert DraftInv(s.db, d);
  }

  /** Whatever happens next, committed pages stay as they are and the build stays finished. */
  lemma CommittedPagesNeverChange(s: System, events: seq<Event>, b: BuildId)
    requires Reachable(s) && b in s.db.pages
    ensures b in Run(s, events).db.pages && Run(s, events).db.pages[b] == s.db.pages[b]
    ensures b in Run(s, events).db.builds && b in Run(s, events).hist
    ensures Run(s, events).db.builds[b].IsTerminal() && Run(s, events).hist[b].commits == 1
  {
    ReachableInv(s);
    RunKeepsInv(s, events);
    assert RowInv(Run(s, events), b);
  }

  // ---------------------------------------------------------------------------------------
  // Leases.
  // ---------------------------------------------------------------------------------------

  lemma LeaseInvariant(s: System, b: BuildId)
    requires Reachable(s) && b in s.db.builds
    ensures s.db.builds[b].status == Running <==> s.db.builds[b].leaseOwner != ""
    ensures !s.db.builds[b].IsTerminal() ==> b !in s.db.pages
    ensures b in s.hist && s.hist[b].commits <= 1
    ensures s.hist[b].commits == 1 <==> b in s.db.pages
  {
    ReachableInv(s);
    assert RowInv(s, b);
  }

  /** The clean-up DELETE inside a claim never removes a row. */
  lemma ClaimDeletesNothing(s: System, b: BuildId, owner: string, leaseFor: int)
    requires Reachable(s) && Eligible(s.db, b)
    ensures Claim(s.db, b, owner, leaseFor).pages == s.db.pages
  {
    LeaseInvariant(s, b);
  }

  ghost predicate Closed(s: System, b: BuildId) {
    b in s.db.builds && s.db.builds[b].IsTerminal()
  }

  /** No lease step touches a terminal row: it has no lease, and workers have names. */
  lemma TerminalRowIsLeftAlone(s: System, e: Event, b: BuildId)
    requires KeysInv(s) && Closed(s, b) && s.db.builds[b].leaseOwner == ""
    requires e.Beat? || e.Retry? || e.GiveBack?
    ensures Closed(Step(s, e), b)
  {
  }

  lemma TerminalRowIsNotClaimed(s: System, e: Event, b: BuildId)
    requires Closed(s, b) && e.ClaimOne?
    ensures Closed(Step(s, e), b)
  {
  }

  lemma TerminalRowIsRewrittenTerminal(s: System, e: Event, b: BuildId)
    requires Closed(s, b)
    requires e.Compile? || e.CommitDraft? || e.Close? || e.Tick? || e.Sync? || e.MakeActive?
    ensures Closed(Step(s, e), b)
  {
  }

  lemma TerminalStep(s: System, e: Event, b: BuildId)
    requires Inv(s) && Closed(s, b)
    ensures Closed(Step(s, e), b)
  {
    if e.Request? {
      Enqueue.CreatesExactlyWhen(s.db, e.req);
      NewIdIsFresh(s);
    } else if e.Insert? {
      NewIdIsFresh(s);
    } else if e.ClaimOne? {
      TerminalRowIsNotClaimed(s, e, b);
    } else if e.Beat? || e.Retry? || e.GiveBack? {
      assert RowInv(s, b);
      TerminalRowIsLeftAlone(s, e, b);
    } else {
      TerminalRowIsRewrittenTerminal(s, e, b);
    }
  }

  /** Finished is for good. */
  lemma {:induction false} TerminalIsAbsorbing(s: System, events: seq<Event>, b: BuildId)
    requires Inv(s) && Closed(s, b)
    ensures Closed(Run(s, events), b)
    decreases |events|
  {
    if events != [] {
      StepKeepsInv(s, events[0]);
      TerminalStep(s, events[0], b);
      TerminalIsAbsorbing(Step(s, events[0]), events[1..], b);
    }
  }

  // ---------------------------------------------------------------------------------------
  // The attempt budget.
  // ---------------------------------------------------------------------------------------

  /** The counter is claims minus refunds, within bounds; so claims never outrun the budget by more
      than the refunds. */
  lemma AttemptBudget(s: System, b: BuildId)
    requires Reachable(s) && b in s.db.builds
    ensures b in s.hist
    ensures s.db.builds[b].attempt == s.hist[b].claims - s.hist[b].refunds
    ensures 0 <= s.db.builds[b].attempt <= s.db.builds[b].maxAttempts
    ensures s.hist[b].claims <= s.db.builds[b].maxAttempts + s.hist[b].refunds
  {
    ReachableInv(s);
    assert RowInv(s, b);
  }

  /** A yield that takes effect refunds an attempt that was really spent, and is the first refund
      since the claim it undoes. */
  lemma RefundOncePerClaim(s: System, b: BuildId, owner: string)
    requires Reachable(s) && b in s.db.builds && b in s.hist
    requires StepGiveBack(s, b, owner) != s
    ensures !s.hist[b].refundedSinceClaim
    ensures StepGiveBack(s, b, owner).db.builds[b].attempt == s.db.builds[b].attempt - 1
    ensures StepGiveBack(StepGiveBack(s, b, owner), b, owner) == StepGiveBack(s, b, owner)
  {
    ReachableInv(s);
    assert RowInv(s, b);
  }

  /** A claim retires the build exactly when the budget and all refunds are used up. */
  lemma ClaimRetiresExactlyWhenSpent(s: System, b: BuildId, owner: string, leaseFor: int)
    requires Reachable(s) && Eligible(s.db, b) && b in s.hist && owner != ""
    ensures var s' := StepClaim(s, b, owner, leaseFor);
      if s.hist[b].claims == s.db.builds[b].maxAttempts + s.hist[b].refunds then
        s'.db.builds[b].status == Failed && s'.hist == s.hist
      else
        s'.db.builds[b].status == Running && s'.hist[b].claims == s.hist[b].claims + 1
        && s'.db.builds[b].leaseOwner == owner
  {
    ReachableInv(s);
    assert RowInv(s, b);
  }

  // ---------------------------------------------------------------------------------------
  // The label of a committed build.
  // ---------------------------------------------------------------------------------------

  /** A worker that once claimed the build finishes it, and it has committed pages by then. */
  ghost predicate FinishesCommitted(s: System, e: Event, b: BuildId) {
    e.Close? && e.build == b && (b, e.owner) in s.claimants && b in s.db.pages
  }

  ghost predicate FinishedAfterCommit(s: System, events: seq<Event>, b: BuildId)
    decreases |events|
  {
    events != [] && (FinishesCommitted(s, events[0], b) || FinishedAfterCommit(Step(s, events[0]), events[1..], b))
  }

  ghost predicate LabelHolds(s: System, b: BuildId) {
    b in s.db.pages ==> b in s.db.builds && s.db.builds[b].status == Succeeded
  }

  /** FinishBuild by a worker that once claimed the build is harmless to the label if and only if the build has no
      committed pages: the guard the statement lacks. */
  lemma FinishIsHarmlessExactly(s: System, b: BuildId, owner: string, checkStatus: CheckStatus)
    requires Reachable(s) && (b, owner) in s.claimants
    ensures LabelHolds(Step(s, Close(b, owner, checkStatus)), b) <==> b !in s.db.pages
  {
    ReachableInv(s);
  }

  lemma FinishMarksHistory(s: System, b: BuildId, owner: string, checkStatus: CheckStatus, c: BuildId)
    requires KeysInv(s) && c in s.hist
    ensures var s' := StepClose(s, b, owner, checkStatus);
      && c in s'.hist
      && (s'.hist[c].relabelled <==>
            s.hist[c].relabelled || FinishesCommitted(s, Close(b, owner, checkStatus), c))
  {
  }

  lemma OtherStepsMarkNothing(s: System, e: Event, c: BuildId)
    requires !e.Close? && !e.Request? && !e.Insert? && c in s.hist
    ensures c in Step(s, e).hist && Step(s, e).hist[c].relabelled == s.hist[c].relabelled
    ensures Step(s, e).hist.Keys == s.hist.Keys
  {
  }

  lemma NewBuildMarksNothing(s: System, input: NewBuild, c: BuildId)
    requires s.db.nextId !in s.hist && c in WithNewBuild(s, input).hist
    ensures WithNewBuild(s, input).hist[c].relabelled <==> c in s.hist && s.hist[c].relabelled
  {
  }

  lemma RequestMarksNothing(s: System, req: Enqueue.CompileRequest, c: BuildId)
    requires s.db.nextId !in s.hist && c in StepRequest(s, req).hist
    ensures StepRequest(s, req).hist[c].relabelled <==> c in s.hist && s.hist[c].relabelled
  {
    if Enqueue.EnqueueCompile(s.db, req).1.Created? {
      RequestCreates(s, req);
      NewBuildMarksNothing(s, Enqueue.InputFor(s.db, req), c);
    }
  }

  lemma KeysGrow(s: System, e: Event)
    requires Inv(s)
    ensures s.hist.Keys <= Step(s, e).hist.Keys && s.hist.Keys == s.db.builds.Keys
    ensures s.db.nextId !in s.hist
  {
    StepKeepsInv(s, e);
    NewIdIsFresh(s);
  }

  /** The history bit is set by exactly these steps. */
  lemma StepMarksExactly(s: System, e: Event, c: BuildId)
    requires Inv(s) && c in Step(s, e).hist
    ensures Step(s, e).hist[c].relabelled <==>
      (c in s.hist && s.hist[c].relabelled) || FinishesCommitted(s, e, c)
  {
    KeysGrow(s, e);
    match e {
      case Request(req) => RequestMarksNothing(s, req, c);
      case Insert(input) =>
        if IsInput(s.db, input) {
          NewBuildMarksNothing(s, input, c);
        }
      case Close(b, owner, checkStatus) => FinishMarksHistory(s, b, owner, checkStatus, c);
      case _ => StepKeepsKeys(s, e); OtherStepsMarkNothing(s, e, c);
    }
  }

  lemma StepKeepsKeys(s: System, e: Event)
    requires !e.Request? && !e.Insert?
    ensures Step(s, e).hist.Keys == s.hist.Keys
  {
  }

  lemma {:induction false} RunMarksExactly(s: System, events: seq<Event>, c: BuildId)
    requires Inv(s) && c in Run(s, events).hist
    ensures Run(s, events).hist[c].relabelled <==>
      (c in s.hist && s.hist[c].relabelled) || FinishedAfterCommit(s, events, c)
    decreases |events|
  {
    if events != [] {
      var s' := Step(s, events[0]);
      StepKeepsInv(s, events[0]);
      RunMarksExactly(s', events[1..], c);
      if c in s'.hist {
        StepMarksExactly(s, events[0], c);
      } else {
        KeysGrow(s, events[0]);
      }
    }
  }

  lemma LabelFollowsHistory(s: System, b: BuildId)
    requires Inv(s) && b in s.db.pages
    ensures b in s.db.builds && b in s.hist
    ensures s.db.builds[b].status == Succeeded <==> !s.hist[b].relabelled
    ensures s.db.builds[b].status == Succeeded ==> Activatable(s.db, b)
  {
    assert RowInv(s, b);
  }

  lemma LabelExactFrom(s: System, events: seq<Event>, b: BuildId)
    requires Inv(s) && b in Run(s, events).db.pages
    ensures b in Run(s, events).db.builds
    ensures Run(s, events).db.builds[b].status == Succeeded <==>
      !(b in s.hist && s.hist[b].relabelled) && !FinishedAfterCommit(s, events, b)
  {
    RunKeepsInv(s, events);
    LabelFollowsHistory(Run(s, events), b);
    RunMarksExactly(s, events, b);
  }

  /** In every run a committed build is labelled succeeded if and only if no worker finished it after its commit. */
  lemma CommittedLabelExact(profiles: map<string, Profile>, events: seq<Event>, b: BuildId)
    requires b in Run(Init(profiles), events).db.pages
    ensures b in Run(Init(profiles), events).db.builds
    ensures Run(Init(profiles), events).db.builds[b].status == Succeeded <==>
      !FinishedAfterCommit(Init(profiles), events, b)
  {
    InitInv(profiles);
    LabelExactFrom(Init(profiles), events, b);
  }

  /** Finish as the worker's comments assume it: only by the current lease holder. */
  ghost predicate GuardedClose(s: System, e: Event) {
    e.Close? ==> HoldsRunningLease(s.db, e.build, e.owner)
  }

  ghost predicate GuardedRun(s: System, events: seq<Event>)
    decreases |events|
  {
    events == [] || (GuardedClose(s, events[0]) && GuardedRun(Step(s, events[0]), events[1..]))
  }

  lemma GuardedStepFinishesNothing(s: System, e: Event, b: BuildId)
    requires Inv(s) && GuardedClose(s, e)
    ensures !FinishesCommitted(s, e, b)
  {
    if b in s.db.pages {
      assert RowInv(s, b);
    }
  }

  lemma {:induction false} GuardedRunFinishesNothing(s: System, events: seq<Event>, b: BuildId)
    requires Inv(s) && GuardedRun(s, events)
    ensures !FinishedAfterCommit(s, events, b)
    decreases |events|
  {
    if events != [] {
      StepKeepsInv(s, events[0]);
      GuardedStepFinishesNothing(s, events[0], b);
      GuardedRunFinishesNothing(Step(s, events[0]), events[1..], b);
    }
  }

  /** Under that discipline every committed build, the active ones among them, is labelled
      succeeded in every run. */
  lemma GuardedRunKeepsLabels(s: System, events: seq<Event>, b: BuildId)
    requires Inv(s) && GuardedRun(s, events) && b in Run(s, events).db.pages
    requires b in s.db.pages ==> LabelHolds(s, b)
    ensures LabelHolds(Run(s, events), b)
  {
    GuardedRunFinishesNothing(s, events, b);
    LabelExactFrom(s, events, b);
    if b in s.hist {
      assert RowInv(s, b);
    }
  }

  lemma CommitAndActivate(s: System, d: Draft)
    requires d in s.drafts && CommitOutcome(s.db, d.build, d.owner, d.pages) == Committed
    requires d.build in s.hist && d.build !in s.db.pages
    ensures var s2 := s.(db := Activate(StepCommit(s, d).db, d.build));
      && d.build in s2.db.builds && d.build in s2.db.pages
      && s2.db.active == s.db.active[s2.db.builds[d.build].source := d.build]
      && s2.db.pages[d.build] == StorePages(d.build, d.pages)
  {
    assert [] + StorePages(d.build, d.pages) == StorePages(d.build, d.pages);
    assert Activatable(StepCommit(s, d).db, d.build);
  }

  /** Without it the label goes wrong: any process that once claimed the build, the committer or another, may mark
      the active wiki's build failed. Its pages stay. */
  lemma StaleFinishRelabelsActiveBuild(s: System, d: Draft, stale: string, checkStatus: CheckStatus)
    requires Inv(s) && d in s.drafts && CommitOutcome(s.db, d.build, d.owner, d.pages) == Committed
    requires (d.build, stale) in s.claimants
    ensures RelabelledWhileActive(Run(s, [CommitDraft(d), MakeActive(d.build), Close(d.build, stale, checkStatus)]), d)
  {
    CommitIsFirst(s, d);
    RelabelAfterCommit(s, d, stale, checkStatus);
    RunThree(s, CommitDraft(d), MakeActive(d.build), Close(d.build, stale, checkStatus));
  }

  ghost predicate RelabelledWhileActive(s: System, d: Draft) {
    && d.build in s.db.builds && d.build in s.db.pages
    && s.db.builds[d.build].source in s.db.active
    && s.db.active[s.db.builds[d.build].source] == d.build
    && s.db.builds[d.build].status == Failed
    && s.db.pages[d.build] == StorePages(d.build, d.pages)
  }

  lemma RelabelAfterCommit(s: System, d: Draft, stale: string, checkStatus: CheckStatus)
    requires d in s.drafts && CommitOutcome(s.db, d.build, d.owner, d.pages) == Committed
    requires d.build in s.hist && d.build !in s.db.pages && (d.build, stale) in s.claimants
    ensures RelabelledWhileActive(
      Step(Step(Step(s, CommitDraft(d)), MakeActive(d.build)), Close(d.build, stale, checkStatus)), d)
  {
    CommitAndActivate(s, d);
  }

  lemma RunThree(s: System, a: Event, b: Event, c: Event)
    ensures Run(s, [a, b, c]) == Step(Step(Step(s, a), b), c)
  {
    assert [a, b, c][1..] == [b, c] && [b, c][1..] == [c] && [c][1..] == [];
    assert Run(s, [a, b, c]) == Run(Step(s, a), [b, c]);
    assert Run(Step(s, a), [b, c]) == Run(Step(Step(s, a), b), [c]);
  }
}
