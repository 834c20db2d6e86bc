/** What a lease, and the wait of a retry, protect a build's row from. */
module Leases {
  import opened BuildStore
  import opened Protocol
  import opened ProtocolSteps
  import opened ProtocolTheorems
  import opened Wiki
  import opened Wrappers
  import Enqueue

  lemma ClaimOfDueRow(s: System, b: BuildId, owner: string, leaseFor: int)
    requires owner != "" && b in s.db.builds && b in s.hist
    ensures StepClaim(s, b, owner, leaseFor) == s || IsDue(s.db.builds[b], s.db.now)
    ensures IsDue(s.db.builds[b], s.db.now) ==>
      var row' := StepClaim(s, b, owner, leaseFor).db.builds[b];
      if s.db.builds[b].attempt >= s.db.builds[b].maxAttempts then row'.status == Failed
      else
        && row'.status == Running && row'.leaseOwner == owner
        && row'.leaseExpires == Some(s.db.now + leaseFor) && row'.attempt == s.db.builds[b].attempt + 1
  {
  }

  /** A claim takes effect exactly on a row that is due: it is then leased, or retired. */
  lemma ClaimTakesEffectExactly(s: System, b: BuildId, owner: string, leaseFor: int)
    requires Reachable(s) && owner != "" && b in s.db.builds
    ensures StepClaim(s, b, owner, leaseFor) != s <==> IsDue(s.db.builds[b], s.db.now)
  {
    LeaseInvariant(s, b);
    ClaimOfDueRow(s, b, owner, leaseFor);
  }

  /** The event is not the lease holder acting on the build, and not a finish, which asks for no lease. */
  ghost predicate LeavesToHolder(e: Event, b: BuildId, holder: string) {
    match e
    case Beat(c, owner, _) => c == b ==> owner != holder
    case Retry(c, owner, _) => c == b ==> owner != holder
    case GiveBack(c, owner) => c == b ==> owner != holder
    case CommitDraft(d) => d.build == b ==> d.owner != holder
    case Close(c, _, _) => c != b
    case _ => true
  }

  lemma ClaimLeavesRow(s: System, c: BuildId, owner: string, leaseFor: int, b: BuildId)
    requires b in s.db.builds && !IsDue(s.db.builds[b], s.db.now)
    ensures var db' := StepClaim(s, c, owner, leaseFor).db; b in db'.builds && db'.builds[b] == s.db.builds[b]
  {
  }

  lemma LeaseStepLeavesRow(s: System, e: Event, b: BuildId)
    requires b in s.db.builds && LeavesToHolder(e, b, s.db.builds[b].leaseOwner)
    requires e.Beat? || e.Retry? || e.GiveBack?
    ensures b in Step(s, e).db.builds && Step(s, e).db.builds[b] == s.db.builds[b]
  {
  }

  lemma FinalStepLeavesRow(s: System, e: Event, b: BuildId)
    requires b in s.db.builds && LeavesToHolder(e, b, s.db.builds[b].leaseOwner)
    requires e.CommitDraft? || e.Close?
    ensures b in Step(s, e).db.builds && Step(s, e).db.builds[b] == s.db.builds[b]
  {
  }

  lemma OtherStepLeavesRow(s: System, e: Event, b: BuildId)
    requires b in s.db.builds && (e.Tick? || e.Sync? || e.Compile? || e.MakeActive?)
    ensures b in Step(s, e).db.builds && Step(s, e).db.builds[b] == s.db.builds[b]
  {
  }

  lemma InsertLeavesRow(s: System, input: NewBuild, b: BuildId)
    requires b in s.db.builds && s.db.nextId !in s.db.builds
    ensures b in Step(s, Insert(input)).db.builds && Step(s, Insert(input)).db.builds[b] == s.db.builds[b]
  {
  }

  lemma RequestLeavesRow(s: System, req: Enqueue.CompileRequest, b: BuildId)
    requires b in s.db.builds && s.db.nextId !in s.db.builds
    ensures b in StepRequest(s, req).db.builds && StepRequest(s, req).db.builds[b] == s.db.builds[b]
  {
    Enqueue.CreatesExactlyWhen(s.db, req);
  }

  lemma StepLeavesRow(s: System, e: Event, b: BuildId)
    requires Inv(s) && b in s.db.builds && !IsDue(s.db.builds[b], s.db.now)
    requires LeavesToHolder(e, b, s.db.builds[b].leaseOwner)
    ensures b in Step(s, e).db.builds && Step(s, e).db.builds[b] == s.db.builds[b]
  {
    NewIdIsFresh(s);
    if e.ClaimOne? {
      ClaimLeavesRow(s, e.build, e.owner, e.leaseFor, b);
    } else if e.Beat? || e.Retry? || e.GiveBack? {
      LeaseStepLeavesRow(s, e, b);
    } else if e.CommitDraft? || e.Close? {
      FinalStepLeavesRow(s, e, b);
    } else if e.Request? {
      RequestLeavesRow(s, e.req, b);
    } else if e.Insert? {
      InsertLeavesRow(s, e.input, b);
    } else {
      OtherStepLeavesRow(s, e, b);
    }
  }

  lemma RequestTakesNoTime(s: System, e: Event)
    requires e.Request?
    ensures Step(s, e).db.now == s.db.now
  {
    Enqueue.CreatesExactlyWhen(s.db, e.req);
  }

  lemma StepTakesNoTime(s: System, e: Event)
    requires !e.Request? && !e.Tick?
    ensures Step(s, e).db.now == s.db.now
  {
  }

  lemma TimePasses(s: System, e: Event)
    ensures Step(s, e).db.now == s.db.now + if e.Tick? then e.seconds else 0
  {
    if e.Request? {
      RequestTakesNoTime(s, e);
    } else if !e.Tick? {
      StepTakesNoTime(s, e);
    }
  }

  lemma {:induction false} TimeNeverGoesBack(s: System, events: seq<Event>)
    ensures s.db.now <= Run(s, events).db.now
    decreases |events|
  {
    if events != [] {
      TimePasses(s, events[0]);
      TimeNeverGoesBack(Step(s, events[0]), events[1..]);
    }
  }

  /**
   * As long as a row is not due, nobody but its lease holder changes it, except by finishing
   * it: while a lease is alive no other worker claims, requeues, gives back or commits the
   * build, a requeued build rests until its wait is over, and a finished one for good.
   */
  lemma {:induction false} RowIsProtected(s: System, events: seq<Event>, b: BuildId)
    requires Inv(s) && b in s.db.builds
    requires !IsDue(s.db.builds[b], Run(s, events).db.now)
    requires forall e | e in events :: LeavesToHolder(e, b, s.db.builds[b].leaseOwner)
    ensures b in Run(s, events).db.builds && Run(s, events).db.builds[b] == s.db.builds[b]
    decreases |events|
  {
    if events != [] {
      var next := Step(s, events[0]);
      assert events[0] in events;
      TimePasses(s, events[0]);
      TimeNeverGoesBack(next, events[1..]);
      StepKeepsInv(s, events[0]);
      StepLeavesRow(s, events[0], b);
      RowIsProtected(next, events[1..], b);
    }
  }

  lemma OnlyHolderCommits(db: Db, b: BuildId, other: string, pages: seq<WikiPage>)
    requires b in db.builds && db.builds[b].leaseOwner != other
    ensures CommitOutcome(db, b, other, pages) != Committed
  {
  }

  lemma ClaimIsStep(s: System, b: BuildId, owner: string, leaseFor: int)
    ensures Step(s, ClaimOne(b, owner, leaseFor)) == StepClaim(s, b, owner, leaseFor)
  {
  }

  /** So what a claim leased stays the claimer's until the lease runs out, and nobody else commits it. */
  lemma LeaseIsExclusive(
    s: System, b: BuildId, owner: string, leaseFor: int, events: seq<Event>, other: string, pages: seq<WikiPage>)
    requires Reachable(s) && owner != "" && b in s.db.builds && IsDue(s.db.builds[b], s.db.now)
    requires s.db.builds[b].attempt < s.db.builds[b].maxAttempts
    requires forall e | e in events :: LeavesToHolder(e, b, owner)
    requires Run(StepClaim(s, b, owner, leaseFor), events).db.now < s.db.now + leaseFor
    ensures var db' := Run(StepClaim(s, b, owner, leaseFor), events).db;
      && b in db'.builds && db'.builds[b].status == Running && db'.builds[b].leaseOwner == owner
      && (other != owner ==> CommitOutcome(db', b, other, pages) != Committed)
  {
    ReachableInv(s);
    ClaimIsStep(s, b, owner, leaseFor);
    StepKeepsInv(s, ClaimOne(b, owner, leaseFor));
    ClaimOfDueRow(s, b, owner, leaseFor);
    var next := StepClaim(s, b, owner, leaseFor);
    RowIsProtected(next, events, b);
    if other != owner {
      OnlyHolderCommits(Run(next, events).db, b, other, pages);
    }
  }
}
