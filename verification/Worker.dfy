/**
 * How a worker ends a build (internal/knowledge/wiki_worker.go): which transaction follows
 * a compile, and how long a retry waits.
 */
module Worker {
  import opened BuildStore
  import opened Wiki
  import opened Wrappers

  /** What RunBuild returned. */
  datatype CompileResult = Finished | LostLease | RetryableFailure | FinalFailure

  /** The transaction that follows, if any. */
  datatype Ending = NoWrite | RetryAfter(wait: nat) | GiveBack | MarkFailed

  function Doubled(base: nat, times: nat): nat {
    if times == 0 then base else 2 * Doubled(base, times - 1)
  }

  lemma {:induction false} DoublingGrows(base: nat, fewer: nat, times: nat)
    requires fewer <= times
    ensures Doubled(base, fewer) <= Doubled(base, times)
  {
    if fewer < times {
      DoublingGrows(base, fewer, times - 1);
    }
  }

  function Capped(wait: nat, cap: nat): nat {
    if wait > cap then cap else wait
  }

  /** The wait before attempt `attempt + 1`: the base doubled for each attempt after the first, capped. */
  function WaitFor(base: nat, cap: nat, attempt: int): nat {
    Capped(Doubled(base, if attempt <= 1 then 0 else attempt - 1), cap)
  }

  method Backoff(base: nat, cap: nat, attempt: int) returns (wait: nat)
    ensures wait == WaitFor(base, cap, attempt)
  {
    wait := base;
    var i := 1;
    while i < attempt
      invariant 1 <= i && (i <= attempt || i == 1)
      invariant wait == Doubled(base, i - 1)
    {
      wait := wait * 2;
      if wait >= cap {
        DoublingGrows(base, i, attempt - 1);
        return cap;
      }
      i := i + 1;
    }
    if wait > cap {
      return cap;
    }
  }

  /** Waits never shrink from one attempt to the next and never pass the cap. */
  lemma WaitsGrow(base: nat, cap: nat, attempt: int, later: int)
    requires attempt <= later
    ensures WaitFor(base, cap, attempt) <= WaitFor(base, cap, later) <= cap
  {
    DoublingGrows(base, if attempt <= 1 then 0 else attempt - 1, if later <= 1 then 0 else later - 1);
  }

  /** The first wait is the base, each later one twice the one before, until the cap is reached. */
  lemma WaitDoubles(base: nat, cap: nat, attempt: int)
    ensures attempt <= 1 ==> WaitFor(base, cap, attempt) == if base <= cap then base else cap
    ensures attempt >= 1 ==>
      WaitFor(base, cap, attempt + 1) ==
        if WaitFor(base, cap, attempt) <= cap / 2 then 2 * WaitFor(base, cap, attempt) else cap
  {
  }

  /** The row is written only by a worker that still may: nothing after success or a lost lease; a retry exactly for
      a transient failure with attempts left; otherwise failure, except that a shutdown gives the build back. */
  method EndRun(result: CompileResult, attempt: int, maxAttempts: int, shuttingDown: bool, base: nat, cap: nat)
    returns (ending: Ending)
    ensures ending.NoWrite? <==> result.Finished? || result.LostLease?
    ensures ending.RetryAfter? <==> result.RetryableFailure? && attempt < maxAttempts
    ensures ending.RetryAfter? ==> ending.wait == WaitFor(base, cap, attempt)
    ensures ending.GiveBack? ==> shuttingDown
    ensures ending.MarkFailed? ==>
      !shuttingDown && (result.FinalFailure? || (result.RetryableFailure? && attempt >= maxAttempts))
  {
    match result {
      case Finished => return NoWrite;
      case LostLease => return NoWrite;
      case RetryableFailure =>
        if attempt < maxAttempts {
          var wait := Backoff(base, cap, attempt);
          return RetryAfter(wait);
        }
      case FinalFailure =>
    }
    ending := if shuttingDown then GiveBack else MarkFailed;
  }

  /** One worker process: the slots in use, the builds it would give back on shutdown, and the compiles it runs. */
  class Process {
    const concurrency: nat
    var slots: nat
    var leased: set<BuildId>
    ghost var running: multiset<BuildId>

    ghost predicate Valid()
      reads this
    {
      && slots == |running| <= concurrency
      && forall b | b in leased :: b in running
    }

    /** Shutdown would give back exactly the builds being compiled. */
    ghost predicate TracksAll()
      reads this
    {
      forall b :: b in leased <==> b in running
    }

    constructor (configured: int)
      ensures Valid() && TracksAll() && concurrency > 0
      ensures configured > 0 ==> concurrency == configured
    {
      concurrency := if configured <= 0 then 1 else configured;
      slots := 0;
      leased := {};
      running := multiset{};
    }

    /** Takes a slot before it claims, and puts it back when there was nothing to claim; says whether to go on. */
    method ClaimAndRun(queue: Option<BuildId>) returns (more: bool)
      requires Valid()
      modifies this
      ensures Valid()
      ensures more <==> old(slots) < concurrency && queue.Some?
      ensures running == if more then old(running) + multiset{queue.value} else old(running)
      ensures leased == if more then old(leased) + {queue.value} else old(leased)
      ensures old(TracksAll()) ==> TracksAll()
    {
      if slots >= concurrency {
        return false;
      }
      slots := slots + 1;
      if queue.None? {
        slots := slots - 1;
        return false;
      }
      leased := leased + {queue.value};
      running := running + multiset{queue.value};
      return true;
    }

    /** A compile ends: its slot is free and the build is no longer tracked. If the process had lost the build and
        claimed it again, the second compile goes on untracked: tracking stays complete exactly when it had not. */
    method EndOfRun(b: BuildId)
      requires Valid() && b in running
      modifies this
      ensures Valid()
      ensures running == old(running) - multiset{b} && leased == old(leased) - {b} && slots == old(slots) - 1
      ensures old(TracksAll()) ==> (TracksAll() <==> old(running)[b] == 1)
    {
      assert old(TracksAll()) ==> b in leased;
      leased := leased - {b};
      running := running - multiset{b};
      slots := slots - 1;
      assert b in running <==> old(running)[b] > 1;
      assert forall other | other != b :: other in running <==> other in old(running);
    }

    /** Gives back what is tracked: each tracked build's row is yielded, all other rows and tables stay, and nothing is
        given back that is not being compiled. */
    method Shutdown(repo: Repo, owner: string)
      requires Valid()
      modifies repo
      ensures GaveBack(old(repo.Snapshot()), repo.Snapshot(), leased, owner)
      ensures forall b | b in leased :: b in running
      ensures TracksAll() ==> forall b | b in running :: b in leased
    {
      var pending := leased;
      while pending != {}
        invariant pending <= leased
        invariant GaveBack(old(repo.Snapshot()), repo.Snapshot(), leased - pending, owner)
        decreases pending
      {
        var b :| b in pending;
        GiveBackOne(old(repo.Snapshot()), repo.Snapshot(), leased - pending, b, owner);
        repo.YieldBuild(b, owner);
        pending := pending - {b};
        assert leased - pending == leased - (pending + {b}) + {b};
      }
      assert leased - pending == leased;
    }
  }

  /** The yields of these builds, and nothing else, happened in between. */
  ghost predicate GaveBack(before: Db, after: Db, builds: set<BuildId>, owner: string) {
    && after == before.(builds := after.builds)
    && after.builds.Keys == before.builds.Keys
    && forall b | b in before.builds ::
         after.builds[b] == if b in builds then Yield(before, b, owner).builds[b] else before.builds[b]
  }

  lemma GiveBackOne(before: Db, between: Db, done: set<BuildId>, b: BuildId, owner: string)
    requires GaveBack(before, between, done, owner) && b !in done
    ensures GaveBack(before, Yield(between, b, owner), done + {b}, owner)
  {
    YieldsOneRow(between, b, owner);
    if b in before.builds {
      YieldSeesOneRow(before, between, b, owner);
    }
  }

  lemma YieldsOneRow(db: Db, b: BuildId, owner: string)
    ensures var db' := Yield(db, b, owner);
      && db' == db.(builds := db'.builds) && db'.builds.Keys == db.builds.Keys
      && forall c | c in db.builds && c != b :: db'.builds[c] == db.builds[c]
  {
  }

  lemma YieldSeesOneRow(db: Db, db': Db, b: BuildId, owner: string)
    requires b in db.builds && b in db'.builds && db'.builds[b] == db.builds[b] && db'.now == db.now
    ensures b in Yield(db, b, owner).builds && Yield(db', b, owner).builds[b] == Yield(db, b, owner).builds[b]
  {
  }
}
