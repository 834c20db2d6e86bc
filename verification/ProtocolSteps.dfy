/** Every step of the build protocol keeps the invariant and takes nothing committed away. */
module ProtocolSteps {
  import opened Assembly
  import opened BuildStore
  import opened Check
  import opened Incremental
  import opened IncrementalBuild
  import opened IncrementalProperties
  import opened Lists
  import opened Ordering
  import opened Protocol
  import opened Wiki
  import opened Wrappers
  import Enqueue

  /** The invariant still holds and nothing committed was changed. */
  ghost predicate Kept(s: System, s': System) {
    Inv(s') && Extends(s.db, s'.db)
  }

  /** The step changed one build's queue columns and history, nothing else. */
  ghost predicate TouchesRow(s: System, s': System, b: BuildId, row: Build, h: Hist) {
    && b in s.db.builds && b in s.hist
    && SameInputs(s.db.builds[b], row)
    && s'.db == s.db.(builds := s.db.builds[b := row])
    && s'.hist == s.hist[b := h]
    && s'.drafts == s.drafts
    && s.claimants <= s'.claimants
    && forall k | k in s'.claimants - s.claimants :: k.0 == b && k.1 != ""
  }

  lemma RowUpdateExtends(s: System, s': System, b: BuildId, row: Build, h: Hist)
    requires TouchesRow(s, s', b, row, h)
    ensures Extends(s.db, s'.db)
  {
  }

  lemma RowUpdateKeepsRows(s: System, s': System, b: BuildId, row: Build, h: Hist)
    requires Inv(s) && TouchesRow(s, s', b, row, h)
    requires RowInv(s', b)
    ensures forall c | c in s'.db.builds :: c in s'.hist && RowInv(s', c) && LineageInv(s'.db, c)
  {
    RowUpdateExtends(s, s', b, row, h);
    forall c | c in s'.db.builds
      ensures RowInv(s', c) && LineageInv(s'.db, c)
    {
      assert c in s.db.builds && RowInv(s, c);
      ExtendsLineage(s.db, s'.db, c);
    }
  }

  lemma RowUpdateKeepsInv(s: System, s': System, b: BuildId, row: Build, h: Hist)
    requires Inv(s) && TouchesRow(s, s', b, row, h)
    requires RowInv(s', b)
    ensures Kept(s, s')
  {
    RowUpdateExtends(s, s', b, row, h);
    RowUpdateKeepsRows(s, s', b, row, h);
    KeepDrafts(s, s');
    KeepCommitted(s, s');
    RowUpdateKeepsActive(s, s', b, row, h);
    assert Inv(s');
  }

  lemma RowUpdateKeepsActive(s: System, s': System, b: BuildId, row: Build, h: Hist)
    requires KeysInv(s) && ActiveInv(s) && TouchesRow(s, s', b, row, h)
    ensures KeysInv(s') && ActiveInv(s')
  {
  }

  lemma KeepDrafts(s: System, s': System)
    requires Inv(s) && Extends(s.db, s'.db) && s'.drafts == s.drafts && s.claimants <= s'.claimants
    ensures forall d | d in s'.drafts :: DraftInv(s'.db, d) && (d.build, d.owner) in s'.claimants
  {
    forall d | d in s'.drafts
      ensures DraftInv(s'.db, d)
    {
      ExtendsDraft(s.db, s'.db, d);
    }
  }

  lemma KeepCommitted(s: System, s': System)
    requires Inv(s) && s'.db.pages == s.db.pages && s.drafts <= s'.drafts
    ensures forall b | b in s'.db.pages :: exists d :: CommittedAs(s', b, d)
  {
    forall b | b in s'.db.pages
      ensures exists d :: CommittedAs(s', b, d)
    {
      var d :| CommittedAs(s, b, d);
      assert CommittedAs(s', b, d);
    }
  }

  lemma RetireStep(s: System, b: BuildId)
    requires Inv(s) && Eligible(s.db, b)
    ensures var s' := s.(db := s.db.(builds := s.db.builds[b :=
              s.db.builds[b].(status := Failed, leaseOwner := "", leaseExpires := None)]));
      Kept(s, s')
  {
    var row := s.db.builds[b].(status := Failed, leaseOwner := "", leaseExpires := None);
    var s' := s.(db := s.db.(builds := s.db.builds[b := row]));
    assert RowInv(s, b);
    assert s'.hist == s.hist[b := s.hist[b]];
    RowUpdateKeepsInv(s, s', b, row, s.hist[b]);
  }

  lemma LeaseRowStep(s: System, b: BuildId, owner: string, leaseFor: int)
    requires Inv(s) && Eligible(s.db, b) && owner != ""
    requires s.db.builds[b].attempt < s.db.builds[b].maxAttempts
    ensures b !in s.db.pages
    ensures var s' := StepClaim(s, b, owner, leaseFor); Kept(s, s')
  {
    assert RowInv(s, b);
    LeaseTouchesRow(s, b, owner, leaseFor);
    RowUpdateKeepsInv(s, StepClaim(s, b, owner, leaseFor), b, Leased(s.db, b, owner, leaseFor), Claimed(s.hist[b]));
  }

  function Leased(db: Db, b: BuildId, owner: string, leaseFor: int): Build
    requires b in db.builds
  {
    db.builds[b].(status := Running, attempt := db.builds[b].attempt + 1,
                  leaseOwner := owner, leaseExpires := Some(db.now + leaseFor))
  }

  function Claimed(h: Hist): Hist { h.(claims := h.claims + 1, refundedSinceClaim := false) }

  lemma LeaseTouchesRow(s: System, b: BuildId, owner: string, leaseFor: int)
    requires Eligible(s.db, b) && owner != "" && b in s.hist && b !in s.db.pages
    requires s.db.builds[b].attempt < s.db.builds[b].maxAttempts
    ensures TouchesRow(s, StepClaim(s, b, owner, leaseFor), b, Leased(s.db, b, owner, leaseFor), Claimed(s.hist[b]))
  {
    assert s.db.pages - {b} == s.db.pages;
  }

  lemma ClaimStep(s: System, b: BuildId, owner: string, leaseFor: int)
    requires Inv(s)
    ensures Kept(s, Step(s, ClaimOne(b, owner, leaseFor)))
  {
    if owner != "" && Eligible(s.db, b) {
      if s.db.builds[b].attempt >= s.db.builds[b].maxAttempts {
        RetireStep(s, b);
      } else {
        LeaseRowStep(s, b, owner, leaseFor);
      }
    }
  }

  lemma LeaseStep(s: System, s': System, b: BuildId, owner: string)
    requires Inv(s) && (b, owner) in s.claimants
    requires (exists n :: s' == s.(db := Heartbeat(s.db, b, owner, n)))
          || (exists n :: s' == s.(db := Requeue(s.db, b, owner, n)))
    ensures Kept(s, s')
  {
    assert owner != "" && b in s.db.builds && RowInv(s, b);
    if HoldsLease(s.db, b, owner) {
      assert s'.hist == s.hist[b := s.hist[b]];
      if s'.db != s.db {
        RowUpdateKeepsInv(s, s', b, s'.db.builds[b], s'.hist[b]);
      }
    }
  }

  lemma GiveBackStep(s: System, b: BuildId, owner: string)
    requires Inv(s)
    ensures Kept(s, Step(s, GiveBack(b, owner)))
  {
    var s' := StepGiveBack(s, b, owner);
    if (b, owner) in s.claimants && HoldsRunningLease(s.db, b, owner) {
      assert RowInv(s, b);
      RowUpdateKeepsInv(s, s', b, s'.db.builds[b], s'.hist[b]);
    }
  }

  lemma CloseStep(s: System, b: BuildId, owner: string, checkStatus: CheckStatus)
    requires Inv(s)
    ensures Kept(s, Step(s, Close(b, owner, checkStatus)))
  {
    var s' := StepClose(s, b, owner, checkStatus);
    if (b, owner) in s.claimants && b in s.hist {
      assert RowInv(s, b);
      RowUpdateKeepsInv(s, s', b, s'.db.builds[b], s'.hist[b]);
    }
  }

  /** Only the clock, the revisions or the active pointers move. */
  ghost predicate KeepsBuilds(s: System, s': System) {
    && s' == s.(db := s'.db)
    && s'.db.builds == s.db.builds && s'.db.pages == s.db.pages
    && s'.db.profiles == s.db.profiles && s'.db.nextId == s.db.nextId
    && forall r | r in s.db.revisions :: r in s'.db.revisions && s'.db.revisions[r] == s.db.revisions[r]
  }

  lemma KeepsBuildsKeepsInv(s: System, s': System)
    requires Inv(s) && KeepsBuilds(s, s') && ActiveInv(s')
    ensures Kept(s, s')
  {
    assert Extends(s.db, s'.db);
    forall b | b in s'.db.builds
      ensures RowInv(s', b) && LineageInv(s'.db, b)
    {
      assert RowInv(s, b);
      ExtendsLineage(s.db, s'.db, b);
    }
    KeepDrafts(s, s');
    KeepCommitted(s, s');
  }

  lemma ActivateStep(s: System, b: BuildId)
    requires Inv(s)
    ensures var s' := s.(db := Activate(s.db, b)); Kept(s, s')
  {
    var s' := s.(db := Activate(s.db, b));
    if Activatable(s.db, b) {
      assert RowInv(s, b);
    }
    KeepsBuildsKeepsInv(s, s');
  }

  /** What was an input once stays one. */
  lemma InputLasts(db: Db, db': Db, input: NewBuild)
    requires Extends(db, db') && IsInput(db, input)
    ensures IsInput(db', input)
  {
  }

  lemma NewIdIsFresh(s: System)
    requires Inv(s)
    ensures s.db.nextId !in s.db.builds && s.db.nextId !in s.db.pages
    ensures forall k | k in s.claimants :: k.0 != s.db.nextId
  {
    assert forall c | c in s.db.builds :: LineageInv(s.db, c);
  }

  lemma NewRowInv(s: System, input: NewBuild)
    requires Inv(s) && IsInput(s.db, input)
    ensures RowInv(WithNewBuild(s, input), s.db.nextId) && LineageInv(WithNewBuild(s, input).db, s.db.nextId)
  {
    NewIdIsFresh(s);
    if input.parent.Some? {
      assert LineageInv(s.db, input.parent.value);
    }
  }

  lemma CreateExtends(s: System, input: NewBuild)
    requires s.db.nextId !in s.db.builds
    ensures Extends(s.db, WithNewBuild(s, input).db)
  {
  }

  lemma CreateKeepsRows(s: System, input: NewBuild)
    requires Inv(s) && IsInput(s.db, input)
    ensures forall c | c in WithNewBuild(s, input).db.builds ::
      c in WithNewBuild(s, input).hist && RowInv(WithNewBuild(s, input), c) && LineageInv(WithNewBuild(s, input).db, c)
  {
    var s' := WithNewBuild(s, input);
    NewIdIsFresh(s);
    NewRowInv(s, input);
    CreateExtends(s, input);
    forall c | c in s.db.builds
      ensures RowInv(s', c) && LineageInv(s'.db, c)
    {
      assert RowInv(s, c);
      ExtendsLineage(s.db, s'.db, c);
    }
  }

  lemma CreateKeepsActive(s: System, input: NewBuild)
    requires KeysInv(s) && ActiveInv(s) && s.db.nextId !in s.db.builds
    ensures KeysInv(WithNewBuild(s, input)) && ActiveInv(WithNewBuild(s, input))
  {
  }

  lemma CreateStep(s: System, input: NewBuild)
    requires Inv(s) && IsInput(s.db, input)
    ensures Kept(s, WithNewBuild(s, input))
  {
    var s' := WithNewBuild(s, input);
    NewIdIsFresh(s);
    CreateExtends(s, input);
    CreateKeepsRows(s, input);
    CreateKeepsActive(s, input);
    KeepDrafts(s, s');
    KeepCommitted(s, s');
    assert Inv(s');
  }

  /** A request that queues a build settled on such inputs. */
  lemma RequestInput(s: System, req: Enqueue.CompileRequest)
    requires Inv(s) && Enqueue.EnqueueCompile(s.db, req).1.Created?
    ensures req.source in s.db.activeRevision && IsInput(s.db, Enqueue.InputFor(s.db, req))
  {
    Enqueue.CreatesExactlyWhen(s.db, req);
    var parent := Enqueue.InputFor(s.db, req).parent;
    if parent.Some? {
      assert parent.value in Enqueue.SucceededOf(s.db, req.source);
      assert RowInv(s, parent.value);
    }
  }

  lemma RequestCreates(s: System, req: Enqueue.CompileRequest)
    requires Enqueue.EnqueueCompile(s.db, req).1.Created?
    ensures req.source in s.db.activeRevision
    ensures StepRequest(s, req) == WithNewBuild(s, Enqueue.InputFor(s.db, req))
  {
    Enqueue.CreatesExactlyWhen(s.db, req);
  }

  lemma RequestReuses(db: Db, req: Enqueue.CompileRequest)
    requires !Enqueue.EnqueueCompile(db, req).1.Created?
    ensures Enqueue.EnqueueCompile(db, req).0 == db || exists b :: Enqueue.EnqueueCompile(db, req).0 == Activate(db, b)
  {
  }

  lemma ReuseStep(s: System, req: Enqueue.CompileRequest)
    requires Inv(s) && !Enqueue.EnqueueCompile(s.db, req).1.Created?
    ensures Kept(s, s.(db := Enqueue.EnqueueCompile(s.db, req).0))
  {
    RequestReuses(s.db, req);
    if b :| Enqueue.EnqueueCompile(s.db, req).0 == Activate(s.db, b) {
      ActivateStep(s, b);
    } else {
      assert s.(db := s.db) == s;
    }
  }

  lemma RequestStep(s: System, req: Enqueue.CompileRequest)
    requires Inv(s)
    ensures Kept(s, Step(s, Request(req)))
  {
    if Enqueue.EnqueueCompile(s.db, req).1.Created? {
      RequestInput(s, req);
      RequestCreates(s, req);
      CreateStep(s, Enqueue.InputFor(s.db, req));
    } else {
      ReuseStep(s, req);
    }
  }

  // ---------------------------------------------------------------------------------------
  // Compile and commit.
  // ---------------------------------------------------------------------------------------

  lemma WrittenPageProvenance(db: Db, b: BuildId, q: WikiPage)
    requires b in db.builds && FromCompiler(q, DocsOf(db, b))
    ensures Provenance(db, b, q) && ResolvedIds(DocsOf(db, b), q)
  {
  }

  lemma CopiedPageProvenance(db: Db, b: BuildId, loaded: seq<WikiPage>, q: WikiPage)
    requires b in db.builds && LineageInv(db, b) && db.builds[b].parent.Some?
    requires db.builds[db.builds[b].parent.value].identity == db.builds[b].identity
    requires multiset(loaded) == multiset(PagesOf(db, db.builds[b].parent.value))
    requires FreshCopy(q, ParentOf(db, db.builds[b].parent.value, loaded), DocsOf(db, b))
    ensures Provenance(db, b, q) && ResolvedIds(DocsOf(db, b), q)
  {
    SameElements(loaded, PagesOf(db, db.builds[b].parent.value));
    var p :| p in loaded && CopyOf(q, p);
    assert SameText(q, p);
  }

  lemma MergedPageProvenance(db: Db, c: Compilation, q: WikiPage)
    requires c.build in db.builds && LineageInv(db, c.build) && Compiles(db, c)
    requires db.builds[c.build].mode != Full && q in c.result.pages
    ensures Provenance(db, c.build, q) && ResolvedIds(DocsOf(db, c.build), q)
  {
    var build, docs := db.builds[c.build], DocsOf(db, c.build);
    var parent := ParentOf(db, build.parent.value, c.loaded);
    WrittenIsFromCompiler(c.reply, docs, c.compiled);
    IncrementalKeepsOnlyFreshCopies(c.result, parent, docs, c.compiled, DeletionRequests(c.reply), q);
    if q.derivedFrom.None? {
      WrittenPageProvenance(db, c.build, q);
    } else {
      CopiedPageProvenance(db, c.build, c.loaded, q);
    }
  }

  lemma CompiledPageProvenance(db: Db, c: Compilation, q: WikiPage)
    requires c.build in db.builds && LineageInv(db, c.build) && Compiles(db, c)
    requires q in ContentOf(db.builds[c.build].mode, c)
    ensures Provenance(db, c.build, q) && ResolvedIds(DocsOf(db, c.build), q)
  {
    if db.builds[c.build].mode == Full {
      WrittenIsFromCompiler(Map(c.reply, WithoutFlag()), DocsOf(db, c.build), c.compiled);
      WrittenPageProvenance(db, c.build, q);
    } else {
      MergedPageProvenance(db, c, q);
    }
  }

  lemma GeneratedPageProvenance(db: Db, b: BuildId, q: WikiPage)
    requires b in db.builds && q.citations == [] && q.derivedFrom.None?
    ensures Provenance(db, b, q) && ResolvedIds(DocsOf(db, b), q)
  {
  }

  lemma ContentProvenance(db: Db, c: Compilation)
    requires c.build in db.builds && LineageInv(db, c.build) && Compiles(db, c)
    ensures forall q | q in ContentOf(db.builds[c.build].mode, c) ::
      Provenance(db, c.build, q) && ResolvedIds(DocsOf(db, c.build), q)
  {
    forall q | q in ContentOf(db.builds[c.build].mode, c)
      ensures Provenance(db, c.build, q) && ResolvedIds(DocsOf(db, c.build), q)
    {
      CompiledPageProvenance(db, c, q);
    }
  }

  lemma WithGeneratedPages(db: Db, b: BuildId, content: seq<WikiPage>, index: WikiPage, log: WikiPage)
    requires b in db.builds
    requires index.citations == [] && index.derivedFrom.None? && log.citations == [] && log.derivedFrom.None?
    requires forall q | q in content :: Provenance(db, b, q) && ResolvedIds(DocsOf(db, b), q)
    ensures forall q | q in content + [index, log] :: Provenance(db, b, q) && ResolvedIds(DocsOf(db, b), q)
  {
    GeneratedPageProvenance(db, b, index);
    GeneratedPageProvenance(db, b, log);
  }

  lemma GeneratedPagesOf(s: System, c: Compilation)
    requires CanCompile(s, c)
    ensures c.build in s.db.builds && Compiles(s.db, c) && (c.build, c.owner) in s.claimants
    ensures c.index.citations == [] && c.index.derivedFrom.None? && c.log.citations == [] && c.log.derivedFrom.None?
  {
  }

  lemma DraftPassedGate(s: System, c: Compilation)
    requires CanCompile(s, c)
    ensures PassedGate(s.db, c.build, DraftOf(s.db.builds[c.build].mode, c).pages)
  {
    var input := GateInput(s.db, s.db.builds[c.build].mode,
                           s.db.profiles[s.db.builds[c.build].identity.profileVersionId], c);
    assert WellFormed(CheckInput(input.profile, input.pages, input.knownDocumentPaths,
                                 input.parentPageCount, input.totalTokens, input.incremental));
  }

  lemma CompileStep(s: System, c: Compilation)
    requires Inv(s) && CanCompile(s, c)
    ensures c.build in s.db.builds && (c.build, c.owner) in s.claimants
    ensures DraftInv(s.db, DraftOf(s.db.builds[c.build].mode, c))
  {
    GeneratedPagesOf(s, c);
    assert LineageInv(s.db, c.build);
    DraftPassedGate(s, c);
    ContentProvenance(s.db, c);
    WithGeneratedPages(s.db, c.build, ContentOf(s.db.builds[c.build].mode, c), c.index, c.log);
  }

  /** The worker that may commit is the one whose name is on a running lease, so nothing was
      committed before. */
  lemma CommitIsFirst(s: System, d: Draft)
    requires Inv(s) && d in s.drafts && CommitOutcome(s.db, d.build, d.owner, d.pages) == Committed
    ensures s.db.builds[d.build].status == Running && d.build !in s.db.pages && s.hist[d.build].commits == 0
    ensures StepCommit(s, d).db.pages == s.db.pages[d.build := StorePages(d.build, d.pages)]
  {
    assert (d.build, d.owner) in s.claimants && RowInv(s, d.build);
    assert [] + StorePages(d.build, d.pages) == StorePages(d.build, d.pages);
  }

  lemma CommitExtends(s: System, d: Draft)
    requires d.build !in s.db.pages
    ensures Extends(s.db, StepCommit(s, d).db)
  {
  }

  lemma CommitKeepsRows(s: System, d: Draft)
    requires Inv(s) && d in s.drafts && CommitOutcome(s.db, d.build, d.owner, d.pages) == Committed
    ensures forall c | c in s.db.builds :: RowInv(StepCommit(s, d), c) && LineageInv(StepCommit(s, d).db, c)
  {
    var s' := StepCommit(s, d);
    CommitIsFirst(s, d);
    CommitExtends(s, d);
    forall c | c in s.db.builds
      ensures RowInv(s', c) && LineageInv(s'.db, c)
    {
      assert RowInv(s, c);
      ExtendsLineage(s.db, s'.db, c);
    }
  }

  lemma CommitKeepsCommitted(s: System, d: Draft, b: BuildId)
    requires Inv(s) && d in s.drafts && CommitOutcome(s.db, d.build, d.owner, d.pages) == Committed
    requires b in StepCommit(s, d).db.pages
    ensures exists e :: CommittedAs(StepCommit(s, d), b, e)
  {
    CommitIsFirst(s, d);
    if b == d.build {
      assert CommittedAs(StepCommit(s, d), b, d);
    } else {
      var e :| CommittedAs(s, b, e);
      assert CommittedAs(StepCommit(s, d), b, e);
    }
  }

  lemma CommitKeepsActive(s: System, d: Draft)
    requires KeysInv(s) && ActiveInv(s) && d.build in s.hist
    ensures KeysInv(StepCommit(s, d)) && ActiveInv(StepCommit(s, d))
  {
  }

  lemma CommitStep(s: System, d: Draft)
    requires Inv(s)
    ensures Kept(s, StepCommit(s, d))
  {
    var s' := StepCommit(s, d);
    if d in s.drafts && CommitOutcome(s.db, d.build, d.owner, d.pages) == Committed {
      CommitIsFirst(s, d);
      CommitExtends(s, d);
      CommitKeepsRows(s, d);
      forall b | b in s'.db.pages
        ensures exists e :: CommittedAs(s', b, e)
      {
        CommitKeepsCommitted(s, d, b);
      }
      CommitKeepsActive(s, d);
      KeepDrafts(s, s');
      assert Inv(s');
    }
  }

  lemma BeatStep(s: System, b: BuildId, owner: string, leaseFor: int)
    requires Inv(s)
    ensures Kept(s, Step(s, Beat(b, owner, leaseFor)))
  {
    if (b, owner) in s.claimants {
      LeaseStep(s, s.(db := Heartbeat(s.db, b, owner, leaseFor)), b, owner);
    }
  }

  lemma RetryStep(s: System, b: BuildId, owner: string, retryIn: int)
    requires Inv(s)
    ensures Kept(s, Step(s, Retry(b, owner, retryIn)))
  {
    if (b, owner) in s.claimants {
      LeaseStep(s, s.(db := Requeue(s.db, b, owner, retryIn)), b, owner);
    }
  }

  lemma InsertStep(s: System, input: NewBuild)
    requires Inv(s)
    ensures Kept(s, Step(s, Insert(input)))
  {
    if IsInput(s.db, input) {
      CreateStep(s, input);
    }
  }

  lemma DraftStep(s: System, c: Compilation)
    requires Inv(s)
    ensures Kept(s, Step(s, Compile(c)))
  {
    if CanCompile(s, c) {
      var d := DraftOf(s.db.builds[c.build].mode, c);
      CompileStep(s, c);
      AddDraft(s, d);
    }
  }

  lemma AddDraft(s: System, d: Draft)
    requires Inv(s) && DraftInv(s.db, d) && (d.build, d.owner) in s.claimants
    ensures Kept(s, s.(drafts := s.drafts + {d}))
  {
    var s' := s.(drafts := s.drafts + {d});
    KeepCommitted(s, s');
    forall b | b in s'.db.builds
      ensures RowInv(s', b)
    {
      assert RowInv(s, b);
    }
  }

  lemma TickStep(s: System, seconds: nat)
    requires Inv(s)
    ensures Kept(s, Step(s, Tick(seconds)))
  {
    var s' := Step(s, Tick(seconds));
    assert KeepsBuilds(s, s') && s'.db.active == s.db.active;
    KeepsBuildsKeepsInv(s, s');
  }

  lemma SyncStep(s: System, source: string, revision: string, files: StoredDocuments)
    requires Inv(s)
    ensures Kept(s, Step(s, Sync(source, revision, files)))
  {
    SyncKeepsBuilds(s, source, revision, files);
    KeepsBuildsKeepsInv(s, Step(s, Sync(source, revision, files)));
  }

  lemma SyncKeepsBuilds(s: System, source: string, revision: string, files: StoredDocuments)
    ensures KeepsBuilds(s, s.(db := SyncRevision(s.db, source, revision, files)))
    ensures SyncRevision(s.db, source, revision, files).active == s.db.active
  {
  }

  /** The invariant survives every step, and nothing committed is changed by one. */
  lemma StepKeepsInv(s: System, e: Event)
    requires Inv(s)
    ensures Kept(s, Step(s, e))
  {
    match e {
      case Tick(seconds) => TickStep(s, seconds);
      case Sync(source, revision, files) => SyncStep(s, source, revision, files);
      case Request(req) => RequestStep(s, req);
      case Insert(input) => InsertStep(s, input);
      case ClaimOne(b, owner, leaseFor) => ClaimStep(s, b, owner, leaseFor);
      case Beat(b, owner, leaseFor) => BeatStep(s, b, owner, leaseFor);
      case Retry(b, owner, retryIn) => RetryStep(s, b, owner, retryIn);
      case GiveBack(b, owner) => GiveBackStep(s, b, owner);
      case Compile(c) => DraftStep(s, c);
      case CommitDraft(d) => CommitStep(s, d);
      case Close(b, owner, checkStatus) => CloseStep(s, b, owner, checkStatus);
      case MakeActive(b) => ActivateStep(s, b);
    }
  }

  /** Every run keeps the invariant and extends what it started from. */
  lemma {:induction false} RunKeepsInv(s: System, events: seq<Event>)
    requires Inv(s)
    ensures Kept(s, Run(s, events))
    decreases |events|
  {
    if events != [] {
      StepKeepsInv(s, events[0]);
      RunKeepsInv(Step(s, events[0]), events[1..]);
      ExtendsTransitive(s.db, Step(s, events[0]).db, Run(s, events).db);
    }
  }

  lemma InitInv(profiles: map<string, Profile>)
    ensures Inv(Init(profiles))
  {
  }
}
