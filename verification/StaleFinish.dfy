/** A run from the empty tables in which a stale process marks the active build failed, and the next
    request, covered until then, queues another build: the states the protocol theorems speak of exist. */
module StaleFinish {
  import opened Assembly
  import opened BuildStore
  import opened Check
  import opened Incremental
  import opened IncrementalBuild
  import opened Lists
  import opened Protocol
  import opened ProtocolTheorems
  import opened QuietRuns
  import opened Text
  import opened Wiki
  import opened Wrappers
  import Enqueue

  const SOURCE := "src"
  const REVISION := "r1"
  const DOCUMENT := "a.md"
  const FIRST := "A"
  const SECOND := "B"
  const LEASE: nat := 10

  function Files(): StoredDocuments {
    map[DOCUMENT := StoredDocument("1", "h", true)]
  }

  function TheProfile(): Profile {
    Profile(["concept", PAGE_KIND_INDEX, PAGE_KIND_LOG], [LINK_REFERENCES], CITATION_POLICY_REQUIRED, 0, 0, 0, 0.0)
  }

  function TheIdentity(): Identity {
    Identity("m", "1", "1", "p")
  }

  function TheRequest(): Enqueue.CompileRequest {
    Enqueue.CompileRequest(SOURCE, Full, false, true, TheIdentity(), 3)
  }

  function Raw(): RawPage {
    RawPage("page", "concept", "t", "text", false, [RawCitation(DOCUMENT, "", "claim", "")], [])
  }

  function ContentPage(): WikiPage {
    WikiPage(None, "page", "concept", "t", "text", None, [Citation(Some("1"), DOCUMENT, "", "claim", "")], [])
  }

  function IndexPage(): WikiPage {
    WikiPage(None, INDEX_PATH, PAGE_KIND_INDEX, "Index", "index", None, [],
             [Link(None, "page", LINK_REFERENCES, "")])
  }

  function LogPage(): WikiPage {
    WikiPage(None, LOG_PATH, PAGE_KIND_LOG, "Log", "log", None, [], [])
  }

  function TheCompile(): Compilation {
    Compilation(0, SECOND, [], [Raw()], [ContentPage()],
                IncrementalResult([], 0, IncrementalPlan(0, RevisionDiff([], [], [], 0), [], [], [], [], [])),
                IndexPage(), LogPage(), 0, 0)
  }

  function AllPages(): seq<WikiPage> {
    [ContentPage(), IndexPage(), LogPage()]
  }

  function TheDraft(): Draft {
    Draft(SECOND, 0, AllPages(), 0)
  }

  // ---------------------------------------------------------------------------------------
  // The pages pass the gate.
  // ---------------------------------------------------------------------------------------

  lemma TheDocuments()
    ensures Indexable(Files()) == map[DOCUMENT := Document("1", "h")]
  {
  }

  lemma StartsWithText(s: string)
    requires s != "" && !IsSpace(s[0])
    ensures TrimSpace(s) != ""
  {
    TrimToEmpty(s, IsSpace);
  }

  lemma PathsAreThree()
    ensures PathsOf(AllPages()) == {"page", INDEX_PATH, LOG_PATH}
    ensures DistinctPaths(AllPages())
  {
    assert AllPages()[0].path == "page" && AllPages()[1].path == INDEX_PATH && AllPages()[2].path == LOG_PATH;
  }

  lemma KindsAreAllowed()
    ensures "concept" in TheProfile().allowedPageKinds
    ensures PAGE_KIND_INDEX in TheProfile().allowedPageKinds && PAGE_KIND_LOG in TheProfile().allowedPageKinds
    ensures LINK_REFERENCES in TheProfile().allowedLinkTypes
  {
    var kinds, links := TheProfile().allowedPageKinds, TheProfile().allowedLinkTypes;
    assert kinds[0] == "concept" && kinds[1] == PAGE_KIND_INDEX && kinds[2] == PAGE_KIND_LOG;
    assert links[0] == LINK_REFERENCES;
  }

  /** A profile that only names kinds and link types. */
  ghost predicate Unlimited(profile: Profile) {
    profile.maxPages == 0 && profile.maxPageChars == 0 && profile.maxBuildTokens == 0
  }

  lemma PassesByParts(input: CheckInput, page: WikiPage)
    requires Unlimited(input.profile) && TrimSpace(page.content) != "" && page.kind in input.profile.allowedPageKinds
    requires page.citations != [] || IsGenerated(page)
    requires forall c | c in page.citations :: c.documentPath in input.knownDocumentPaths
    requires forall l | l in page.links :: LinkWellFormed(input, l)
    ensures PageWellFormed(input, page)
  {
  }

  lemma ContentPassesGate(input: CheckInput, page: WikiPage)
    requires input.profile == TheProfile() && input.knownDocumentPaths == {DOCUMENT} && page == ContentPage()
    ensures PageWellFormed(input, page)
  {
    StartsWithText(page.content);
    KindsAreAllowed();
    PassesByParts(input, page);
  }

  lemma IndexPassesGate(input: CheckInput, page: WikiPage)
    requires input.profile == TheProfile() && "page" in PathsOf(input.pages) && page == IndexPage()
    ensures PageWellFormed(input, page)
  {
    StartsWithText(page.content);
    KindsAreAllowed();
    PassesByParts(input, page);
  }

  lemma LogPassesGate(input: CheckInput, page: WikiPage)
    requires input.profile == TheProfile() && page == LogPage()
    ensures PageWellFormed(input, page)
  {
    StartsWithText(page.content);
    KindsAreAllowed();
    PassesByParts(input, page);
  }

  lemma IndexCovers(pages: seq<WikiPage>)
    requires IndexPage() in pages
    ensures LinkedFromIndex(pages, "page")
  {
    assert IndexPage().links[0].targetPath == "page" && IndexPage().links[0] in IndexPage().links;
  }

  lemma GateOpensByParts(input: CheckInput)
    requires Unlimited(input.profile) && DistinctPaths(input.pages)
    requires input.parentPageCount == 0 && input.incremental.None?
    requires forall p | p in input.pages :: PageWellFormed(input, p)
    requires forall p | p in input.pages :: IsGenerated(p) || LinkedFromIndex(input.pages, p.path)
    ensures WellFormed(input)
  {
  }

  lemma PassesGate(input: CheckInput)
    requires input.profile == TheProfile() && input.pages == AllPages() && input.knownDocumentPaths == {DOCUMENT}
    requires input.parentPageCount == 0 && input.incremental.None?
    ensures WellFormed(input)
  {
    PathsAreThree();
    assert IndexPage() == AllPages()[1];
    IndexCovers(AllPages());
    forall p | p in input.pages
      ensures PageWellFormed(input, p) && (IsGenerated(p) || LinkedFromIndex(input.pages, p.path))
    {
      PagePassesGate(input, p);
    }
    GateOpensByParts(input);
  }

  lemma PagePassesGate(input: CheckInput, p: WikiPage)
    requires input.profile == TheProfile() && input.knownDocumentPaths == {DOCUMENT}
    requires "page" in PathsOf(input.pages) && LinkedFromIndex(input.pages, "page")
    requires p in AllPages()
    ensures PageWellFormed(input, p) && (IsGenerated(p) || LinkedFromIndex(input.pages, p.path))
  {
    if p == ContentPage() {
      ContentPassesGate(input, p);
    } else if p == IndexPage() {
      IndexPassesGate(input, p);
    } else {
      LogPassesGate(input, p);
    }
  }

  lemma IndexIsOfContent()
    ensures IsIndexOf(IndexPage(), [ContentPage()])
  {
    var listed := [ContentPage()];
    assert IsIndexListing(listed, [ContentPage()]);
    assert IndexPage().links == Map(listed, IndexLink);
  }

  lemma SingleReply(raw: RawPage, docs: Documents)
    requires Judge(raw.path, raw.delete) == Write && !raw.delete
    ensures FullPages([raw], docs) == [ToPage(docs)(raw)]
  {
    assert Map([raw], WithoutFlag()) == [raw];
    assert [raw][..1] == [raw] && [raw][..0] == [];
    ReplySnoc([raw], 0, docs);
  }

  lemma SingleCitation(raw: RawPage, c: RawCitation, docs: Documents)
    requires raw.citations == [c] && c.documentPath != "" && raw.links == []
    ensures ToPage(docs)(raw).citations == [ToCitation(docs)(c)] && ToPage(docs)(raw).links == []
  {
    assert [c][..1] == [c] && [c][..0] == [];
    FilterSnoc([c], 0, NamesDocument());
  }

  lemma ReplyGivesContent(docs: Documents)
    requires docs == Indexable(Files())
    ensures FullPages([Raw()], docs) == [ContentPage()]
  {
    TheDocuments();
    SingleReply(Raw(), docs);
    SingleCitation(Raw(), Raw().citations[0], docs);
  }

  // ---------------------------------------------------------------------------------------
  // The run, stage by stage.
  // ---------------------------------------------------------------------------------------

  /** What every stage up to the commit has in common. */
  ghost predicate Stage(s: System, status: Status, owner: string, attempt: int, now: int, expires: Option<int>) {
    && s.db.now == now && s.db.nextId == 1
    && s.db.builds.Keys == {0} && s.hist.Keys == {0} && s.db.pages == map[]
    && s.db.revisions == map[REVISION := Revision(SOURCE, Files())]
    && s.db.activeRevision == map[SOURCE := REVISION]
    && s.db.profiles == map["p" := TheProfile()]
    && var row := s.db.builds[0];
       && row.source == SOURCE && row.revision == REVISION && row.identity == TheIdentity()
       && row.parent.None? && row.mode == Full && row.maxAttempts == 3 && row.nextAttemptAt == 0
       && row.status == status && row.leaseOwner == owner && row.attempt == attempt && row.leaseExpires == expires
  }

  ghost function Start(): System {
    Init(map["p" := TheProfile()])
  }

  ghost function Synced(): System {
    Step(Start(), Sync(SOURCE, REVISION, Files()))
  }

  lemma RequestIsCreated(db: Db)
    requires db == Synced().db
    ensures Enqueue.EnqueueCompile(db, TheRequest()).1.Created?
    ensures Enqueue.EnqueueCompile(db, TheRequest()).0
         == CreateBuild(db, NewBuild(SOURCE, REVISION, TheIdentity(), None, Full, 3, true))
  {
    TheDocuments();
    assert DOCUMENT in Indexable(Files());
    assert Enqueue.HasInputs(db, TheRequest());
    assert Enqueue.SameInputs(db, Enqueue.InputFor(db, TheRequest())) == {};
    Enqueue.CreatesExactlyWhen(db, TheRequest());
  }

  lemma AfterRequest(s: System)
    requires s == Step(Synced(), Request(TheRequest()))
    ensures Stage(s, Queued, "", 0, 0, None) && s.claimants == {}
  {
    RequestIsCreated(Synced().db);
  }

  lemma AfterFirstClaim(s: System, s': System)
    requires Stage(s, Queued, "", 0, 0, None) && s.claimants == {}
    requires s' == Step(s, ClaimOne(0, FIRST, LEASE))
    ensures Stage(s', Running, FIRST, 1, 0, Some(10)) && (0, FIRST) in s'.claimants
  {
    assert Eligible(s.db, 0);
    assert s.db.pages - {0} == map[];
  }

  lemma AfterExpiry(s: System, s': System)
    requires Stage(s, Running, FIRST, 1, 0, Some(10)) && (0, FIRST) in s.claimants
    requires s' == Step(s, Tick(LEASE))
    ensures Stage(s', Running, FIRST, 1, 10, Some(10)) && (0, FIRST) in s'.claimants
  {
  }

  lemma AfterSecondClaim(s: System, s': System)
    requires Stage(s, Running, FIRST, 1, 10, Some(10)) && (0, FIRST) in s.claimants
    requires s' == Step(s, ClaimOne(0, SECOND, LEASE))
    ensures Stage(s', Running, SECOND, 2, 10, Some(20)) && (0, FIRST) in s'.claimants && (0, SECOND) in s'.claimants
  {
    assert Eligible(s.db, 0);
    assert s.db.pages - {0} == map[];
  }

  lemma SinglePageIsOrdered(page: WikiPage)
    ensures IsPathOrdering([page], [page])
  {
  }

  lemma CompilesFullByParts(db: Db, c: Compilation)
    requires c.build in db.builds && db.builds[c.build].mode == Full
    requires IsPathOrdering(c.compiled, FullPages(c.reply, DocsOf(db, c.build))) && c.compiled != []
    ensures Compiles(db, c)
  {
  }

  lemma DocumentsAt(s: System, b: BuildId)
    requires b in s.db.builds && s.db.builds[b].revision == REVISION
    requires s.db.revisions == map[REVISION := Revision(SOURCE, Files())]
    ensures DocsOf(s.db, b) == Indexable(Files()) && DocsOf(s.db, b) != map[] && DocsOf(s.db, b).Keys == {DOCUMENT}
  {
    TheDocuments();
    assert DOCUMENT in Indexable(Files());
  }

  lemma CompilesAt(db: Db, c: Compilation)
    requires c.build in db.builds && db.builds[c.build].mode == Full && DocsOf(db, c.build) == Indexable(Files())
    requires c.reply == [Raw()] && c.compiled == [ContentPage()]
    ensures Compiles(db, c)
  {
    ReplyGivesContent(Indexable(Files()));
    SinglePageIsOrdered(ContentPage());
    CompilesFullByParts(db, c);
  }

  lemma CanCompileByParts(s: System, c: Compilation, profile: Profile)
    requires (c.build, c.owner) in s.claimants && c.build in s.db.builds && s.db.builds[c.build].mode == Full
    requires DocsOf(s.db, c.build) != map[] && Compiles(s.db, c)
    requires s.db.builds[c.build].identity.profileVersionId in s.db.profiles
    requires s.db.profiles[s.db.builds[c.build].identity.profileVersionId] == profile
    requires IsIndexOf(c.index, c.compiled) && IsLogPage(c.log)
    requires WellFormed(CheckInput(profile, c.compiled + [c.index, c.log], DocsOf(s.db, c.build).Keys,
                                   c.parentPageCount, c.totalTokens, None))
    ensures CanCompile(s, c)
  {
  }

  lemma CompilesThere(s: System, c: Compilation, profile: Profile)
    requires Stage(s, Running, SECOND, 2, 10, Some(20)) && (0, SECOND) in s.claimants
    requires c.build == 0 && c.owner == SECOND && c.reply == [Raw()] && c.compiled == [ContentPage()]
    requires profile == TheProfile() && IsIndexOf(c.index, c.compiled) && IsLogPage(c.log)
    requires WellFormed(
      CheckInput(profile, c.compiled + [c.index, c.log], {DOCUMENT}, c.parentPageCount, c.totalTokens, None))
    ensures CanCompile(s, c)
  {
    DocumentsAt(s, 0);
    CompilesAt(s.db, c);
    CanCompileByParts(s, c, profile);
  }

  lemma PagesOfCompile(c: Compilation)
    requires c == TheCompile()
    ensures IsIndexOf(c.index, c.compiled) && IsLogPage(c.log) && c.compiled + [c.index, c.log] == AllPages()
    ensures c.compiled == [ContentPage()] && c.reply == [Raw()] && c.build == 0 && c.owner == SECOND
    ensures c.parentPageCount == 0
  {
    IndexIsOfContent();
    assert [ContentPage()] + [IndexPage(), LogPage()] == AllPages();
  }

  lemma TheCompileIsReady(s: System, c: Compilation)
    requires Stage(s, Running, SECOND, 2, 10, Some(20)) && (0, SECOND) in s.claimants
    requires c == TheCompile()
    ensures CanCompile(s, c)
  {
    PagesOfCompile(c);
    PassesGate(
      CheckInput(TheProfile(), c.compiled + [c.index, c.log], {DOCUMENT}, c.parentPageCount, c.totalTokens, None));
    CompilesThere(s, c, TheProfile());
  }

  lemma FullDraft(c: Compilation)
    ensures DraftOf(Full, c) == Draft(c.owner, c.build, c.compiled + [c.index, c.log], 0)
  {
  }

  lemma CompileIsStep(s: System, c: Compilation)
    ensures Step(s, Compile(c)) == StepCompile(s, c)
  {
  }

  lemma CompileLeavesDraft(s: System, c: Compilation, d: Draft)
    requires CanCompile(s, c) && d == DraftOf(s.db.builds[c.build].mode, c)
    ensures StepCompile(s, c) == s.(drafts := s.drafts + {d})
  {
  }

  lemma AfterCompile(s: System, s': System, c: Compilation)
    requires Stage(s, Running, SECOND, 2, 10, Some(20)) && (0, FIRST) in s.claimants && (0, SECOND) in s.claimants
    requires s' == Step(s, Compile(c)) && CanCompile(s, c) && c.build == 0
    ensures Stage(s', Running, SECOND, 2, 10, Some(20)) && (0, FIRST) in s'.claimants
    ensures Draft(c.owner, c.build, c.compiled + [c.index, c.log], 0) in s'.drafts
  {
    FullDraft(c);
    CompileIsStep(s, c);
    CompileLeavesDraft(s, c, DraftOf(Full, c));
  }

  lemma DraftCommits(s: System)
    requires Stage(s, Running, SECOND, 2, 10, Some(20))
    ensures CommitOutcome(s.db, 0, SECOND, AllPages()) == Committed
  {
    PathsAreThree();
    forall p | p in AllPages() ensures Storable(p) {
      assert p == ContentPage() || p == IndexPage() || p == LogPage();
    }
  }

  function ToDraft(): seq<Event> {
    [Sync(SOURCE, REVISION, Files()), Request(TheRequest()), ClaimOne(0, FIRST, LEASE), Tick(LEASE),
     ClaimOne(0, SECOND, LEASE), Compile(TheCompile())]
  }

  lemma {:induction false} RunAppend(s: System, first: seq<Event>, rest: seq<Event>)
    ensures Run(s, first + rest) == Run(Run(s, first), rest)
    decreases |first|
  {
    if first == [] {
      assert first + rest == rest;
    } else {
      RunAppend(Step(s, first[0]), first[1..], rest);
      assert (first + rest)[1..] == first[1..] + rest;
    }
  }

  lemma DraftIsReached(s: System)
    requires s == Run(Start(), ToDraft())
    ensures Reachable(s) && Inv(s)
    ensures Stage(s, Running, SECOND, 2, 10, Some(20)) && (0, FIRST) in s.claimants && TheDraft() in s.drafts
  {
    var s2 := Step(Synced(), Request(TheRequest()));
    var s3 := Step(s2, ClaimOne(0, FIRST, LEASE));
    var s4 := Step(s3, Tick(LEASE));
    var s5 := Step(s4, ClaimOne(0, SECOND, LEASE));
    var s6 := Step(s5, Compile(TheCompile()));
    SixSteps(Start(), ToDraft());
    AfterRequest(s2);
    AfterFirstClaim(s2, s3);
    AfterExpiry(s3, s4);
    AfterSecondClaim(s4, s5);
    TheCompileIsReady(s5, TheCompile());
    PagesOfCompile(TheCompile());
    AfterCompile(s5, s6, TheCompile());
    ReachableInv(s);
  }

  lemma SixSteps(s: System, e: seq<Event>)
    requires |e| == 6
    ensures Run(s, e) == Step(Step(Step(Step(Step(Step(s, e[0]), e[1]), e[2]), e[3]), e[4]), e[5])
  {
    var s3 := Step(Step(Step(s, e[0]), e[1]), e[2]);
    assert e == [e[0], e[1], e[2]] + [e[3], e[4], e[5]];
    RunAppend(s, [e[0], e[1], e[2]], [e[3], e[4], e[5]]);
    RunThree(s, e[0], e[1], e[2]);
    RunThree(s3, e[3], e[4], e[5]);
  }

  function ToRelabelled(): seq<Event> {
    ToDraft() + [CommitDraft(TheDraft()), MakeActive(0), Close(0, FIRST, CheckPending)]
  }

  /** From empty tables: A claims, its lease runs out, B claims, compiles, commits and activates, and A finishes the
      build. The source's active build is then failed, with B's pages in place. */
  lemma StaleFinishHappens()
    ensures FIRST != TheDraft().owner
    ensures Reachable(Run(Start(), ToRelabelled()))
    ensures RelabelledWhileActive(Run(Start(), ToRelabelled()), TheDraft())
  {
    var s := Run(Start(), ToDraft());
    DraftIsReached(s);
    DraftCommits(s);
    StaleFinishRelabelsActiveBuild(s, TheDraft(), FIRST, CheckPending);
    RunAppend(Start(), ToDraft(), [CommitDraft(TheDraft()), MakeActive(0), Close(0, FIRST, CheckPending)]);
  }

  function ToActive(): seq<Event> {
    ToDraft() + [CommitDraft(TheDraft()), MakeActive(0)]
  }

  lemma ActiveIsReached(s: System)
    requires s == Run(Start(), ToActive())
    ensures Reachable(s)
    ensures (0, FIRST) in s.claimants && Enqueue.HasInputs(s.db, TheRequest()) && REVISION in s.db.revisions
    ensures Enqueue.SameInputs(s.db, Enqueue.InputFor(s.db, TheRequest())) == {0}
  {
    var draft := Run(Start(), ToDraft());
    DraftIsReached(draft);
    DraftCommits(draft);
    RunAppend(Start(), ToDraft(), [CommitDraft(TheDraft()), MakeActive(0)]);
    RunTwo(draft, CommitDraft(TheDraft()), MakeActive(0));
    AfterCommit(draft, s);
  }

  /** And the request that the build covered queues a second one after A's finish. */
  lemma AfterThatARequestQueuesAgain(s: System)
    requires s == Run(Start(), ToActive())
    ensures Reachable(s)
    ensures !Enqueue.EnqueueCompile(s.db, TheRequest()).1.Created?
    ensures Enqueue.EnqueueCompile(Step(s, Close(0, FIRST, CheckPending)).db, TheRequest()).1.Created?
  {
    ActiveIsReached(s);
    ReachableInv(s);
    FinishUncovers(s, 0, FIRST, CheckPending, TheRequest());
  }

  lemma SettledEarly(db: Db, input: NewBuild)
    requires db == Synced().db && input == Enqueue.Settled(TheRequest(), REVISION, None)
    ensures Enqueue.EnqueueCompile(db, TheRequest()) == (CreateBuild(db, input), Enqueue.Created(db.nextId))
  {
    RequestIsCreated(db);
    Enqueue.CreatesExactlyWhen(db, TheRequest());
  }

  lemma CoveredInsertDiffers(db: Db, req: Enqueue.CompileRequest, revision: string)
    requires Enqueue.HasInputs(db, req) && req.mode == Full && !req.force
    requires Enqueue.SameInputs(db, Enqueue.InputFor(db, req)) != {}
    ensures CreateBuild(db, Enqueue.Settled(req, revision, None)) != Enqueue.EnqueueCompile(db, req).0
  {
    Enqueue.LateInsertExact(db, req, revision, None);
  }

  lemma InsertIsCreate(s: System, input: NewBuild)
    requires input.revision in s.db.revisions && input.parent.None?
    ensures Step(s, Insert(input)).db == CreateBuild(s.db, input)
  {
  }

  /** A second copy of the request that read its inputs before all that and inserts only now: what it settled on is
      covered by now, and it queues another build where the uninterrupted request would return the first. */
  lemma LateInsertHappens(s: System, input: NewBuild)
    requires s == Run(Start(), ToActive())
    requires input == Enqueue.Settled(TheRequest(), REVISION, None)
    ensures Enqueue.EnqueueCompile(Synced().db, TheRequest()).0 == CreateBuild(Synced().db, input)
    ensures Reachable(Step(s, Insert(input)))
    ensures Step(s, Insert(input)).db == CreateBuild(s.db, input) != Enqueue.EnqueueCompile(s.db, TheRequest()).0
  {
    SettledEarly(Synced().db, input);
    ActiveIsReached(s);
    StepIsReachable(s, Insert(input));
    InsertIsCreate(s, input);
    CoveredInsertDiffers(s.db, TheRequest(), REVISION);
  }

  lemma StepIsReachable(s: System, e: Event)
    requires Reachable(s)
    ensures Reachable(Step(s, e))
  {
    var profiles, events :| s == Run(Init(profiles), events);
    RunAppend(Init(profiles), events, [e]);
    assert Run(s, [e]) == Step(s, e);
  }

  lemma RunTwo(s: System, a: Event, b: Event)
    ensures Run(s, [a, b]) == Step(Step(s, a), b)
  {
    assert [a, b][1..] == [b] && [b][1..] == [];
    assert Run(s, [a, b]) == Run(Step(s, a), [b]);
  }

  lemma CommitMarksRow(s: System, s': System, d: Draft)
    requires d in s.drafts && d.build in s.hist && CommitOutcome(s.db, d.build, d.owner, d.pages) == Committed
    requires s' == Step(s, CommitDraft(d))
    ensures s'.claimants == s.claimants && s'.db.builds.Keys == s.db.builds.Keys
    ensures s'.db.revisions == s.db.revisions && s'.db.activeRevision == s.db.activeRevision
    ensures d.build in s'.db.builds && s'.db.builds[d.build].status == Succeeded
    ensures Protocol.SameInputs(s.db.builds[d.build], s'.db.builds[d.build])
  {
  }

  lemma ActivationKeepsRest(s: System, b: BuildId)
    ensures var s' := Step(s, MakeActive(b));
      && s'.claimants == s.claimants && s'.db.builds == s.db.builds
      && s'.db.revisions == s.db.revisions && s'.db.activeRevision == s.db.activeRevision
  {
  }

  lemma OnlyBuildCovers(db: Db)
    requires db.builds.Keys == {0} && db.builds[0].status == Succeeded
    requires db.builds[0].revision == REVISION && db.builds[0].identity == TheIdentity()
    requires db.builds[0].mode == Full && db.builds[0].parent.None?
    requires db.revisions == map[REVISION := Revision(SOURCE, Files())] && db.activeRevision == map[SOURCE := REVISION]
    ensures Enqueue.HasInputs(db, TheRequest())
    ensures Enqueue.SameInputs(db, Enqueue.InputFor(db, TheRequest())) == {0}
  {
    TheDocuments();
    assert DOCUMENT in Indexable(Files());
    assert 0 in Enqueue.SameInputs(db, Enqueue.InputFor(db, TheRequest()));
  }

  lemma AfterCommit(s: System, s': System)
    requires Stage(s, Running, SECOND, 2, 10, Some(20)) && (0, FIRST) in s.claimants && TheDraft() in s.drafts
    requires CommitOutcome(s.db, 0, SECOND, AllPages()) == Committed
    requires s' == Step(Step(s, CommitDraft(TheDraft())), MakeActive(0))
    ensures (0, FIRST) in s'.claimants && Enqueue.HasInputs(s'.db, TheRequest()) && REVISION in s'.db.revisions
    ensures Enqueue.SameInputs(s'.db, Enqueue.InputFor(s'.db, TheRequest())) == {0}
  {
    var s1 := Step(s, CommitDraft(TheDraft()));
    CommitMarksRow(s, s1, TheDraft());
    ActivationKeepsRest(s1, 0);
    OnlyBuildCovers(s'.db);
  }
}
