/** The whole build protocol as a transition system: any number of worker processes that may
    crash, stall, be partitioned or shut down between any two transactions.

    A worker's compile is its own step: it reads the tables, and leaves a finished draft in the
    worker's memory that may be committed at any later time, or never. A crash is the absence
    of further steps. A request either runs without interruption, or its last statement inserts a
    build whose inputs were read at an earlier moment. Which step a worker takes when is left open,
    so every schedule the code can produce is a run here. */
module Protocol {
  import opened Assembly
  import opened BuildStore
  import opened Check
  import opened Incremental
  import opened IncrementalBuild
  import opened IncrementalProperties
  import opened Wiki
  import opened Wrappers
  import Enqueue

  /** Pages that passed the gate and wait in a worker's memory. */
  datatype Draft = Draft(owner: string, build: BuildId, pages: seq<WikiPage>, reusedCount: nat)

  /** What happened to one build so far; no transaction reads it. */
  datatype Hist = Hist(claims: nat, refunds: nat, commits: nat, refundedSinceClaim: bool, relabelled: bool)

  datatype System = System(db: Db, hist: map<BuildId, Hist>, claimants: set<(BuildId, string)>, drafts: set<Draft>)

  /** One execution of the compile half of RunBuild. */
  datatype Compilation = Compilation(
    build: BuildId, owner: string, loaded: seq<WikiPage>, reply: seq<RawPage>, compiled: seq<WikiPage>,
    result: IncrementalResult, index: WikiPage, log: WikiPage, parentPageCount: nat, totalTokens: int)

  datatype Event =
    | Tick(seconds: nat)
    | Sync(source: string, revision: string, files: StoredDocuments)
    | Request(req: Enqueue.CompileRequest)
    | Insert(input: NewBuild)
    | ClaimOne(build: BuildId, owner: string, leaseFor: int)
    | Beat(build: BuildId, owner: string, leaseFor: int)
    | Retry(build: BuildId, owner: string, retryIn: int)
    | GiveBack(build: BuildId, owner: string)
    | Compile(c: Compilation)
    | CommitDraft(draft: Draft)
    | Close(build: BuildId, owner: string, checkStatus: CheckStatus)
    | MakeActive(build: BuildId)

  // ---------------------------------------------------------------------------------------
  // Compiling.
  // ---------------------------------------------------------------------------------------

  function DocsOf(db: Db, b: BuildId): Documents {
    if b in db.builds && db.builds[b].revision in db.revisions then db.revisions[db.builds[b].revision].Docs()
    else map[]
  }

  function PagesOf(db: Db, b: BuildId): seq<WikiPage> {
    if b in db.pages then db.pages[b] else []
  }

  function ParentOf(db: Db, parent: BuildId, loaded: seq<WikiPage>): Parent {
    Parent(parent, loaded, DocsOf(db, parent))
  }

  /** The content pages a compile ends with (RunBuild, lines 232-245). */
  ghost predicate Compiles(db: Db, c: Compilation)
    requires c.build in db.builds
  {
    var build := db.builds[c.build];
    var docs := DocsOf(db, c.build);
    if build.mode == Full then
      IsPathOrdering(c.compiled, FullPages(c.reply, docs)) && c.compiled != []
    else
      && IsPathOrdering(c.compiled, WrittenPages(c.reply, docs))
      && build.parent.Some? && build.parent.value in db.builds
      && db.builds[build.parent.value].identity == build.identity
      && IsLoad(c.loaded, PagesOf(db, build.parent.value))
      && IsIncremental(
           c.result, ParentOf(db, build.parent.value, c.loaded), docs, c.compiled, DeletionRequests(c.reply))
      && (c.reply == [] ==> c.result.plan.diff.IsEmpty())
  }

  function ContentOf(mode: Mode, c: Compilation): seq<WikiPage> {
    if mode == Full then c.compiled else c.result.pages
  }

  function GateInput(db: Db, mode: Mode, profile: Profile, c: Compilation): CheckInput {
    CheckInput(profile, ContentOf(mode, c) + [c.index, c.log], DocsOf(db, c.build).Keys,
               c.parentPageCount, c.totalTokens, if mode == Full then None else Some(c.result.plan))
  }

  /** A compile produces a draft only for a build its owner once claimed, from a revision that has
      documents, and only past the gate. */
  ghost predicate CanCompile(s: System, c: Compilation) {
    && (c.build, c.owner) in s.claimants
    && c.build in s.db.builds
    && DocsOf(s.db, c.build) != map[]
    && s.db.builds[c.build].identity.profileVersionId in s.db.profiles
    && Compiles(s.db, c)
    && var mode := s.db.builds[c.build].mode;
       && IsIndexOf(c.index, ContentOf(mode, c)) && IsLogPage(c.log)
       && WellFormed(GateInput(s.db, mode, s.db.profiles[s.db.builds[c.build].identity.profileVersionId], c))
  }

  function DraftOf(mode: Mode, c: Compilation): Draft {
    Draft(c.owner, c.build, ContentOf(mode, c) + [c.index, c.log], if mode == Full then 0 else c.result.reusedCount)
  }

  // ---------------------------------------------------------------------------------------
  // Steps. A step that is not enabled leaves the system alone.
  // ---------------------------------------------------------------------------------------

  function SyncRevision(db: Db, source: string, revision: string, files: StoredDocuments): Db {
    if revision !in db.revisions then
      db.(revisions := db.revisions[revision := Revision(source, files)],
          activeRevision := db.activeRevision[source := revision])
    else if db.revisions[revision].source == source then
      db.(activeRevision := db.activeRevision[source := revision])
    else db
  }

  ghost function StepRequest(s: System, req: Enqueue.CompileRequest): System {
    var (db, outcome) := Enqueue.EnqueueCompile(s.db, req);
    if outcome.Created? then s.(db := db, hist := s.hist[s.db.nextId := Hist(0, 0, 0, false, false)])
    else s.(db := db)
  }

  /** The inputs of a build some request may have settled on, then or at any earlier moment: the revision exists,
      and the parent is a committed build of the same source. */
  ghost predicate IsInput(db: Db, input: NewBuild) {
    && input.revision in db.revisions
    && (input.parent.Some? ==>
          && input.parent.value in db.builds && input.parent.value in db.pages
          && db.builds[input.parent.value].source == input.source)
  }

  ghost function WithNewBuild(s: System, input: NewBuild): System {
    s.(db := CreateBuild(s.db, input), hist := s.hist[s.db.nextId := Hist(0, 0, 0, false, false)])
  }

  function StepClaim(s: System, b: BuildId, owner: string, leaseFor: int): System {
    if owner == "" || !Eligible(s.db, b) || b !in s.hist then s
    else if s.db.builds[b].attempt >= s.db.builds[b].maxAttempts then s.(db := Claim(s.db, b, owner, leaseFor))
    else
      s.(db := Claim(s.db, b, owner, leaseFor),
         hist := s.hist[b := s.hist[b].(claims := s.hist[b].claims + 1, refundedSinceClaim := false)],
         claimants := s.claimants + {(b, owner)})
  }

  function StepGiveBack(s: System, b: BuildId, owner: string): System {
    if (b, owner) !in s.claimants || !HoldsRunningLease(s.db, b, owner) || b !in s.hist then s
    else
      s.(db := Yield(s.db, b, owner),
         hist := s.hist[b := s.hist[b].(refunds := s.hist[b].refunds + 1, refundedSinceClaim := true)])
  }

  ghost function StepCommit(s: System, d: Draft): System {
    if d !in s.drafts || d.build !in s.hist || CommitOutcome(s.db, d.build, d.owner, d.pages) != Committed then s
    else
      s.(db := Commit(s.db, d.build, d.owner, d.pages, d.reusedCount),
         hist := s.hist[d.build := s.hist[d.build].(commits := s.hist[d.build].commits + 1)])
  }

  /** The code only ever finishes a build as failed; whether it still may is not checked. */
  function StepClose(s: System, b: BuildId, owner: string, checkStatus: CheckStatus): System {
    if (b, owner) !in s.claimants || b !in s.hist then s
    else
      s.(db := Finish(s.db, b, Failed, checkStatus),
         hist := s.hist[b := s.hist[b].(relabelled := s.hist[b].relabelled || b in s.db.pages)])
  }

  ghost function StepCompile(s: System, c: Compilation): System {
    if CanCompile(s, c) then s.(drafts := s.drafts + {DraftOf(s.db.builds[c.build].mode, c)}) else s
  }

  ghost function Step(s: System, e: Event): System {
    match e
    case Tick(seconds) => s.(db := s.db.(now := s.db.now + seconds))
    case Sync(source, revision, files) => s.(db := SyncRevision(s.db, source, revision, files))
    case Request(req) => StepRequest(s, req)
    case Insert(input) => if IsInput(s.db, input) then WithNewBuild(s, input) else s
    case ClaimOne(b, owner, leaseFor) => StepClaim(s, b, owner, leaseFor)
    case Beat(b, owner, leaseFor) =>
      if (b, owner) in s.claimants then s.(db := Heartbeat(s.db, b, owner, leaseFor)) else s
    case Retry(b, owner, retryIn) =>
      if (b, owner) in s.claimants then s.(db := Requeue(s.db, b, owner, retryIn)) else s
    case GiveBack(b, owner) => StepGiveBack(s, b, owner)
    case Compile(c) => StepCompile(s, c)
    case CommitDraft(d) => StepCommit(s, d)
    case Close(b, owner, checkStatus) => StepClose(s, b, owner, checkStatus)
    case MakeActive(b) => s.(db := Activate(s.db, b))
  }

  ghost function Init(profiles: map<string, Profile>): System {
    System(Db(0, map[], map[], map[], map[], map[], profiles, 0), map[], {}, {})
  }

  ghost function Run(s: System, events: seq<Event>): System
    decreases |events|
  {
    if events == [] then s else Run(Step(s, events[0]), events[1..])
  }

  // ---------------------------------------------------------------------------------------
  // Invariants.
  // ---------------------------------------------------------------------------------------

  /** The lease, attempt and commit accounting of one build. */
  ghost predicate RowOk(row: Build, h: Hist, committed: bool) {
    && (row.status == Running <==> row.leaseOwner != "")
    && (row.status == Running ==> row.attempt >= 1 && !h.refundedSinceClaim)
    && 0 <= row.attempt <= row.maxAttempts
    && row.attempt == h.claims - h.refunds
    && (committed ==> row.status == Succeeded || row.status == Failed)
    && h.commits == (if committed then 1 else 0)
    && (h.relabelled ==> committed)
    && (committed ==> (row.status == Succeeded <==> !h.relabelled))
    && (row.status == Succeeded ==> committed && row.checkStatus == CheckPassed)
  }

  ghost predicate RowInv(s: System, b: BuildId)
    requires b in s.db.builds && b in s.hist
  {
    RowOk(s.db.builds[b], s.hist[b], b in s.db.pages)
  }

  /** Lineage: a build's inputs exist, and its parent is an earlier committed build of its source. */
  ghost predicate LineageInv(db: Db, b: BuildId)
    requires b in db.builds
  {
    var row := db.builds[b];
    && b < db.nextId
    && row.revision in db.revisions
    && (row.parent.Some? ==> row.parent.value < b && row.parent.value in db.pages
                             && row.parent.value in db.builds && db.builds[row.parent.value].source == row.source)
  }

  ghost predicate SameText(q: WikiPage, p: WikiPage) {
    && q.path == p.path && q.kind == p.kind && q.title == p.title && q.content == p.content
    && |q.citations| == |p.citations|
    && forall i | 0 <= i < |q.citations| :: q.citations[i].(documentId := None) == p.citations[i].(documentId := None)
  }

  /** Written by this build's compiler, or copied from the committed page at the same path of a
      parent with the same compiler identity. */
  ghost predicate Provenance(db: Db, b: BuildId, q: WikiPage)
    requires b in db.builds
  {
    q.derivedFrom.Some? ==>
      && db.builds[b].parent == q.derivedFrom
      && q.derivedFrom.value in db.pages && q.derivedFrom.value in db.builds
      && db.builds[q.derivedFrom.value].identity == db.builds[b].identity
      && StillSupported(q, DocsOf(db, q.derivedFrom.value), DocsOf(db, b))
      && exists p :: p in db.pages[q.derivedFrom.value] && SameText(q, p)
  }

  ghost predicate ResolvedIds(docs: Documents, q: WikiPage) {
    forall c | c in q.citations :: c.documentId == ResolveDocument(docs, c.documentPath)
  }

  /** The gate returned no failure for exactly these pages. */
  ghost predicate PassedGate(db: Db, b: BuildId, pages: seq<WikiPage>)
    requires b in db.builds
  {
    && db.builds[b].identity.profileVersionId in db.profiles
    && exists count, tokens, plan ::
         WellFormed(CheckInput(db.profiles[db.builds[b].identity.profileVersionId], pages, DocsOf(db, b).Keys,
                               count, tokens, plan))
  }

  ghost predicate DraftInv(db: Db, d: Draft) {
    && d.build in db.builds
    && PassedGate(db, d.build, d.pages)
    && forall q | q in d.pages :: Provenance(db, d.build, q) && ResolvedIds(DocsOf(db, d.build), q)
  }

  ghost predicate CommittedAs(s: System, b: BuildId, d: Draft) {
    d in s.drafts && d.build == b && b in s.db.pages && s.db.pages[b] == StorePages(b, d.pages)
  }

  ghost predicate KeysInv(s: System) {
    && s.hist.Keys == s.db.builds.Keys
    && s.db.pages.Keys <= s.db.builds.Keys
    && forall k | k in s.claimants :: k.1 != "" && k.0 in s.db.builds
  }

  ghost predicate ActiveInv(s: System) {
    forall source | source in s.db.active ::
      && s.db.active[source] in s.db.pages && s.db.active[source] in s.db.builds
      && s.db.builds[s.db.active[source]].source == source
  }

  ghost predicate Inv(s: System) {
    && KeysInv(s)
    && (forall b | b in s.db.builds :: RowInv(s, b))
    && (forall b | b in s.db.builds :: LineageInv(s.db, b))
    && (forall d | d in s.drafts :: DraftInv(s.db, d) && (d.build, d.owner) in s.claimants)
    && (forall b | b in s.db.pages :: exists d :: CommittedAs(s, b, d))
    && ActiveInv(s)
  }

  // ---------------------------------------------------------------------------------------
  // What no step takes away.
  // ---------------------------------------------------------------------------------------

  predicate SameInputs(a: Build, b: Build) {
    a.source == b.source && a.revision == b.revision && a.identity == b.identity
    && a.parent == b.parent && a.mode == b.mode && a.maxAttempts == b.maxAttempts
  }

  /** Builds keep their inputs, revisions and committed pages are never changed or removed. */
  ghost predicate Extends(db: Db, db': Db) {
    && (forall b | b in db.builds :: b in db'.builds && SameInputs(db.builds[b], db'.builds[b]))
    && (forall b | b in db.pages :: b in db'.pages && db'.pages[b] == db.pages[b])
    && (forall r | r in db.revisions :: r in db'.revisions && db'.revisions[r] == db.revisions[r])
    && db'.profiles == db.profiles
    && db.nextId <= db'.nextId
  }

  lemma ExtendsTransitive(a: Db, b: Db, c: Db)
    requires Extends(a, b) && Extends(b, c)
    ensures Extends(a, c)
  {
  }

  lemma ExtendsDocs(db: Db, db': Db, b: BuildId)
    requires Extends(db, db') && b in db.builds && LineageInv(db, b)
    ensures DocsOf(db', b) == DocsOf(db, b)
  {
  }

  lemma ExtendsDraft(db: Db, db': Db, d: Draft)
    requires Extends(db, db') && DraftInv(db, d)
    requires forall b | b in db.builds :: LineageInv(db, b)
    ensures DraftInv(db', d)
  {
    ExtendsDocs(db, db', d.build);
    forall q | q in d.pages
      ensures Provenance(db', d.build, q)
    {
      assert Provenance(db, d.build, q);
      if q.derivedFrom.Some? {
        assert LineageInv(db, d.build);
        ExtendsDocs(db, db', q.derivedFrom.value);
      }
    }
  }

  lemma ExtendsLineage(db: Db, db': Db, b: BuildId)
    requires Extends(db, db') && b in db.builds && LineageInv(db, b)
    ensures LineageInv(db', b)
  {
  }
}
