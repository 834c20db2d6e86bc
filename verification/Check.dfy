/** The check gate (internal/knowledge/wiki_check.go): the only thing that can stop a build.

    A failure's `detail` sentence is reduced to the name it quotes (`subject`). */
module Check {
  import opened Lists
  import opened Ordering
  import opened Text
  import opened Wiki
  import opened Wrappers

  const CITATION_POLICY_REQUIRED := "required"

  datatype Rule =
    | PathUnique | PageCount | PageCountDrift | TokenBudget
    | ContentNonEmpty | PageKindAllowed | PageSize | CitationRequired | CitationResolvable
    | LinkTypeAllowed | LinkClosed
    | IncrementalCoverage | IncrementalScope | IndexCoverage

  datatype CheckFailure = CheckFailure(rule: Rule, pagePath: string, subject: string)

  datatype Profile = Profile(
    allowedPageKinds: seq<string>, allowedLinkTypes: seq<string>, citationPolicy: string,
    maxPages: int, maxPageChars: int, maxBuildTokens: int, maxPageCountDrift: real)

  datatype RevisionDiff = RevisionDiff(
    added: seq<string>, removed: seq<string>, changed: seq<string>, unchangedCount: nat)
  {
    /** Documents whose content the wiki can no longer rely on; added ones are not among them. */
    function Touched(): seq<string> { changed + removed }

    predicate IsEmpty() { added == [] && removed == [] && changed == [] }
  }

  datatype IncrementalPlan = IncrementalPlan(
    parentBuildId: BuildId, diff: RevisionDiff, scheduled: seq<string>, recompiled: seq<string>,
    reused: seq<string>, deleted: seq<string>, rejected: seq<string>)

  datatype CheckInput = CheckInput(
    profile: Profile, pages: seq<WikiPage>, knownDocumentPaths: set<string>,
    parentPageCount: nat, totalTokens: int, incremental: Option<IncrementalPlan>)

  /** Change as a fraction of the larger count. */
  function RelativeDrift(current: nat, parent: nat): (drift: real)
    ensures 0.0 <= drift <= 1.0
  {
    if parent == 0 then 0.0 else
      var larger := if current > parent then current else parent;
      var delta := if current < parent then parent - current else current - parent;
      assert delta <= larger;
      delta as real / larger as real
  }

  /** Growth and shrinkage between two non-empty wikis are equally suspicious. */
  lemma RelativeDriftSymmetric(a: nat, b: nat)
    requires a > 0 && b > 0
    ensures RelativeDrift(a, b) == RelativeDrift(b, a)
    ensures RelativeDrift(a, b) == 0.0 <==> a == b
  {
    var larger := if a > b then a else b;
    var delta := if a < b then b - a else a - b;
    assert RelativeDrift(a, b) == delta as real / larger as real;
    if delta > 0 {
      assert delta as real / larger as real > 0.0;
    }
  }

  // ---------------------------------------------------------------------------------------
  // What a well-formed build is, said without any loop.
  // ---------------------------------------------------------------------------------------

  predicate IsGenerated(page: WikiPage) {
    page.kind == PAGE_KIND_INDEX || page.kind == PAGE_KIND_LOG
  }

  ghost predicate LinkWellFormed(input: CheckInput, link: Link) {
    link.linkType in input.profile.allowedLinkTypes && link.targetPath in PathsOf(input.pages)
  }

  ghost predicate PageWellFormed(input: CheckInput, page: WikiPage) {
    && TrimSpace(page.content) != ""
    && page.kind in input.profile.allowedPageKinds
    && (input.profile.maxPageChars > 0 ==> |page.content| <= input.profile.maxPageChars)
    && (input.profile.citationPolicy == CITATION_POLICY_REQUIRED && !IsGenerated(page) ==> page.citations != [])
    && (forall c | c in page.citations :: c.documentPath in input.knownDocumentPaths)
    && (forall l | l in page.links :: LinkWellFormed(input, l))
  }

  /** The build did what its plan said. */
  ghost predicate PlanHonoured(plan: IncrementalPlan) {
    && (forall path | path in plan.scheduled :: path in plan.recompiled || path in plan.deleted)
    && plan.rejected == []
    && (forall path | path in plan.deleted :: path in plan.scheduled)
  }

  predicate HasIndex(pages: seq<WikiPage>) {
    exists p | p in pages :: p.kind == PAGE_KIND_INDEX
  }

  function LinkTargets(page: WikiPage): set<string> {
    set l | l in page.links :: l.targetPath
  }

  predicate LinkedFromIndex(pages: seq<WikiPage>, path: string) {
    exists p | p in pages :: p.kind == PAGE_KIND_INDEX && path in LinkTargets(p)
  }

  ghost predicate WellFormed(input: CheckInput) {
    && DistinctPaths(input.pages)
    && (input.profile.maxPages > 0 ==> |input.pages| <= input.profile.maxPages)
    && (input.parentPageCount > 0 && input.profile.maxPageCountDrift > 0.0 ==>
          RelativeDrift(|input.pages|, input.parentPageCount) <= input.profile.maxPageCountDrift)
    && (input.profile.maxBuildTokens > 0 ==> input.totalTokens <= input.profile.maxBuildTokens)
    && (forall p | p in input.pages :: PageWellFormed(input, p))
    && (input.incremental.Some? ==> PlanHonoured(input.incremental.value))
    && (HasIndex(input.pages) ==> forall p | p in input.pages :: IsGenerated(p) || LinkedFromIndex(input.pages, p.path))
  }

  ghost predicate SharedPath(pages: seq<WikiPage>, path: string) {
    exists i, j | 0 <= i < j < |pages| :: pages[i].path == pages[j].path == path
  }

  ghost predicate BuildViolates(input: CheckInput, f: CheckFailure) {
    || (f == CheckFailure(PageCount, "", "") && 0 < input.profile.maxPages < |input.pages|)
    || (&& f == CheckFailure(PageCountDrift, "", "")
        && input.parentPageCount > 0 && input.profile.maxPageCountDrift > 0.0
        && RelativeDrift(|input.pages|, input.parentPageCount) > input.profile.maxPageCountDrift)
    || (f == CheckFailure(TokenBudget, "", "") && 0 < input.profile.maxBuildTokens < input.totalTokens)
  }

  ghost predicate OwnViolates(input: CheckInput, page: WikiPage, f: CheckFailure) {
    || (f == CheckFailure(ContentNonEmpty, page.path, "") && TrimSpace(page.content) == "")
    || (f == CheckFailure(PageKindAllowed, page.path, page.kind) && page.kind !in input.profile.allowedPageKinds)
    || (f == CheckFailure(PageSize, page.path, "") && 0 < input.profile.maxPageChars < |page.content|)
    || (&& f == CheckFailure(CitationRequired, page.path, "")
        && input.profile.citationPolicy == CITATION_POLICY_REQUIRED && !IsGenerated(page) && page.citations == [])
  }

  ghost predicate CitationViolates(input: CheckInput, page: WikiPage, f: CheckFailure) {
    && f == CheckFailure(CitationResolvable, page.path, f.subject)
    && f.subject !in input.knownDocumentPaths
    && exists c | c in page.citations :: c.documentPath == f.subject
  }

  ghost predicate LinkViolates(input: CheckInput, page: WikiPage, f: CheckFailure) {
    || (&& f == CheckFailure(LinkTypeAllowed, page.path, f.subject)
        && f.subject !in input.profile.allowedLinkTypes
        && exists l | l in page.links :: l.linkType == f.subject)
    || (&& f == CheckFailure(LinkClosed, page.path, f.subject)
        && f.subject !in PathsOf(input.pages)
        && exists l | l in page.links :: l.targetPath == f.subject)
  }

  ghost predicate PageViolates(input: CheckInput, page: WikiPage, f: CheckFailure) {
    OwnViolates(input, page, f) || CitationViolates(input, page, f) || LinkViolates(input, page, f)
  }

  ghost predicate PlanViolates(plan: IncrementalPlan, f: CheckFailure) {
    || (&& f == CheckFailure(IncrementalCoverage, f.pagePath, "")
        && f.pagePath in plan.scheduled && f.pagePath !in plan.recompiled && f.pagePath !in plan.deleted)
    || (&& f == CheckFailure(IncrementalScope, f.pagePath, "")
        && (f.pagePath in plan.rejected || (f.pagePath in plan.deleted && f.pagePath !in plan.scheduled)))
  }

  ghost predicate IndexViolates(pages: seq<WikiPage>, page: WikiPage, f: CheckFailure) {
    f == CheckFailure(IndexCoverage, page.path, "") && !IsGenerated(page) && !LinkedFromIndex(pages, page.path)
  }

  /** Exactly which failures a build deserves. */
  ghost predicate Violates(input: CheckInput, f: CheckFailure) {
    || (f == CheckFailure(PathUnique, f.pagePath, "") && SharedPath(input.pages, f.pagePath))
    || BuildViolates(input, f)
    || (exists p | p in input.pages :: PageViolates(input, p, f))
    || (input.incremental.Some? && PlanViolates(input.incremental.value, f))
    || (HasIndex(input.pages) && exists p | p in input.pages :: IndexViolates(input.pages, p, f))
  }

  // ---------------------------------------------------------------------------------------
  // The report, in the order the gate writes it.
  // ---------------------------------------------------------------------------------------

  function FailIf(violated: bool, rule: Rule, pagePath: string, subject: string): (r: seq<CheckFailure>) {
    if violated then [CheckFailure(rule, pagePath, subject)] else []
  }

  function FailEach(rule: Rule): string -> seq<CheckFailure> {
    path => [CheckFailure(rule, path, "")]
  }

  ghost function SharedPaths(pages: seq<WikiPage>): set<string> {
    set path | path in PathsOf(pages) && SharedPath(pages, path)
  }

  function BuildFailures(input: CheckInput): seq<CheckFailure> {
    FailIf(0 < input.profile.maxPages < |input.pages|, PageCount, "", "")
    + FailIf(input.parentPageCount > 0 && input.profile.maxPageCountDrift > 0.0
             && RelativeDrift(|input.pages|, input.parentPageCount) > input.profile.maxPageCountDrift,
             PageCountDrift, "", "")
    + FailIf(0 < input.profile.maxBuildTokens < input.totalTokens, TokenBudget, "", "")
  }

  function CitationFailures(input: CheckInput, path: string): Citation -> seq<CheckFailure> {
    (c: Citation) => FailIf(c.documentPath !in input.knownDocumentPaths, CitationResolvable, path, c.documentPath)
  }

  function LinkFailures(input: CheckInput, path: string): Link -> seq<CheckFailure> {
    (l: Link) =>
      FailIf(l.linkType !in input.profile.allowedLinkTypes, LinkTypeAllowed, path, l.linkType)
      + FailIf(l.targetPath !in PathsOf(input.pages), LinkClosed, path, l.targetPath)
  }

  function OwnFailures(input: CheckInput, page: WikiPage): seq<CheckFailure> {
    FailIf(TrimSpace(page.content) == "", ContentNonEmpty, page.path, "")
    + FailIf(page.kind !in input.profile.allowedPageKinds, PageKindAllowed, page.path, page.kind)
    + FailIf(0 < input.profile.maxPageChars < |page.content|, PageSize, page.path, "")
    + FailIf(input.profile.citationPolicy == CITATION_POLICY_REQUIRED && !IsGenerated(page) && page.citations == [],
             CitationRequired, page.path, "")
  }

  function PageFailures(input: CheckInput): WikiPage -> seq<CheckFailure> {
    (page: WikiPage) =>
      OwnFailures(input, page)
      + FlatMap(page.citations, CitationFailures(input, page.path))
      + FlatMap(page.links, LinkFailures(input, page.path))
  }

  function Unhandled(plan: IncrementalPlan): string -> bool {
    path => path !in plan.recompiled && path !in plan.deleted
  }

  function Unscheduled(plan: IncrementalPlan): string -> bool {
    path => path !in plan.scheduled
  }

  function PlanFailures(incremental: Option<IncrementalPlan>): seq<CheckFailure> {
    match incremental
    case None => []
    case Some(plan) =>
      FlatMap(SortStrings(Filter(plan.scheduled, Unhandled(plan))), FailEach(IncrementalCoverage))
      + FlatMap(SortStrings(plan.rejected + Filter(plan.deleted, Unscheduled(plan))), FailEach(IncrementalScope))
  }

  function IndexFailures(pages: seq<WikiPage>): WikiPage -> seq<CheckFailure> {
    (page: WikiPage) =>
      FailIf(!IsGenerated(page) && !LinkedFromIndex(pages, page.path), IndexCoverage, page.path, "")
  }

  ghost function Report(input: CheckInput, ordered: seq<WikiPage>): seq<CheckFailure> {
    FlatMap(SortedListing(SharedPaths(input.pages)), FailEach(PathUnique))
    + BuildFailures(input)
    + FlatMap(ordered, PageFailures(input))
    + PlanFailures(input.incremental)
    + if HasIndex(input.pages) then FlatMap(ordered, IndexFailures(input.pages)) else []
  }

  // ---------------------------------------------------------------------------------------
  // Soundness and completeness.
  // ---------------------------------------------------------------------------------------

  lemma OwnFailuresExact(input: CheckInput, page: WikiPage, f: CheckFailure)
    ensures f in OwnFailures(input, page) <==> OwnViolates(input, page, f)
  {}

  lemma CitationFailuresExact(input: CheckInput, page: WikiPage, f: CheckFailure)
    ensures f in FlatMap(page.citations, CitationFailures(input, page.path)) <==> CitationViolates(input, page, f)
  {
    forall c: Citation
      ensures f in CitationFailures(input, page.path)(c) <==>
        f == CheckFailure(CitationResolvable, page.path, c.documentPath) && f.subject !in input.knownDocumentPaths
    {
    }
  }

  lemma LinkFailuresExact(input: CheckInput, page: WikiPage, f: CheckFailure)
    ensures f in FlatMap(page.links, LinkFailures(input, page.path)) <==> LinkViolates(input, page, f)
  {
    forall l: Link
      ensures f in LinkFailures(input, page.path)(l) <==>
        || (f == CheckFailure(LinkTypeAllowed, page.path, l.linkType) && f.subject !in input.profile.allowedLinkTypes)
        || (f == CheckFailure(LinkClosed, page.path, l.targetPath) && f.subject !in PathsOf(input.pages))
    {
    }
  }

  lemma PageFailuresExact(input: CheckInput, page: WikiPage, f: CheckFailure)
    ensures f in PageFailures(input)(page) <==> PageViolates(input, page, f)
  {
    OwnFailuresExact(input, page, f);
    CitationFailuresExact(input, page, f);
    LinkFailuresExact(input, page, f);
  }

  lemma PagesReportExact(input: CheckInput, ordered: seq<WikiPage>, f: CheckFailure)
    requires IsPathOrdering(ordered, input.pages)
    ensures f in FlatMap(ordered, PageFailures(input)) <==> exists p | p in input.pages :: PageViolates(input, p, f)
  {
    SameElements(ordered, input.pages);
    forall p
      ensures f in PageFailures(input)(p) <==> PageViolates(input, p, f)
    {
      PageFailuresExact(input, p, f);
    }
  }

  lemma SharedReportExact(input: CheckInput, f: CheckFailure)
    ensures f in FlatMap(SortedListing(SharedPaths(input.pages)), FailEach(PathUnique)) <==>
      f == CheckFailure(PathUnique, f.pagePath, "") && SharedPath(input.pages, f.pagePath)
  {
    FailEachExact(SortedListing(SharedPaths(input.pages)), PathUnique, f);
  }

  lemma FailEachExact(paths: seq<string>, rule: Rule, f: CheckFailure)
    ensures f in FlatMap(paths, FailEach(rule)) <==> f == CheckFailure(rule, f.pagePath, "") && f.pagePath in paths
  {
    forall path: string
      ensures f in FailEach(rule)(path) <==> f == CheckFailure(rule, path, "")
    {
    }
  }

  lemma PlanReportExact(plan: IncrementalPlan, f: CheckFailure)
    ensures f in PlanFailures(Some(plan)) <==> PlanViolates(plan, f)
  {
    FailEachExact(SortStrings(Filter(plan.scheduled, Unhandled(plan))), IncrementalCoverage, f);
    FailEachExact(SortStrings(plan.rejected + Filter(plan.deleted, Unscheduled(plan))), IncrementalScope, f);
  }

  lemma IndexReportExact(pages: seq<WikiPage>, ordered: seq<WikiPage>, f: CheckFailure)
    requires IsPathOrdering(ordered, pages)
    ensures f in FlatMap(ordered, IndexFailures(pages)) <==> exists p | p in pages :: IndexViolates(pages, p, f)
  {
    SameElements(ordered, pages);
    forall p: WikiPage
      ensures f in IndexFailures(pages)(p) <==> IndexViolates(pages, p, f)
    {
    }
  }

  /** The report lists a failure exactly when the build deserves it. */
  lemma ReportExact(input: CheckInput, ordered: seq<WikiPage>, f: CheckFailure)
    requires IsPathOrdering(ordered, input.pages)
    ensures f in Report(input, ordered) <==> Violates(input, f)
  {
    var shared := FlatMap(SortedListing(SharedPaths(input.pages)), FailEach(PathUnique));
    var paged := FlatMap(ordered, PageFailures(input));
    var planned := PlanFailures(input.incremental);
    var indexed := if HasIndex(input.pages) then FlatMap(ordered, IndexFailures(input.pages)) else [];
    assert f in Report(input, ordered) <==>
      f in shared || f in BuildFailures(input) || f in paged || f in planned || f in indexed;
    SharedReportExact(input, f);
    BuildReportExact(input, f);
    PagesReportExact(input, ordered, f);
    if input.incremental.Some? {
      PlanReportExact(input.incremental.value, f);
    }
    if HasIndex(input.pages) {
      IndexReportExact(input.pages, ordered, f);
    }
  }

  lemma BuildReportExact(input: CheckInput, f: CheckFailure)
    ensures f in BuildFailures(input) <==> BuildViolates(input, f)
  {}

  /** Nothing is violated exactly when the build is well-formed. */
  lemma WellFormedExact(input: CheckInput)
    ensures WellFormed(input) <==> forall f :: !Violates(input, f)
  {
    if WellFormed(input) {
      forall f
        ensures !Violates(input, f)
      {
        WellFormedHasNoViolation(input, f);
      }
    }
    if forall f :: !Violates(input, f) {
      NoViolationIsWellFormed(input);
    }
  }

  lemma WellFormedHasNoViolation(input: CheckInput, f: CheckFailure)
    requires WellFormed(input)
    ensures !Violates(input, f)
  {
    forall p | p in input.pages
      ensures !PageViolates(input, p, f)
    {
      PageWellFormedHasNoViolation(input, p, f);
    }
    assert !BuildViolates(input, f);
    assert input.incremental.Some? ==> !PlanViolates(input.incremental.value, f);
  }

  lemma PageWellFormedHasNoViolation(input: CheckInput, p: WikiPage, f: CheckFailure)
    requires PageWellFormed(input, p)
    ensures !PageViolates(input, p, f)
  {
    assert !OwnViolates(input, p, f);
    assert !CitationViolates(input, p, f);
    assert forall l | l in p.links :: LinkWellFormed(input, l);
  }

  lemma NoPageViolation(input: CheckInput, p: WikiPage)
    requires forall f :: !PageViolates(input, p, f)
    ensures PageWellFormed(input, p)
  {
    assert !PageViolates(input, p, CheckFailure(ContentNonEmpty, p.path, ""));
    assert !PageViolates(input, p, CheckFailure(PageKindAllowed, p.path, p.kind));
    assert !PageViolates(input, p, CheckFailure(PageSize, p.path, ""));
    assert !PageViolates(input, p, CheckFailure(CitationRequired, p.path, ""));
    forall c | c in p.citations
      ensures c.documentPath in input.knownDocumentPaths
    {
      assert !PageViolates(input, p, CheckFailure(CitationResolvable, p.path, c.documentPath));
    }
    forall l | l in p.links
      ensures LinkWellFormed(input, l)
    {
      assert !PageViolates(input, p, CheckFailure(LinkTypeAllowed, p.path, l.linkType));
      assert !PageViolates(input, p, CheckFailure(LinkClosed, p.path, l.targetPath));
    }
  }

  lemma HasMember(paths: seq<string>)
    ensures paths != [] ==> exists path :: path in paths
  {
    if paths != [] {
      assert paths[0] in paths;
    }
  }

  lemma NoPlanViolation(plan: IncrementalPlan)
    requires forall f :: !PlanViolates(plan, f)
    ensures PlanHonoured(plan)
  {
    forall path | path in plan.scheduled
      ensures path in plan.recompiled || path in plan.deleted
    {
      assert !PlanViolates(plan, CheckFailure(IncrementalCoverage, path, ""));
    }
    forall path | path in plan.deleted
      ensures path in plan.scheduled
    {
      assert !PlanViolates(plan, CheckFailure(IncrementalScope, path, ""));
    }
    forall path
      ensures path !in plan.rejected
    {
      assert !PlanViolates(plan, CheckFailure(IncrementalScope, path, ""));
    }
    HasMember(plan.rejected);
  }

  lemma NoViolationIsWellFormed(input: CheckInput)
    requires forall f :: !Violates(input, f)
    ensures WellFormed(input)
  {
    forall p | p in input.pages
      ensures PageWellFormed(input, p)
    {
      assert forall f :: PageViolates(input, p, f) ==> Violates(input, f);
      NoPageViolation(input, p);
    }
    if input.incremental.Some? {
      assert forall f :: PlanViolates(input.incremental.value, f) ==> Violates(input, f);
      NoPlanViolation(input.incremental.value);
    }
    assert forall f :: BuildViolates(input, f) ==> Violates(input, f);
    assert !BuildViolates(input, CheckFailure(PageCount, "", ""));
    assert !BuildViolates(input, CheckFailure(PageCountDrift, "", ""));
    assert !BuildViolates(input, CheckFailure(TokenBudget, "", ""));
    forall i, j | 0 <= i < j < |input.pages|
      ensures input.pages[i].path != input.pages[j].path
    {
      assert !Violates(input, CheckFailure(PathUnique, input.pages[i].path, ""));
    }
    forall p | HasIndex(input.pages) && p in input.pages
      ensures IsGenerated(p) || LinkedFromIndex(input.pages, p.path)
    {
      assert !Violates(input, CheckFailure(IndexCoverage, p.path, ""));
    }
  }

  // ---------------------------------------------------------------------------------------
  // The gate as the code runs it.
  // ---------------------------------------------------------------------------------------

  /** How many pages use each path (wiki_check.go:69-72). */
  method CountPaths(pages: seq<WikiPage>) returns (counts: map<string, nat>)
    ensures counts.Keys == PathsOf(pages)
    ensures forall path | path in counts :: counts[path] > 1 <==> SharedPath(pages, path)
  {
    counts := map[];
    for i := 0 to |pages|
      invariant counts.Keys == PathsOf(pages[..i])
      invariant forall path | path in counts :: counts[path] >= 1
      invariant forall path | path in counts :: counts[path] > 1 <==> SharedPath(pages[..i], path)
    {
      var path := pages[i].path;
      assert pages[..i + 1] == pages[..i] + [pages[i]];
      SharedPathSnoc(pages[..i], pages[i]);
      counts := counts[path := if path in counts then counts[path] + 1 else 1];
    }
    assert pages[..|pages|] == pages;
  }

  /** Paths used by more than one page, sorted (wiki_check.go:76-82). */
  method FindDuplicates(pages: seq<WikiPage>, counts: map<string, nat>) returns (duplicates: seq<string>)
    requires counts.Keys == PathsOf(pages)
    requires forall path | path in counts :: counts[path] > 1 <==> SharedPath(pages, path)
    ensures duplicates == SortedListing(SharedPaths(pages))
  {
    var found: set<string> := {};
    var remaining := counts.Keys;
    while remaining != {}
      invariant remaining <= counts.Keys
      invariant forall path :: path in found <==> path in counts.Keys - remaining && counts[path] > 1
      decreases remaining
    {
      var path :| path in remaining;
      if counts[path] > 1 {
        found := found + {path};
      }
      remaining := remaining - {path};
    }
    assert found == SharedPaths(pages);
    duplicates := SortSet(found);
  }

  lemma SharedPathSnoc(pages: seq<WikiPage>, page: WikiPage)
    ensures forall path :: SharedPath(pages + [page], path) <==>
      SharedPath(pages, path) || (path == page.path && path in PathsOf(pages))
  {
    var all := pages + [page];
    forall path
      ensures SharedPath(all, path) <==> SharedPath(pages, path) || (path == page.path && path in PathsOf(pages))
    {
      if SharedPath(pages, path) {
        var i, j :| 0 <= i < j < |pages| && pages[i].path == pages[j].path == path;
        assert all[i].path == all[j].path == path;
      }
      if path == page.path && path in PathsOf(pages) {
        var i :| 0 <= i < |pages| && pages[i].path == path;
        assert all[i].path == all[|pages|].path == path;
      }
    }
  }

  method CheckCitations(input: CheckInput, page: WikiPage) returns (failures: seq<CheckFailure>)
    ensures failures == FlatMap(page.citations, CitationFailures(input, page.path))
  {
    failures := [];
    for i := 0 to |page.citations|
      invariant failures == FlatMap(page.citations[..i], CitationFailures(input, page.path))
    {
      FlatMapSnoc(page.citations, i, CitationFailures(input, page.path));
      if page.citations[i].documentPath !in input.knownDocumentPaths {
        failures := failures + [CheckFailure(CitationResolvable, page.path, page.citations[i].documentPath)];
      }
    }
    assert page.citations[..|page.citations|] == page.citations;
  }

  method CheckLinks(input: CheckInput, pagePaths: set<string>, page: WikiPage) returns (failures: seq<CheckFailure>)
    requires pagePaths == PathsOf(input.pages)
    ensures failures == FlatMap(page.links, LinkFailures(input, page.path))
  {
    failures := [];
    for i := 0 to |page.links|
      invariant failures == FlatMap(page.links[..i], LinkFailures(input, page.path))
    {
      FlatMapSnoc(page.links, i, LinkFailures(input, page.path));
      var link := page.links[i];
      if link.linkType !in input.profile.allowedLinkTypes {
        failures := failures + [CheckFailure(LinkTypeAllowed, page.path, link.linkType)];
      }
      if link.targetPath !in pagePaths {
        failures := failures + [CheckFailure(LinkClosed, page.path, link.targetPath)];
      }
    }
    assert page.links[..|page.links|] == page.links;
  }

  method CheckPage(input: CheckInput, pagePaths: set<string>, page: WikiPage) returns (failures: seq<CheckFailure>)
    requires pagePaths == PathsOf(input.pages)
    ensures failures == PageFailures(input)(page)
  {
    var citationFailures := CheckCitations(input, page);
    var linkFailures := CheckLinks(input, pagePaths, page);
    failures := OwnFailures(input, page) + citationFailures + linkFailures;
  }

  lemma IndexSnoc(pages: seq<WikiPage>, i: nat)
    requires i < |pages|
    ensures HasIndex(pages[..i + 1]) <==> HasIndex(pages[..i]) || pages[i].kind == PAGE_KIND_INDEX
    ensures forall path :: LinkedFromIndex(pages[..i + 1], path) <==>
      LinkedFromIndex(pages[..i], path) || (pages[i].kind == PAGE_KIND_INDEX && path in LinkTargets(pages[i]))
  {
    assert forall p :: p in pages[..i + 1] <==> p in pages[..i] || p == pages[i];
  }

  /** The main loop over pages in path order: every failure a page earns. */
  method CheckPages(input: CheckInput, pagePaths: set<string>, ordered: seq<WikiPage>)
    returns (failures: seq<CheckFailure>)
    requires pagePaths == PathsOf(input.pages)
    ensures failures == FlatMap(ordered, PageFailures(input))
  {
    failures := [];
    for i := 0 to |ordered|
      invariant failures == FlatMap(ordered[..i], PageFailures(input))
    {
      FlatMapSnoc(ordered, i, PageFailures(input));
      var found := CheckPage(input, pagePaths, ordered[i]);
      failures := failures + found;
    }
    assert ordered[..|ordered|] == ordered;
  }

  /** The same loop's other result: what the index pages link to. */
  method CollectIndexTargets(ordered: seq<WikiPage>) returns (hasIndex: bool, indexTargets: set<string>)
    ensures hasIndex == HasIndex(ordered)
    ensures forall path :: path in indexTargets <==> LinkedFromIndex(ordered, path)
  {
    hasIndex, indexTargets := false, {};
    for i := 0 to |ordered|
      invariant hasIndex == HasIndex(ordered[..i])
      invariant forall path :: path in indexTargets <==> LinkedFromIndex(ordered[..i], path)
    {
      IndexSnoc(ordered, i);
      if ordered[i].kind == PAGE_KIND_INDEX {
        hasIndex, indexTargets := true, indexTargets + LinkTargets(ordered[i]);
      }
    }
    assert ordered[..|ordered|] == ordered;
  }

  method CheckIndexCoverage(pages: seq<WikiPage>, ordered: seq<WikiPage>, indexTargets: set<string>)
    returns (failures: seq<CheckFailure>)
    requires forall path :: path in indexTargets <==> LinkedFromIndex(pages, path)
    ensures failures == FlatMap(ordered, IndexFailures(pages))
  {
    failures := [];
    for i := 0 to |ordered|
      invariant failures == FlatMap(ordered[..i], IndexFailures(pages))
    {
      FlatMapSnoc(ordered, i, IndexFailures(pages));
      if !IsGenerated(ordered[i]) && ordered[i].path !in indexTargets {
        failures := failures + [CheckFailure(IndexCoverage, ordered[i].path, "")];
      }
    }
    assert ordered[..|ordered|] == ordered;
  }

  method CheckPlan(incremental: Option<IncrementalPlan>) returns (failures: seq<CheckFailure>)
    ensures failures == PlanFailures(incremental)
  {
    if incremental.None? {
      return [];
    }
    var plan := incremental.value;
    var missing: seq<string> := [];
    for i := 0 to |plan.scheduled|
      invariant missing == Filter(plan.scheduled[..i], Unhandled(plan))
    {
      FilterSnoc(plan.scheduled, i, Unhandled(plan));
      if plan.scheduled[i] in plan.recompiled || plan.scheduled[i] in plan.deleted {
        continue;
      }
      missing := missing + [plan.scheduled[i]];
    }
    assert plan.scheduled[..|plan.scheduled|] == plan.scheduled;
    var stray: seq<string> := [];
    for i := 0 to |plan.deleted|
      invariant stray == Filter(plan.deleted[..i], Unscheduled(plan))
    {
      FilterSnoc(plan.deleted, i, Unscheduled(plan));
      if plan.deleted[i] !in plan.scheduled {
        stray := stray + [plan.deleted[i]];
      }
    }
    assert plan.deleted[..|plan.deleted|] == plan.deleted;
    failures := FlatMap(SortStrings(missing), FailEach(IncrementalCoverage))
      + FlatMap(SortStrings(plan.rejected + stray), FailEach(IncrementalScope));
  }

  ghost predicate IsReport(input: CheckInput, failures: seq<CheckFailure>) {
    exists ordered :: IsPathOrdering(ordered, input.pages) && failures == Report(input, ordered)
  }

  method RunChecks(input: CheckInput) returns (failures: seq<CheckFailure>)
    ensures IsReport(input, failures)
    ensures forall f :: f in failures <==> Violates(input, f)
    ensures failures == [] <==> WellFormed(input)
  {
    var counts := CountPaths(input.pages);
    var duplicates := FindDuplicates(input.pages, counts);
    failures := FlatMap(duplicates, FailEach(PathUnique)) + BuildFailures(input);
    var ordered := SortPagesByPath(input.pages);
    SameElements(ordered, input.pages);
    var pageFailures := CheckPages(input, counts.Keys, ordered);
    var hasIndex, indexTargets := CollectIndexTargets(ordered);
    var planFailures := CheckPlan(input.incremental);
    failures := failures + pageFailures + planFailures;
    if hasIndex {
      var indexFailures := CheckIndexCoverage(input.pages, ordered, indexTargets);
      failures := failures + indexFailures;
    }
    assert failures == Report(input, ordered);
    ReportDecides(input, failures, ordered);
  }

  lemma ReportDecides(input: CheckInput, failures: seq<CheckFailure>, ordered: seq<WikiPage>)
    requires IsPathOrdering(ordered, input.pages) && failures == Report(input, ordered)
    ensures forall f :: f in failures <==> Violates(input, f)
    ensures failures == [] <==> WellFormed(input)
  {
    forall f
      ensures f in failures <==> Violates(input, f)
    {
      ReportExact(input, ordered, f);
    }
    WellFormedExact(input);
    EmptyIffNoMember(failures);
  }

  lemma EmptyIffNoMember(failures: seq<CheckFailure>)
    ensures failures == [] <==> forall f :: f !in failures
  {
    if failures != [] {
      assert failures[0] in failures;
    }
  }

  /** With distinct paths the whole report is the same however the pages were ordered. */
  lemma ReportIgnoresPageOrder(a: CheckInput, b: CheckInput, ra: seq<CheckFailure>, rb: seq<CheckFailure>)
    requires DistinctPaths(a.pages) && multiset(a.pages) == multiset(b.pages)
    requires b == a.(pages := b.pages)
    requires IsReport(a, ra) && IsReport(b, rb)
    ensures ra == rb
  {
    var oa :| IsPathOrdering(oa, a.pages) && ra == Report(a, oa);
    var ob :| IsPathOrdering(ob, b.pages) && rb == Report(b, ob);
    PathOrderingUnique(oa, ob, a.pages);
    ReportIgnoresOrder(a, b, oa);
  }

  lemma ReportIgnoresOrder(a: CheckInput, b: CheckInput, oa: seq<WikiPage>)
    requires DistinctPaths(a.pages) && multiset(a.pages) == multiset(b.pages)
    requires b == a.(pages := b.pages)
    ensures Report(a, oa) == Report(b, oa)
  {
    SameElements(a.pages, b.pages);
    assert PathsOf(a.pages) == PathsOf(b.pages);
    NoSharedPaths(a.pages, b.pages);
    PagesReportIgnoresOrder(a, b, oa);
    IndexReportIgnoresOrder(a.pages, b.pages, oa);
    assert HasIndex(a.pages) == HasIndex(b.pages);
    BuildReportIgnoresOrder(a, b);
  }

  lemma BuildReportIgnoresOrder(a: CheckInput, b: CheckInput)
    requires b == a.(pages := b.pages) && |a.pages| == |b.pages|
    ensures BuildFailures(a) == BuildFailures(b)
  {}

  lemma NoSharedPaths(a: seq<WikiPage>, b: seq<WikiPage>)
    requires DistinctPaths(a) && multiset(a) == multiset(b)
    ensures SharedPaths(a) == {} == SharedPaths(b)
  {
    PermutationKeepsDistinct(a, b);
  }

  lemma PagesReportIgnoresOrder(a: CheckInput, b: CheckInput, ordered: seq<WikiPage>)
    requires b == a.(pages := b.pages) && PathsOf(a.pages) == PathsOf(b.pages)
    ensures FlatMap(ordered, PageFailures(a)) == FlatMap(ordered, PageFailures(b))
  {
    forall p
      ensures PageFailures(a)(p) == PageFailures(b)(p)
    {
      FlatMapCongruent(p.citations, CitationFailures(a, p.path), CitationFailures(b, p.path));
      FlatMapCongruent(p.links, LinkFailures(a, p.path), LinkFailures(b, p.path));
    }
    FlatMapCongruent(ordered, PageFailures(a), PageFailures(b));
  }

  lemma IndexReportIgnoresOrder(a: seq<WikiPage>, b: seq<WikiPage>, ordered: seq<WikiPage>)
    requires forall p :: p in a <==> p in b
    ensures FlatMap(ordered, IndexFailures(a)) == FlatMap(ordered, IndexFailures(b))
  {
    forall path
      ensures LinkedFromIndex(a, path) == LinkedFromIndex(b, path)
    {
    }
    FlatMapCongruent(ordered, IndexFailures(a), IndexFailures(b));
  }

  // ---------------------------------------------------------------------------------------
  // Single rules, on the report itself.
  // ---------------------------------------------------------------------------------------

  lemma QuotientExceeds(delta: nat, larger: nat, limit: real)
    requires larger > 0
    ensures delta as real / larger as real > limit <==> delta as real > limit * larger as real
  {
    var n := larger as real;
    var q := delta as real / n;
    assert q * n == delta as real;
    if q > limit {
      assert (q - limit) * n > 0.0;
    } else {
      assert (limit - q) * n >= 0.0;
    }
  }

  lemma ReportedExactly(input: CheckInput, failures: seq<CheckFailure>, f: CheckFailure)
    requires IsReport(input, failures)
    ensures f in failures <==> Violates(input, f)
  {
    var ordered :| IsPathOrdering(ordered, input.pages) && failures == Report(input, ordered);
    ReportExact(input, ordered, f);
  }

  lemma BuildRuleExact(input: CheckInput, f: CheckFailure)
    requires f.rule.PageCount? || f.rule.PageCountDrift? || f.rule.TokenBudget?
    ensures Violates(input, f) <==> BuildViolates(input, f)
  {
  }

  lemma PageRuleExact(input: CheckInput, f: CheckFailure)
    requires f.rule.ContentNonEmpty? || f.rule.CitationRequired?
    ensures Violates(input, f) <==> exists p | p in input.pages :: OwnViolates(input, p, f)
  {
  }

  lemma IndexRuleExact(input: CheckInput, f: CheckFailure)
    requires f.rule.IndexCoverage?
    ensures Violates(input, f) <==>
      HasIndex(input.pages) && exists p | p in input.pages :: IndexViolates(input.pages, p, f)
  {
  }

  lemma DriftExceeds(current: nat, parent: nat, larger: nat, smaller: nat, limit: real)
    requires larger >= smaller && parent > 0
    requires (larger == current && smaller == parent) || (larger == parent && smaller == current)
    ensures RelativeDrift(current, parent) > limit <==> (larger - smaller) as real > limit * larger as real
  {
    QuotientExceeds(larger - smaller, larger, limit);
  }

  lemma DriftViolatesExactly(input: CheckInput, limit: real, larger: nat, smaller: nat)
    requires larger >= smaller && limit == input.profile.maxPageCountDrift
    requires (larger == |input.pages| && smaller == input.parentPageCount)
          || (larger == input.parentPageCount && smaller == |input.pages|)
    ensures BuildViolates(input, CheckFailure(PageCountDrift, "", "")) <==>
      input.parentPageCount > 0 && limit > 0.0 && (larger - smaller) as real > limit * larger as real
  {
    if input.parentPageCount > 0 {
      DriftExceeds(|input.pages|, input.parentPageCount, larger, smaller, limit);
    }
  }

  /** Drift is reported exactly when the page counts differ by more than the limit's share of the larger count. */
  lemma DriftReportedExactly(
    input: CheckInput, failures: seq<CheckFailure>, limit: real, larger: nat, smaller: nat)
    requires IsReport(input, failures)
    requires larger >= smaller && limit == input.profile.maxPageCountDrift
    requires (larger == |input.pages| && smaller == input.parentPageCount)
          || (larger == input.parentPageCount && smaller == |input.pages|)
    ensures CheckFailure(PageCountDrift, "", "") in failures <==>
      input.parentPageCount > 0 && limit > 0.0 && (larger - smaller) as real > limit * larger as real
  {
    var drift := CheckFailure(PageCountDrift, "", "");
    ReportedExactly(input, failures, drift);
    BuildRuleExact(input, drift);
    DriftViolatesExactly(input, limit, larger, smaller);
  }

  /** The size limits of the build: each is off at zero. */
  lemma LimitsReportedExactly(input: CheckInput, failures: seq<CheckFailure>)
    requires IsReport(input, failures)
    ensures CheckFailure(PageCount, "", "") in failures <==>
      input.profile.maxPages > 0 && |input.pages| > input.profile.maxPages
    ensures CheckFailure(TokenBudget, "", "") in failures <==>
      input.profile.maxBuildTokens > 0 && input.totalTokens > input.profile.maxBuildTokens
  {
    var pages, tokens := CheckFailure(PageCount, "", ""), CheckFailure(TokenBudget, "", "");
    ReportedExactly(input, failures, pages);
    ReportedExactly(input, failures, tokens);
    BuildRuleExact(input, pages);
    BuildRuleExact(input, tokens);
  }

  predicate IsBlank(content: string) {
    forall i | 0 <= i < |content| :: IsSpace(content[i])
  }

  /** A page that is blank. */
  lemma BlankReportedExactly(input: CheckInput, failures: seq<CheckFailure>, path: string)
    requires IsReport(input, failures)
    ensures CheckFailure(ContentNonEmpty, path, "") in failures <==>
      exists p | p in input.pages :: p.path == path && IsBlank(p.content)
  {
    var blank := CheckFailure(ContentNonEmpty, path, "");
    ReportedExactly(input, failures, blank);
    PageRuleExact(input, blank);
    forall p: WikiPage
      ensures OwnViolates(input, p, blank) <==> p.path == path && IsBlank(p.content)
    {
      TrimToEmpty(p.content, IsSpace);
    }
  }

  /** A page without the evidence the profile demands of all pages but the index and the log. */
  lemma UncitedReportedExactly(input: CheckInput, failures: seq<CheckFailure>, path: string)
    requires IsReport(input, failures)
    ensures CheckFailure(CitationRequired, path, "") in failures <==>
      input.profile.citationPolicy == "required" &&
      exists p | p in input.pages :: p.path == path && p.citations == [] && p.kind != "index" && p.kind != "log"
  {
    var bare := CheckFailure(CitationRequired, path, "");
    ReportedExactly(input, failures, bare);
    PageRuleExact(input, bare);
  }

  /** With an index page, each content page no index page links to is reported; without one, none is. */
  lemma CoverageReportedExactly(input: CheckInput, failures: seq<CheckFailure>, path: string)
    requires IsReport(input, failures)
    ensures CheckFailure(IndexCoverage, path, "") in failures <==>
      && (exists i | i in input.pages :: i.kind == "index")
      && (exists p | p in input.pages :: p.path == path && p.kind != "index" && p.kind != "log")
      && forall i, l | i in input.pages && i.kind == "index" && l in i.links :: l.targetPath != path
  {
    var f := CheckFailure(IndexCoverage, path, "");
    ReportedExactly(input, failures, f);
    IndexRuleExact(input, f);
    LinkedFromIndexExact(input.pages, path);
  }

  lemma LinkedFromIndexExact(pages: seq<WikiPage>, path: string)
    ensures LinkedFromIndex(pages, path) <==>
      exists i, l :: i in pages && i.kind == "index" && l in i.links && l.targetPath == path
  {
    if i, l :| i in pages && i.kind == "index" && l in i.links && l.targetPath == path {
      assert path in LinkTargets(i);
    }
  }
}
