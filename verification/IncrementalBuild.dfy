/** One incremental build: plan, scope filtering, reuse and merge
    (internal/knowledge/wiki_incremental.go:190-269 and 333-524). */
module IncrementalBuild {
  import opened Check
  import opened Incremental
  import opened Lists
  import opened Ordering
  import opened Wiki
  import opened Wrappers

  // ---------------------------------------------------------------------------------------
  // The compiler's reply: arbitrary input.
  // ---------------------------------------------------------------------------------------

  datatype RawCitation = RawCitation(documentPath: string, headingPath: string, claim: string, excerpt: string)

  datatype RawLink = RawLink(targetPath: string, linkType: string, note: string)

  datatype RawPage = RawPage(
    path: string, kind: string, title: string, content: string, delete: bool,
    citations: seq<RawCitation>, links: seq<RawLink>)

  function NamesDocument(): RawCitation -> bool { (c: RawCitation) => c.documentPath != "" }

  function NamesTarget(): RawLink -> bool { (l: RawLink) => l.targetPath != "" }

  function ToCitation(docs: Documents): RawCitation -> Citation {
    (c: RawCitation) =>
      Citation(ResolveDocument(docs, c.documentPath), c.documentPath, c.headingPath, c.claim, c.excerpt)
  }

  function ToLink(l: RawLink): Link {
    Link(None, l.targetPath, l.linkType, l.note)
  }

  function ToPage(docs: Documents): RawPage -> WikiPage {
    (p: RawPage) =>
      WikiPage(None, p.path, p.kind, p.title, p.content, None,
               Map(Filter(p.citations, NamesDocument()), ToCitation(docs)),
               Map(Filter(p.links, NamesTarget()), ToLink))
  }

  function RawPath(): RawPage -> string { (p: RawPage) => p.path }

  /** What becomes of one page of the reply. */
  datatype Verdict = Skip | Refuse | Delete | Write

  function Judge(path: string, delete: bool): Verdict {
    if path == "" then Skip
    else if path in RESERVED_PATHS then Refuse
    else if delete then Delete
    else Write
  }

  function Judged(v: Verdict): RawPage -> bool { (p: RawPage) => Judge(p.path, p.delete) == v }

  function WrittenPages(reply: seq<RawPage>, docs: Documents): seq<WikiPage> {
    Map(Filter(reply, Judged(Write)), ToPage(docs))
  }

  function DeletionRequests(reply: seq<RawPage>): seq<string> {
    Map(Filter(reply, Judged(Delete)), RawPath())
  }

  function ReservedRequests(reply: seq<RawPage>): seq<string> {
    Map(Filter(reply, Judged(Refuse)), RawPath())
  }

  /** A full compile does not look at deletion flags. */
  function WithoutFlag(): RawPage -> RawPage { (p: RawPage) => p.(delete := false) }

  function FullPages(reply: seq<RawPage>, docs: Documents): seq<WikiPage> {
    WrittenPages(Map(reply, WithoutFlag()), docs)
  }

  lemma ReplySnoc(reply: seq<RawPage>, i: nat, docs: Documents)
    requires i < |reply|
    ensures var v := Judge(reply[i].path, reply[i].delete);
      && WrittenPages(reply[..i + 1], docs) ==
           WrittenPages(reply[..i], docs) + (if v == Write then [ToPage(docs)(reply[i])] else [])
      && DeletionRequests(reply[..i + 1]) ==
           DeletionRequests(reply[..i]) + (if v == Delete then [reply[i].path] else [])
      && ReservedRequests(reply[..i + 1]) ==
           ReservedRequests(reply[..i]) + (if v == Refuse then [reply[i].path] else [])
  {
    MapFilterSnoc(reply, i, Judged(Write), ToPage(docs));
    MapFilterSnoc(reply, i, Judged(Delete), RawPath());
    MapFilterSnoc(reply, i, Judged(Refuse), RawPath());
  }

  /** Sort the reply into written pages, deletions and refused platform pages. */
  method ClassifyReply(reply: seq<RawPage>, docs: Documents)
    returns (written: seq<WikiPage>, deleted: seq<string>, refused: seq<string>)
    ensures IsPathOrdering(written, WrittenPages(reply, docs))
    ensures deleted == DeletionRequests(reply)
    ensures refused == ReservedRequests(reply)
  {
    written, deleted, refused := [], [], [];
    for i := 0 to |reply|
      invariant written == WrittenPages(reply[..i], docs)
      invariant deleted == DeletionRequests(reply[..i])
      invariant refused == ReservedRequests(reply[..i])
    {
      var raw := reply[i];
      ReplySnoc(reply, i, docs);
      var path := raw.path;
      if path == "" {
        continue;
      }
      if path in RESERVED_PATHS {
        refused := refused + [path];
        continue;
      }
      if raw.delete {
        deleted := deleted + [path];
        continue;
      }
      written := written + [ToPage(docs)(raw)];
    }
    assert reply[..|reply|] == reply;
    written := SortPagesByPath(written);
  }

  /** What every page from the compiler is like, whatever it replied. */
  ghost predicate FromCompiler(page: WikiPage, docs: Documents) {
    && page.buildId.None? && page.derivedFrom.None?
    && page.path != "" && page.path !in RESERVED_PATHS
    && forall c | c in page.citations :: c.documentId == ResolveDocument(docs, c.documentPath)
  }

  lemma ToPageIsFromCompiler(raw: RawPage, docs: Documents)
    requires Judged(Write)(raw)
    ensures FromCompiler(ToPage(docs)(raw), docs)
  {
    var page := ToPage(docs)(raw);
    forall c | c in page.citations
      ensures c.documentId == ResolveDocument(docs, c.documentPath)
    {
      var i :| 0 <= i < |page.citations| && page.citations[i] == c;
      assert c == ToCitation(docs)(Filter(raw.citations, NamesDocument())[i]);
    }
  }

  lemma WrittenIsFromCompiler(reply: seq<RawPage>, docs: Documents, written: seq<WikiPage>)
    requires IsPathOrdering(written, WrittenPages(reply, docs))
    ensures forall p | p in written :: FromCompiler(p, docs)
  {
    SameElements(written, WrittenPages(reply, docs));
    forall p | p in written
      ensures FromCompiler(p, docs)
    {
      MapMember(Filter(reply, Judged(Write)), ToPage(docs), p);
      var raw :| raw in Filter(reply, Judged(Write)) && p == ToPage(docs)(raw);
      ToPageIsFromCompiler(raw, docs);
    }
  }

  /** The page an entry of the reply becomes: its own text, the citations that name a document, resolved, and the
      links that name a target. */
  ghost predicate IsPageOf(page: WikiPage, raw: RawPage, docs: Documents) {
    && page.path == raw.path && page.kind == raw.kind && page.title == raw.title && page.content == raw.content
    && (forall c :: c in page.citations <==>
          exists r :: r in raw.citations && r.documentPath != "" && c.documentPath == r.documentPath
            && c.documentId == (if r.documentPath in docs then Some(docs[r.documentPath].id) else None)
            && c.headingPath == r.headingPath && c.claim == r.claim && c.excerpt == r.excerpt)
    && (forall l :: l in page.links <==>
          exists r :: r in raw.links && r.targetPath != "" && l == Link(None, r.targetPath, r.linkType, r.note))
  }

  predicate Authored(path: string) {
    path != "" && path != "wiki/index.md" && path != "wiki/log.md"
  }

  lemma ToPageExactly(raw: RawPage, docs: Documents)
    ensures IsPageOf(ToPage(docs)(raw), raw, docs)
  {
    CitationsOfEntry(raw, docs);
    LinksOfEntry(raw, docs);
  }

  lemma CitationsOfEntry(raw: RawPage, docs: Documents)
    ensures forall c :: c in ToPage(docs)(raw).citations <==>
      exists r :: r in raw.citations && r.documentPath != "" && c.documentPath == r.documentPath
        && c.documentId == (if r.documentPath in docs then Some(docs[r.documentPath].id) else None)
        && c.headingPath == r.headingPath && c.claim == r.claim && c.excerpt == r.excerpt
  {
    var named := Filter(raw.citations, NamesDocument());
    forall c ensures c in ToPage(docs)(raw).citations <==> exists r :: r in named && c == ToCitation(docs)(r) {
      MapMember(named, ToCitation(docs), c);
    }
  }

  lemma LinksOfEntry(raw: RawPage, docs: Documents)
    ensures forall l :: l in ToPage(docs)(raw).links <==>
      exists r :: r in raw.links && r.targetPath != "" && l == Link(None, r.targetPath, r.linkType, r.note)
  {
    var named := Filter(raw.links, NamesTarget());
    forall l ensures l in ToPage(docs)(raw).links <==> exists r :: r in named && l == ToLink(r) {
      MapMember(named, ToLink, l);
    }
  }

  /** Entry by entry, what an incremental reply asks for: pages of its own to write or delete, and the two generated
      ones refused, deletion or not. */
  lemma ReplyAsksExactly(reply: seq<RawPage>, docs: Documents, path: string)
    ensures path in DeletionRequests(reply) <==> Authored(path) && exists r :: r in reply && r.path == path && r.delete
    ensures path in ReservedRequests(reply) <==>
      (path == "wiki/index.md" || path == "wiki/log.md") && exists r :: r in reply && r.path == path
    ensures forall r | r in reply && Authored(r.path) && !r.delete :: ToPage(docs)(r) in WrittenPages(reply, docs)
    ensures forall p | p in WrittenPages(reply, docs) ::
      Authored(p.path) && exists r :: r in reply && !r.delete && IsPageOf(p, r, docs)
  {
    MapMember(Filter(reply, Judged(Delete)), RawPath(), path);
    MapMember(Filter(reply, Judged(Refuse)), RawPath(), path);
    WrittenExactly(reply, docs);
  }

  lemma WrittenExactly(reply: seq<RawPage>, docs: Documents)
    ensures forall r | r in reply && Authored(r.path) && !r.delete :: ToPage(docs)(r) in WrittenPages(reply, docs)
    ensures forall p | p in WrittenPages(reply, docs) ::
      Authored(p.path) && exists r :: r in reply && !r.delete && IsPageOf(p, r, docs)
  {
    var asked := Filter(reply, Judged(Write));
    forall r | r in reply && Authored(r.path) && !r.delete ensures ToPage(docs)(r) in WrittenPages(reply, docs) {
      MapMember(asked, ToPage(docs), ToPage(docs)(r));
    }
    forall p | p in WrittenPages(reply, docs)
      ensures Authored(p.path) && exists r :: r in reply && !r.delete && IsPageOf(p, r, docs)
    {
      MapMember(asked, ToPage(docs), p);
      var r :| r in asked && p == ToPage(docs)(r);
      ToPageExactly(r, docs);
    }
  }

  lemma PageOfFlagless(page: WikiPage, raw: RawPage, docs: Documents)
    ensures IsPageOf(page, raw.(delete := false), docs) <==> IsPageOf(page, raw, docs)
  {
  }

  /** A full compile writes every authored entry, flagged for deletion or not. */
  lemma FullWritesEntry(reply: seq<RawPage>, docs: Documents, raw: RawPage) returns (page: WikiPage)
    requires raw in reply && Authored(raw.path)
    ensures page in FullPages(reply, docs) && IsPageOf(page, raw, docs)
  {
    var flagless := raw.(delete := false);
    page := ToPage(docs)(flagless);
    MapMember(reply, WithoutFlag(), flagless);
    WrittenExactly(Map(reply, WithoutFlag()), docs);
    ToPageExactly(flagless, docs);
    PageOfFlagless(page, raw, docs);
  }

  /** And nothing else. */
  lemma FullPageHasEntry(reply: seq<RawPage>, docs: Documents, page: WikiPage) returns (raw: RawPage)
    requires page in FullPages(reply, docs)
    ensures raw in reply && Authored(page.path) && IsPageOf(page, raw, docs)
  {
    var asked := Map(reply, WithoutFlag());
    WrittenExactly(asked, docs);
    var flagless :| flagless in asked && IsPageOf(page, flagless, docs);
    MapMember(reply, WithoutFlag(), flagless);
    raw :| raw in reply && flagless == WithoutFlag()(raw);
    PageOfFlagless(page, raw, docs);
  }

  // ---------------------------------------------------------------------------------------
  // The plan and its outcome.
  // ---------------------------------------------------------------------------------------

  function NotReserved(): string -> bool { path => path !in RESERVED_PATHS }

  function IsContentPage(): WikiPage -> bool { (p: WikiPage) => p.path !in RESERVED_PATHS }

  function At(paths: seq<string>): WikiPage -> bool { (p: WikiPage) => p.path in paths }

  function NotAt(paths: seq<string>): WikiPage -> bool { (p: WikiPage) => p.path !in paths }

  function Among(paths: seq<string>): string -> bool { path => path in paths }

  function NotAmong(paths: seq<string>): string -> bool { path => path !in paths }

  /** Scheduled for rewrite, or not in the parent at all. */
  function InScope(scheduled: seq<string>, existing: seq<string>): WikiPage -> bool {
    (p: WikiPage) => p.path in scheduled || p.path !in existing
  }

  function OutOfScope(scheduled: seq<string>, existing: seq<string>): WikiPage -> bool {
    (p: WikiPage) => p.path !in scheduled && p.path in existing
  }

  /** The parent's pages without the two generated ones. */
  function ContentPages(parentPages: seq<WikiPage>): seq<WikiPage> {
    Filter(parentPages, IsContentPage())
  }

  ghost function Scheduled(parentPages: seq<WikiPage>, touched: seq<string>): seq<string> {
    Filter(ImpactedPagePaths(parentPages, touched), NotReserved())
  }

  datatype IncrementalResult = IncrementalResult(pages: seq<WikiPage>, reusedCount: nat, plan: IncrementalPlan)

  datatype Parent = Parent(id: BuildId, pages: seq<WikiPage>, docs: Documents)

  function Reusable(parent: Parent, scheduled: seq<string>): seq<WikiPage> {
    Filter(ContentPages(parent.pages), NotAt(scheduled))
  }

  function KeptWrites(parent: Parent, scheduled: seq<string>, compiled: seq<WikiPage>): seq<WikiPage> {
    Filter(compiled, InScope(scheduled, PathList(ContentPages(parent.pages))))
  }

  function KeptDeletions(scheduled: seq<string>, deletions: seq<string>): seq<string> {
    Filter(deletions, Among(scheduled))
  }

  function RejectedPaths(
    parent: Parent, scheduled: seq<string>, compiled: seq<WikiPage>, deletions: seq<string>): seq<string>
  {
    PathList(Filter(compiled, OutOfScope(scheduled, PathList(ContentPages(parent.pages)))))
    + Filter(deletions, NotAmong(scheduled))
  }

  /** The plan an incremental build ends with. */
  ghost function PlanOf(
    parent: Parent, docs: Documents, compiled: seq<WikiPage>, deletions: seq<string>): IncrementalPlan
  {
    var diff := Diff(parent.docs, docs);
    var scheduled := Scheduled(parent.pages, diff.Touched());
    if diff.IsEmpty() then
      IncrementalPlan(parent.id, diff, scheduled, [], SortStrings(PathList(ContentPages(parent.pages))), [], [])
    else
      IncrementalPlan(
        parent.id, diff, scheduled,
        SortStrings(PathList(KeptWrites(parent, scheduled, compiled))),
        SortStrings(PathList(Reusable(parent, scheduled))),
        SortStrings(KeptDeletions(scheduled, deletions)),
        SortStrings(RejectedPaths(parent, scheduled, compiled, deletions)))
  }

  /** The pages an incremental build ends with, by path, when something changed. */
  ghost function MergeOf(
    parent: Parent, docs: Documents, compiled: seq<WikiPage>, deletions: seq<string>): map<string, WikiPage>
  {
    var scheduled := Scheduled(parent.pages, Diff(parent.docs, docs).Touched());
    MergedPages(Map(Reusable(parent, scheduled), PreparePage(parent.id, docs)),
                KeptWrites(parent, scheduled, compiled), KeptDeletions(scheduled, deletions))
  }

  ghost predicate IsIncremental(
    r: IncrementalResult, parent: Parent, docs: Documents, compiled: seq<WikiPage>, deletions: seq<string>)
  {
    && r.plan == PlanOf(parent, docs, compiled, deletions)
    && if Diff(parent.docs, docs).IsEmpty() then
         && r.pages == Map(ContentPages(parent.pages), PreparePage(parent.id, docs))
         && r.reusedCount == |r.pages|
       else
         && ListsPages(r.pages, MergeOf(parent, docs, compiled, deletions))
         && r.reusedCount == |CarriedPaths(Map(Reusable(parent, r.plan.scheduled), PreparePage(parent.id, docs)),
                                           KeptWrites(parent, r.plan.scheduled, compiled),
                                           KeptDeletions(r.plan.scheduled, deletions))|
  }

  /** One more element of a list that is being split in two. */
  lemma SplitSnoc<T(!new)>(xs: seq<T>, i: nat, keep: T -> bool, drop: T -> bool)
    requires i < |xs| && (keep(xs[i]) <==> !drop(xs[i]))
    ensures Filter(xs[..i + 1], keep) == Filter(xs[..i], keep) + if keep(xs[i]) then [xs[i]] else []
    ensures Filter(xs[..i + 1], drop) == Filter(xs[..i], drop) + if keep(xs[i]) then [] else [xs[i]]
  {
    FilterSnoc(xs, i, keep);
    FilterSnoc(xs, i, drop);
  }

  /** Splitting the carried pages into those to rewrite and those to copy. */
  method PartitionCarried(carried: seq<WikiPage>, scheduled: seq<string>)
    returns (affected: seq<WikiPage>, reusable: seq<WikiPage>)
    ensures affected == Filter(carried, At(scheduled))
    ensures reusable == Filter(carried, NotAt(scheduled))
  {
    affected, reusable := [], [];
    assert carried[..0] == [];
    for i := 0 to |carried|
      invariant affected == Filter(carried[..i], At(scheduled))
      invariant reusable == Filter(carried[..i], NotAt(scheduled))
    {
      SplitSnoc(carried, i, At(scheduled), NotAt(scheduled));
      if carried[i].path in scheduled {
        affected := affected + [carried[i]];
        continue;
      }
      reusable := reusable + [carried[i]];
    }
    assert carried[..|carried|] == carried;
  }

  /** Dropping writes to pages the plan promised to keep. */
  method EnforceWriteScope(compiled: seq<WikiPage>, scheduled: seq<string>, existing: seq<string>)
    returns (kept: seq<WikiPage>, rejected: seq<string>)
    ensures kept == Filter(compiled, InScope(scheduled, existing))
    ensures rejected == PathList(Filter(compiled, OutOfScope(scheduled, existing)))
  {
    kept, rejected := [], [];
    assert compiled[..0] == [];
    for i := 0 to |compiled|
      invariant kept == Filter(compiled[..i], InScope(scheduled, existing))
      invariant rejected == PathList(Filter(compiled[..i], OutOfScope(scheduled, existing)))
    {
      ScopeSnoc(compiled, i, scheduled, existing);
      if compiled[i].path !in scheduled && compiled[i].path in existing {
        rejected := rejected + [compiled[i].path];
        continue;
      }
      kept := kept + [compiled[i]];
    }
    assert compiled[..|compiled|] == compiled;
  }

  lemma ScopeSnoc(compiled: seq<WikiPage>, i: nat, scheduled: seq<string>, existing: seq<string>)
    requires i < |compiled|
    ensures var dropped := compiled[i].path !in scheduled && compiled[i].path in existing;
      && Filter(compiled[..i + 1], InScope(scheduled, existing))
         == Filter(compiled[..i], InScope(scheduled, existing)) + (if dropped then [] else [compiled[i]])
      && PathList(Filter(compiled[..i + 1], OutOfScope(scheduled, existing)))
         == PathList(Filter(compiled[..i], OutOfScope(scheduled, existing)))
            + (if dropped then [compiled[i].path] else [])
  {
    SplitSnoc(compiled, i, InScope(scheduled, existing), OutOfScope(scheduled, existing));
  }

  /** Dropping deletions of pages nobody scheduled. */
  method EnforceDeleteScope(deletions: seq<string>, scheduled: seq<string>)
    returns (kept: seq<string>, rejected: seq<string>)
    ensures kept == Filter(deletions, Among(scheduled))
    ensures rejected == Filter(deletions, NotAmong(scheduled))
  {
    kept, rejected := [], [];
    assert deletions[..0] == [];
    for i := 0 to |deletions|
      invariant kept == Filter(deletions[..i], Among(scheduled))
      invariant rejected == Filter(deletions[..i], NotAmong(scheduled))
    {
      SplitSnoc(deletions, i, Among(scheduled), NotAmong(scheduled));
      if deletions[i] !in scheduled {
        rejected := rejected + [deletions[i]];
        continue;
      }
      kept := kept + [deletions[i]];
    }
    assert deletions[..|deletions|] == deletions;
  }

  method DropReservedPages(pages: seq<WikiPage>) returns (carried: seq<WikiPage>)
    ensures carried == ContentPages(pages)
  {
    carried := [];
    assert pages[..0] == [];
    for i := 0 to |pages|
      invariant carried == Filter(pages[..i], IsContentPage())
    {
      FilterSnoc(pages, i, IsContentPage());
      if pages[i].path in RESERVED_PATHS {
        continue;
      }
      carried := carried + [pages[i]];
    }
    assert pages[..|pages|] == pages;
  }

  method DropReservedPaths(paths: seq<string>) returns (kept: seq<string>)
    ensures kept == Filter(paths, NotReserved())
  {
    kept := [];
    assert paths[..0] == [];
    for i := 0 to |paths|
      invariant kept == Filter(paths[..i], NotReserved())
    {
      FilterSnoc(paths, i, NotReserved());
      if paths[i] in RESERVED_PATHS {
        continue;
      }
      kept := kept + [paths[i]];
    }
    assert paths[..|paths|] == paths;
  }

  /** The compiler identity a build's text is attributed to. */
  datatype Identity = Identity(model: string, compilerVersion: string, promptVersion: string, profileVersionId: string)

  datatype RunError = NoParentBuild | IncompatibleParent | CompilerFailed

  datatype RunOutcome = Ran(result: IncrementalResult, refused: seq<string>) | RunFailed(error: RunError)

  /** A reply that can be used: the call succeeded and returned some page. */
  predicate Answers(reply: Option<seq<RawPage>>) {
    reply.Some? && reply.value != []
  }

  /** runIncremental. `reply` is what the compiler would answer, or nothing if the call fails; the documents of both
      revisions are those LoadDocuments selects. */
  method RunIncremental(
    parent: Option<Parent>, parentIdentity: Identity, identity: Identity, docs: Documents, reply: Option<seq<RawPage>>)
    returns (outcome: RunOutcome)
    ensures parent.None? ==> outcome == RunFailed(NoParentBuild)
    ensures parent.Some? && parentIdentity != identity ==> outcome == RunFailed(IncompatibleParent)
    ensures
      parent.Some? && parentIdentity == identity && !Diff(parent.value.docs, docs).IsEmpty() && !Answers(reply) ==>
      outcome == RunFailed(CompilerFailed)
    ensures parent.Some? && parentIdentity == identity && Diff(parent.value.docs, docs).IsEmpty() ==>
      outcome.Ran? && outcome.refused == [] && IsIncremental(outcome.result, parent.value, docs, [], [])
    ensures parent.Some? && parentIdentity == identity && !Diff(parent.value.docs, docs).IsEmpty() && Answers(reply) ==>
      && outcome.Ran? && outcome.refused == ReservedRequests(reply.value)
      && exists compiled ::
           && IsPathOrdering(compiled, WrittenPages(reply.value, docs))
           && IsIncremental(outcome.result, parent.value, docs, compiled, DeletionRequests(reply.value))
  {
    if parent.None? {
      return RunFailed(NoParentBuild);
    }
    var base := parent.value;
    var diff := CompareDocuments(base.docs, docs);
    var carried := DropReservedPages(base.pages);
    var carriedPaths := SortStrings(PathList(carried));
    var rawImpacted := FindImpacted(base.pages, diff.Touched());
    var scheduled := DropReservedPaths(rawImpacted);
    if parentIdentity != identity {
      return RunFailed(IncompatibleParent);
    }
    if diff.IsEmpty() {
      var copies := PrepareReusedPages(carried, base.id, docs);
      var idle := IncrementalPlan(base.id, diff, scheduled, [], carriedPaths, [], []);
      return Ran(IncrementalResult(copies, |copies|, idle), []);
    }
    if reply.None? {
      return RunFailed(CompilerFailed);
    }
    if |reply.value| == 0 {
      return RunFailed(CompilerFailed);
    }
    var result, refused := MergeReply(base, docs, diff, scheduled, carried, reply.value);
    outcome := Ran(result, refused);
  }

  /** The part of runIncremental after the compiler has answered. */
  method MergeReply(parent: Parent, docs: Documents, diff: RevisionDiff, scheduled: seq<string>, carried: seq<WikiPage>,
                    reply: seq<RawPage>)
    returns (result: IncrementalResult, refused: seq<string>)
    requires diff == Diff(parent.docs, docs) && !diff.IsEmpty()
    requires scheduled == Scheduled(parent.pages, diff.Touched())
    requires carried == ContentPages(parent.pages)
    ensures refused == ReservedRequests(reply)
    ensures exists compiled ::
      && IsPathOrdering(compiled, WrittenPages(reply, docs))
      && IsIncremental(result, parent, docs, compiled, DeletionRequests(reply))
  {
    var _, reusable := PartitionCarried(carried, scheduled);
    var compiled, deletions, refusedPaths := ClassifyReply(reply, docs);
    refused := refusedPaths;
    var kept, rejectedWrites := EnforceWriteScope(compiled, scheduled, PathList(carried));
    var keptDeletions, rejectedDeletions := EnforceDeleteScope(deletions, scheduled);
    var prepared := PrepareReusedPages(reusable, parent.id, docs);
    var merged, reusedCount := MergeIncremental(prepared, kept, keptDeletions);
    var plan := IncrementalPlan(
      parent.id, diff, scheduled, SortStrings(PathList(kept)), SortStrings(PathList(reusable)),
      SortStrings(keptDeletions), SortStrings(rejectedWrites + rejectedDeletions));
    result := IncrementalResult(merged, reusedCount, plan);
    IncrementalByParts(result, parent, docs, compiled, deletions);
  }

  /** What makes a result the incremental one, when something changed. */
  lemma IncrementalByParts(
    r: IncrementalResult, parent: Parent, docs: Documents, compiled: seq<WikiPage>, deletions: seq<string>)
    requires !Diff(parent.docs, docs).IsEmpty() && r.plan == PlanOf(parent, docs, compiled, deletions)
    requires ListsPages(r.pages, MergeOf(parent, docs, compiled, deletions))
    requires r.reusedCount == |CarriedPaths(Map(Reusable(parent, r.plan.scheduled), PreparePage(parent.id, docs)),
                                            KeptWrites(parent, r.plan.scheduled, compiled),
                                            KeptDeletions(r.plan.scheduled, deletions))|
    ensures IsIncremental(r, parent, docs, compiled, deletions)
  {
  }
}
