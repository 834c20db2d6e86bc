/** What an incremental build is trusted for: nothing stale survives, nothing outside the
    plan changes, and every page is accounted for, whatever the compiler replied. */
module IncrementalProperties {
  import opened Check
  import opened Incremental
  import opened IncrementalBuild
  import opened Lists
  import opened Ordering
  import opened Wiki
  import opened Wrappers

  /** Scheduled means: a content page citing a touched document, or linking to one that does. */
  lemma ScheduledExact(pages: seq<WikiPage>, touched: seq<string>, path: string)
    ensures path in Scheduled(pages, touched) <==>
      && path !in RESERVED_PATHS
      && (path in CitingPaths(pages, touched) || path in LinkingPaths(pages, CitingPaths(pages, touched)))
  {
    if touched == [] {
      assert CitingPaths(pages, touched) == {};
      assert LinkingPaths(pages, {}) == {};
    }
  }

  /** A page left out of the plan cites nothing that moved and links to nothing that does. */
  lemma UnscheduledIsUntouched(parent: Parent, touched: seq<string>, p: WikiPage)
    requires p in ContentPages(parent.pages) && p.path !in Scheduled(parent.pages, touched)
    ensures p in parent.pages && p.path !in RESERVED_PATHS
    ensures !CitesAny(p, touched)
    ensures !LinksInto(p, CitingPaths(parent.pages, touched))
  {
    ScheduledExact(parent.pages, touched, p.path);
  }

  /** Every resulting page is a prepared copy of an unscheduled parent page, or the compiler's. */
  lemma ResultPageOrigin(
    r: IncrementalResult, parent: Parent, docs: Documents, compiled: seq<WikiPage>, deletions: seq<string>, q: WikiPage)
    requires IsIncremental(r, parent, docs, compiled, deletions)
    requires q in r.pages
    ensures (q in compiled && (q.path in r.plan.scheduled || q.path !in PathsOf(ContentPages(parent.pages))))
      || exists p :: p in ContentPages(parent.pages) && p.path !in r.plan.scheduled
                     && q == PreparePage(parent.id, docs)(p)
  {
    var prepare := PreparePage(parent.id, docs);
    if Diff(parent.docs, docs).IsEmpty() {
      assert r.plan.scheduled == [];
      MapMember(ContentPages(parent.pages), prepare, q);
    } else {
      var copies := Map(Reusable(parent, r.plan.scheduled), prepare);
      var kept := KeptWrites(parent, r.plan.scheduled, compiled);
      MergedAt(copies, kept, KeptDeletions(r.plan.scheduled, deletions), q.path);
      ListsPagesMember(r.pages, MergeOf(parent, docs, compiled, deletions), q);
      if q !in kept {
        MapMember(Reusable(parent, r.plan.scheduled), prepare, q);
      }
    }
  }

  // ---------------------------------------------------------------------------------------
  // Freshness of one step.
  // ---------------------------------------------------------------------------------------

  /** The parent page a copy was made from, unchanged but for its bookkeeping columns. */
  ghost predicate CopyOf(q: WikiPage, p: WikiPage) {
    && q.path == p.path && q.kind == p.kind && q.title == p.title && q.content == p.content
    && |q.citations| == |p.citations|
    && (forall i | 0 <= i < |q.citations| :: q.citations[i].(documentId := None) == p.citations[i].(documentId := None))
    && |q.links| == |p.links|
    && (forall i | 0 <= i < |q.links| :: q.links[i].(targetPage := None) == p.links[i].(targetPage := None))
  }

  lemma PreparedIsCopy(parent: BuildId, docs: Documents, p: WikiPage)
    ensures CopyOf(PreparePage(parent, docs)(p), p)
  {
  }

  /** Its citations point at the new revision's documents, and those it had still say the same. */
  ghost predicate StillSupported(q: WikiPage, from: Documents, to: Documents) {
    forall c | c in q.citations ::
      && c.documentId == ResolveDocument(to, c.documentPath)
      && (c.documentPath in from ==> c.documentPath in to && to[c.documentPath].hash == from[c.documentPath].hash)
  }

  lemma CopyIsStillSupported(parent: Parent, docs: Documents, p: WikiPage)
    requires p in ContentPages(parent.pages)
    requires p.path !in Scheduled(parent.pages, Diff(parent.docs, docs).Touched())
    ensures StillSupported(PreparePage(parent.id, docs)(p), parent.docs, docs)
  {
    var q := PreparePage(parent.id, docs)(p);
    var touched := Diff(parent.docs, docs).Touched();
    UnscheduledIsUntouched(parent, touched, p);
    forall c | c in q.citations
      ensures c.documentId == ResolveDocument(docs, c.documentPath)
      ensures c.documentPath in parent.docs ==>
        c.documentPath in docs && docs[c.documentPath].hash == parent.docs[c.documentPath].hash
    {
      MapMember(p.citations, ReresolveCitation(docs), c);
      var c0 :| c0 in p.citations && c == ReresolveCitation(docs)(c0);
      assert c0.documentPath !in touched;
      if c.documentPath in parent.docs {
        UntouchedIsUnchanged(parent.docs, docs, c.documentPath);
      }
    }
  }

  lemma UncopiedIsCompiled(
    r: IncrementalResult, parent: Parent, docs: Documents, compiled: seq<WikiPage>, deletions: seq<string>, q: WikiPage)
    requires IsIncremental(r, parent, docs, compiled, deletions)
    requires q in r.pages && q.derivedFrom.None?
    ensures q in compiled
  {
    ResultPageOrigin(r, parent, docs, compiled, deletions, q);
  }

  /** The parent page a carried page was copied from. */
  lemma CopySource(
    r: IncrementalResult, parent: Parent, docs: Documents, compiled: seq<WikiPage>, deletions: seq<string>, q: WikiPage)
    returns (p: WikiPage)
    requires IsIncremental(r, parent, docs, compiled, deletions)
    requires forall p | p in compiled :: FromCompiler(p, docs)
    requires q in r.pages && q.derivedFrom.Some?
    ensures Carried(p, parent, r.plan) && q == PreparePage(parent.id, docs)(p)
  {
    ResultPageOrigin(r, parent, docs, compiled, deletions, q);
    p :| p in ContentPages(parent.pages) && p.path !in r.plan.scheduled && q == PreparePage(parent.id, docs)(p);
  }

  ghost predicate Carried(p: WikiPage, parent: Parent, plan: IncrementalPlan) {
    p in ContentPages(parent.pages) && p.path !in plan.scheduled
  }

  /** Nothing stale survives one incremental build. */
  lemma IncrementalKeepsOnlyFreshCopies(
    r: IncrementalResult, parent: Parent, docs: Documents, compiled: seq<WikiPage>, deletions: seq<string>, q: WikiPage)
    requires IsIncremental(r, parent, docs, compiled, deletions)
    requires forall p | p in compiled :: FromCompiler(p, docs)
    requires q in r.pages
    ensures q.derivedFrom.None? ==> FromCompiler(q, docs)
    ensures q.derivedFrom.Some? ==> FreshCopy(q, parent, docs)
    ensures q.path !in RESERVED_PATHS
  {
    if q.derivedFrom.Some? {
      var p := CopySource(r, parent, docs, compiled, deletions, q);
      PreparedIsFreshCopy(parent, docs, p);
    } else {
      UncopiedIsCompiled(r, parent, docs, compiled, deletions, q);
    }
  }

  ghost predicate FreshCopy(q: WikiPage, parent: Parent, docs: Documents) {
    && q.derivedFrom == Some(parent.id)
    && StillSupported(q, parent.docs, docs)
    && exists p :: p in parent.pages && CopyOf(q, p)
  }

  lemma PreparedIsFreshCopy(parent: Parent, docs: Documents, p: WikiPage)
    requires p in ContentPages(parent.pages)
    requires p.path !in Scheduled(parent.pages, Diff(parent.docs, docs).Touched())
    ensures FreshCopy(PreparePage(parent.id, docs)(p), parent, docs)
  {
    CopyIsStillSupported(parent, docs, p);
    PreparedIsCopy(parent.id, docs, p);
  }

  // ---------------------------------------------------------------------------------------
  // Accounting.
  // ---------------------------------------------------------------------------------------

  lemma ReusedPathsExact(parent: Parent, docs: Documents, compiled: seq<WikiPage>, deletions: seq<string>, path: string)
    ensures var plan := PlanOf(parent, docs, compiled, deletions);
      path in plan.reused <==> path in PathsOf(ContentPages(parent.pages)) && path !in plan.scheduled
  {
    var plan := PlanOf(parent, docs, compiled, deletions);
    if plan.diff.IsEmpty() {
      PathListMembers(ContentPages(parent.pages), path);
      assert plan.scheduled == [];
    } else {
      PathListMembers(Reusable(parent, plan.scheduled), path);
    }
  }

  lemma PathListMembers(pages: seq<WikiPage>, path: string)
    ensures path in PathList(pages) <==> path in PathsOf(pages)
  {
    PathMember(pages, path);
  }

  lemma RecompiledPathsExact(
    parent: Parent, docs: Documents, compiled: seq<WikiPage>, deletions: seq<string>, path: string)
    requires !Diff(parent.docs, docs).IsEmpty()
    ensures var plan := PlanOf(parent, docs, compiled, deletions);
      && (path in plan.recompiled <==>
            path in PathsOf(compiled) && (path in plan.scheduled || path !in PathsOf(ContentPages(parent.pages))))
      && (path in plan.deleted <==> path in deletions && path in plan.scheduled)
  {
    var plan := PlanOf(parent, docs, compiled, deletions);
    PathListMembers(KeptWrites(parent, plan.scheduled, compiled), path);
    PathListMembers(ContentPages(parent.pages), path);
  }

  lemma RejectedPathsExact(
    parent: Parent, docs: Documents, compiled: seq<WikiPage>, deletions: seq<string>, path: string)
    requires !Diff(parent.docs, docs).IsEmpty()
    ensures var plan := PlanOf(parent, docs, compiled, deletions);
      path in plan.rejected <==>
        path !in plan.scheduled
        && (path in deletions || (path in PathsOf(compiled) && path in PathsOf(ContentPages(parent.pages))))
  {
    var plan := PlanOf(parent, docs, compiled, deletions);
    var outside := Filter(compiled, OutOfScope(plan.scheduled, PathList(ContentPages(parent.pages))));
    PathListMembers(outside, path);
    PathListMembers(ContentPages(parent.pages), path);
  }

  /** The plan records exactly what was refused: deletions of pages that were not scheduled, and rewrites of parent
      pages that were not. */
  lemma RejectedExactly(
    r: IncrementalResult, parent: Parent, docs: Documents, compiled: seq<WikiPage>, deletions: seq<string>,
    path: string)
    requires IsIncremental(r, parent, docs, compiled, deletions) && !r.plan.diff.IsEmpty()
    ensures path in r.plan.rejected <==>
      path !in r.plan.scheduled
      && (path in deletions
          || ((exists q :: q in compiled && q.path == path)
              && exists p :: p in parent.pages && p.path == path && p.path !in RESERVED_PATHS))
  {
    RejectedPathsExact(parent, docs, compiled, deletions, path);
  }

  /** So a reply that oversteps never passes the gate: one unscheduled deletion or rewrite is enough. */
  lemma OversteppingIsNotHonoured(
    r: IncrementalResult, parent: Parent, docs: Documents, compiled: seq<WikiPage>, deletions: seq<string>,
    path: string)
    requires IsIncremental(r, parent, docs, compiled, deletions) && !r.plan.diff.IsEmpty()
    requires path !in r.plan.scheduled
    requires path in deletions
          || (path in PathsOf(compiled) && exists p :: p in parent.pages && p.path == path && p.path !in RESERVED_PATHS)
    ensures !PlanHonoured(r.plan)
    ensures PlanViolates(r.plan, CheckFailure(IncrementalScope, path, ""))
  {
    RejectedExactly(r, parent, docs, compiled, deletions, path);
  }

  /** If the gate accepts the plan, no parent page silently vanished. */
  lemma EveryParentPageAccountedFor(
    parent: Parent, docs: Documents, compiled: seq<WikiPage>, deletions: seq<string>, p: WikiPage)
    requires PlanHonoured(PlanOf(parent, docs, compiled, deletions))
    requires p in parent.pages && p.path !in RESERVED_PATHS
    ensures var plan := PlanOf(parent, docs, compiled, deletions);
      p.path in plan.reused || p.path in plan.recompiled || p.path in plan.deleted
  {
    ReusedPathsExact(parent, docs, compiled, deletions, p.path);
  }

  /** The merged paths are exactly the reused ones and the recompiled ones that were not deleted,
      each once, in strict order. */
  lemma MergedPathsExact(
    r: IncrementalResult, parent: Parent, docs: Documents, compiled: seq<WikiPage>, deletions: seq<string>)
    requires IsIncremental(r, parent, docs, compiled, deletions)
    requires !r.plan.diff.IsEmpty()
    ensures PathList(r.pages) == SortedListing(SurvivingPaths(r.plan))
  {
    MergeKeysExact(parent, docs, compiled, deletions);
    assert ListsPages(r.pages, MergeOf(parent, docs, compiled, deletions));
  }

  ghost function SurvivingPaths(plan: IncrementalPlan): set<string> {
    Elements(plan.reused) + (Elements(plan.recompiled) - Elements(plan.deleted))
  }

  lemma MergeKeysExact(parent: Parent, docs: Documents, compiled: seq<WikiPage>, deletions: seq<string>)
    requires !Diff(parent.docs, docs).IsEmpty()
    ensures MergeOf(parent, docs, compiled, deletions).Keys == SurvivingPaths(PlanOf(parent, docs, compiled, deletions))
  {
    var merged, plan := MergeOf(parent, docs, compiled, deletions), PlanOf(parent, docs, compiled, deletions);
    forall path
      ensures path in merged <==> path in plan.reused || (path in plan.recompiled && path !in plan.deleted)
    {
      MergedPathExact(parent, docs, compiled, deletions, path);
    }
    KeysAreSurviving(merged, plan);
  }

  lemma KeysAreSurviving(merged: map<string, WikiPage>, plan: IncrementalPlan)
    requires forall path ::
      path in merged <==> path in plan.reused || (path in plan.recompiled && path !in plan.deleted)
    ensures merged.Keys == SurvivingPaths(plan)
  {
  }

  lemma MergedPathExact(parent: Parent, docs: Documents, compiled: seq<WikiPage>, deletions: seq<string>, path: string)
    requires !Diff(parent.docs, docs).IsEmpty()
    ensures var plan := PlanOf(parent, docs, compiled, deletions);
      path in MergeOf(parent, docs, compiled, deletions) <==>
      path in plan.reused || (path in plan.recompiled && path !in plan.deleted)
  {
    var scheduled := Scheduled(parent.pages, Diff(parent.docs, docs).Touched());
    MergedAt(Map(Reusable(parent, scheduled), PreparePage(parent.id, docs)),
             KeptWrites(parent, scheduled, compiled), KeptDeletions(scheduled, deletions), path);
    PreparedPaths(parent, docs, scheduled);
    PathListMembers(Reusable(parent, scheduled), path);
    PathListMembers(KeptWrites(parent, scheduled, compiled), path);
    ReusedPathsExact(parent, docs, compiled, deletions, path);
  }

  lemma PreparedPaths(parent: Parent, docs: Documents, scheduled: seq<string>)
    ensures PathList(Map(Reusable(parent, scheduled), PreparePage(parent.id, docs)))
         == PathList(Reusable(parent, scheduled))
    ensures PathsOf(Map(Reusable(parent, scheduled), PreparePage(parent.id, docs)))
         == PathsOf(Reusable(parent, scheduled))
  {
    var reusable := Reusable(parent, scheduled);
    var copies := Map(reusable, PreparePage(parent.id, docs));
    forall path
      ensures path in PathsOf(copies) <==> path in PathsOf(reusable)
    {
      PathListMembers(copies, path);
      PathListMembers(reusable, path);
      assert PathList(copies) == PathList(reusable);
    }
  }

  /** A page outside the plan comes through as its prepared copy, even when the compiler tried
      to rewrite it or delete it. */
  lemma UnscheduledPageSurvives(
    r: IncrementalResult, parent: Parent, docs: Documents, compiled: seq<WikiPage>, deletions: seq<string>, p: WikiPage)
    requires DistinctPaths(parent.pages)
    requires IsIncremental(r, parent, docs, compiled, deletions)
    requires p in parent.pages && p.path !in RESERVED_PATHS && p.path !in r.plan.scheduled
    ensures PreparePage(parent.id, docs)(p) in r.pages
  {
    if r.plan.diff.IsEmpty() {
      MapMember(ContentPages(parent.pages), PreparePage(parent.id, docs), PreparePage(parent.id, docs)(p));
    } else {
      MergeKeepsUnscheduled(parent, docs, compiled, deletions, p);
      ListsPagesMember(r.pages, MergeOf(parent, docs, compiled, deletions), PreparePage(parent.id, docs)(p));
    }
  }

  lemma MergeKeepsUnscheduled(
    parent: Parent, docs: Documents, compiled: seq<WikiPage>, deletions: seq<string>, p: WikiPage)
    requires DistinctPaths(parent.pages)
    requires p in ContentPages(parent.pages)
    requires p.path !in Scheduled(parent.pages, Diff(parent.docs, docs).Touched())
    ensures var merged := MergeOf(parent, docs, compiled, deletions);
      p.path in merged && merged[p.path] == PreparePage(parent.id, docs)(p)
  {
    var scheduled := Scheduled(parent.pages, Diff(parent.docs, docs).Touched());
    var reusable := Reusable(parent, scheduled);
    var copies := Map(reusable, PreparePage(parent.id, docs));
    var kept := KeptWrites(parent, scheduled, compiled);
    var merged := MergeOf(parent, docs, compiled, deletions);
    MergedAt(copies, kept, KeptDeletions(scheduled, deletions), p.path);
    PreparedPaths(parent, docs, scheduled);
    PathListMembers(ContentPages(parent.pages), p.path);
    assert p in reusable && p.path !in PathsOf(kept);
    MapMember(reusable, PreparePage(parent.id, docs), merged[p.path]);
    var p' :| p' in reusable && merged[p.path] == PreparePage(parent.id, docs)(p');
    assert p'.path == p.path && p' in parent.pages && p in parent.pages;
  }

  lemma {:induction false} FilterKeepsDistinctPaths(pages: seq<WikiPage>, keep: WikiPage -> bool)
    requires DistinctPaths(pages)
    ensures DistinctPaths(Filter(pages, keep))
  {
    if pages != [] {
      var init := pages[..|pages| - 1];
      FilterKeepsDistinctPaths(init, keep);
      forall i | 0 <= i < |Filter(init, keep)|
        ensures Filter(init, keep)[i].path != pages[|pages| - 1].path
      {
        assert Filter(init, keep)[i] in init;
      }
    }
  }

  lemma DistinctPathCount(pages: seq<WikiPage>)
    requires DistinctPaths(pages)
    ensures |PathsOf(pages)| == |pages|
  {
    SortStringsOfDistinct(PathList(pages));
    forall path
      ensures path in Elements(PathList(pages)) <==> path in PathsOf(pages)
    {
      PathListMembers(pages, path);
    }
    assert Elements(PathList(pages)) == PathsOf(pages);
  }

  function CopiedPaths(pages: seq<WikiPage>): set<string> {
    set q | q in pages && q.derivedFrom.Some? :: q.path
  }

  /** The plan's reused list names exactly the pages marked as derived from the parent. */
  lemma ReusedListIsCopiedPages(
    r: IncrementalResult, parent: Parent, docs: Documents, compiled: seq<WikiPage>, deletions: seq<string>)
    requires DistinctPaths(parent.pages)
    requires IsIncremental(r, parent, docs, compiled, deletions)
    requires forall p | p in compiled :: FromCompiler(p, docs)
    ensures Elements(r.plan.reused) == CopiedPaths(r.pages)
  {
    var reused, copied := r.plan.reused, CopiedPaths(r.pages);
    forall path ensures path in reused ==> path in copied {
      if path in reused {
        ReusedIsCopied(r, parent, docs, compiled, deletions, path);
      }
    }
    forall path ensures path in copied ==> path in reused {
      if path in copied {
        CopiedIsReused(r, parent, docs, compiled, deletions, path);
      }
    }
    ElementsAre(reused, copied);
  }

  lemma ElementsAre(paths: seq<string>, members: set<string>)
    requires forall path :: path in paths <==> path in members
    ensures Elements(paths) == members
  {
  }

  lemma ReusedIsCopied(
    r: IncrementalResult, parent: Parent, docs: Documents, compiled: seq<WikiPage>, deletions: seq<string>,
    path: string)
    requires DistinctPaths(parent.pages)
    requires IsIncremental(r, parent, docs, compiled, deletions)
    requires path in r.plan.reused
    ensures path in CopiedPaths(r.pages)
  {
    ReusedPathsExact(parent, docs, compiled, deletions, path);
    var p :| p in ContentPages(parent.pages) && p.path == path;
    UnscheduledPageSurvives(r, parent, docs, compiled, deletions, p);
  }

  lemma CopiedIsReused(
    r: IncrementalResult, parent: Parent, docs: Documents, compiled: seq<WikiPage>, deletions: seq<string>,
    path: string)
    requires IsIncremental(r, parent, docs, compiled, deletions)
    requires forall p | p in compiled :: FromCompiler(p, docs)
    requires path in CopiedPaths(r.pages)
    ensures path in r.plan.reused
  {
    var q :| q in r.pages && q.derivedFrom.Some? && q.path == path;
    var _ := CopySource(r, parent, docs, compiled, deletions, q);
    ReusedPathsExact(parent, docs, compiled, deletions, path);
  }

  /** The reported reuse count is the number of pages carried over from the parent. */
  lemma ReusedCountExact(
    r: IncrementalResult, parent: Parent, docs: Documents, compiled: seq<WikiPage>, deletions: seq<string>)
    requires DistinctPaths(parent.pages)
    requires IsIncremental(r, parent, docs, compiled, deletions)
    requires forall p | p in compiled :: FromCompiler(p, docs)
    ensures r.reusedCount == |CopiedPaths(r.pages)| == |r.plan.reused|
  {
    var scheduled := r.plan.scheduled;
    FilterKeepsDistinctPaths(parent.pages, IsContentPage());
    ReusedListIsCopiedPages(r, parent, docs, compiled, deletions);
    if r.plan.diff.IsEmpty() {
      DistinctPathCount(ContentPages(parent.pages));
      CopiedPathsOfCopies(r.plan.reused, ContentPages(parent.pages));
    } else {
      FilterKeepsDistinctPaths(ContentPages(parent.pages), NotAt(scheduled));
      DistinctPathCount(Reusable(parent, scheduled));
      CopiedPathsOfCopies(r.plan.reused, Reusable(parent, scheduled));
      PreparedPaths(parent, docs, scheduled);
      CarriedPathsExact(parent, docs, scheduled, compiled, deletions);
    }
  }

  lemma CopiedPathsOfCopies(reused: seq<string>, pages: seq<WikiPage>)
    requires reused == SortStrings(PathList(pages))
    ensures |reused| == |pages| && Elements(reused) == PathsOf(pages)
  {
    forall path
      ensures path in Elements(reused) <==> path in PathsOf(pages)
    {
      PathListMembers(pages, path);
    }
  }

  lemma CarriedPathsExact(
    parent: Parent, docs: Documents, scheduled: seq<string>, compiled: seq<WikiPage>, deletions: seq<string>)
    ensures CarriedPaths(Map(Reusable(parent, scheduled), PreparePage(parent.id, docs)),
                         KeptWrites(parent, scheduled, compiled), KeptDeletions(scheduled, deletions))
         == PathsOf(Reusable(parent, scheduled))
  {
    PreparedPaths(parent, docs, scheduled);
    forall path | path in PathsOf(Reusable(parent, scheduled))
      ensures path !in PathsOf(KeptWrites(parent, scheduled, compiled)) && path !in KeptDeletions(scheduled, deletions)
    {
      PathListMembers(ContentPages(parent.pages), path);
    }
  }

  /** The outcome lists overlap in one way only: a scheduled page both rewritten and deleted. */
  lemma OutcomeListsOverlap(
    parent: Parent, docs: Documents, compiled: seq<WikiPage>, deletions: seq<string>, path: string)
    requires !Diff(parent.docs, docs).IsEmpty()
    ensures var plan := PlanOf(parent, docs, compiled, deletions);
      && !(path in plan.reused && (path in plan.recompiled || path in plan.deleted))
      && (path in plan.recompiled && path in plan.deleted <==>
            path in plan.scheduled && path in PathsOf(compiled) && path in deletions)
  {
    ReusedPathsExact(parent, docs, compiled, deletions, path);
    RecompiledPathsExact(parent, docs, compiled, deletions, path);
  }

  // ---------------------------------------------------------------------------------------
  // One hop is enough.
  // ---------------------------------------------------------------------------------------

  /** Links as a committed build stores them: resolved exactly when the target exists. */
  ghost predicate LinksResolved(pages: seq<WikiPage>) {
    forall p, l | p in pages && l in p.links ::
      l.targetPage == if l.targetPath in PathsOf(pages) then Some(l.targetPath) else None
  }

  ghost predicate LinksClosed(pages: seq<WikiPage>) {
    forall p | p in pages :: LinkTargets(p) <= PathsOf(pages)
  }

  ghost predicate Covered(plan: IncrementalPlan) {
    forall path | path in plan.scheduled :: path in plan.recompiled || path in plan.deleted
  }

  ghost predicate GoodParent(pages: seq<WikiPage>) {
    DistinctPaths(pages) && LinksResolved(pages) && LinksClosed(pages)
  }

  /** With nothing to do, every content page survives. */
  lemma IdleTargetSurvives(
    r: IncrementalResult, parent: Parent, docs: Documents, compiled: seq<WikiPage>, deletions: seq<string>, t: WikiPage)
    requires DistinctPaths(parent.pages) && IsIncremental(r, parent, docs, compiled, deletions)
    requires r.plan.diff.IsEmpty() && t in parent.pages
    ensures t.path in PathsOf(r.pages) || t.path in RESERVED_PATHS
    ensures t.path !in r.plan.deleted
  {
    ScheduledExact(parent.pages, r.plan.diff.Touched(), t.path);
    if t.path !in RESERVED_PATHS {
      UnscheduledPageSurvives(r, parent, docs, compiled, deletions, t);
    }
  }

  /** Otherwise a content path of the parent is missing exactly when it was deleted. */
  lemma BusyTargetSurvives(
    r: IncrementalResult, parent: Parent, docs: Documents, compiled: seq<WikiPage>, deletions: seq<string>, t: WikiPage)
    requires DistinctPaths(parent.pages) && IsIncremental(r, parent, docs, compiled, deletions) && Covered(r.plan)
    requires !r.plan.diff.IsEmpty() && t in parent.pages
    ensures t.path in PathsOf(r.pages) || t.path in RESERVED_PATHS <==> t.path !in r.plan.deleted
  {
    ScheduledExact(parent.pages, r.plan.diff.Touched(), t.path);
    RecompiledPathsExact(parent, docs, compiled, deletions, t.path);
    MergedPathExact(parent, docs, compiled, deletions, t.path);
    ReusedPathsExact(parent, docs, compiled, deletions, t.path);
    assert ListsPages(r.pages, MergeOf(parent, docs, compiled, deletions));
    PathListMembers(r.pages, t.path);
  }

  /** A link of a carried page dangles exactly when its target was deleted. */
  lemma CarriedLinkExact(
    r: IncrementalResult, parent: Parent, docs: Documents, compiled: seq<WikiPage>, deletions: seq<string>,
    p: WikiPage, target: string)
    requires GoodParent(parent.pages)
    requires IsIncremental(r, parent, docs, compiled, deletions) && Covered(r.plan)
    requires p in ContentPages(parent.pages) && target in LinkTargets(p)
    ensures target in PathsOf(r.pages) || target in RESERVED_PATHS <==> target !in r.plan.deleted
  {
    var t :| t in parent.pages && t.path == target;
    if r.plan.diff.IsEmpty() {
      IdleTargetSurvives(r, parent, docs, compiled, deletions, t);
    } else {
      BusyTargetSurvives(r, parent, docs, compiled, deletions, t);
    }
  }

  ghost predicate CopiesClosed(r: IncrementalResult) {
    forall q, target | q in r.pages && q.derivedFrom.Some? && target in LinkTargets(q) ::
      target in PathsOf(r.pages) || target in RESERVED_PATHS
  }

  /** A caller can check this on the plan before merging: no carried page links to a deletion. */
  ghost predicate NoCarriedLinkToDeleted(parent: Parent, plan: IncrementalPlan) {
    forall p, target | Carried(p, parent, plan) && target in LinkTargets(p) :: target !in plan.deleted
  }

  /** If only pages that cite a touched document are deleted, no carried page is left dangling. */
  lemma OneHopIsEnough(
    r: IncrementalResult, parent: Parent, docs: Documents, compiled: seq<WikiPage>, deletions: seq<string>)
    requires GoodParent(parent.pages)
    requires IsIncremental(r, parent, docs, compiled, deletions) && Covered(r.plan)
    requires forall p | p in compiled :: FromCompiler(p, docs)
    requires forall path | path in r.plan.deleted :: path in CitingPaths(parent.pages, r.plan.diff.Touched())
    ensures CopiesClosed(r)
  {
    forall p, target | Carried(p, parent, r.plan) && target in LinkTargets(p)
      ensures target !in r.plan.deleted
    {
      UnscheduledIsUntouched(parent, r.plan.diff.Touched(), p);
      var l :| l in p.links && l.targetPath == target;
      assert l.targetPage == Some(target);
    }
    CopiesClosedExactly(r, parent, docs, compiled, deletions);
  }

  /** In general: the carried pages stay closed exactly when none of them links to a deleted page. */
  lemma CopiesClosedExactly(
    r: IncrementalResult, parent: Parent, docs: Documents, compiled: seq<WikiPage>, deletions: seq<string>)
    requires GoodParent(parent.pages)
    requires IsIncremental(r, parent, docs, compiled, deletions) && Covered(r.plan)
    requires forall p | p in compiled :: FromCompiler(p, docs)
    ensures CopiesClosed(r) <==> NoCarriedLinkToDeleted(parent, r.plan)
  {
    if CopiesClosed(r) {
      forall p, target | Carried(p, parent, r.plan) && target in LinkTargets(p)
        ensures target !in r.plan.deleted
      {
        CarriedLinkExact(r, parent, docs, compiled, deletions, p, target);
        UnscheduledPageSurvives(r, parent, docs, compiled, deletions, p);
        PreparedLinkTargets(parent.id, docs, p);
      }
    }
    if NoCarriedLinkToDeleted(parent, r.plan) {
      forall q, target | q in r.pages && q.derivedFrom.Some? && target in LinkTargets(q)
        ensures target in PathsOf(r.pages) || target in RESERVED_PATHS
      {
        var p := CopySource(r, parent, docs, compiled, deletions, q);
        PreparedLinkTargets(parent.id, docs, p);
        CarriedLinkExact(r, parent, docs, compiled, deletions, p, target);
      }
    }
  }

  lemma PreparedLinkTargets(parent: BuildId, docs: Documents, p: WikiPage)
    ensures LinkTargets(PreparePage(parent, docs)(p)) == LinkTargets(p)
  {
    var q := PreparePage(parent, docs)(p);
    forall target
      ensures target in LinkTargets(q) <==> target in LinkTargets(p)
    {
      if l :| l in p.links && l.targetPath == target {
        MapMember(p.links, UnresolveLink, UnresolveLink(l));
      }
      if l :| l in q.links && l.targetPath == target {
        MapMember(p.links, UnresolveLink, l);
      }
    }
  }

  // ---------------------------------------------------------------------------------------
  // Where the code does less than its comments say.
  // ---------------------------------------------------------------------------------------

  /** "c" links to "b", "b" links to "a", "a" cites a touched document and "c" is two hops away. */
  ghost predicate TwoHops(parent: Parent, touched: seq<string>, a: WikiPage, b: WikiPage, c: WikiPage) {
    && GoodParent(parent.pages)
    && a in parent.pages && b in ContentPages(parent.pages) && c in ContentPages(parent.pages)
    && CitesAny(a, touched) && a.path in LinkTargets(b) && b.path in LinkTargets(c)
    && c.path !in CitingPaths(parent.pages, touched)
    && c.path !in LinkingPaths(parent.pages, CitingPaths(parent.pages, touched))
  }

  /** Deleting a page that was scheduled only as a linker breaks the page two hops away, and the
      plan still honours both of its rules: only link closure catches it. */
  lemma SecondHopDeletionDangles(
    r: IncrementalResult, parent: Parent, docs: Documents, compiled: seq<WikiPage>, deletions: seq<string>,
    a: WikiPage, b: WikiPage, c: WikiPage)
    requires TwoHops(parent, Diff(parent.docs, docs).Touched(), a, b, c)
    requires IsIncremental(r, parent, docs, compiled, deletions) && Covered(r.plan)
    requires forall p | p in compiled :: FromCompiler(p, docs)
    requires b.path in deletions
    ensures !CopiesClosed(r)
  {
    TwoHopsScheduled(parent, Diff(parent.docs, docs).Touched(), a, b, c);
    DeletionReachesPlan(parent, docs, compiled, deletions, b.path);
    assert Carried(c, parent, r.plan);
    CopiesClosedExactly(r, parent, docs, compiled, deletions);
  }

  lemma TwoHopsScheduled(parent: Parent, touched: seq<string>, a: WikiPage, b: WikiPage, c: WikiPage)
    requires TwoHops(parent, touched, a, b, c)
    ensures b.path in Scheduled(parent.pages, touched) && c.path !in Scheduled(parent.pages, touched)
    ensures touched != []
  {
    var l :| l in b.links && l.targetPath == a.path;
    assert l.targetPage == Some(a.path) && LinksInto(b, CitingPaths(parent.pages, touched));
    ScheduledExact(parent.pages, touched, b.path);
    ScheduledExact(parent.pages, touched, c.path);
  }

  lemma DeletionReachesPlan(
    parent: Parent, docs: Documents, compiled: seq<WikiPage>, deletions: seq<string>, path: string)
    requires Diff(parent.docs, docs).Touched() != []
    requires path in deletions && path in Scheduled(parent.pages, Diff(parent.docs, docs).Touched())
    ensures path in PlanOf(parent, docs, compiled, deletions).deleted
  {
    RecompiledPathsExact(parent, docs, compiled, deletions, path);
  }

  /** With nothing changed the copies keep the order the parent was loaded in, by kind and then
      path, so the resulting pages need not be in path order. */
  lemma IdleBuildKeepsLoadOrder(
    r: IncrementalResult, parent: Parent, docs: Documents, compiled: seq<WikiPage>, deletions: seq<string>)
    requires IsIncremental(r, parent, docs, compiled, deletions)
    requires r.plan.diff.IsEmpty()
    ensures PathList(r.pages) == PathList(ContentPages(parent.pages))
    ensures r.plan.reused == SortStrings(PathList(r.pages)) && r.reusedCount == |r.pages|
    ensures r.plan.scheduled == r.plan.recompiled == r.plan.deleted == r.plan.rejected == []
  {
    assert PathList(r.pages) == PathList(ContentPages(parent.pages));
  }

  lemma LoadOrderSnoc(pages: seq<WikiPage>, last: WikiPage)
    requires InLoadOrder(pages) && forall p | p in pages :: LoadsBefore(p, last)
    ensures InLoadOrder(pages + [last])
  {
    forall i | 0 <= i < |pages| ensures LoadsBefore(pages[i], last) {
      assert pages[i] in pages;
    }
  }

  lemma {:induction false} FilterKeepsLoadOrder(pages: seq<WikiPage>, keep: WikiPage -> bool)
    requires InLoadOrder(pages)
    ensures InLoadOrder(Filter(pages, keep))
  {
    if pages != [] {
      var init, last := pages[..|pages| - 1], pages[|pages| - 1];
      FilterKeepsLoadOrder(init, keep);
      forall p | p in Filter(init, keep) ensures LoadsBefore(p, last) {
        assert p in init;
        var i :| 0 <= i < |init| && init[i] == p;
        assert LoadsBefore(pages[i], pages[|pages| - 1]);
      }
      LoadOrderSnoc(Filter(init, keep), last);
    }
  }

  /** Loaded by kind and then path, pages are in path order exactly when no page of a later kind has a smaller path. */
  ghost predicate KindsAgreeWithPaths(pages: seq<WikiPage>) {
    forall p, q | p in pages && q in pages && Less(p.kind, q.kind) :: !Less(q.path, p.path)
  }

  lemma LoadOrderIsPathOrder(pages: seq<WikiPage>)
    requires InLoadOrder(pages) && DistinctPaths(pages)
    ensures StrictlySorted(PathList(pages)) <==> KindsAgreeWithPaths(pages)
  {
    if KindsAgreeWithPaths(pages) {
      forall i, j | 0 <= i < j < |pages| ensures Less(PathList(pages)[i], PathList(pages)[j]) {
        assert LoadsBefore(pages[i], pages[j]) && pages[i] in pages && pages[j] in pages;
        LessExact(pages[i].path, pages[j].path);
      }
    }
    if StrictlySorted(PathList(pages)) {
      forall p, q | p in pages && q in pages && Less(p.kind, q.kind) ensures !Less(q.path, p.path) {
        var i :| 0 <= i < |pages| && pages[i] == p;
        var j :| 0 <= j < |pages| && pages[j] == q;
        LessExact(p.kind, q.kind);
        LessExact(p.path, q.path);
        assert j < i ==> LoadsBefore(pages[j], pages[i]);
        assert i < j ==> Less(PathList(pages)[i], PathList(pages)[j]);
      }
    }
  }

  /** So with nothing changed the result is in path order, as every other build is, if and only if kinds and paths of
      the parent's content pages agree. */
  lemma IdleBuildIsSortedExactly(
    r: IncrementalResult, parent: Parent, docs: Documents, compiled: seq<WikiPage>, deletions: seq<string>)
    requires IsIncremental(r, parent, docs, compiled, deletions) && r.plan.diff.IsEmpty()
    requires InLoadOrder(parent.pages) && DistinctPaths(parent.pages)
    ensures StrictlySorted(PathList(r.pages)) <==> KindsAgreeWithPaths(ContentPages(parent.pages))
  {
    IdleBuildKeepsLoadOrder(r, parent, docs, compiled, deletions);
    FilterKeepsLoadOrder(parent.pages, IsContentPage());
    FilterKeepsDistinctPaths(parent.pages, IsContentPage());
    LoadOrderIsPathOrder(ContentPages(parent.pages));
  }

  // ---------------------------------------------------------------------------------------
  // There is a result for every reply.
  // ---------------------------------------------------------------------------------------

  lemma ListingExists(byPath: map<string, WikiPage>) returns (pages: seq<WikiPage>)
    requires forall path | path in byPath :: byPath[path].path == path
    ensures ListsPages(pages, byPath)
  {
    var paths := SortedListing(byPath.Keys);
    pages := seq(|paths|, i requires 0 <= i < |paths| => (assert paths[i] in paths; byPath[paths[i]]));
    forall i | 0 <= i < |paths| ensures pages[i].path == paths[i] {
      assert paths[i] in paths;
    }
    assert PathList(pages) == paths;
  }

  lemma ResultExists(parent: Parent, docs: Documents, compiled: seq<WikiPage>, deletions: seq<string>)
    returns (r: IncrementalResult)
    requires !Diff(parent.docs, docs).IsEmpty()
    ensures IsIncremental(r, parent, docs, compiled, deletions)
  {
    var plan := PlanOf(parent, docs, compiled, deletions);
    var copies := Map(Reusable(parent, plan.scheduled), PreparePage(parent.id, docs));
    var kept, gone := KeptWrites(parent, plan.scheduled, compiled), KeptDeletions(plan.scheduled, deletions);
    forall path | path in MergedPages(copies, kept, gone)
      ensures MergedPages(copies, kept, gone)[path].path == path
    {
      MergedAt(copies, kept, gone, path);
    }
    var pages := ListingExists(MergeOf(parent, docs, compiled, deletions));
    r := IncrementalResult(pages, |CarriedPaths(copies, kept, gone)|, plan);
    IncrementalByParts(r, parent, docs, compiled, deletions);
  }
}
