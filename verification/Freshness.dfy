/** Freshness over whole histories, and what a stored wiki looks like. */
module Freshness {
  import opened Assembly
  import opened BuildStore
  import opened Check
  import opened Incremental
  import opened IncrementalProperties
  import Lint
  import opened Lists
  import opened Protocol
  import opened ProtocolTheorems
  import opened Wiki
  import opened Wrappers

  // ---------------------------------------------------------------------------------------
  // Storing keeps what the gate accepted.
  // ---------------------------------------------------------------------------------------

  lemma StoredLinkTargets(b: BuildId, paths: set<string>, p: WikiPage)
    ensures LinkTargets(StorePage(b, paths)(p)) == LinkTargets(p)
  {
    var q := StorePage(b, paths)(p);
    forall target
      ensures target in LinkTargets(q) <==> target in LinkTargets(p)
    {
      if l :| l in q.links && l.targetPath == target {
        StoredLinkIsGiven(p.links, paths, l);
      }
      if k :| k in p.links && k.targetPath == target {
        GivenLinkIsStored(p.links, paths, k);
      }
    }
  }

  lemma StoredPaths(b: BuildId, pages: seq<WikiPage>)
    ensures PathList(StorePages(b, pages)) == PathList(pages)
    ensures PathsOf(StorePages(b, pages)) == PathsOf(pages)
  {
    var stored := StorePages(b, pages);
    assert PathList(stored) == PathList(pages);
    forall path
      ensures path in PathsOf(stored) <==> path in PathsOf(pages)
    {
      PathListMembers(stored, path);
      PathListMembers(pages, path);
    }
  }

  lemma StoredPageWellFormed(input: CheckInput, b: BuildId, p: WikiPage)
    requires PageWellFormed(input, p)
    ensures PageWellFormed(input.(pages := StorePages(b, input.pages)), StorePage(b, PathsOf(input.pages))(p))
  {
    var paths := PathsOf(input.pages);
    var q := StorePage(b, paths)(p);
    StoredPaths(b, input.pages);
    forall l | l in q.links
      ensures LinkWellFormed(input.(pages := StorePages(b, input.pages)), l)
    {
      StoredLinkIsGiven(p.links, paths, l);
      var k :| k in p.links && l == ResolveLink(paths, k);
      assert LinkWellFormed(input, k);
    }
  }

  lemma StoredIndexCoverage(b: BuildId, pages: seq<WikiPage>, path: string)
    ensures LinkedFromIndex(StorePages(b, pages), path) <==> LinkedFromIndex(pages, path)
    ensures HasIndex(StorePages(b, pages)) <==> HasIndex(pages)
  {
    var store := StorePage(b, PathsOf(pages));
    forall p
      ensures LinkTargets(store(p)) == LinkTargets(p) && store(p).kind == p.kind
    {
      StoredLinkTargets(b, PathsOf(pages), p);
    }
    forall q
      ensures q in StorePages(b, pages) <==> exists p :: p in pages && q == store(p)
    {
      MapMember(pages, store, q);
    }
  }

  lemma StoredPagesWellFormed(input: CheckInput, b: BuildId, q: WikiPage)
    requires WellFormed(input) && q in StorePages(b, input.pages)
    ensures PageWellFormed(input.(pages := StorePages(b, input.pages)), q)
    ensures HasIndex(StorePages(b, input.pages)) ==>
      IsGenerated(q) || LinkedFromIndex(StorePages(b, input.pages), q.path)
  {
    MapMember(input.pages, StorePage(b, PathsOf(input.pages)), q);
    var p :| p in input.pages && q == StorePage(b, PathsOf(input.pages))(p);
    StoredPageWellFormed(input, b, p);
    StoredIndexCoverage(b, input.pages, p.path);
  }

  /** A wiki that passed the gate still passes it after being written out row by row. */
  lemma StoredWikiIsWellFormed(input: CheckInput, b: BuildId)
    requires WellFormed(input)
    ensures WellFormed(input.(pages := StorePages(b, input.pages)))
  {
    var stored := StorePages(b, input.pages);
    forall q | q in stored
      ensures PageWellFormed(input.(pages := stored), q)
      ensures HasIndex(stored) ==> IsGenerated(q) || LinkedFromIndex(stored, q.path)
    {
      StoredPagesWellFormed(input, b, q);
    }
    GateTransfers(input, stored);
  }

  lemma GateTransfers(input: CheckInput, stored: seq<WikiPage>)
    requires WellFormed(input) && PathList(stored) == PathList(input.pages)
    requires forall q | q in stored :: PageWellFormed(input.(pages := stored), q)
    requires forall q | q in stored :: HasIndex(stored) ==> IsGenerated(q) || LinkedFromIndex(stored, q.path)
    ensures WellFormed(input.(pages := stored))
  {
    assert |stored| == |input.pages|;
    forall i | 0 <= i < |stored|
      ensures stored[i].path == input.pages[i].path
    {
      assert PathList(stored)[i] == PathList(input.pages)[i];
    }
  }

  /** And it is a graph that can be an incremental build's parent: paths are unique, every link
      closes, and each resolved target is the page it names. */
  lemma StoredWikiIsGoodParent(input: CheckInput, b: BuildId)
    requires WellFormed(input)
    ensures GoodParent(StorePages(b, input.pages))
  {
    var stored := StorePages(b, input.pages);
    var paths := PathsOf(input.pages);
    StoredPaths(b, input.pages);
    StoredWikiIsWellFormed(input, b);
    forall q, l | q in stored && l in q.links
      ensures l.targetPage == if l.targetPath in paths then Some(l.targetPath) else None
      ensures l.targetPath in paths
    {
      MapMember(input.pages, StorePage(b, paths), q);
      var p :| p in input.pages && q == StorePage(b, paths)(p);
      StoredLinkIsGiven(p.links, paths, l);
      assert PageWellFormed(input.(pages := stored), q);
      assert LinkWellFormed(input.(pages := stored), l);
    }
  }

  lemma CommittedWikiIsGoodParent(s: System, b: BuildId)
    requires Inv(s) && b in s.db.pages
    ensures GoodParent(s.db.pages[b])
  {
    var d :| CommittedAs(s, b, d);
    assert DraftInv(s.db, d);
    var count, tokens, plan :|
      WellFormed(CheckInput(s.db.profiles[s.db.builds[b].identity.profileVersionId], d.pages, DocsOf(s.db, b).Keys,
                            count, tokens, plan));
    StoredWikiIsGoodParent(
      CheckInput(s.db.profiles[s.db.builds[b].identity.profileVersionId], d.pages, DocsOf(s.db, b).Keys,
                 count, tokens, plan), b);
  }

  // ---------------------------------------------------------------------------------------
  // Where a page's text comes from.
  // ---------------------------------------------------------------------------------------

  /** Follow derived_from_build_id back to the build whose compiler wrote the text. */
  ghost function Origin(db: Db, b: BuildId, q: WikiPage): (BuildId, WikiPage)
    decreases b
  {
    if q.derivedFrom.Some? && q.derivedFrom.value < b
       && exists p :: p in PagesOf(db, q.derivedFrom.value) && SameText(q, p)
    then
      var p :| p in PagesOf(db, q.derivedFrom.value) && SameText(q, p);
      Origin(db, q.derivedFrom.value, p)
    else (b, q)
  }

  lemma OriginStep(db: Db, b: BuildId, q: WikiPage) returns (p: WikiPage)
    requires q.derivedFrom.Some? && q.derivedFrom.value < b
    requires exists p :: p in PagesOf(db, q.derivedFrom.value) && SameText(q, p)
    ensures p in PagesOf(db, q.derivedFrom.value) && SameText(q, p)
    ensures Origin(db, b, q) == Origin(db, q.derivedFrom.value, p)
  {
    p :| p in PagesOf(db, q.derivedFrom.value) && SameText(q, p)
         && Origin(db, b, q) == Origin(db, q.derivedFrom.value, p);
  }

  lemma StoredPageFacts(s: System, b: BuildId, q: WikiPage)
    requires Inv(s) && b in s.db.pages && q in s.db.pages[b]
    ensures b in s.db.builds && Provenance(s.db, b, q) && ResolvedIds(DocsOf(s.db, b), q)
    ensures forall c | c in q.citations :: c.documentPath in DocsOf(s.db, b)
  {
    var d :| CommittedAs(s, b, d);
    assert DraftInv(s.db, d);
    MapMember(d.pages, StorePage(b, PathsOf(d.pages)), q);
    var p :| p in d.pages && q == StorePage(b, PathsOf(d.pages))(p);
    assert Provenance(s.db, b, p) && ResolvedIds(DocsOf(s.db, b), p);
    StoredProvenance(s.db, b, p, q);
    DraftCitesKnownDocuments(s.db, d, p);
  }

  lemma StoredProvenance(db: Db, b: BuildId, p: WikiPage, q: WikiPage)
    requires b in db.builds && Provenance(db, b, p)
    requires q.path == p.path && q.kind == p.kind && q.title == p.title && q.content == p.content
    requires q.citations == p.citations && q.derivedFrom == p.derivedFrom
    ensures Provenance(db, b, q)
  {
    if p.derivedFrom.Some? {
      var p0 :| p0 in db.pages[p.derivedFrom.value] && SameText(p, p0);
      assert SameText(q, p0);
    }
  }

  lemma DraftCitesKnownDocuments(db: Db, d: Draft, p: WikiPage)
    requires DraftInv(db, d) && p in d.pages
    ensures forall c | c in p.citations :: c.documentPath in DocsOf(db, d.build)
  {
    var profile := db.profiles[db.builds[d.build].identity.profileVersionId];
    var count, tokens, plan :|
      WellFormed(CheckInput(profile, d.pages, DocsOf(db, d.build).Keys, count, tokens, plan));
    assert PageWellFormed(CheckInput(profile, d.pages, DocsOf(db, d.build).Keys, count, tokens, plan), p);
  }

  /** The page's claims rest on documents of its own build's revision that are byte for byte what
      they were when the text was compiled, and the build it was compiled for records the same
      compiler identity. (RunBuild does not compare that record with the compiler it calls.) */
  ghost predicate Fresh(db: Db, b: BuildId, q: WikiPage, o: BuildId, p: WikiPage) {
    && o in db.pages && o in db.builds && b in db.builds && p in db.pages[o]
    && p.derivedFrom.None? && SameText(q, p)
    && db.builds[o].identity == db.builds[b].identity
    && forall c | c in q.citations ::
         && c.documentPath in DocsOf(db, b) && c.documentPath in DocsOf(db, o)
         && DocsOf(db, b)[c.documentPath].hash == DocsOf(db, o)[c.documentPath].hash
         && c.documentId == Some(DocsOf(db, b)[c.documentPath].id)
  }

  /** The parent's page a stored copy was made from. */
  lemma CopiedFrom(s: System, b: BuildId, q: WikiPage) returns (p: WikiPage)
    requires Inv(s) && b in s.db.pages && q in s.db.pages[b] && q.derivedFrom.Some?
    ensures q.derivedFrom.value < b && q.derivedFrom.value in s.db.pages && p in s.db.pages[q.derivedFrom.value]
    ensures SameText(q, p) && Origin(s.db, b, q) == Origin(s.db, q.derivedFrom.value, p)
  {
    StoredPageFacts(s, b, q);
    assert LineageInv(s.db, b);
    p := OriginStep(s.db, b, q);
  }

  lemma FreshWhereWritten(db: Db, b: BuildId, q: WikiPage)
    requires b in db.pages && b in db.builds && q in db.pages[b] && q.derivedFrom.None?
    requires ResolvedIds(DocsOf(db, b), q)
    requires forall c | c in q.citations :: c.documentPath in DocsOf(db, b)
    ensures Fresh(db, b, q, b, q)
  {
  }

  lemma {:induction false} StoredPageIsFresh(s: System, b: BuildId, q: WikiPage)
    requires Inv(s) && b in s.db.pages && q in s.db.pages[b]
    ensures Fresh(s.db, b, q, Origin(s.db, b, q).0, Origin(s.db, b, q).1)
    decreases b
  {
    StoredPageFacts(s, b, q);
    if q.derivedFrom.None? {
      FreshWhereWritten(s.db, b, q);
    } else {
      var p := CopiedFrom(s, b, q);
      StoredPageIsFresh(s, q.derivedFrom.value, p);
      FreshThroughCopy(s.db, b, q, q.derivedFrom.value, p, Origin(s.db, b, q).0, Origin(s.db, b, q).1);
    }
  }

  lemma FreshThroughCopy(db: Db, b: BuildId, q: WikiPage, parent: BuildId, p: WikiPage, o: BuildId, text: WikiPage)
    requires b in db.builds && q.derivedFrom == Some(parent) && Provenance(db, b, q)
    requires forall c | c in q.citations :: c.documentPath in DocsOf(db, b)
    requires SameText(q, p) && Fresh(db, parent, p, o, text)
    ensures Fresh(db, b, q, o, text)
  {
    forall c | c in q.citations
      ensures c.documentPath in DocsOf(db, o)
      ensures DocsOf(db, b)[c.documentPath].hash == DocsOf(db, o)[c.documentPath].hash
    {
      var i :| 0 <= i < |q.citations| && q.citations[i] == c;
      assert p.citations[i].documentPath == c.documentPath && p.citations[i] in p.citations;
    }
  }

  /** Freshness over whole histories: after any run, whatever the compilers replied and however the
      workers were scheduled, every citation of every committed page is fresh. */
  lemma EveryCommittedPageIsFresh(s: System, b: BuildId, q: WikiPage)
    requires Reachable(s) && b in s.db.pages && q in s.db.pages[b]
    ensures Fresh(s.db, b, q, Origin(s.db, b, q).0, Origin(s.db, b, q).1)
  {
    ReachableInv(s);
    StoredPageIsFresh(s, b, q);
  }

  /** The wiki a reader sees: closed links, unique paths, resolved targets, fresh citations. */
  lemma ActiveWikiIsClosedAndFresh(s: System, source: string)
    requires Reachable(s) && source in s.db.active
    ensures s.db.active[source] in s.db.pages
    ensures GoodParent(s.db.pages[s.db.active[source]])
    ensures forall q | q in s.db.pages[s.db.active[source]] ::
      Fresh(s.db, s.db.active[source], q,
            Origin(s.db, s.db.active[source], q).0, Origin(s.db, s.db.active[source], q).1)
  {
    ReachableInv(s);
    CommittedWikiIsGoodParent(s, s.db.active[source]);
    forall q | q in s.db.pages[s.db.active[source]]
      ensures Fresh(s.db, s.db.active[source], q,
                    Origin(s.db, s.db.active[source], q).0, Origin(s.db, s.db.active[source], q).1)
    {
      StoredPageIsFresh(s, s.db.active[source], q);
    }
  }

  /** A committed wiki's citations resolve in its own revision, by path and by row. */
  lemma CommittedWikiCitesItsRevision(s: System, b: BuildId)
    requires Reachable(s) && b in s.db.pages
    ensures Lint.CitesRevision(s.db.pages[b], DocsOf(s.db, b))
  {
    forall q, c | q in s.db.pages[b] && c in q.citations
      ensures Lint.CitesDocument(c, DocsOf(s.db, b))
    {
      EveryCommittedPageIsFresh(s, b, q);
    }
  }

  /** On any committed wiki of any run, against any revision's files: what lint calls stale cites a document that the
      diff since the wiki's own revision touches; and it is all of them if and only if no page is hidden by documents
      that kept their hash but lost their text. */
  lemma LintSeesWhatMoved(s: System, b: BuildId, current: StoredDocuments, hashOf: map<string, string>)
    requires Reachable(s) && b in s.db.pages
    requires Lint.KnowsHashes(hashOf, DocsOf(s.db, b))
    ensures var citing := CitingPaths(s.db.pages[b], Diff(DocsOf(s.db, b), Indexable(current)).Touched());
      && Lint.StalePages(s.db.pages[b], current, hashOf) <= citing
      && (Lint.StalePages(s.db.pages[b], current, hashOf) == citing <==>
            Lint.NothingHidden(s.db.pages[b], DocsOf(s.db, b), current, hashOf))
  {
    CommittedWikiCitesItsRevision(s, b);
    CommittedPathsAreDistinct(s, b);
    Lint.StaleIsCitingTouched(s.db.pages[b], DocsOf(s.db, b), current, hashOf);
    Lint.StaleMeansCitingTouched(s.db.pages[b], DocsOf(s.db, b), current, hashOf);
  }

  lemma CommittedPathsAreDistinct(s: System, b: BuildId)
    requires Reachable(s) && b in s.db.pages
    ensures DistinctPaths(s.db.pages[b])
  {
    ReachableInv(s);
    CommittedWikiIsGoodParent(s, b);
  }
}
