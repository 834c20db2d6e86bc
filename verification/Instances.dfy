/** Concrete inputs on which the conditional guarantees of the incremental build and of supersession fail. */
module Instances {
  import opened Check
  import opened Incremental
  import opened IncrementalBuild
  import opened IncrementalProperties
  import opened Lists
  import opened MemoryStore
  import opened Ordering
  import opened Replacement
  import opened Wiki
  import opened Wrappers

  // ---------------------------------------------------------------------------------------
  // A deletion that dangles two hops away.
  // ---------------------------------------------------------------------------------------

  function Plain(path: string, citations: seq<Citation>, links: seq<Link>): WikiPage {
    WikiPage(Some(1), path, "concept", "", "text", None, citations, links)
  }

  /** "c" links to "b", "b" links to "a", and only "a" cites a document. */
  ghost predicate IsChainWiki(pages: seq<WikiPage>, a: WikiPage, b: WikiPage, c: WikiPage) {
    && a == Plain("a", [Citation(Some("1"), "doc", "", "", "")], [])
    && b == Plain("b", [], [Link(Some("a"), "a", LINK_REFERENCES, "")])
    && c == Plain("c", [], [Link(Some("b"), "b", LINK_REFERENCES, "")])
    && pages == [a, b, c]
  }

  lemma ChainWikiIsGoodParent(pages: seq<WikiPage>, a: WikiPage, b: WikiPage, c: WikiPage)
    requires IsChainWiki(pages, a, b, c)
    ensures GoodParent(pages) && PathsOf(pages) == {"a", "b", "c"}
  {
    assert pages[0] == a && pages[1] == b && pages[2] == c;
    assert PathsOf(pages) == {"a", "b", "c"};
  }

  lemma ChainWikiCites(pages: seq<WikiPage>, a: WikiPage, b: WikiPage, c: WikiPage, touched: seq<string>)
    requires IsChainWiki(pages, a, b, c) && "doc" in touched
    ensures CitesAny(a, touched) && CitingPaths(pages, touched) == {"a"}
    ensures LinkingPaths(pages, {"a"}) == {"b"}
  {
    assert pages[0] == a && pages[1] == b && pages[2] == c;
    assert a.citations[0].documentPath in touched;
    assert b.links[0].targetPage.value in {"a"} && LinksInto(b, {"a"});
    assert c.links[0].targetPage.value !in {"a"};
  }

  lemma ChainWikiHasTwoHops(parent: Parent, a: WikiPage, b: WikiPage, c: WikiPage, touched: seq<string>)
    requires IsChainWiki(parent.pages, a, b, c) && "doc" in touched
    ensures TwoHops(parent, touched, a, b, c)
    ensures forall path :: path in Scheduled(parent.pages, touched) <==> path == "a" || path == "b"
  {
    ChainWikiIsGoodParent(parent.pages, a, b, c);
    ChainWikiCites(parent.pages, a, b, c, touched);
    assert parent.pages[0] == a && parent.pages[1] == b && parent.pages[2] == c;
    assert b.links[0].targetPath == "a" && c.links[0].targetPath == "b";
    forall path
      ensures path in Scheduled(parent.pages, touched) <==> path == "a" || path == "b"
    {
      ScheduledExact(parent.pages, touched, path);
    }
  }

  /** The compiler rewrites "a" and asks to delete "b". */
  function Reply(): seq<RawPage> {
    [RawPage("a", "concept", "", "new text", false, [RawCitation("doc", "", "", "")], []),
     RawPage("b", "concept", "", "", true, [], [])]
  }

  lemma RewriteAndDeletion(reply: seq<RawPage>, docs: Documents)
    requires |reply| == 2 && Judged(Write)(reply[0]) && Judged(Delete)(reply[1])
    ensures WrittenPages(reply, docs) == [ToPage(docs)(reply[0])]
    ensures DeletionRequests(reply) == [reply[1].path]
  {
    assert reply[..0] == [] && reply[..2] == reply;
    ReplySnoc(reply, 0, docs);
    ReplySnoc(reply, 1, docs);
  }

  lemma ReplyExact(reply: seq<RawPage>, docs: Documents)
    requires reply == Reply()
    ensures WrittenPages(reply, docs) == [ToPage(docs)(reply[0])]
    ensures DeletionRequests(reply) == ["b"]
  {
    RewriteAndDeletion(reply, docs);
  }

  lemma NothingRejected(parent: Parent, docs: Documents, compiled: seq<WikiPage>, deletions: seq<string>)
    requires forall path | path in PathsOf(compiled) ::
      path in Scheduled(parent.pages, Diff(parent.docs, docs).Touched())
    requires forall path | path in deletions :: path in Scheduled(parent.pages, Diff(parent.docs, docs).Touched())
    ensures PlanOf(parent, docs, compiled, deletions).rejected == []
  {
    var scheduled := Scheduled(parent.pages, Diff(parent.docs, docs).Touched());
    var outside := Filter(compiled, OutOfScope(scheduled, PathList(ContentPages(parent.pages))));
    var unasked := Filter(deletions, NotAmong(scheduled));
    FirstIsMember(outside);
    FirstIsMember(unasked);
  }

  lemma FirstIsMember<T>(s: seq<T>)
    ensures s == [] || s[0] in s
  {
  }

  lemma HonouredByParts(plan: IncrementalPlan)
    requires plan.rejected == []
    requires forall path :: path in plan.scheduled <==> path == "a" || path == "b"
    requires forall path :: path in plan.deleted <==> path == "b"
    requires forall path :: path in plan.recompiled <==> path == "a"
    ensures PlanHonoured(plan)
  {
  }

  lemma OutcomeAt(parent: Parent, docs: Documents, compiled: seq<WikiPage>, path: string)
    requires !Diff(parent.docs, docs).IsEmpty() && PathsOf(compiled) == {"a"}
    requires forall p :: p in Scheduled(parent.pages, Diff(parent.docs, docs).Touched()) <==> p == "a" || p == "b"
    ensures var plan := PlanOf(parent, docs, compiled, ["b"]);
      && (path in plan.deleted <==> path == "b")
      && (path in plan.recompiled <==> path == "a" )
  {
    RecompiledPathsExact(parent, docs, compiled, ["b"], path);
  }

  /** Exactly "a" and "b" are scheduled. */
  ghost predicate SchedulesTwo(parent: Parent, docs: Documents) {
    && !Diff(parent.docs, docs).IsEmpty()
    && forall path :: path in Scheduled(parent.pages, Diff(parent.docs, docs).Touched()) <==> path == "a" || path == "b"
  }

  lemma OutcomesExact(parent: Parent, docs: Documents, compiled: seq<WikiPage>)
    requires SchedulesTwo(parent, docs) && PathsOf(compiled) == {"a"}
    ensures forall path :: path in PlanOf(parent, docs, compiled, ["b"]).deleted <==> path == "b"
    ensures forall path :: path in PlanOf(parent, docs, compiled, ["b"]).recompiled <==> path == "a"
  {
    forall path
      ensures path in PlanOf(parent, docs, compiled, ["b"]).deleted <==> path == "b"
      ensures path in PlanOf(parent, docs, compiled, ["b"]).recompiled <==> path == "a"
    {
      OutcomeAt(parent, docs, compiled, path);
    }
  }

  lemma NoneRejected(parent: Parent, docs: Documents, compiled: seq<WikiPage>)
    requires SchedulesTwo(parent, docs) && PathsOf(compiled) == {"a"}
    ensures PlanOf(parent, docs, compiled, ["b"]).rejected == []
  {
    NothingRejected(parent, docs, compiled, ["b"]);
  }

  lemma PlansTwo(parent: Parent, docs: Documents, compiled: seq<WikiPage>)
    requires SchedulesTwo(parent, docs)
    ensures forall path :: path in PlanOf(parent, docs, compiled, ["b"]).scheduled <==> path == "a" || path == "b"
  {
  }

  lemma PlanIsHonoured(parent: Parent, docs: Documents, compiled: seq<WikiPage>)
    requires SchedulesTwo(parent, docs) && PathsOf(compiled) == {"a"}
    ensures PlanHonoured(PlanOf(parent, docs, compiled, ["b"]))
  {
    PlansTwo(parent, docs, compiled);
    OutcomesExact(parent, docs, compiled);
    NoneRejected(parent, docs, compiled);
    HonouredByParts(PlanOf(parent, docs, compiled, ["b"]));
  }

  lemma DocumentWasTouched(from: Documents, to: Documents)
    requires from == map["doc" := Document("1", "old")] && to == map["doc" := Document("2", "new")]
    ensures "doc" in Diff(from, to).Touched() && !Diff(from, to).IsEmpty()
  {
    UntouchedIsUnchanged(from, to, "doc");
  }

  /** A closed wiki, one rewritten document, and a reply that rewrites "a" and deletes "b": the result honours its
      plan, and the copy of "c" links to a page that is no longer there. */
  lemma SecondHopExample(parent: Parent, docs: Documents, a: WikiPage, b: WikiPage, c: WikiPage)
    returns (compiled: seq<WikiPage>, r: IncrementalResult)
    requires IsChainWiki(parent.pages, a, b, c)
    requires parent.docs == map["doc" := Document("1", "old")] && docs == map["doc" := Document("2", "new")]
    ensures GoodParent(parent.pages)
    ensures IsPathOrdering(compiled, WrittenPages(Reply(), docs))
    ensures IsIncremental(r, parent, docs, compiled, DeletionRequests(Reply()))
    ensures PlanHonoured(r.plan) && !CopiesClosed(r)
  {
    var reply := Reply();
    ReplyExact(reply, docs);
    compiled := WrittenPages(reply, docs);
    assert compiled[0].path == "a";
    assert PathsOf(compiled) == {"a"};
    SinglePageIsOrdered(compiled);
    WrittenIsFromCompiler(reply, docs, compiled);
    DocumentWasTouched(parent.docs, docs);
    ChainWikiHasTwoHops(parent, a, b, c, Diff(parent.docs, docs).Touched());
    PlanIsHonoured(parent, docs, compiled);
    r := ResultExists(parent, docs, compiled, ["b"]);
    SecondHopDeletionDangles(r, parent, docs, compiled, ["b"], a, b, c);
  }

  lemma SinglePageIsOrdered(pages: seq<WikiPage>)
    requires |pages| == 1
    ensures IsPathOrdering(pages, pages)
  {
  }

  // ---------------------------------------------------------------------------------------
  // An idle build that is not in path order.
  // ---------------------------------------------------------------------------------------

  lemma KindsDisagree(pages: seq<WikiPage>, z: WikiPage, a: WikiPage)
    requires z in pages && a in pages && Less(z.kind, a.kind) && Less(a.path, z.path)
    ensures !KindsAgreeWithPaths(pages)
  {
  }

  lemma TwoInLoadOrder(pages: seq<WikiPage>, z: WikiPage, a: WikiPage)
    requires pages == [z, a] && Less(z.kind, a.kind) && z.path != a.path
    ensures InLoadOrder(pages) && DistinctPaths(pages) && z in pages && a in pages
  {
    assert pages[0] == z && pages[1] == a;
  }

  lemma IdleResult(parent: Parent) returns (r: IncrementalResult)
    ensures Diff(parent.docs, parent.docs).IsEmpty()
    ensures IsIncremental(r, parent, parent.docs, [], []) && r.plan.diff.IsEmpty()
  {
    assert AddedPaths(parent.docs, parent.docs) == {} && RemovedPaths(parent.docs, parent.docs) == {}
        && ChangedPaths(parent.docs, parent.docs) == {};
    var pages := Map(ContentPages(parent.pages), PreparePage(parent.id, parent.docs));
    r := IncrementalResult(pages, |pages|, PlanOf(parent, parent.docs, [], []));
  }

  /** A concept "z" and an entity "a", as they are loaded: the unchanged wiki comes out with "z" first. */
  lemma IdleBuildOutOfOrder(parent: Parent, z: WikiPage, a: WikiPage) returns (r: IncrementalResult)
    requires z.path == "z" && z.kind == "concept" && a.path == "a" && a.kind == "entity"
    requires parent.pages == [z, a]
    ensures InLoadOrder(parent.pages) && DistinctPaths(parent.pages)
    ensures Diff(parent.docs, parent.docs).IsEmpty() && IsIncremental(r, parent, parent.docs, [], [])
    ensures !StrictlySorted(PathList(r.pages))
  {
    LessLetter(z.kind, a.kind);
    LessLetter(a.path, z.path);
    TwoInLoadOrder(parent.pages, z, a);
    r := IdleResult(parent);
    KindsDisagree(ContentPages(parent.pages), z, a);
    IdleBuildIsSortedExactly(r, parent, parent.docs, [], []);
  }

  lemma LessLetter(a: string, b: string)
    requires a != "" && b != "" && a[0] < b[0]
    ensures Less(a, b)
  {
  }

  // ---------------------------------------------------------------------------------------
  // Two overlapping supersedes that close a cycle.
  // ---------------------------------------------------------------------------------------

  /** "x" was superseded by "z", and "w" by "y". */
  ghost predicate TwoChains(entries: Entries, at: int) {
    && entries.Keys == {"x", "y", "w", "z"}
    && entries["x"].supersededBy == Some("z") && entries["w"].supersededBy == Some("y")
    && entries["y"].supersededBy.None? && entries["z"].supersededBy.None?
    && forall id | id in entries :: WindowHolds(entries[id]) && entries[id].validFrom <= at
  }

  lemma OneStep(entries: Entries, from: MemoryId, to: MemoryId)
    requires from in entries && to in entries
    requires entries[from].supersededBy == Some(to) && entries[to].supersededBy.None?
    ensures ChainEnds(entries, from) && Current(entries, from) == to
    ensures ChainEnds(entries, to) && Current(entries, to) == to
  {
    assert Nth(entries, from, 0) == Some(from) && Nth(entries, from, 1) == Some(to);
    assert EndsAfter(entries, from, 1) && EndsAfter(entries, to, 0);
    CurrentUnique(entries, from, 1);
    CurrentUnique(entries, to, 0);
  }

  lemma ChainsEnd(entries: Entries, at: int)
    requires TwoChains(entries, at)
    ensures Forest(entries)
    ensures Current(entries, "x") == "z" && Current(entries, "w") == "y"
  {
    OneStep(entries, "x", "z");
    OneStep(entries, "w", "y");
  }

  lemma BothChecksPass(entries: Entries, at: int)
    requires TwoChains(entries, at)
    ensures SupersedeOutcomeOf(entries, "x", "y", at).Replaced?
    ensures SupersedeOutcomeOf(entries, "w", "z", at).Replaced?
  {
    ChainsEnd(entries, at);
    ReachesCurrent(entries, "x", "y");
    ReachesCurrent(entries, "w", "z");
  }

  /** "x" supersedes "y" and "w" supersedes "z": the pairs are disjoint, each call alone is fine, and the two together
      leave every one of the four replaced. */
  lemma OverlappingExample(entries: Entries, at: int)
    requires TwoChains(entries, at)
    ensures SupersedeOutcomeOf(entries, "x", "y", at).Replaced? && SupersedeOutcomeOf(entries, "w", "z", at).Replaced?
    ensures {"x", "y"} !! {"w", "z"} && Forest(entries)
    ensures var after :=
              entries["y" := MarkSuperseded(entries["y"], "x", at)]["z" := MarkSuperseded(entries["z"], "w", at)];
      && !Forest(after)
      && forall id | id in after :: after[id].supersededBy.Some?
  {
    ChainsEnd(entries, at);
    BothChecksPass(entries, at);
    OverlappingSupersedesExact(entries, "x", "y", "w", "z", at);
    AllReplaced(entries, at);
  }

  lemma AllReplaced(entries: Entries, at: int)
    requires TwoChains(entries, at)
    ensures var after :=
              entries["y" := MarkSuperseded(entries["y"], "x", at)]["z" := MarkSuperseded(entries["z"], "w", at)];
      forall id | id in after :: after[id].supersededBy.Some?
  {
  }
}
