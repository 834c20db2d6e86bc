/** Pages, citations and links of a compiled wiki (internal/knowledge/wiki_model.go).

    Row identifiers of citations and links are left out; a link's `target_page_id` is
    modelled by the target's path, since a build holds one page per path. */
module Wiki {
  import opened Ordering
  import opened Wrappers

  type BuildId = nat

  const PAGE_KIND_INDEX := "index"
  const PAGE_KIND_LOG := "log"
  const LINK_REFERENCES := "references"
  const INDEX_PATH := "wiki/index.md"
  const LOG_PATH := "wiki/log.md"

  /** reservedPagePaths: generated by the platform, never authored by the compiler. */
  const RESERVED_PATHS: set<string> := {INDEX_PATH, LOG_PATH}

  datatype Citation = Citation(
    documentId: Option<string>, documentPath: string, headingPath: string, claim: string, excerpt: string)

  datatype Link = Link(targetPage: Option<string>, targetPath: string, linkType: string, note: string)

  datatype WikiPage = WikiPage(
    buildId: Option<BuildId>, path: string, kind: string, title: string, content: string,
    derivedFrom: Option<BuildId>, citations: seq<Citation>, links: seq<Link>)

  function PathsOf(pages: seq<WikiPage>): (r: set<string>)
    ensures forall i | 0 <= i < |pages| :: pages[i].path in r
    ensures forall x :: x in r ==> exists i | 0 <= i < |pages| :: pages[i].path == x
  {
    set p | p in pages :: p.path
  }

  function PathList(pages: seq<WikiPage>): (r: seq<string>)
    ensures |r| == |pages|
    ensures forall i | 0 <= i < |r| :: r[i] == pages[i].path
  {
    seq(|pages|, i requires 0 <= i < |pages| => pages[i].path)
  }

  ghost predicate DistinctPaths(pages: seq<WikiPage>) {
    forall i, j | 0 <= i < j < |pages| :: pages[i].path != pages[j].path
  }

  /** ORDER BY kind, path */
  predicate LoadsBefore(a: WikiPage, b: WikiPage) {
    Less(a.kind, b.kind) || (a.kind == b.kind && Less(a.path, b.path))
  }

  ghost predicate InLoadOrder(pages: seq<WikiPage>) {
    forall i, j | 0 <= i < j < |pages| :: LoadsBefore(pages[i], pages[j])
  }

  /** The pages of a build as they are read back. */
  ghost predicate IsLoad(loaded: seq<WikiPage>, pages: seq<WikiPage>) {
    multiset(loaded) == multiset(pages) && InLoadOrder(loaded)
  }

  /** One of the results `sort.Slice` by path may give: equal paths come in any order. */
  ghost predicate IsPathOrdering(ordered: seq<WikiPage>, pages: seq<WikiPage>) {
    && multiset(ordered) == multiset(pages)
    && forall i, j | 0 <= i < j < |ordered| :: LessEq(ordered[i].path, ordered[j].path)
  }

  method InsertByPath(ordered: seq<WikiPage>, page: WikiPage) returns (r: seq<WikiPage>)
    requires IsPathOrdering(ordered, ordered)
    ensures IsPathOrdering(r, ordered + [page])
  {
    var at := 0;
    while at < |ordered| && LessEq(ordered[at].path, page.path)
      invariant 0 <= at <= |ordered|
      invariant forall i | 0 <= i < at :: LessEq(ordered[i].path, page.path)
    {
      at := at + 1;
    }
    InsertKeepsOrder(ordered, page, at);
    assert ordered == ordered[..at] + ordered[at..];
    r := ordered[..at] + [page] + ordered[at..];
  }

  method SortPagesByPath(pages: seq<WikiPage>) returns (ordered: seq<WikiPage>)
    ensures IsPathOrdering(ordered, pages)
  {
    ordered := [];
    for n := 0 to |pages|
      invariant IsPathOrdering(ordered, pages[..n])
    {
      ordered := InsertByPath(ordered, pages[n]);
      assert pages[..n + 1] == pages[..n] + [pages[n]];
    }
    assert pages[..|pages|] == pages;
  }

  lemma InsertKeepsOrder(ordered: seq<WikiPage>, page: WikiPage, at: nat)
    requires at <= |ordered|
    requires forall i, j | 0 <= i < j < |ordered| :: LessEq(ordered[i].path, ordered[j].path)
    requires forall i | 0 <= i < at :: LessEq(ordered[i].path, page.path)
    requires at < |ordered| ==> !LessEq(ordered[at].path, page.path)
    ensures var r := ordered[..at] + [page] + ordered[at..];
            forall i, j | 0 <= i < j < |r| :: LessEq(r[i].path, r[j].path)
  {
    forall j | at <= j < |ordered|
      ensures LessEq(page.path, ordered[j].path)
    {
      LessEqTotal(page.path, ordered[at].path);
      if j > at {
        LessEqTransitive(page.path, ordered[at].path, ordered[j].path);
      }
    }
  }

  /** With distinct paths the ordering is unique, whatever order the pages came in. */
  lemma PathOrderingUnique(a: seq<WikiPage>, b: seq<WikiPage>, pages: seq<WikiPage>)
    requires DistinctPaths(pages)
    requires IsPathOrdering(a, pages) && IsPathOrdering(b, pages)
    ensures a == b
  {
    OrderingIsStrict(a, pages);
    OrderingIsStrict(b, pages);
    SameElements(a, pages);
    SameElements(b, pages);
    forall x
      ensures x in PathList(a) <==> x in PathList(b)
    {
      PathMember(a, x);
      PathMember(b, x);
    }
    StrictlySortedUnique(PathList(a), PathList(b));
    forall i | 0 <= i < |a|
      ensures a[i] == b[i]
    {
      assert a[i] in pages && b[i] in pages;
      assert PathList(a)[i] == PathList(b)[i];
    }
  }

  lemma PathMember(pages: seq<WikiPage>, x: string)
    ensures x in PathList(pages) <==> exists p :: p in pages && p.path == x
  {
    if p :| p in pages && p.path == x {
      var i :| 0 <= i < |pages| && pages[i] == p;
      assert PathList(pages)[i] == x;
    }
  }

  lemma OrderingIsStrict(ordered: seq<WikiPage>, pages: seq<WikiPage>)
    requires DistinctPaths(pages) && IsPathOrdering(ordered, pages)
    ensures StrictlySorted(PathList(ordered))
  {
    PermutationKeepsDistinct(pages, ordered);
  }

  lemma PermutationKeepsDistinct(pages: seq<WikiPage>, ordered: seq<WikiPage>)
    requires DistinctPaths(pages) && multiset(ordered) == multiset(pages)
    ensures DistinctPaths(ordered)
  {
    forall y | y in ordered
      ensures multiset(ordered)[y] <= 1
    {
      CountOfDistinct(pages, y);
    }
    CountsGiveDistinct(ordered);
    SameElements(ordered, pages);
    forall i, j | 0 <= i < j < |ordered|
      ensures ordered[i].path != ordered[j].path
    {
      assert ordered[i] in ordered && ordered[j] in ordered;
      var m :| 0 <= m < |pages| && pages[m] == ordered[i];
      var n :| 0 <= n < |pages| && pages[n] == ordered[j];
      assert m != n;
    }
  }
}
