/** The two pages the platform writes itself, and what a commit stores
    (internal/knowledge/wiki_compile.go:265-338, wiki_repo.go:460-519).

    The rendered Markdown of the two generated pages is arbitrary text here. */
module Assembly {
  import opened Check
  import opened Lists
  import opened Ordering
  import opened Wiki
  import opened Wrappers

  // ---------------------------------------------------------------------------------------
  // The index.
  // ---------------------------------------------------------------------------------------

  function IndexLink(page: WikiPage): Link { Link(None, page.path, LINK_REFERENCES, "") }

  /** Pages grouped by kind, kinds in order, paths in order inside each kind. */
  ghost predicate IsIndexListing(listed: seq<WikiPage>, pages: seq<WikiPage>) {
    && multiset(listed) == multiset(pages)
    && forall i, j | 0 <= i < j < |listed| ::
         Less(listed[i].kind, listed[j].kind)
         || (listed[i].kind == listed[j].kind && LessEq(listed[i].path, listed[j].path))
  }

  ghost predicate IsIndexOf(index: WikiPage, pages: seq<WikiPage>) {
    && index.path == INDEX_PATH && index.kind == PAGE_KIND_INDEX
    && index.citations == [] && index.buildId.None? && index.derivedFrom.None?
    && exists listed :: IsIndexListing(listed, pages) && index.links == Map(listed, IndexLink)
  }

  function OfKind(kind: string): WikiPage -> bool { (p: WikiPage) => p.kind == kind }

  function OfKinds(kinds: set<string>): WikiPage -> bool { (p: WikiPage) => p.kind in kinds }

  function KindsOf(pages: seq<WikiPage>): set<string> { set p | p in pages :: p.kind }

  ghost predicate IsGrouped(byKind: map<string, seq<WikiPage>>, pages: seq<WikiPage>) {
    && byKind.Keys == KindsOf(pages)
    && forall kind | kind in byKind :: byKind[kind] == Filter(pages, OfKind(kind))
  }

  method GroupByKind(pages: seq<WikiPage>) returns (byKind: map<string, seq<WikiPage>>)
    ensures IsGrouped(byKind, pages)
  {
    byKind := map[];
    for i := 0 to |pages|
      invariant IsGrouped(byKind, pages[..i])
    {
      GroupSnoc(byKind, pages, i);
      var kind := pages[i].kind;
      byKind := byKind[kind := (if kind in byKind then byKind[kind] else []) + [pages[i]]];
    }
    assert pages[..|pages|] == pages;
  }

  lemma GroupSnoc(byKind: map<string, seq<WikiPage>>, pages: seq<WikiPage>, i: nat)
    requires i < |pages| && IsGrouped(byKind, pages[..i])
    ensures var kind := pages[i].kind;
      IsGrouped(byKind[kind := (if kind in byKind then byKind[kind] else []) + [pages[i]]], pages[..i + 1])
  {
    var kind := pages[i].kind;
    var grown := byKind[kind := (if kind in byKind then byKind[kind] else []) + [pages[i]]];
    KindsSnoc(pages, i);
    assert grown.Keys == byKind.Keys + {kind};
    forall k | k in grown
      ensures grown[k] == Filter(pages[..i + 1], OfKind(k))
    {
      FilterSnoc(pages, i, OfKind(k));
      NoneOfKind(pages[..i], k);
    }
  }

  lemma KindsSnoc(pages: seq<WikiPage>, i: nat)
    requires i < |pages|
    ensures KindsOf(pages[..i + 1]) == KindsOf(pages[..i]) + {pages[i].kind}
  {
    assert pages[..i + 1] == pages[..i] + [pages[i]];
  }

  lemma NoneOfKind(pages: seq<WikiPage>, kind: string)
    ensures kind !in KindsOf(pages) ==> Filter(pages, OfKind(kind)) == []
  {
    if kind !in KindsOf(pages) && Filter(pages, OfKind(kind)) != [] {
      assert Filter(pages, OfKind(kind))[0] in Filter(pages, OfKind(kind));
    }
  }

  /** Adding one kind's pages to those of other kinds. */
  lemma {:induction false} KindsAddUp(
    pages: seq<WikiPage>, kinds: set<string>, kind: string, done: seq<WikiPage>, group: seq<WikiPage>)
    requires kind !in kinds
    requires multiset(done) == multiset(Filter(pages, OfKinds(kinds)))
    requires multiset(group) == multiset(Filter(pages, OfKind(kind)))
    ensures multiset(done + group) == multiset(Filter(pages, OfKinds(kinds + {kind})))
  {
    FilteredKindsAddUp(pages, kinds, kind);
  }

  lemma {:induction false} FilteredKindsAddUp(pages: seq<WikiPage>, kinds: set<string>, kind: string)
    requires kind !in kinds
    ensures multiset(Filter(pages, OfKinds(kinds + {kind}))) ==
            multiset(Filter(pages, OfKinds(kinds))) + multiset(Filter(pages, OfKind(kind)))
  {
    if pages != [] {
      FilteredKindsAddUp(pages[..|pages| - 1], kinds, kind);
      LastOfKinds(pages, kinds);
      LastOfKinds(pages, kinds + {kind});
      LastOfKind(pages, kind);
    }
  }

  lemma LastOfKinds(pages: seq<WikiPage>, kinds: set<string>)
    requires pages != []
    ensures var last := pages[|pages| - 1];
            multiset(Filter(pages, OfKinds(kinds))) ==
            multiset(Filter(pages[..|pages| - 1], OfKinds(kinds)))
            + if last.kind in kinds then multiset{last} else multiset{}
  {
  }

  lemma LastOfKind(pages: seq<WikiPage>, kind: string)
    requires pages != []
    ensures var last := pages[|pages| - 1];
            multiset(Filter(pages, OfKind(kind))) ==
            multiset(Filter(pages[..|pages| - 1], OfKind(kind)))
            + if last.kind == kind then multiset{last} else multiset{}
  {
  }

  lemma {:induction false} NoKinds(pages: seq<WikiPage>)
    ensures Filter(pages, OfKinds({})) == []
  {
    if pages != [] {
      NoKinds(pages[..|pages| - 1]);
    }
  }

  lemma {:induction false} AllKinds(pages: seq<WikiPage>, kinds: set<string>)
    requires forall p | p in pages :: p.kind in kinds
    ensures Filter(pages, OfKinds(kinds)) == pages
  {
    if pages != [] {
      var init, last := pages[..|pages| - 1], pages[|pages| - 1];
      AllKinds(init, kinds);
      assert last in pages && pages == init + [last];
    }
  }

  method ListByKind(pages: seq<WikiPage>) returns (listed: seq<WikiPage>)
    ensures IsIndexListing(listed, pages)
  {
    var byKind := GroupByKind(pages);
    var kinds := SortSet(byKind.Keys);
    listed := [];
    StartListing(pages, kinds);
    for k := 0 to |kinds|
      invariant IsIndexListing(listed, Filter(pages, OfKinds(Elements(kinds[..k]))))
    {
      var kind := kinds[k];
      assert kind in kinds;
      var group := SortPagesByPath(byKind[kind]);
      AppendGroup(listed, group, pages, kinds, k);
      listed := listed + group;
    }
    FinishListing(pages, kinds);
  }

  lemma StartListing(pages: seq<WikiPage>, kinds: seq<string>)
    ensures IsIndexListing([], Filter(pages, OfKinds(Elements(kinds[..0]))))
  {
    assert Elements(kinds[..0]) == {};
    NoKinds(pages);
  }

  lemma FinishListing(pages: seq<WikiPage>, kinds: seq<string>)
    requires forall kind | kind in KindsOf(pages) :: kind in kinds
    ensures Filter(pages, OfKinds(Elements(kinds[..|kinds|]))) == pages
  {
    assert kinds[..|kinds|] == kinds;
    forall p | p in pages
      ensures p.kind in Elements(kinds)
    {
      assert p.kind in KindsOf(pages);
    }
    AllKinds(pages, Elements(kinds));
  }

  lemma AppendGroup(listed: seq<WikiPage>, group: seq<WikiPage>, pages: seq<WikiPage>, kinds: seq<string>, k: nat)
    requires StrictlySorted(kinds) && k < |kinds|
    requires IsIndexListing(listed, Filter(pages, OfKinds(Elements(kinds[..k]))))
    requires IsPathOrdering(group, Filter(pages, OfKind(kinds[k])))
    ensures IsIndexListing(listed + group, Filter(pages, OfKinds(Elements(kinds[..k + 1]))))
  {
    assert Elements(kinds[..k + 1]) == Elements(kinds[..k]) + {kinds[k]};
    KindsAddUp(pages, Elements(kinds[..k]), kinds[k], listed, group);
    SameElements(listed, Filter(pages, OfKinds(Elements(kinds[..k]))));
    SameElements(group, Filter(pages, OfKind(kinds[k])));
    forall i, j | 0 <= i < |listed| && 0 <= j < |group|
      ensures Less(listed[i].kind, group[j].kind)
    {
      assert listed[i] in listed && group[j] in group;
      var m :| 0 <= m < k && kinds[m] == listed[i].kind;
    }
    GroupIsOrdered(group, kinds[k]);
  }

  lemma GroupIsOrdered(group: seq<WikiPage>, kind: string)
    requires forall p | p in group :: p.kind == kind
    ensures forall i | 0 <= i < |group| :: group[i].kind == kind
  {
    forall i | 0 <= i < |group|
      ensures group[i].kind == kind
    {
      assert group[i] in group;
    }
  }

  method BuildIndexPage(title: string, content: string, pages: seq<WikiPage>) returns (index: WikiPage)
    ensures IsIndexOf(index, pages)
  {
    var listed := ListByKind(pages);
    var links: seq<Link> := [];
    for i := 0 to |listed|
      invariant links == Map(listed[..i], IndexLink)
    {
      links := links + [IndexLink(listed[i])];
    }
    assert listed[..|listed|] == listed;
    index := WikiPage(None, INDEX_PATH, PAGE_KIND_INDEX, title, content, None, [], links);
  }

  lemma IndexLinksEveryPage(index: WikiPage, pages: seq<WikiPage>)
    requires IsIndexOf(index, pages)
    ensures LinkTargets(index) == PathsOf(pages)
    ensures |index.links| == |pages|
    ensures forall l | l in index.links :: l.linkType == LINK_REFERENCES
  {
    var listed :| IsIndexListing(listed, pages) && index.links == Map(listed, IndexLink);
    SameElements(listed, pages);
    forall path
      ensures path in LinkTargets(index) <==> path in PathsOf(pages)
    {
      if l :| l in index.links && l.targetPath == path {
        MapMember(listed, IndexLink, l);
      }
      if p :| p in pages && p.path == path {
        MapMember(listed, IndexLink, IndexLink(p));
      }
    }
  }

  ghost predicate IsLogPage(page: WikiPage) {
    && page.path == LOG_PATH && page.kind == PAGE_KIND_LOG
    && page.citations == [] && page.links == [] && page.buildId.None? && page.derivedFrom.None?
  }

  /** Whatever the content pages are, the generated index leaves none of them uncovered. */
  lemma IndexCoversEveryPage(content: seq<WikiPage>, index: WikiPage, log: WikiPage)
    requires IsIndexOf(index, content) && IsLogPage(log)
    ensures var pages := content + [index, log];
      && LinkTargets(index) <= PathsOf(pages)
      && forall p | p in pages :: IsGenerated(p) || LinkedFromIndex(pages, p.path)
  {
    var pages := content + [index, log];
    IndexLinksEveryPage(index, content);
    assert pages[|content|] == index;
    forall p | p in pages
      ensures IsGenerated(p) || LinkedFromIndex(pages, p.path)
    {
      if p in content {
        assert index in pages && p.path in LinkTargets(index);
      }
    }
  }

  lemma IndexNeverMissesAPage(
    input: CheckInput, content: seq<WikiPage>, index: WikiPage, log: WikiPage, f: CheckFailure)
    requires IsIndexOf(index, content) && IsLogPage(log)
    requires input.pages == content + [index, log]
    requires f.rule.IndexCoverage?
    ensures !Violates(input, f)
  {
    IndexCoversEveryPage(content, index, log);
    forall p | p in input.pages
      ensures !PageViolates(input, p, f) && !IndexViolates(input.pages, p, f)
    {
    }
  }

  // ---------------------------------------------------------------------------------------
  // What a commit stores.
  // ---------------------------------------------------------------------------------------

  predicate SameEdge(a: Link, b: Link) { a.targetPath == b.targetPath && a.linkType == b.linkType }

  function ResolveLink(paths: set<string>, l: Link): Link {
    l.(targetPage := if l.targetPath in paths then Some(l.targetPath) else None)
  }

  /** ON CONFLICT (source page, target path, link type) DO NOTHING: the first of equal edges stays. */
  function StoreLinks(links: seq<Link>, paths: set<string>): seq<Link> {
    if links == [] then [] else
      var stored := StoreLinks(links[..|links| - 1], paths);
      var last := links[|links| - 1];
      if exists l | l in stored :: SameEdge(l, last) then stored else stored + [ResolveLink(paths, last)]
  }

  /** Nothing is stored that was not there, and every row is resolved against the build. */
  lemma {:induction false} StoredLinkIsGiven(links: seq<Link>, paths: set<string>, l: Link)
    requires l in StoreLinks(links, paths)
    ensures exists k ::
      && k in links && l == ResolveLink(paths, k)
      && l.targetPath == k.targetPath && l.linkType == k.linkType && l.note == k.note
      && l.targetPage == if k.targetPath in paths then Some(k.targetPath) else None
  {
    var init, last := links[..|links| - 1], links[|links| - 1];
    assert links == init + [last];
    if l in StoreLinks(init, paths) {
      StoredLinkIsGiven(init, paths, l);
    } else {
      assert l == ResolveLink(paths, last);
    }
  }

  /** Every edge that was there is stored. */
  lemma {:induction false} GivenLinkIsStored(links: seq<Link>, paths: set<string>, k: Link)
    requires k in links
    ensures exists l :: l in StoreLinks(links, paths) && SameEdge(l, k)
  {
    var init, last := links[..|links| - 1], links[|links| - 1];
    assert links == init + [last];
    var stored := StoreLinks(links, paths);
    if k in init {
      GivenLinkIsStored(init, paths, k);
      var l :| l in StoreLinks(init, paths) && SameEdge(l, k);
      assert l in stored;
    } else if !exists l | l in StoreLinks(init, paths) :: SameEdge(l, last) {
      assert stored[|stored| - 1] == ResolveLink(paths, last);
      assert SameEdge(ResolveLink(paths, last), k);
    }
  }

  /** And only once. */
  lemma {:induction false} StoredLinksAreUnique(links: seq<Link>, paths: set<string>, i: nat, j: nat)
    requires i < j < |StoreLinks(links, paths)|
    ensures !SameEdge(StoreLinks(links, paths)[i], StoreLinks(links, paths)[j])
  {
    var stored, last := StoreLinks(links[..|links| - 1], paths), links[|links| - 1];
    if j < |stored| {
      StoredLinksAreUnique(links[..|links| - 1], paths, i, j);
    } else {
      assert stored[i] in stored && !SameEdge(stored[i], last);
    }
  }

  function StorePage(b: BuildId, paths: set<string>): WikiPage -> WikiPage {
    (p: WikiPage) => p.(buildId := Some(b), links := StoreLinks(p.links, paths))
  }

  function StorePages(b: BuildId, pages: seq<WikiPage>): seq<WikiPage> {
    Map(pages, StorePage(b, PathsOf(pages)))
  }

  /** Page for page, a commit stores what it was given under the build's id; only links change, as said above. */
  lemma StoredPageExactly(b: BuildId, pages: seq<WikiPage>, i: nat)
    requires i < |pages|
    ensures |StorePages(b, pages)| == |pages|
    ensures var p, q := pages[i], StorePages(b, pages)[i];
      && q.buildId == Some(b) && q.path == p.path && q.kind == p.kind && q.title == p.title
      && q.content == p.content && q.derivedFrom == p.derivedFrom && q.citations == p.citations
      && q.links == StoreLinks(p.links, PathsOf(pages))
  {
  }

  /** Column constraints of knowledge_pages and knowledge_page_links. */
  const STORABLE_LINK_TYPES := {"references", "contradicts", "supersedes", "elaborates", "mentions_entity"}

  predicate Storable(page: WikiPage) {
    1 <= |page.path| <= 512 && |page.kind| <= 32 && forall l | l in page.links :: l.linkType in STORABLE_LINK_TYPES
  }
}
