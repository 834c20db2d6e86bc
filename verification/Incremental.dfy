/** Incremental compilation (internal/knowledge/wiki_incremental.go, wiki_incremental_repo.go):
    which documents moved, which pages that touches, and what the merged wiki is.

    The compiler's reply is arbitrary input. */
module Incremental {
  import opened Check
  import opened Lists
  import opened Ordering
  import opened Wiki
  import opened Wrappers

  /** A stored file of one source revision; `indexable` also says that its text was kept. */
  datatype StoredDocument = StoredDocument(id: string, hash: string, indexable: bool)

  /** Every file of a revision by path. Revisions are immutable. */
  type StoredDocuments = map<string, StoredDocument>

  /** An indexable, non-empty document of one source revision: what reaches the compiler. */
  datatype Document = Document(id: string, hash: string)

  type Documents = map<string, Document>

  function Indexable(files: StoredDocuments): Documents {
    map path | path in files && files[path].indexable :: Document(files[path].id, files[path].hash)
  }

  // ---------------------------------------------------------------------------------------
  // What moved in the sources.
  // ---------------------------------------------------------------------------------------

  function AddedPaths(from: Documents, to: Documents): set<string> { to.Keys - from.Keys }

  function RemovedPaths(from: Documents, to: Documents): set<string> { from.Keys - to.Keys }

  function ChangedPaths(from: Documents, to: Documents): set<string> {
    set p | p in to && p in from && from[p].hash != to[p].hash
  }

  function KeptPaths(from: Documents, to: Documents): set<string> {
    set p | p in to && p in from && from[p].hash == to[p].hash
  }

  ghost function Diff(from: Documents, to: Documents): RevisionDiff {
    RevisionDiff(SortedListing(AddedPaths(from, to)), SortedListing(RemovedPaths(from, to)),
                 SortedListing(ChangedPaths(from, to)), |KeptPaths(from, to)|)
  }

  /** The loop over the newer revision: each of its documents is added, changed or kept. */
  method ClassifyNewer(from: Documents, to: Documents)
    returns (added: set<string>, changed: set<string>, unchangedCount: nat)
    ensures added == AddedPaths(from, to) && changed == ChangedPaths(from, to)
    ensures unchangedCount == |KeptPaths(from, to)|
  {
    added, changed, unchangedCount := {}, {}, 0;
    ghost var kept: set<string> := {};
    var remaining := to.Keys;
    while remaining != {}
      invariant remaining <= to.Keys
      invariant forall p :: p in added <==> p in to.Keys - remaining && p !in from
      invariant forall p :: p in changed <==> p in to.Keys - remaining && p in ChangedPaths(from, to)
      invariant forall p :: p in kept <==> p in to.Keys - remaining && p in KeptPaths(from, to)
      invariant unchangedCount == |kept|
      decreases remaining
    {
      var path :| path in remaining;
      if path !in from {
        added := added + {path};
      } else if from[path].hash != to[path].hash {
        changed := changed + {path};
      } else {
        kept, unchangedCount := kept + {path}, unchangedCount + 1;
      }
      remaining := remaining - {path};
    }
    assert kept == KeptPaths(from, to);
  }

  method FindRemoved(from: Documents, to: Documents) returns (removed: set<string>)
    ensures removed == RemovedPaths(from, to)
  {
    removed := {};
    var remaining := from.Keys;
    while remaining != {}
      invariant remaining <= from.Keys
      invariant forall p :: p in removed <==> p in from.Keys - remaining && p !in to
      decreases remaining
    {
      var path :| path in remaining;
      if path !in to {
        removed := removed + {path};
      }
      remaining := remaining - {path};
    }
  }

  /** The query behind the comparison: only documents whose text is there. */
  method LoadDocuments(files: StoredDocuments) returns (docs: Documents)
    ensures docs == Indexable(files)
  {
    docs := map[];
    var remaining := files.Keys;
    while remaining != {}
      invariant remaining <= files.Keys
      invariant forall path :: path in docs <==> path in files.Keys - remaining && files[path].indexable
      invariant forall path | path in docs :: docs[path] == Document(files[path].id, files[path].hash)
      decreases remaining
    {
      var path :| path in remaining;
      if files[path].indexable {
        docs := docs[path := Document(files[path].id, files[path].hash)];
      }
      remaining := remaining - {path};
    }
  }

  method DiffRevisionDocuments(fromFiles: StoredDocuments, toFiles: StoredDocuments) returns (diff: RevisionDiff)
    ensures diff == Diff(Indexable(fromFiles), Indexable(toFiles))
  {
    var from := LoadDocuments(fromFiles);
    var to := LoadDocuments(toFiles);
    diff := CompareDocuments(from, to);
  }

  method CompareDocuments(from: Documents, to: Documents) returns (diff: RevisionDiff)
    ensures diff == Diff(from, to)
  {
    var added, changed, unchangedCount := ClassifyNewer(from, to);
    var removed := FindRemoved(from, to);
    var addedList := SortSet(added);
    var removedList := SortSet(removed);
    var changedList := SortSet(changed);
    diff := RevisionDiff(addedList, removedList, changedList, unchangedCount);
  }

  lemma SizeOfThreeParts(whole: set<string>, a: set<string>, b: set<string>, c: set<string>)
    requires forall x :: x in whole <==> x in a || x in b || x in c
    requires a !! b !! c
    ensures |whole| == |a| + |b| + |c|
  {
    assert whole == a + b + c;
  }

  /** Every document of either revision is accounted for once. */
  lemma DiffAccountsForEveryDocument(from: Documents, to: Documents)
    ensures var d := Diff(from, to);
      && |to.Keys| == |d.added| + |d.changed| + d.unchangedCount
      && |from.Keys| == |d.removed| + |d.changed| + d.unchangedCount
  {
    SizeOfThreeParts(to.Keys, AddedPaths(from, to), ChangedPaths(from, to), KeptPaths(from, to));
    SizeOfThreeParts(from.Keys, RemovedPaths(from, to), ChangedPaths(from, to), KeptPaths(from, to));
  }

  /** A document that is not touched is the same document in both revisions. */
  lemma UntouchedIsUnchanged(from: Documents, to: Documents, path: string)
    requires path in from
    ensures path !in Diff(from, to).Touched() <==> path in to && to[path].hash == from[path].hash
  {
  }

  /** Each list holds its documents, in order and once each; those gone or rewritten are the touched ones. */
  lemma DiffListsExactly(from: Documents, to: Documents, path: string)
    ensures var d := Diff(from, to);
      && StrictlySorted(d.added) && StrictlySorted(d.removed) && StrictlySorted(d.changed)
      && (path in d.added <==> path in to && path !in from)
      && (path in d.removed <==> path in from && path !in to)
      && (path in d.changed <==> path in from && path in to && from[path].hash != to[path].hash)
      && (path in d.Touched() <==> path in from && (path !in to || from[path].hash != to[path].hash))
  {
  }

  /** Nothing moved exactly when both revisions hold the same documents with the same bytes. */
  lemma DiffIsEmptyExactly(from: Documents, to: Documents)
    ensures Diff(from, to).IsEmpty() <==>
      from.Keys == to.Keys && forall path | path in from && path in to :: from[path].hash == to[path].hash
  {
    var d := Diff(from, to);
    forall path
      ensures path in d.added <==> path in to && path !in from
      ensures path in d.removed <==> path in from && path !in to
      ensures path in d.changed <==> path in from && path in to && from[path].hash != to[path].hash
    {
      DiffListsExactly(from, to, path);
    }
    assert d.added == [] || d.added[0] in d.added;
    assert d.removed == [] || d.removed[0] in d.removed;
    assert d.changed == [] || d.changed[0] in d.changed;
  }

  // ---------------------------------------------------------------------------------------
  // Which pages that touches.
  // ---------------------------------------------------------------------------------------

  predicate CitesAny(page: WikiPage, touched: seq<string>) {
    exists c | c in page.citations :: c.documentPath in touched
  }

  predicate LinksInto(page: WikiPage, targets: set<string>) {
    exists l | l in page.links :: l.targetPage.Some? && l.targetPage.value in targets
  }

  function CitingPaths(pages: seq<WikiPage>, touched: seq<string>): set<string> {
    set p | p in pages && CitesAny(p, touched) :: p.path
  }

  function LinkingPaths(pages: seq<WikiPage>, targets: set<string>): set<string> {
    set p | p in pages && LinksInto(p, targets) :: p.path
  }

  /** Pages citing a touched document, and pages linking to those: one hop and no further. */
  ghost function ImpactedPagePaths(pages: seq<WikiPage>, touched: seq<string>): seq<string> {
    if touched == [] then []
    else SortedListing(CitingPaths(pages, touched) + LinkingPaths(pages, CitingPaths(pages, touched)))
  }

  method FindImpacted(pages: seq<WikiPage>, touched: seq<string>) returns (paths: seq<string>)
    ensures paths == ImpactedPagePaths(pages, touched)
    ensures StrictlySorted(paths)
    ensures forall path :: path in paths <==>
      || path in CitingPaths(pages, touched)
      || path in LinkingPaths(pages, CitingPaths(pages, touched))
  {
    if touched == [] {
      return [];
    }
    var cited := CitingPaths(pages, touched);
    paths := SortSet(cited + LinkingPaths(pages, cited));
  }

  /** The page at this path cites a touched document. */
  ghost predicate CitesTouched(pages: seq<WikiPage>, touched: seq<string>, path: string) {
    exists p, c :: p in pages && p.path == path && c in p.citations && c.documentPath in touched
  }

  lemma CitingExactly(pages: seq<WikiPage>, touched: seq<string>, path: string)
    ensures path in CitingPaths(pages, touched) <==> CitesTouched(pages, touched, path)
  {
  }

  lemma LinkingExactly(pages: seq<WikiPage>, targets: set<string>, path: string)
    ensures path in LinkingPaths(pages, targets) <==>
      exists p, l :: p in pages && p.path == path && l in p.links && l.targetPage.Some? && l.targetPage.value in targets
  {
  }

  /** Impacted is a page that cites a touched document, or has a link resolved to a page that does. */
  lemma ImpactedExactly(pages: seq<WikiPage>, touched: seq<string>, path: string)
    ensures path in ImpactedPagePaths(pages, touched) <==>
      || CitesTouched(pages, touched, path)
      || exists p, l :: p in pages && p.path == path && l in p.links && l.targetPage.Some?
                        && CitesTouched(pages, touched, l.targetPage.value)
  {
    CitingExactly(pages, touched, path);
    LinkingExactly(pages, CitingPaths(pages, touched), path);
    forall target ensures target in CitingPaths(pages, touched) <==> CitesTouched(pages, touched, target) {
      CitingExactly(pages, touched, target);
    }
  }

  // ---------------------------------------------------------------------------------------
  // Copying pages forward.
  // ---------------------------------------------------------------------------------------

  function ResolveDocument(docs: Documents, path: string): Option<string> {
    if path in docs then Some(docs[path].id) else None
  }

  function ReresolveCitation(docs: Documents): Citation -> Citation {
    (c: Citation) => c.(documentId := ResolveDocument(docs, c.documentPath))
  }

  function UnresolveLink(l: Link): Link { l.(targetPage := None) }

  function PreparePage(parent: BuildId, docs: Documents): WikiPage -> WikiPage {
    (p: WikiPage) =>
      p.(buildId := None, derivedFrom := Some(parent),
         citations := Map(p.citations, ReresolveCitation(docs)), links := Map(p.links, UnresolveLink))
  }

  method PrepareReusedPages(pages: seq<WikiPage>, parent: BuildId, docs: Documents) returns (prepared: seq<WikiPage>)
    ensures prepared == Map(pages, PreparePage(parent, docs))
  {
    prepared := [];
    for i := 0 to |pages|
      invariant prepared == Map(pages[..i], PreparePage(parent, docs))
    {
      var page := pages[i];
      var citations := page.citations;
      for j := 0 to |citations|
        invariant |citations| == |page.citations|
        invariant forall k | 0 <= k < |citations| ::
          citations[k] == if k < j then ReresolveCitation(docs)(page.citations[k]) else page.citations[k]
      {
        citations := citations[j := citations[j].(documentId := ResolveDocument(docs, citations[j].documentPath))];
      }
      var links := page.links;
      for j := 0 to |links|
        invariant |links| == |page.links|
        invariant forall k | 0 <= k < |links| ::
          links[k] == if k < j then UnresolveLink(page.links[k]) else page.links[k]
      {
        links := links[j := links[j].(targetPage := None)];
      }
      assert citations == Map(page.citations, ReresolveCitation(docs));
      assert links == Map(page.links, UnresolveLink);
      prepared := prepared +
        [page.(buildId := None, derivedFrom := Some(parent), citations := citations, links := links)];
    }
    assert pages[..|pages|] == pages;
  }

  /** What a copy keeps and what it does not: its text and evidence as they were, its rows still to be resolved. */
  lemma PreparedExactly(parent: BuildId, docs: Documents, p: WikiPage)
    ensures var q := PreparePage(parent, docs)(p);
      && q.path == p.path && q.kind == p.kind && q.title == p.title && q.content == p.content
      && q.buildId.None? && q.derivedFrom == Some(parent)
      && |q.citations| == |p.citations| && |q.links| == |p.links|
      && (forall i | 0 <= i < |q.citations| ::
            q.citations[i] == p.citations[i].(documentId :=
              if p.citations[i].documentPath in docs then Some(docs[p.citations[i].documentPath].id) else None))
      && (forall i | 0 <= i < |q.links| ::
            q.links[i] == Link(None, p.links[i].targetPath, p.links[i].linkType, p.links[i].note))
  {
  }

  // ---------------------------------------------------------------------------------------
  // Merging copies with what the compiler wrote.
  // ---------------------------------------------------------------------------------------

  /** A path-keyed map after inserting pages in turn, later ones overwriting earlier ones. */
  function Overlay(base: map<string, WikiPage>, pages: seq<WikiPage>): map<string, WikiPage> {
    if pages == [] then base else
      var last := pages[|pages| - 1];
      Overlay(base, pages[..|pages| - 1])[last.path := last]
  }

  lemma {:induction false} OverlayAt(base: map<string, WikiPage>, pages: seq<WikiPage>, path: string)
    ensures path in PathsOf(pages) ==>
      path in Overlay(base, pages) && Overlay(base, pages)[path] in pages && Overlay(base, pages)[path].path == path
    ensures path !in PathsOf(pages) ==>
      (path in Overlay(base, pages) <==> path in base)
      && (path in base ==> Overlay(base, pages)[path] == base[path])
  {
    if pages != [] {
      var init, last := pages[..|pages| - 1], pages[|pages| - 1];
      OverlayAt(base, init, path);
      assert pages == init + [last];
    }
  }

  /** Freshly compiled pages win over copies; deletions win over both. */
  function MergedPages(reused: seq<WikiPage>, compiled: seq<WikiPage>, deleted: seq<string>): map<string, WikiPage> {
    Overlay(Overlay(map[], reused), compiled) - Elements(deleted)
  }

  lemma MergedAt(reused: seq<WikiPage>, compiled: seq<WikiPage>, deleted: seq<string>, path: string)
    ensures var m := MergedPages(reused, compiled, deleted);
      && (path in m <==> (path in PathsOf(reused) || path in PathsOf(compiled)) && path !in deleted)
      && (path in m && path in PathsOf(compiled) ==> m[path] in compiled && m[path].path == path)
      && (path in m && path !in PathsOf(compiled) ==> m[path] in reused && m[path].path == path)
  {
    OverlayAt(map[], reused, path);
    OverlayAt(Overlay(map[], reused), compiled, path);
  }

  function CarriedPaths(reused: seq<WikiPage>, compiled: seq<WikiPage>, deleted: seq<string>): set<string> {
    PathsOf(reused) - PathsOf(compiled) - Elements(deleted)
  }

  /** The pages of a path-keyed map, one per path, in strict path order. */
  ghost predicate ListsPages(pages: seq<WikiPage>, byPath: map<string, WikiPage>) {
    && PathList(pages) == SortedListing(byPath.Keys)
    && forall i | 0 <= i < |pages| :: pages[i].path in byPath && pages[i] == byPath[pages[i].path]
  }

  lemma ListsPagesMember(pages: seq<WikiPage>, byPath: map<string, WikiPage>, q: WikiPage)
    requires ListsPages(pages, byPath)
    requires q.path in byPath ==> byPath[q.path].path == q.path
    ensures q in pages <==> q.path in byPath && byPath[q.path] == q
  {
    if q.path in byPath && byPath[q.path] == q {
      assert q.path in PathList(pages);
      var i :| 0 <= i < |pages| && PathList(pages)[i] == q.path;
      assert pages[i] == q;
    }
  }

  /** An order of first appearance: each key once, in some order. */
  ghost predicate Enumerates(order: seq<string>, keys: set<string>) {
    && (forall i, j | 0 <= i < j < |order| :: order[i] != order[j])
    && Elements(order) == keys
  }

  lemma EnumeratesSnoc(order: seq<string>, keys: set<string>, path: string)
    requires Enumerates(order, keys) && path !in keys
    ensures Enumerates(order + [path], keys + {path})
  {
  }

  /** One of the two insertion loops: overwrite by path, remember first appearance. */
  method AddPages(byPath: map<string, WikiPage>, order: seq<string>, pages: seq<WikiPage>)
    returns (byPath': map<string, WikiPage>, order': seq<string>)
    requires Enumerates(order, byPath.Keys)
    ensures byPath' == Overlay(byPath, pages)
    ensures Enumerates(order', byPath'.Keys)
  {
    byPath', order' := byPath, order;
    for i := 0 to |pages|
      invariant byPath' == Overlay(byPath, pages[..i])
      invariant Enumerates(order', byPath'.Keys)
    {
      var page := pages[i];
      assert pages[..i + 1][..i] == pages[..i];
      ghost var keys := byPath'.Keys;
      if page.path !in byPath' {
        EnumeratesSnoc(order', keys, page.path);
        order' := order' + [page.path];
      }
      byPath' := byPath'[page.path := page];
      assert byPath'.Keys == keys + {page.path};
    }
    assert pages[..|pages|] == pages;
  }

  method DeletePaths(byPath: map<string, WikiPage>, reusedPaths: set<string>, deleted: seq<string>)
    returns (byPath': map<string, WikiPage>, reusedPaths': set<string>)
    ensures byPath' == byPath - Elements(deleted)
    ensures reusedPaths' == reusedPaths - Elements(deleted)
  {
    byPath', reusedPaths' := byPath, reusedPaths;
    for i := 0 to |deleted|
      invariant byPath' == byPath - Elements(deleted[..i])
      invariant reusedPaths' == reusedPaths - Elements(deleted[..i])
    {
      assert Elements(deleted[..i + 1]) == Elements(deleted[..i]) + {deleted[i]};
      byPath', reusedPaths' := byPath' - {deleted[i]}, reusedPaths' - {deleted[i]};
    }
    assert deleted[..|deleted|] == deleted;
  }

  function KeyOf(byPath: map<string, WikiPage>): string -> bool { path => path in byPath }

  /** The closing loop: the surviving pages in the sorted order of first appearance. */
  method CollectMerged(byPath: map<string, WikiPage>, order: seq<string>) returns (merged: seq<WikiPage>)
    requires StrictlySorted(order)
    requires forall path | path in byPath :: path in order && byPath[path].path == path
    ensures ListsPages(merged, byPath)
  {
    merged := [];
    for i := 0 to |order|
      invariant PathList(merged) == Filter(order[..i], KeyOf(byPath))
      invariant forall k | 0 <= k < |merged| :: merged[k].path in byPath && merged[k] == byPath[merged[k].path]
    {
      FilterSnoc(order, i, KeyOf(byPath));
      if order[i] in byPath {
        merged := merged + [byPath[order[i]]];
      }
    }
    assert order[..|order|] == order;
    FilterStrictlySorted(order, KeyOf(byPath));
    StrictlySortedUnique(PathList(merged), SortedListing(byPath.Keys));
  }

  method MergeIncremental(reused: seq<WikiPage>, compiled: seq<WikiPage>, deleted: seq<string>)
    returns (merged: seq<WikiPage>, reusedCount: nat)
    ensures ListsPages(merged, MergedPages(reused, compiled, deleted))
    ensures reusedCount == |CarriedPaths(reused, compiled, deleted)|
  {
    var byPath, order := AddPages(map[], [], reused);
    byPath, order := AddPages(byPath, order, compiled);
    ghost var before := byPath;
    var reusedPaths := PathsOf(reused) - PathsOf(compiled);
    byPath, reusedPaths := DeletePaths(byPath, reusedPaths, deleted);
    SortedEnumeration(order, before.Keys);
    forall path | path in byPath
      ensures byPath[path].path == path
    {
      OverlayAt(map[], reused, path);
      OverlayAt(Overlay(map[], reused), compiled, path);
    }
    merged := CollectMerged(byPath, SortStrings(order));
    reusedCount := |reusedPaths|;
  }

  lemma SortedEnumeration(order: seq<string>, keys: set<string>)
    requires Enumerates(order, keys)
    ensures StrictlySorted(SortStrings(order))
    ensures forall path :: path in SortStrings(order) <==> path in keys
  {
    SortStringsOfDistinct(order);
  }

  lemma {:induction false} FilterStrictlySorted(xs: seq<string>, keep: string -> bool)
    requires StrictlySorted(xs)
    ensures StrictlySorted(Filter(xs, keep))
  {
    if xs != [] {
      var init := xs[..|xs| - 1];
      FilterStrictlySorted(init, keep);
      forall i | 0 <= i < |Filter(init, keep)|
        ensures Less(Filter(init, keep)[i], xs[|xs| - 1])
      {
        assert Filter(init, keep)[i] in init;
      }
    }
  }
}
