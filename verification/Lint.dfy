/**
 * The graph rules of wiki lint (internal/knowledge/wiki_lint_repo.go): which pages cite
 * sources that moved, and which pages rest on those through a few dependency links.
 */
module Lint {
  import opened Incremental
  import opened Ordering
  import opened Wiki
  import opened Wrappers

  const CASCADE_MAX_DEPTH: nat := 4
  const LINK_ELABORATES := "elaborates"

  predicate IsContent(page: WikiPage) {
    page.kind != PAGE_KIND_INDEX && page.kind != PAGE_KIND_LOG
  }

  // ---------------------------------------------------------------------------------------
  // Stale citations.
  // ---------------------------------------------------------------------------------------

  /** The cited document is gone from the current revision, or its bytes moved under the claim. The query joins
      every file of the revision, those without indexed text included. */
  predicate IsStaleCitation(c: Citation, current: StoredDocuments, hashOf: map<string, string>) {
    || c.documentPath !in current
    || (c.documentId.Some? && c.documentId.value in hashOf
        && hashOf[c.documentId.value] != current[c.documentPath].hash)
  }

  predicate IsStalePage(page: WikiPage, current: StoredDocuments, hashOf: map<string, string>) {
    exists c | c in page.citations :: IsStaleCitation(c, current, hashOf)
  }

  function StalePages(pages: seq<WikiPage>, current: StoredDocuments, hashOf: map<string, string>): set<string> {
    set p | p in pages && IsStalePage(p, current, hashOf) :: p.path
  }

  /** A page is stale if and only if some citation names a path the current revision does not have, or was resolved to a
      document whose bytes are not those now at its path; a citation that was never resolved is stale only in the first
      case. */
  lemma StaleExactly(page: WikiPage, current: StoredDocuments, hashOf: map<string, string>)
    ensures IsStalePage(page, current, hashOf) <==>
      || (exists c :: c in page.citations && c.documentPath !in current)
      || (exists c, id :: c in page.citations && c.documentPath in current && c.documentId == Some(id)
            && id in hashOf && hashOf[id] != current[c.documentPath].hash)
  {
  }

  /** `hashOf` knows the documents of a revision by their row id. */
  ghost predicate KnowsHashes(hashOf: map<string, string>, docs: Documents) {
    forall path | path in docs :: docs[path].id in hashOf && hashOf[docs[path].id] == docs[path].hash
  }

  /** The citation names a document of the revision, by path and by row id. */
  ghost predicate CitesDocument(c: Citation, docs: Documents) {
    c.documentPath in docs && c.documentId == Some(docs[c.documentPath].id)
  }

  ghost predicate CitesRevision(pages: seq<WikiPage>, docs: Documents) {
    forall p, c | p in pages && c in p.citations :: CitesDocument(c, docs)
  }

  /** The current revision still has the document, byte for byte, but its text is no longer indexed: the compiler
      would not see it. */
  predicate LostText(path: string, built: Documents, current: StoredDocuments) {
    path in built && path in current && !current[path].indexable && current[path].hash == built[path].hash
  }

  /** What lint and the revision diff think of one citation, and the one case in which they differ: a document that
      lost its text is removed for the diff and fine for lint. */
  lemma StaleCitationExact(c: Citation, built: Documents, current: StoredDocuments, hashOf: map<string, string>)
    requires KnowsHashes(hashOf, built) && CitesDocument(c, built)
    ensures IsStaleCitation(c, current, hashOf) <==>
      c.documentPath in Diff(built, Indexable(current)).Touched() && !LostText(c.documentPath, built, current)
    ensures LostText(c.documentPath, built, current) ==> c.documentPath in Diff(built, Indexable(current)).Touched()
  {
    UntouchedIsUnchanged(built, Indexable(current), c.documentPath);
  }

  lemma StalePageExact(p: WikiPage, built: Documents, current: StoredDocuments, hashOf: map<string, string>)
    requires KnowsHashes(hashOf, built) && forall c | c in p.citations :: CitesDocument(c, built)
    ensures IsStalePage(p, current, hashOf) ==> CitesAny(p, Diff(built, Indexable(current)).Touched())
    ensures CitesAny(p, Diff(built, Indexable(current)).Touched()) ==>
      IsStalePage(p, current, hashOf) || exists c | c in p.citations :: LostText(c.documentPath, built, current)
    ensures (exists c | c in p.citations :: LostText(c.documentPath, built, current)) ==>
      CitesAny(p, Diff(built, Indexable(current)).Touched())
  {
    forall c | c in p.citations
      ensures IsStaleCitation(c, current, hashOf) <==>
        c.documentPath in Diff(built, Indexable(current)).Touched() && !LostText(c.documentPath, built, current)
      ensures LostText(c.documentPath, built, current) ==> c.documentPath in Diff(built, Indexable(current)).Touched()
    {
      StaleCitationExact(c, built, current, hashOf);
    }
  }

  /** Every page that cites a document which lost its text also cites one that is gone or rewritten. */
  ghost predicate NothingHidden(
    pages: seq<WikiPage>, built: Documents, current: StoredDocuments, hashOf: map<string, string>)
  {
    forall p, c | p in pages && c in p.citations && LostText(c.documentPath, built, current) ::
      IsStalePage(p, current, hashOf)
  }

  /**
   * For a wiki whose citations resolve in the revision it was built from, every page lint
   * calls stale is one an incremental build towards the current revision finds citing a
   * touched document.
   */
  lemma StaleIsCitingTouched(
    pages: seq<WikiPage>, built: Documents, current: StoredDocuments, hashOf: map<string, string>)
    requires CitesRevision(pages, built) && KnowsHashes(hashOf, built)
    ensures StalePages(pages, current, hashOf) <= CitingPaths(pages, Diff(built, Indexable(current)).Touched())
  {
    forall p | p in pages && IsStalePage(p, current, hashOf)
      ensures CitesAny(p, Diff(built, Indexable(current)).Touched())
    {
      StalePageExact(p, built, current, hashOf);
    }
  }

  /** The two agree if and only if no page is hidden by documents that lost their text; in particular when no cited
      document did. */
  lemma StaleMeansCitingTouched(
    pages: seq<WikiPage>, built: Documents, current: StoredDocuments, hashOf: map<string, string>)
    requires DistinctPaths(pages) && CitesRevision(pages, built) && KnowsHashes(hashOf, built)
    ensures StalePages(pages, current, hashOf) == CitingPaths(pages, Diff(built, Indexable(current)).Touched())
       <==> NothingHidden(pages, built, current, hashOf)
  {
    var touched := Diff(built, Indexable(current)).Touched();
    StaleIsCitingTouched(pages, built, current, hashOf);
    forall p | p in pages
      ensures p.path in StalePages(pages, current, hashOf) <==> IsStalePage(p, current, hashOf)
      ensures p.path in CitingPaths(pages, touched) <==> CitesAny(p, touched)
      ensures CitesAny(p, touched) ==>
        IsStalePage(p, current, hashOf) || exists c | c in p.citations :: LostText(c.documentPath, built, current)
      ensures (exists c | c in p.citations :: LostText(c.documentPath, built, current)) ==> CitesAny(p, touched)
    {
      PathNamesOnePage(pages, p);
      StalePageExact(p, built, current, hashOf);
    }
  }

  lemma PathNamesOnePage(pages: seq<WikiPage>, p: WikiPage)
    requires DistinctPaths(pages) && p in pages
    ensures forall q | q in pages && q.path == p.path :: q == p
  {
  }

  lemma OneCitationResolves(page: WikiPage, c: Citation, built: Documents)
    requires page.citations == [c] && CitesDocument(c, built)
    ensures CitesRevision([page], built)
  {
  }

  /** The case exists: a document sent again with its hash but without its text. The diff has it removed, lint reports
      nothing. */
  lemma LostTextIsHidden(page: WikiPage, built: Documents, current: StoredDocuments, hashOf: map<string, string>)
    requires built == map["a.md" := Document("1", "h")] && current == map["a.md" := StoredDocument("2", "h", false)]
    requires hashOf == map["1" := "h", "2" := "h"]
    requires page.path == "p" && page.citations == [Citation(Some("1"), "a.md", "", "claim", "")]
    ensures CitesRevision([page], built) && KnowsHashes(hashOf, built)
    ensures StalePages([page], current, hashOf) == {}
    ensures CitingPaths([page], Diff(built, Indexable(current)).Touched()) == {"p"}
  {
    OneCitationResolves(page, page.citations[0], built);
    LosingTextHides(page, page.citations[0], built, current, hashOf);
  }

  /** A page whose one document lost its text is rewritten by a build and not reported by lint. */
  lemma LosingTextHides(
    page: WikiPage, c: Citation, built: Documents, current: StoredDocuments, hashOf: map<string, string>)
    requires KnowsHashes(hashOf, built) && page.citations == [c] && CitesDocument(c, built)
    requires LostText(c.documentPath, built, current)
    ensures StalePages([page], current, hashOf) == {}
    ensures CitingPaths([page], Diff(built, Indexable(current)).Touched()) == {page.path}
  {
    StaleCitationExact(c, built, current, hashOf);
    assert c in page.citations && page in [page];
    assert !IsStalePage(page, current, hashOf);
  }

  // ---------------------------------------------------------------------------------------
  // The cascade: pages resting on a stale page.
  // ---------------------------------------------------------------------------------------

  /** The page is a content page that references or elaborates the target. */
  predicate DependsOn(page: WikiPage, target: string) {
    IsContent(page) &&
    exists l | l in page.links ::
      l.targetPage == Some(target) && (l.linkType == LINK_REFERENCES || l.linkType == LINK_ELABORATES)
  }

  predicate Edge(pages: seq<WikiPage>, source: string, target: string) {
    exists p | p in pages :: p.path == source && DependsOn(p, target)
  }

  /** A chain of dependency links from its first page to a stale page, which is its last. */
  ghost predicate IsChain(pages: seq<WikiPage>, stale: set<string>, chain: seq<string>) {
    && chain != []
    && chain[|chain| - 1] in stale
    && forall i | 0 <= i < |chain| - 1 :: Edge(pages, chain[i], chain[i + 1])
  }

  /** Some chain of exactly `hops` links leads from the page to a stale one. */
  ghost predicate Rests(pages: seq<WikiPage>, stale: set<string>, path: string, hops: nat) {
    exists chain :: IsChain(pages, stale, chain) && chain[0] == path && |chain| == hops + 1
  }

  ghost predicate IsDistance(pages: seq<WikiPage>, stale: set<string>, path: string, hops: nat) {
    Rests(pages, stale, path, hops) && forall fewer: nat | fewer < hops :: !Rests(pages, stale, path, fewer)
  }

  lemma RestsOnItself(pages: seq<WikiPage>, stale: set<string>, path: string)
    ensures Rests(pages, stale, path, 0) <==> path in stale
  {
    if path in stale {
      assert IsChain(pages, stale, [path]);
    }
  }

  lemma ChainTail(pages: seq<WikiPage>, stale: set<string>, chain: seq<string>)
    requires IsChain(pages, stale, chain) && |chain| > 1
    ensures Edge(pages, chain[0], chain[1]) && IsChain(pages, stale, chain[1..])
  {
    var tail := chain[1..];
    forall i | 0 <= i < |tail| - 1 ensures Edge(pages, tail[i], tail[i + 1]) {
      assert Edge(pages, chain[i + 1], chain[(i + 1) + 1]);
    }
    assert Edge(pages, chain[0], chain[0 + 1]);
  }

  lemma ChainCons(pages: seq<WikiPage>, stale: set<string>, path: string, tail: seq<string>)
    requires IsChain(pages, stale, tail) && Edge(pages, path, tail[0])
    ensures IsChain(pages, stale, [path] + tail)
  {
    var chain := [path] + tail;
    forall i | 0 <= i < |chain| - 1 ensures Edge(pages, chain[i], chain[i + 1]) {
      if i > 0 {
        assert chain[i] == tail[i - 1] && chain[i + 1] == tail[(i - 1) + 1];
      }
    }
  }

  lemma RestsOneFurther(pages: seq<WikiPage>, stale: set<string>, path: string, hops: nat)
    ensures Rests(pages, stale, path, hops + 1) <==>
            exists next :: Edge(pages, path, next) && Rests(pages, stale, next, hops)
  {
    if Rests(pages, stale, path, hops + 1) {
      var chain :| IsChain(pages, stale, chain) && chain[0] == path && |chain| == hops + 2;
      ChainTail(pages, stale, chain);
    }
    if next :| Edge(pages, path, next) && Rests(pages, stale, next, hops) {
      var tail :| IsChain(pages, stale, tail) && tail[0] == next && |tail| == hops + 1;
      ChainCons(pages, stale, path, tail);
    }
  }

  /** A row of the recursive query: a page and the length of a chain it was reached by. */
  datatype Row = Row(path: string, depth: nat)

  /** One round of the recursive query: the rows one dependency link further out, within the bound. */
  function NextRows(pages: seq<WikiPage>, working: set<Row>): (next: set<Row>)
    ensures forall row :: row in next <==>
              0 < row.depth <= CASCADE_MAX_DEPTH &&
              exists w :: w in working && row.depth == w.depth + 1 && Edge(pages, row.path, w.path)
  {
    var next := set w, p | w in working && p in pages && w.depth < CASCADE_MAX_DEPTH && DependsOn(p, w.path)
                  :: Row(p.path, w.depth + 1);
    assert forall path, w | w in working && w.depth < CASCADE_MAX_DEPTH && Edge(pages, path, w.path) ::
      Row(path, w.depth + 1) in next;
    next
  }

  function AllRows(pages: seq<WikiPage>): (rows: set<Row>)
    ensures forall row :: row in rows <==> row.path in PathsOf(pages) && row.depth <= CASCADE_MAX_DEPTH
  {
    set path, depth: nat | path in PathsOf(pages) && 0 <= depth <= CASCADE_MAX_DEPTH :: Row(path, depth)
  }

  /** Every row is a real chain. */
  ghost predicate RowsSound(pages: seq<WikiPage>, stale: set<string>, rows: set<Row>) {
    forall row | row in rows :: Rests(pages, stale, row.path, row.depth)
  }

  /** Everything one link beyond the finished rows is there. */
  ghost predicate RowsClosed(pages: seq<WikiPage>, rows: set<Row>, done: set<Row>) {
    forall path, row | row in done && row.depth < CASCADE_MAX_DEPTH && Edge(pages, path, row.path) ::
      Row(path, row.depth + 1) in rows
  }

  lemma NextRowsSound(pages: seq<WikiPage>, stale: set<string>, working: set<Row>)
    requires RowsSound(pages, stale, working)
    ensures RowsSound(pages, stale, NextRows(pages, working))
  {
    forall row | row in NextRows(pages, working) ensures Rests(pages, stale, row.path, row.depth) {
      var w :| w in working && row.depth == w.depth + 1 && Edge(pages, row.path, w.path);
      RestsOneFurther(pages, stale, row.path, w.depth);
    }
  }

  lemma NextRowsClosed(pages: seq<WikiPage>, walk: set<Row>, working: set<Row>)
    requires RowsClosed(pages, walk, walk - working)
    ensures RowsClosed(pages, walk + NextRows(pages, working), walk)
  {
    var grown := walk + NextRows(pages, working);
    forall path, row | row in walk && row.depth < CASCADE_MAX_DEPTH && Edge(pages, path, row.path)
      ensures Row(path, row.depth + 1) in grown
    {
      if row !in working {
        assert row in walk - working;
      }
    }
  }

  lemma NextRowsBounded(pages: seq<WikiPage>, working: set<Row>)
    ensures NextRows(pages, working) <= AllRows(pages)
  {
  }

  /** The rounds miss no chain. */
  lemma {:induction false} RowsComplete(
    pages: seq<WikiPage>, stale: set<string>, rows: set<Row>, path: string, depth: nat)
    requires RowsClosed(pages, rows, rows)
    requires forall s | s in stale :: Row(s, 0) in rows
    requires depth <= CASCADE_MAX_DEPTH && Rests(pages, stale, path, depth)
    ensures Row(path, depth) in rows
    decreases depth
  {
    if depth == 0 {
      RestsOnItself(pages, stale, path);
    } else {
      RestsOneFurther(pages, stale, path, depth - 1);
      var next :| Edge(pages, path, next) && Rests(pages, stale, next, depth - 1);
      RowsComplete(pages, stale, rows, next, depth - 1);
    }
  }

  /** All the rows there are: the chains within the bound. */
  ghost predicate IsWalk(pages: seq<WikiPage>, stale: set<string>, walk: set<Row>) {
    forall row :: row in walk <==> row.depth <= CASCADE_MAX_DEPTH && Rests(pages, stale, row.path, row.depth)
  }

  lemma ClosedWalkIsComplete(pages: seq<WikiPage>, stale: set<string>, walk: set<Row>)
    requires walk <= AllRows(pages)
    requires RowsSound(pages, stale, walk) && RowsClosed(pages, walk, walk)
    requires forall s | s in stale :: Row(s, 0) in walk
    ensures IsWalk(pages, stale, walk)
  {
    forall row: Row | row.depth <= CASCADE_MAX_DEPTH && Rests(pages, stale, row.path, row.depth)
      ensures row in walk
    {
      RowsComplete(pages, stale, walk, row.path, row.depth);
    }
  }

  method SeedRows(pages: seq<WikiPage>, stale: set<string>) returns (rows: set<Row>)
    requires stale <= PathsOf(pages)
    ensures rows <= AllRows(pages) && RowsSound(pages, stale, rows)
    ensures forall s | s in stale :: Row(s, 0) in rows
  {
    rows := set s | s in stale :: Row(s, 0);
    forall row | row in rows ensures Rests(pages, stale, row.path, row.depth) {
      RestsOnItself(pages, stale, row.path);
    }
  }

  /** Between two rounds: the rows so far, of which the working ones have not been followed. */
  ghost predicate IsProgress(pages: seq<WikiPage>, stale: set<string>, walk: set<Row>, working: set<Row>) {
    && working <= walk <= AllRows(pages)
    && RowsSound(pages, stale, walk)
    && RowsClosed(pages, walk, walk - working)
    && forall s | s in stale :: Row(s, 0) in walk
  }

  lemma RoundKeepsProgress(pages: seq<WikiPage>, stale: set<string>, walk: set<Row>, working: set<Row>)
    requires IsProgress(pages, stale, walk, working)
    ensures var next := NextRows(pages, working);
            IsProgress(pages, stale, walk + (next - walk), next - walk)
  {
    var next := NextRows(pages, working);
    NextRowsSound(pages, stale, working);
    NextRowsClosed(pages, walk, working);
    NextRowsBounded(pages, working);
    assert walk + (next - walk) == walk + next;
    assert walk + next - (next - walk) == walk;
  }

  /** New rows leave fewer to find; a round without any is the last. */
  lemma RoundShrinks(all: set<Row>, walk: set<Row>, found: set<Row>)
    requires walk !! found && found <= all
    ensures if found == {} then all - (walk + found) == all - walk else all - (walk + found) < all - walk
  {
    if row :| row in found {
      assert row in all - walk && row !in all - (walk + found);
    } else {
      assert walk + found == walk;
    }
  }

  lemma StartOfWalk(pages: seq<WikiPage>, stale: set<string>, walk: set<Row>)
    requires walk <= AllRows(pages) && RowsSound(pages, stale, walk)
    requires forall s | s in stale :: Row(s, 0) in walk
    ensures IsProgress(pages, stale, walk, walk)
  {
    assert walk - walk == {};
  }

  lemma EndOfWalk(pages: seq<WikiPage>, stale: set<string>, walk: set<Row>)
    requires IsProgress(pages, stale, walk, {})
    ensures IsWalk(pages, stale, walk)
  {
    assert walk - {} == walk;
    ClosedWalkIsComplete(pages, stale, walk);
  }

  /** The recursive query terminates, on cyclic links too, with exactly the chains within the bound. */
  method Walk(pages: seq<WikiPage>, stale: set<string>) returns (walk: set<Row>)
    requires stale <= PathsOf(pages)
    ensures IsWalk(pages, stale, walk)
  {
    walk := SeedRows(pages, stale);
    var working := walk;
    StartOfWalk(pages, stale, walk);
    ghost var all := AllRows(pages);
    while working != {}
      invariant IsProgress(pages, stale, walk, working)
      decreases all - walk, working != {}
    {
      RoundKeepsProgress(pages, stale, walk, working);
      var found := NextRows(pages, working) - walk;
      RoundShrinks(all, walk, found);
      walk, working := walk + found, found;
    }
    EndOfWalk(pages, stale, walk);
  }

  // ---------------------------------------------------------------------------------------
  // What is reported.
  // ---------------------------------------------------------------------------------------

  datatype CascadeFinding = CascadeFinding(path: string, hops: nat)

  predicate IsContentPath(pages: seq<WikiPage>, path: string) {
    exists p | p in pages :: p.path == path && IsContent(p)
  }

  /** A content page that is not stale itself, one to four links away from the nearest stale page. */
  ghost predicate IsCascade(pages: seq<WikiPage>, stale: set<string>, f: CascadeFinding) {
    && f.path !in stale
    && IsContentPath(pages, f.path)
    && IsDistance(pages, stale, f.path, f.hops)
    && 1 <= f.hops <= CASCADE_MAX_DEPTH
  }

  /** ORDER BY hops, path. */
  predicate Before(a: CascadeFinding, b: CascadeFinding) {
    a.hops < b.hops || (a.hops == b.hops && Less(a.path, b.path))
  }

  ghost predicate AtLevel(pages: seq<WikiPage>, stale: set<string>, level: nat, paths: set<string>) {
    forall path :: path in paths <==> IsCascade(pages, stale, CascadeFinding(path, level))
  }

  /** The groups whose smallest depth in the walk is `level`. */
  function GroupAt(pages: seq<WikiPage>, stale: set<string>, walk: set<Row>, level: nat): set<string> {
    set row | row in walk && row.depth == level && row.path !in stale && IsContentPath(pages, row.path)
            && forall fewer: nat | 0 <= fewer < level :: Row(row.path, fewer) !in walk :: row.path
  }

  lemma GroupIsLevel(pages: seq<WikiPage>, stale: set<string>, walk: set<Row>, level: nat)
    requires IsWalk(pages, stale, walk)
    requires 1 <= level <= CASCADE_MAX_DEPTH
    ensures AtLevel(pages, stale, level, GroupAt(pages, stale, walk, level))
  {
    var group := GroupAt(pages, stale, walk, level);
    forall path
      ensures path in group <==> IsCascade(pages, stale, CascadeFinding(path, level))
    {
      assert forall depth: nat :: Row(path, depth) in walk <==>
        depth <= CASCADE_MAX_DEPTH && Rests(pages, stale, path, depth);
    }
  }

  function FindingsAt(paths: seq<string>, level: nat): (r: seq<CascadeFinding>)
    ensures |r| == |paths|
    ensures forall k | 0 <= k < |r| :: r[k] == CascadeFinding(paths[k], level)
    ensures forall f :: f in r <==> f.hops == level && f.path in paths
  {
    var r := seq(|paths|, k requires 0 <= k < |paths| => CascadeFinding(paths[k], level));
    assert forall k | 0 <= k < |paths| :: r[k] in r;
    r
  }

  lemma AppendKeepsOrder(findings: seq<CascadeFinding>, paths: seq<string>, level: nat)
    requires forall f | f in findings :: f.hops < level
    requires InOrder(findings) && StrictlySorted(paths)
    ensures InOrder(findings + FindingsAt(paths, level))
  {
    var added := FindingsAt(paths, level);
    assert InOrder(added);
    assert forall i, j | 0 <= i < |findings| && 0 <= j < |added| :: Before(findings[i], added[j]) by {
      assert forall i | 0 <= i < |findings| :: findings[i] in findings;
    }
  }

  ghost predicate InOrder(findings: seq<CascadeFinding>) {
    forall i, j | 0 <= i < j < |findings| :: Before(findings[i], findings[j])
  }

  /** The stale_cascade rule reports exactly the pages at distance one to four, nearest first. */
  method StaleCascade(pages: seq<WikiPage>, stale: set<string>) returns (findings: seq<CascadeFinding>)
    requires stale <= PathsOf(pages)
    ensures forall f :: f in findings <==> IsCascade(pages, stale, f)
    ensures forall f | f in findings :: 1 <= f.hops <= 4
    ensures InOrder(findings)
  {
    findings := [];
    var walk := Walk(pages, stale);
    for level := 1 to CASCADE_MAX_DEPTH + 1
      invariant forall f :: f in findings <==> IsCascade(pages, stale, f) && f.hops < level
      invariant InOrder(findings)
    {
      GroupIsLevel(pages, stale, walk, level);
      var paths := SortSet(GroupAt(pages, stale, walk, level));
      AppendKeepsOrder(findings, paths, level);
      findings := findings + FindingsAt(paths, level);
    }
  }

  /** What lint reports one hop out, an incremental build towards the current revision reschedules. */
  lemma FirstHopIsScheduled(
      pages: seq<WikiPage>, built: Documents, current: StoredDocuments, hashOf: map<string, string>,
      f: CascadeFinding)
    requires CitesRevision(pages, built) && KnowsHashes(hashOf, built)
    requires IsCascade(pages, StalePages(pages, current, hashOf), f) && f.hops == 1
    ensures f.path in ImpactedPagePaths(pages, Diff(built, Indexable(current)).Touched())
  {
    var touched := Diff(built, Indexable(current)).Touched();
    var stale := StalePages(pages, current, hashOf);
    StaleIsCitingTouched(pages, built, current, hashOf);
    LinkedToStale(pages, stale, f.path);
    MoreTargetsMoreLinkers(pages, stale, CitingPaths(pages, touched));
    NothingTouchedNothingCited(pages, touched);
  }

  /** A content page with a link to a stale page that references or elaborates it. */
  ghost predicate LinksToStale(page: WikiPage, stale: set<string>) {
    page.kind != "index" && page.kind != "log" &&
    exists l :: l in page.links && l.targetPage.Some? && l.targetPage.value in stale
                && (l.linkType == "references" || l.linkType == "elaborates")
  }

  lemma OneLinkOut(pages: seq<WikiPage>, stale: set<string>, path: string)
    ensures Rests(pages, stale, path, 1) <==> exists p :: p in pages && p.path == path && LinksToStale(p, stale)
  {
    RestsOneFurther(pages, stale, path, 0);
    if next :| Edge(pages, path, next) && Rests(pages, stale, next, 0) {
      RestsOnItself(pages, stale, next);
      var p :| p in pages && p.path == path && DependsOn(p, next);
      assert LinksToStale(p, stale);
    }
    if p :| p in pages && p.path == path && LinksToStale(p, stale) {
      var l :| l in p.links && l.targetPage.Some? && l.targetPage.value in stale
                && (l.linkType == "references" || l.linkType == "elaborates");
      assert DependsOn(p, l.targetPage.value) && Edge(pages, path, l.targetPage.value);
      RestsOnItself(pages, stale, l.targetPage.value);
    }
  }

  /** One hop out, in terms of the pages alone: reported is exactly a page that is neither index, log nor stale itself
      and has a link to a stale page that references or elaborates it. */
  lemma FirstHopExactly(pages: seq<WikiPage>, stale: set<string>, path: string)
    ensures IsCascade(pages, stale, CascadeFinding(path, 1)) <==>
      path !in stale && exists p :: p in pages && p.path == path && LinksToStale(p, stale)
  {
    OneLinkOut(pages, stale, path);
    RestsOnItself(pages, stale, path);
  }

  lemma MoreTargetsMoreLinkers(pages: seq<WikiPage>, some: set<string>, more: set<string>)
    requires some <= more
    ensures LinkingPaths(pages, some) <= LinkingPaths(pages, more)
  {
  }

  lemma LinkedToStale(pages: seq<WikiPage>, stale: set<string>, path: string)
    requires Rests(pages, stale, path, 1)
    ensures stale != {} && path in LinkingPaths(pages, stale)
  {
    RestsOneFurther(pages, stale, path, 0);
    var next :| Edge(pages, path, next) && Rests(pages, stale, next, 0);
    RestsOnItself(pages, stale, next);
    var p :| p in pages && p.path == path && DependsOn(p, next);
    assert LinksInto(p, stale);
  }

  lemma NothingTouchedNothingCited(pages: seq<WikiPage>, touched: seq<string>)
    ensures touched == [] ==> CitingPaths(pages, touched) == {}
  {
  }

  /** Against the revision the wiki was built from, nothing is stale and nothing cascades. */
  lemma UnchangedSourcesAreClean(
    pages: seq<WikiPage>, files: StoredDocuments, hashOf: map<string, string>, f: CascadeFinding)
    requires CitesRevision(pages, Indexable(files)) && KnowsHashes(hashOf, Indexable(files))
    ensures StalePages(pages, files, hashOf) == {}
    ensures !IsCascade(pages, StalePages(pages, files, hashOf), f)
  {
    assert Diff(Indexable(files), Indexable(files)).Touched() == [];
    StaleIsCitingTouched(pages, Indexable(files), files, hashOf);
    NothingTouchedNothingCited(pages, []);
  }
}
