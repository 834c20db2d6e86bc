/**
 * Ranking memory search results (internal/memory/service.go): a bounded adjustment from
 * recorded feedback, and a stable re-sort of what retrieval delivered. Scores are reals.
 */
module Ranking {
  import opened Lists
  import opened MemoryStore
  import opened Ordering
  import opened Replacement

  const MAX_FEEDBACK_ADJUSTMENT := 0.15

  function FeedbackAdjustment(useful: nat, harmful: nat): real {
    var total := useful + harmful;
    if total == 0 then 0.0 else
      var ratio := (useful - harmful) as real / total as real;
      var weight := total as real / (total + 3) as real;
      MAX_FEEDBACK_ADJUSTMENT * ratio * weight
  }

  function ClampScore(value: real): real {
    if value < 0.0 then 0.0 else if value > 1.0 then 1.0 else value
  }

  /** The quotients cancel: the balance of the signals over three more than their number. */
  lemma AdjustmentIsBalance(useful: nat, harmful: nat)
    ensures FeedbackAdjustment(useful, harmful) * (useful + harmful + 3) as real
         == MAX_FEEDBACK_ADJUSTMENT * (useful - harmful) as real
  {
    var total := (useful + harmful) as real;
    var balance := (useful - harmful) as real;
    if useful + harmful > 0 {
      Cancel(balance, total, total + 3.0);
      assert FeedbackAdjustment(useful, harmful)
          == MAX_FEEDBACK_ADJUSTMENT * (balance / total) * (total / (total + 3.0));
      assert FeedbackAdjustment(useful, harmful) * (total + 3.0)
          == MAX_FEEDBACK_ADJUSTMENT * ((balance / total) * (total / (total + 3.0)) * (total + 3.0));
    }
  }

  lemma Cancel(a: real, b: real, c: real)
    requires b > 0.0 && c > 0.0
    ensures (a / b) * (b / c) * c == a
  {
    assert (b / c) * c == b;
    assert (a / b) * b == a;
  }

  /** Strictly inside the cap, whatever the counters. */
  lemma AdjustmentIsBounded(useful: nat, harmful: nat)
    ensures -MAX_FEEDBACK_ADJUSTMENT < FeedbackAdjustment(useful, harmful) < MAX_FEEDBACK_ADJUSTMENT
  {
    AdjustmentIsBalance(useful, harmful);
    QuotientBound(FeedbackAdjustment(useful, harmful), (useful + harmful + 3) as real, (useful - harmful) as real);
  }

  lemma CancelFactor(x: real, y: real, n: real)
    requires n > 0.0 && x * n < y * n
    ensures x < y
  {
  }

  lemma QuotientBound(x: real, n: real, balance: real)
    requires n > 0.0 && x * n == MAX_FEEDBACK_ADJUSTMENT * balance
    requires -n < balance < n
    ensures -MAX_FEEDBACK_ADJUSTMENT < x < MAX_FEEDBACK_ADJUSTMENT
  {
    CancelFactor(x, MAX_FEEDBACK_ADJUSTMENT, n);
    CancelFactor(-MAX_FEEDBACK_ADJUSTMENT, x, n);
  }

  /** One more useful signal always raises the score and one more harmful signal always lowers it. */
  lemma AdjustmentFollowsSignals(useful: nat, harmful: nat)
    ensures FeedbackAdjustment(useful, harmful) < FeedbackAdjustment(useful + 1, harmful)
    ensures FeedbackAdjustment(useful, harmful + 1) < FeedbackAdjustment(useful, harmful)
  {
    AdjustmentIsBalance(useful, harmful);
    AdjustmentIsBalance(useful + 1, harmful);
    AdjustmentIsBalance(useful, harmful + 1);
    var n, balance := (useful + harmful + 3) as real, (useful - harmful) as real;
    QuotientGrows(FeedbackAdjustment(useful, harmful), FeedbackAdjustment(useful + 1, harmful), n, balance);
    QuotientGrows(-FeedbackAdjustment(useful, harmful), -FeedbackAdjustment(useful, harmful + 1), n, -balance);
  }

  lemma QuotientGrows(x: real, y: real, n: real, balance: real)
    requires n > 0.0 && balance < n
    requires x * n == MAX_FEEDBACK_ADJUSTMENT * balance
    requires y * (n + 1.0) == MAX_FEEDBACK_ADJUSTMENT * (balance + 1.0)
    ensures x < y
  {
    CancelFactor(x, MAX_FEEDBACK_ADJUSTMENT, n);
    assert x * (n + 1.0) == x * n + x;
    CancelFactor(x, y, n + 1.0);
  }

  /** A lead no feedback can overturn: the adjusted and clamped scores keep the order. */
  lemma LeadSurvivesFeedback(a: real, b: real, usefulA: nat, harmfulA: nat, usefulB: nat, harmfulB: nat)
    requires a - b >= 2.0 * MAX_FEEDBACK_ADJUSTMENT
    ensures ClampScore(a + FeedbackAdjustment(usefulA, harmfulA))
         >= ClampScore(b + FeedbackAdjustment(usefulB, harmfulB))
  {
    AdjustmentIsBounded(usefulA, harmfulA);
    AdjustmentIsBounded(usefulB, harmfulB);
  }

  // ---------------------------------------------------------------------------------------
  // Search.
  // ---------------------------------------------------------------------------------------

  /** One retrieval result; `isEntry` says whether its document is a memory entry. */
  datatype Hit = Hit(isEntry: bool, sourceId: MemoryId, score: real)

  datatype SearchItem = SearchItem(id: MemoryId, entry: Entry, rank: nat, score: real, retrievalScore: real)

  function EffectiveTopK(topK: int): nat {
    if topK <= 0 || topK > 20 then 8 else topK
  }

  function CandidateLimit(topK: nat): nat {
    if topK * 3 > 50 then 50 else topK * 3
  }

  predicate IsCandidate(entries: Entries, req: SearchRequest, now: int, hit: Hit) {
    hit.isEntry && hit.sourceId in entries && EntryMatchesSearch(entries[hit.sourceId], req, now)
  }

  function CandidateTest(entries: Entries, req: SearchRequest, now: int): Hit -> bool {
    (hit: Hit) => IsCandidate(entries, req, now, hit)
  }

  function EntryAdjustment(): Entry -> real {
    (entry: Entry) => FeedbackAdjustment(entry.usefulCount, entry.harmfulCount)
  }

  function ItemOf(entries: Entries, adjustment: Entry -> real, hit: Hit, rank: nat): SearchItem
    requires hit.sourceId in entries
  {
    var entry := entries[hit.sourceId];
    SearchItem(hit.sourceId, entry, rank, ClampScore(hit.score + adjustment(entry)), hit.score)
  }

  /** The items of these hits, ranked in this order. */
  ghost predicate AreItemsOf(items: seq<SearchItem>, entries: Entries, adjustment: Entry -> real, hits: seq<Hit>) {
    && |items| == |hits|
    && forall i | 0 <= i < |items| ::
         hits[i].sourceId in entries && items[i] == ItemOf(entries, adjustment, hits[i], i + 1)
  }

  function Take(hits: seq<Hit>, limit: nat): seq<Hit> {
    if |hits| <= limit then hits else hits[..limit]
  }

  /** The first candidates in retrieval order, ranked by it. */
  ghost predicate AreCandidates(
    items: seq<SearchItem>, entries: Entries, hits: seq<Hit>, req: SearchRequest, now: int, limit: nat)
  {
    AreItemsOf(items, entries, EntryAdjustment(), Take(Filter(hits, CandidateTest(entries, req, now)), limit))
  }

  lemma {:induction false} FilterPrefix(hits: seq<Hit>, keep: Hit -> bool, n: nat)
    requires n <= |hits|
    ensures Filter(hits[..n], keep) <= Filter(hits, keep)
    decreases |hits|
  {
    if n == |hits| {
      assert hits[..n] == hits;
    } else {
      FilterPrefix(hits[..|hits| - 1], keep, n);
      assert hits[..|hits| - 1][..n] == hits[..n];
    }
  }

  /** Once the limit is reached, the hits not looked at could not have been taken. */
  lemma LimitReached(hits: seq<Hit>, keep: Hit -> bool, n: nat, limit: nat)
    requires n <= |hits| && |Filter(hits[..n], keep)| == limit
    ensures Take(Filter(hits, keep), limit) == Filter(hits[..n], keep)
  {
    FilterPrefix(hits, keep, n);
  }

  lemma ItemsSnoc(items: seq<SearchItem>, entries: Entries, adjustment: Entry -> real, kept: seq<Hit>, hit: Hit)
    requires AreItemsOf(items, entries, adjustment, kept) && hit.sourceId in entries
    ensures AreItemsOf(items + [ItemOf(entries, adjustment, hit, |items| + 1)], entries, adjustment, kept + [hit])
  {
  }

  method CollectCandidates(entries: Entries, adjustment: Entry -> real, hits: seq<Hit>,
      req: SearchRequest, now: int, limit: nat)
    returns (items: seq<SearchItem>)
    requires limit > 0
    ensures AreItemsOf(items, entries, adjustment, Take(Filter(hits, CandidateTest(entries, req, now)), limit))
  {
    items := [];
    ghost var keep := CandidateTest(entries, req, now);
    ghost var kept: seq<Hit> := [];
    for i := 0 to |hits|
      invariant kept == Filter(hits[..i], keep) && |kept| < limit
      invariant AreItemsOf(items, entries, adjustment, kept)
    {
      FilterSnoc(hits, i, keep);
      var hit := hits[i];
      if !hit.isEntry || hit.sourceId !in entries {
        continue;
      }
      if !EntryMatchesSearch(entries[hit.sourceId], req, now) {
        continue;
      }
      ItemsSnoc(items, entries, adjustment, kept, hit);
      items := items + [ItemOf(entries, adjustment, hit, |items| + 1)];
      kept := kept + [hit];
      if |items| == limit {
        LimitReached(hits, keep, i + 1, limit);
        return;
      }
    }
    assert hits[..|hits|] == hits;
  }

  predicate Precedes(a: SearchItem, b: SearchItem) {
    a.score > b.score || (a.score == b.score && a.rank < b.rank)
  }

  /** The one result of a stable descending sort of items whose ranks tell their original order. */
  ghost predicate IsStableSort(sorted: seq<SearchItem>, items: seq<SearchItem>) {
    && multiset(sorted) == multiset(items)
    && forall i, j | 0 <= i < j < |sorted| :: Precedes(sorted[i], sorted[j])
  }

  ghost predicate RanksAscend(items: seq<SearchItem>) {
    forall i, j | 0 <= i < j < |items| :: items[i].rank < items[j].rank
  }

  ghost predicate InScoreOrder(sorted: seq<SearchItem>) {
    forall i, j | 0 <= i < j < |sorted| :: Precedes(sorted[i], sorted[j])
  }

  lemma InsertKeepsOrder(sorted: seq<SearchItem>, item: SearchItem, at: nat)
    requires InScoreOrder(sorted) && at <= |sorted|
    requires forall k | 0 <= k < at :: Precedes(sorted[k], item)
    requires forall k | at <= k < |sorted| :: Precedes(item, sorted[k])
    ensures InScoreOrder(sorted[..at] + [item] + sorted[at..])
  {
  }

  /** The slot after every item that scores at least as much. */
  method FindSlot(sorted: seq<SearchItem>, item: SearchItem) returns (at: nat)
    requires InScoreOrder(sorted)
    ensures at <= |sorted|
    ensures forall k | 0 <= k < at :: sorted[k].score >= item.score
    ensures forall k | at <= k < |sorted| :: sorted[k].score < item.score
  {
    at := |sorted|;
    while at > 0 && sorted[at - 1].score < item.score
      invariant 0 <= at <= |sorted|
      invariant forall k | at <= k < |sorted| :: sorted[k].score < item.score
    {
      at := at - 1;
    }
    assert forall k | 0 <= k < at - 1 :: Precedes(sorted[k], sorted[at - 1]);
  }

  method InsertStable(sorted: seq<SearchItem>, items: seq<SearchItem>, item: SearchItem) returns (r: seq<SearchItem>)
    requires IsStableSort(sorted, items) && forall other | other in items :: other.rank < item.rank
    ensures IsStableSort(r, items + [item])
  {
    var at := FindSlot(sorted, item);
    SameElements(sorted, items);
    assert forall k | 0 <= k < at :: sorted[k] in items;
    InsertKeepsOrder(sorted, item, at);
    r := sorted[..at] + [item] + sorted[at..];
    assert sorted == sorted[..at] + sorted[at..];
  }

  method SortStable(items: seq<SearchItem>) returns (sorted: seq<SearchItem>)
    requires RanksAscend(items)
    ensures IsStableSort(sorted, items)
  {
    sorted := [];
    for n := 0 to |items|
      invariant IsStableSort(sorted, items[..n])
    {
      assert items[..n + 1] == items[..n] + [items[n]];
      sorted := InsertStable(sorted, items[..n], items[n]);
    }
    assert items[..|items|] == items;
  }

  /** The delivered list: the best of the sorted candidates, ranked by their final place. */
  ghost predicate IsDelivered(items: seq<SearchItem>, sorted: seq<SearchItem>, topK: nat) {
    && |items| == (if |sorted| <= topK then |sorted| else topK)
    && forall i | 0 <= i < |items| :: items[i] == sorted[i].(rank := i + 1)
  }

  /** What a search delivers. */
  ghost predicate IsSearchResult(items: seq<SearchItem>, entries: Entries, hits: seq<Hit>, req: SearchRequest,
      topK: nat, now: int)
  {
    exists candidates, sorted ::
      && AreCandidates(candidates, entries, hits, req, now, CandidateLimit(topK))
      && IsStableSort(sorted, candidates)
      && IsDelivered(items, sorted, topK)
  }

  method SearchEntries(entries: Entries, hits: seq<Hit>, req: SearchRequest, requestedTopK: int, now: int)
    returns (items: seq<SearchItem>)
    ensures IsSearchResult(items, entries, hits, req, EffectiveTopK(requestedTopK), now)
    ensures |items| <= if 1 <= requestedTopK <= 20 then requestedTopK else 8
  {
    var topK := EffectiveTopK(requestedTopK);
    var candidates := CollectCandidates(entries, EntryAdjustment(), hits, req, now, CandidateLimit(topK));
    var sorted := SortStable(candidates);
    items := sorted;
    if |items| > topK {
      items := items[..topK];
    }
    for i := 0 to |items|
      invariant |items| == (if |sorted| <= topK then |sorted| else topK)
      invariant forall k | 0 <= k < |items| :: items[k] == if k < i then sorted[k].(rank := k + 1) else sorted[k]
    {
      items := items[i := items[i].(rank := i + 1)];
    }
    assert IsDelivered(items, sorted, topK);
  }

  lemma FirstPrecedes(a: seq<SearchItem>, x: SearchItem)
    requires InScoreOrder(a) && x in a
    ensures x == a[0] || Precedes(a[0], x)
  {
  }

  lemma TailElements<T>(a: seq<T>)
    requires a != []
    ensures multiset(a[1..]) == multiset(a) - multiset{a[0]}
  {
    assert a == [a[0]] + a[1..];
  }

  lemma SameFirst(a: seq<SearchItem>, b: seq<SearchItem>)
    requires multiset(a) == multiset(b) && InScoreOrder(a) && InScoreOrder(b) && a != []
    ensures b != [] && a[0] == b[0]
    ensures multiset(a[1..]) == multiset(b[1..])
  {
    SameElements(a, b);
    FirstPrecedes(a, b[0]);
    FirstPrecedes(b, a[0]);
    TailElements(a);
    TailElements(b);
  }

  lemma {:induction false} OrderIsUnique(a: seq<SearchItem>, b: seq<SearchItem>)
    requires multiset(a) == multiset(b) && InScoreOrder(a) && InScoreOrder(b)
    ensures a == b
  {
    if a == [] {
      SameElements(a, b);
    } else {
      SameFirst(a, b);
      OrderIsUnique(a[1..], b[1..]);
      assert a == [a[0]] + a[1..] && b == [b[0]] + b[1..];
    }
  }

  lemma CandidatesAreUnique(
    a: seq<SearchItem>, b: seq<SearchItem>, entries: Entries, adjustment: Entry -> real, hits: seq<Hit>)
    requires AreItemsOf(a, entries, adjustment, hits) && AreItemsOf(b, entries, adjustment, hits)
    ensures a == b
  {
  }

  lemma DeliveryIsUnique(a: seq<SearchItem>, b: seq<SearchItem>, sorted: seq<SearchItem>, topK: nat)
    requires IsDelivered(a, sorted, topK) && IsDelivered(b, sorted, topK)
    ensures a == b
  {
  }

  /** Stability leaves no choice: equal searches deliver equal lists. */
  lemma SearchIsDetermined(a: seq<SearchItem>, b: seq<SearchItem>, entries: Entries, hits: seq<Hit>,
      req: SearchRequest, topK: nat, now: int)
    requires IsSearchResult(a, entries, hits, req, topK, now) && IsSearchResult(b, entries, hits, req, topK, now)
    ensures a == b
  {
    var ca, sa :| AreCandidates(ca, entries, hits, req, now, CandidateLimit(topK))
      && IsStableSort(sa, ca) && IsDelivered(a, sa, topK);
    var cb, sb :| AreCandidates(cb, entries, hits, req, now, CandidateLimit(topK))
      && IsStableSort(sb, cb) && IsDelivered(b, sb, topK);
    CandidatesAreUnique(ca, cb, entries, EntryAdjustment(),
      Take(Filter(hits, CandidateTest(entries, req, now)), CandidateLimit(topK)));
    OrderIsUnique(sa, sb);
    DeliveryIsUnique(a, b, sa, topK);
  }

  lemma SortedPlace(
    sorted: seq<SearchItem>, items: seq<SearchItem>, a: SearchItem, b: SearchItem, j: nat) returns (i: nat)
    requires IsStableSort(sorted, items) && a in items && b in items && Precedes(a, b)
    requires j < |sorted| && sorted[j] == b
    ensures i < j && sorted[i] == a
  {
    SameElements(sorted, items);
    i :| 0 <= i < |sorted| && sorted[i] == a;
  }

  /** Feedback never reorders a clearly better match: if of two candidates the first came earlier in retrieval with a
      lead of twice the cap, then wherever the second is delivered, the first is delivered before it. */
  lemma LeadIsDelivered(items: seq<SearchItem>, candidates: seq<SearchItem>, sorted: seq<SearchItem>,
      entries: Entries, hits: seq<Hit>, req: SearchRequest, topK: nat, now: int, x: nat, y: nat, j: nat)
    returns (i: nat)
    requires AreCandidates(candidates, entries, hits, req, now, CandidateLimit(topK))
    requires IsStableSort(sorted, candidates) && IsDelivered(items, sorted, topK)
    requires x < y < |candidates|
    requires candidates[x].retrievalScore - candidates[y].retrievalScore >= 2.0 * MAX_FEEDBACK_ADJUSTMENT
    requires j < |items| && sorted[j] == candidates[y]
    ensures i < j && items[j] == candidates[y].(rank := j + 1) && items[i] == candidates[x].(rank := i + 1)
  {
    var a, b := candidates[x], candidates[y];
    LeadSurvivesFeedback(a.retrievalScore, b.retrievalScore,
      a.entry.usefulCount, a.entry.harmfulCount, b.entry.usefulCount, b.entry.harmfulCount);
    i := SortedPlace(sorted, candidates, a, b, j);
  }

  /** Which retrieval results are candidates: entries that are there, with the status asked for and no filter against
      them, valid and not expired at the time of the search. */
  lemma CandidateExactly(entries: Entries, req: SearchRequest, now: int, hit: Hit)
    ensures CandidateTest(entries, req, now)(hit) <==>
      && hit.isEntry && hit.sourceId in entries
      && var e := entries[hit.sourceId];
         && e.status == req.status
         && (e.scopeType == req.scopeType || req.scopeType == "")
         && (e.scopeKey == req.scopeKey || req.scopeKey == "")
         && (e.memoryType == req.memoryType || req.memoryType == "")
         && e.validFrom <= now && (e.validTo.Some? ==> now < e.validTo.value)
         && (e.ttlAt.Some? ==> now < e.ttlAt.value)
  {
  }

  /** Everything delivered is one of the retrieved hits and matches the request at the time of the search. */
  lemma DeliveredMatches(items: seq<SearchItem>, entries: Entries, hits: seq<Hit>, req: SearchRequest, topK: nat,
      now: int, item: SearchItem)
    requires IsSearchResult(items, entries, hits, req, topK, now) && item in items
    ensures item.id in entries && item.entry == entries[item.id] && EntryMatchesSearch(item.entry, req, now)
    ensures exists hit :: hit in hits && hit.isEntry && hit.sourceId == item.id && hit.score == item.retrievalScore
    ensures item.score == ClampScore(item.retrievalScore + EntryAdjustment()(item.entry))
  {
    var candidates, sorted :| AreCandidates(candidates, entries, hits, req, now, CandidateLimit(topK))
      && IsStableSort(sorted, candidates) && IsDelivered(items, sorted, topK);
    var j :| 0 <= j < |items| && items[j] == item;
    SameElements(sorted, candidates);
    assert sorted[j] in candidates;
    var x :| 0 <= x < |candidates| && candidates[x] == sorted[j];
    var kept := Filter(hits, CandidateTest(entries, req, now));
    assert kept[x] in kept;
  }

  /** Useful signals over harmful ones, as a share of three more than their number, of the cap. */
  function Balance(entry: Entry): real {
    0.15 * (entry.usefulCount - entry.harmfulCount) as real / (entry.usefulCount + entry.harmfulCount + 3) as real
  }

  lemma AdjustmentIsQuotient(entry: Entry)
    ensures EntryAdjustment()(entry) == Balance(entry)
  {
    AdjustmentIsBalance(entry.usefulCount, entry.harmfulCount);
    Divide(FeedbackAdjustment(entry.usefulCount, entry.harmfulCount),
           (entry.usefulCount + entry.harmfulCount + 3) as real,
           0.15 * (entry.usefulCount - entry.harmfulCount) as real);
  }

  lemma Divide(x: real, n: real, y: real)
    requires n > 0.0 && x * n == y
    ensures x == y / n
  {
  }

  /** The score delivered: what retrieval gave, moved by the balance of the signals, kept inside 0..1. */
  lemma DeliveredScore(items: seq<SearchItem>, entries: Entries, hits: seq<Hit>, req: SearchRequest, topK: nat,
      now: int, item: SearchItem)
    requires IsSearchResult(items, entries, hits, req, topK, now) && item in items
    ensures var score := item.retrievalScore + Balance(item.entry);
      item.score == if score < 0.0 then 0.0 else if score > 1.0 then 1.0 else score
  {
    DeliveredMatches(items, entries, hits, req, topK, now, item);
    AdjustmentIsQuotient(item.entry);
  }

  /** Delivered in order of score, and numbered in that order. */
  lemma DeliveredInOrder(items: seq<SearchItem>, entries: Entries, hits: seq<Hit>, req: SearchRequest, topK: nat,
      now: int, i: nat, j: nat)
    requires IsSearchResult(items, entries, hits, req, topK, now) && i < j < |items|
    ensures items[i].score >= items[j].score && items[i].rank == i + 1 && items[j].rank == j + 1
  {
    var candidates, sorted :| AreCandidates(candidates, entries, hits, req, now, CandidateLimit(topK))
      && IsStableSort(sorted, candidates) && IsDelivered(items, sorted, topK);
    assert Precedes(sorted[i], sorted[j]);
  }

  lemma LargerBalance(a: Entry, b: Entry, na: real, nb: real)
    requires na == (a.usefulCount + a.harmfulCount + 3) as real && nb == (b.usefulCount + b.harmfulCount + 3) as real
    requires (a.usefulCount - a.harmfulCount) as real * nb > (b.usefulCount - b.harmfulCount) as real * na
    ensures -0.15 < Balance(b) < Balance(a) < 0.15
  {
    AdjustmentIsQuotient(a);
    AdjustmentIsQuotient(b);
    AdjustmentIsBounded(a.usefulCount, a.harmfulCount);
    AdjustmentIsBounded(b.usefulCount, b.harmfulCount);
    CrossQuotient((a.usefulCount - a.harmfulCount) as real, na, (b.usefulCount - b.harmfulCount) as real, nb);
  }

  lemma CrossQuotient(x: real, n: real, y: real, m: real)
    requires n > 0.0 && m > 0.0 && x * m > y * n
    ensures 0.15 * x / n > 0.15 * y / m
  {
    var p, q := 0.15 * x / n, 0.15 * y / m;
    assert p * n == 0.15 * x && q * m == 0.15 * y;
    assert p * n * m == 0.15 * (x * m) && q * m * n == 0.15 * (y * n);
    CancelFactor(q, p, n * m);
  }

  /** Feedback decides between equal matches: of two delivered entries that retrieval scored alike, away from the ends
      of the scale, the one with the better balance of signals comes first. */
  lemma BetterBalanceComesFirst(items: seq<SearchItem>, entries: Entries, hits: seq<Hit>, req: SearchRequest,
      topK: nat, now: int, i: nat, j: nat)
    requires IsSearchResult(items, entries, hits, req, topK, now) && i < |items| && j < |items|
    requires 0.15 < items[i].retrievalScore == items[j].retrievalScore < 0.85
    requires var a, b := items[i].entry, items[j].entry;
      (a.usefulCount - a.harmfulCount) as real * (b.usefulCount + b.harmfulCount + 3) as real
      > (b.usefulCount - b.harmfulCount) as real * (a.usefulCount + a.harmfulCount + 3) as real
    ensures i < j
  {
    var a, b := items[i].entry, items[j].entry;
    LargerBalance(a, b, (a.usefulCount + a.harmfulCount + 3) as real, (b.usefulCount + b.harmfulCount + 3) as real);
    DeliveredScore(items, entries, hits, req, topK, now, items[i]);
    DeliveredScore(items, entries, hits, req, topK, now, items[j]);
    if j < i {
      DeliveredInOrder(items, entries, hits, req, topK, now, j, i);
    }
  }

  lemma KeptAt(hits: seq<Hit>, keep: Hit -> bool, h: nat)
    requires h < |hits| && keep(hits[h])
    ensures |Filter(hits[..h], keep)| < |Filter(hits, keep)|
    ensures Filter(hits, keep)[|Filter(hits[..h], keep)|] == hits[h]
  {
    FilterSnoc(hits, h, keep);
    FilterPrefix(hits, keep, h + 1);
  }

  /** Nothing that matches is lost: a candidate among the first three times the requested number of them, and the
      first fifty, is delivered unless that many were delivered and none of them scored less. */
  lemma MissingIsOutranked(items: seq<SearchItem>, entries: Entries, hits: seq<Hit>, req: SearchRequest,
      topK: nat, now: int, h: nat)
    requires IsSearchResult(items, entries, hits, req, topK, now) && h < |hits|
    requires CandidateTest(entries, req, now)(hits[h])
    requires var earlier := |Filter(hits[..h], CandidateTest(entries, req, now))|; earlier < 50 && earlier < 3 * topK
    ensures (exists item :: item in items && item.id == hits[h].sourceId && item.retrievalScore == hits[h].score)
         || (|items| == topK && forall item | item in items ::
               item.score >= ClampScore(hits[h].score + Balance(entries[hits[h].sourceId])))
  {
    var keep := CandidateTest(entries, req, now);
    var x := |Filter(hits[..h], keep)|;
    KeptAt(hits, keep, h);
    var candidates, sorted :| AreCandidates(candidates, entries, hits, req, now, CandidateLimit(topK))
      && IsStableSort(sorted, candidates) && IsDelivered(items, sorted, topK);
    assert candidates[x] == ItemOf(entries, EntryAdjustment(), hits[h], x + 1);
    AdjustmentIsQuotient(entries[hits[h].sourceId]);
    SortedHas(sorted, candidates, items, topK, candidates[x]);
  }

  /** And an equal match with the better balance is never left out in favour of one with a worse balance. */
  lemma BetterBalanceIsDelivered(items: seq<SearchItem>, entries: Entries, hits: seq<Hit>, req: SearchRequest,
      topK: nat, now: int, h: nat, worse: SearchItem)
    requires IsSearchResult(items, entries, hits, req, topK, now) && h < |hits| && worse in items
    requires CandidateTest(entries, req, now)(hits[h]) && 0.15 < hits[h].score == worse.retrievalScore < 0.85
    requires var earlier := |Filter(hits[..h], CandidateTest(entries, req, now))|; earlier < 50 && earlier < 3 * topK
    requires var a, b := entries[hits[h].sourceId], worse.entry;
      (a.usefulCount - a.harmfulCount) as real * (b.usefulCount + b.harmfulCount + 3) as real
      > (b.usefulCount - b.harmfulCount) as real * (a.usefulCount + a.harmfulCount + 3) as real
    ensures exists item :: item in items && item.id == hits[h].sourceId && item.retrievalScore == hits[h].score
  {
    var a, b := entries[hits[h].sourceId], worse.entry;
    LargerBalance(a, b, (a.usefulCount + a.harmfulCount + 3) as real, (b.usefulCount + b.harmfulCount + 3) as real);
    DeliveredScore(items, entries, hits, req, topK, now, worse);
    MissingIsOutranked(items, entries, hits, req, topK, now, h);
  }

  lemma SortedHas(sorted: seq<SearchItem>, candidates: seq<SearchItem>, items: seq<SearchItem>, topK: nat,
      c: SearchItem)
    requires IsStableSort(sorted, candidates) && IsDelivered(items, sorted, topK) && c in candidates
    ensures (exists item :: item in items && item.id == c.id && item.retrievalScore == c.retrievalScore)
         || (|items| == topK && forall item | item in items :: item.score >= c.score)
  {
    SameElements(sorted, candidates);
    var m :| 0 <= m < |sorted| && sorted[m] == c;
    if m < |items| {
      assert items[m] in items && items[m].id == c.id;
    } else {
      forall item | item in items ensures item.score >= c.score {
        var k :| 0 <= k < |items| && items[k] == item;
        assert Precedes(sorted[k], sorted[m]);
      }
    }
  }

  /** So no search after a supersede delivers the superseded entry, whatever was done in between. */
  lemma SupersededIsNotDelivered(s: MemoryState, superseding: MemoryId, superseded: MemoryId, at: int, ops: seq<Op>,
      items: seq<SearchItem>, hits: seq<Hit>, req: SearchRequest, topK: nat, now: int, item: SearchItem)
    requires Inv(s) && SupersedeOutcomeOf(s.entries, superseding, superseded, at).Replaced? && now >= at
    requires IsSearchResult(items, Run(Apply(s, Supersede(superseding, superseded, at)), ops).entries,
                            hits, req, topK, now)
    requires item in items
    ensures item.id != superseded
  {
    var entries := Run(Apply(s, Supersede(superseding, superseded, at)), ops).entries;
    DeliveredMatches(items, entries, hits, req, topK, now, item);
    SupersededIsNeverFound(s, superseding, superseded, at, ops, req, now);
  }
}
