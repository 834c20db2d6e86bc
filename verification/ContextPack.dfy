/**
 * Assembling a context pack within a character budget (internal/contextpack/budget.go and
 * service.go). Layer shares are whole hundredths; what the providers return is arbitrary.
 *
 * A layer's part is a double-precision quotient, truncated. Its error is far below a
 * hundredth for every admitted size, so the truncation can only go wrong where the exact
 * quotient is whole: there the computed one may lie just below it. `slips` says for which
 * layers it does, and nothing is assumed about it.
 */
module ContextPack {
  import opened Lists
  import opened Text
  import opened Wrappers

  const SKILL := "SKILL"
  const KNOWLEDGE := "KNOWLEDGE"
  const MEMORY := "MEMORY"
  const FACTS := "FACTS"
  const TASK := "TASK"

  const DEFAULT_MAX_CHARS: nat := 12000
  const MIN_MAX_CHARS: nat := 500
  const MAX_MAX_CHARS: nat := 200000
  const MIN_ITEM_CHARS: nat := 80

  /** The canonical order of the layers. */
  function LayerOrder(): seq<string> {
    [SKILL, KNOWLEDGE, MEMORY, FACTS, TASK]
  }

  /** Hundredths of the budget; nothing for a name that is no layer. */
  function ShareOf(layer: string): nat {
    if layer == SKILL then 30
    else if layer == KNOWLEDGE then 35
    else if layer == MEMORY then 20
    else if layer == FACTS then 10
    else if layer == TASK then 5
    else 0
  }

  // ---------------------------------------------------------------------------------------
  // Splitting the budget.
  // ---------------------------------------------------------------------------------------

  function TotalShare(layers: seq<string>): nat {
    if layers == [] then 0 else TotalShare(layers[..|layers| - 1]) + ShareOf(layers[|layers| - 1])
  }

  function TotalBudget(budgets: map<string, nat>, layers: seq<string>): nat
    requires forall i | 0 <= i < |layers| :: layers[i] in budgets
  {
    if layers == [] then 0 else TotalBudget(budgets, layers[..|layers| - 1]) + budgets[layers[|layers| - 1]]
  }

  type Slips = string -> bool

  /** A layer's proportional part, truncated. */
  function TruncatedPart(maxChars: nat, total: nat, slips: Slips, layer: string): nat
    requires total > 0
  {
    var exact := maxChars * ShareOf(layer) / total;
    if exact > 0 && maxChars * ShareOf(layer) % total == 0 && slips(layer) then exact - 1 else exact
  }

  function TotalTruncated(maxChars: nat, total: nat, slips: Slips, layers: seq<string>): nat
    requires total > 0
  {
    if layers == [] then 0
    else
      TotalTruncated(maxChars, total, slips, layers[..|layers| - 1])
      + TruncatedPart(maxChars, total, slips, layers[|layers| - 1])
  }

  predicate Distinct(layers: seq<string>) {
    forall i, j | 0 <= i < j < |layers| :: layers[i] != layers[j]
  }

  lemma TruncatedPartBounds(maxChars: nat, total: nat, slips: Slips, layer: string)
    requires total > 0
    ensures TruncatedPart(maxChars, total, slips, layer) * total <= maxChars * ShareOf(layer)
    ensures maxChars * ShareOf(layer) <= (TruncatedPart(maxChars, total, slips, layer) + 1) * total
  {
    var product := maxChars * ShareOf(layer);
    assert product == (product / total) * total + product % total;
  }

  lemma AddBounds(maxChars: nat, total: nat, share: nat, lastShare: nat, part: nat, lastPart: nat, n: nat)
    requires part * total <= maxChars * share <= (part + n) * total
    requires lastPart * total <= maxChars * lastShare <= (lastPart + 1) * total
    ensures (part + lastPart) * total <= maxChars * (share + lastShare) <= (part + lastPart + (n + 1)) * total
  {
    assert (part + lastPart) * total == part * total + lastPart * total;
    assert maxChars * (share + lastShare) == maxChars * share + maxChars * lastShare;
    assert (part + lastPart + (n + 1)) * total == (part + n) * total + (lastPart + 1) * total;
  }

  lemma {:induction false} TotalTruncatedBounds(maxChars: nat, total: nat, slips: Slips, layers: seq<string>)
    requires total > 0
    ensures TotalTruncated(maxChars, total, slips, layers) * total <= maxChars * TotalShare(layers)
    ensures maxChars * TotalShare(layers) <= (TotalTruncated(maxChars, total, slips, layers) + |layers|) * total
  {
    if layers != [] {
      var init, last := layers[..|layers| - 1], layers[|layers| - 1];
      TotalTruncatedBounds(maxChars, total, slips, init);
      TruncatedPartBounds(maxChars, total, slips, last);
      AddBounds(maxChars, total, TotalShare(init), ShareOf(last),
                TotalTruncated(maxChars, total, slips, init), TruncatedPart(maxChars, total, slips, last), |init|);
    }
  }

  lemma CancelTotal(a: nat, b: nat, total: nat)
    requires total > 0 && a * total <= b * total
    ensures a <= b
  {
  }

  /** However the quotients are rounded, no more is given out than there is, and at most one character a layer is
      left. */
  lemma RemainderIsSmall(maxChars: nat, slips: Slips, layers: seq<string>)
    requires TotalShare(layers) > 0
    ensures var parts := TotalTruncated(maxChars, TotalShare(layers), slips, layers);
            parts <= maxChars <= parts + |layers|
  {
    var total := TotalShare(layers);
    TotalTruncatedBounds(maxChars, total, slips, layers);
    CancelTotal(TotalTruncated(maxChars, total, slips, layers), maxChars, total);
    CancelTotal(maxChars, TotalTruncated(maxChars, total, slips, layers) + |layers|, total);
  }

  /** The first layer with the largest share. */
  ghost predicate IsLargest(layers: seq<string>, largest: string) {
    exists k :: 0 <= k < |layers| && layers[k] == largest
      && (forall i | 0 <= i < |layers| :: ShareOf(layers[i]) <= ShareOf(largest))
      && (forall i | 0 <= i < k :: ShareOf(layers[i]) < ShareOf(largest))
  }

  method FindLargest(layers: seq<string>) returns (largest: string)
    requires layers != []
    ensures IsLargest(layers, largest)
  {
    largest := layers[0];
    ghost var k := 0;
    for n := 0 to |layers|
      invariant 0 <= k < |layers| && layers[k] == largest
      invariant forall i | 0 <= i < n :: ShareOf(layers[i]) <= ShareOf(largest)
      invariant forall i | 0 <= i < k :: ShareOf(layers[i]) < ShareOf(largest)
    {
      if ShareOf(layers[n]) > ShareOf(largest) {
        largest := layers[n];
        k := n;
      }
    }
  }

  /** Each layer gets its part, truncated; the largest share also gets what that left. */
  ghost predicate IsProportional(budgets: map<string, nat>, maxChars: nat, slips: Slips, layers: seq<string>)
    requires TotalShare(layers) > 0
  {
    var total := TotalShare(layers);
    var parts := TotalTruncated(maxChars, total, slips, layers);
    && parts <= maxChars <= parts + |layers|
    && exists largest :: IsLargest(layers, largest)
        && forall layer | layer in layers :: layer in budgets &&
             budgets[layer] == TruncatedPart(maxChars, total, slips, layer)
                               + if layer == largest then maxChars - parts else 0
  }

  method AddShares(layers: seq<string>) returns (total: nat)
    ensures total == TotalShare(layers)
  {
    total := 0;
    for i := 0 to |layers|
      invariant total == TotalShare(layers[..i])
    {
      assert layers[..i + 1][..i] == layers[..i];
      total := total + ShareOf(layers[i]);
    }
    assert layers[..|layers|] == layers;
  }

  method SplitEvenly(maxChars: nat, layers: seq<string>) returns (budgets: map<string, nat>)
    requires layers != []
    ensures forall layer :: layer in budgets <==> layer in layers
    ensures forall layer | layer in layers :: budgets[layer] == maxChars / |layers|
  {
    var even := maxChars / |layers|;
    budgets := map[];
    for i := 0 to |layers|
      invariant forall layer :: layer in budgets <==> layer in layers[..i]
      invariant forall layer | layer in budgets :: budgets[layer] == even
    {
      budgets := budgets[layers[i] := even];
    }
  }

  method AssignParts(maxChars: nat, slips: Slips, layers: seq<string>, total: nat)
    returns (budgets: map<string, nat>, spent: nat)
    requires total > 0
    ensures forall layer :: layer in budgets <==> layer in layers
    ensures forall layer | layer in layers :: budgets[layer] == TruncatedPart(maxChars, total, slips, layer)
    ensures spent == TotalTruncated(maxChars, total, slips, layers)
  {
    budgets, spent := map[], 0;
    for i := 0 to |layers|
      invariant forall layer :: layer in budgets <==> layer in layers[..i]
      invariant forall layer | layer in budgets :: budgets[layer] == TruncatedPart(maxChars, total, slips, layer)
      invariant spent == TotalTruncated(maxChars, total, slips, layers[..i])
    {
      assert layers[..i + 1][..i] == layers[..i];
      var budget := TruncatedPart(maxChars, total, slips, layers[i]);
      budgets := budgets[layers[i] := budget];
      spent := spent + budget;
    }
    assert layers[..|layers|] == layers;
  }

  method Allocate(maxChars: nat, slips: Slips, layers: seq<string>) returns (budgets: map<string, nat>)
    ensures forall layer :: layer in budgets <==> layer in layers
    ensures TotalShare(layers) > 0 ==> IsProportional(budgets, maxChars, slips, layers)
    ensures TotalShare(layers) == 0 ==> forall layer | layer in layers :: budgets[layer] == maxChars / |layers|
  {
    if |layers| == 0 {
      return map[];
    }
    var total := AddShares(layers);
    if total <= 0 {
      budgets := SplitEvenly(maxChars, layers);
      return;
    }
    var spent;
    budgets, spent := AssignParts(maxChars, slips, layers, total);
    RemainderIsSmall(maxChars, slips, layers);
    var remainder := maxChars - spent;
    var largest := FindLargest(layers);
    if remainder > 0 {
      budgets := budgets[largest := budgets[largest] + remainder];
    }
  }

  lemma {:induction false} PartsAddUp(
    budgets: map<string, nat>, maxChars: nat, slips: Slips, total: nat, rest: nat, layers: seq<string>, largest: string)
    requires total > 0 && Distinct(layers)
    requires forall layer | layer in layers :: layer in budgets &&
               budgets[layer] == TruncatedPart(maxChars, total, slips, layer)
                               + if layer == largest then rest else 0
    ensures TotalBudget(budgets, layers)
         == TotalTruncated(maxChars, total, slips, layers) + if largest in layers then rest else 0
  {
    if layers != [] {
      var init, last := layers[..|layers| - 1], layers[|layers| - 1];
      assert layers == init + [last];
      PartsAddUp(budgets, maxChars, slips, total, rest, init, largest);
      assert last !in init;
    }
  }

  /** Nothing is wasted and nothing lent: over any distinct layers the budgets sum to the total exactly, however the
      quotients were rounded. */
  lemma BudgetsSumExactly(budgets: map<string, nat>, maxChars: nat, slips: Slips, layers: seq<string>)
    requires Distinct(layers) && TotalShare(layers) > 0 && IsProportional(budgets, maxChars, slips, layers)
    ensures forall i | 0 <= i < |layers| :: layers[i] in budgets
    ensures TotalBudget(budgets, layers) == maxChars
  {
    var total := TotalShare(layers);
    var parts := TotalTruncated(maxChars, total, slips, layers);
    var largest :| IsLargest(layers, largest)
      && forall layer | layer in layers :: layer in budgets &&
           budgets[layer] == TruncatedPart(maxChars, total, slips, layer)
                               + if layer == largest then maxChars - parts else 0;
    assert forall i | 0 <= i < |layers| :: layers[i] in layers;
    PartsAddUp(budgets, maxChars, slips, total, maxChars - parts, layers, largest);
  }

  lemma SharesOfAll(n: nat, total: nat, share: nat)
    requires total == 100
    ensures 100 * n * share / total == n * share && 100 * n * share % total == 0
  {
    assert 100 * n * share == n * share * 100;
  }

  /** With all five layers, a size in whole hundreds is split 30 to 35 to 20 to 10 to 5, if no quotient slips. */
  lemma FullSplit(budgets: map<string, nat>, n: nat, slips: Slips, layers: seq<string>)
    requires layers == ["SKILL", "KNOWLEDGE", "MEMORY", "FACTS", "TASK"] && forall layer :: !slips(layer)
    requires TotalShare(layers) > 0 && IsProportional(budgets, 100 * n, slips, layers)
    ensures forall layer | layer in layers :: layer in budgets
    ensures layers[0] in budgets && budgets["SKILL"] == 30 * n
    ensures layers[1] in budgets && budgets["KNOWLEDGE"] == 35 * n
    ensures layers[2] in budgets && budgets["MEMORY"] == 20 * n
    ensures layers[3] in budgets && budgets["FACTS"] == 10 * n
    ensures layers[4] in budgets && budgets["TASK"] == 5 * n
  {
    FiveShares("SKILL", "KNOWLEDGE", "MEMORY", "FACTS", "TASK");
    forall layer ensures TruncatedPart(100 * n, 100, slips, layer) == n * ShareOf(layer) {
      SharesOfAll(n, 100, ShareOf(layer));
    }
    AllParts(n, slips, layers);
  }

  lemma ShareOfLast(init: seq<string>, last: string)
    ensures TotalShare(init + [last]) == TotalShare(init) + ShareOf(last)
  {
    assert (init + [last])[..|init|] == init;
  }

  lemma FiveShares(a: string, b: string, c: string, d: string, e: string)
    ensures TotalShare([a, b, c, d, e]) == ShareOf(a) + ShareOf(b) + ShareOf(c) + ShareOf(d) + ShareOf(e)
  {
    ShareOfLast([], a);
    ShareOfLast([a], b);
    ShareOfLast([a, b], c);
    ShareOfLast([a, b, c], d);
    ShareOfLast([a, b, c, d], e);
    assert [] + [a] == [a] && [a] + [b] == [a, b] && [a, b] + [c] == [a, b, c];
    assert [a, b, c] + [d] == [a, b, c, d] && [a, b, c, d] + [e] == [a, b, c, d, e];
  }

  lemma {:induction false} AllParts(n: nat, slips: Slips, layers: seq<string>)
    requires forall layer | layer in layers :: TruncatedPart(100 * n, 100, slips, layer) == n * ShareOf(layer)
    ensures TotalTruncated(100 * n, 100, slips, layers) == n * TotalShare(layers)
  {
    if layers != [] {
      var init, last := layers[..|layers| - 1], layers[|layers| - 1];
      assert layers == init + [last] && last in layers;
      AllParts(n, slips, init);
      Distribute(n, TotalShare(init), ShareOf(last));
    }
  }

  lemma Distribute(n: nat, a: nat, b: nat)
    ensures n * (a + b) == n * a + n * b
  {
  }

  // ---------------------------------------------------------------------------------------
  // Cutting one item.
  // ---------------------------------------------------------------------------------------

  predicate OccursAt(s: string, separator: string, i: int) {
    0 <= i <= |s| - |separator| && s[i..i + |separator|] == separator
  }

  /** `strings.LastIndex` */
  method LastIndex(s: string, separator: string) returns (index: int)
    ensures index == -1 || OccursAt(s, separator, index)
    ensures forall i :: OccursAt(s, separator, i) ==> i <= index
  {
    index := |s| - |separator|;
    while index >= 0 && s[index..index + |separator|] != separator
      invariant index < 0 || index <= |s| - |separator|
      invariant forall i :: OccursAt(s, separator, i) ==> i <= index
    {
      index := index - 1;
    }
    if index < 0 {
      index := -1;
    }
  }

  function Separators(): seq<string> {
    ["\n\n", "\U{3002}", ". ", "\n", " "]
  }

  function IsBreak(): char -> bool {
    (c: char) => c == ' ' || c == '\n'
  }

  /** `end` is just past the last occurrence of the separator, which keeps at least the floor of the window. */
  ghost predicate IsBoundary(window: string, separator: string, floor: nat, end: nat) {
    && end >= |separator| && OccursAt(window, separator, end - |separator|) && end - |separator| > 0 && end >= floor
    && forall i :: OccursAt(window, separator, i) ==> i <= end - |separator|
  }

  ghost predicate NoBoundary(window: string, separators: seq<string>, floor: nat) {
    forall k, end: nat | 0 <= k < |separators| :: !IsBoundary(window, separators[k], floor, end)
  }

  /** The best boundary of the window: of the earliest separator that has one. */
  ghost predicate IsBestBoundary(window: string, separators: seq<string>, floor: nat, k: nat, end: nat) {
    && k < |separators| && end <= |window|
    && IsBoundary(window, separators[k], floor, end)
    && NoBoundary(window, separators[..k], floor)
  }

  /** A cut text: all of it if it fits; else the window up to its best boundary, if any, without the break. */
  ghost predicate IsCut(r: string, text: string, limit: nat, separators: seq<string>) {
    if |text| <= limit then r == text
    else if NoBoundary(text[..limit], separators, limit / 2) then r == text[..limit]
    else exists k, end: nat ::
      IsBestBoundary(text[..limit], separators, limit / 2, k, end) && r == TrimRight(text[..limit][..end], IsBreak())
  }

  method TruncateAtBoundary(text: string, limit: nat) returns (r: string)
    ensures IsCut(r, text, limit, Separators())
    ensures r <= text && |r| <= limit
  {
    if |text| <= limit {
      return text;
    }
    var window := text[..limit];
    r := CutWindow(window, limit, Separators());
  }

  method CutWindow(window: string, limit: nat, separators: seq<string>) returns (r: string)
    ensures r <= window
    ensures if NoBoundary(window, separators, limit / 2) then r == window
            else exists k, end: nat ::
              IsBestBoundary(window, separators, limit / 2, k, end) && r == TrimRight(window[..end], IsBreak())
  {
    var floor := limit / 2;
    for k := 0 to |separators|
      invariant NoBoundary(window, separators[..k], floor)
    {
      var separator := separators[k];
      var index := LastIndex(window, separator);
      if index > 0 {
        var end := index + |separator|;
        var candidate := window[..end];
        if |candidate| >= floor {
          assert IsBestBoundary(window, separators, floor, k, end);
          return TrimRight(candidate, IsBreak());
        }
      }
    }
    assert separators[..|separators|] == separators;
    return window;
  }

  /** Where the last occurrence of a separator in the window leaves at least half of it. */
  ghost predicate CutsAfter(window: string, separator: string, limit: nat, end: nat) {
    && 0 < end - |separator| && limit / 2 <= end <= |window| && window[end - |separator|..end] == separator
    && forall i: nat | i > end - |separator| :: !OccursAt(window, separator, i)
  }

  lemma CutsAfterExactly(window: string, separator: string, limit: nat, end: nat)
    ensures CutsAfter(window, separator, limit, end) <==> IsBoundary(window, separator, limit / 2, end)
  {
  }

  ghost predicate CutsNowhere(window: string, separator: string, limit: nat) {
    forall end: nat :: !CutsAfter(window, separator, limit, end)
  }

  lemma CutsNowhereBefore(window: string, limit: nat, k: nat)
    requires k <= |Separators()| && forall j | 0 <= j < k :: CutsNowhere(window, Separators()[j], limit)
    ensures NoBoundary(window, Separators()[..k], limit / 2)
  {
    forall j, end: nat | 0 <= j < k ensures !IsBoundary(window, Separators()[..k][j], limit / 2, end) {
      CutsAfterExactly(window, Separators()[j], limit, end);
      assert !CutsAfter(window, Separators()[j], limit, end);
    }
  }

  /** A text that is too long is cut after a blank line if that keeps half; else after an ideographic full stop, else
      after a full stop and space, else at a newline, else at a space, else in the middle of a word. */
  lemma CutPrefersLargerBreaks(r: string, text: string, limit: nat, k: nat, end: nat)
    requires |text| > limit && IsCut(r, text, limit, Separators())
    requires k < 5
    requires var separators := ["\n\n", "\U{3002}", ". ", "\n", " "];
      && (forall j | 0 <= j < k :: CutsNowhere(text[..limit], separators[j], limit))
      && CutsAfter(text[..limit], separators[k], limit, end)
    ensures r == TrimRight(text[..end], IsBreak())
  {
    var window := text[..limit];
    CutsNowhereBefore(window, limit, k);
    CutsAfterExactly(window, Separators()[k], limit, end);
    assert IsBestBoundary(window, Separators(), limit / 2, k, end);
    BestIsTaken(r, text, limit, k, end);
  }

  lemma BestIsTaken(r: string, text: string, limit: nat, k: nat, end: nat)
    requires |text| > limit && IsCut(r, text, limit, Separators())
    requires IsBestBoundary(text[..limit], Separators(), limit / 2, k, end)
    ensures r == TrimRight(text[..end], IsBreak())
  {
    var window := text[..limit];
    var k', end': nat :|
      IsBestBoundary(window, Separators(), limit / 2, k', end') && r == TrimRight(window[..end'], IsBreak());
    BoundaryIsUnique(window, Separators(), limit / 2, k, end, k', end');
    assert window[..end] == text[..end];
  }

  // ---------------------------------------------------------------------------------------
  // Packing one layer.
  // ---------------------------------------------------------------------------------------

  datatype Item = Item(source: string, ref: string, title: string, content: string, truncated: bool)

  function TotalLength(items: seq<Item>): nat {
    if items == [] then 0 else TotalLength(items[..|items| - 1]) + |items[|items| - 1].content|
  }

  /** An item that keeps a prefix of its content within what is left of the budget, and is flagged. */
  ghost predicate IsCutItem(r: Item, item: Item, remaining: nat) {
    r.content <= item.content && |r.content| <= remaining && r == item.(content := r.content, truncated := true)
  }

  /** The cut is at the best boundary. */
  ghost predicate CutsWell(items: seq<Item>, budget: int, kept: seq<Item>, truncated: nat) {
    truncated == 1 && 0 < |kept| <= |items| && TotalLength(items[..|kept| - 1]) <= budget ==>
      IsCut(kept[|kept| - 1].content, items[|kept| - 1].content,
            budget - TotalLength(items[..|kept| - 1]), Separators())
  }

  /** The first `n` items fit whole, each finding room left. */
  ghost predicate FitWhole(items: seq<Item>, budget: int, n: nat) {
    && n <= |items|
    && (n > 0 ==> TotalLength(items[..n]) <= budget)
    && forall i | 0 <= i < n :: TotalLength(items[..i]) < budget
  }

  /** No item more: nothing is left of the budget, or too little to hold a useful part of the next. */
  ghost predicate StopsAt(items: seq<Item>, budget: int, n: nat)
    requires n < |items|
  {
    var remaining := budget - TotalLength(items[..n]);
    remaining <= 0 || (|items[n].content| > remaining && remaining < MIN_ITEM_CHARS)
  }

  /** The next item does not fit, but a useful part of it does. */
  ghost predicate CutsAt(items: seq<Item>, budget: int, n: nat)
    requires n < |items|
  {
    MIN_ITEM_CHARS <= budget - TotalLength(items[..n]) < |items[n].content|
  }

  /** Where the whole items end, and why: at the end, at an item that is cut, or at one that is not even cut. */
  ghost predicate EndsAt(items: seq<Item>, budget: int, whole: nat, cut: bool) {
    && FitWhole(items, budget, whole)
    && (cut ==> whole < |items|)
    && (whole < |items| ==> if cut then CutsAt(items, budget, whole) else StopsAt(items, budget, whole))
  }

  /** The layer keeps a prefix of what was retrieved. Everything in it is whole, except that the last may be cut;
      it ends there only because the next item did not fit. */
  ghost predicate IsFit(items: seq<Item>, budget: int, kept: seq<Item>, used: nat, dropped: nat, truncated: nat) {
    && |kept| + dropped == |items|
    && truncated <= |kept| && truncated <= 1
    && EndsAt(items, budget, |kept| - truncated, truncated == 1)
    && used == TotalLength(kept)
    && KeepsPrefix(items, budget, kept, |kept| - truncated)
  }

  /** The first items as they were, and the cut one, if any, within what was left. */
  ghost predicate KeepsPrefix(items: seq<Item>, budget: int, kept: seq<Item>, whole: nat) {
    && whole <= |kept| <= |items|
    && kept[..whole] == items[..whole]
    && (whole < |kept| ==>
          var remaining := budget - TotalLength(items[..whole]);
          remaining >= 0 && IsCutItem(kept[whole], items[whole], remaining))
  }

  lemma TotalLengthSnoc(items: seq<Item>, last: Item)
    ensures TotalLength(items + [last]) == TotalLength(items) + |last.content|
  {
    assert (items + [last])[..|items|] == items;
  }

  lemma StopIsFit(items: seq<Item>, budget: int, n: nat)
    requires FitWhole(items, budget, n)
    requires n < |items| ==> StopsAt(items, budget, n)
    ensures IsFit(items, budget, items[..n], TotalLength(items[..n]), |items| - n, 0)
  {
    assert items[..n][..n] == items[..n];
  }

  lemma CutIsFit(items: seq<Item>, budget: int, n: nat, cut: Item)
    requires FitWhole(items, budget, n) && n < |items| && CutsAt(items, budget, n)
    requires IsCutItem(cut, items[n], budget - TotalLength(items[..n]))
    ensures IsFit(items, budget, items[..n] + [cut], TotalLength(items[..n]) + |cut.content|, |items| - n - 1, 1)
  {
    TotalLengthSnoc(items[..n], cut);
    assert (items[..n] + [cut])[..n] == items[..n];
  }

  lemma OneMoreFits(items: seq<Item>, budget: int, n: nat)
    requires FitWhole(items, budget, n) && n < |items|
    requires var remaining := budget - TotalLength(items[..n]); remaining > 0 && |items[n].content| <= remaining
    ensures FitWhole(items, budget, n + 1)
    ensures items[..n + 1] == items[..n] + [items[n]]
    ensures TotalLength(items[..n + 1]) == TotalLength(items[..n]) + |items[n].content|
  {
    assert items[..n + 1] == items[..n] + [items[n]];
    TotalLengthSnoc(items[..n], items[n]);
  }

  method Fit(items: seq<Item>, budget: int) returns (kept: seq<Item>, used: nat, dropped: nat, truncated: nat)
    ensures IsFit(items, budget, kept, used, dropped, truncated)
    ensures CutsWell(items, budget, kept, truncated)
  {
    kept, used, truncated := [], 0, 0;
    for index := 0 to |items|
      invariant kept == items[..index] && used == TotalLength(kept) && truncated == 0
      invariant FitWhole(items, budget, index)
    {
      var item := items[index];
      var length := |item.content|;
      var remaining := budget - used;
      if remaining <= 0 {
        StopIsFit(items, budget, index);
        dropped := |items| - index;
        return;
      } else if length <= remaining {
        OneMoreFits(items, budget, index);
        kept := kept + [item];
        used := used + length;
      } else if remaining >= MIN_ITEM_CHARS {
        var content := TruncateAtBoundary(item.content, remaining);
        var cut := item.(content := content, truncated := true);
        CutIsFit(items, budget, index, cut);
        kept := kept + [cut];
        used := used + |content|;
        truncated := truncated + 1;
        dropped := |items| - index - 1;
        return;
      } else {
        StopIsFit(items, budget, index);
        dropped := |items| - index;
        return;
      }
    }
    StopIsFit(items, budget, |items|);
    dropped := 0;
  }

  lemma LengthOfLast(items: seq<Item>, kept: seq<Item>, n: nat)
    requires n < |kept| == n + 1 && n <= |items| && kept[..n] == items[..n]
    ensures TotalLength(kept) == TotalLength(items[..n]) + |kept[n].content|
  {
    assert kept == kept[..n] + [kept[n]];
  }

  /** Used is what the kept items hold, and within the budget; nothing is kept when there is none. */
  lemma FitStaysInBudget(items: seq<Item>, budget: int, kept: seq<Item>, used: nat, dropped: nat, truncated: nat)
    requires IsFit(items, budget, kept, used, dropped, truncated)
    ensures used <= if budget > 0 then budget else 0
    ensures |kept| + dropped == |items| && used == TotalLength(kept)
  {
    if truncated == 1 {
      LengthOfLast(items, kept, |kept| - 1);
    } else {
      assert kept[..|kept|] == kept;
    }
  }

  lemma {:induction false} TotalLengthGrows(items: seq<Item>, m: nat, n: nat)
    requires m < n <= |items|
    ensures TotalLength(items[..m]) + |items[m].content| <= TotalLength(items[..n])
    decreases n
  {
    assert items[..n][..n - 1] == items[..n - 1];
    if m < n - 1 {
      TotalLengthGrows(items, m, n - 1);
    }
  }

  /** A layer that stopped or cut could not have kept the next item whole. */
  lemma NoneWasMissed(items: seq<Item>, budget: int, whole: nat, cut: bool, more: nat)
    requires EndsAt(items, budget, whole, cut) && FitWhole(items, budget, more)
    ensures more <= whole
  {
    if whole < more {
      TotalLengthGrows(items, whole, more);
    }
  }

  lemma EndIsDetermined(items: seq<Item>, budget: int, whole: nat, cut: bool, whole': nat, cut': bool)
    requires EndsAt(items, budget, whole, cut) && EndsAt(items, budget, whole', cut')
    ensures whole == whole' && cut == cut'
  {
    NoneWasMissed(items, budget, whole, cut, whole');
    NoneWasMissed(items, budget, whole', cut', whole);
  }

  /** Why a layer ends where it does: with something left out, the budget is used up, or the next item is longer than
      what is left and less than 80 characters are; the last item is cut only where at least 80 were left for it. */
  lemma FitEndsExactly(items: seq<Item>, budget: int, kept: seq<Item>, used: nat, dropped: nat, truncated: nat)
    requires IsFit(items, budget, kept, used, dropped, truncated)
    ensures truncated == 0 && dropped > 0 ==>
      var left := budget - TotalLength(items[..|kept|]); left <= 0 || (left < |items[|kept|].content| && left < 80)
    ensures truncated == 1 ==>
      80 <= budget - TotalLength(items[..|kept| - 1]) < |items[|kept| - 1].content|
    ensures forall i | 0 <= i < |kept| - truncated :: kept[i] == items[i]
    ensures dropped == |items| - |kept|
  {
    assert kept[..|kept| - truncated] == items[..|kept| - truncated];
    forall i | 0 <= i < |kept| - truncated ensures kept[i] == items[i] {
      assert kept[..|kept| - truncated][i] == items[..|kept| - truncated][i];
    }
  }

  lemma BoundaryIsNotEarlier(window: string, separators: seq<string>, floor: nat, k: nat, i: nat, end: nat)
    requires k <= |separators| && i < |separators| && NoBoundary(window, separators[..k], floor)
    requires IsBoundary(window, separators[i], floor, end)
    ensures k <= i
  {
    assert forall j | 0 <= j < k :: separators[..k][j] == separators[j];
  }

  lemma BoundaryIsUnique(window: string, separators: seq<string>, floor: nat, k: nat, end: nat, k': nat, end': nat)
    requires IsBestBoundary(window, separators, floor, k, end) && IsBestBoundary(window, separators, floor, k', end')
    ensures k == k' && end == end'
  {
    BoundaryIsNotEarlier(window, separators, floor, k, k', end');
    BoundaryIsNotEarlier(window, separators, floor, k', k, end);
  }

  lemma CutIsUnique(r: string, r': string, text: string, limit: nat, separators: seq<string>)
    requires IsCut(r, text, limit, separators) && IsCut(r', text, limit, separators)
    ensures r == r'
  {
    var window := text[..if |text| <= limit then |text| else limit];
    if |text| > limit && !NoBoundary(window, separators, limit / 2) {
      var k, end: nat :|
        IsBestBoundary(window, separators, limit / 2, k, end) && r == TrimRight(window[..end], IsBreak());
      var k', end': nat :|
        IsBestBoundary(window, separators, limit / 2, k', end') && r' == TrimRight(window[..end'], IsBreak());
      BoundaryIsUnique(window, separators, limit / 2, k, end, k', end');
    }
  }

  lemma CountsAreDetermined(items: seq<Item>, budget: int,
      kept: seq<Item>, used: nat, dropped: nat, truncated: nat,
      kept': seq<Item>, used': nat, dropped': nat, truncated': nat)
    requires IsFit(items, budget, kept, used, dropped, truncated)
    requires IsFit(items, budget, kept', used', dropped', truncated')
    ensures |kept| == |kept'| && dropped == dropped' && truncated == truncated'
  {
    EndIsDetermined(items, budget, |kept| - truncated, truncated == 1, |kept'| - truncated', truncated' == 1);
  }

  lemma CutItemIsDetermined(items: seq<Item>, budget: int, kept: seq<Item>, kept': seq<Item>, whole: nat)
    requires |kept| == |kept'| == whole + 1
    requires KeepsPrefix(items, budget, kept, whole) && KeepsPrefix(items, budget, kept', whole)
    requires CutsWell(items, budget, kept, 1) && CutsWell(items, budget, kept', 1)
    ensures kept[whole] == kept'[whole]
  {
    CutIsUnique(kept[whole].content, kept'[whole].content, items[whole].content,
                budget - TotalLength(items[..whole]), Separators());
  }

  lemma KeptIsDetermined(items: seq<Item>, budget: int, kept: seq<Item>, kept': seq<Item>, truncated: nat)
    requires |kept| == |kept'| && truncated <= 1 && truncated <= |kept|
    requires KeepsPrefix(items, budget, kept, |kept| - truncated)
    requires KeepsPrefix(items, budget, kept', |kept| - truncated)
    requires CutsWell(items, budget, kept, truncated) && CutsWell(items, budget, kept', truncated)
    ensures kept == kept'
  {
    var whole := |kept| - truncated;
    if truncated == 1 {
      CutItemIsDetermined(items, budget, kept, kept', whole);
    }
    assert kept == kept[..whole] + kept[whole..] && kept' == kept'[..whole] + kept'[whole..];
  }

  /** The clauses leave no choice: the layer's whole result is determined by its items and its budget. */
  lemma FitIsDetermined(items: seq<Item>, budget: int,
      kept: seq<Item>, used: nat, dropped: nat, truncated: nat,
      kept': seq<Item>, used': nat, dropped': nat, truncated': nat)
    requires IsFit(items, budget, kept, used, dropped, truncated) && CutsWell(items, budget, kept, truncated)
    requires IsFit(items, budget, kept', used', dropped', truncated') && CutsWell(items, budget, kept', truncated')
    ensures kept == kept' && used == used' && dropped == dropped' && truncated == truncated'
  {
    CountsAreDetermined(items, budget, kept, used, dropped, truncated, kept', used', dropped', truncated');
    KeptIsDetermined(items, budget, kept, kept', truncated);
  }

  // ---------------------------------------------------------------------------------------
  // The layers of a request.
  // ---------------------------------------------------------------------------------------

  /** Names are compared without surrounding space and in upper case; case mapping itself is a parameter. */
  function Normalized(upper: string -> string): string -> string {
    (layer: string) => upper(TrimSpace(layer))
  }

  datatype Resolution = Layers(layers: seq<string>) | UnknownLayer(name: string)

  ghost predicate Asks(requested: seq<string>, normalized: string -> string, layer: string) {
    exists i :: 0 <= i < |requested| && normalized(requested[i]) == layer
  }

  /** The layers asked for, once each and in canonical order whatever order they were asked in; all of them when
      none is named; the first unknown name otherwise. */
  ghost predicate IsResolution(r: Resolution, requested: seq<string>, normalized: string -> string) {
    if requested == [] then r == Layers(LayerOrder())
    else match r
      case UnknownLayer(name) =>
        exists i :: 0 <= i < |requested| && requested[i] == name && normalized(name) !in LayerOrder()
          && forall k | 0 <= k < i :: normalized(requested[k]) in LayerOrder()
      case Layers(layers) =>
        && (forall i | 0 <= i < |requested| :: normalized(requested[i]) in LayerOrder())
        && exists seen: set<string> :: AreAsked(seen, requested, normalized)
             && layers == Filter(LayerOrder(), InSet(seen))
  }

  ghost predicate AreAsked(names: set<string>, requested: seq<string>, normalized: string -> string) {
    forall layer :: layer in names <==> Asks(requested, normalized, layer)
  }

  function InSet(names: set<string>): string -> bool {
    (layer: string) => layer in names
  }

  lemma AskedSnoc(names: set<string>, requested: seq<string>, normalized: string -> string, i: nat)
    requires i < |requested| && AreAsked(names, requested[..i], normalized)
    ensures AreAsked(names + {normalized(requested[i])}, requested[..i + 1], normalized)
  {
    forall layer
      ensures Asks(requested[..i + 1], normalized, layer) <==>
              Asks(requested[..i], normalized, layer) || layer == normalized(requested[i])
    {
      if Asks(requested[..i], normalized, layer) {
        var k :| 0 <= k < i && normalized(requested[..i][k]) == layer;
        assert normalized(requested[..i + 1][k]) == layer;
      }
      if layer == normalized(requested[i]) {
        assert normalized(requested[..i + 1][i]) == layer;
      }
    }
  }

  method ResolveLayers(requested: seq<string>, normalized: string -> string) returns (r: Resolution)
    ensures IsResolution(r, requested, normalized)
  {
    if |requested| == 0 {
      return Layers(LayerOrder());
    }
    var seen: set<string> := {};
    for i := 0 to |requested|
      invariant forall k | 0 <= k < i :: normalized(requested[k]) in LayerOrder()
      invariant AreAsked(seen, requested[..i], normalized)
    {
      var name := normalized(requested[i]);
      if name !in LayerOrder() {
        return UnknownLayer(requested[i]);
      }
      AskedSnoc(seen, requested, normalized, i);
      seen := seen + {name};
    }
    assert requested[..|requested|] == requested;
    return Layers(Filter(LayerOrder(), InSet(seen)));
  }

  lemma LayerNames(layer: string)
    ensures layer in LayerOrder() <==> layer in {"SKILL", "KNOWLEDGE", "MEMORY", "FACTS", "TASK"}
  {
    var order := LayerOrder();
    assert order[0] == "SKILL" && order[1] == "KNOWLEDGE" && order[2] == "MEMORY" && order[3] == "FACTS"
      && order[4] == "TASK";
  }

  lemma UnknownExactly(r: Resolution, requested: seq<string>, normalized: string -> string)
    requires IsResolution(r, requested, normalized)
    ensures r.Layers? <==> forall i | 0 <= i < |requested| ::
      normalized(requested[i]) in {"SKILL", "KNOWLEDGE", "MEMORY", "FACTS", "TASK"}
  {
    forall layer
      ensures layer in LayerOrder() <==> layer in {"SKILL", "KNOWLEDGE", "MEMORY", "FACTS", "TASK"}
    {
      LayerNames(layer);
    }
  }

  /** What a request is resolved to: of skill, knowledge, memory, facts and task, in this order, those asked for, and
      all when none is named. */
  lemma ResolvedExactly(r: Resolution, requested: seq<string>, normalized: string -> string, asked: string -> bool)
    requires IsResolution(r, requested, normalized) && r.Layers?
    requires forall layer :: asked(layer) <==>
      requested == [] || exists i :: 0 <= i < |requested| && normalized(requested[i]) == layer
    ensures r.layers == Filter(["SKILL", "KNOWLEDGE", "MEMORY", "FACTS", "TASK"], asked)
  {
    if requested == [] {
      FilterAll(LayerOrder(), asked);
    } else {
      var seen: set<string> :| AreAsked(seen, requested, normalized) && r.layers == Filter(LayerOrder(), InSet(seen));
      forall layer ensures InSet(seen)(layer) == asked(layer) {
        assert layer in seen <==> Asks(requested, normalized, layer);
      }
      FilterCongruent(LayerOrder(), InSet(seen), asked);
    }
  }

  lemma OrderIsDistinct()
    ensures Distinct(LayerOrder())
  {
  }

  lemma LayersHaveShares(layer: string)
    ensures layer in LayerOrder() <==> ShareOf(layer) > 0
  {
  }

  lemma {:induction false} AnyShareCounts(layers: seq<string>, layer: string)
    requires layer in layers && ShareOf(layer) > 0
    ensures TotalShare(layers) > 0
  {
    var init, last := layers[..|layers| - 1], layers[|layers| - 1];
    assert layers == init + [last];
    if layer != last {
      AnyShareCounts(init, layer);
    }
  }

  /** What is resolved can always be budgeted: the layers are distinct and hold a share. */
  lemma ResolvedCanBeBudgeted(r: Resolution, requested: seq<string>, normalized: string -> string)
    requires IsResolution(r, requested, normalized) && r.Layers?
    ensures Distinct(r.layers) && TotalShare(r.layers) > 0
  {
    OrderIsDistinct();
    if requested == [] {
      LayersHaveShares(TASK);
      AnyShareCounts(r.layers, TASK);
    } else {
      var seen: set<string> :| AreAsked(seen, requested, normalized)
        && r.layers == Filter(LayerOrder(), InSet(seen));
      FilterDistinct(LayerOrder(), InSet(seen));
      var asked := normalized(requested[0]);
      assert Asks(requested, normalized, asked);
      LayersHaveShares(asked);
      AnyShareCounts(r.layers, asked);
    }
  }

  // ---------------------------------------------------------------------------------------
  // The context pack.
  // ---------------------------------------------------------------------------------------

  datatype LayerResult = LayerResult(
    layer: string, items: seq<Item>, charsUsed: nat, dropped: nat, truncated: nat, charBudget: nat)

  datatype PackResult = Packed(maxChars: nat, layers: seq<LayerResult>, charsUsed: nat) | Rejected

  function EffectiveMaxChars(requested: int): int {
    if requested == 0 then DEFAULT_MAX_CHARS else requested
  }

  function UsedBy(results: seq<LayerResult>): nat {
    if results == [] then 0 else UsedBy(results[..|results| - 1]) + results[|results| - 1].charsUsed
  }

  /** What a layer's result holds: the fit of what its provider returned, or nothing when that is only a note. */
  ghost predicate IsLayerResult(result: LayerResult, layer: string, found: Option<seq<Item>>, budget: nat) {
    && result.layer == layer && result.charBudget == budget
    && match found
       case None => result.items == [] && result.charsUsed == 0 && result.dropped == 0 && result.truncated == 0
       case Some(items) =>
         && IsFit(items, budget, result.items, result.charsUsed, result.dropped, result.truncated)
         && CutsWell(items, budget, result.items, result.truncated)
  }

  method Gather(layer: string, found: Option<seq<Item>>, budget: nat) returns (result: LayerResult)
    ensures IsLayerResult(result, layer, found, budget)
    ensures result.charsUsed <= budget
  {
    match found {
      case None => result := LayerResult(layer, [], 0, 0, 0, budget);
      case Some(items) =>
        var kept, used, dropped, truncated := Fit(items, budget);
        FitStaysInBudget(items, budget, kept, used, dropped, truncated);
        result := LayerResult(layer, kept, used, dropped, truncated, budget);
    }
  }

  method GatherLayers(layers: seq<string>, budgets: map<string, nat>, providers: string -> Option<seq<Item>>)
    returns (results: seq<LayerResult>, charsUsed: nat)
    requires forall i | 0 <= i < |layers| :: layers[i] in budgets
    ensures |results| == |layers|
    ensures forall i | 0 <= i < |layers| ::
      IsLayerResult(results[i], layers[i], providers(layers[i]), budgets[layers[i]])
    ensures charsUsed == UsedBy(results) <= TotalBudget(budgets, layers)
  {
    results, charsUsed := [], 0;
    for n := 0 to |layers|
      invariant |results| == n
      invariant forall i | 0 <= i < n :: IsLayerResult(results[i], layers[i], providers(layers[i]), budgets[layers[i]])
      invariant charsUsed == UsedBy(results) <= TotalBudget(budgets, layers[..n])
    {
      assert layers[..n + 1][..n] == layers[..n];
      var result := Gather(layers[n], providers(layers[n]), budgets[layers[n]]);
      assert (results + [result])[..n] == results;
      results := results + [result];
      charsUsed := charsUsed + result.charsUsed;
    }
    assert layers[..|layers|] == layers;
  }

  /** A pack of these layers: each holds its part of the whole, and together they use no more than was asked. */
  ghost predicate IsPackOf(
    r: PackResult, layers: seq<string>, maxChars: nat, slips: Slips, providers: string -> Option<seq<Item>>)
  {
    && r.Packed?
    && r.maxChars == maxChars
    && r.charsUsed == UsedBy(r.layers) <= r.maxChars
    && |r.layers| == |layers|
    && exists budgets :: HasBudgets(budgets, maxChars, slips, layers)
         && forall i | 0 <= i < |layers| ::
              IsLayerResult(r.layers[i], layers[i], providers(layers[i]), budgets[layers[i]])
  }

  /** Proportional budgets for all of the layers. */
  ghost predicate HasBudgets(budgets: map<string, nat>, maxChars: nat, slips: Slips, layers: seq<string>) {
    && TotalShare(layers) > 0
    && IsProportional(budgets, maxChars, slips, layers)
    && forall i | 0 <= i < |layers| :: layers[i] in budgets
  }

  ghost predicate IsPack(
    r: PackResult, resolution: Resolution, maxChars: int, slips: Slips, providers: string -> Option<seq<Item>>)
  {
    if resolution.UnknownLayer? || !(MIN_MAX_CHARS <= maxChars <= MAX_MAX_CHARS) then r.Rejected?
    else IsPackOf(r, resolution.layers, maxChars, slips, providers)
  }

  /** A context pack never exceeds the requested size, whatever the providers return; it is refused exactly for a size
      out of range or an unknown layer. */
  method Pack(requestedChars: int, requested: seq<string>, upper: string -> string,
      slips: Slips, providers: string -> Option<seq<Item>>)
    returns (r: PackResult)
    ensures exists resolution :: IsResolution(resolution, requested, Normalized(upper))
              && IsPack(r, resolution, EffectiveMaxChars(requestedChars), slips, providers)
    ensures r.Packed? ==> r.charsUsed <= r.maxChars == if requestedChars == 0 then 12000 else requestedChars
    ensures r.Packed? <==>
      && (requestedChars == 0 || 500 <= requestedChars <= 200000)
      && forall i | 0 <= i < |requested| ::
           upper(TrimSpace(requested[i])) in {"SKILL", "KNOWLEDGE", "MEMORY", "FACTS", "TASK"}
  {
    var maxChars := EffectiveMaxChars(requestedChars);
    var resolved := ResolveLayers(requested, Normalized(upper));
    if maxChars < MIN_MAX_CHARS || maxChars > MAX_MAX_CHARS {
      return Rejected;
    }
    UnknownExactly(resolved, requested, Normalized(upper));
    if resolved.UnknownLayer? {
      return Rejected;
    }
    ResolvedCanBeBudgeted(resolved, requested, Normalized(upper));
    var budgets := Allocate(maxChars, slips, resolved.layers);
    BudgetsSumExactly(budgets, maxChars, slips, resolved.layers);
    var results, charsUsed := GatherLayers(resolved.layers, budgets, providers);
    r := Packed(maxChars, results, charsUsed);
    assert HasBudgets(budgets, maxChars, slips, resolved.layers);
    assert IsPack(r, resolved, maxChars, slips, providers);
  }
}
