/**
 * Cutting a Markdown document at its headings (internal/knowledge/chunker.go): a heading
 * stack and a fence flag carried from line to line, against a declarative account of
 * which headings are open at each section.
 */
module Sections {
  import opened Lists
  import opened Text
  import opened Wrappers

  const MAX_HEADING_TITLE_RUNES: nat := 200
  const UNTITLED := "(untitled)"
  const PATH_SEPARATOR := " > "

  datatype Section = Section(headingPath: string, body: string)

  /** A heading found on a line, and the frame the stack keeps for it. */
  datatype Heading = Heading(level: nat, title: string)

  function FenceOpenMarker(trimmed: string): string {
    if "```" <= trimmed then "```" else if "~~~" <= trimmed then "~~~" else ""
  }

  /** The number of leading '#'. */
  function HashCount(trimmed: string): (n: nat)
    ensures n <= |trimmed|
    ensures forall i | 0 <= i < n :: trimmed[i] == '#'
    ensures n < |trimmed| ==> trimmed[n] != '#'
  {
    if trimmed == "" || trimmed[0] != '#' then 0 else 1 + HashCount(trimmed[1..])
  }

  function IsHash(): char -> bool {
    (c: char) => c == '#'
  }

  function HeadingTitle(rest: string): string {
    var title := TrimSpace(TrimSpace(TrimRight(TrimSpace(rest), IsHash())));
    if title == "" then UNTITLED else Truncated(title)
  }

  function Truncated(title: string): string {
    if |title| <= MAX_HEADING_TITLE_RUNES then title else title[..MAX_HEADING_TITLE_RUNES]
  }

  function ParseATXHeading(trimmed: string): (h: Option<Heading>)
    ensures h.Some? ==> 1 <= h.value.level <= 6
  {
    var level := HashCount(trimmed);
    if level == 0 || level > 6 then
      None
    else if level < |trimmed| && trimmed[level] != ' ' && trimmed[level] != '\t' then
      None
    else
      Some(Heading(level, HeadingTitle(trimmed[level..])))
  }

  /** The marker of the fence that is open after the first `n` lines, if one is. */
  function OpenFence(trimmed: seq<string>, n: nat): Option<string>
    requires n <= |trimmed|
  {
    if n == 0 then None else
      match OpenFence(trimmed, n - 1)
      case Some(marker) => if marker <= trimmed[n - 1] then None else Some(marker)
      case None =>
        var marker := FenceOpenMarker(trimmed[n - 1]);
        if marker != "" then Some(marker) else None
  }

  /** The heading on line `i`, if the line is outside every fence and is one. */
  function HeadingAt(trimmed: seq<string>, i: nat): Option<Heading>
    requires i < |trimmed|
  {
    if OpenFence(trimmed, i).Some? || FenceOpenMarker(trimmed[i]) != "" then None else ParseATXHeading(trimmed[i])
  }

  function TrimmedLines(lines: seq<string>): (trimmed: seq<string>)
    ensures |trimmed| == |lines|
    ensures forall i | 0 <= i < |lines| :: trimmed[i] == TrimSpace(lines[i])
  {
    seq(|lines|, i requires 0 <= i < |lines| => TrimSpace(lines[i]))
  }

  /** Line by line: the heading there, if any. Everything below depends on the lines only through this. */
  function HeadingsOf(lines: seq<string>): (heads: seq<Option<Heading>>)
    ensures |heads| == |lines|
  {
    HeadingsIn(TrimmedLines(lines))
  }

  function HeadingsIn(trimmed: seq<string>): (heads: seq<Option<Heading>>)
    ensures |heads| == |trimmed|
    ensures forall i | 0 <= i < |trimmed| :: heads[i] == HeadingAt(trimmed, i)
  {
    seq(|trimmed|, i requires 0 <= i < |trimmed| => HeadingAt(trimmed, i))
  }

  predicate IsHeading(heads: seq<Option<Heading>>, i: nat) {
    i < |heads| && heads[i].Some?
  }

  /** The heading lines among the first `n`, in document order. */
  function HeadingLines(heads: seq<Option<Heading>>, n: nat): (r: seq<nat>)
    requires n <= |heads|
  {
    if n == 0 then [] else HeadingLines(heads, n - 1) + if heads[n - 1].Some? then [n - 1] else []
  }

  lemma {:induction false} HeadingLinesExact(heads: seq<Option<Heading>>, n: nat)
    requires n <= |heads|
    ensures Ascending(HeadingLines(heads, n))
    ensures forall i: nat :: i in HeadingLines(heads, n) <==> i < n && IsHeading(heads, i)
  {
    if n > 0 {
      HeadingLinesExact(heads, n - 1);
      var init := HeadingLines(heads, n - 1);
      if heads[n - 1].Some? {
        AscendingSnoc(init, n - 1);
      }
    }
  }

  /** No heading of equal or smaller level follows heading `i` among the first `n` lines. */
  predicate IsOpen(heads: seq<Option<Heading>>, n: nat, i: nat)
    requires n <= |heads|
  {
    i < n && IsHeading(heads, i) &&
    forall j | i < j < n :: IsHeading(heads, j) ==> heads[i].value.level < heads[j].value.level
  }

  /** The headings still open after the first `n` lines, outermost first. */
  function OpenHeadings(heads: seq<Option<Heading>>, n: nat): seq<nat>
    requires n <= |heads|
  {
    Filter(HeadingLines(heads, n), OpenAfter(heads, n))
  }

  function OpenAfter(heads: seq<Option<Heading>>, n: nat): nat -> bool
    requires n <= |heads|
  {
    (i: nat) => IsOpen(heads, n, i)
  }

  predicate Ascending(s: seq<nat>) {
    forall i, j | 0 <= i < j < |s| :: s[i] < s[j]
  }

  lemma AscendingSnoc(s: seq<nat>, last: nat)
    requires Ascending(s) && forall i: nat | i in s :: i < last
    ensures Ascending(s + [last])
    ensures forall i: nat :: i in s + [last] <==> i in s || i == last
  {
    assert forall k | 0 <= k < |s| :: s[k] in s;
  }

  function Members(s: seq<nat>): (r: set<nat>)
    ensures r == {} <==> s == []
  {
    var r := set i | i in s;
    assert s != [] ==> s[0] in r;
    r
  }

  lemma AscendingInit(s: seq<nat>)
    requires Ascending(s) && s != []
    ensures Ascending(s[..|s| - 1])
    ensures Members(s[..|s| - 1]) == Members(s) - {s[|s| - 1]}
    ensures forall i: nat :: i in s ==> i <= s[|s| - 1]
  {
    assert s == s[..|s| - 1] + [s[|s| - 1]];
  }

  lemma {:induction false} AscendingUnique(a: seq<nat>, b: seq<nat>)
    requires Ascending(a) && Ascending(b)
    requires Members(a) == Members(b)
    ensures a == b
  {
    if a != [] {
      AscendingInit(a);
      AscendingInit(b);
      assert a[|a| - 1] in Members(b) && b[|b| - 1] in Members(a);
      AscendingUnique(a[..|a| - 1], b[..|b| - 1]);
    }
  }

  lemma {:induction false} FilterAscending(s: seq<nat>, keep: nat -> bool)
    requires Ascending(s)
    ensures Ascending(Filter(s, keep))
  {
    if s != [] {
      AscendingInit(s);
      FilterAscending(s[..|s| - 1], keep);
      if keep(s[|s| - 1]) {
        AscendingSnoc(Filter(s[..|s| - 1], keep), s[|s| - 1]);
      }
    }
  }

  /** The open headings, without the filter: ascending, and exactly the headings nothing closed. */
  lemma OpenHeadingsExact(heads: seq<Option<Heading>>, n: nat)
    requires n <= |heads|
    ensures Ascending(OpenHeadings(heads, n))
    ensures forall i: nat :: i in OpenHeadings(heads, n) <==> IsOpen(heads, n, i)
  {
    HeadingLinesExact(heads, n);
    FilterAscending(HeadingLines(heads, n), OpenAfter(heads, n));
  }

  /** Nesting: along the open headings the levels strictly increase. */
  lemma OpenLevelsIncrease(heads: seq<Option<Heading>>, n: nat, a: nat, b: nat)
    requires n <= |heads|
    requires a < b < |OpenHeadings(heads, n)|
    ensures var open := OpenHeadings(heads, n);
            IsHeading(heads, open[a]) && IsHeading(heads, open[b]) &&
            heads[open[a]].value.level < heads[open[b]].value.level
  {
    OpenHeadingsExact(heads, n);
    var open := OpenHeadings(heads, n);
    assert open[a] in open && open[b] in open;
  }

  lemma PlainLineKeepsOpen(heads: seq<Option<Heading>>, n: nat)
    requires n < |heads| && heads[n].None?
    ensures OpenHeadings(heads, n + 1) == OpenHeadings(heads, n)
    ensures HeadingLines(heads, n + 1) == HeadingLines(heads, n)
  {
    OpenHeadingsExact(heads, n);
    OpenHeadingsExact(heads, n + 1);
    forall i: nat ensures IsOpen(heads, n + 1, i) <==> IsOpen(heads, n, i) {}
    assert Members(OpenHeadings(heads, n + 1)) == Members(OpenHeadings(heads, n));
    AscendingUnique(OpenHeadings(heads, n + 1), OpenHeadings(heads, n));
  }

  /** Those among the open headings that a new heading leaves open. */
  lemma KeptOpen(heads: seq<Option<Heading>>, n: nat, kept: nat, i: nat)
    requires n < |heads| && heads[n].Some?
    requires kept <= |OpenHeadings(heads, n)|
    requires forall k | 0 <= k < |OpenHeadings(heads, n)| ::
               var h := OpenHeadings(heads, n)[k];
               IsHeading(heads, h) && (heads[h].value.level < heads[n].value.level <==> k < kept)
    ensures i in OpenHeadings(heads, n)[..kept] <==>
            IsOpen(heads, n, i) && heads[i].value.level < heads[n].value.level
  {
    var open := OpenHeadings(heads, n);
    OpenHeadingsExact(heads, n);
    if i in open {
      var k :| 0 <= k < |open| && open[k] == i;
      assert k < kept ==> open[..kept][k] == i;
    }
  }

  lemma NextOpenMembers(heads: seq<Option<Heading>>, n: nat, kept: nat)
    requires n < |heads| && heads[n].Some?
    requires kept <= |OpenHeadings(heads, n)|
    requires forall k | 0 <= k < |OpenHeadings(heads, n)| ::
               var h := OpenHeadings(heads, n)[k];
               IsHeading(heads, h) && (heads[h].value.level < heads[n].value.level <==> k < kept)
    ensures forall i: nat :: i in OpenHeadings(heads, n + 1) <==> i in OpenHeadings(heads, n)[..kept] || i == n
  {
    OpenHeadingsExact(heads, n + 1);
    forall i: nat
      ensures i in OpenHeadings(heads, n + 1) <==> i in OpenHeadings(heads, n)[..kept] || i == n
    {
      KeptOpen(heads, n, kept, i);
      OpenAfterHeading(heads, n, i);
    }
  }

  lemma OpenHeadingsBefore(heads: seq<Option<Heading>>, n: nat, kept: nat)
    requires n <= |heads| && kept <= |OpenHeadings(heads, n)|
    ensures Ascending(OpenHeadings(heads, n)[..kept] + [n])
    ensures forall i: nat ::
      i in OpenHeadings(heads, n)[..kept] + [n] <==> i in OpenHeadings(heads, n)[..kept] || i == n
  {
    OpenHeadingsExact(heads, n);
    var open := OpenHeadings(heads, n);
    forall i: nat | i in open[..kept] ensures i < n {
      assert i in open;
    }
    AscendingSnoc(open[..kept], n);
  }

  /** A heading closes the open headings that are not above it, and opens itself. */
  lemma HeadingLineOpens(heads: seq<Option<Heading>>, n: nat, kept: nat)
    requires n < |heads| && heads[n].Some?
    requires kept <= |OpenHeadings(heads, n)|
    requires forall k | 0 <= k < |OpenHeadings(heads, n)| ::
               var h := OpenHeadings(heads, n)[k];
               IsHeading(heads, h) && (heads[h].value.level < heads[n].value.level <==> k < kept)
    ensures OpenHeadings(heads, n + 1) == OpenHeadings(heads, n)[..kept] + [n]
    ensures HeadingLines(heads, n + 1) == HeadingLines(heads, n) + [n]
  {
    var next := OpenHeadings(heads, n)[..kept] + [n];
    NextOpenMembers(heads, n, kept);
    OpenHeadingsBefore(heads, n, kept);
    OpenHeadingsExact(heads, n + 1);
    SameMembers(OpenHeadings(heads, n + 1), next);
    AscendingUnique(OpenHeadings(heads, n + 1), next);
  }

  lemma SameMembers(a: seq<nat>, b: seq<nat>)
    requires forall i: nat :: i in a <==> i in b
    ensures Members(a) == Members(b)
  {
  }

  lemma OpenAfterHeading(heads: seq<Option<Heading>>, n: nat, i: nat)
    requires n < |heads| && heads[n].Some?
    ensures IsOpen(heads, n + 1, i) <==>
            i == n || (IsOpen(heads, n, i) && heads[i].value.level < heads[n].value.level)
  {
  }

  /** The titles of the headings open just after heading line `i`: its own and those above it. */
  function TitlesAt(heads: seq<Option<Heading>>, i: nat): seq<string>
    requires i < |heads|
  {
    Map(OpenHeadings(heads, i + 1), TitleAt(heads))
  }

  function TitleAt(heads: seq<Option<Heading>>): nat -> string {
    (i: nat) => if IsHeading(heads, i) then heads[i].value.title else ""
  }

  /** The heading path of the section that heading line `i` starts. */
  function PathAt(heads: seq<Option<Heading>>, i: nat): string
    requires i < |heads|
  {
    Join(TitlesAt(heads, i), PATH_SEPARATOR)
  }

  /** The lines as the builder writes them: each followed by a newline. */
  function TextOf(lines: seq<string>): string {
    if lines == [] then "" else TextOf(lines[..|lines| - 1]) + lines[|lines| - 1] + "\n"
  }

  /** Where the section being written after `n` lines starts: the last heading line so far, or the first line. */
  function SectionStart(heads: seq<Option<Heading>>, n: nat): (start: nat)
    requires n <= |heads|
    ensures start <= n
  {
    if n == 0 then 0 else if heads[n - 1].Some? then n - 1 else SectionStart(heads, n - 1)
  }

  /** The path of that section: the one its heading line sets, or none. */
  function SectionPath(heads: seq<Option<Heading>>, n: nat): string
    requires n <= |heads|
  {
    if n == 0 then "" else if heads[n - 1].Some? then PathAt(heads, n - 1) else SectionPath(heads, n - 1)
  }

  /** The section that ends just before line `n`. */
  function SectionEndingAt(lines: seq<string>, heads: seq<Option<Heading>>, n: nat): Section
    requires n <= |heads| == |lines|
  {
    Section(SectionPath(heads, n), TextOf(lines[SectionStart(heads, n)..n]))
  }

  /** Every section of the document, blank ones included: one ends at each heading, one at the end. */
  function AllSections(lines: seq<string>): seq<Section> {
    SectionsEndingAt(lines, HeadingsOf(lines), HeadingLines(HeadingsOf(lines), |lines|) + [|lines|])
  }

  function SectionsEndingAt(lines: seq<string>, heads: seq<Option<Heading>>, ends: seq<nat>): seq<Section>
    requires |heads| == |lines|
  {
    Map(ends, EndingAt(lines, heads))
  }

  function EndingAt(lines: seq<string>, heads: seq<Option<Heading>>): nat -> Section
    requires |heads| == |lines|
  {
    (n: nat) => if n <= |lines| then SectionEndingAt(lines, heads, n) else Section("", "")
  }

  function NotBlank(): Section -> bool {
    (s: Section) => TrimSpace(s.body) != ""
  }

  lemma PlainLine(lines: seq<string>, heads: seq<Option<Heading>>, n: nat)
    requires n < |heads| == |lines| && heads[n].None?
    ensures SectionEndingAt(lines, heads, n + 1) ==
            Section(SectionPath(heads, n), SectionEndingAt(lines, heads, n).body + lines[n] + "\n")
  {
    var start := SectionStart(heads, n);
    assert lines[start..n + 1][..n - start] == lines[start..n];
  }

  lemma HeadingLine(lines: seq<string>, heads: seq<Option<Heading>>, n: nat)
    requires n < |heads| == |lines| && heads[n].Some?
    ensures SectionEndingAt(lines, heads, n + 1) == Section(PathAt(heads, n), lines[n] + "\n")
  {
    assert SectionStart(heads, n + 1) == n;
    assert lines[n..n + 1] == [lines[n]];
    assert TextOf([lines[n]]) == lines[n] + "\n" by {
      assert [lines[n]][..0] == [];
    }
  }

  ghost predicate IsStack(stack: seq<Heading>, heads: seq<Option<Heading>>, n: nat)
    requires n <= |heads|
  {
    && |stack| == |OpenHeadings(heads, n)|
    && forall k | 0 <= k < |stack| :: IsHeading(heads, OpenHeadings(heads, n)[k])
                                      && stack[k] == heads[OpenHeadings(heads, n)[k]].value
  }

  lemma StackLevelsIncrease(stack: seq<Heading>, heads: seq<Option<Heading>>, n: nat)
    requires n <= |heads| && IsStack(stack, heads, n)
    ensures forall a, b | 0 <= a < b < |stack| :: stack[a].level < stack[b].level
  {
    forall a, b | 0 <= a < b < |stack| ensures stack[a].level < stack[b].level {
      OpenLevelsIncrease(heads, n, a, b);
    }
  }

  /** Pops the frames that a heading of this level closes. */
  method PopClosed(stack: seq<Heading>, level: nat) returns (kept: seq<Heading>)
    requires forall a, b | 0 <= a < b < |stack| :: stack[a].level < stack[b].level
    ensures kept <= stack
    ensures forall k | 0 <= k < |stack| :: stack[k].level < level <==> k < |kept|
  {
    kept := stack;
    while |kept| > 0 && kept[|kept| - 1].level >= level
      invariant kept <= stack
      invariant forall k | |kept| <= k < |stack| :: stack[k].level >= level
    {
      kept := kept[..|kept| - 1];
    }
  }

  lemma PushedStack(stack: seq<Heading>, heads: seq<Option<Heading>>, n: nat, kept: nat)
    requires n < |heads| && IsStack(stack, heads, n) && heads[n].Some? && kept <= |stack|
    requires forall k | 0 <= k < |stack| :: stack[k].level < heads[n].value.level <==> k < kept
    ensures IsStack(stack[..kept] + [heads[n].value], heads, n + 1)
  {
    HeadingLineOpens(heads, n, kept);
  }

  /** The path of the titles on the stack. */
  method JoinTitles(stack: seq<Heading>, ghost heads: seq<Option<Heading>>, ghost n: nat) returns (path: string)
    requires n < |heads| && IsStack(stack, heads, n + 1)
    ensures path == PathAt(heads, n)
  {
    var titles: seq<string> := [];
    for k := 0 to |stack|
      invariant |titles| == k && forall j | 0 <= j < k :: titles[j] == TitlesAt(heads, n)[j]
    {
      titles := titles + [stack[k].title];
    }
    assert titles == TitlesAt(heads, n);
    path := Join(titles, PATH_SEPARATOR);
  }

  /** What the loop has after `n` lines. */
  ghost predicate IsScan(lines: seq<string>, heads: seq<Option<Heading>>, n: nat,
      sections: seq<Section>, current: Section, stack: seq<Heading>)
    requires n <= |heads| == |lines|
  {
    && sections == SectionsEndingAt(lines, heads, HeadingLines(heads, n))
    && current == SectionEndingAt(lines, heads, n)
    && IsStack(stack, heads, n)
  }

  lemma PlainStep(lines: seq<string>, heads: seq<Option<Heading>>, n: nat,
      sections: seq<Section>, current: Section, stack: seq<Heading>)
    requires n < |heads| == |lines| && heads[n].None?
    requires IsScan(lines, heads, n, sections, current, stack)
    ensures IsScan(lines, heads, n + 1, sections,
              Section(current.headingPath, current.body + lines[n] + "\n"), stack)
  {
    PlainLine(lines, heads, n);
    PlainLineKeepsOpen(heads, n);
  }

  lemma HeadingStep(lines: seq<string>, heads: seq<Option<Heading>>, n: nat,
      sections: seq<Section>, current: Section, stack: seq<Heading>, path: string, pushed: seq<Heading>)
    requires n < |heads| == |lines| && heads[n].Some?
    requires IsScan(lines, heads, n, sections, current, stack)
    requires path == PathAt(heads, n) && IsStack(pushed, heads, n + 1)
    ensures IsScan(lines, heads, n + 1, sections + [current], Section(path, lines[n] + "\n"), pushed)
  {
    HeadingLine(lines, heads, n);
  }

  /** How a line moves the fence flag and whether it is a heading. */
  lemma FenceStep(trimmed: seq<string>, n: nat)
    requires n < |trimmed|
    ensures match OpenFence(trimmed, n)
      case Some(marker) =>
        HeadingAt(trimmed, n).None? &&
        OpenFence(trimmed, n + 1) == if marker <= trimmed[n] then None else Some(marker)
      case None =>
        if FenceOpenMarker(trimmed[n]) != "" then
          HeadingAt(trimmed, n).None? && OpenFence(trimmed, n + 1) == Some(FenceOpenMarker(trimmed[n]))
        else
          HeadingAt(trimmed, n) == ParseATXHeading(trimmed[n]) && OpenFence(trimmed, n + 1).None?
  {
  }

  method StartSection(ghost heads: seq<Option<Heading>>, ghost n: nat, stack: seq<Heading>, heading: Heading)
    returns (path: string, pushed: seq<Heading>)
    requires n < |heads| && IsStack(stack, heads, n) && heads[n] == Some(heading)
    ensures path == PathAt(heads, n) && IsStack(pushed, heads, n + 1)
  {
    StackLevelsIncrease(stack, heads, n);
    var kept := PopClosed(stack, heading.level);
    PushedStack(stack, heads, n, |kept|);
    pushed := kept + [heading];
    path := JoinTitles(pushed, heads, n);
  }

  /** One line: the fence flag it leaves, and the heading it is, if any. */
  method ScanLine(ghost trims: seq<string>, ghost n: nat, trimmed: string, inFence: bool, fenceMarker: string)
    returns (heading: Option<Heading>, nowInFence: bool, nowMarker: string)
    requires n < |trims| && trims[n] == trimmed
    requires OpenFence(trims, n) == if inFence then Some(fenceMarker) else None
    ensures OpenFence(trims, n + 1) == if nowInFence then Some(nowMarker) else None
    ensures heading == HeadingAt(trims, n)
  {
    FenceStep(trims, n);
    if inFence {
      return None, !(fenceMarker <= trimmed), fenceMarker;
    }
    var marker := FenceOpenMarker(trimmed);
    if marker != "" {
      return None, true, marker;
    }
    heading := ParseATXHeading(trimmed);
    nowInFence, nowMarker := false, fenceMarker;
  }

  lemma SectionsSnoc(lines: seq<string>, heads: seq<Option<Heading>>, ends: seq<nat>, n: nat)
    requires n <= |heads| == |lines|
    ensures SectionsEndingAt(lines, heads, ends + [n])
         == SectionsEndingAt(lines, heads, ends) + [SectionEndingAt(lines, heads, n)]
  {
  }

  lemma ScanStarts(lines: seq<string>, heads: seq<Option<Heading>>)
    requires |heads| == |lines|
    ensures IsScan(lines, heads, 0, [], Section("", ""), [])
  {
    assert lines[..0] == [];
  }

  lemma ScanEnds(lines: seq<string>, sections: seq<Section>, current: Section, stack: seq<Heading>)
    requires IsScan(lines, HeadingsOf(lines), |lines|, sections, current, stack)
    ensures sections + [current] == AllSections(lines)
  {
    SectionsSnoc(lines, HeadingsOf(lines), HeadingLines(HeadingsOf(lines), |lines|), |lines|);
  }

  /** The sections so far, the one being written and the stack, after one more line. */
  method TakeLine(ghost lines: seq<string>, ghost heads: seq<Option<Heading>>, ghost n: nat, line: string,
      heading: Option<Heading>, sections: seq<Section>, current: Section, stack: seq<Heading>)
    returns (sections': seq<Section>, current': Section, stack': seq<Heading>)
    requires n < |heads| == |lines| && lines[n] == line && heads[n] == heading
    requires IsScan(lines, heads, n, sections, current, stack)
    ensures IsScan(lines, heads, n + 1, sections', current', stack')
  {
    if heading.Some? {
      var path, pushed := StartSection(heads, n, stack, heading.value);
      HeadingStep(lines, heads, n, sections, current, stack, path, pushed);
      return sections + [current], Section(path, line + "\n"), pushed;
    }
    PlainStep(lines, heads, n, sections, current, stack);
    return sections, current.(body := current.body + line + "\n"), stack;
  }

  method FlushSections(lines: seq<string>) returns (sections: seq<Section>)
    ensures sections == AllSections(lines)
  {
    ghost var trims, heads := TrimmedLines(lines), HeadingsOf(lines);
    var stack: seq<Heading>, current := [], Section("", "");
    var inFence, fenceMarker := false, "";
    sections := [];
    ScanStarts(lines, heads);
    for i := 0 to |lines|
      invariant IsScan(lines, heads, i, sections, current, stack)
      invariant OpenFence(trims, i) == if inFence then Some(fenceMarker) else None
    {
      var heading;
      heading, inFence, fenceMarker := ScanLine(trims, i, TrimSpace(lines[i]), inFence, fenceMarker);
      sections, current, stack := TakeLine(lines, heads, i, lines[i], heading, sections, current, stack);
    }
    ScanEnds(lines, sections, current, stack);
    sections := sections + [current];
  }

  /** The sections with any text, in document order. */
  method SplitMarkdownSections(content: string) returns (result: seq<Section>)
    ensures result == Filter(AllSections(Split(content, "\n")), NotBlank())
  {
    var sections := FlushSections(Split(content, "\n"));
    result := [];
    for i := 0 to |sections|
      invariant result == Filter(sections[..i], NotBlank())
    {
      FilterSnoc(sections, i, NotBlank());
      if TrimSpace(sections[i].body) != "" {
        result := result + [sections[i]];
      }
    }
    assert sections[..|sections|] == sections;
  }

  function Bodies(sections: seq<Section>): string {
    if sections == [] then "" else Bodies(sections[..|sections| - 1]) + sections[|sections| - 1].body
  }

  lemma {:induction false} TextOfJoin(lines: seq<string>)
    requires lines != []
    ensures TextOf(lines) == Join(lines, "\n") + "\n"
  {
    if |lines| == 1 {
      assert lines[..0] == [];
      assert "" + lines[0] == lines[0];
    } else {
      TextOfJoin(lines[..|lines| - 1]);
    }
  }

  lemma BodiesSnoc(sections: seq<Section>, last: Section)
    ensures Bodies(sections + [last]) == Bodies(sections) + last.body
  {
    assert (sections + [last])[..|sections|] == sections;
  }

  /** The text of the finished sections and of the one being written, after `n` lines. */
  function TextSoFar(lines: seq<string>, heads: seq<Option<Heading>>, n: nat): string
    requires n <= |heads| == |lines|
  {
    Bodies(SectionsEndingAt(lines, heads, HeadingLines(heads, n))) + SectionEndingAt(lines, heads, n).body
  }

  lemma HeadingAddsItsText(lines: seq<string>, heads: seq<Option<Heading>>, n: nat)
    requires n < |heads| == |lines| && heads[n].Some?
    ensures TextSoFar(lines, heads, n + 1) == TextSoFar(lines, heads, n) + (lines[n] + "\n")
  {
    var ends := HeadingLines(heads, n);
    HeadingLine(lines, heads, n);
    SectionsSnoc(lines, heads, ends, n);
    BodiesSnoc(SectionsEndingAt(lines, heads, ends), SectionEndingAt(lines, heads, n));
    assert HeadingLines(heads, n + 1) == ends + [n];
  }

  lemma PlainAddsItsText(lines: seq<string>, heads: seq<Option<Heading>>, n: nat)
    requires n < |heads| == |lines| && heads[n].None?
    ensures TextSoFar(lines, heads, n + 1) == TextSoFar(lines, heads, n) + (lines[n] + "\n")
  {
    PlainLine(lines, heads, n);
    var done := Bodies(SectionsEndingAt(lines, heads, HeadingLines(heads, n)));
    var current := SectionEndingAt(lines, heads, n).body;
    assert HeadingLines(heads, n + 1) == HeadingLines(heads, n);
    AddsLine(done, current, lines[n]);
  }

  lemma NoTextYet(lines: seq<string>, heads: seq<Option<Heading>>)
    requires |heads| == |lines|
    ensures TextSoFar(lines, heads, 0) == TextOf(lines[..0])
  {
    assert lines[..0] == [];
  }

  lemma TextOfSnoc(lines: seq<string>, n: nat)
    requires n < |lines|
    ensures TextOf(lines[..n + 1]) == TextOf(lines[..n]) + (lines[n] + "\n")
  {
    assert lines[..n + 1][..n] == lines[..n];
    ConcatAssoc(TextOf(lines[..n]), lines[n]);
  }

  lemma LineAddsItsText(lines: seq<string>, heads: seq<Option<Heading>>, n: nat)
    requires n < |heads| == |lines|
    ensures TextSoFar(lines, heads, n + 1) == TextSoFar(lines, heads, n) + (lines[n] + "\n")
  {
    if heads[n].Some? {
      HeadingAddsItsText(lines, heads, n);
    } else {
      PlainAddsItsText(lines, heads, n);
    }
  }

  lemma SectionsCoverPrefix(lines: seq<string>, heads: seq<Option<Heading>>, n: nat)
    requires n <= |heads| == |lines|
    ensures TextSoFar(lines, heads, n) == TextOf(lines[..n])
  {
    NoTextYet(lines, heads);
    for m := 0 to n
      invariant TextSoFar(lines, heads, m) == TextOf(lines[..m])
    {
      LineAddsItsText(lines, heads, m);
      TextOfSnoc(lines, m);
    }
  }

  lemma AddsLine(done: string, current: string, line: string)
    ensures done + (current + line + "\n") == (done + current) + (line + "\n")
  {
  }

  lemma ConcatAssoc(a: string, b: string)
    ensures a + (b + "\n") == a + b + "\n"
  {
  }

  /** Nothing of the document is lost or moved: the bodies, in order, are the content and one newline. */
  lemma SectionsCoverContent(content: string)
    ensures Bodies(AllSections(Split(content, "\n"))) == content + "\n"
  {
    var lines := Split(content, "\n");
    var heads := HeadingsOf(lines);
    var ends := HeadingLines(heads, |lines|);
    SectionsCoverPrefix(lines, heads, |lines|);
    SectionsSnoc(lines, heads, ends, |lines|);
    BodiesSnoc(SectionsEndingAt(lines, heads, ends), SectionEndingAt(lines, heads, |lines|));
    assert lines[..|lines|] == lines;
    TextOfJoin(lines);
    JoinOfSplit(content, "\n");
  }

  /** A section's path is the titles, in order and once each, of the headings up to its own that nothing up to its own
      has closed; its own title comes last. */
  lemma PathListsOpenHeadings(heads: seq<Option<Heading>>, i: nat, open: seq<nat>)
    requires IsHeading(heads, i)
    requires Ascending(open) && forall h: nat :: h in open <==> IsOpen(heads, i + 1, h)
    ensures |TitlesAt(heads, i)| == |open| > 0 && open[|open| - 1] == i
    ensures forall k | 0 <= k < |open| ::
      IsHeading(heads, open[k]) && TitlesAt(heads, i)[k] == heads[open[k]].value.title
  {
    OpenHeadingsExact(heads, i + 1);
    SameMembers(open, OpenHeadings(heads, i + 1));
    AscendingUnique(open, OpenHeadings(heads, i + 1));
    InnermostIsOwn(heads, i);
    assert forall k | 0 <= k < |open| :: open[k] in open;
  }

  lemma InnermostIsOwn(heads: seq<Option<Heading>>, i: nat)
    requires IsHeading(heads, i)
    ensures var open := OpenHeadings(heads, i + 1); |open| > 0 && open[|open| - 1] == i
  {
    assert OpenHeadings(heads, i + 1)
        == Filter(HeadingLines(heads, i), OpenAfter(heads, i + 1)) + [i] by {
      assert (HeadingLines(heads, i) + [i])[..|HeadingLines(heads, i)|] == HeadingLines(heads, i);
    }
  }

  // ---------------------------------------------------------------------------------------
  // Which lines are headings, and under which path.
  // ---------------------------------------------------------------------------------------

  function Hashes(k: nat): (s: string)
    ensures |s| == k && forall i | 0 <= i < k :: s[i] == '#'
  {
    if k == 0 then "" else "#" + Hashes(k - 1)
  }

  lemma {:induction false} HashesAreCounted(k: nat, rest: string)
    requires rest == "" || rest[0] != '#'
    ensures HashCount(Hashes(k) + rest) == k
  {
    if k == 0 {
      assert Hashes(0) + rest == rest;
    } else {
      assert (Hashes(k) + rest)[1..] == Hashes(k - 1) + rest;
      HashesAreCounted(k - 1, rest);
    }
  }

  lemma TrimmedStays(s: string, cut: char -> bool)
    requires IsTrimmed(s, cut)
    ensures Trim(s, cut) == s
  {
    TrimDropsEnds("", s, "", cut);
    assert "" + (s + "") == s;
  }

  /** A title as written: no space around it and no hash at its end. */
  predicate IsTitle(title: string) {
    IsTrimmed(title, IsSpace) && title[|title| - 1] != '#'
  }

  lemma TitleWithoutClosing(gap: string, title: string)
    requires AllCut(gap, IsSpace) && IsTitle(title)
    ensures HeadingTitle(gap + title) == Truncated(title)
  {
    TrimDropsEnds(gap, title, "", IsSpace);
    assert gap + (title + "") == gap + title;
    TrimRightDrops(title, "", IsHash());
    assert title + "" == title;
    TrimmedStays(title, IsSpace);
  }

  lemma TitleWithClosing(gap: string, title: string, blanks: string, m: nat)
    requires AllCut(gap, IsSpace) && IsTitle(title) && AllCut(blanks, IsSpace) && m > 0
    ensures HeadingTitle(gap + (title + blanks + Hashes(m))) == Truncated(title)
  {
    var closed := title + blanks + Hashes(m);
    TrimDropsEnds(gap, closed, "", IsSpace);
    assert gap + (closed + "") == gap + closed;
    TrimRightDrops(title + blanks, Hashes(m), IsHash());
    TrimDropsEnds("", title, blanks, IsSpace);
    assert "" + (title + blanks) == title + blanks;
    TrimmedStays(title, IsSpace);
  }

  lemma RestIsParsed(k: nat, rest: string)
    requires 1 <= k <= 6 && rest != "" && (rest[0] == ' ' || rest[0] == '\t')
    ensures ParseATXHeading(Hashes(k) + rest) == Some(Heading(k, HeadingTitle(rest)))
  {
    HashesAreCounted(k, rest);
    assert (Hashes(k) + rest)[k] == rest[0] && (Hashes(k) + rest)[k..] == rest;
  }

  /** One to six hashes, space or tab, and a title make a heading of that level; closing hashes are not part of the
      title, and only its first 200 characters are kept. */
  lemma HeadingIsParsed(k: nat, gap: string, title: string, blanks: string, m: nat)
    requires 1 <= k <= 6 && IsTitle(title) && AllCut(blanks, IsSpace) && (m == 0 ==> blanks == "")
    requires gap != "" && AllCut(gap, IsSpace) && (gap[0] == ' ' || gap[0] == '\t')
    ensures ParseATXHeading(Hashes(k) + (gap + (title + blanks + Hashes(m))))
         == Some(Heading(k, if |title| <= 200 then title else title[..200]))
  {
    RestIsParsed(k, gap + (title + blanks + Hashes(m)));
    if m == 0 {
      assert title + blanks + Hashes(m) == title;
      TitleWithoutClosing(gap, title);
    } else {
      TitleWithClosing(gap, title, blanks, m);
    }
  }

  /** Hashes alone make an untitled heading. */
  lemma BareHashesAreUntitled(k: nat)
    requires 1 <= k <= 6
    ensures ParseATXHeading(Hashes(k)) == Some(Heading(k, "(untitled)"))
  {
    assert Hashes(k) + "" == Hashes(k);
    HashesAreCounted(k, "");
  }

  /** No hash, more than six of them, or a character other than space and tab right after them: no heading. */
  lemma OtherLinesAreNoHeading(k: nat, rest: string)
    requires rest == "" || rest[0] != '#'
    requires k == 0 || k > 6 || (rest != "" && rest[0] != ' ' && rest[0] != '\t')
    ensures ParseATXHeading(Hashes(k) + rest).None?
  {
    HashesAreCounted(k, rest);
    assert rest != "" ==> (Hashes(k) + rest)[k] == rest[0];
  }

  predicate OpensFence(line: string) {
    "```" <= line || "~~~" <= line
  }

  /** From a line that opens a fence to the next that starts with the same marker, that one included, no line is a
      heading; right after it the scan is outside every fence again. */
  lemma {:induction false} FenceHidesHeadings(trimmed: seq<string>, from: nat, to: nat, i: nat)
    requires from < to < |trimmed| && OpenFence(trimmed, from).None? && OpensFence(trimmed[from])
    requires var marker := if "```" <= trimmed[from] then "```" else "~~~";
      marker <= trimmed[to] && forall k | from < k < to :: !(marker <= trimmed[k])
    requires from <= i <= to
    ensures HeadingAt(trimmed, i).None?
    ensures OpenFence(trimmed, to + 1).None?
  {
    var marker := if "```" <= trimmed[from] then "```" else "~~~";
    for n := from + 1 to to + 1
      invariant OpenFence(trimmed, n) == if n <= to then Some(marker) else None
      invariant from < i < n ==> OpenFence(trimmed, i) == Some(marker)
    {
    }
  }

  /** Without an opening line before it, a line is outside every fence. */
  lemma {:induction false} NoFenceBefore(trimmed: seq<string>, n: nat)
    requires n <= |trimmed| && forall k | 0 <= k < n :: !OpensFence(trimmed[k])
    ensures OpenFence(trimmed, n).None?
  {
    if n > 0 {
      NoFenceBefore(trimmed, n - 1);
    }
  }

  /** A line of the document that holds such a heading, indented or not. */
  ghost predicate HoldsHeading(line: string, k: nat, title: string) {
    1 <= k <= 6 && IsTitle(title) && |title| <= 200 &&
    exists left, right :: AllCut(left, IsSpace) && AllCut(right, IsSpace)
      && line == left + ((Hashes(k) + (" " + title)) + right)
  }

  lemma PlainHeadingIsParsed(k: nat, gap: string, title: string)
    requires 1 <= k <= 6 && IsTitle(title) && |title| <= 200
    requires gap != "" && AllCut(gap, IsSpace) && (gap[0] == ' ' || gap[0] == '\t')
    ensures ParseATXHeading(Hashes(k) + (gap + title)) == Some(Heading(k, title))
  {
    RestIsParsed(k, gap + title);
    TitleWithoutClosing(gap, title);
  }

  lemma HeadingIsTrimmed(k: nat, title: string)
    requires 1 <= k && IsTitle(title)
    ensures IsTrimmed(Hashes(k) + (" " + title), IsSpace) && (Hashes(k) + (" " + title))[0] == '#'
  {
  }

  lemma HashOpensNoFence(line: string)
    requires line != "" && line[0] == '#'
    ensures FenceOpenMarker(line) == ""
  {
  }

  lemma ParsedAt(trimmed: seq<string>, i: nat, line: string)
    requires i < |trimmed| && trimmed[i] == line && line != "" && line[0] == '#' && OpenFence(trimmed, i).None?
    ensures HeadingAt(trimmed, i) == ParseATXHeading(line)
  {
    HashOpensNoFence(line);
  }

  lemma HeadingOfLine(lines: seq<string>, i: nat, k: nat, title: string)
    requires i < |lines| && HoldsHeading(lines[i], k, title) && OpenFence(TrimmedLines(lines), i).None?
    ensures HeadingsOf(lines)[i] == Some(Heading(k, title))
  {
    TrimmedHeading(lines[i], k, title);
    PlainHeadingIsParsed(k, " ", title);
    HeadingIsTrimmed(k, title);
    ParsedAt(TrimmedLines(lines), i, Hashes(k) + (" " + title));
  }

  lemma TrimmedHeading(line: string, k: nat, title: string)
    requires HoldsHeading(line, k, title)
    ensures TrimSpace(line) == Hashes(k) + (" " + title)
  {
    var heading := Hashes(k) + (" " + title);
    HeadingIsTrimmed(k, title);
    var left, right :| AllCut(left, IsSpace) && AllCut(right, IsSpace) && line == left + (heading + right);
    TrimDropsEnds(left, heading, right, IsSpace);
  }

  lemma NothingOpensBetween(heads: seq<Option<Heading>>, i: nat, j: nat)
    requires i < j <= |heads| && forall k | i < k < j :: heads[k].None?
    ensures OpenHeadings(heads, j) == OpenHeadings(heads, i + 1)
  {
    for n := i + 1 to j
      invariant OpenHeadings(heads, n) == OpenHeadings(heads, i + 1)
    {
      PlainLineKeepsOpen(heads, n);
    }
  }

  lemma OpenAreShallower(heads: seq<Option<Heading>>, i: nat, level: nat, k: nat)
    requires IsHeading(heads, i) && heads[i].value.level < level && k < |OpenHeadings(heads, i + 1)|
    ensures var h := OpenHeadings(heads, i + 1)[k]; IsHeading(heads, h) && heads[h].value.level < level
  {
    var open := OpenHeadings(heads, i + 1);
    InnermostIsOwn(heads, i);
    if k < |open| - 1 {
      OpenLevelsIncrease(heads, i + 1, k, |open| - 1);
    }
  }

  lemma DeeperHeadingStaysOpen(heads: seq<Option<Heading>>, i: nat, j: nat)
    requires i < j && IsHeading(heads, i) && IsHeading(heads, j)
    requires forall k | i < k < j :: heads[k].None?
    requires heads[i].value.level < heads[j].value.level
    ensures OpenHeadings(heads, j + 1) == OpenHeadings(heads, i + 1) + [j]
  {
    var open := OpenHeadings(heads, j);
    NothingOpensBetween(heads, i, j);
    forall k | 0 <= k < |open|
      ensures IsHeading(heads, open[k]) && heads[open[k]].value.level < heads[j].value.level
    {
      OpenAreShallower(heads, i, heads[j].value.level, k);
    }
    HeadingLineOpens(heads, j, |open|);
    assert open[..|open|] == open;
  }

  /** The next heading, if deeper, goes under the one before it. */
  lemma DeeperHeadingNests(heads: seq<Option<Heading>>, i: nat, j: nat)
    requires i < j && IsHeading(heads, i) && IsHeading(heads, j)
    requires forall k | i < k < j :: heads[k].None?
    requires heads[i].value.level < heads[j].value.level
    ensures TitlesAt(heads, j) == TitlesAt(heads, i) + [heads[j].value.title]
    ensures PathAt(heads, j) == PathAt(heads, i) + " > " + heads[j].value.title
  {
    DeeperHeadingStaysOpen(heads, i, j);
    InnermostIsOwn(heads, i);
    TitlesSnoc(heads, OpenHeadings(heads, i + 1), j);
    JoinSnoc(TitlesAt(heads, i), heads[j].value.title, PATH_SEPARATOR);
  }

  lemma TitlesSnoc(heads: seq<Option<Heading>>, open: seq<nat>, j: nat)
    requires IsHeading(heads, j)
    ensures Map(open + [j], TitleAt(heads)) == Map(open, TitleAt(heads)) + [heads[j].value.title]
  {
  }

  /** In a document: two heading lines with no heading between them, the second deeper, and outside every fence. */
  lemma NestedSectionPath(lines: seq<string>, i: nat, j: nat, k: nat, l: nat, title: string, subtitle: string)
    requires i < j < |lines| && k < l
    requires HoldsHeading(lines[i], k, title) && HoldsHeading(lines[j], l, subtitle)
    requires OpenFence(TrimmedLines(lines), i).None? && OpenFence(TrimmedLines(lines), j).None?
    requires forall n | i < n < j :: HeadingsOf(lines)[n].None?
    ensures PathAt(HeadingsOf(lines), j) == PathAt(HeadingsOf(lines), i) + " > " + subtitle
    ensures var outer := TitlesAt(HeadingsOf(lines), i); outer != [] && outer[|outer| - 1] == title
  {
    HeadingOfLine(lines, i, k, title);
    HeadingOfLine(lines, j, l, subtitle);
    DeeperHeadingNests(HeadingsOf(lines), i, j);
    InnermostIsOwn(HeadingsOf(lines), i);
  }

  /** Each heading line starts a section, with its path and the lines up to the next heading. */
  lemma SectionOfHeading(lines: seq<string>, i: nat, end: nat)
    requires var heads := HeadingsOf(lines);
      && IsHeading(heads, i) && i < end <= |lines|
      && (forall k | i < k < end :: heads[k].None?) && (end < |lines| ==> heads[end].Some?)
    ensures Section(PathAt(HeadingsOf(lines), i), TextOf(lines[i..end])) in AllSections(lines)
  {
    StartOfSection(HeadingsOf(lines), i, end);
    SectionIsListed(lines, HeadingsOf(lines), end);
  }

  lemma SectionIsListed(lines: seq<string>, heads: seq<Option<Heading>>, end: nat)
    requires |heads| == |lines| && end <= |lines| && (end < |lines| ==> heads[end].Some?)
    ensures SectionEndingAt(lines, heads, end)
         in SectionsEndingAt(lines, heads, HeadingLines(heads, |lines|) + [|lines|])
  {
    var ends: seq<nat> := HeadingLines(heads, |lines|) + [|lines|];
    HeadingLinesExact(heads, |lines|);
    assert end in ends;
    MapMember(ends, EndingAt(lines, heads), SectionEndingAt(lines, heads, end));
  }

  lemma {:induction false} StartOfSection(heads: seq<Option<Heading>>, i: nat, end: nat)
    requires i < end <= |heads| && heads[i].Some? && forall k | i < k < end :: heads[k].None?
    ensures SectionStart(heads, end) == i && SectionPath(heads, end) == PathAt(heads, i)
    decreases end
  {
    if i + 1 < end {
      StartOfSection(heads, i, end - 1);
    }
  }
}
