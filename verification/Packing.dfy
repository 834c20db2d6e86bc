/**
 * Splitting an oversized section (internal/knowledge/chunker.go): greedy packing of
 * paragraphs into windows, with a paragraph that is too long cut into fixed windows of
 * its own. A layout says which paragraphs went into which piece.
 */
module Packing {
  import opened Lists
  import opened Text

  const MAX_CHUNK_RUNES: nat := 8000
  const SEPARATOR := "\n\n"

  /** One or more paragraphs packed into one piece, or one long paragraph cut into several. */
  datatype Group = Packed(paragraphs: seq<string>) | Cut(paragraph: string)

  function IsNewline(): char -> bool {
    (c: char) => c == '\n'
  }

  function HasText(): string -> bool {
    (paragraph: string) => TrimSpace(paragraph) != ""
  }

  function WithoutNewlines(): string -> string {
    (paragraph: string) => Trim(paragraph, IsNewline())
  }

  /** The paragraphs of a body that are not blank, without the newlines around them. */
  function Paragraphs(body: string): seq<string> {
    Map(Filter(Split(body, SEPARATOR), HasText()), WithoutNewlines())
  }

  method SplitParagraphs(body: string) returns (paragraphs: seq<string>)
    ensures paragraphs == Paragraphs(body)
  {
    var raw := Split(body, SEPARATOR);
    paragraphs := [];
    for i := 0 to |raw|
      invariant paragraphs == Map(Filter(raw[..i], HasText()), WithoutNewlines())
    {
      MapFilterSnoc(raw, i, HasText(), WithoutNewlines());
      if TrimSpace(raw[i]) != "" {
        paragraphs := paragraphs + [Trim(raw[i], IsNewline())];
      }
    }
    assert raw[..|raw|] == raw;
  }

  lemma TextSurvivesTrim(paragraph: string)
    requires TrimSpace(paragraph) != ""
    ensures Trim(paragraph, IsNewline()) != ""
  {
    TrimToEmpty(paragraph, IsSpace);
    TrimToEmpty(paragraph, IsNewline());
  }

  lemma ParagraphsAreNotEmpty(body: string)
    ensures "" !in Paragraphs(body)
  {
    var kept := Filter(Split(body, SEPARATOR), HasText());
    MapMember(kept, WithoutNewlines(), "");
    forall paragraph | paragraph in kept ensures Trim(paragraph, IsNewline()) != "" {
      TextSurvivesTrim(paragraph);
    }
  }

  /** Fixed windows: every one but the last exactly `size` runes. */
  function Windows(value: string, size: nat): seq<string>
    requires size > 0
  {
    if value == "" then [] else if |value| <= size then [value] else [value[..size]] + Windows(value[size..], size)
  }

  function Concat(pieces: seq<string>): string {
    if pieces == [] then "" else pieces[0] + Concat(pieces[1..])
  }

  /** The windows put back together are the paragraph. */
  lemma {:induction false} WindowsConcat(value: string, size: nat)
    requires size > 0
    ensures Concat(Windows(value, size)) == value
  {
    if |value| > size {
      WindowsConcat(value[size..], size);
      assert Windows(value, size)[1..] == Windows(value[size..], size);
      assert value == value[..size] + value[size..];
    } else if value != "" {
      assert [value][1..] == [];
    }
  }

  /** None is empty or over size, and only the last may be short. */
  lemma {:induction false} WindowsFit(value: string, size: nat)
    requires size > 0
    ensures forall k | 0 <= k < |Windows(value, size)| :: 0 < |Windows(value, size)[k]| <= size
    ensures forall k | 0 <= k < |Windows(value, size)| - 1 :: |Windows(value, size)[k]| == size
  {
    if |value| > size {
      WindowsFit(value[size..], size);
      assert Windows(value, size) == [value[..size]] + Windows(value[size..], size);
    }
  }

  method SplitRuneWindows(value: string, size: nat) returns (windows: seq<string>)
    requires size > 0
    ensures windows == Windows(value, size)
  {
    windows := [];
    var start: nat := 0;
    while start < |value|
      invariant Windows(value, size) == windows + if start <= |value| then Windows(value[start..], size) else []
    {
      var end := start + size;
      if end > |value| {
        end := |value|;
      }
      assert value[start..][..end - start] == value[start..end];
      assert value[start..][end - start..] == value[end..];
      assert end == |value| ==> value[start..end] == value[start..] && value[end..] == "";
      assert Windows(value[start..], size) == [value[start..end]] + Windows(value[end..], size);
      windows := windows + [value[start..end]];
      start := start + size;
    }
  }

  function Pieces(groups: seq<Group>): seq<string> {
    FlatMap(groups, PiecesOf())
  }

  function PiecesOf(): Group -> seq<string> {
    (group: Group) =>
      match group
      case Packed(paragraphs) => [Join(paragraphs, SEPARATOR)]
      case Cut(paragraph) => Windows(paragraph, MAX_CHUNK_RUNES)
  }

  function ParagraphsOf(group: Group): seq<string> {
    match group
    case Packed(paragraphs) => paragraphs
    case Cut(paragraph) => [paragraph]
  }

  function Content(groups: seq<Group>): seq<string> {
    if groups == [] then [] else Content(groups[..|groups| - 1]) + ParagraphsOf(groups[|groups| - 1])
  }

  /** A packed group fits a piece; only a paragraph that cannot fit is cut. */
  predicate GroupFits(group: Group) {
    match group
    case Packed(paragraphs) => paragraphs != [] && |Join(paragraphs, SEPARATOR)| <= MAX_CHUNK_RUNES
    case Cut(paragraph) => |paragraph| > MAX_CHUNK_RUNES
  }

  /** Two neighbouring packed groups: the first had no room for the second's first paragraph. */
  predicate NoRoomBetween(left: Group, right: Group) {
    left.Packed? && right.Packed? && right.paragraphs != [] ==>
      |Join(left.paragraphs, SEPARATOR)| + |SEPARATOR| + |right.paragraphs[0]| > MAX_CHUNK_RUNES
  }

  /** The paragraphs in order, each in one group, no group over size and none that could have taken one more. */
  ghost predicate IsLayout(groups: seq<Group>, paragraphs: seq<string>) {
    && Content(groups) == paragraphs
    && (forall k | 0 <= k < |groups| :: GroupFits(groups[k]))
    && (forall k | 0 <= k < |groups| - 1 :: NoRoomBetween(groups[k], groups[k + 1]))
  }

  lemma LayoutSnoc(groups: seq<Group>, paragraphs: seq<string>, last: Group)
    requires IsLayout(groups, paragraphs) && GroupFits(last)
    requires groups != [] ==> NoRoomBetween(groups[|groups| - 1], last)
    ensures IsLayout(groups + [last], paragraphs + ParagraphsOf(last))
  {
    assert (groups + [last])[..|groups|] == groups;
  }

  lemma PiecesSnoc(groups: seq<Group>, last: Group)
    ensures Pieces(groups + [last]) == Pieces(groups) + PiecesOf()(last)
  {
    assert (groups + [last])[..|groups|] == groups;
  }

  /** The paragraphs in the window so far: what the string builder holds. */
  ghost predicate IsWindow(window: string, windowRunes: nat, held: seq<string>) {
    && windowRunes == |window|
    && window == Join(held, SEPARATOR)
    && (held == [] <==> window == "")
    && |window| <= MAX_CHUNK_RUNES
  }

  lemma FlushKeepsLayout(groups: seq<Group>, done: seq<string>, held: seq<string>, window: string)
    requires IsLayout(groups, done)
    requires held != [] && window == Join(held, SEPARATOR) && |window| <= MAX_CHUNK_RUNES
    requires groups != [] ==> NoRoomBetween(groups[|groups| - 1], Packed(held))
    ensures IsLayout(groups + [Packed(held)], done + held)
    ensures Pieces(groups + [Packed(held)]) == Pieces(groups) + [window]
  {
    LayoutSnoc(groups, done, Packed(held));
    PiecesSnoc(groups, Packed(held));
  }

  /** The packing loop between two paragraphs: what is flushed, and what the window still holds. */
  ghost predicate IsPacking(pieces: seq<string>, window: string, windowRunes: nat,
      groups: seq<Group>, done: seq<string>, held: seq<string>)
  {
    && pieces == Pieces(groups)
    && IsLayout(groups, done)
    && IsWindow(window, windowRunes, held)
    && (groups != [] && held == [] ==> groups[|groups| - 1].Cut?)
    && (groups != [] && held != [] ==> NoRoomBetween(groups[|groups| - 1], Packed(held)))
  }

  /** Flushing the window: everything seen so far is laid out. */
  lemma FlushPacking(pieces: seq<string>, window: string, windowRunes: nat,
      groups: seq<Group>, done: seq<string>, held: seq<string>) returns (flushed: seq<Group>)
    requires IsPacking(pieces, window, windowRunes, groups, done, held)
    ensures flushed == if held == [] then groups else groups + [Packed(held)]
    ensures IsLayout(flushed, done + held)
    ensures Pieces(flushed) == if window != "" then pieces + [window] else pieces
  {
    if held == [] {
      assert done + held == done;
      flushed := groups;
    } else {
      FlushKeepsLayout(groups, done, held, window);
      flushed := groups + [Packed(held)];
    }
  }

  method Flush(pieces: seq<string>, window: string) returns (flushed: seq<string>)
    ensures flushed == if window != "" then pieces + [window] else pieces
  {
    flushed := if |window| > 0 then pieces + [window] else pieces;
  }

  lemma CutAfterFlush(groups: seq<Group>, done: seq<string>, paragraph: string)
    requires IsLayout(groups, done) && |paragraph| > MAX_CHUNK_RUNES
    ensures IsPacking(Pieces(groups) + Windows(paragraph, MAX_CHUNK_RUNES), "", 0,
              groups + [Cut(paragraph)], done + [paragraph], [])
  {
    LayoutSnoc(groups, done, Cut(paragraph));
    PiecesSnoc(groups, Cut(paragraph));
  }

  /** The window can take this paragraph, and no earlier piece could. */
  ghost predicate HasRoom(pieces: seq<string>, window: string,
      groups: seq<Group>, done: seq<string>, held: seq<string>, paragraph: string)
  {
    && pieces == Pieces(groups)
    && IsLayout(groups, done)
    && IsWindow(window, |window|, held)
    && (groups != [] ==> NoRoomBetween(groups[|groups| - 1], Packed(if held == [] then [paragraph] else held)))
    && (window != "" ==> |window| + 2 + |paragraph| <= MAX_CHUNK_RUNES)
  }

  lemma TakeKeepsPacking(pieces: seq<string>, window: string,
      groups: seq<Group>, done: seq<string>, held: seq<string>, paragraph: string)
    requires HasRoom(pieces, window, groups, done, held, paragraph)
    requires paragraph != "" && |paragraph| <= MAX_CHUNK_RUNES
    ensures var taken := if window == "" then paragraph else window + SEPARATOR + paragraph;
            IsPacking(pieces, taken, |taken|, groups, done, held + [paragraph])
  {
    if held != [] {
      JoinSnoc(held, paragraph, SEPARATOR);
    } else {
      assert [] + [paragraph] == [paragraph];
    }
  }

  lemma FlushMakesRoom(pieces: seq<string>, window: string,
      groups: seq<Group>, done: seq<string>, held: seq<string>, paragraph: string)
    requires IsPacking(pieces, window, |window|, groups, done, held)
    requires window != "" && |window| + 2 + |paragraph| > MAX_CHUNK_RUNES
    ensures HasRoom(pieces + [window], "", groups + [Packed(held)], done + held, [], paragraph)
  {
    FlushKeepsLayout(groups, done, held, window);
  }

  method AddToWindow(window: string, windowRunes: nat, paragraph: string) returns (taken: string, takenRunes: nat)
    requires windowRunes == |window|
    ensures taken == (if window == "" then paragraph else window + SEPARATOR + paragraph) && takenRunes == |taken|
  {
    taken, takenRunes := window, windowRunes;
    if takenRunes > 0 {
      taken := taken + SEPARATOR;
      takenRunes := takenRunes + 2;
    }
    taken := taken + paragraph;
    takenRunes := takenRunes + |paragraph|;
  }

  lemma SnocAssoc(done: seq<string>, held: seq<string>, paragraph: string)
    ensures done + held + [paragraph] == done + (held + [paragraph])
  {
  }

  /** A paragraph over the cap: the window is flushed and the paragraph cut into windows of its own. */
  method PackLong(pieces: seq<string>, window: string, paragraph: string,
      ghost groups: seq<Group>, ghost done: seq<string>, ghost held: seq<string>)
    returns (packed: seq<string>, ghost groups': seq<Group>)
    requires IsPacking(pieces, window, |window|, groups, done, held)
    requires |paragraph| > MAX_CHUNK_RUNES
    ensures IsPacking(packed, "", 0, groups', done + held + [paragraph], [])
  {
    ghost var flushed := FlushPacking(pieces, window, |window|, groups, done, held);
    packed := Flush(pieces, window);
    CutAfterFlush(flushed, done + held, paragraph);
    var windows := SplitRuneWindows(paragraph, MAX_CHUNK_RUNES);
    packed := packed + windows;
    groups' := flushed + [Cut(paragraph)];
  }

  lemma RoomIsThere(pieces: seq<string>, window: string, groups: seq<Group>, done: seq<string>, held: seq<string>,
      paragraph: string)
    requires IsPacking(pieces, window, |window|, groups, done, held)
    requires window != "" ==> |window| + 2 + |paragraph| <= MAX_CHUNK_RUNES
    ensures HasRoom(pieces, window, groups, done, held, paragraph)
  {
  }

  /** Flushes the window if it has no room for the paragraph. */
  method MakeRoom(pieces: seq<string>, window: string, windowRunes: nat, paragraph: string,
      ghost groups: seq<Group>, ghost done: seq<string>, ghost held: seq<string>)
    returns (packed: seq<string>, left: string, leftRunes: nat,
      ghost groups': seq<Group>, ghost done': seq<string>, ghost held': seq<string>)
    requires windowRunes == |window| && IsPacking(pieces, window, |window|, groups, done, held)
    ensures HasRoom(packed, left, groups', done', held', paragraph) && leftRunes == |left|
    ensures done' + held' == done + held
  {
    packed, left, leftRunes := pieces, window, windowRunes;
    groups', done', held' := groups, done, held;
    if windowRunes > 0 && windowRunes + 2 + |paragraph| > MAX_CHUNK_RUNES {
      FlushMakesRoom(pieces, window, groups, done, held, paragraph);
      packed := Flush(pieces, window);
      left, leftRunes := "", 0;
      groups', done', held' := groups + [Packed(held)], done + held, [];
    } else {
      RoomIsThere(pieces, window, groups, done, held, paragraph);
    }
  }

  /** Any other paragraph: it joins the window, which is flushed first if it has no room. */
  method PackShort(pieces: seq<string>, window: string, windowRunes: nat, paragraph: string,
      ghost groups: seq<Group>, ghost done: seq<string>, ghost held: seq<string>)
    returns (packed: seq<string>, taken: string, takenRunes: nat,
      ghost groups': seq<Group>, ghost done': seq<string>, ghost held': seq<string>)
    requires windowRunes == |window| && IsPacking(pieces, window, |window|, groups, done, held)
    requires 0 < |paragraph| <= MAX_CHUNK_RUNES
    ensures takenRunes == |taken| && IsPacking(packed, taken, |taken|, groups', done', held')
    ensures done' + held' == done + held + [paragraph]
  {
    var left, leftRunes;
    packed, left, leftRunes, groups', done', held' :=
      MakeRoom(pieces, window, windowRunes, paragraph, groups, done, held);
    TakeKeepsPacking(packed, left, groups', done', held', paragraph);
    SnocAssoc(done', held', paragraph);
    taken, takenRunes := AddToWindow(left, leftRunes, paragraph);
    held' := held' + [paragraph];
  }

  /** The pieces are those of a layout of the paragraphs. */
  ghost predicate ArePacked(pieces: seq<string>, paragraphs: seq<string>) {
    exists groups :: IsLayout(groups, paragraphs) && pieces == Pieces(groups)
  }

  method PackOne(pieces: seq<string>, window: string, windowRunes: nat, paragraph: string,
      ghost groups: seq<Group>, ghost done: seq<string>, ghost held: seq<string>)
    returns (packed: seq<string>, taken: string, takenRunes: nat,
      ghost groups': seq<Group>, ghost done': seq<string>, ghost held': seq<string>)
    requires windowRunes == |window| && IsPacking(pieces, window, |window|, groups, done, held)
    requires paragraph != ""
    ensures takenRunes == |taken| && IsPacking(packed, taken, |taken|, groups', done', held')
    ensures done' + held' == done + held + [paragraph]
  {
    if |paragraph| > MAX_CHUNK_RUNES {
      packed, groups' := PackLong(pieces, window, paragraph, groups, done, held);
      taken, takenRunes := "", 0;
      done', held' := done + held + [paragraph], [];
    } else {
      packed, taken, takenRunes, groups', done', held' :=
        PackShort(pieces, window, windowRunes, paragraph, groups, done, held);
    }
  }

  lemma PackedAll(pieces: seq<string>, window: string, groups: seq<Group>, done: seq<string>, held: seq<string>,
      paragraphs: seq<string>)
    requires IsPacking(pieces, window, |window|, groups, done, held) && done + held == paragraphs
    ensures ArePacked(if window != "" then pieces + [window] else pieces, paragraphs)
  {
    var flushed := FlushPacking(pieces, window, |window|, groups, done, held);
  }

  method PackParagraphs(paragraphs: seq<string>) returns (pieces: seq<string>)
    requires "" !in paragraphs
    ensures ArePacked(pieces, paragraphs)
  {
    pieces := [];
    assert paragraphs[..0] == [];
    var window, windowRunes: nat := "", 0;
    ghost var groups: seq<Group>, done: seq<string>, held: seq<string> := [], [], [];
    for i := 0 to |paragraphs|
      invariant windowRunes == |window| && IsPacking(pieces, window, |window|, groups, done, held)
      invariant done + held == paragraphs[..i]
    {
      assert paragraphs[..i + 1] == paragraphs[..i] + [paragraphs[i]];
      assert paragraphs[i] in paragraphs;
      pieces, window, windowRunes, groups, done, held :=
        PackOne(pieces, window, windowRunes, paragraphs[i], groups, done, held);
    }
    assert paragraphs[..|paragraphs|] == paragraphs;
    PackedAll(pieces, window, groups, done, held, paragraphs);
    pieces := Flush(pieces, window);
  }

  /** No piece of a layout is over the cap. */
  lemma LayoutPiecesFit(groups: seq<Group>, paragraphs: seq<string>, piece: string)
    requires IsLayout(groups, paragraphs) && piece in Pieces(groups)
    ensures |piece| <= MAX_CHUNK_RUNES
  {
    var group :| group in groups && piece in PiecesOf()(group);
    var k :| 0 <= k < |groups| && groups[k] == group;
    if group.Cut? {
      WindowsFit(group.paragraph, MAX_CHUNK_RUNES);
    }
  }

  lemma PackedPiecesFit(pieces: seq<string>, paragraphs: seq<string>)
    requires ArePacked(pieces, paragraphs)
    ensures forall piece | piece in pieces :: |piece| <= MAX_CHUNK_RUNES
  {
    var groups :| IsLayout(groups, paragraphs) && pieces == Pieces(groups);
    forall piece | piece in pieces ensures |piece| <= MAX_CHUNK_RUNES {
      LayoutPiecesFit(groups, paragraphs, piece);
    }
  }

  // ---------------------------------------------------------------------------------------
  // Nothing visible is lost.
  // ---------------------------------------------------------------------------------------

  function IsVisible(): char -> bool {
    (c: char) => !IsSpace(c)
  }

  /** The characters of a text that are not space, in order. */
  function Visible(s: string): string {
    Filter(s, IsVisible())
  }

  function VisibleIn(pieces: seq<string>): string {
    if pieces == [] then "" else VisibleIn(pieces[..|pieces| - 1]) + Visible(pieces[|pieces| - 1])
  }

  lemma VisibleInSnoc(pieces: seq<string>, last: string)
    ensures VisibleIn(pieces + [last]) == VisibleIn(pieces) + Visible(last)
  {
    assert (pieces + [last])[..|pieces|] == pieces;
  }

  lemma {:induction false} VisibleInConcat(a: seq<string>, b: seq<string>)
    ensures VisibleIn(a + b) == VisibleIn(a) + VisibleIn(b)
  {
    if b == [] {
      assert a + b == a;
    } else {
      var init, last := b[..|b| - 1], b[|b| - 1];
      assert b == init + [last] && a + b == (a + init) + [last];
      VisibleInConcat(a, init);
      VisibleInSnoc(a + init, last);
      VisibleInSnoc(init, last);
      ConcatAssociates(VisibleIn(a), VisibleIn(init), Visible(last));
    }
  }

  lemma VisibleInOne(piece: string)
    ensures VisibleIn([piece]) == Visible(piece)
  {
    VisibleInSnoc([], piece);
    assert [] + [piece] == [piece];
  }

  lemma {:induction false} SpaceIsNotVisible(s: string)
    requires AllCut(s, IsSpace)
    ensures Visible(s) == ""
  {
    if s != "" {
      var init, last := s[..|s| - 1], s[|s| - 1];
      assert s == init + [last];
      SpaceIsNotVisible(init);
      FilterLast(init, last, IsVisible());
    }
  }

  lemma TrimKeepsVisible(s: string)
    ensures Visible(Trim(s, IsNewline())) == Visible(s)
  {
    var left, right := TrimTakesOff(s, IsNewline());
    var middle := Trim(s, IsNewline());
    FilterConcat(left, middle + right, IsVisible());
    FilterConcat(middle, right, IsVisible());
    SpaceIsNotVisible(left);
    SpaceIsNotVisible(right);
  }

  lemma {:induction false} JoinKeepsVisible(parts: seq<string>, sep: string)
    requires AllCut(sep, IsSpace)
    ensures Visible(Join(parts, sep)) == VisibleIn(parts)
  {
    if |parts| == 1 {
      assert parts == [parts[0]];
      VisibleInOne(parts[0]);
    } else if |parts| > 1 {
      var init, last := parts[..|parts| - 1], parts[|parts| - 1];
      JoinKeepsVisible(init, sep);
      FilterConcat(Join(init, sep) + sep, last, IsVisible());
      FilterConcat(Join(init, sep), sep, IsVisible());
      SpaceIsNotVisible(sep);
    }
  }

  lemma PartKeepsVisible(kept: seq<string>, part: string)
    ensures VisibleIn(kept + if HasText()(part) then [WithoutNewlines()(part)] else [])
         == VisibleIn(kept) + Visible(part)
  {
    if HasText()(part) {
      VisibleInSnoc(kept, WithoutNewlines()(part));
      TrimKeepsVisible(part);
    } else {
      TrimToEmpty(part, IsSpace);
      SpaceIsNotVisible(part);
      assert kept + [] == kept;
    }
  }

  lemma {:induction false} BlankPartsAreInvisible(parts: seq<string>)
    ensures VisibleIn(Map(Filter(parts, HasText()), WithoutNewlines())) == VisibleIn(parts)
  {
    if parts != [] {
      var init, last := parts[..|parts| - 1], parts[|parts| - 1];
      assert parts == init + [last];
      BlankPartsAreInvisible(init);
      MapFilterLast(init, last, HasText(), WithoutNewlines());
      PartKeepsVisible(Map(Filter(init, HasText()), WithoutNewlines()), last);
      VisibleInSnoc(init, last);
    }
  }

  lemma SplitKeepsVisible(body: string, sep: string)
    requires sep != "" && AllCut(sep, IsSpace)
    ensures VisibleIn(Split(body, sep)) == Visible(body)
  {
    JoinKeepsVisible(Split(body, sep), sep);
    JoinOfSplit(body, sep);
  }

  lemma ParagraphsKeepVisible(body: string)
    ensures VisibleIn(Paragraphs(body)) == Visible(body)
  {
    SplitKeepsVisible(body, SEPARATOR);
    BlankPartsAreInvisible(Split(body, SEPARATOR));
  }

  lemma {:induction false} ConcatKeepsVisible(pieces: seq<string>)
    ensures Visible(Concat(pieces)) == VisibleIn(pieces)
  {
    if pieces != [] {
      var first, rest := pieces[0], pieces[1..];
      assert pieces == [first] + rest;
      ConcatKeepsVisible(rest);
      FilterConcat(first, Concat(rest), IsVisible());
      VisibleInConcat([first], rest);
      VisibleInOne(first);
    }
  }

  lemma PiecesOfGroupKeepVisible(group: Group)
    ensures VisibleIn(PiecesOf()(group)) == VisibleIn(ParagraphsOf(group))
  {
    match group {
      case Packed(paragraphs) =>
        JoinKeepsVisible(paragraphs, SEPARATOR);
        VisibleInOne(Join(paragraphs, SEPARATOR));
      case Cut(paragraph) =>
        WindowsConcat(paragraph, MAX_CHUNK_RUNES);
        ConcatKeepsVisible(Windows(paragraph, MAX_CHUNK_RUNES));
        VisibleInOne(paragraph);
    }
  }

  lemma {:induction false} LayoutKeepsVisible(groups: seq<Group>)
    ensures VisibleIn(Pieces(groups)) == VisibleIn(Content(groups))
  {
    if groups != [] {
      var init, last := groups[..|groups| - 1], groups[|groups| - 1];
      LayoutKeepsVisible(init);
      PiecesOfGroupKeepVisible(last);
      VisibleInConcat(Pieces(init), PiecesOf()(last));
      VisibleInConcat(Content(init), ParagraphsOf(last));
    }
  }

  lemma PackedKeepsVisible(pieces: seq<string>, paragraphs: seq<string>)
    requires ArePacked(pieces, paragraphs)
    ensures VisibleIn(pieces) == VisibleIn(paragraphs)
  {
    var groups :| IsLayout(groups, paragraphs) && pieces == Pieces(groups);
    LayoutKeepsVisible(groups);
  }

  /** What a paragraph of a body is: not blank, with no newline at its ends and no blank line inside. */
  lemma ParagraphsExactly(body: string, paragraph: string)
    requires paragraph in Paragraphs(body)
    ensures IsTrimmed(paragraph, IsNewline()) && !AllCut(paragraph, IsSpace)
    ensures !Contains(paragraph, SEPARATOR)
  {
    var kept := Filter(Split(body, SEPARATOR), HasText());
    MapMember(kept, WithoutNewlines(), paragraph);
    var part :| part in kept && paragraph == Trim(part, IsNewline());
    SplitLeavesNoSeparator(body, SEPARATOR);
    TextSurvivesTrim(part);
    TrimKeepsVisible(part);
    TrimToEmpty(part, IsSpace);
    VisibleCharacterStays(part, paragraph);
    TrimLeavesPart(part, IsNewline(), SEPARATOR);
  }

  lemma VisibleCharacterStays(part: string, paragraph: string)
    requires Visible(paragraph) == Visible(part) && !AllCut(part, IsSpace)
    ensures !AllCut(paragraph, IsSpace)
  {
    var i :| 0 <= i < |part| && !IsSpace(part[i]);
    assert part[i] in Visible(part);
    assert Visible(paragraph)[0] in Visible(paragraph);
  }

  lemma TrimLeavesPart(part: string, cut: char -> bool, sep: string)
    requires !Contains(part, sep)
    ensures !Contains(Trim(part, cut), sep)
    ensures Trim(part, cut) == "" || IsTrimmed(Trim(part, cut), cut)
  {
    var left, right := TrimTakesOff(part, cut);
    if Contains(Trim(part, cut), sep) {
      ContainsInMiddle(left, Trim(part, cut), right, sep);
    }
  }

  /** A body that fits stays whole; otherwise its paragraphs are laid out. No piece is over the cap, and all that is
      visible of the body is in the pieces, in order. */
  method SplitOversized(body: string) returns (pieces: seq<string>)
    ensures if |body| <= MAX_CHUNK_RUNES then pieces == [body] else ArePacked(pieces, Paragraphs(body))
    ensures VisibleIn(pieces) == Visible(body)
    ensures forall piece | piece in pieces :: |piece| <= 8000
  {
    if |body| <= MAX_CHUNK_RUNES {
      VisibleInOne(body);
      return [body];
    }
    var paragraphs := SplitParagraphs(body);
    ParagraphsKeepVisible(body);
    ParagraphsAreNotEmpty(body);
    pieces := PackParagraphs(paragraphs);
    PackedPiecesFit(pieces, paragraphs);
    PackedKeepsVisible(pieces, paragraphs);
  }

  /** What a layout says of its first group. */
  lemma {:induction false} LayoutCons(groups: seq<Group>, paragraphs: seq<string>)
    requires IsLayout(groups, paragraphs) && groups != []
    ensures ParagraphsOf(groups[0]) <= paragraphs
    ensures IsLayout(groups[1..], paragraphs[|ParagraphsOf(groups[0])|..])
  {
    ContentCons(groups);
    assert paragraphs[|ParagraphsOf(groups[0])|..] == Content(groups[1..]);
  }

  lemma {:induction false} ContentCons(groups: seq<Group>)
    requires groups != []
    ensures Content(groups) == ParagraphsOf(groups[0]) + Content(groups[1..])
  {
    if |groups| > 1 {
      var init, last := groups[..|groups| - 1], groups[|groups| - 1];
      ContentCons(init);
      assert init[1..] == groups[1..][..|groups| - 2];
      assert ParagraphsOf(groups[0]) + (Content(init[1..]) + ParagraphsOf(last))
          == ParagraphsOf(groups[0]) + Content(init[1..]) + ParagraphsOf(last);
    } else {
      assert groups[..0] == [] && groups[1..] == [];
    }
  }

  lemma {:induction false} JoinGrows(short: seq<string>, more: seq<string>)
    requires short != [] && short < more
    ensures |Join(short, SEPARATOR)| + |SEPARATOR| + |more[|short|]| <= |Join(more, SEPARATOR)|
    decreases |more|
  {
    var init := more[..|more| - 1];
    if short == init {
    } else {
      assert short < init;
      JoinGrows(short, init);
    }
  }

  lemma {:induction false} JoinHolds(paragraphs: seq<string>, k: nat)
    requires k < |paragraphs|
    ensures |paragraphs[k]| <= |Join(paragraphs, SEPARATOR)|
  {
    if |paragraphs| > 1 && k < |paragraphs| - 1 {
      JoinHolds(paragraphs[..|paragraphs| - 1], k);
    }
  }

  /** A group that took fewer paragraphs than another layout's could take would have had room for more. */
  lemma FirstGroupIsMaximal(groups: seq<Group>, paragraphs: seq<string>, more: seq<string>)
    requires IsLayout(groups, paragraphs) && groups != [] && groups[0].Packed?
    requires GroupFits(Packed(more)) && more <= paragraphs
    ensures |more| <= |groups[0].paragraphs|
  {
    var taken := groups[0].paragraphs;
    LayoutCons(groups, paragraphs);
    if |taken| < |more| {
      var next := more[|taken|];
      var rest := paragraphs[|taken|..];
      assert taken == more[..|taken|];
      JoinGrows(taken, more);
      assert rest[0] == next;
      FirstParagraph(groups[1..], rest);
    }
  }

  /** A layout of something starts with a group holding its first paragraph: cut exactly when it is too long. */
  lemma FirstParagraph(groups: seq<Group>, paragraphs: seq<string>)
    requires IsLayout(groups, paragraphs) && paragraphs != []
    ensures groups != [] && ParagraphsOf(groups[0]) != [] && ParagraphsOf(groups[0])[0] == paragraphs[0]
    ensures groups[0].Cut? <==> |paragraphs[0]| > MAX_CHUNK_RUNES
  {
    assert groups != [];
    LayoutCons(groups, paragraphs);
    assert GroupFits(groups[0]);
    if groups[0].Packed? {
      JoinHolds(groups[0].paragraphs, 0);
    }
  }

  /** The layout is the only one: order, fit and greed leave no choice of pieces. */
  lemma {:induction false} LayoutIsUnique(a: seq<Group>, b: seq<Group>, paragraphs: seq<string>)
    requires IsLayout(a, paragraphs) && IsLayout(b, paragraphs)
    ensures a == b
    decreases |a|
  {
    if paragraphs == [] {
      LayoutOfNothing(a);
      LayoutOfNothing(b);
    } else {
      FirstParagraph(a, paragraphs);
      FirstParagraph(b, paragraphs);
      SameFirstGroup(a, b, paragraphs);
      LayoutCons(a, paragraphs);
      LayoutCons(b, paragraphs);
      LayoutIsUnique(a[1..], b[1..], paragraphs[|ParagraphsOf(a[0])|..]);
      assert a == [a[0]] + a[1..] && b == [b[0]] + b[1..];
    }
  }

  lemma LayoutOfNothing(groups: seq<Group>)
    requires IsLayout(groups, [])
    ensures groups == []
  {
    if groups != [] {
      ContentCons(groups);
      assert false;
    }
  }

  lemma SameFirstGroup(a: seq<Group>, b: seq<Group>, paragraphs: seq<string>)
    requires IsLayout(a, paragraphs) && IsLayout(b, paragraphs) && a != [] && b != []
    requires ParagraphsOf(a[0]) != [] && ParagraphsOf(b[0]) != []
    requires a[0].Cut? <==> b[0].Cut?
    ensures a[0] == b[0]
  {
    LayoutCons(a, paragraphs);
    LayoutCons(b, paragraphs);
    assert GroupFits(a[0]) && GroupFits(b[0]);
    if a[0].Packed? {
      FirstGroupIsMaximal(a, paragraphs, b[0].paragraphs);
      FirstGroupIsMaximal(b, paragraphs, a[0].paragraphs);
      assert a[0].paragraphs == b[0].paragraphs;
    } else {
      assert ParagraphsOf(a[0])[0] == ParagraphsOf(b[0])[0];
    }
  }
}
