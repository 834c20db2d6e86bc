/** The parts of Go's `strings` package the modelled code leans on. */
module Text {

  /** `unicode.IsSpace`. */
  predicate IsSpace(c: char) {
    || '\t' <= c <= '\r' || c == ' ' || c == '\U{85}' || c == '\U{A0}' || c == '\U{1680}'
    || '\U{2000}' <= c <= '\U{200A}' || c == '\U{2028}' || c == '\U{2029}' || c == '\U{202F}'
    || c == '\U{205F}' || c == '\U{3000}'
  }

  function TrimLeft(s: string, cut: char -> bool): (r: string)
    ensures |r| <= |s| && r == s[|s| - |r|..]
    ensures r == "" || !cut(r[0])
    ensures forall i | 0 <= i < |s| - |r| :: cut(s[i])
  {
    if s == "" || !cut(s[0]) then s else TrimLeft(s[1..], cut)
  }

  function TrimRight(s: string, cut: char -> bool): (r: string)
    ensures r <= s
    ensures r == "" || !cut(r[|r| - 1])
    ensures forall i | |r| <= i < |s| :: cut(s[i])
  {
    if s == "" || !cut(s[|s| - 1]) then s else TrimRight(s[..|s| - 1], cut)
  }

  /** `strings.Trim`. */
  function Trim(s: string, cut: char -> bool): (r: string) {
    TrimRight(TrimLeft(s, cut), cut)
  }

  function TrimSpace(s: string): (r: string) {
    Trim(s, IsSpace)
  }

  /** A string trims to nothing exactly when every character is cut. */
  lemma TrimToEmpty(s: string, cut: char -> bool)
    ensures Trim(s, cut) == "" <==> forall i | 0 <= i < |s| :: cut(s[i])
  {
    var l := TrimLeft(s, cut);
    if l != "" {
      assert l[0] == s[|s| - |l|];
    }
  }

  predicate AllCut(s: string, cut: char -> bool) {
    forall i | 0 <= i < |s| :: cut(s[i])
  }

  /** Neither end would be cut. */
  predicate IsTrimmed(s: string, cut: char -> bool) {
    s != "" && !cut(s[0]) && !cut(s[|s| - 1])
  }

  lemma TrimLeftOnce(s: string, rest: string, cut: char -> bool)
    requires s != "" && cut(s[0]) && rest == s[1..]
    ensures TrimLeft(s, cut) == TrimLeft(rest, cut)
  {
  }

  lemma {:induction false} TrimLeftDrops(left: string, rest: string, cut: char -> bool)
    requires AllCut(left, cut) && rest != "" && !cut(rest[0])
    ensures TrimLeft(left + rest, cut) == rest
  {
    if left != "" {
      var s := left + rest;
      assert s[1..] == left[1..] + rest && s[0] == left[0];
      TrimLeftOnce(s, s[1..], cut);
      TrimLeftDrops(left[1..], rest, cut);
    } else {
      assert left + rest == rest;
    }
  }

  lemma {:induction false} TrimRightDrops(rest: string, right: string, cut: char -> bool)
    requires AllCut(right, cut) && rest != "" && !cut(rest[|rest| - 1])
    ensures TrimRight(rest + right, cut) == rest
  {
    if right != "" {
      var init := right[..|right| - 1];
      TrimRightDrops(rest, init, cut);
      assert (rest + right)[..|rest + right| - 1] == rest + init;
    } else {
      assert rest + right == rest;
    }
  }

  /** Trimming takes off both ends what is to be cut, up to the first character that is not, and no more. */
  lemma TrimDropsEnds(left: string, middle: string, right: string, cut: char -> bool)
    requires AllCut(left, cut) && IsTrimmed(middle, cut) && AllCut(right, cut)
    ensures Trim(left + (middle + right), cut) == middle
  {
    TrimLeftDrops(left, middle + right, cut);
    TrimRightDrops(middle, right, cut);
  }

  lemma SuffixSplits(s: string, r: string, cut: char -> bool) returns (left: string)
    requires |r| <= |s| && r == s[|s| - |r|..] && forall i | 0 <= i < |s| - |r| :: cut(s[i])
    ensures s == left + r && AllCut(left, cut)
  {
    left := s[..|s| - |r|];
  }

  lemma PrefixSplits(s: string, r: string, cut: char -> bool) returns (right: string)
    requires r <= s && forall i | |r| <= i < |s| :: cut(s[i])
    ensures s == r + right && AllCut(right, cut)
  {
    right := s[|r|..];
  }

  lemma FirstOfPrefix(s: string, r: string, cut: char -> bool)
    requires r <= s && (s == "" || !cut(s[0])) && (r == "" || !cut(r[|r| - 1]))
    ensures r == "" || IsTrimmed(r, cut)
  {
  }

  /** What trimming takes off. */
  lemma TrimTakesOff(s: string, cut: char -> bool) returns (left: string, right: string)
    ensures s == left + (Trim(s, cut) + right) && AllCut(left, cut) && AllCut(right, cut)
    ensures Trim(s, cut) == "" || IsTrimmed(Trim(s, cut), cut)
  {
    var rest := TrimLeft(s, cut);
    left := SuffixSplits(s, rest, cut);
    right := PrefixSplits(rest, Trim(s, cut), cut);
    FirstOfPrefix(rest, Trim(s, cut), cut);
  }

  /** `strings.Split` for a non-empty separator, cutting at the leftmost occurrences. */
  function Split(s: string, sep: string): (r: seq<string>)
    requires sep != ""
    ensures |r| > 0
  {
    if s == "" then [""]
    else if sep <= s then [""] + Split(s[|sep|..], sep)
    else
      var rest := Split(s[1..], sep);
      [[s[0]] + rest[0]] + rest[1..]
  }

  /** `strings.Join`. */
  function Join(parts: seq<string>, sep: string): string {
    if parts == [] then ""
    else if |parts| == 1 then parts[0]
    else Join(parts[..|parts| - 1], sep) + sep + parts[|parts| - 1]
  }

  lemma JoinSnoc(parts: seq<string>, last: string, sep: string)
    requires parts != []
    ensures Join(parts + [last], sep) == Join(parts, sep) + sep + last
  {
    assert (parts + [last])[..|parts|] == parts;
  }

  lemma {:induction false} JoinCons(first: string, rest: seq<string>, sep: string)
    requires rest != []
    ensures Join([first] + rest, sep) == first + sep + Join(rest, sep)
  {
    if |rest| == 1 {
      JoinSnoc([first], rest[0], sep);
    } else {
      var init, last := rest[..|rest| - 1], rest[|rest| - 1];
      JoinCons(first, init, sep);
      JoinSnoc([first] + init, last, sep);
      assert [first] + rest == ([first] + init) + [last];
      assert first + sep + (Join(init, sep) + sep + last) == (first + sep + Join(init, sep)) + sep + last;
    }
  }

  lemma JoinPrepend(c: char, parts: seq<string>, sep: string)
    requires parts != []
    ensures Join([[c] + parts[0]] + parts[1..], sep) == [c] + Join(parts, sep)
  {
    var first, rest := parts[0], parts[1..];
    assert parts == [first] + rest;
    if rest != [] {
      JoinCons(first, rest, sep);
      JoinCons([c] + first, rest, sep);
      assert [c] + (first + sep + Join(rest, sep)) == [c] + first + sep + Join(rest, sep);
    }
  }

  /** Joining what was split gives the text back. */
  lemma {:induction false} JoinOfSplit(s: string, sep: string)
    requires sep != ""
    ensures Join(Split(s, sep), sep) == s
  {
    if s == "" {
    } else if sep <= s {
      JoinOfSplit(s[|sep|..], sep);
      JoinCons("", Split(s[|sep|..], sep), sep);
      assert s == "" + sep + s[|sep|..];
    } else {
      JoinOfSplit(s[1..], sep);
      JoinPrepend(s[0], Split(s[1..], sep), sep);
      assert s == [s[0]] + s[1..];
    }
  }

  predicate Contains(s: string, sep: string) {
    exists i | 0 <= i <= |s| :: sep <= s[i..]
  }

  lemma ContainsInMiddle(left: string, middle: string, right: string, sep: string)
    requires Contains(middle, sep)
    ensures Contains(left + (middle + right), sep)
  {
    var i :| 0 <= i <= |middle| && sep <= middle[i..];
    assert (left + (middle + right))[|left| + i..] == middle[i..] + right;
  }

  /** The first piece is where the text starts. */
  lemma {:induction false} FirstPieceIsPrefix(s: string, sep: string)
    requires sep != ""
    ensures Split(s, sep)[0] <= s
  {
    if s != "" && !(sep <= s) {
      FirstPieceIsPrefix(s[1..], sep);
    }
  }

  lemma PrependKeepsOut(c: char, piece: string, s: string, sep: string)
    requires sep != "" && !Contains(piece, sep) && [c] + piece <= s && !(sep <= s)
    ensures !Contains([c] + piece, sep)
  {
    var longer := [c] + piece;
    forall i | 0 <= i <= |longer| ensures !(sep <= longer[i..]) {
      assert longer[0..] == longer;
      if i > 0 {
        assert longer[i..] == piece[i - 1..];
      }
    }
  }

  /** No piece has the separator in it. */
  lemma {:induction false} SplitLeavesNoSeparator(s: string, sep: string)
    requires sep != ""
    ensures forall piece | piece in Split(s, sep) :: !Contains(piece, sep)
  {
    if s == "" {
    } else if sep <= s {
      SplitLeavesNoSeparator(s[|sep|..], sep);
    } else {
      var rest := Split(s[1..], sep);
      SplitLeavesNoSeparator(s[1..], sep);
      FirstPieceIsPrefix(s[1..], sep);
      PrependKeepsOut(s[0], rest[0], s, sep);
    }
  }

  /** A one-character separator between two texts separates their pieces. */
  lemma {:induction false} SplitOfConcat(a: string, b: string, c: char)
    ensures Split(a + ([c] + b), [c]) == Split(a, [c]) + Split(b, [c])
  {
    var s := a + ([c] + b);
    if a == "" {
      assert s == [c] + b && s[1..] == b;
    } else {
      assert s[0] == a[0] && s[1..] == a[1..] + ([c] + b);
      SplitOfConcat(a[1..], b, c);
      assert [c] <= s <==> [c] <= a;
    }
  }

  lemma {:induction false} SplitOfOnePiece(s: string, c: char)
    requires c !in s
    ensures Split(s, [c]) == [s]
  {
    if s != "" {
      SplitOfOnePiece(s[1..], c);
      assert s == [s[0]] + s[1..] && s[0] != c;
    }
  }

  lemma {:induction false} JoinOfConcat(a: seq<string>, b: seq<string>, sep: string)
    requires a != [] && b != []
    ensures Join(a + b, sep) == Join(a, sep) + (sep + Join(b, sep))
  {
    var first, rest := a[0], a[1..];
    assert a == [first] + rest;
    if rest == [] {
      assert a == [first] && a + b == [first] + b;
      JoinCons(first, b, sep);
      JoinAssociates(first, sep, Join(b, sep));
    } else {
      assert a + b == [first] + (rest + b);
      JoinOfConcat(rest, b, sep);
      JoinCons(first, rest + b, sep);
      JoinCons(first, rest, sep);
      JoinAssociates(first + sep, Join(rest, sep), sep + Join(b, sep));
    }
  }

  lemma JoinAssociates(a: string, b: string, c: string)
    ensures a + b + c == a + (b + c)
  {
  }
}
