/**
 * Manifest include and exclude patterns (internal/knowledge/manifest.go): the two-row
 * dynamic program that decides a glob, against the backtracking meaning of the pattern.
 * `path.Match` on one segment stays uninterpreted: it is the function `matches`, true
 * when the call returns no error and a match.
 */
module Glob {

  import opened Text

  const MANIFEST_FILE_NAME := "KNOWLEDGE.yaml"

  /** `strings.Split(s, "/")`: never empty, and "" gives one empty segment. */
  function Segments(s: string): (r: seq<string>)
    ensures |r| > 0
  {
    Split(s, "/")
  }

  /**
   * What a pattern means, by backtracking: "**" takes no segment or one more segment, a
   * trailing "**" takes at least one, and any other pattern segment takes exactly one
   * name segment that it matches.
   */
  predicate Matches(pattern: seq<string>, name: seq<string>, matches: (string, string) -> bool)
    decreases |pattern|, |name|
  {
    if pattern == [] then
      name == []
    else if pattern[0] == "**" then
      if |pattern| == 1 then
        name != []
      else
        Matches(pattern[1..], name, matches) || (name != [] && Matches(pattern, name[1..], matches))
    else
      name != [] && matches(pattern[0], name[0]) && Matches(pattern[1..], name[1..], matches)
  }

  /** An inner "**" takes any number of segments. */
  lemma {:induction false} InnerStarTakesAnyNumber(
      pattern: seq<string>, name: seq<string>, matches: (string, string) -> bool)
    requires |pattern| > 1 && pattern[0] == "**"
    ensures Matches(pattern, name, matches) <==>
            exists taken :: 0 <= taken <= |name| && Matches(pattern[1..], name[taken..], matches)
    decreases |name|
  {
    assert name[0..] == name;
    if name != [] {
      var rest := name[1..];
      InnerStarTakesAnyNumber(pattern, rest, matches);
      if k :| 0 <= k <= |rest| && Matches(pattern[1..], rest[k..], matches) {
        assert name[k + 1..] == rest[k..];
      }
      if taken :| 0 <= taken <= |name| && Matches(pattern[1..], name[taken..], matches) {
        if taken > 0 {
          assert name[taken..] == rest[taken - 1..];
        }
      }
    }
  }

  /** The rest of the pattern can finish the name from one of the reachable positions. */
  ghost predicate Finishes(
      reachable: seq<bool>, pattern: seq<string>, name: seq<string>, matches: (string, string) -> bool)
    requires |reachable| == |name| + 1
  {
    exists j :: 0 <= j <= |name| && reachable[j] && Matches(pattern, name[j..], matches)
  }

  lemma StartRow(reachable: seq<bool>, pattern: seq<string>, name: seq<string>, matches: (string, string) -> bool)
    requires |reachable| == |name| + 1
    requires forall j | 0 <= j <= |name| :: reachable[j] <==> j == 0
    ensures Finishes(reachable, pattern, name, matches) <==> Matches(pattern, name, matches)
  {
    assert name[0..] == name;
    assert reachable[0];
  }

  lemma EndRow(reachable: seq<bool>, name: seq<string>, matches: (string, string) -> bool)
    requires |reachable| == |name| + 1
    ensures Finishes(reachable, [], name, matches) <==> reachable[|name|]
  {
    assert name[|name|..] == [];
  }

  lemma TrailingStarRow(
      reachable: seq<bool>, pattern: seq<string>, name: seq<string>, matches: (string, string) -> bool)
    requires |reachable| == |name| + 1 && pattern == ["**"]
    ensures Finishes(reachable, pattern, name, matches) <==> exists j :: 0 <= j < |name| && reachable[j]
  {
    if j :| 0 <= j < |name| && reachable[j] {
      assert Matches(pattern, name[j..], matches);
    }
  }

  lemma StarRow(reachable: seq<bool>, next: seq<bool>,
      pattern: seq<string>, name: seq<string>, matches: (string, string) -> bool)
    requires |reachable| == |next| == |name| + 1
    requires |pattern| > 1 && pattern[0] == "**"
    requires forall j | 0 <= j <= |name| :: next[j] <==> exists k :: 0 <= k <= j && reachable[k]
    ensures Finishes(reachable, pattern, name, matches) <==> Finishes(next, pattern[1..], name, matches)
  {
    if k :| 0 <= k <= |name| && reachable[k] && Matches(pattern, name[k..], matches) {
      InnerStarTakesAnyNumber(pattern, name[k..], matches);
      var taken :| 0 <= taken <= |name[k..]| && Matches(pattern[1..], name[k..][taken..], matches);
      assert name[k..][taken..] == name[k + taken..];
      assert next[k + taken];
    }
    if j :| 0 <= j <= |name| && next[j] && Matches(pattern[1..], name[j..], matches) {
      var k :| 0 <= k <= j && reachable[k];
      InnerStarTakesAnyNumber(pattern, name[k..], matches);
      assert name[k..][j - k..] == name[j..];
      assert Matches(pattern, name[k..], matches);
    }
  }

  lemma SegmentRow(reachable: seq<bool>, next: seq<bool>,
      pattern: seq<string>, name: seq<string>, matches: (string, string) -> bool)
    requires |reachable| == |next| == |name| + 1
    requires |pattern| > 0 && pattern[0] != "**"
    requires !next[0]
    requires forall j | 0 <= j < |name| :: next[j + 1] <==> reachable[j] && matches(pattern[0], name[j])
    ensures Finishes(reachable, pattern, name, matches) <==> Finishes(next, pattern[1..], name, matches)
  {
    if k :| 0 <= k <= |name| && reachable[k] && Matches(pattern, name[k..], matches) {
      assert name[k..][1..] == name[k + 1..];
      assert next[k + 1];
    }
    if j :| 0 <= j <= |name| && next[j] && Matches(pattern[1..], name[j..], matches) {
      assert next[(j - 1) + 1];
      assert name[j - 1..][1..] == name[j..];
      assert reachable[j - 1] && Matches(pattern, name[j - 1..], matches);
    }
  }

  /** The two-row dynamic program decides exactly the backtracking meaning. */
  method MatchSegments(pattern: seq<string>, name: seq<string>, matches: (string, string) -> bool)
    returns (matched: bool)
    ensures matched <==> Matches(pattern, name, matches)
  {
    var reachable := new bool[|name| + 1](_ => false);
    var next := new bool[|name| + 1](_ => false);
    reachable[0] := true;
    StartRow(reachable[..], pattern, name, matches);
    for i := 0 to |pattern|
      invariant reachable.Length == next.Length == |name| + 1 && reachable != next
      invariant fresh(reachable) && fresh(next)
      invariant Finishes(reachable[..], pattern[i..], name, matches) <==> Matches(pattern, name, matches)
    {
      ghost var row := reachable[..];
      assert pattern[i..][1..] == pattern[i + 1..];
      Clear(next);
      if pattern[i] == "**" {
        if i == |pattern| - 1 {
          assert pattern[i..] == ["**"];
          TrailingStarRow(row, pattern[i..], name, matches);
          for j := 0 to |name|
            invariant forall k | 0 <= k < j :: !reachable[k]
          {
            if reachable[j] {
              assert row[j];
              return true;
            }
          }
          return false;
        }
        CarryForward(reachable, next);
        StarRow(row, next[..], pattern[i..], name, matches);
      } else {
        for j := 0 to |name|
          invariant reachable[..] == row
          invariant !next[0]
          invariant forall k | 0 <= k < j :: next[k + 1] <==> row[k] && matches(pattern[i], name[k])
          invariant forall k | j < k <= |name| :: !next[k]
        {
          if reachable[j] {
            if matches(pattern[i], name[j]) {
              next[j + 1] := true;
            }
          }
        }
        SegmentRow(row, next[..], pattern[i..], name, matches);
      }
      reachable, next := next, reachable;
    }
    EndRow(reachable[..], name, matches);
    assert pattern[|pattern|..] == [];
    return reachable[|name|];
  }

  method Clear(row: array<bool>)
    modifies row
    ensures forall j | 0 <= j < row.Length :: !row[j]
  {
    for j := 0 to row.Length
      invariant forall k | 0 <= k < j :: !row[k]
    {
      row[j] := false;
    }
  }

  /** An inner "**": every position from the first reachable one on becomes reachable. */
  method CarryForward(reachable: array<bool>, next: array<bool>)
    requires reachable.Length == next.Length && reachable != next
    modifies next
    ensures forall j | 0 <= j < next.Length :: next[j] <==> exists k :: 0 <= k <= j && reachable[k]
  {
    var carry := false;
    for j := 0 to next.Length
      invariant carry <==> exists k :: 0 <= k < j && reachable[k]
      invariant forall i | 0 <= i < j :: next[i] <==> exists k :: 0 <= k <= i && reachable[k]
    {
      carry := carry || reachable[j];
      next[j] := carry;
    }
  }

  predicate GlobMatches(pattern: string, path: string, matches: (string, string) -> bool) {
    Matches(Segments(pattern), Segments(path), matches)
  }

  method MatchGlob(pattern: string, name: string, matches: (string, string) -> bool) returns (matched: bool)
    ensures matched <==> GlobMatches(pattern, name, matches)
  {
    matched := MatchSegments(Segments(pattern), Segments(name), matches);
  }

  /** The documents a manifest selects: its own file never, excludes win over includes. */
  method SelectsDocument(
      includes: seq<string>, excludes: seq<string>, path: string, matches: (string, string) -> bool)
    returns (selected: bool)
    ensures selected <==>
      && path != MANIFEST_FILE_NAME
      && (includes == [] || exists p :: p in includes && GlobMatches(p, path, matches))
      && !exists p :: p in excludes && GlobMatches(p, path, matches)
  {
    if path == MANIFEST_FILE_NAME {
      return false;
    }
    if |includes| > 0 {
      var included := false;
      for i := 0 to |includes|
        invariant !included && forall k | 0 <= k < i :: !GlobMatches(includes[k], path, matches)
      {
        var matched := MatchGlob(includes[i], path, matches);
        if matched {
          included := true;
          break;
        }
      }
      if !included {
        return false;
      }
    }
    for i := 0 to |excludes|
      invariant forall k | 0 <= k < i :: !GlobMatches(excludes[k], path, matches)
    {
      var matched := MatchGlob(excludes[i], path, matches);
      if matched {
        return false;
      }
    }
    return true;
  }

  /** A pattern of literal segments and a trailing "**" selects what lies strictly below that directory. */
  lemma {:induction false} DirectoryPattern(
      directory: seq<string>, name: seq<string>, matches: (string, string) -> bool)
    requires "**" !in directory
    requires forall segment, n | segment in directory :: matches(segment, n) <==> segment == n
    ensures Matches(directory + ["**"], name, matches) <==> directory < name
    decreases |directory|
  {
    var pattern := directory + ["**"];
    if directory != [] {
      assert pattern[1..] == directory[1..] + ["**"];
      if name != [] && directory[0] == name[0] {
        DirectoryPattern(directory[1..], name[1..], matches);
        assert name == [name[0]] + name[1..] && directory == [directory[0]] + directory[1..];
      }
    }
  }

  /** "**" and one more segment selects by the last name segment, at any depth. */
  lemma AnyDepthPattern(segment: string, name: seq<string>, matches: (string, string) -> bool)
    requires segment != "**"
    ensures Matches(["**", segment], name, matches) <==> name != [] && matches(segment, name[|name| - 1])
  {
    InnerStarTakesAnyNumber(["**", segment], name, matches);
    assert ["**", segment][1..] == [segment];
    if name != [] && matches(segment, name[|name| - 1]) {
      assert name[|name| - 1..] == [name[|name| - 1]];
      assert Matches([segment], name[|name| - 1..], matches);
    }
  }

  /** The segments of a path are what lies between its slashes: put back together they are the path, and none has a
      slash in it. */
  lemma SegmentsExactly(s: string)
    ensures Join(Segments(s), "/") == s
    ensures forall segment | segment in Segments(s) :: '/' !in segment
  {
    JoinOfSplit(s, "/");
    SplitLeavesNoSeparator(s, "/");
    forall segment | segment in Segments(s) ensures '/' !in segment {
      forall i | 0 <= i < |segment| ensures segment[i] != '/' {
        assert !("/" <= segment[i..]);
      }
    }
  }

  lemma SegmentsBelow(directory: string, path: string)
    ensures Segments(directory) < Segments(path) <==> directory + "/" <= path
  {
    if directory + "/" <= path {
      var rest := path[|directory| + 1..];
      assert path == directory + (['/'] + rest);
      SplitOfConcat(directory, rest, '/');
    }
    if Segments(directory) < Segments(path) {
      var rest := Segments(path)[|Segments(directory)|..];
      assert Segments(path) == Segments(directory) + rest;
      JoinOfConcat(Segments(directory), rest, "/");
      SegmentsExactly(directory);
      SegmentsExactly(path);
    }
  }

  /** A directory, a slash and a double star select exactly the paths below it, as strings: those that go on after the
      directory and a slash. */
  lemma BelowDirectory(directory: string, path: string, matches: (string, string) -> bool)
    requires "**" !in Segments(directory)
    requires forall segment, n | segment in Segments(directory) :: matches(segment, n) <==> segment == n
    ensures GlobMatches(directory + (['/'] + "**"), path, matches) <==> directory + "/" <= path
  {
    SplitOfConcat(directory, "**", '/');
    SplitOfOnePiece("**", '/');
    DirectoryPattern(Segments(directory), Segments(path), matches);
    SegmentsBelow(directory, path);
  }
}
