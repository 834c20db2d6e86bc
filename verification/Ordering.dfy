/** Byte-wise string order, and the sorted listing of a finite set of strings.

    Go's `sort.Strings` appears wherever the wiki compiler turns a map into a list, so
    "the keys of this map, sorted" is the specification most of those loops need. */
module Ordering {

  predicate LessEq(a: string, b: string) {
    a == "" || (b != "" && (a[0] < b[0] || (a[0] == b[0] && LessEq(a[1..], b[1..]))))
  }

  predicate Less(a: string, b: string) {
    a != b && LessEq(a, b)
  }

  lemma {:induction false} LessEqTotal(a: string, b: string)
    ensures LessEq(a, b) || LessEq(b, a)
  {
    if a != "" && b != "" && a[0] == b[0] {
      LessEqTotal(a[1..], b[1..]);
    }
  }

  lemma {:induction false} LessEqAntisymmetric(a: string, b: string)
    requires LessEq(a, b) && LessEq(b, a)
    ensures a == b
  {
    if a != "" && b != "" {
      LessEqAntisymmetric(a[1..], b[1..]);
      assert a == [a[0]] + a[1..] && b == [b[0]] + b[1..];
    }
  }

  lemma {:induction false} LessEqTransitive(a: string, b: string, c: string)
    requires LessEq(a, b) && LessEq(b, c)
    ensures LessEq(a, c)
  {
    if a != "" && a[0] == b[0] == c[0] {
      LessEqTransitive(a[1..], b[1..], c[1..]);
    }
  }

  /** The order is that of the first character in which two strings differ; a prefix comes first. */
  lemma {:induction false} OrderOfFirstDifference(a: string, b: string, i: nat)
    requires i <= |a| && i <= |b| && a[..i] == b[..i]
    requires (i == |a| && i < |b|) || (i < |a| && i < |b| && a[i] < b[i])
    ensures Less(a, b) && !Less(b, a)
  {
    if i > 0 {
      assert a[0] == a[..i][0] == b[..i][0] == b[0];
      assert a[1..][..i - 1] == a[..i][1..] == b[..i][1..] == b[1..][..i - 1];
      OrderOfFirstDifference(a[1..], b[1..], i - 1);
    }
  }

  lemma LessExact(a: string, b: string)
    ensures !(Less(a, b) && Less(b, a))
    ensures a == b || Less(a, b) || Less(b, a)
  {
    LessEqTotal(a, b);
    if LessEq(a, b) && LessEq(b, a) {
      LessEqAntisymmetric(a, b);
    }
  }

  ghost predicate Sorted(s: seq<string>) {
    forall i, j | 0 <= i < j < |s| :: LessEq(s[i], s[j])
  }

  ghost predicate StrictlySorted(s: seq<string>) {
    forall i, j | 0 <= i < j < |s| :: Less(s[i], s[j])
  }

  function Elements<T(!new)>(s: seq<T>): (r: set<T>)
    ensures forall x :: x in r <==> x in s
  {
    set x | x in s
  }

  /** The step of an insertion sort. */
  function Insert(x: string, s: seq<string>): seq<string> {
    if s == [] || LessEq(x, s[0]) then [x] + s else [s[0]] + Insert(x, s[1..])
  }

  lemma {:induction false} InsertElements(x: string, s: seq<string>)
    ensures multiset(Insert(x, s)) == multiset(s) + multiset{x}
  {
    if s != [] && !LessEq(x, s[0]) {
      InsertElements(x, s[1..]);
      assert s == [s[0]] + s[1..];
    }
  }

  lemma {:induction false} InsertSorted(x: string, s: seq<string>)
    requires Sorted(s)
    ensures Sorted(Insert(x, s))
  {
    if s == [] {
    } else if LessEq(x, s[0]) {
      PrependSorted(x, s);
    } else {
      InsertSorted(x, s[1..]);
      LessEqTotal(s[0], x);
      PrependSorted(s[0], Insert(x, s[1..]));
    }
  }

  lemma PrependSorted(x: string, s: seq<string>)
    requires Sorted(s) && s != [] && LessEq(x, s[0])
    ensures Sorted([x] + s)
  {
    forall i | 0 <= i < |s|
      ensures LessEq(x, s[i])
    {
      if i > 0 {
        LessEqTransitive(x, s[0], s[i]);
      }
    }
  }

  /** `sort.Strings`. */
  function SortStrings(s: seq<string>): (r: seq<string>)
    ensures Sorted(r)
    ensures multiset(r) == multiset(s)
    ensures |r| == |s|
    ensures forall x :: x in r <==> x in s
  {
    if s == [] then [] else
      assert s == [s[0]] + s[1..];
      var rest := SortStrings(s[1..]);
      var r := Insert(s[0], rest);
      InsertElements(s[0], rest);
      InsertSorted(s[0], rest);
      SameElements(r, s);
      r
  }

  lemma SameElements<T(!new)>(a: seq<T>, b: seq<T>)
    requires multiset(a) == multiset(b)
    ensures |a| == |b|
    ensures forall x :: x in a <==> x in b
  {
    assert |a| == |multiset(a)| == |multiset(b)| == |b|;
    forall x
      ensures x in a <==> x in b
    {
      assert x in multiset(a) <==> x in multiset(b);
    }
  }

  /** The members of a finite set in increasing order, each exactly once. */
  ghost function SortedListing(s: set<string>): (r: seq<string>)
    ensures StrictlySorted(r)
    ensures forall x :: x in r <==> x in s
    ensures |r| == |s|
  {
    if s == {} then [] else
      var x :| x in s;
      var rest := SortedListing(s - {x});
      InsertNew(x, rest);
      Insert(x, rest)
  }

  lemma InsertNew(x: string, rest: seq<string>)
    requires StrictlySorted(rest) && x !in rest
    ensures var r := Insert(x, rest);
            StrictlySorted(r) && |r| == |rest| + 1 && forall y :: y in r <==> y == x || y in rest
  {
    var r := Insert(x, rest);
    InsertElements(x, rest);
    InsertSorted(x, rest);
    assert multiset(r) == multiset([x] + rest);
    SameElements(r, [x] + rest);
    forall y | y in r
      ensures multiset(r)[y] <= 1
    {
      CountOfDistinct(rest, y);
    }
    CountsGiveDistinct(r);
  }

  /** No value counted twice means no two equal positions. */
  lemma {:induction false} CountsGiveDistinct<T>(r: seq<T>)
    requires forall y | y in r :: multiset(r)[y] <= 1
    ensures forall i, j | 0 <= i < j < |r| :: r[i] != r[j]
  {
    if r != [] {
      var rest := r[1..];
      assert r == [r[0]] + rest;
      assert multiset(r) == multiset{r[0]} + multiset(rest);
      forall y | y in rest
        ensures multiset(rest)[y] <= 1 && y != r[0]
      {
        assert y in r && multiset(rest)[y] >= 1;
      }
      CountsGiveDistinct(rest);
      forall i, j | 0 <= i < j < |r|
        ensures r[i] != r[j]
      {
        assert r[j] == rest[j - 1] && rest[j - 1] in rest;
      }
    }
  }

  lemma {:induction false} CountOfDistinct<T>(s: seq<T>, x: T)
    requires forall i, j | 0 <= i < j < |s| :: s[i] != s[j]
    ensures multiset(s)[x] <= 1
  {
    if s != [] {
      var rest := s[1..];
      assert s == [s[0]] + rest;
      CountOfDistinct(rest, x);
      if x == s[0] {
        assert x !in rest;
      }
    }
  }

  /** A strictly sorted list is determined by its members. */
  lemma {:induction false} StrictlySortedUnique(a: seq<string>, b: seq<string>)
    requires StrictlySorted(a) && StrictlySorted(b)
    requires forall x :: x in a <==> x in b
    ensures a == b
  {
    assert a != [] ==> a[0] in a;
    assert b != [] ==> b[0] in b;
    if a != [] && b != [] {
      HeadIsLeast(a, b[0]);
      HeadIsLeast(b, a[0]);
      LessEqAntisymmetric(a[0], b[0]);
      forall x
        ensures x in a[1..] <==> x in b[1..]
      {
        TailMember(a, x);
        TailMember(b, x);
      }
      StrictlySortedUnique(a[1..], b[1..]);
      assert a == [a[0]] + a[1..] && b == [b[0]] + b[1..];
    }
  }

  lemma HeadIsLeast(a: seq<string>, x: string)
    requires StrictlySorted(a) && x in a
    ensures LessEq(a[0], x)
  {
    var i :| 0 <= i < |a| && a[i] == x;
    if i == 0 { LessEqTotal(x, x); }
  }

  lemma TailMember(a: seq<string>, x: string)
    requires StrictlySorted(a) && a != []
    ensures x in a[1..] <==> x in a && x != a[0]
  {
    if x in a && x != a[0] {
      var i :| 0 <= i < |a| && a[i] == x;
      assert a[1..][i - 1] == x;
    }
  }

  lemma SortedDistinctIsStrict(s: seq<string>, r: seq<string>)
    requires forall i, j | 0 <= i < j < |s| :: s[i] != s[j]
    requires Sorted(r) && multiset(r) == multiset(s)
    ensures StrictlySorted(r)
  {
    forall y | y in r
      ensures multiset(r)[y] <= 1
    {
      CountOfDistinct(s, y);
    }
    CountsGiveDistinct(r);
  }

  /** Sorting a duplicate-free list yields the sorted listing of its members. */
  lemma SortStringsOfDistinct(s: seq<string>)
    requires forall i, j | 0 <= i < j < |s| :: s[i] != s[j]
    ensures SortStrings(s) == SortedListing(Elements(s))
  {
    SortedDistinctIsStrict(s, SortStrings(s));
    StrictlySortedUnique(SortStrings(s), SortedListing(Elements(s)));
  }

  /** Collecting the keys of a Go map in whatever order it yields them, then `sort.Strings`. */
  method SortSet(s: set<string>) returns (r: seq<string>)
    ensures r == SortedListing(s)
  {
    var keys: seq<string> := [];
    var remaining := s;
    while remaining != {}
      invariant remaining <= s
      invariant forall x :: x in keys <==> x in s - remaining
      invariant forall i, j | 0 <= i < j < |keys| :: keys[i] != keys[j]
      decreases remaining
    {
      var key :| key in remaining;
      assert key !in keys && forall i | 0 <= i < |keys| :: keys[i] in keys;
      keys, remaining := keys + [key], remaining - {key};
    }
    SortStringsOfDistinct(keys);
    assert Elements(keys) == s;
    r := SortStrings(keys);
  }
}
