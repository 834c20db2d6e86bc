/** List operations in the left-to-right form Go's `append` loops build them. */
module Lists {

  function Filter<T(!new)>(xs: seq<T>, keep: T -> bool): (r: seq<T>)
    ensures |r| <= |xs|
    ensures forall x :: x in r <==> x in xs && keep(x)
  {
    if xs == [] then [] else
      var init, last := xs[..|xs| - 1], xs[|xs| - 1];
      assert xs == init + [last];
      Filter(init, keep) + if keep(last) then [last] else []
  }

  function FlatMap<T(!new), U(!new)>(xs: seq<T>, f: T -> seq<U>): (r: seq<U>)
    ensures forall y :: y in r <==> exists x :: x in xs && y in f(x)
  {
    if xs == [] then [] else
      var init, last := xs[..|xs| - 1], xs[|xs| - 1];
      assert xs == init + [last];
      FlatMap(init, f) + f(last)
  }

  function Map<T(!new), U>(xs: seq<T>, f: T -> U): (r: seq<U>)
    ensures |r| == |xs|
    ensures forall i | 0 <= i < |xs| :: r[i] == f(xs[i])
  {
    seq(|xs|, i requires 0 <= i < |xs| => f(xs[i]))
  }

  /** A filtered list keeps the relative order of what it keeps: it is a subsequence. */
  lemma {:induction false} FilterDistinct<T(!new)>(xs: seq<T>, keep: T -> bool)
    requires forall i, j | 0 <= i < j < |xs| :: xs[i] != xs[j]
    ensures forall i, j | 0 <= i < j < |Filter(xs, keep)| :: Filter(xs, keep)[i] != Filter(xs, keep)[j]
  {
    if xs != [] {
      FilterDistinct(xs[..|xs| - 1], keep);
    }
  }

  lemma {:induction false} FilterCongruent<T(!new)>(xs: seq<T>, f: T -> bool, g: T -> bool)
    requires forall x | x in xs :: f(x) == g(x)
    ensures Filter(xs, f) == Filter(xs, g)
  {
    if xs != [] {
      var init, last := xs[..|xs| - 1], xs[|xs| - 1];
      assert xs == init + [last];
      FilterCongruent(init, f, g);
    }
  }

  lemma {:induction false} FilterAll<T(!new)>(xs: seq<T>, keep: T -> bool)
    requires forall x | x in xs :: keep(x)
    ensures Filter(xs, keep) == xs
  {
    if xs != [] {
      var init, last := xs[..|xs| - 1], xs[|xs| - 1];
      assert xs == init + [last];
      FilterAll(init, keep);
    }
  }

  lemma FilterLast<T(!new)>(init: seq<T>, last: T, keep: T -> bool)
    ensures Filter(init + [last], keep) == Filter(init, keep) + if keep(last) then [last] else []
  {
    assert (init + [last])[..|init|] == init;
  }

  lemma ConcatAssociates<T>(a: seq<T>, b: seq<T>, c: seq<T>)
    ensures (a + b) + c == a + (b + c)
  {
  }

  lemma {:induction false} FilterConcat<T(!new)>(a: seq<T>, b: seq<T>, keep: T -> bool)
    ensures Filter(a + b, keep) == Filter(a, keep) + Filter(b, keep)
  {
    if b == [] {
      assert a + b == a;
    } else {
      var init, last := b[..|b| - 1], b[|b| - 1];
      var added := if keep(last) then [last] else [];
      assert b == init + [last] && a + b == (a + init) + [last];
      FilterConcat(a, init, keep);
      FilterLast(a + init, last, keep);
      FilterLast(init, last, keep);
      ConcatAssociates(Filter(a, keep), Filter(init, keep), added);
    }
  }

  lemma FilterSnoc<T(!new)>(xs: seq<T>, i: nat, keep: T -> bool)
    requires i < |xs|
    ensures Filter(xs[..i + 1], keep) == Filter(xs[..i], keep) + if keep(xs[i]) then [xs[i]] else []
  {
    assert xs[..i + 1][..i] == xs[..i];
  }

  lemma FlatMapSnoc<T(!new), U(!new)>(xs: seq<T>, i: nat, f: T -> seq<U>)
    requires i < |xs|
    ensures FlatMap(xs[..i + 1], f) == FlatMap(xs[..i], f) + f(xs[i])
  {
    assert xs[..i + 1][..i] == xs[..i];
  }

  lemma {:induction false} FlatMapCongruent<T(!new), U(!new)>(xs: seq<T>, f: T -> seq<U>, g: T -> seq<U>)
    requires forall x | x in xs :: f(x) == g(x)
    ensures FlatMap(xs, f) == FlatMap(xs, g)
  {
    if xs != [] {
      FlatMapCongruent(xs[..|xs| - 1], f, g);
    }
  }

  lemma MapFilterSnoc<T(!new), U>(xs: seq<T>, i: nat, keep: T -> bool, f: T -> U)
    requires i < |xs|
    ensures Map(Filter(xs[..i + 1], keep), f)
         == Map(Filter(xs[..i], keep), f) + if keep(xs[i]) then [f(xs[i])] else []
  {
    FilterSnoc(xs, i, keep);
  }

  lemma MapFilterLast<T(!new), U>(init: seq<T>, last: T, keep: T -> bool, f: T -> U)
    ensures Map(Filter(init + [last], keep), f) == Map(Filter(init, keep), f) + if keep(last) then [f(last)] else []
  {
    FilterLast(init, last, keep);
  }

  lemma MapMember<T(!new), U>(xs: seq<T>, f: T -> U, y: U)
    ensures y in Map(xs, f) <==> exists x :: x in xs && y == f(x)
  {
    if y in Map(xs, f) {
      var i :| 0 <= i < |xs| && Map(xs, f)[i] == y;
      assert xs[i] in xs && y == f(xs[i]);
    }
    if x :| x in xs && y == f(x) {
      var i :| 0 <= i < |xs| && xs[i] == x;
      assert Map(xs, f)[i] == y;
    }
  }
}
