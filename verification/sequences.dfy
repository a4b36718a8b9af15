/** Facts about sequences that the router's scan order relies on. */
module Sequences {

  /** `s` is obtained from `t` by dropping some elements and keeping the rest
      in their order. */
  predicate IsSubsequence<T(==)>(s: seq<T>, t: seq<T>)
  {
    if |s| == 0 then true
    else if |t| == 0 then false
    else
      || (s[|s| - 1] == t[|t| - 1] && IsSubsequence(s[..|s| - 1], t[..|t| - 1]))
      || IsSubsequence(s, t[..|t| - 1])
  }

  predicate NoDuplicates<T(==)>(s: seq<T>)
  {
    forall i, j :: 0 <= i < j < |s| ==> s[i] != s[j]
  }

  /** `xs` with every occurrence of `x` taken out, the rest in order. */
  function Without<T(==,!new)>(xs: seq<T>, x: T): (r: seq<T>)
    ensures forall y :: y in r <==> y in xs && y != x
    ensures |r| <= |xs|
  {
    if |xs| == 0 then []
    else if xs[|xs| - 1] == x then Without(xs[..|xs| - 1], x)
    else Without(xs[..|xs| - 1], x) + [xs[|xs| - 1]]
  }

  lemma {:induction false} WithoutIsSubsequence<T(!new)>(xs: seq<T>, x: T)
    ensures IsSubsequence(Without(xs, x), xs)
  {
    if |xs| > 0 {
      var init := xs[..|xs| - 1];
      WithoutIsSubsequence(init, x);
      if xs[|xs| - 1] != x {
        assert Without(xs, x)[..|Without(xs, x)| - 1] == Without(init, x);
      }
    }
  }

  lemma {:induction false} WithoutKeepsDistinct<T(!new)>(xs: seq<T>, x: T)
    requires NoDuplicates(xs)
    ensures NoDuplicates(Without(xs, x))
  {
    if |xs| > 0 {
      var init := xs[..|xs| - 1];
      WithoutKeepsDistinct(init, x);
      var last := xs[|xs| - 1];
      assert last !in init;
    }
  }
}
