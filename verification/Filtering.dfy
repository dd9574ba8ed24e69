/** List comprehensions with a condition: the rows that satisfy it, in order. */
module Filtering {

  function Where<T>(s: seq<T>, p: T -> bool): (r: seq<T>)
    ensures |r| <= |s|
  {
    if s == [] then [] else Where(s[..|s| - 1], p) + if p(s[|s| - 1]) then [s[|s| - 1]] else []
  }

  lemma {:induction false} WhereMembers<T(!new)>(s: seq<T>, p: T -> bool)
    ensures forall x :: x in Where(s, p) <==> x in s && p(x)
    decreases |s|
  {
    if s != [] {
      WhereMembers(s[..|s| - 1], p);
      assert s == s[..|s| - 1] + [s[|s| - 1]];
    }
  }

  lemma WhereNone<T(!new)>(s: seq<T>, p: T -> bool)
    ensures Where(s, p) == [] <==> forall x | x in s :: !p(x)
  {
    WhereMembers(s, p);
    assert Where(s, p) == [] || Where(s, p)[0] in Where(s, p);
  }

  lemma {:induction false} WhereSame<T(!new)>(s: seq<T>, p: T -> bool, q: T -> bool)
    requires forall x | x in s :: p(x) == q(x)
    ensures Where(s, p) == Where(s, q)
    decreases |s|
  {
    if s != [] {
      assert s[|s| - 1] in s;
      WhereSame(s[..|s| - 1], p, q);
    }
  }

  lemma WhereNothing<T(!new)>(s: seq<T>, p: T -> bool)
    requires s == []
    ensures Where(s, p) == []
  {}

  lemma WhereStep<T(!new)>(s: seq<T>, n: nat, p: T -> bool)
    requires n < |s|
    ensures Where(s[..n + 1], p) == Where(s[..n], p) + if p(s[n]) then [s[n]] else []
  {
    assert s[..n + 1][..n] == s[..n];
  }

  /** Filtering twice is filtering by both conditions. */
  lemma {:induction false} WhereTwice<T(!new)>(s: seq<T>, p: T -> bool, q: T -> bool, both: T -> bool)
    requires forall x :: both(x) <==> p(x) && q(x)
    ensures Where(Where(s, p), q) == Where(s, both)
    decreases |s|
  {
    if s != [] {
      WhereTwice(s[..|s| - 1], p, q, both);
      var front, x := Where(s[..|s| - 1], p), s[|s| - 1];
      if p(x) {
        assert (front + [x])[..|front|] == front;
      } else {
        assert front + [] == front;
      }
    }
  }
}
