/** `sorted` on a set of texts: the one ascending enumeration. */
module Sorting {

  /** Order of texts by code point. */
  predicate Below(a: string, b: string) {
    b != "" && (a == "" || a[0] < b[0] || (a[0] == b[0] && Below(a[1..], b[1..])))
  }

  /** a and b agree up to position k, and there a has the smaller character. */
  predicate SmallerAt(a: string, b: string, k: nat) {
    k < |a| && k < |b| && a[..k] == b[..k] && a[k] < b[k]
  }

  /** a comes before b exactly if it is a proper beginning of b, or has the smaller
    * character where they first differ.
    */
  lemma {:induction false} BelowExact(a: string, b: string)
    ensures Below(a, b) <==> (a < b || exists k: nat :: SmallerAt(a, b, k))
    decreases |a|
  {
    hide SmallerAt;
    if a == "" || b == "" {
      forall k: nat ensures !SmallerAt(a, b, k) { NothingSmaller(a, b, k); }
    } else if a[0] == b[0] {
      BelowExact(a[1..], b[1..]);
      PrefixTail(a, b);
      forall k: nat ensures SmallerAt(a[1..], b[1..], k) <==> SmallerAt(a, b, k + 1) { SmallerLater(a, b, k); }
      NotAtStart(a, b);
      if k: nat :| SmallerAt(a, b, k) {
        SmallerLater(a, b, k - 1);
        assert SmallerAt(a[1..], b[1..], k - 1);
      }
    } else {
      forall k: nat ensures SmallerAt(a, b, k) <==> k == 0 && a[0] < b[0] { SmallerFirst(a, b, k); }
      assert SmallerAt(a, b, 0) <==> a[0] < b[0];
      assert !(a <= b);
    }
  }

  lemma NothingSmaller(a: string, b: string, k: nat)
    requires a == "" || b == ""
    ensures !SmallerAt(a, b, k)
  {}

  lemma NotAtStart(a: string, b: string)
    requires a != "" && b != "" && a[0] == b[0]
    ensures !SmallerAt(a, b, 0)
  {}

  lemma SmallerFirst(a: string, b: string, k: nat)
    requires a != "" && b != "" && a[0] != b[0]
    ensures SmallerAt(a, b, k) <==> k == 0 && a[0] < b[0]
  {
    if 0 < k && k < |a| && k < |b| {
      assert a[..k][0] == a[0] && b[..k][0] == b[0];
    }
  }

  lemma SmallerLater(a: string, b: string, k: nat)
    requires a != "" && b != "" && a[0] == b[0]
    ensures SmallerAt(a[1..], b[1..], k) <==> SmallerAt(a, b, k + 1)
  {
    if k + 1 < |a| && k + 1 < |b| {
      assert a[..k + 1] == [a[0]] + a[1..][..k] && b[..k + 1] == [b[0]] + b[1..][..k];
      assert a[1..][..k] == a[..k + 1][1..] && b[1..][..k] == b[..k + 1][1..];
    }
  }

  lemma PrefixTail(a: string, b: string)
    requires a != "" && b != "" && a[0] == b[0]
    ensures a < b <==> a[1..] < b[1..]
  {
    assert a == [a[0]] + a[1..] && b == [b[0]] + b[1..];
  }

  lemma {:induction false} BelowTransitive(a: string, b: string, c: string)
    requires Below(a, b) && Below(b, c)
    ensures Below(a, c)
    decreases |a|
  {
    if a != "" && a[0] == b[0] == c[0] { BelowTransitive(a[1..], b[1..], c[1..]); }
  }

  lemma {:induction false} BelowTotal(a: string, b: string)
    ensures a == b || Below(a, b) || Below(b, a)
    ensures !(Below(a, b) && Below(b, a)) && !Below(a, a)
    decreases |a| + |b|
  {
    if a != "" && b != "" && a[0] == b[0] {
      BelowTotal(a[1..], b[1..]);
      assert a == [a[0]] + a[1..] && b == [b[0]] + b[1..];
    }
    if a != "" { BelowIrreflexive(a); }
  }

  lemma {:induction false} BelowIrreflexive(a: string)
    ensures !Below(a, a)
    decreases |a|
  {
    if a != "" { BelowIrreflexive(a[1..]); }
  }

  ghost predicate Ascends(r: seq<string>) {
    forall i, j | 0 <= i < j < |r| :: Below(r[i], r[j])
  }

  /** r lists exactly the members of s, in ascending order. */
  ghost predicate Enumerates(r: seq<string>, s: set<string>) {
    Ascends(r) && forall x :: x in r <==> x in s
  }

  /** There is at most one ascending enumeration. */
  lemma {:induction false} EnumerationUnique(a: seq<string>, b: seq<string>, s: set<string>)
    requires Enumerates(a, s) && Enumerates(b, s)
    ensures a == b
    decreases |a|
  {
    assert b == [] || b[0] in b;
    if a != [] {
      assert a[0] in a && a[0] in b;
      assert b[0] in a;
      SameFirst(a, b);
      TailEnumerates(a, s);
      TailEnumerates(b, s);
      EnumerationUnique(a[1..], b[1..], s - {a[0]});
      assert a == [a[0]] + a[1..] && b == [b[0]] + b[1..];
    }
  }

  lemma SameFirst(a: seq<string>, b: seq<string>)
    requires a != [] && b != [] && Ascends(a) && Ascends(b)
    requires a[0] in b && b[0] in a
    ensures a[0] == b[0]
  {
    var i :| 0 <= i < |b| && b[i] == a[0];
    var j :| 0 <= j < |a| && a[j] == b[0];
    BelowTotal(a[0], b[0]);
  }

  lemma TailEnumerates(a: seq<string>, s: set<string>)
    requires Enumerates(a, s) && a != []
    ensures Enumerates(a[1..], s - {a[0]})
  {
    BelowIrreflexive(a[0]);
    forall x ensures x in a[1..] <==> x in s - {a[0]} {
      assert a == [a[0]] + a[1..];
      if x in a[1..] {
        var i :| 0 <= i < |a[1..]| && a[1..][i] == x;
        assert a[i + 1] == x && Below(a[0], a[i + 1]);
      }
    }
  }

  /** Insert x into an ascending list that does not hold it. */
  function Insert(x: string, r: seq<string>): seq<string> {
    if r == [] || Below(x, r[0]) then [x] + r else [r[0]] + Insert(x, r[1..])
  }

  lemma {:induction false} InsertEnumerates(x: string, r: seq<string>, s: set<string>)
    requires Enumerates(r, s) && x !in s
    ensures Enumerates(Insert(x, r), s + {x})
    decreases |r|
  {
    var t := Insert(x, r);
    if r == [] {
    } else if Below(x, r[0]) {
      forall j | 0 <= j < |r| ensures Below(x, r[j]) {
        if j > 0 { BelowTransitive(x, r[0], r[j]); }
      }
    } else {
      assert r[0] in r;
      BelowTotal(x, r[0]);
      TailEnumerates(r, s);
      InsertEnumerates(x, r[1..], s - {r[0]});
      var u := Insert(x, r[1..]);
      assert t == [r[0]] + u;
      forall j | 0 <= j < |u| ensures Below(r[0], u[j]) {
        assert u[j] in u;
        if u[j] != x {
          assert u[j] in r[1..];
          var k :| 0 <= k < |r[1..]| && r[1..][k] == u[j];
          assert r[k + 1] == u[j];
        }
      }
    }
  }

  lemma {:induction false} EnumerationExists(s: set<string>) returns (r: seq<string>)
    ensures Enumerates(r, s)
    decreases |s|
  {
    if s == {} {
      r := [];
    } else {
      var x :| x in s;
      r := EnumerationExists(s - {x});
      InsertEnumerates(x, r, s - {x});
      assert s - {x} + {x} == s;
      r := Insert(x, r);
    }
  }

  lemma EnumerationGiven(s: set<string>)
    ensures exists r :: Enumerates(r, s)
  {
    var r := EnumerationExists(s);
  }

  ghost function Sorted(s: set<string>): (r: seq<string>)
    ensures Enumerates(r, s)
  {
    EnumerationGiven(s);
    var r :| Enumerates(r, s);
    r
  }

  /** `sorted(s)`. */
  method Sort(s: set<string>) returns (r: seq<string>)
    ensures r == Sorted(s)
  {
    r := [];
    var left := s;
    while left != {}
      invariant left <= s && Enumerates(r, s - left)
      decreases |left|
    {
      var x :| x in left;
      InsertEnumerates(x, r, s - left);
      assert s - (left - {x}) == (s - left) + {x};
      r := Insert(x, r);
      left := left - {x};
    }
    assert s - {} == s;
    EnumerationUnique(r, Sorted(s), s);
  }
}
