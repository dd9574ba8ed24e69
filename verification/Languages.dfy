/** What the body of a pattern matches, told character by character. */
module Languages {
  import opened Prelude
  import opened Regex

  lemma LangNil(w: string)
    ensures Lang([], w) <==> w == ""
  {}

  lemma LangHead(atoms: seq<Atom>, w: string) returns (n: nat)
    requires Lang(atoms, w) && atoms != []
    ensures n <= |w| && Rep(atoms[0], w[..n]) && Lang(atoms[1..], w[n..])
  {
    n :| n <= |w| && Rep(atoms[0], w[..n]) && Lang(atoms[1..], w[n..]);
  }

  lemma LangGlue(atoms: seq<Atom>, u: string, v: string)
    requires atoms != [] && Rep(atoms[0], u) && Lang(atoms[1..], v)
    ensures Lang(atoms, u + v)
  {
    hide Rep, Lang;
    var s := u + v;
    assert s[..|u|] == u && s[|u|..][..|s| - |u|] == v && s[..|s|] == s;
    LangCons(atoms, s, |u|, |s|);
  }

  lemma {:induction false} LangConcat(a: seq<Atom>, b: seq<Atom>, u: string, v: string)
    requires Lang(a, u) && Lang(b, v)
    ensures Lang(a + b, u + v)
    decreases |a|
  {
    hide Rep, Lang;
    if a == [] {
      LangNil(u);
      assert a + b == b && u + v == v;
    } else {
      var n := LangHead(a, u);
      LangConcat(a[1..], b, u[n..], v);
      assert (a + b)[1..] == a[1..] + b && u[..n] + (u[n..] + v) == u + v;
      LangGlue(a + b, u[..n], u[n..] + v);
    }
  }

  /** A match of two bodies in a row falls into a match of each. */
  lemma {:induction false} LangParts(a: seq<Atom>, b: seq<Atom>, w: string) returns (n: nat)
    requires Lang(a + b, w)
    ensures n <= |w| && Lang(a, w[..n]) && Lang(b, w[n..])
    decreases |a|
  {
    hide Rep, Lang;
    if a == [] {
      n := 0;
      LangNil(w[..0]);
      assert a + b == b && w[0..] == w;
    } else {
      var m := LangHead(a + b, w);
      assert (a + b)[1..] == a[1..] + b;
      var k := LangParts(a[1..], b, w[m..]);
      n := m + k;
      assert w[m..][..k] == w[m..n] && w[m..][k..] == w[n..];
      assert w[..n] == w[..m] + w[m..n];
      LangGlue(a, w[..m], w[m..n]);
    }
  }

  // ------------------------------------------------------------- fixed widths

  function Times(cls: CharClass, n: nat): seq<CharClass> { seq(n, i => cls) }

  /** One class for every character of a match. */
  function Spread(atoms: seq<Atom>): seq<CharClass> {
    if atoms == [] then [] else Times(atoms[0].cls, atoms[0].lo) + Spread(atoms[1..])
  }

  ghost predicate Fixed(atoms: seq<Atom>) {
    forall i | 0 <= i < |atoms| :: atoms[i].hi == Some(atoms[i].lo)
  }

  predicate Fits(classes: seq<CharClass>, w: string) {
    |w| == |classes| && forall i | 0 <= i < |w| :: In(classes[i], w[i])
  }

  lemma FitsConcat(a: seq<CharClass>, b: seq<CharClass>, w: string)
    requires |a| <= |w|
    ensures Fits(a + b, w) <==> Fits(a, w[..|a|]) && Fits(b, w[|a|..])
  {
    hide In;
    if Fits(a, w[..|a|]) && Fits(b, w[|a|..]) {
      forall i | 0 <= i < |w| ensures In((a + b)[i], w[i]) {
        if i < |a| { assert w[..|a|][i] == w[i]; } else { assert w[|a|..][i - |a|] == w[i]; }
      }
    }
    if Fits(a + b, w) {
      forall i | 0 <= i < |a| ensures In(a[i], w[..|a|][i]) { assert (a + b)[i] == a[i]; }
      forall i | 0 <= i < |b| ensures In(b[i], w[|a|..][i]) { assert (a + b)[|a| + i] == b[i]; }
    }
  }

  lemma FixedRep(a: Atom, u: string)
    requires a.hi == Some(a.lo)
    ensures Rep(a, u) <==> Fits(Times(a.cls, a.lo), u)
  {}

  /** A body of fixed repetitions matches exactly the texts that fit, character by
    * character.
    */
  lemma {:induction false} FixedLang(atoms: seq<Atom>, w: string)
    requires Fixed(atoms)
    ensures Lang(atoms, w) <==> Fits(Spread(atoms), w)
    decreases |atoms|
  {
    hide Rep, Fits, Lang, Times;
    if atoms == [] {
      LangNil(w);
      NothingFits(w);
    } else {
      var n, rest := atoms[0].lo, Spread(atoms[1..]);
      TimesLength(atoms[0].cls, n);
      if Lang(atoms, w) {
        var m := LangHead(atoms, w);
        FixedRep(atoms[0], w[..m]);
        FitsLength(atoms[0], w[..m]);
        FixedLang(atoms[1..], w[m..]);
        FitsConcat(Times(atoms[0].cls, n), rest, w);
      }
      if Fits(Spread(atoms), w) {
        WidthsAdd(Times(atoms[0].cls, n), rest, w);
        FitsConcat(Times(atoms[0].cls, n), rest, w);
        FixedRep(atoms[0], w[..n]);
        FixedLang(atoms[1..], w[n..]);
        assert w == w[..n] + w[n..];
        LangGlue(atoms, w[..n], w[n..]);
      }
    }
  }

  lemma NothingFits(w: string)
    ensures Fits([], w) <==> w == ""
  {}

  lemma FitsLength(a: Atom, u: string)
    requires Fits(Times(a.cls, a.lo), u)
    ensures |u| == a.lo == |Times(a.cls, a.lo)|
  {}

  lemma WidthsAdd(a: seq<CharClass>, b: seq<CharClass>, w: string)
    requires Fits(a + b, w)
    ensures |w| == |a| + |b|
  {}

  lemma TimesLength(cls: CharClass, n: nat)
    ensures |Times(cls, n)| == n
  {}
}
