/** The nine patterns match exactly the texts they are for. */
module Exactness {
  import opened Prelude
  import opened Regex
  import opened Languages
  import opened Redaction
  import opened SecretTexts

  lemma SameCharacters(c: char)
    ensures Word(c) <==> IsWordChar(c)
    ensures Space(c) <==> IsBlank(c)
    ensures Digit(c) <==> IsDigit(c)
  {}

  lemma FoldExact(c: char, d: char)
    requires 'a' <= d <= 'z'
    ensures In(Fold(d), c) <==> SameLetter(c, d)
  {}

  lemma {:induction false} LettersSpread(w: string)
    ensures Fixed(Letters(w))
    ensures |Spread(Letters(w))| == |w| && forall i | 0 <= i < |w| :: Spread(Letters(w))[i] == Fold(w[i])
    decreases |w|
  {
    if w != "" {
      LettersSpread(w[1..]);
      assert Letters(w)[1..] == Letters(w[1..]);
      assert Spread(Letters(w)) == Times(Fold(w[0]), 1) + Spread(Letters(w[1..]));
    }
  }

  lemma LettersExact(w: string, h: string)
    requires LowerCase(w)
    ensures Lang(Letters(w), h) <==> Spells(h, w)
  {
    hide Lang, In, SameLetter;
    LettersSpread(w);
    FixedLang(Letters(w), h);
    forall i | 0 <= i < |h| && |h| == |w| ensures In(Fold(w[i]), h[i]) <==> SameLetter(h[i], w[i]) {
      FoldExact(h[i], w[i]);
    }
  }

  lemma KeySpread()
    ensures Fixed(WIREGUARD_KEY.atoms)
    ensures Spread(WIREGUARD_KEY.atoms) == Times(Base64, 43) + [Lit('=')]
  {
    var atoms := WIREGUARD_KEY.atoms;
    assert atoms[1..] == [One(Lit('='))] && atoms[1..][1..] == [];
    assert Spread(atoms[1..]) == Times(Lit('='), 1) + [] == [Lit('=')];
  }

  lemma KeyExact(h: string)
    ensures Lang(WIREGUARD_KEY.atoms, h) <==> KeyText(h)
  {
    hide Lang, Spread;
    KeySpread();
    FixedLang(WIREGUARD_KEY.atoms, h);
    var classes := Times(Base64, 43) + [Lit('=')];
    assert |classes| == 44 && classes[43] == Lit('=') && forall i | 0 <= i < 43 :: classes[i] == Base64;
  }

  lemma OneLang(a: Atom, h: string)
    ensures Lang([a], h) <==> Rep(a, h)
  {
    hide Rep;
    assert [a][1..] == [];
    if Lang([a], h) {
      var n := LangHead([a], h);
      LangNil(h[n..]);
      assert h[..n] == h;
    }
    if Rep(a, h) {
      LangNil("");
      LangGlue([a], h, "");
      assert h + "" == h;
    }
  }

  lemma CommunityExact(h: string)
    ensures Lang(QUOTED_COMMUNITY.atoms, h) <==> CommunityText(h)
  {
    hide Lang;
    var quote, body := One(Lit('"')), Atom(Community, 8, None);
    var atoms := QUOTED_COMMUNITY.atoms;
    assert atoms == [quote] + [body] + [quote];
    if Lang(atoms, h) {
      var n := LangParts([quote] + [body], [quote], h);
      var m := LangParts([quote], [body], h[..n]);
      OneLang(quote, h[..n][..m]);
      OneLang(body, h[..n][m..]);
      OneLang(quote, h[n..]);
      assert m == 1 && n == |h| - 1;
      assert h[..n][..m][0] == h[0] && h[n..][0] == h[n];
      forall i | 1 <= i < |h| - 1 ensures In(Community, h[i]) { assert h[..n][m..][i - 1] == h[i]; }
    }
    if CommunityText(h) {
      var n := |h| - 1;
      OneLang(quote, h[..1]);
      OneLang(body, h[1..n]);
      OneLang(quote, h[n..]);
      LangConcat([quote], [body], h[..1], h[1..n]);
      LangConcat([quote] + [body], [quote], h[..1] + h[1..n], h[n..]);
      assert h[..1] + h[1..n] + h[n..] == h;
    }
  }

  lemma SpellsConcat(h: string, u: string, v: string)
    requires |u| <= |h|
    ensures Spells(h, u + v) <==> Spells(h[..|u|], u) && Spells(h[|u|..], v)
  {
    hide SameLetter;
    if Spells(h[..|u|], u) && Spells(h[|u|..], v) {
      forall i | 0 <= i < |h| ensures SameLetter(h[i], (u + v)[i]) {
        if i < |u| { assert h[..|u|][i] == h[i]; } else { assert h[|u|..][i - |u|] == h[i]; }
      }
    }
    if Spells(h, u + v) {
      forall i | 0 <= i < |u| ensures SameLetter(h[..|u|][i], u[i]) { assert (u + v)[i] == u[i]; }
      forall i | 0 <= i < |v| ensures SameLetter(h[|u|..][i], v[i]) { assert (u + v)[|u| + i] == v[i]; }
    }
  }

  /** A match of two words with an atom between them. */
  lemma CompoundParts(u: string, mid: Atom, v: string, h: string) returns (k: nat)
    requires LowerCase(u) && LowerCase(v) && Lang(Compound(u, mid, v), h)
    ensures |u| <= k && |h| == k + |v|
    ensures Spells(h[..|u|], u) && Rep(mid, h[|u|..k]) && Spells(h[k..], v)
  {
    hide Lang, Rep, SameLetter;
    k := LangParts(Letters(u) + [mid], Letters(v), h);
    var m := LangParts(Letters(u), [mid], h[..k]);
    LettersExact(u, h[..k][..m]);
    LettersExact(v, h[k..]);
    OneLang(mid, h[..k][m..]);
    assert h[..k][..m] == h[..m] && h[..k][m..] == h[m..k];
  }

  lemma CompoundMatch(u: string, mid: Atom, v: string, h: string, k: nat)
    requires LowerCase(u) && LowerCase(v) && |u| <= k <= |h|
    requires Spells(h[..|u|], u) && Rep(mid, h[|u|..k]) && Spells(h[k..], v)
    ensures Lang(Compound(u, mid, v), h)
  {
    hide Lang, Rep, SameLetter;
    LettersExact(u, h[..|u|]);
    LettersExact(v, h[k..]);
    OneLang(mid, h[|u|..k]);
    LangConcat(Letters(u), [mid], h[..|u|], h[|u|..k]);
    LangConcat(Letters(u) + [mid], Letters(v), h[..|u|] + h[|u|..k], h[k..]);
    assert h[..|u|] + h[|u|..k] + h[k..] == h;
  }

  lemma PairExact(u: string, v: string, h: string)
    requires LowerCase(u) && LowerCase(v)
    ensures Lang(Compound(u, Atom(Separator, 0, Some(1)), v), h) <==> PairText(h, u, v)
  {
    hide Lang, SameLetter;
    var mid := Atom(Separator, 0, Some(1));
    if Lang(Compound(u, mid, v), h) {
      var k := CompoundParts(u, mid, v, h);
      if k == |u| {
        SpellsConcat(h, u, v);
      } else {
        assert h[|u|..k][0] == h[|u|];
      }
    }
    if Spells(h, u + v) {
      SpellsConcat(h, u, v);
      CompoundMatch(u, mid, v, h, |u|);
    } else if PairText(h, u, v) {
      CompoundMatch(u, mid, v, h, |u| + 1);
    }
  }

  lemma HeaderExact(h: string)
    ensures Lang(CERTIFICATE.atoms, h) <==> HeaderText(h)
  {
    hide Lang, SameLetter;
    var mid := Atom(Blank, 1, None);
    if Lang(CERTIFICATE.atoms, h) {
      var k := CompoundParts("begin", mid, "certificate", h);
      forall i | 5 <= i < k ensures IsBlank(h[i]) {
        assert h[5..k][i - 5] == h[i];
        SameCharacters(h[i]);
      }
    }
    if HeaderText(h) {
      var k := |h| - 11;
      forall i | 0 <= i < k - 5 ensures In(Blank, h[5..k][i]) { SameCharacters(h[5 + i]); }
      CompoundMatch("begin", mid, "certificate", h, k);
    }
  }

  // --------------------------------------------------------------- addresses

  lemma GroupExact(h: string, i: nat, j: nat)
    requires i <= j <= |h|
    ensures Rep(OCTET, h[i..j]) <==> Group(h, i, j)
  {
    if Group(h, i, j) {
      forall k | 0 <= k < j - i ensures In(Digits, h[i..j][k]) { assert h[i..j][k] == h[i + k]; }
    }
    if Rep(OCTET, h[i..j]) {
      forall k | i <= k < j ensures IsDigit(h[k]) { assert h[i..j][k - i] == h[k]; }
    }
  }

  /** Groups and dots, told from the start of the text. */
  lemma GroupDot(atoms: seq<Atom>, h: string, i: nat) returns (a: nat)
    requires i <= |h| && Lang([OCTET, DOT] + atoms, h[i..])
    ensures i <= a < |h| && Group(h, i, a) && DotAt(h, a) && Lang(atoms, h[a + 1..])
  {
    hide Lang, Rep, Group;
    var all := [OCTET, DOT] + atoms;
    var n := LangHead(all, h[i..]);
    a := i + n;
    assert h[i..][..n] == h[i..a] && h[i..][n..] == h[a..];
    GroupExact(h, i, a);
    assert all[1..] == [DOT] + atoms;
    var m := LangHead(all[1..], h[a..]);
    DotRep(h[a..][..m]);
    assert all[1..][1..] == atoms && h[a..][1..] == h[a + 1..];
  }

  lemma DotRep(u: string)
    ensures Rep(DOT, u) <==> u == "."
  {
    if Rep(DOT, u) { assert u == [u[0]]; }
  }

  lemma DotGroup(atoms: seq<Atom>, h: string, i: nat, a: nat)
    requires i <= a < |h| && Group(h, i, a) && DotAt(h, a) && Lang(atoms, h[a + 1..])
    ensures Lang([OCTET, DOT] + atoms, h[i..])
  {
    hide Lang, Rep, Group;
    var all := [OCTET, DOT] + atoms;
    GroupExact(h, i, a);
    DotRep(".");
    assert all[1..] == [DOT] + atoms && all[1..][1..] == atoms;
    LangGlue(all[1..], ".", h[a + 1..]);
    assert "." + h[a + 1..] == h[a..];
    LangGlue(all, h[i..a], h[a..]);
    assert h[i..a] + h[a..] == h[i..];
  }

  lemma AddressExact(h: string)
    ensures Lang(IPV4.atoms, h) <==> AddressText(h)
  {
    hide Lang, Rep, Group;
    var one, two, three := [OCTET], [OCTET, DOT] + [OCTET], [OCTET, DOT] + ([OCTET, DOT] + [OCTET]);
    assert IPV4.atoms == [OCTET, DOT] + three && h[0..] == h;
    if Lang(IPV4.atoms, h) {
      var a := GroupDot(three, h, 0);
      var b := GroupDot(two, h, a + 1);
      var c := GroupDot(one, h, b + 1);
      OneLang(OCTET, h[c + 1..]);
      assert h[c + 1..] == h[c + 1..|h|];
      GroupExact(h, c + 1, |h|);
      assert Dotted(h, a, b, c);
    }
    if AddressText(h) {
      var a: nat, b: nat, c: nat :| Dotted(h, a, b, c);
      assert h[c + 1..] == h[c + 1..|h|];
      GroupExact(h, c + 1, |h|);
      OneLang(OCTET, h[c + 1..]);
      GroupOrder(h, a + 1, b);
      GroupOrder(h, b + 1, c);
      DotGroup(one, h, b + 1, c);
      DotGroup(two, h, a + 1, b);
      DotGroup(three, h, 0, a);
    }
  }

  lemma GroupOrder(h: string, i: int, j: int)
    requires Group(h, i, j)
    ensures 0 <= i < j <= |h|
  {}

  /** The table of patterns: what each matches and where it asks for a boundary. */
  lemma PatternsExact(i: nat, h: string)
    requires i < |SecretPatterns()|
    ensures |SecretPatterns()| == 8
    ensures Lang(SecretPatterns()[i].atoms, h) <==> SecretOfKind(i, h)
    ensures SecretPatterns()[i].left <==> BoundInFront(i)
    ensures SecretPatterns()[i].right <==> BoundBehind(i)
  {
    hide Lang, KeyText, CommunityText, Spells, PairText, HeaderText;
    KeyExact(h);
    CommunityExact(h);
    LettersExact("password", h);
    LettersExact("token", h);
    LettersExact("secret", h);
    PairExact("private", "key", h);
    PairExact("api", "key", h);
    HeaderExact(h);
  }
}
