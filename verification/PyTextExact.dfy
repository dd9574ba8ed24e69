/** What the text operations of the audits mean, without their recursion. */
module PyTextExact {
  import opened Prelude
  import opened Regex
  import opened PyText
  import opened SecretTexts

  // ---------------------------------------------------------- parts of texts

  /** w occurs in s. */
  ghost predicate HasText(s: string, w: string) { exists a: string, b: string :: s == a + w + b }

  /** w occurs in s in any case. */
  ghost predicate HasAnyCase(s: string, w: string) {
    exists a: string, m: string, b: string :: s == a + m + b && Spells(m, w)
  }

  /** s begins with w in any case. */
  predicate BeginsAnyCase(s: string, w: string) { |w| <= |s| && Spells(s[..|w|], w) }

  /** No capital letters. */
  predicate Small(w: string) { forall i | 0 <= i < |w| :: !('A' <= w[i] <= 'Z') }

  lemma LowerExact(c: char, d: char)
    requires !('A' <= d <= 'Z')
    ensures ToLower(c) == d <==> SameLetter(c, d)
  {}

  lemma LoweredSpells(m: string, w: string)
    requires Small(w)
    ensures Lowered(m) == w <==> Spells(m, w)
  {
    if |m| == |w| {
      forall i | 0 <= i < |m| ensures Lowered(m)[i] == w[i] <==> SameLetter(m[i], w[i]) { LowerExact(m[i], w[i]); }
    }
    if Spells(m, w) { assert forall i | 0 <= i < |m| :: Lowered(m)[i] == w[i]; }
  }

  // -------------------------------------------------------------------- strip

  lemma {:induction false} TrimLeftParts(s: string) returns (l: string)
    ensures Blanks(l) && s == l + TrimLeft(s)
    ensures TrimLeft(s) != "" ==> !Space(TrimLeft(s)[0])
    decreases |s|
  {
    if s != "" && Space(s[0]) {
      var l' := TrimLeftParts(s[1..]);
      l := [s[0]] + l';
    } else {
      l := "";
    }
  }

  lemma {:induction false} TrimRightParts(s: string) returns (r: string)
    ensures Blanks(r) && s == TrimRight(s) + r
    ensures TrimRight(s) != "" ==> !Space(TrimRight(s)[|TrimRight(s)| - 1])
    decreases |s|
  {
    if s != "" && Space(s[|s| - 1]) {
      var r' := TrimRightParts(s[..|s| - 1]);
      r := r' + [s[|s| - 1]];
    } else {
      r := "";
    }
  }

  /** t is s without the blanks at its ends. */
  ghost predicate Bare(s: string, t: string) {
    exists l: string, r: string :: Blanks(l) && Blanks(r) && s == l + t + r && Tight(t)
  }

  /** Stripping gives the one text with tight ends that s is but for blanks. */
  lemma StripExact(s: string, t: string)
    ensures Strip(s) == t <==> Bare(s, t)
  {
    var l := TrimLeftParts(s);
    var r := TrimRightParts(TrimLeft(s));
    var u := Strip(s);
    assert s == l + u + r;
    assert u != "" ==> u[0] == TrimLeft(s)[0];
    assert Bare(s, u);
    if Bare(s, t) {
      var l', r' :| Blanks(l') && Blanks(r') && s == l' + t + r' && Tight(t);
      StripBlanks(l', t, r');
    }
  }

  // ---------------------------------------------------------------------- int

  /** Layout characters only. */
  predicate LayoutOnly(s: string) { forall i | 0 <= i < |s| :: s[i] == ' ' || 9 <= s[i] as int <= 13 }

  /** Decimal digits, with single underscores between digits. */
  predicate Numeral(s: string) {
    && s != "" && IsDigit(s[0]) && IsDigit(s[|s| - 1])
    && (forall i | 0 <= i < |s| :: IsDigit(s[i]) || s[i] == '_')
    && forall i | 0 <= i < |s| - 1 :: s[i] != '_' || s[i + 1] != '_'
  }

  /** The value of the digits of s, whatever stands between them. */
  function DigitsValue(s: string): nat {
    if s == "" then 0
    else if IsDigit(s[|s| - 1]) then 10 * DigitsValue(s[..|s| - 1]) + (s[|s| - 1] as int - '0' as int)
    else DigitsValue(s[..|s| - 1])
  }

  /** text is a numeral of n with a sign or none, between layout. */
  ghost predicate ReadsAs(text: string, n: int) {
    exists l: string, sign: string, m: string, r: string :: Reading(text, l, sign, m, r, n)
  }

  predicate Reading(text: string, l: string, sign: string, m: string, r: string, n: int) {
    && text == l + sign + m + r && LayoutOnly(l) && LayoutOnly(r) && Numeral(m)
    && ((sign in {"", "+"} && n == DigitsValue(m)) || (sign == "-" && n == -(DigitsValue(m) as int)))
  }

  lemma {:induction false} DecimalExact(s: string, n: nat)
    ensures Decimal(s) == Some(n) <==> Numeral(s) && DigitsValue(s) == n
    decreases |s|
  {
    if s != "" && IsDigit(s[|s| - 1]) {
      if |s| == 1 {
        assert DigitsValue(s[..0]) == 0;
      } else {
        var front := if s[|s| - 2] == '_' then s[..|s| - 2] else s[..|s| - 1];
        if Decimal(front).Some? { DecimalExact(front, Decimal(front).value); }
        if Numeral(front) { DecimalExact(front, DigitsValue(front)); }
        FrontNumeral(s, front);
      }
    }
  }

  /** s is front and one more digit, with or without an underscore between. */
  predicate OneMore(s: string, front: string) {
    && |s| >= 2 && IsDigit(s[|s| - 1])
    && front == if s[|s| - 2] == '_' then s[..|s| - 2] else s[..|s| - 1]
  }

  lemma FrontNumeral(s: string, front: string)
    requires OneMore(s, front)
    ensures Numeral(s) <==> Numeral(front)
    ensures DigitsValue(s) == 10 * DigitsValue(front) + (s[|s| - 1] as int - '0' as int)
  {
    hide Numeral;
    FrontValue(s, front);
    if Numeral(front) { NumeralLonger(s, front); }
    if Numeral(s) { NumeralShorter(s, front); }
  }

  lemma FrontValue(s: string, front: string)
    requires OneMore(s, front)
    ensures DigitsValue(s) == 10 * DigitsValue(front) + (s[|s| - 1] as int - '0' as int)
  {
    var t := s[..|s| - 1];
    if s[|s| - 2] == '_' { assert t[..|t| - 1] == front && t[|t| - 1] == '_'; }
  }

  lemma NumeralLonger(s: string, front: string)
    requires OneMore(s, front) && Numeral(front)
    ensures Numeral(s)
  {
    hide IsDigit;
    ScoreIsNoDigit();
    var k := |front|;
    assert front[0] == s[0] && front[k - 1] == s[k - 1];
    forall i | 0 <= i < |s| ensures IsDigit(s[i]) || s[i] == '_' { if i < k { assert s[i] == front[i]; } }
    forall i | 0 <= i < |s| - 1 ensures s[i] != '_' || s[i + 1] != '_' {
      if i + 1 < k { assert s[i] == front[i] && s[i + 1] == front[i + 1]; }
    }
  }

  lemma NumeralShorter(s: string, front: string)
    requires OneMore(s, front) && Numeral(s)
    ensures Numeral(front)
  {
    hide IsDigit;
    ScoreIsNoDigit();
    var k := |front|;
    assert k > 0;
    assert front[0] == s[0] && front[k - 1] == s[k - 1] && s[k - 1] != '_';
    assert forall i | 0 <= i < k :: s[i] == front[i];
  }

  lemma ScoreIsNoDigit()
    ensures !IsDigit('_')
  {}

  lemma {:induction false} SkipLeftParts(s: string) returns (l: string)
    ensures LayoutOnly(l) && s == l + SkipLeft(s)
    ensures SkipLeft(s) != "" ==> !LayoutOnly([SkipLeft(s)[0]])
    decreases |s|
  {
    if s != "" && Layout(s[0]) {
      var l' := SkipLeftParts(s[1..]);
      l := [s[0]] + l';
    } else {
      l := "";
      if s != "" { assert [s[0]][0] == s[0]; }
    }
  }

  lemma {:induction false} SkipRightParts(s: string) returns (r: string)
    ensures LayoutOnly(r) && s == SkipRight(s) + r
    decreases |s|
  {
    if s != "" && Layout(s[|s| - 1]) {
      var r' := SkipRightParts(s[..|s| - 1]);
      r := r' + [s[|s| - 1]];
    } else {
      r := "";
    }
  }

  lemma {:induction false} SkipLeftLayout(l: string, s: string)
    requires LayoutOnly(l) && s != "" && !Layout(s[0])
    ensures SkipLeft(l + s) == s
    decreases |l|
  {
    if l == "" {
      assert l + s == s;
    } else {
      assert (l + s)[1..] == l[1..] + s;
      SkipLeftLayout(l[1..], s);
    }
  }

  lemma {:induction false} SkipRightLayout(s: string, r: string)
    requires LayoutOnly(r) && s != "" && !Layout(s[|s| - 1])
    ensures SkipRight(s + r) == s
    decreases |r|
  {
    if r == "" {
      assert s + r == s;
    } else {
      assert (s + r)[..|s + r| - 1] == s + r[..|r| - 1];
      SkipRightLayout(s, r[..|r| - 1]);
    }
  }

  /** `int` accepts exactly the numerals with a sign or none, between layout, and
    * gives their value.
    */
  lemma IntExact(text: string, n: int)
    ensures ParseInt(text) == Some(n) <==> ReadsAs(text, n)
  {
    hide Numeral, DigitsValue, LayoutOnly, Decimal;
    if ParseInt(text) == Some(n) { IntMeans(text, n); }
    if ReadsAs(text, n) {
      var l, sign, m, r :| Reading(text, l, sign, m, r, n);
      IntReads(text, l, sign, m, r, n);
    }
  }

  lemma SignSplit(l: string, sign: string, m: string, r: string)
    ensures l + (sign + m) + r == l + sign + m + r
  {}

  lemma IntMeans(text: string, n: int)
    requires ParseInt(text) == Some(n)
    ensures ReadsAs(text, n)
  {
    hide Numeral, DigitsValue, LayoutOnly, Decimal, SkipLeft, SkipRight;
    var u := SkipLeft(text);
    var s := SkipRight(u);
    var l := SkipLeftParts(text);
    var r := SkipRightParts(u);
    assert text == l + s + r by { assert l + (s + r) == l + s + r; }
    var sign, m := if s != "" && (s[0] == '-' || s[0] == '+') then [s[0]] else "",
                   if s != "" && (s[0] == '-' || s[0] == '+') then s[1..] else s;
    assert s == sign + m;
    SignSplit(l, sign, m, r);
    DecimalExact(m, Decimal(m).value);
    assert Reading(text, l, sign, m, r, n);
  }

  lemma NumeralEnds(m: string)
    requires Numeral(m)
    ensures m != "" && IsDigit(m[0]) && IsDigit(m[|m| - 1])
  {}

  lemma IntReads(text: string, l: string, sign: string, m: string, r: string, n: int)
    requires Reading(text, l, sign, m, r, n)
    ensures ParseInt(text) == Some(n)
  {
    hide Numeral, DigitsValue, LayoutOnly, Decimal, SkipLeft, SkipRight;
    NumeralEnds(m);
    var s := sign + m;
    assert s[|s| - 1] == m[|m| - 1];
    assert text == l + (s + r) && (s + r)[0] == s[0];
    SkipLeftLayout(l, s + r);
    SkipRightLayout(s, r);
    DecimalExact(m, DigitsValue(m));
    if sign == "" { assert s == m; } else { assert s[1..] == m && s[0] == sign[0]; }
  }

  // ------------------------------------------------------------------- flags

  /** What does not count as set: False, 0 and the empty text. */
  predicate Unset(f: Flag) { f in {BoolFlag(false), IntFlag(0), TextFlag("")} }

  lemma TruthExact(f: Flag)
    ensures Truth(f) <==> !Unset(f)
  {}

  /** What reads as yes: True, 1, and four words in any case between blanks. */
  ghost predicate Yes(f: Flag) {
    || f == BoolFlag(true) || f == IntFlag(1)
    || (f.TextFlag? && exists t: string :: Bare(f.s, t) && YesWord(t))
  }

  predicate YesWord(t: string) { Spells(t, "true") || Spells(t, "yes") || Spells(t, "1") || Spells(t, "on") }

  lemma YesExact(f: Flag)
    ensures SaysYes(f) <==> Yes(f)
  {
    hide Bare, Spells, Lowered;
    if f.TextFlag? {
      StripExact(f.s, Strip(f.s));
      forall t: string ensures Bare(f.s, t) <==> t == Strip(f.s) { StripExact(f.s, t); }
      LoweredSpells(Strip(f.s), "true");
      LoweredSpells(Strip(f.s), "yes");
      LoweredSpells(Strip(f.s), "1");
      LoweredSpells(Strip(f.s), "on");
    }
  }
}
