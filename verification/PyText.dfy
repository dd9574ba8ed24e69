/** The Python text operations the audits rely on: `strip`, `split(",")`,
  * `int(text)` in base ten, and truthiness of a field.
  */
module PyText {
  import opened Prelude
  import opened Regex

  // -------------------------------------------------------------------- strip

  function TrimLeft(s: string): (t: string)
    ensures |t| <= |s|
  {
    if s != "" && Space(s[0]) then TrimLeft(s[1..]) else s
  }

  function TrimRight(s: string): (t: string)
    ensures |t| <= |s|
  {
    if s != "" && Space(s[|s| - 1]) then TrimRight(s[..|s| - 1]) else s
  }

  function Strip(s: string): string { TrimRight(TrimLeft(s)) }

  predicate Blanks(s: string) { forall i | 0 <= i < |s| :: Space(s[i]) }

  /** No blank at either end. */
  predicate Tight(s: string) {
    s != "" ==> !Space(s[0]) && !Space(s[|s| - 1])
  }

  lemma {:induction false} TrimLeftBlanks(l: string, s: string)
    requires Blanks(l) && (s == "" || !Space(s[0]))
    ensures TrimLeft(l + s) == s
    decreases |l|
  {
    if l == "" {
      assert l + s == s;
    } else {
      assert (l + s)[1..] == l[1..] + s;
      TrimLeftBlanks(l[1..], s);
    }
  }

  lemma {:induction false} TrimRightBlanks(s: string, r: string)
    requires Blanks(r) && (s == "" || !Space(s[|s| - 1]))
    ensures TrimRight(s + r) == s
    decreases |r|
  {
    if r == "" {
      assert s + r == s;
    } else {
      assert (s + r)[..|s + r| - 1] == s + r[..|r| - 1];
      TrimRightBlanks(s, r[..|r| - 1]);
    }
  }

  /** Stripping removes exactly the surrounding blanks. */
  lemma StripBlanks(l: string, s: string, r: string)
    requires Blanks(l) && Blanks(r) && Tight(s)
    ensures Strip(l + s + r) == s
  {
    if s == "" {
      assert l + s + r == (l + r) + "";
      TrimLeftBlanks(l + r, "");
    } else {
      assert l + s + r == l + (s + r);
      TrimLeftBlanks(l, s + r);
      TrimRightBlanks(s, r);
    }
  }

  // -------------------------------------------------------------------- split

  /** `text.split(",")`: never empty. */
  function Parts(s: string): (r: seq<string>)
    ensures |r| >= 1
  {
    if s == "" then [""]
    else if s[0] == ',' then [""] + Parts(s[1..])
    else
      var r := Parts(s[1..]);
      [[s[0]] + r[0]] + r[1..]
  }

  function Joined(parts: seq<string>): string {
    if parts == [] then ""
    else if |parts| == 1 then parts[0]
    else parts[0] + "," + Joined(parts[1..])
  }

  /** The parts are the comma-free texts between the commas. */
  lemma {:induction false} PartsExact(s: string)
    ensures Joined(Parts(s)) == s
    ensures forall p | p in Parts(s) :: ',' !in p
    decreases |s|
  {
    if s != "" {
      PartsExact(s[1..]);
      var r := Parts(s[1..]);
      assert s == [s[0]] + s[1..];
      if s[0] == ',' {
        assert ([""] + r)[1..] == r;
        assert "" + "," + Joined(r) == "," + Joined(r);
      } else {
        var q := [[s[0]] + r[0]] + r[1..];
        assert q[1..] == r[1..];
        forall p | p in q ensures ',' !in p {
          if p != q[0] { assert p in r[1..] && p in r; } else { assert r[0] in r; }
        }
        if |r| > 1 {
          assert [s[0]] + r[0] + "," + Joined(r[1..]) == [s[0]] + (r[0] + "," + Joined(r[1..]));
        }
      }
    }
  }

  lemma PartsStep(s: string)
    ensures s == "" ==> Parts(s) == [""]
    ensures s != "" && s[0] == ',' ==> Parts(s) == [""] + Parts(s[1..])
    ensures s != "" && s[0] != ',' ==>
              Parts(s) == [[s[0]] + Parts(s[1..])[0]] + Parts(s[1..])[1..]
  {}

  lemma FirstExtended<T>(x: seq<T>, r: seq<seq<T>>, q: seq<seq<T>>)
    requires r != []
    ensures [x + (r + q)[0]] + (r + q)[1..] == ([x + r[0]] + r[1..]) + q
  {}

  /** Splitting a text at one of its commas splits the list of parts. */
  lemma {:induction false} PartsConcat(a: string, b: string)
    ensures Parts(a + "," + b) == Parts(a) + Parts(b)
    decreases |a|
  {
    hide Parts;
    var s := a + "," + b;
    PartsStep(a);
    PartsStep(s);
    if a == "" {
      assert s == "," + b && s[1..] == b;
    } else {
      assert s[1..] == a[1..] + "," + b && s[0] == a[0];
      PartsConcat(a[1..], b);
      FirstExtended([a[0]], Parts(a[1..]), Parts(b));
    }
  }

  lemma {:induction false} PartsWhole(s: string)
    requires ',' !in s
    ensures Parts(s) == [s]
    decreases |s|
  {
    if s != "" {
      PartsWhole(s[1..]);
      assert [s[0]] + s[1..] == s;
      assert [s] + [s[1..]][1..] == [s];
    }
  }

  // --------------------------------------------------------------------- int

  /** The blanks `int` itself skips; fewer than `strip` removes. */
  predicate Layout(c: char) { c == ' ' || '\t' <= c <= '\r' }

  function SkipLeft(s: string): (t: string)
    ensures |t| <= |s|
  {
    if s != "" && Layout(s[0]) then SkipLeft(s[1..]) else s
  }

  function SkipRight(s: string): (t: string)
    ensures |t| <= |s|
  {
    if s != "" && Layout(s[|s| - 1]) then SkipRight(s[..|s| - 1]) else s
  }

  function DigitValue(c: char): nat
    requires Digit(c)
  {
    c as int - '0' as int
  }

  /** Digits, single underscores allowed between them. */
  function Decimal(s: string): Option<nat>
    decreases |s|
  {
    if s == "" || !Digit(s[|s| - 1]) then None
    else if |s| == 1 then Some(DigitValue(s[0]))
    else
      var front := if s[|s| - 2] == '_' then s[..|s| - 2] else s[..|s| - 1];
      match Decimal(front)
      case Some(v) => Some(10 * v + DigitValue(s[|s| - 1]))
      case None => None
  }

  /** `int(text)`; None is the ValueError. */
  function ParseInt(text: string): Option<int> {
    var s := SkipRight(SkipLeft(text));
    if s != "" && (s[0] == '-' || s[0] == '+') then
      match Decimal(s[1..])
      case Some(v) => var n: int := v; Some(if s[0] == '-' then -n else n)
      case None => None
    else
      match Decimal(s)
      case Some(v) => Some(v)
      case None => None
  }

  function DigitChar(d: nat): char
    requires d < 10
  {
    ('0' as int + d) as char
  }

  /** `str(n)` of a natural number. */
  function NatText(n: nat): (s: string)
    ensures s != "" && forall i | 0 <= i < |s| :: Digit(s[i])
  {
    if n < 10 then [DigitChar(n)] else NatText(n / 10) + [DigitChar(n % 10)]
  }

  /** `str(n)`. */
  function IntText(n: int): (s: string)
    ensures s != "" && Digit(s[|s| - 1]) && (s[0] == '-' || Digit(s[0])) && ',' !in s
  {
    if n < 0 then "-" + NatText(-n) else NatText(n)
  }

  lemma {:induction false} DecimalText(n: nat)
    ensures Decimal(NatText(n)) == Some(n)
    decreases n
  {
    if n >= 10 {
      DecimalText(n / 10);
      var s := NatText(n);
      assert s[..|s| - 1] == NatText(n / 10);
      assert s[|s| - 2] == NatText(n / 10)[|NatText(n / 10)| - 1];
    }
  }

  /** Reading back the text of an integer gives the integer. */
  lemma IntRoundTrip(n: int)
    ensures ParseInt(IntText(n)) == Some(n)
  {
    var s := IntText(n);
    assert SkipLeft(s) == s && SkipRight(s) == s;
    DecimalText(if n < 0 then -n else n);
    if n < 0 {
      assert s[1..] == NatText(-n);
    }
  }

  // -------------------------------------------------------------- truthiness

  /** A field that should be a flag, as the device or a fixture delivers it. */
  datatype Flag = BoolFlag(b: bool) | IntFlag(n: int) | TextFlag(s: string)

  /** `bool(value)`: every non-empty text counts, also "false". */
  predicate Truth(f: Flag) {
    match f
    case BoolFlag(b) => b
    case IntFlag(n) => n != 0
    case TextFlag(s) => s != ""
  }

  function Lowered(s: string): string {
    seq(|s|, i requires 0 <= i < |s| => ToLower(s[i]))
  }

  /** `_is_truthy`: reads the text. */
  predicate SaysYes(f: Flag) {
    match f
    case BoolFlag(b) => b
    case IntFlag(n) => n == 1
    case TextFlag(s) => Lowered(Strip(s)) in {"true", "yes", "1", "on"}
  }
}
