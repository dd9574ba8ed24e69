/** The redactor of captured fixtures: hardware addresses, the word "public",
  * stripped and secret keys.
  */
module FixtureRedaction {
  import opened Prelude
  import opened Regex
  import opened Substitution
  import opened Pipeline
  import opened Glue
  import opened Settling
  import opened Residue
  import opened Redaction
  import opened StructuredRedaction
  import opened Values
  import opened Languages
  import opened Coverage
  import opened SecretTexts
  import opened Exactness

  const PAIR := Atom(Hex, 2, Some(2))
  const COLON := One(Lit(':'))

  const MAC := Pattern(
    true, [PAIR, COLON, PAIR, COLON, PAIR, COLON, PAIR, COLON, PAIR, COLON, PAIR], true)

  const STRIP_KEYS: set<string> := {".id", ".nextid", "debug-info", "debug_info", "engine-id", "engine_id"}

  const SECRET_VALUE_KEYS: set<string> := {
    "mac_address", "mac-address", "serial_number", "serial-number", "authentication_password",
    "authentication-password", "encryption_password", "encryption-password", "password", "secret",
    "private_key", "private-key", "pre_shared_key", "pre-shared-key", "public_key", "public-key"
  }

  predicate Stripped(key: string) { key in STRIP_KEYS || Normalized(key) in STRIP_KEYS }

  predicate Concealed(key: string) { key in SECRET_VALUE_KEYS || Normalized(key) in SECRET_VALUE_KEYS }

  lemma StripVariants()
    ensures Alike("debug-info", "debug_info") && Alike("engine-id", "engine_id")
  {}

  lemma ConcealVariants()
    ensures Alike("mac-address", "mac_address") && Alike("serial-number", "serial_number")
    ensures Alike("authentication-password", "authentication_password")
    ensures Alike("encryption-password", "encryption_password")
    ensures Alike("private-key", "private_key") && Alike("pre-shared-key", "pre_shared_key")
    ensures Alike("public-key", "public_key")
  {}

  /** Written in small letters, without hyphens. */
  predicate InNormalForm(n: string) { forall i | 0 <= i < |n| :: n[i] != '-' && !('A' <= n[i] <= 'Z') }

  lemma NormalForm(n: string)
    requires InNormalForm(n)
    ensures Normalized(n) == n
  {}

  lemma StrippedInNormalForm()
    ensures forall n | n in STRIPPED_NAMES :: InNormalForm(n)
  {}

  lemma PasswordsInNormalForm()
    ensures InNormalForm("authentication_password") && InNormalForm("encryption_password")
    ensures InNormalForm("password") && InNormalForm("secret")
  {}

  lemma KeysInNormalForm()
    ensures InNormalForm("private_key") && InNormalForm("pre_shared_key") && InNormalForm("public_key")
    ensures InNormalForm("mac_address") && InNormalForm("serial_number")
  {}

  lemma ConcealedInNormalForm()
    ensures forall n | n in CONCEALED_NAMES :: InNormalForm(n)
  {
    hide InNormalForm;
    PasswordsInNormalForm();
    KeysInNormalForm();
  }

  lemma StripListed(n: string)
    requires n in STRIP_KEYS
    ensures AlikeAny(n, STRIPPED_NAMES)
  {
    hide Alike;
    StripVariants();
    AlikeSelf(n);
  }

  lemma ConcealListed(n: string)
    requires n in SECRET_VALUE_KEYS
    ensures AlikeAny(n, CONCEALED_NAMES)
  {
    hide Alike;
    ConcealVariants();
    AlikeSelf(n);
  }

  /** A lookup of a key as it is and in normal form finds the keys like a name. */
  lemma LookupExact(key: string, list: set<string>, names: set<string>)
    requires names <= list && (forall n | n in names :: InNormalForm(n)) && forall n | n in list :: AlikeAny(n, names)
    ensures key in list || Normalized(key) in list <==> AlikeAny(key, names)
  {
    hide Alike, Normalized, InNormalForm;
    if AlikeAny(key, names) {
      var n :| n in names && Alike(key, n);
      NormalizedIffAlike(key, n);
      NormalForm(n);
    }
    if Normalized(key) in list {
      var m :| m in names && Alike(Normalized(key), m);
      NormalTwice(key);
      NormalizedIffAlike(Normalized(key), m);
      NormalizedIffAlike(key, m);
    }
  }

  lemma NormalTwice(key: string)
    ensures Normalized(Normalized(key)) == Normalized(key)
  {}

  lemma StrippedExact(key: string)
    ensures Stripped(key) <==> AlikeAny(key, STRIPPED_NAMES)
  {
    hide Alike, AlikeAny, Normalized, InNormalForm;
    StrippedInNormalForm();
    forall n | n in STRIP_KEYS ensures AlikeAny(n, STRIPPED_NAMES) { StripListed(n); }
    LookupExact(key, STRIP_KEYS, STRIPPED_NAMES);
  }

  lemma ConcealedExact(key: string)
    ensures Concealed(key) <==> AlikeAny(key, CONCEALED_NAMES)
  {
    hide Alike, AlikeAny, Normalized, InNormalForm;
    ConcealedInNormalForm();
    forall n | n in SECRET_VALUE_KEYS ensures AlikeAny(n, CONCEALED_NAMES) { ConcealListed(n); }
    LookupExact(key, SECRET_VALUE_KEYS, CONCEALED_NAMES);
  }

  /** The one stage; it has no gate. */
  function MacStage(): Stage { Always(MAC) }

  function WithoutMacs(s: string): string { Sub(_ => true, MacStage(), false, s) }

  function CleanString(s: string): string {
    var t := WithoutMacs(s);
    if t == "public" then MASK else t
  }

  function Clean(v: Json): Json
    decreases v, 1
  {
    match v
    case Str(s) => Str(CleanString(s))
    case Leaf(_) => v
    case Arr(items) => Arr(seq(|items|, i requires 0 <= i < |items| => Clean(items[i])))
    case Obj(fields) => Obj(CleanFields(fields))
  }

  function CleanFields(fields: seq<Field>): seq<Field>
    decreases fields, 0
  {
    if fields == [] then []
    else if Stripped(fields[0].key) then CleanFields(fields[1..])
    else
      [Field(fields[0].key, if Concealed(fields[0].key) then Str(MASK) else Clean(fields[0].value))]
      + CleanFields(fields[1..])
  }

  /** The recursion as written: a dictionary is rebuilt key by key, skipping
    * stripped keys; a string is rebound.
    */
  method RedactFixture(value: Json) returns (result: Json)
    ensures result == Clean(value)
    decreases value
  {
    match value
    case Obj(fields) =>
      var out: seq<Field> := [];
      for i := 0 to |fields|
        invariant out + CleanFields(fields[i..]) == CleanFields(fields)
      {
        var key, item := fields[i].key, fields[i].value;
        assert fields[i..][1..] == fields[i + 1..];
        if Stripped(key) {
          continue;
        }
        if Concealed(key) {
          out := out + [Field(key, Str(MASK))];
        } else {
          var cleaned := RedactFixture(item);
          out := out + [Field(key, cleaned)];
        }
      }
      result := Obj(out);
    case Arr(items) =>
      var out: seq<Json> := [];
      for i := 0 to |items|
        invariant out == Clean(value).items[..i]
      {
        var cleaned := RedactFixture(items[i]);
        out := out + [cleaned];
      }
      result := Arr(out);
    case Str(s) =>
      var t := Sub(_ => true, MacStage(), false, s);
      if t == "public" {
        return Str(MASK);
      }
      result := Str(t);
    case Leaf(_) =>
      result := value;
  }

  // ------------------------------------------------------------------ strings

  lemma MacProper()
    ensures Proper(MAC)
  {
    var p := MAC;
    assert !Inert(':');
    assert MarkedAt(p, 1);
    assert forall i | 0 <= i < |p.atoms| :: p.atoms[i] == PAIR || p.atoms[i] == COLON;
    forall i: nat | i < |p.atoms| ensures DetAt(p.atoms, p.right, i) {}
  }

  lemma MacOrderly()
    ensures Orderly([MacStage()])
  {
    MacProper();
    CompileFaithful(MAC);
  }

  /** Substituting twice is substituting once: both ends are anchored, so a mask
    * makes no boundary that was not there.
    */
  lemma MacsOnce(s: string)
    ensures WithoutMacs(WithoutMacs(s)) == WithoutMacs(s)
  {
    hide Sub, Split, Plan, Orderly;
    MacOrderly();
    var g: Gate := _ => true;
    var stages := [MacStage()];
    ClosedSettles(g, stages, s);
    assert stages[1..] == [];
    assert Run(g, stages, s) == WithoutMacs(s);
    assert Run(g, stages, WithoutMacs(s)) == WithoutMacs(WithoutMacs(s));
  }

  lemma MacSpread()
    ensures Fixed(MAC.atoms)
    ensures |Spread(MAC.atoms)| == 17
    ensures forall k | 0 <= k < 17 :: Spread(MAC.atoms)[k] == if k % 3 == 2 then Lit(':') else Hex
  {
    hide Spread;
    assert forall i | 0 <= i < |MAC.atoms| :: MAC.atoms[i] == if i % 2 == 0 then PAIR else COLON;
    PairsSpread(MAC.atoms);
  }

  /** Pairs with colons between them, from the front. */
  lemma {:induction false} PairsSpread(atoms: seq<Atom>)
    requires |atoms| % 2 == 1 && forall i | 0 <= i < |atoms| :: atoms[i] == if i % 2 == 0 then PAIR else COLON
    ensures |Spread(atoms)| == 3 * (|atoms| / 2) + 2
    ensures forall k | 0 <= k < |Spread(atoms)| :: Spread(atoms)[k] == if k % 3 == 2 then Lit(':') else Hex
    decreases |atoms|
  {
    var pair, colon := Times(Hex, 2), Times(Lit(':'), 1);
    if |atoms| == 1 {
      assert atoms[1..] == [];
      assert Spread(atoms) == pair + [];
    } else {
      var rest := atoms[2..];
      assert atoms[1..][1..] == rest && forall i | 0 <= i < |rest| :: rest[i] == atoms[i + 2];
      PairsSpread(rest);
      assert Spread(atoms[1..]) == colon + Spread(rest);
      assert Spread(atoms) == pair + (colon + Spread(rest));
      forall k | 3 <= k < |Spread(atoms)| ensures Spread(atoms)[k] == Spread(rest)[k - 3] {}
    }
  }

  lemma MacExact(h: string)
    ensures Lang(MAC.atoms, h) <==> HardwareText(h)
  {
    hide Lang, Spread;
    MacSpread();
    FixedLang(MAC.atoms, h);
  }

  /** s[i..j] is a hardware address on its own. */
  ghost predicate StandsHardware(s: string, i: nat, j: nat) {
    i <= j <= |s| && HardwareText(s[i..j]) && FreeBefore(s, i) && FreeBehind(s, j)
  }

  lemma OccursIffHardware(s: string, i: nat, j: nat)
    ensures Occurs(MAC, s, i, j) <==> StandsHardware(s, i, j)
  {
    hide Lang, HardwareText, Proper;
    if i <= j <= |s| {
      MacExact(s[i..j]);
      MacProper();
      if i > 0 { SameCharacters(s[i - 1]); }
      if j < |s| { SameCharacters(s[j]); }
      if Lang(MAC.atoms, s[i..j]) { ProperEnds(MAC, s[i..j]); }
    }
  }

  /** The string holds no hardware address and is not the word "public". */
  ghost predicate PlainString(s: string) {
    s != "public" && forall i: nat, j: nat :: !StandsHardware(s, i, j)
  }

  lemma FixedIffNoMac(s: string)
    ensures WithoutMacs(s) == s <==> forall i: nat, j: nat :: !StandsHardware(s, i, j)
  {
    hide Sub, Split, Load, Occurs, StandsHardware;
    forall i: nat, j: nat ensures Occurs(MAC, s, i, j) <==> StandsHardware(s, i, j) { OccursIffHardware(s, i, j); }
    MacProper();
    CompileFaithful(MAC);
    var g: Gate := _ => true;
    SubLoad(g, MacStage(), false, s);
    QuietIffNoOccurrence(g, MacStage(), s);
  }

  lemma StringCleaned(s: string)
    ensures PlainString(CleanString(s))
    ensures CleanString(s) == s <==> PlainString(s)
  {
    hide Sub, StandsHardware;
    MacsOnce(s);
    FixedIffNoMac(s);
    FixedIffNoMac(WithoutMacs(s));
    FixedIffNoMac(MASK);
    MacProper();
    CompileFaithful(MAC);
    InertFixed(_ => true, MacStage(), false, MASK);
    assert |MASK| != |"public"|;
  }

  /** The pieces of s around its hardware addresses. */
  function MacPieces(s: string): Pieces { Plan(_ => true, [MacStage()], s) }

  /** Cleaning a string masks the word "public" and every hardware address that
    * stands in it, only hardware addresses, and keeps the rest in place.
    */
  lemma StringExact(s: string)
    ensures var p := MacPieces(s);
            && Origin(p) == s
            && CleanString(s) == (if s == "public" then MASK else Render(p))
            && AllHits(h => HardwareText(h), p)
    ensures forall i: nat, j: nat :: StandsHardware(s, i, j) ==> !Whole(MacPieces(s), i, j)
  {
    hide Plan, Sub, Orderly, Lang, Occurs, StandsHardware, Whole, HardwareText;
    var g: Gate, stages := _ => true, [MacStage()];
    MacOrderly();
    OneStage(s);
    PlanCorrect(g, stages, s);
    OnlyPublic(s);
    forall h: string | Lang(MAC.atoms, h) ensures HardwareText(h) { MacExact(h); }
    PlanHits(g, stages, s, h => HardwareText(h));
    forall i: nat, j: nat | StandsHardware(s, i, j) ensures !Whole(MacPieces(s), i, j) {
      OccursIffHardware(s, i, j);
      OccurrenceNotWhole(g, stages, 0, s, i, j);
    }
  }

  lemma OneStage(s: string)
    ensures Run(_ => true, [MacStage()], s) == WithoutMacs(s)
  {
    hide Sub;
    assert [MacStage()][1..] == [];
  }

  /** Masking leaves a star, so the word "public" can only have been there before. */
  lemma OnlyPublic(s: string)
    ensures WithoutMacs(s) == "public" <==> s == "public"
  {
    hide Sub, Split, Occurs, StandsHardware;
    MacProper();
    CompileFaithful(MAC);
    var g: Gate := _ => true;
    SplitSub(g, MacStage(), false, s);
    SubLoad(g, MacStage(), false, s);
    if Split(g, MacStage(), false, s).Cut? {
      RenderedLonger(Split(g, MacStage(), false, s));
    }
    if s == "public" {
      FixedIffNoMac(s);
      forall i: nat, j: nat ensures !StandsHardware(s, i, j) { TooShort(s, i, j); }
    }
  }

  lemma RenderedLonger(p: Pieces)
    requires p.Cut?
    ensures |Render(p)| >= |MASK|
  {}

  lemma TooShort(s: string, i: nat, j: nat)
    requires |s| < 17
    ensures !StandsHardware(s, i, j)
  {}

  // ------------------------------------------------------------------- values

  /** No hardware address or "public" in any string, no stripped key, and the
    * mask under every secret key, at every depth.
    */
  ghost predicate Plain(v: Json)
    decreases v
  {
    match v
    case Str(s) => PlainString(s)
    case Leaf(_) => true
    case Arr(items) => forall i | 0 <= i < |items| :: Plain(items[i])
    case Obj(fields) => forall i | 0 <= i < |fields| :: PlainField(fields[i])
  }

  ghost predicate PlainField(f: Field)
    decreases f
  {
    && !AlikeAny(f.key, STRIPPED_NAMES)
    && if AlikeAny(f.key, CONCEALED_NAMES) then f.value == Str(MASK) else Plain(f.value)
  }

  lemma {:induction false} CleanedIsPlain(v: Json)
    ensures Plain(Clean(v))
    decreases v, 1
  {
    hide Stripped, Concealed, PlainString, CleanString;
    match v
    case Str(s) => StringCleaned(s);
    case Leaf(_) =>
    case Arr(items) =>
      forall i | 0 <= i < |items| ensures Plain(Clean(items[i])) { CleanedIsPlain(items[i]); }
    case Obj(fields) =>
      CleanedFieldsArePlain(fields);
  }

  lemma {:induction false} CleanedFieldsArePlain(fields: seq<Field>)
    ensures forall i | 0 <= i < |CleanFields(fields)| :: PlainField(CleanFields(fields)[i])
    decreases fields, 0
  {
    hide Stripped, Concealed, AlikeAny;
    if fields != [] {
      StrippedExact(fields[0].key);
      ConcealedExact(fields[0].key);
      CleanedIsPlain(fields[0].value);
      CleanedFieldsArePlain(fields[1..]);
    }
  }

  /** Exactly the plain values are left alone. */
  lemma {:induction false} FixedIffPlain(v: Json)
    ensures Clean(v) == v <==> Plain(v)
    decreases v, 1
  {
    hide Stripped, Concealed, PlainString, CleanString;
    match v
    case Str(s) => StringCleaned(s);
    case Leaf(_) =>
    case Arr(items) =>
      forall i | 0 <= i < |items| ensures Clean(items[i]) == items[i] <==> Plain(items[i]) {
        FixedIffPlain(items[i]);
      }
      SameItems(Clean(v).items, items);
    case Obj(fields) =>
      FixedFieldsIffPlain(fields);
  }

  lemma {:induction false} FixedFieldsIffPlain(fields: seq<Field>)
    ensures |CleanFields(fields)| <= |fields|
    ensures CleanFields(fields) == fields <==> forall i | 0 <= i < |fields| :: PlainField(fields[i])
    decreases fields, 0
  {
    hide Stripped, Concealed, AlikeAny, Clean, Plain;
    if fields != [] {
      StrippedExact(fields[0].key);
      ConcealedExact(fields[0].key);
      var rest := fields[1..];
      FixedIffPlain(fields[0].value);
      FixedFieldsIffPlain(rest);
      assert fields == [fields[0]] + rest;
      AllOfCons(fields);
    }
  }

  lemma AllOfCons(fields: seq<Field>)
    requires fields != []
    ensures (forall i | 0 <= i < |fields| :: PlainField(fields[i]))
       <==> PlainField(fields[0]) && forall i | 0 <= i < |fields[1..]| :: PlainField(fields[1..][i])
  {
    hide PlainField;
    assert forall i | 0 < i < |fields| :: fields[i] == fields[1..][i - 1];
  }

  /** Cleaning is idempotent on every value. */
  lemma CleanIdempotent(v: Json)
    ensures Clean(Clean(v)) == Clean(v)
  {
    CleanedIsPlain(v);
    FixedIffPlain(Clean(v));
  }

  function KeysOf(fields: seq<Field>): seq<string> {
    seq(|fields|, i requires 0 <= i < |fields| => fields[i].key)
  }

  ghost function KeptKeys(keys: seq<string>): seq<string> {
    if keys == [] then []
    else (if AlikeAny(keys[0], STRIPPED_NAMES) then [] else [keys[0]]) + KeptKeys(keys[1..])
  }

  /** Exactly the keys like a stripped name go; the others stay in order. */
  lemma {:induction false} KeysKept(fields: seq<Field>)
    ensures KeysOf(CleanFields(fields)) == KeptKeys(KeysOf(fields))
    decreases fields
  {
    hide Stripped, Concealed, AlikeAny, Clean;
    if fields != [] {
      StrippedExact(fields[0].key);
      KeysKept(fields[1..]);
      assert KeysOf(fields)[1..] == KeysOf(fields[1..]);
      if !Stripped(fields[0].key) {
        assert KeysOf(CleanFields(fields)) == [fields[0].key] + KeysOf(CleanFields(fields[1..]));
      } else {
        assert [] + KeptKeys(KeysOf(fields[1..])) == KeptKeys(KeysOf(fields[1..]));
      }
    }
  }

  /** What becomes of one field among others. */
  lemma {:induction false} FieldExact(a: seq<Field>, f: Field, b: seq<Field>)
    ensures CleanFields(a + [f] + b)
         == CleanFields(a)
            + (if AlikeAny(f.key, STRIPPED_NAMES) then []
               else [Field(f.key, if AlikeAny(f.key, CONCEALED_NAMES) then Str(MASK) else Clean(f.value))])
            + CleanFields(b)
    decreases |a|
  {
    hide Stripped, Concealed, AlikeAny, Clean;
    var all := a + [f] + b;
    if a == [] {
      StrippedExact(f.key);
      ConcealedExact(f.key);
      assert all[0] == f && all[1..] == b;
    } else {
      FieldExact(a[1..], f, b);
      assert all[0] == a[0] && all[1..] == a[1..] + [f] + b;
    }
  }

  /** Lists are cleaned item by item, and other leaves than strings are kept. */
  lemma ItemsExact(items: seq<Json>, leaf: Scalar)
    ensures var v := Clean(Arr(items));
            && v.Arr? && |v.items| == |items|
            && forall i | 0 <= i < |items| :: v.items[i] == Clean(items[i])
    ensures Clean(Leaf(leaf)) == Leaf(leaf)
  {
    hide CleanString;
  }
}
