/** The redactor of tool output on nested values. */
module StructuredRedaction {
  import opened Regex
  import opened Substitution
  import opened Pipeline
  import opened Glue
  import opened Redaction
  import opened RedactionLaws
  import opened Idempotence
  import opened Values
  import opened SecretTexts

  const VALUE_KEYS: set<string> := {
    "password", "token", "secret", "private_key", "private-key", "wireguard_private_key",
    "wireguard-private-key", "snmp_community", "snmp-community", "api_key", "api-key",
    "certificate", "cert", "pre_shared_key", "pre-shared-key", "preshared_key",
    "preshared-key", "public_key", "public-key"
  }

  /** Lower case, with underscores for hyphens. */
  function Normalized(key: string): string {
    seq(|key|, i requires 0 <= i < |key| => if key[i] == '-' then '_' else ToLower(key[i]))
  }

  predicate SecretKey(key: string) {
    exists n :: n in VALUE_KEYS && Normalized(key) == Normalized(n)
  }

  lemma NormalizedIffAlike(k: string, n: string)
    ensures Normalized(k) == Normalized(n) <==> Alike(k, n)
  {
    if |k| == |n| {
      forall j | 0 <= j < |k| ensures Normalized(k)[j] == Normalized(n)[j] <==> SameKeyChar(k[j], n[j]) {}
    }
    if Normalized(k) == Normalized(n) { assert |Normalized(k)| == |Normalized(n)|; }
    if Alike(k, n) { assert forall j | 0 <= j < |k| :: Normalized(k)[j] == Normalized(n)[j]; }
  }

  lemma AlikeTrans(k: string, n: string, m: string)
    requires Alike(n, m)
    ensures Alike(k, n) <==> Alike(k, m)
  {
    hide Alike, Normalized;
    NormalizedIffAlike(k, n);
    NormalizedIffAlike(k, m);
    NormalizedIffAlike(n, m);
  }

  lemma AlikeSelf(k: string)
    ensures Alike(k, k)
  {}

  /** If every name of one list is like one of the other, keys are like the names of
    * either.
    */
  lemma AlikeLists(k: string, a: set<string>, b: set<string>)
    requires a >= b && forall n | n in a :: AlikeAny(n, b)
    ensures AlikeAny(k, a) <==> AlikeAny(k, b)
  {
    hide Alike;
    if n :| n in a && Alike(k, n) {
      var m :| m in b && Alike(n, m);
      AlikeTrans(k, n, m);
    }
  }

  lemma ListedVariants()
    ensures Alike("private-key", "private_key") && Alike("wireguard-private-key", "wireguard_private_key")
    ensures Alike("snmp-community", "snmp_community") && Alike("api-key", "api_key")
    ensures Alike("pre-shared-key", "pre_shared_key") && Alike("preshared-key", "preshared_key")
    ensures Alike("public-key", "public_key")
  {}

  /** The hyphenated entries of the list add nothing. */
  lemma ListedNames(n: string)
    requires n in VALUE_KEYS
    ensures AlikeAny(n, SECRET_NAMES)
  {
    hide Alike;
    ListedVariants();
    AlikeSelf(n);
  }

  /** A key is secret exactly when it differs from a secret name only in case and in
    * hyphens for underscores.
    */
  lemma SecretKeyExact(k: string)
    ensures SecretKey(k) <==> AlikeAny(k, SECRET_NAMES)
  {
    hide Alike, Normalized, AlikeAny;
    KeyLooksListed(k);
    forall n | n in VALUE_KEYS ensures AlikeAny(n, SECRET_NAMES) { ListedNames(n); }
    AlikeLists(k, VALUE_KEYS, SECRET_NAMES);
  }

  lemma KeyLooksListed(k: string)
    ensures SecretKey(k) <==> AlikeAny(k, VALUE_KEYS)
  {
    hide Alike, Normalized;
    forall n: string ensures Normalized(k) == Normalized(n) <==> Alike(k, n) { NormalizedIffAlike(k, n); }
  }

  function Redact(r: Redactor, v: Json): Json
    decreases v
  {
    match v
    case Str(s) => Str(Redacted(r, s))
    case Leaf(_) => v
    case Arr(items) => Arr(seq(|items|, i requires 0 <= i < |items| => Redact(r, items[i])))
    case Obj(fields) =>
      Obj(seq(|fields|, i requires 0 <= i < |fields| =>
        Field(fields[i].key,
              if SecretKey(fields[i].key) then Str(MASK) else Redact(r, fields[i].value))))
  }

  /** Every string outside secret keys satisfies f. */
  ghost predicate Visible(f: string -> bool, v: Json)
    decreases v
  {
    match v
    case Str(s) => f(s)
    case Leaf(_) => true
    case Arr(items) => forall i | 0 <= i < |items| :: Visible(f, items[i])
    case Obj(fields) =>
      forall i | 0 <= i < |fields| :: AlikeAny(fields[i].key, SECRET_NAMES) || Visible(f, fields[i].value)
  }

  /** w is v redacted: every string in its place, same keys in the same order, same
    * lengths, same non-string leaves; the value under a key like a secret name may
    * be anything in v and is the mask in w.
    */
  ghost predicate Mirrors(r: Redactor, v: Json, w: Json)
    decreases v
  {
    match v
    case Str(s) => w == Str(Redacted(r, s))
    case Leaf(_) => w == v
    case Arr(items) =>
      && w.Arr? && |w.items| == |items|
      && forall i | 0 <= i < |items| :: Mirrors(r, items[i], w.items[i])
    case Obj(fields) =>
      && w.Obj? && |w.fields| == |fields|
      && forall i | 0 <= i < |fields| ::
           && w.fields[i].key == fields[i].key
           && if AlikeAny(fields[i].key, SECRET_NAMES) then w.fields[i].value == Str(MASK)
              else Mirrors(r, fields[i].value, w.fields[i].value)
  }

  lemma {:induction false} RedactMirrors(r: Redactor, v: Json)
    ensures Mirrors(r, v, Redact(r, v))
    decreases v
  {
    hide SecretKey, AlikeAny, Run;
    match v
    case Str(_) =>
    case Leaf(_) =>
    case Arr(items) =>
      forall i | 0 <= i < |items| ensures Mirrors(r, items[i], Redact(r, items[i])) {
        RedactMirrors(r, items[i]);
      }
    case Obj(fields) =>
      forall i | 0 <= i < |fields|
        ensures Mirrors(r, fields[i].value, Redact(r, fields[i].value))
        ensures SecretKey(fields[i].key) <==> AlikeAny(fields[i].key, SECRET_NAMES)
      {
        RedactMirrors(r, fields[i].value);
        SecretKeyExact(fields[i].key);
      }
  }

  /** Nothing else mirrors v. */
  lemma {:induction false} MirrorUnique(r: Redactor, v: Json, w: Json)
    requires Mirrors(r, v, w)
    ensures w == Redact(r, v)
    decreases v
  {
    hide SecretKey, AlikeAny, Run;
    match v
    case Str(_) =>
    case Leaf(_) =>
    case Arr(items) =>
      forall i | 0 <= i < |items| ensures w.items[i] == Redact(r, v).items[i] { MirrorUnique(r, items[i], w.items[i]); }
    case Obj(fields) =>
      forall i | 0 <= i < |fields| ensures w.fields[i] == Redact(r, v).fields[i] {
        SecretKeyExact(fields[i].key);
        if !AlikeAny(fields[i].key, SECRET_NAMES) { MirrorUnique(r, fields[i].value, w.fields[i].value); }
      }
  }

  /** Whatever holds of every redacted string holds of every visible string of
    * a redacted value.
    */
  lemma {:induction false} RedactVisible(r: Redactor, v: Json, f: string -> bool)
    requires forall s: string :: f(Redacted(r, s))
    ensures Visible(f, Redact(r, v))
    decreases v
  {
    hide SecretKey, AlikeAny, Run;
    match v
    case Str(s) => assert f(Redacted(r, s));
    case Leaf(_) =>
    case Arr(items) =>
      forall i | 0 <= i < |items| ensures Visible(f, Redact(r, items[i])) {
        RedactVisible(r, items[i], f);
      }
    case Obj(fields) =>
      forall i | 0 <= i < |fields|
        ensures Visible(f, Redact(r, fields[i].value)) && (SecretKey(fields[i].key) <==> AlikeAny(fields[i].key, SECRET_NAMES))
      {
        RedactVisible(r, fields[i].value, f);
        SecretKeyExact(fields[i].key);
      }
  }

  /** No string of a redacted value contains a key, a quoted community or a
    * certificate header.
    */
  lemma NoResidueAnywhere(r: Redactor, v: Json)
    requires Standard(r)
    ensures Visible(s => NoResidueIn(s), Redact(r, v))
  {
    hide Run;
    forall s: string ensures NoResidueIn(Redacted(r, s)) {
      forall i: nat, j: nat
        ensures !Occurs(WIREGUARD_KEY, Redacted(r, s), i, j)
             && !Occurs(QUOTED_COMMUNITY, Redacted(r, s), i, j)
             && !Occurs(CERTIFICATE, Redacted(r, s), i, j)
      {
        NoUnanchoredResidue(r, s, i, j);
      }
    }
    RedactVisible(r, v, s => NoResidueIn(s));
  }

  ghost predicate NoResidueIn(s: string) {
    forall i: nat, j: nat ::
      !Occurs(WIREGUARD_KEY, s, i, j) && !Occurs(QUOTED_COMMUNITY, s, i, j) && !Occurs(CERTIFICATE, s, i, j)
  }

  lemma {:induction false} RedactTwice(r: Redactor, v: Json)
    ensures Redact(r, Redact(r, v)) == Redact(r, v)
       <==> Visible(s => Redacted(r, Redacted(r, s)) == Redacted(r, s), v)
    decreases v
  {
    hide SecretKey, AlikeAny, Run;
    var f := s => Redacted(r, Redacted(r, s)) == Redacted(r, s);
    var w := Redact(r, v);
    match v
    case Str(_) =>
    case Leaf(_) =>
    case Arr(items) =>
      forall i | 0 <= i < |items|
        ensures Redact(r, Redact(r, items[i])) == Redact(r, items[i]) <==> Visible(f, items[i])
      {
        RedactTwice(r, items[i]);
      }
      SameItems(Redact(r, w).items, w.items);
      assert forall i | 0 <= i < |items| ::
          w.items[i] == Redact(r, items[i]) && Redact(r, w).items[i] == Redact(r, w.items[i]);
    case Obj(fields) =>
      forall i | 0 <= i < |fields|
        ensures Redact(r, Redact(r, fields[i].value)) == Redact(r, fields[i].value) <==> Visible(f, fields[i].value)
        ensures SecretKey(fields[i].key) <==> AlikeAny(fields[i].key, SECRET_NAMES)
      {
        RedactTwice(r, fields[i].value);
        SecretKeyExact(fields[i].key);
      }
      SameItems(Redact(r, w).fields, w.fields);
      assert forall i | 0 <= i < |fields| ::
          (Redact(r, w).fields[i] == w.fields[i]) ==
          (SecretKey(fields[i].key) || Redact(r, Redact(r, fields[i].value)) == Redact(r, fields[i].value));
  }

  lemma SameItems<T>(a: seq<T>, b: seq<T>)
    requires |a| == |b|
    ensures a == b <==> forall i | 0 <= i < |a| :: a[i] == b[i]
  {}

  lemma {:induction false} VisibleSame(f: string -> bool, f': string -> bool, v: Json)
    requires forall s: string :: f(s) <==> f'(s)
    ensures Visible(f, v) <==> Visible(f', v)
    decreases v
  {
    hide SecretKey, AlikeAny;
    match v
    case Str(_) =>
    case Leaf(_) =>
    case Arr(items) =>
      forall i | 0 <= i < |items| ensures Visible(f, items[i]) <==> Visible(f', items[i]) {
        VisibleSame(f, f', items[i]);
      }
    case Obj(fields) =>
      forall i | 0 <= i < |fields| ensures Visible(f, fields[i].value) <==> Visible(f', fields[i].value) {
        VisibleSame(f, f', fields[i].value);
      }
  }

  /** Redacting a value twice is the same as redacting it once exactly when no
    * masking reopens a secret in any of its strings outside secret keys.
    */
  lemma ValueIdempotentIff(r: Redactor, v: Json)
    requires Standard(r)
    ensures Redact(r, Redact(r, v)) == Redact(r, v) <==> Visible(s => !Reopened(r, s), v)
  {
    hide Run, Reopened;
    RedactTwice(r, v);
    forall s: string ensures !Reopened(r, s) <==> Redacted(r, Redacted(r, s)) == Redacted(r, s) {
      IdempotentIff(r, s);
    }
    VisibleSame(s => !Reopened(r, s), s => Redacted(r, Redacted(r, s)) == Redacted(r, s), v);
  }
}
