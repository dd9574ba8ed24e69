/** What counts as a secret, in characters. Nothing here knows of patterns; it is
  * the reference the patterns of the redactors are compared with.
  */
module SecretTexts {

  predicate IsDigit(c: char) { '0' <= c <= '9' }

  predicate IsLetter(c: char) { 'a' <= c <= 'z' || 'A' <= c <= 'Z' }

  predicate IsHex(c: char) { IsDigit(c) || 'a' <= c <= 'f' || 'A' <= c <= 'F' }

  /** The characters between which a text counts as part of a word. */
  predicate IsWordChar(c: char) { IsLetter(c) || IsDigit(c) || c == '_' }

  predicate IsBlank(c: char) { c as int in {9, 10, 11, 12, 13, 28, 29, 30, 31, 32} }

  /** u is the capital of the small letter l. */
  predicate Capital(u: char, l: char) {
    'a' <= l <= 'z' && 'A' <= u <= 'Z' && u as int - 'A' as int == l as int - 'a' as int
  }

  predicate SameLetter(c: char, d: char) { c == d || Capital(c, d) || Capital(d, c) }

  /** h is w in any case. */
  predicate Spells(h: string, w: string) {
    |h| == |w| && forall i | 0 <= i < |h| :: SameLetter(h[i], w[i])
  }

  /** A WireGuard key: 43 characters of its alphabet and an equals sign. */
  predicate KeyText(h: string) {
    && |h| == 44 && h[43] == '='
    && forall i | 0 <= i < 43 :: IsLetter(h[i]) || IsDigit(h[i]) || h[i] == '+' || h[i] == '/'
  }

  /** A quoted community: eight characters or more between quotes. */
  predicate CommunityText(h: string) {
    && |h| >= 10 && h[0] == '"' && h[|h| - 1] == '"'
    && forall i | 1 <= i < |h| - 1 :: IsLetter(h[i]) || IsDigit(h[i]) || h[i] == '_' || h[i] == '-'
  }

  /** Two words written together, or with a hyphen or underscore between them. */
  predicate PairText(h: string, u: string, v: string) {
    || Spells(h, u + v)
    || (&& |h| == |u| + 1 + |v| && h[|u|] in {'_', '-'}
        && Spells(h[..|u|], u) && Spells(h[|u| + 1..], v))
  }

  /** BEGIN CERTIFICATE, with any blanks between the words. */
  predicate HeaderText(h: string) {
    && |h| >= 17
    && Spells(h[..5], "begin") && Spells(h[|h| - 11..], "certificate")
    && forall i | 5 <= i < |h| - 11 :: IsBlank(h[i])
  }

  /** h[i..j] is one to three digits. */
  predicate Group(h: string, i: int, j: int) {
    0 <= i <= j <= |h| && 1 <= j - i <= 3 && forall k | i <= k < j :: IsDigit(h[k])
  }

  predicate DotAt(h: string, i: int) { 0 <= i < |h| && h[i] == '.' }

  /** Four groups of digits with dots at a, b and c. */
  predicate Dotted(h: string, a: nat, b: nat, c: nat) {
    && DotAt(h, a) && DotAt(h, b) && DotAt(h, c)
    && Group(h, 0, a) && Group(h, a + 1, b) && Group(h, b + 1, c) && Group(h, c + 1, |h|)
  }

  ghost predicate AddressText(h: string) {
    exists a: nat, b: nat, c: nat :: Dotted(h, a, b, c)
  }

  /** Six pairs of hexadecimal digits with colons between them. */
  predicate HardwareText(h: string) {
    |h| == 17 && forall i | 0 <= i < 17 :: if i % 3 == 2 then h[i] == ':' else IsHex(h[i])
  }

  /** The texts of the i-th kind of secret, addresses aside. */
  predicate SecretOfKind(i: nat, h: string) {
    match i
    case 0 => KeyText(h)
    case 1 => CommunityText(h)
    case 2 => Spells(h, "password")
    case 3 => Spells(h, "token")
    case 4 => Spells(h, "secret")
    case 5 => PairText(h, "private", "key")
    case 6 => PairText(h, "api", "key")
    case 7 => HeaderText(h)
    case _ => false
  }

  /** Kinds that count only if no word goes on before them, or behind them. */
  predicate BoundInFront(i: nat) { i in {2, 3, 4} }

  predicate BoundBehind(i: nat) { i in {2, 3, 4, 5, 6} }

  /** No word goes on before position i of s. */
  predicate FreeBefore(s: string, i: nat)
    requires i <= |s|
  {
    i == 0 || !IsWordChar(s[i - 1])
  }

  predicate FreeBehind(s: string, j: nat)
    requires j <= |s|
  {
    j == |s| || !IsWordChar(s[j])
  }

  // ------------------------------------------------------------- key names

  /** Two characters of key names that need not be told apart. */
  predicate SameKeyChar(c: char, d: char) { SameLetter(c, d) || (c in {'-', '_'} && d in {'-', '_'}) }

  /** Two key names that differ only in case and in hyphens for underscores. */
  predicate Alike(k: string, n: string) {
    |k| == |n| && forall j | 0 <= j < |k| :: SameKeyChar(k[j], n[j])
  }

  ghost predicate AlikeAny(k: string, names: set<string>) { exists n :: n in names && Alike(k, n) }

  /** The names whose values are secret in tool output. */
  const SECRET_NAMES: set<string> := {
    "password", "token", "secret", "private_key", "wireguard_private_key", "snmp_community",
    "api_key", "certificate", "cert", "pre_shared_key", "preshared_key", "public_key"
  }

  /** The names a fixture must not have, and those whose values it must not show. */
  const STRIPPED_NAMES: set<string> := {".id", ".nextid", "debug_info", "engine_id"}

  const CONCEALED_NAMES: set<string> := {
    "mac_address", "serial_number", "authentication_password", "encryption_password",
    "password", "secret", "private_key", "pre_shared_key", "public_key"
  }
}
