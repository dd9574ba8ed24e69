/** Error labels that may be shown to a client. */
module Labels {
  import opened Prelude

  const SAFE_LABELS: set<string> := {
    "auth", "denied", "hostkey_mismatch", "internal_error", "not_implemented",
    "parse_error", "timeout", "unreachable", "unsupported_version"
  }

  /** The classes a backend gives its errors. */
  datatype ErrorClass =
    Auth | HostkeyMismatch | Timeout | Denied | ParseError | UnsupportedVersion | Unreachable | NotImplemented

  function ClassText(c: ErrorClass): string {
    match c
    case Auth => "auth"
    case HostkeyMismatch => "hostkey_mismatch"
    case Timeout => "timeout"
    case Denied => "denied"
    case ParseError => "parse_error"
    case UnsupportedVersion => "unsupported_version"
    case Unreachable => "unreachable"
    case NotImplemented => "not_implemented"
  }

  /** The safe labels are the classes of the backends, and one for all else; so
    * every backend error is shown as what it is.
    */
  lemma LabelsExact(l: string)
    ensures l in SAFE_LABELS <==> l == "internal_error" || exists c: ErrorClass :: ClassText(c) == l
    ensures forall c: ErrorClass :: SafeLabel(Some(ClassText(c))) == ClassText(c)
  {
    forall c: ErrorClass ensures ClassText(c) in SAFE_LABELS {}
    assert ClassText(Auth) == "auth" && ClassText(HostkeyMismatch) == "hostkey_mismatch";
    assert ClassText(Timeout) == "timeout" && ClassText(Denied) == "denied" && ClassText(ParseError) == "parse_error";
    assert ClassText(UnsupportedVersion) == "unsupported_version" && ClassText(Unreachable) == "unreachable";
    assert ClassText(NotImplemented) == "not_implemented";
  }

  /** l is what to show for an error of class e: the class if it is safe, and
    * "internal_error" for any other and for none.
    */
  predicate LabelFor(l: string, e: Option<string>) {
    (e == Some(l) && l in SAFE_LABELS) || (l == "internal_error" && (e == None || e.value !in SAFE_LABELS))
  }

  /** `safe_error_label`: what is shown for an exception, given its
    * `error_class` attribute if it has one.
    */
  function SafeLabel(errorClass: Option<string>): (shown: string)
    ensures shown in SAFE_LABELS
    ensures shown == "internal_error" || errorClass == Some(shown)
  {
    if errorClass.Some? && errorClass.value in SAFE_LABELS then errorClass.value else "internal_error"
  }

  /** A label survives being wrapped into a service error and labelled again,
    * and only safe classes are shown as they are.
    */
  lemma LabelStable(errorClass: Option<string>)
    ensures SafeLabel(Some(SafeLabel(errorClass))) == SafeLabel(errorClass)
    ensures errorClass == Some(SafeLabel(errorClass)) <==> errorClass.Some? && errorClass.value in SAFE_LABELS
  {}
}
