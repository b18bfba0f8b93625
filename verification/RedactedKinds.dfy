/** The names, headers and schemes whose values are removed from reported texts. */
module RedactedKinds {
  import opened Redaction

  const PASSWORD_NAMES: seq<string> := ["password", "passwd", "pwd", "api_key", "api-key", "apikey", "x-api-key"]

  const SECRET_NAMES: seq<string> := ["secret", "client_secret", "client-secret", "access_token", "access-token"]

  const TOKEN_NAMES: seq<string> := [
    "refresh_token", "refresh-token", "auth_token", "auth-token", "session_token", "session-token"]

  const STORE_NAMES: seq<string> := [
    "cookie", "set-cookie", "database_url", "database-url", "db_url", "db-url",
    "connection_string", "connection-string", "dsn"]

  const SENSITIVE_VALUE_NAMES: seq<string> := PASSWORD_NAMES + SECRET_NAMES + TOKEN_NAMES + STORE_NAMES

  const SENSITIVE_LINE_HEADERS: seq<string> := [
    "authorization:", "proxy-authorization:", "cookie:", "set-cookie:", "x-api-key:"]

  const SCHEMES: seq<string> := ["bearer", "basic"]

  function KindsOf(make: string -> Kind, words: seq<string>): (kinds: seq<Kind>)
    ensures |kinds| == |words| && forall i :: 0 <= i < |words| ==> kinds[i] == make(words[i])
  {
    seq(|words|, i requires 0 <= i < |words| => make(words[i]))
  }

  function NameKind(name: string): Kind { Named(name) }

  function SchemeKind(scheme: string): Kind { Scheme(scheme) }

  function HeaderKind(header: string): Kind { Header(header) }

  /** The passes in their order: schemes, then names, then headers. */
  const KINDS: seq<Kind> :=
    KindsOf(SchemeKind, SCHEMES) + KindsOf(NameKind, SENSITIVE_VALUE_NAMES) + KindsOf(HeaderKind, SENSITIVE_LINE_HEADERS)

  lemma PasswordNamesAreValid(i: nat)
    requires i < |PASSWORD_NAMES|
    ensures ValidKind(Named(PASSWORD_NAMES[i]))
  {}

  lemma SecretNamesAreValid(i: nat)
    requires i < |SECRET_NAMES|
    ensures ValidKind(Named(SECRET_NAMES[i]))
  {}

  lemma TokenNamesAreValid(i: nat)
    requires i < |TOKEN_NAMES|
    ensures ValidKind(Named(TOKEN_NAMES[i]))
  {}

  lemma StoreNamesAreValid(i: nat)
    requires i < |STORE_NAMES|
    ensures ValidKind(Named(STORE_NAMES[i]))
  {}

  lemma NamesAreValid(i: nat)
    requires i < |SENSITIVE_VALUE_NAMES|
    ensures ValidKind(Named(SENSITIVE_VALUE_NAMES[i]))
  {
    hide ValidKind;
    if i < 7 {
      PasswordNamesAreValid(i);
    } else if i < 12 {
      SecretNamesAreValid(i - 7);
    } else if i < 18 {
      TokenNamesAreValid(i - 12);
    } else {
      StoreNamesAreValid(i - 18);
    }
  }

  lemma SchemesAreValid(i: nat)
    requires i < |SCHEMES|
    ensures ValidKind(Scheme(SCHEMES[i]))
  {}

  lemma HeadersAreValid(i: nat)
    requires i < |SENSITIVE_LINE_HEADERS|
    ensures ValidKind(Header(SENSITIVE_LINE_HEADERS[i]))
  {}

  lemma KindsAreValid(i: nat)
    requires i < |KINDS|
    ensures ValidKind(KINDS[i])
  {
    hide ValidKind;
    var schemes, names := |SCHEMES|, |SENSITIVE_VALUE_NAMES|;
    if i < schemes {
      SchemesAreValid(i);
    } else if i < schemes + names {
      NamesAreValid(i - schemes);
    } else {
      HeadersAreValid(i - schemes - names);
    }
  }

  /** Which words they are. */
  predicate Configured(kind: Kind) {
    match kind
    case Scheme(scheme) => scheme in ["bearer", "basic"]
    case Named(name) =>
      || name in ["password", "passwd", "pwd", "api_key", "api-key", "apikey", "x-api-key"]
      || name in ["secret", "client_secret", "client-secret", "access_token", "access-token", "refresh_token", "refresh-token"]
      || name in ["auth_token", "auth-token", "session_token", "session-token", "cookie", "set-cookie"]
      || name in ["database_url", "database-url", "db_url", "db-url", "connection_string", "connection-string", "dsn"]
    case Header(header) => header in ["authorization:", "proxy-authorization:", "cookie:", "set-cookie:", "x-api-key:"]
  }

  lemma KindsAreConfigured(kind: Kind)
    ensures kind in KINDS <==> Configured(kind)
  {
    match kind
    case Scheme(scheme) =>
      KindsAreListed(SchemeKind, SCHEMES, kind);
    case Named(name) =>
      KindsAreListed(NameKind, SENSITIVE_VALUE_NAMES, kind);
    case Header(header) =>
      KindsAreListed(HeaderKind, SENSITIVE_LINE_HEADERS, kind);
  }

  lemma KindsAreListed(make: string -> Kind, words: seq<string>, kind: Kind)
    requires make(kind.word) == kind && forall word :: make(word).word == word
    ensures kind in KindsOf(make, words) <==> kind.word in words
  {
    if kind.word in words {
      var i :| 0 <= i < |words| && words[i] == kind.word;
      assert KindsOf(make, words)[i] == kind;
    }
  }
}
