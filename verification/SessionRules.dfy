/** What a session accepts and what it refuses, spelled out character by character and field by field. */
module SessionRules {
  import opened Text
  import opened Utf8Text
  import opened Session

  // ----- names and texts

  predicate NameLetter(c: char) { 'a' <= c <= 'z' || '0' <= c <= '9' || c == '-' || c == '_' }

  /** Lower-case words with single dots between them. */
  predicate IsName(s: string) {
    && 0 < |s| <= 192 && s[0] != '.' && s[|s| - 1] != '.'
    && (forall i :: 0 <= i < |s| ==> NameLetter(s[i]) || s[i] == '.')
    && forall i :: 0 < i < |s| ==> !(s[i - 1] == '.' && s[i] == '.')
  }

  /** What follows a letter of a name. */
  predicate NameGoesOn(s: string) {
    && (s != "" ==> s[|s| - 1] != '.')
    && (forall i :: 0 <= i < |s| ==> NameLetter(s[i]) || s[i] == '.')
    && forall i :: 0 < i < |s| ==> !(s[i - 1] == '.' && s[i] == '.')
  }

  lemma {:induction false} PartsGoOn(s: string)
    ensures var parts := Split(s, '.');
            NameGoesOn(s) <==>
              && (forall i :: 0 <= i < |parts[0]| ==> NameChar(parts[0][i]))
              && forall k :: 1 <= k < |parts| ==> ValidNamePart(parts[k])
  {
    var parts := Split(s, '.');
    if s != "" {
      var rest := Split(s[1..], '.');
      PartsGoOn(s[1..]);
      GoesOnFirst(s);
      if s[0] == '.' {
        PartsBegin(s[1..]);
        assert parts[1..] == rest;
        assert forall k :: 1 <= k < |parts| ==> parts[k] == rest[k - 1];
      } else {
        assert parts[0] == [s[0]] + rest[0] && forall k :: 1 <= k < |parts| ==> parts[k] == rest[k];
        assert forall i :: 1 <= i < |parts[0]| ==> parts[0][i] == rest[0][i - 1];
        assert parts[0][0] == s[0];
        assert forall i :: 0 <= i < |rest[0]| ==> rest[0][i] == parts[0][i + 1];
      }
    }
  }

  lemma GoesOnFirst(s: string)
    requires s != ""
    ensures NameGoesOn(s) <==>
              NameGoesOn(s[1..]) && if s[0] == '.' then s[1..] != "" && s[1] != '.' else NameLetter(s[0])
  {
    assert s == [s[0]] + s[1..];
    assert forall i :: 0 <= i < |s[1..]| ==> s[1..][i] == s[i + 1];
  }

  /** The first part is a part only when the text begins with a letter of it. */
  lemma PartsBegin(s: string)
    ensures Split(s, '.')[0] != "" <==> s != "" && s[0] != '.'
  {}

  lemma NameIff(s: string)
    ensures ValidPackageName(s) <==> IsName(s)
  {
    PartsGoOn(s);
    PartsBegin(s);
    var parts := Split(s, '.');
    assert ValidPackageName(s) <==>
             s != "" && |s| <= 192 && ValidNamePart(parts[0]) && forall k :: 1 <= k < |parts| ==> ValidNamePart(parts[k]);
  }

  function Scalars(s: string): (r: seq<Scalar>)
    ensures |r| == |s| && forall i :: 0 <= i < |s| ==> r[i] == s[i] as int
  {
    seq(|s|, i requires 0 <= i < |s| => s[i] as int)
  }

  /** The measured length is that of the encoding. */
  lemma {:induction false} Utf8LengthIs(s: string)
    ensures Utf8Length(s) == |Encode(Scalars(s))|
  {
    if s != "" {
      Utf8LengthIs(s[1..]);
      assert Scalars(s)[1..] == Scalars(s[1..]);
    }
  }

  predicate WhiteSpaceChar(c: char) {
    || '\t' <= c <= '\r' || c == ' ' || c in "\U{85}\U{A0}\U{1680}\U{2028}\U{2029}\U{202F}\U{205F}\U{3000}"
    || ('\U{2000}' <= c && c <= '\U{200A}')
  }

  /** Up to 512 bytes, not all white space, no control character. */
  predicate IsText(s: string) {
    && |Encode(Scalars(s))| <= 512 && (exists i :: 0 <= i < |s| && !WhiteSpaceChar(s[i]))
    && forall i :: 0 <= i < |s| ==> !(s[i] < ' ' || ('\U{7F}' <= s[i] && s[i] <= '\U{9F}'))
  }

  lemma TextIff(s: string)
    ensures ValidText(s) <==> IsText(s)
  {
    hide Utf8Length, Encode;
    Utf8LengthIs(s);
    forall c: char
      ensures IsWhitespace(c) <==> WhiteSpaceChar(c)
    {
      WhiteSpaceIs(c);
    }
  }

  lemma WhiteSpaceIs(c: char)
    ensures IsWhitespace(c) <==> WhiteSpaceChar(c)
  {}

  predicate IsHash(s: string) {
    |s| == 64 && forall i :: 0 <= i < 64 ==> '0' <= s[i] <= '9' || 'a' <= s[i] <= 'f' || 'A' <= s[i] <= 'F'
  }

  predicate IsId(s: string) {
    0 < |s| <= 96 && forall i :: 0 <= i < |s| ==>
      'a' <= s[i] <= 'z' || 'A' <= s[i] <= 'Z' || '0' <= s[i] <= '9' || s[i] == '-' || s[i] == '_'
  }

  // ----- journals

  /** A public package is its own root; a private one is written behind another root and two colons. */
  predicate IsKey(root: string, package: string, isPrivate: bool, key: string) {
    && IsName(root) && IsName(package)
    && if isPrivate then root != package && key == root + "::" + package else root == package && key == package
  }

  lemma KeyIff(root: string, package: string, isPrivate: bool, key: string)
    ensures InstanceKey(root, package, isPrivate) == Ok(key) <==> IsKey(root, package, isPrivate, key)
    ensures InstanceKey(root, package, isPrivate) == Err(InvalidPackageName(key)) <==>
              if IsName(root) then !IsName(package) && key == package else key == root
    ensures InstanceKey(root, package, isPrivate).Err? && IsName(root) && IsName(package) ==>
              InstanceKey(root, package, isPrivate).error ==
              if isPrivate then InvalidPrivateInstance(root, package) else InvalidRootInstance(package)
  {
    NameIff(root);
    NameIff(package);
  }

  predicate IsPackage(key: string, p: SessionPackage) {
    && IsKey(p.root, p.package, p.isPrivate, key) && IsText(p.version) && IsHash(p.artifactSha256)
    && (p.buildId.Some? ==> IsText(p.buildId.value) && p.state in {Prepared, Attested, Ready})
  }

  /** Preparing while some package is not ready, and only then. */
  predicate IsJournal(s: SessionValue) {
    && s.format == 1 && IsId(s.sessionId) && IsHash(s.manifestSha256) && IsHash(s.targetLockSha256) && s.packages != map[]
    && (forall key :: key in s.packages ==> IsPackage(key, s.packages[key]))
    && (s.phase == Preparing <==> exists key :: key in s.packages && s.packages[key].state != Ready)
  }

  lemma PackageIff(key: string, p: SessionPackage)
    ensures ValidPackage(key, p) <==> IsPackage(key, p)
  {
    hide InstanceKey, IsKey, ValidText, IsText;
    KeyIff(p.root, p.package, p.isPrivate, key);
    TextIff(p.version);
    if p.buildId.Some? {
      TextIff(p.buildId.value);
    }
  }

  /** The journals that are accepted. */
  lemma JournalIff(s: SessionValue)
    ensures Valid(s) <==> IsJournal(s)
  {
    hide ValidPackage, IsPackage;
    forall key | key in s.packages
      ensures ValidPackage(key, s.packages[key]) <==> IsPackage(key, s.packages[key])
    {
      PackageIff(key, s.packages[key]);
    }
    assert |s.packages| > 0 <==> s.packages != map[];
  }

  // ----- marks

  /** The stage a mark leaves. */
  function StageBefore(m: Mark): PackageState
    requires !m.MarkCommitted?
  {
    match m
    case MarkArtifactVerified(_, _) => Pending
    case MarkPrepared(_, _) => ArtifactVerified
    case MarkAttested(_, _) => Prepared
    case MarkReady(_) => Attested
  }

  /** What a mark brings must pass by itself, before the session is looked at. */
  function BroughtProblem(m: Mark): Option<SessionError> {
    match m
    case MarkArtifactVerified(_, observed) => if IsHash(observed) then None else Some(InvalidSha256)
    case MarkPrepared(_, build) => if build.Some? && !IsText(build.value) then Some(InvalidText) else None
    case MarkAttested(key, canActivate) => if canActivate then None else Some(PackageQuarantined(key))
    case _ => None
  }

  /** Which marks are refused, and as what. */
  lemma RefusedMarks(s: SessionValue, m: Mark)
    ensures m.MarkCommitted? ==>
              if s.phase == ReadyToCommit then Step(s, m) == Ok(s.(phase := Committed)) else Step(s, m) == Err(SessionNotReady)
    ensures !m.MarkCommitted? ==>
              if BroughtProblem(m).Some? then Step(s, m) == Err(BroughtProblem(m).value)
              else if s.phase != Preparing then Step(s, m) == Err(SessionNotPreparing)
              else if m.instance !in s.packages then Step(s, m) == Err(UnknownPackage(m.instance))
              else
                var p := s.packages[m.instance];
                if p.state != StageBefore(m) then Step(s, m) == Err(InvalidPackageTransition(m.instance, StageBefore(m), p.state))
                else if m.MarkArtifactVerified? && !SameHash(m.observed, p.artifactSha256)
                then Step(s, m) == Err(ArtifactHashMismatch(m.instance))
                else Step(s, m).Ok?
  {
    hide ValidText, IsText;
    if m.MarkPrepared? && m.build.Some? {
      TextIff(m.build.value);
    }
    if m.MarkArtifactVerified? && m.instance in s.packages {
      SameHashIff(m.observed, s.packages[m.instance].artifactSha256);
    }
  }

  /** The observed digest, in lower case, is the pinned one. */
  predicate SameHash(observed: string, pinned: string) {
    |observed| == |pinned| && forall i :: 0 <= i < |observed| ==>
      pinned[i] == if 'A' <= observed[i] <= 'Z' then observed[i] - 'A' + 'a' else observed[i]
  }

  lemma SameHashIff(observed: string, pinned: string)
    ensures Lower(observed) == pinned <==> SameHash(observed, pinned)
  {}
}
