/** The durable install session: per-package stages and the phase they determine. */
module Session {
  import opened Text

  const INSTALL_SESSION_FORMAT: nat := 1

  datatype Phase = Preparing | ReadyToCommit | Committed

  datatype PackageState = Pending | ArtifactVerified | Prepared | Attested | Ready

  datatype SessionPackage = SessionPackage(
    root: string,
    package: string,
    isPrivate: bool,
    version: string,
    artifactSha256: string,
    state: PackageState,
    buildId: Option<string>)

  /** One value of the session, as it is written to the journal. */
  datatype SessionValue = SessionValue(
    format: nat,
    sessionId: string,
    manifestSha256: string,
    targetLockSha256: string,
    phase: Phase,
    packages: map<string, SessionPackage>)

  datatype SessionError =
    | UnsupportedFormat
    | EmptySession
    | InvalidSessionId
    | InvalidPackageName(name: string)
    | InvalidSha256
    | InvalidText
    | InvalidJournalState(key: string)
    | InvalidPhaseState
    | UnknownPackage(instance: string)
    | InvalidInstanceKey(key: string)
    | InvalidRootInstance(name: string)
    | InvalidPrivateInstance(root: string, package: string)
    | SessionNotPreparing
    | SessionNotReady
    | InvalidPackageTransition(instance: string, expected: PackageState, actual: PackageState)
    | ArtifactHashMismatch(instance: string)
    | PackageQuarantined(instance: string)

  // ----- field checks

  predicate ValidSessionId(s: string) {
    s != "" && |s| <= 96 && forall i :: 0 <= i < |s| ==> IsAlphanumeric(s[i]) || s[i] in "-_"
  }

  predicate NameChar(c: char) { IsLower(c) || IsDigit(c) || c in "-_" }

  predicate ValidNamePart(part: string) {
    part != "" && forall i :: 0 <= i < |part| ==> NameChar(part[i])
  }

  predicate ValidPackageName(s: string) {
    var parts := Split(s, '.');
    && s != "" && |s| <= 192
    && forall k :: 0 <= k < |parts| ==> ValidNamePart(parts[k])
  }

  predicate ValidText(s: string) {
    && (exists i :: 0 <= i < |s| && !IsWhitespace(s[i]))
    && Utf8Length(s) <= 512
    && (forall i :: 0 <= i < |s| ==> !IsControl(s[i]))
  }

  function InstanceKey(root: string, package: string, isPrivate: bool): Result<string, SessionError> {
    if !ValidPackageName(root) then Err(InvalidPackageName(root))
    else if !ValidPackageName(package) then Err(InvalidPackageName(package))
    else if isPrivate then
      if root == package then Err(InvalidPrivateInstance(root, package)) else Ok(root + "::" + package)
    else
      if root != package then Err(InvalidRootInstance(package)) else Ok(package)
  }

  lemma NameHasNoColon(s: string)
    requires ValidPackageName(s)
    ensures ':' !in s
  {
    forall i | 0 <= i < |s|
      ensures s[i] != ':'
    {
      if s[i] != '.' {
        SplitCovers(s, '.', i);
      }
    }
  }

  /** Two instances never share a journal key. */
  lemma InstanceKeyInjective(r1: string, p1: string, v1: bool, r2: string, p2: string, v2: bool)
    requires InstanceKey(r1, p1, v1).Ok?
    requires InstanceKey(r1, p1, v1) == InstanceKey(r2, p2, v2)
    ensures r1 == r2 && p1 == p2 && v1 == v2
  {
    NameHasNoColon(r1);
    NameHasNoColon(p1);
    NameHasNoColon(r2);
    NameHasNoColon(p2);
    var k := InstanceKey(r1, p1, v1).value;
    if v1 {
      assert k[|r1|] == ':';
    }
    if v2 {
      assert k[|r2|] == ':';
    }
    if v1 && v2 {
      assert forall i :: 0 <= i < |r1| ==> k[i] == r1[i];
      assert forall i :: 0 <= i < |r2| ==> k[i] == r2[i];
      assert |r1| == |r2|;
      assert r1 == k[..|r1|] == r2;
      assert p1 == k[|r1| + 2..] == p2;
    }
  }

  // ----- what `validate` accepts

  predicate ValidPackage(key: string, p: SessionPackage) {
    && InstanceKey(p.root, p.package, p.isPrivate) == Ok(key)
    && ValidText(p.version)
    && IsSha256(p.artifactSha256)
    && (p.buildId.Some? ==> ValidText(p.buildId.value))
    && (p.state == Pending || p.state == ArtifactVerified ==> p.buildId.None?)
  }

  predicate AllReady(packages: map<string, SessionPackage>) {
    forall key :: key in packages ==> packages[key].state == Ready
  }

  predicate Valid(s: SessionValue) {
    && s.format == INSTALL_SESSION_FORMAT
    && ValidSessionId(s.sessionId)
    && IsSha256(s.manifestSha256)
    && IsSha256(s.targetLockSha256)
    && |s.packages| > 0
    && (forall key :: key in s.packages ==> ValidPackage(key, s.packages[key]))
    && (s.phase == Preparing <==> !AllReady(s.packages))
  }

  /** A journal as an install first writes it: nothing done yet. */
  predicate Fresh(s: SessionValue) {
    && Valid(s) && s.phase == Preparing
    && forall key :: key in s.packages ==> s.packages[key].state == Pending
  }

  // ----- the stage transitions

  datatype Mark =
    | MarkArtifactVerified(instance: string, observed: string)
    | MarkPrepared(instance: string, build: Option<string>)
    | MarkAttested(instance: string, canActivate: bool)
    | MarkReady(instance: string)
    | MarkCommitted

  function Instance(s: SessionValue, instance: string, expected: PackageState): Result<SessionPackage, SessionError> {
    if s.phase != Preparing then Err(SessionNotPreparing)
    else if instance !in s.packages then Err(UnknownPackage(instance))
    else
      var actual := s.packages[instance].state;
      if actual != expected then Err(InvalidPackageTransition(instance, expected, actual))
      else Ok(s.packages[instance])
  }

  function Put(s: SessionValue, instance: string, p: SessionPackage): SessionValue {
    s.(packages := s.packages[instance := p])
  }

  function Refreshed(s: SessionValue): SessionValue {
    if AllReady(s.packages) then s.(phase := ReadyToCommit) else s
  }

  /** The session after one mark, or the error that leaves it as it was. */
  function Step(s: SessionValue, m: Mark): Result<SessionValue, SessionError> {
    match m
    case MarkArtifactVerified(key, observed) =>
      if !IsSha256(observed) then Err(InvalidSha256)
      else (
        match Instance(s, key, Pending)
        case Err(e) => Err(e)
        case Ok(p) =>
          if Lower(observed) != p.artifactSha256 then Err(ArtifactHashMismatch(key))
          else Ok(Put(s, key, p.(state := ArtifactVerified)))
      )
    case MarkPrepared(key, build) =>
      if build.Some? && !ValidText(build.value) then Err(InvalidText)
      else (
        match Instance(s, key, ArtifactVerified)
        case Err(e) => Err(e)
        case Ok(p) => Ok(Put(s, key, p.(buildId := build, state := Prepared)))
      )
    case MarkAttested(key, canActivate) =>
      if !canActivate then Err(PackageQuarantined(key))
      else (
        match Instance(s, key, Prepared)
        case Err(e) => Err(e)
        case Ok(p) => Ok(Put(s, key, p.(state := Attested)))
      )
    case MarkReady(key) => (
      match Instance(s, key, Attested)
      case Err(e) => Err(e)
      case Ok(p) => Ok(Refreshed(Put(s, key, p.(state := Ready))))
    )
    case MarkCommitted =>
      if s.phase != ReadyToCommit then Err(SessionNotReady) else Ok(s.(phase := Committed))
  }

  function Rank(state: PackageState): nat {
    match state
    case Pending => 0
    case ArtifactVerified => 1
    case Prepared => 2
    case Attested => 3
    case Ready => 4
  }

  /** An accepted stage mark moves one package to its next stage and touches nothing else of it but, when it
      prepares it, the build id. */
  lemma StepMovesOnePackage(s: SessionValue, m: Mark)
    requires Step(s, m).Ok? && !m.MarkCommitted?
    ensures s.phase == Preparing && m.instance in s.packages
    ensures var t, p := Step(s, m).value, s.packages[m.instance];
            var state := Step(s, m).value.packages[m.instance].state;
            && Rank(state) == Rank(p.state) + 1
            && t.packages == s.packages[m.instance := p.(state := state, buildId := if m.MarkPrepared? then m.build else p.buildId)]
            && t == (if AllReady(t.packages) && m.MarkReady? then s.(packages := t.packages, phase := ReadyToCommit)
                     else s.(packages := t.packages))
  {}

  lemma NextStageIsValid(key: string, p: SessionPackage, q: SessionPackage)
    requires ValidPackage(key, p)
    requires q == p.(state := q.state, buildId := q.buildId)
    requires q.buildId == p.buildId || (q.buildId.Some? ==> ValidText(q.buildId.value))
    requires q.state == Pending || q.state == ArtifactVerified ==> q.buildId.None?
    ensures ValidPackage(key, q)
  {}

  /** Every accepted mark keeps the journal acceptable to `validate`. */
  lemma StepKeepsValid(s: SessionValue, m: Mark)
    requires Valid(s) && Step(s, m).Ok?
    ensures Valid(Step(s, m).value)
  {
    hide InstanceKey, ValidText, IsSha256, ValidSessionId;
    var t := Step(s, m).value;
    if !m.MarkCommitted? {
      StepMovesOnePackage(s, m);
      var key := m.instance;
      NextStageIsValid(key, s.packages[key], t.packages[key]);
      forall k | k in t.packages
        ensures ValidPackage(k, t.packages[k])
      {
        assert k != key ==> t.packages[k] == s.packages[k];
      }
      assert !m.MarkReady? ==> t.packages[key].state != Ready;
    }
  }

  /** A run of marks; rejected ones leave the session as it was. */
  function Run(s: SessionValue, marks: seq<Mark>): SessionValue
    decreases |marks|
  {
    if marks == [] then s
    else
      var before := Run(s, marks[..|marks| - 1]);
      var r := Step(before, marks[|marks| - 1]);
      if r.Ok? then r.value else before
  }

  /** The accepted marks of one instance, in order. */
  function Trail(s: SessionValue, marks: seq<Mark>, key: string): seq<Mark>
    decreases |marks|
  {
    if marks == [] then []
    else
      var last := marks[|marks| - 1];
      var earlier := Trail(s, marks[..|marks| - 1], key);
      if Step(Run(s, marks[..|marks| - 1]), last).Ok? && !last.MarkCommitted? && last.instance == key
      then earlier + [last] else earlier
  }

  /** The only trail that leads to the given stage: verified with its own hash, prepared, attested by an
      activating gate, ready; each once and in that order. */
  ghost predicate ProperTrail(trail: seq<Mark>, key: string, artifactSha256: string, state: PackageState) {
    && |trail| == Rank(state)
    && (|trail| > 0 ==> exists observed ::
          trail[0] == MarkArtifactVerified(key, observed) && IsSha256(observed) && Lower(observed) == artifactSha256)
    && (|trail| > 1 ==> trail[1].MarkPrepared? && trail[1].instance == key)
    && (|trail| > 2 ==> trail[2] == MarkAttested(key, true))
    && (|trail| > 3 ==> trail[3] == MarkReady(key))
  }

  predicate SameIdentity(s: SessionValue, t: SessionValue) {
    && t.format == s.format && t.sessionId == s.sessionId
    && t.manifestSha256 == s.manifestSha256 && t.targetLockSha256 == s.targetLockSha256
    && t.packages.Keys == s.packages.Keys
    && forall key :: key in s.packages ==>
         t.packages[key].(state := s.packages[key].state, buildId := s.packages[key].buildId) == s.packages[key]
  }

  lemma StepKeepsIdentity(s: SessionValue, before: SessionValue, m: Mark)
    requires SameIdentity(s, before) && Step(before, m).Ok?
    ensures SameIdentity(s, Step(before, m).value)
  {
    if !m.MarkCommitted? {
      StepMovesOnePackage(before, m);
    }
  }

  /** Whatever marks arrive, in whatever order, the journal stays valid, pins the same target and packages,
      and has left Preparing exactly when every package is Ready. */
  lemma {:induction false} RunKeepsValid(s: SessionValue, marks: seq<Mark>)
    requires Valid(s)
    ensures Valid(Run(s, marks)) && SameIdentity(s, Run(s, marks))
    ensures Run(s, marks).phase != Preparing <==> AllReady(Run(s, marks).packages)
    decreases |marks|
  {
    if marks != [] {
      var before := Run(s, marks[..|marks| - 1]);
      var last := marks[|marks| - 1];
      RunKeepsValid(s, marks[..|marks| - 1]);
      if Step(before, last).Ok? {
        StepKeepsValid(before, last);
        StepKeepsIdentity(s, before, last);
      }
    }
  }

  lemma TrailGrows(trail: seq<Mark>, s: SessionValue, m: Mark, key: string, artifactSha256: string)
    requires key in s.packages && s.packages[key].artifactSha256 == artifactSha256
    requires ProperTrail(trail, key, artifactSha256, s.packages[key].state)
    requires Step(s, m).Ok?
    ensures var t, own := Step(s, m).value, !m.MarkCommitted? && m.instance == key;
            && key in t.packages && t.packages[key].artifactSha256 == artifactSha256
            && ProperTrail(if own then trail + [m] else trail, key, artifactSha256, t.packages[key].state)
  {
    if !m.MarkCommitted? {
      StepMovesOnePackage(s, m);
      var grown := trail + [m];
      assert forall i :: 0 <= i < |trail| ==> grown[i] == trail[i];
      assert grown[|trail|] == m;
    }
  }

  /** From a fresh journal, the stage of every package is exactly the trail of accepted marks behind it. */
  lemma {:induction false} StagesInOrder(s: SessionValue, marks: seq<Mark>, key: string)
    requires Fresh(s) && key in s.packages
    ensures key in Run(s, marks).packages && Run(s, marks).packages[key].artifactSha256 == s.packages[key].artifactSha256
    ensures ProperTrail(Trail(s, marks, key), key, s.packages[key].artifactSha256, Run(s, marks).packages[key].state)
    decreases |marks|
  {
    if marks != [] {
      var init, last := marks[..|marks| - 1], marks[|marks| - 1];
      StagesInOrder(s, init, key);
      if Step(Run(s, init), last).Ok? {
        TrailGrows(Trail(s, init, key), Run(s, init), last, key, s.packages[key].artifactSha256);
      }
    }
  }

  /** Committed is reached only with every package having passed every stage. */
  lemma CommittedOnlyWhenReady(s: SessionValue, marks: seq<Mark>, key: string)
    requires Fresh(s) && key in s.packages && Run(s, marks).phase == Committed
    ensures |Trail(s, marks, key)| == 4 && Trail(s, marks, key)[3] == MarkReady(key)
  {
    hide Valid, Run, Trail, SameIdentity, ValidPackage;
    FreshIsValid(s);
    RunKeepsValid(s, marks);
    StagesInOrder(s, marks, key);
    assert key in Run(s, marks).packages;
  }

  lemma FreshIsValid(s: SessionValue)
    requires Fresh(s)
    ensures Valid(s)
  {}

  // ----- the session object

  class InstallSession {
    const format: nat
    const sessionId: string
    const manifestSha256: string
    const targetLockSha256: string
    var phase: Phase
    var packages: map<string, SessionPackage>

    constructor (s: SessionValue)
      ensures Value() == s
    {
      format, sessionId, manifestSha256, targetLockSha256 := s.format, s.sessionId, s.manifestSha256, s.targetLockSha256;
      phase, packages := s.phase, s.packages;
    }

    function Value(): SessionValue
      reads this
    {
      SessionValue(format, sessionId, manifestSha256, targetLockSha256, phase, packages)
    }

    /** Accepts exactly the valid sessions. */
    method Validate() returns (ok: bool)
      ensures ok <==> Valid(Value())
    {
      if format != INSTALL_SESSION_FORMAT || !ValidSessionId(sessionId) || !IsSha256(manifestSha256)
         || !IsSha256(targetLockSha256) || |packages| == 0 {
        return false;
      }
      var allReady := true;
      var left := packages.Keys;
      while left != {}
        invariant left <= packages.Keys
        invariant forall key :: key in packages.Keys - left ==> ValidPackage(key, packages[key])
        invariant allReady <==> forall key :: key in packages.Keys - left ==> packages[key].state == Ready
        decreases |left|
      {
        var key :| key in left;
        if !ValidPackage(key, packages[key]) {
          return false;
        }
        allReady := allReady && packages[key].state == Ready;
        left := left - {key};
      }
      assert allReady <==> AllReady(packages);
      ok := match phase case Preparing => !allReady case _ => allReady;
    }

    /** The mutable entry of an instance that is in the stage a mark expects. */
    method RequireInstance(instance: string, expected: PackageState) returns (r: Result<SessionPackage, SessionError>)
      ensures r == Instance(Value(), instance, expected)
    {
      if phase != Preparing {
        return Err(SessionNotPreparing);
      }
      if instance !in packages {
        return Err(UnknownPackage(instance));
      }
      var actual := packages[instance].state;
      if actual != expected {
        return Err(InvalidPackageTransition(instance, expected, actual));
      }
      return Ok(packages[instance]);
    }

    method MarkArtifactVerified(instance: string, observed: string) returns (r: Result<(), SessionError>)
      modifies this
      ensures Tracks(old(Value()), Mark.MarkArtifactVerified(instance, observed), r)
    {
      if !IsSha256(observed) {
        return Err(InvalidSha256);
      }
      var entry := RequireInstance(instance, Pending);
      if entry.Err? {
        return Err(entry.error);
      }
      if Lower(observed) != entry.value.artifactSha256 {
        return Err(ArtifactHashMismatch(instance));
      }
      packages := packages[instance := entry.value.(state := ArtifactVerified)];
      return Ok(());
    }

    method MarkPrepared(instance: string, build: Option<string>) returns (r: Result<(), SessionError>)
      modifies this
      ensures Tracks(old(Value()), Mark.MarkPrepared(instance, build), r)
    {
      if build.Some? && !ValidText(build.value) {
        return Err(InvalidText);
      }
      var entry := RequireInstance(instance, ArtifactVerified);
      if entry.Err? {
        return Err(entry.error);
      }
      packages := packages[instance := entry.value.(buildId := build, state := Prepared)];
      return Ok(());
    }

    method MarkAttested(instance: string, canActivate: bool) returns (r: Result<(), SessionError>)
      modifies this
      ensures Tracks(old(Value()), Mark.MarkAttested(instance, canActivate), r)
    {
      if !canActivate {
        return Err(PackageQuarantined(instance));
      }
      var entry := RequireInstance(instance, Prepared);
      if entry.Err? {
        return Err(entry.error);
      }
      packages := packages[instance := entry.value.(state := Attested)];
      return Ok(());
    }

    method MarkReady(instance: string) returns (r: Result<(), SessionError>)
      modifies this
      ensures Tracks(old(Value()), Mark.MarkReady(instance), r)
    {
      var entry := RequireInstance(instance, Attested);
      if entry.Err? {
        return Err(entry.error);
      }
      packages := packages[instance := entry.value.(state := Ready)];
      RefreshPhase();
      return Ok(());
    }

    method RefreshPhase()
      modifies this
      ensures Value() == Refreshed(old(Value()))
    {
      if forall key :: key in packages ==> packages[key].state == Ready {
        phase := ReadyToCommit;
      }
    }

    method MarkCommitted() returns (r: Result<(), SessionError>)
      modifies this
      ensures Tracks(old(Value()), Mark.MarkCommitted, r)
    {
      if phase != ReadyToCommit {
        return Err(SessionNotReady);
      }
      phase := Committed;
      return Ok(());
    }

    /** The object moved as `Step` says, and a failed call changed nothing. */
    ghost predicate Tracks(before: SessionValue, m: Mark, r: Result<(), SessionError>)
      reads this
    {
      match Step(before, m)
      case Ok(after) => r == Ok(()) && Value() == after
      case Err(e) => r == Err(e) && Value() == before
    }
  }
}
