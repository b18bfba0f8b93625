/** Project activation as a crash-recoverable transaction over four durable cells, and its recovery. */
module Activation {
  import opened Text
  import opened Session

  const MAX_INSTALL_JOURNAL_BYTES: nat := 2 * 1024 * 1024
  const MAX_STAGED_MANIFEST_BYTES: nat := 2 * 1024 * 1024

  /** Library code seen from outside: SHA-256 of a text in lower-case hex, the rendered size of a journal, a lock
      text parsed and rendered again (None when it does not parse), and whether a manifest text parses. */
  datatype Env = Env(
    sha: string -> string,
    journalBytes: SessionValue -> nat,
    canonical: string -> Option<string>,
    manifestParses: string -> bool)

  /** The durable files of one project; `builds` are the per-session build directories. */
  datatype Project = Project(
    journal: Option<SessionValue>,
    staged: Option<string>,
    lock: Option<string>,
    manifest: Option<string>,
    builds: set<string>)

  /** One durable file operation. Atomic replacement makes each of them all or nothing. */
  datatype Action =
    | WriteJournal(session: SessionValue)
    | WriteStaged(text: string)
    | WriteLock(text: string)
    | WriteManifest(text: string)
    | RemoveStaged
    | RemoveJournal
    | RemoveBuild(sessionId: string)

  function Apply(d: Project, a: Action): Project {
    match a
    case WriteJournal(s) => d.(journal := Some(s))
    case WriteStaged(text) => d.(staged := Some(text))
    case WriteLock(text) => d.(lock := Some(text))
    case WriteManifest(text) => d.(manifest := Some(text))
    case RemoveStaged => d.(staged := None)
    case RemoveJournal => d.(journal := None)
    case RemoveBuild(id) => d.(builds := d.builds - {id})
  }

  function ApplyAll(d: Project, script: seq<Action>): Project
    decreases |script|
  {
    if script == [] then d else Apply(ApplyAll(d, script[..|script| - 1]), script[|script| - 1])
  }

  lemma {:induction false} ApplyAllConcat(d: Project, a: seq<Action>, b: seq<Action>)
    ensures ApplyAll(d, a + b) == ApplyAll(ApplyAll(d, a), b)
    decreases |b|
  {
    if b == [] {
      assert a + b == a;
    } else {
      ApplyAllConcat(d, a, b[..|b| - 1]);
      assert (a + b)[..|a + b| - 1] == a + b[..|b| - 1];
    }
  }

  datatype ActivationError =
    | SessionFailed(error: SessionError)
    | InvalidJournal
    | MissingProof
    | UnexpectedProof
    | NotReady
    | InstallStateTooLarge
    | LockUnreadable
    | ManifestUnreadable
    | CommittedLockMissingStagedManifest
    | StagedManifestHashMismatch
    | Interrupted

  datatype Recovery = Clean | RolledBackUncommitted | CompletedManifestPublication | CleanedCommittedJournal

  datatype Plan<R> = Plan(script: seq<Action>, outcome: Result<R, ActivationError>)

  predicate Fits(text: Option<string>) {
    text.Some? ==> Utf8Length(text.value) <= MAX_STAGED_MANIFEST_BYTES
  }

  predicate LockIs(env: Env, lock: Option<string>, digest: string) {
    lock.Some? && env.canonical(lock.value).Some? && env.sha(env.canonical(lock.value).value) == digest
  }

  predicate ManifestIs(env: Env, manifest: Option<string>, digest: string) {
    manifest.Some? && env.sha(manifest.value) == digest
  }

  // ----- recovery

  /** What recovery decides from the files as it finds them, and the operations it then performs. */
  function RecoveryPlan(env: Env, d: Project): Plan<Recovery> {
    if d.journal.None? then Plan([RemoveStaged], Ok(Clean))
    else
      var s := d.journal.value;
      var cleanup := [RemoveStaged, RemoveJournal, RemoveBuild(s.sessionId)];
      if env.journalBytes(s) > MAX_INSTALL_JOURNAL_BYTES then Plan([], Err(InstallStateTooLarge))
      else if !Valid(s) then Plan([], Err(InvalidJournal))
      else if !Fits(d.lock) then Plan([], Err(InstallStateTooLarge))
      else if d.lock.Some? && env.canonical(d.lock.value).None? then Plan([], Err(LockUnreadable))
      else if !LockIs(env, d.lock, s.targetLockSha256) then Plan(cleanup, Ok(RolledBackUncommitted))
      else if !Fits(d.manifest) then Plan([], Err(InstallStateTooLarge))
      else if ManifestIs(env, d.manifest, s.manifestSha256) then Plan(cleanup, Ok(CleanedCommittedJournal))
      else if !Fits(d.staged) then Plan([], Err(InstallStateTooLarge))
      else if d.staged.None? then Plan([], Err(CommittedLockMissingStagedManifest))
      else if env.sha(d.staged.value) != s.manifestSha256 then Plan([], Err(StagedManifestHashMismatch))
      else if !env.manifestParses(d.staged.value) then Plan([], Err(ManifestUnreadable))
      else Plan([WriteManifest(d.staged.value)] + cleanup, Ok(CompletedManifestPublication))
  }

  // ----- activation

  datatype Proof = Proof(observed: string, build: Option<string>, canActivate: bool)

  /** `instances` are the journal keys in the order the flow visits them. */
  datatype Activation = Activation(
    manifest: string,
    lock: string,
    session: SessionValue,
    instances: seq<string>,
    proofs: map<string, Proof>)

  /** What planning hands to the flow: a fresh journal pinning the rendered target, and renderings that parse. */
  ghost predicate WellFormed(env: Env, a: Activation) {
    && Fresh(a.session)
    && a.session.manifestSha256 == env.sha(a.manifest) && a.session.targetLockSha256 == env.sha(a.lock)
    && env.canonical(a.lock) == Some(a.lock) && env.manifestParses(a.manifest)
    && (set key | key in a.instances) == a.session.packages.Keys
    && (forall i, j :: 0 <= i < j < |a.instances| ==> a.instances[i] != a.instances[j])
  }

  function PackageMarks(instance: string, proof: Proof): seq<Mark> {
    [ MarkArtifactVerified(instance, proof.observed),
      MarkPrepared(instance, proof.build),
      MarkAttested(instance, proof.canActivate),
      MarkReady(instance) ]
  }

  function AllMarks(instances: seq<string>, proofs: map<string, Proof>): seq<Mark>
    requires forall i :: 0 <= i < |instances| ==> instances[i] in proofs
    decreases |instances|
  {
    if instances == [] then []
    else
      var n := |instances| - 1;
      AllMarks(instances[..n], proofs) + PackageMarks(instances[n], proofs[instances[n]])
  }

  datatype Marked = Marked(script: seq<Action>, session: SessionValue, error: Option<ActivationError>)

  function MarkOne(s: SessionValue, m: Mark): Marked {
    match Step(s, m)
    case Err(e) => Marked([], s, Some(SessionFailed(e)))
    case Ok(t) => if Valid(t) then Marked([WriteJournal(t)], t, None) else Marked([], t, Some(InvalidJournal))
  }

  /** Marks persisted one by one until one fails. */
  function MarkAll(s: SessionValue, marks: seq<Mark>): Marked
    decreases |marks|
  {
    if marks == [] then Marked([], s, None)
    else
      var before := MarkAll(s, marks[..|marks| - 1]);
      if before.error.Some? then before
      else
        var one := MarkOne(before.session, marks[|marks| - 1]);
        one.(script := before.script + one.script)
  }

  /** The operations after the last package is ready: the lock swap is the commit point. */
  function CommitScript(a: Activation, ready: SessionValue): seq<Action> {
    [ WriteStaged(a.manifest), WriteJournal(ready), WriteLock(a.lock), WriteManifest(a.manifest), RemoveStaged,
      WriteJournal(ready.(phase := Committed)), RemoveJournal ]
  }

  function ActivationPlan(a: Activation): Plan<nat> {
    if exists key :: key in a.proofs && key !in a.session.packages then Plan([], Err(UnexpectedProof))
    else if exists key :: key in a.session.packages && key !in a.proofs then Plan([], Err(MissingProof))
    else if exists i :: 0 <= i < |a.instances| && a.instances[i] !in a.proofs then Plan([], Err(MissingProof))
    else if !Valid(a.session) then Plan([], Err(InvalidJournal))
    else
      var marked := MarkAll(a.session, AllMarks(a.instances, a.proofs));
      var script := [WriteJournal(a.session)] + marked.script;
      if marked.error.Some? then Plan(script, Err(marked.error.value))
      else if marked.session.phase != ReadyToCommit then Plan(script, Err(NotReady))
      else Plan(script + CommitScript(a, marked.session), Ok(|a.session.packages|))
  }

  /** An activation first recovers, then runs from the recovered files. */
  function FullPlan(env: Env, d: Project, a: Activation): Plan<nat> {
    var first := RecoveryPlan(env, d);
    match first.outcome
    case Err(e) => Plan(first.script, Err(e))
    case Ok(_) =>
      var second := ActivationPlan(a);
      second.(script := first.script + second.script)
  }
}
