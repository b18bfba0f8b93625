/** Activation and recovery as they run: ordered writes and removals on the project's files, any of which may be
    the last one before the process stops. */
module ProjectStore {
  import opened Text
  import opened Session
  import opened Activation
  import ActivationSafety
  import opened RecoveryAnswers

  /** The marks `ms` have been made and journaled without an error; `k` journal writes are behind us. */
  ghost predicate At(a: Activation, ms: seq<Mark>, s: SessionValue, k: nat) {
    && (forall i :: 0 <= i < |a.instances| ==> a.instances[i] in a.proofs)
    && ms <= AllMarks(a.instances, a.proofs)
    && MarkAll(a.session, ms) == Marked(MarkAll(a.session, ms).script, s, None)
    && k == 1 + |MarkAll(a.session, ms).script|
  }

  /** The proofs are those of the journaled packages. */
  ghost predicate ProofsMatch(a: Activation) {
    && (forall key :: key in a.proofs ==> key in a.session.packages)
    && (forall key :: key in a.session.packages ==> key in a.proofs)
    && (forall i :: 0 <= i < |a.instances| ==> a.instances[i] in a.proofs)
  }

  lemma NothingMarked(a: Activation)
    requires ProofsMatch(a)
    ensures At(a, MarksBefore(a, 0), a.session, 1)
  {}

  ghost function MarksBefore(a: Activation, i: nat): seq<Mark>
    requires i <= |a.instances| && ProofsMatch(a)
  {
    AllMarks(a.instances[..i], a.proofs)
  }

  ghost function PlannedMarks(a: Activation): seq<Mark>
    requires ProofsMatch(a)
  {
    AllMarks(a.instances, a.proofs)
  }

  lemma {:induction false} MarksOfInstances(a: Activation, i: nat)
    requires i <= |a.instances| && ProofsMatch(a)
    ensures MarksBefore(a, i) <= PlannedMarks(a)
    ensures i < |a.instances| ==>
              MarksBefore(a, i + 1) == MarksBefore(a, i) + PackageMarks(a.instances[i], a.proofs[a.instances[i]])
    decreases |a.instances| - i
  {
    if i == |a.instances| {
      assert a.instances[..i] == a.instances;
    } else {
      MarksOfInstances(a, i + 1);
      assert a.instances[..i + 1][..i] == a.instances[..i];
    }
  }

  lemma StepKeepsKeys(s: SessionValue, m: Mark)
    ensures Step(s, m).Ok? ==> Step(s, m).value.packages.Keys == s.packages.Keys
  {}

  /** What the plan expects of the next mark. */
  lemma NextMark(a: Activation, ms: seq<Mark>, m: Mark, s: SessionValue, k: nat)
    requires ProofsMatch(a) && Valid(a.session) && At(a, ms, s, k)
    requires ms + [m] <= PlannedMarks(a)
    ensures var plan := ActivationPlan(a);
            match Step(s, m)
            case Err(e) => |plan.script| == k && plan.outcome == Err(SessionFailed(e))
            case Ok(t) =>
              if Valid(t) then k < |plan.script| && plan.script[k] == WriteJournal(t) && At(a, ms + [m], t, k + 1)
                && t.packages.Keys == s.packages.Keys
              else |plan.script| == k && plan.outcome == Err(InvalidJournal)
  {
    hide Valid, Step;
    StepKeepsKeys(s, m);
    var all := AllMarks(a.instances, a.proofs);
    var rest := all[|ms| + 1..];
    assert all == (ms + [m]) + rest && (ms + [m])[..|ms|] == ms;
    ActivationSafety.MarkAllConcat(a.session, ms + [m], rest);
  }

  lemma AllMarked(a: Activation, s: SessionValue, k: nat)
    requires ProofsMatch(a) && Valid(a.session) && At(a, MarksBefore(a, |a.instances|), s, k)
    ensures var plan := ActivationPlan(a);
            if s.phase != ReadyToCommit then |plan.script| == k && plan.outcome == Err(NotReady)
            else EndsInCommit(a, s, plan.script, k) && plan.outcome == Ok(|a.session.packages|)
  {
    hide Valid, Step, MarkAll, AllMarks;
    assert a.instances[..|a.instances|] == a.instances;
  }

  /** The script ends with the commit operations, from position `k` on. */
  ghost predicate EndsInCommit(a: Activation, s: SessionValue, script: seq<Action>, k: nat) {
    && |script| == k + 7
    && script[k] == WriteStaged(a.manifest) && script[k + 1] == WriteJournal(s)
    && script[k + 2] == WriteLock(a.lock) && script[k + 3] == WriteManifest(a.manifest) && script[k + 4] == RemoveStaged
    && script[k + 5] == WriteJournal(s.(phase := Committed)) && script[k + 6] == RemoveJournal
  }

  lemma CommittedIsValid(s: SessionValue)
    requires Valid(s) && s.phase == ReadyToCommit
    ensures Valid(s.(phase := Committed))
  {}

  method CheckProofs(a: Activation) returns (r: Result<(), ActivationError>)
    ensures r.Ok? ==> ProofsMatch(a)
    ensures r.Err? ==> ActivationPlan(a) == Plan([], Err(r.error))
  {
    hide Valid, MarkAll, AllMarks;
    if exists key :: key in a.proofs && key !in a.session.packages {
      return Err(UnexpectedProof);
    }
    if exists key :: key in a.session.packages && key !in a.proofs {
      return Err(MissingProof);
    }
    if exists i :: 0 <= i < |a.instances| && a.instances[i] !in a.proofs {
      return Err(MissingProof);
    }
    return Ok(());
  }

  lemma PlanStarts(a: Activation)
    requires ProofsMatch(a)
    ensures if Valid(a.session) then |ActivationPlan(a).script| > 0 && ActivationPlan(a).script[0] == WriteJournal(a.session)
            else ActivationPlan(a) == Plan([], Err(InvalidJournal))
  {
    hide Valid, MarkAll, AllMarks;
  }

  class Store {
    var journal: Option<SessionValue>
    var staged: Option<string>
    var lock: Option<string>
    var manifest: Option<string>
    var builds: set<string>
    /** How many more durable operations succeed before the process stops. */
    var budget: nat

    function Files(): Project
      reads this
    {
      Project(journal, staged, lock, manifest, builds)
    }

    /** Exactly `done` has been performed since the files were `before` and the budget was `b`. */
    ghost predicate Did(before: Project, b: nat, done: seq<Action>)
      reads this
    {
      Files() == ApplyAll(before, done) && budget + |done| == b
    }

    /** The call performed its plan: all of it with the planned outcome, or, interrupted, as much of it as the
        budget allowed. */
    ghost predicate Ran<R>(before: Project, b: nat, plan: Plan<R>, r: Result<R, ActivationError>)
      reads this
    {
      if b < |plan.script| then Did(before, b, plan.script[..b]) && r == Err(Interrupted)
      else Did(before, b, plan.script) && r == plan.outcome
    }

    /** One atomic file operation: the k-th of the script being performed. */
    method Perform(a: Action, ghost before: Project, ghost b: nat, ghost script: seq<Action>, ghost k: nat)
      returns (ok: bool)
      requires k < |script| && script[k] == a && Did(before, b, script[..k])
      modifies this
      ensures ok <==> k < b
      ensures Did(before, b, script[..if ok then k + 1 else k])
    {
      if budget == 0 {
        return false;
      }
      budget := budget - 1;
      match a {
        case WriteJournal(s) => journal := Some(s);
        case WriteStaged(text) => staged := Some(text);
        case WriteLock(text) => lock := Some(text);
        case WriteManifest(text) => manifest := Some(text);
        case RemoveStaged => staged := None;
        case RemoveJournal => journal := None;
        case RemoveBuild(id) => builds := builds - {id};
      }
      ActivationSafety.ApplyNext(before, script, k);
      return true;
    }

    /** The removals that end every recovery with a journal. */
    method CleanUp(id: string, ghost before: Project, ghost b: nat, ghost script: seq<Action>, ghost k: nat)
      returns (ok: bool)
      requires k + 3 == |script| && script[k..] == [RemoveStaged, RemoveJournal, RemoveBuild(id)]
      requires k <= b && Did(before, b, script[..k])
      modifies this
      ensures ok <==> |script| <= b
      ensures Did(before, b, script[..if ok then |script| else b])
    {
      assert script[k] == script[k..][0] && script[k + 1] == script[k..][1] && script[k + 2] == script[k..][2];
      ok := Perform(RemoveStaged, before, b, script, k);
      if ok {
        ok := Perform(RemoveJournal, before, b, script, k + 1);
      }
      if ok {
        ok := Perform(RemoveBuild(id), before, b, script, k + 2);
      }
    }

    method RecoverLocked(env: Env) returns (r: Result<Recovery, ActivationError>)
      modifies this
      ensures Ran(old(Files()), old(budget), RecoveryPlan(env, old(Files())), r)
      ensures r.Ok? ==> Means(env, old(Files()), Files(), r.value)
      ensures r.Err? && r.error != Interrupted ==> Files() == old(Files()) && Refuses(env, Files(), r.error)
    {
      hide Valid, Means, Refuses;
      AnswersMean(env, Files());
      ghost var before, b := Files(), budget;
      ghost var script := RecoveryPlan(env, before).script;
      assert script[..0] == [] && script[..|script|] == script;
      if journal.None? {
        var ok := Perform(RemoveStaged, before, b, script, 0);
        return if ok then Ok(Clean) else Err(Interrupted);
      }
      var session := journal.value;
      if env.journalBytes(session) > MAX_INSTALL_JOURNAL_BYTES {
        return Err(InstallStateTooLarge);
      }
      var parsed := new InstallSession(session);
      var valid := parsed.Validate();
      if !valid {
        return Err(InvalidJournal);
      }
      if !Fits(lock) {
        return Err(InstallStateTooLarge);
      }
      if lock.Some? && env.canonical(lock.value).None? {
        return Err(LockUnreadable);
      }
      if !LockIs(env, lock, session.targetLockSha256) {
        var ok := CleanUp(session.sessionId, before, b, script, 0);
        return if ok then Ok(RolledBackUncommitted) else Err(Interrupted);
      }
      if !Fits(manifest) {
        return Err(InstallStateTooLarge);
      }
      if ManifestIs(env, manifest, session.manifestSha256) {
        var ok := CleanUp(session.sessionId, before, b, script, 0);
        return if ok then Ok(CleanedCommittedJournal) else Err(Interrupted);
      }
      if !Fits(staged) {
        return Err(InstallStateTooLarge);
      }
      if staged.None? {
        return Err(CommittedLockMissingStagedManifest);
      }
      if env.sha(staged.value) != session.manifestSha256 {
        return Err(StagedManifestHashMismatch);
      }
      if !env.manifestParses(staged.value) {
        return Err(ManifestUnreadable);
      }
      var ok := Perform(WriteManifest(staged.value), before, b, script, 0);
      if !ok {
        return Err(Interrupted);
      }
      ok := CleanUp(session.sessionId, before, b, script, 1);
      return if ok then Ok(CompletedManifestPublication) else Err(Interrupted);
    }

    /** Write the journal of a session object; the flow refuses to write an invalid one. */
    method Persist(session: InstallSession, ghost before: Project, ghost b: nat, ghost script: seq<Action>, ghost k: nat)
      returns (r: Result<(), ActivationError>)
      requires k <= |script| && Did(before, b, script[..k])
      requires Valid(session.Value()) ==> k < |script| && script[k] == WriteJournal(session.Value())
      modifies this
      ensures session.Value() == old(session.Value())
      ensures !Valid(session.Value()) ==> r == Err(InvalidJournal) && Did(before, b, script[..k])
      ensures Valid(session.Value()) ==>
                && r == (if k < b then Ok(()) else Err(Interrupted))
                && Did(before, b, script[..if k < b then k + 1 else k])
    {
      hide Valid;
      var valid := session.Validate();
      if !valid {
        return Err(InvalidJournal);
      }
      var ok := Perform(WriteJournal(session.Value()), before, b, script, k);
      return if ok then Ok(()) else Err(Interrupted);
    }

    /** Part-way through the marks of an activation: `ms` are made, `s` is the session, and everything the plan has
        up to here is performed. */
    ghost predicate Marking(a: Activation, ms: seq<Mark>, s: SessionValue, before: Project, b: nat,
                            script: seq<Action>, base: nat, k: nat)
      reads this
    {
      && ProofsMatch(a) && Valid(a.session) && Follows(script, base, ActivationPlan(a).script)
      && At(a, ms, s, k) && Valid(s) && s.packages.Keys == a.session.packages.Keys
      && base + k <= |script| && base + k <= b && Did(before, b, script[..base + k])
    }

    /** The activation ended early, interrupted or with the error its plan names. */
    ghost predicate Stopped(a: Activation, before: Project, b: nat, script: seq<Action>, error: ActivationError)
      reads this
    {
      if b < |script| then Did(before, b, script[..b]) && error == Interrupted
      else Did(before, b, script) && ActivationPlan(a).outcome == Err(error)
    }

    /** The result of a mark, and, when it succeeded, the journal with it. */
    method Journal(a: Activation, marked: Result<(), SessionError>, session: InstallSession, ghost m: Mark,
                   ghost ms: seq<Mark>, ghost s: SessionValue, ghost before: Project, ghost b: nat,
                   ghost script: seq<Action>, ghost base: nat, ghost k: nat)
      returns (r: Result<(), ActivationError>)
      requires Marking(a, ms, s, before, b, script, base, k) && ms + [m] <= PlannedMarks(a)
      requires session.Tracks(s, m, marked)
      modifies this
      ensures session.Value() == old(session.Value())
      ensures r.Ok? ==> Marking(a, ms + [m], session.Value(), before, b, script, base, k + 1)
      ensures r.Err? ==> Stopped(a, before, b, script, r.error)
    {
      hide Valid, Step, MarkAll, AllMarks, ApplyAll, Did, ActivationPlan;
      assert script[..|script|] == script;
      NextMark(a, ms, m, s, k);
      if marked.Err? {
        return Err(SessionFailed(marked.error));
      }
      r := Persist(session, before, b, script, base + k);
    }

    /** The lock is swapped in, and the manifest follows it. */
    method Swap(a: Activation, ghost before: Project, ghost b: nat, ghost script: seq<Action>, ghost k: nat)
      returns (ok: bool)
      requires k + 3 <= |script| && script[k] == WriteLock(a.lock) && script[k + 1] == WriteManifest(a.manifest)
      requires script[k + 2] == RemoveStaged && k <= b && Did(before, b, script[..k])
      modifies this
      ensures ok <==> k + 3 <= b
      ensures Did(before, b, script[..if ok then k + 3 else b])
    {
      hide Did;
      ok := Perform(WriteLock(a.lock), before, b, script, k);
      if ok {
        ok := Perform(WriteManifest(a.manifest), before, b, script, k + 1);
      }
      if ok {
        ok := Perform(RemoveStaged, before, b, script, k + 2);
      }
    }

    /** Stage the manifest, swap the lock, publish the manifest, clean up. */
    method Commit(a: Activation, session: InstallSession, ghost before: Project, ghost b: nat, ghost script: seq<Action>,
                  ghost k: nat)
      returns (r: Result<(), ActivationError>)
      requires EndsInCommit(a, session.Value(), script, k)
      requires Valid(session.Value()) && session.phase == ReadyToCommit
      requires k <= b && Did(before, b, script[..k])
      modifies this, session
      ensures session.packages == old(session.packages)
      ensures if |script| <= b then r == Ok(()) && Did(before, b, script)
              else r == Err(Interrupted) && Did(before, b, script[..b])
    {
      hide Valid, ApplyAll, Did;
      ghost var ready := session.Value();
      assert script[..|script|] == script;
      var ok := Perform(WriteStaged(a.manifest), before, b, script, k);
      if !ok {
        return Err(Interrupted);
      }
      r := Persist(session, before, b, script, k + 1);
      if r.Err? {
        return;
      }
      ok := Swap(a, before, b, script, k + 2);
      if !ok {
        return Err(Interrupted);
      }
      var committed := session.MarkCommitted();
      CommittedIsValid(ready);
      r := Persist(session, before, b, script, k + 5);
      if r.Err? {
        return;
      }
      ok := Perform(RemoveJournal, before, b, script, k + 6);
      return if ok then Ok(()) else Err(Interrupted);
    }

    /** The four stages of one package, each journaled before the next begins. */
    method MarkPackage(a: Activation, i: nat, session: InstallSession, ghost before: Project, ghost b: nat,
                       ghost script: seq<Action>, ghost base: nat, ghost k: nat)
      returns (r: Result<(), ActivationError>, ghost next: nat)
      requires i < |a.instances| && ProofsMatch(a)
      requires Marking(a, MarksBefore(a, i), session.Value(), before, b, script, base, k)
      modifies this, session
      ensures r.Ok? ==> Marking(a, MarksBefore(a, i + 1), session.Value(), before, b, script, base, next)
      ensures r.Err? ==> Stopped(a, before, b, script, r.error)
    {
      hide Valid, Step, MarkAll, AllMarks, ApplyAll, Did, ActivationPlan, Marking, Stopped;
      next := k;
      var instance := a.instances[i];
      var proof := a.proofs[instance];
      MarksOfInstances(a, i);
      MarksOfInstances(a, i + 1);
      ghost var ms, s := MarksBefore(a, i), session.Value();
      var marked := session.MarkArtifactVerified(instance, proof.observed);
      r := Journal(a, marked, session, MarkArtifactVerified(instance, proof.observed), ms, s, before, b, script, base, next);
      if r.Err? {
        return;
      }
      next, ms, s := next + 1, ms + [MarkArtifactVerified(instance, proof.observed)], session.Value();
      marked := session.MarkPrepared(instance, proof.build);
      r := Journal(a, marked, session, MarkPrepared(instance, proof.build), ms, s, before, b, script, base, next);
      if r.Err? {
        return;
      }
      next, ms, s := next + 1, ms + [MarkPrepared(instance, proof.build)], session.Value();
      marked := session.MarkAttested(instance, proof.canActivate);
      r := Journal(a, marked, session, MarkAttested(instance, proof.canActivate), ms, s, before, b, script, base, next);
      if r.Err? {
        return;
      }
      next, ms, s := next + 1, ms + [MarkAttested(instance, proof.canActivate)], session.Value();
      marked := session.MarkReady(instance);
      r := Journal(a, marked, session, MarkReady(instance), ms, s, before, b, script, base, next);
      if r.Err? {
        return;
      }
      next, ms, s := next + 1, ms + [MarkReady(instance)], session.Value();
      assert ms == MarksBefore(a, i + 1);
    }

    /** Every package in turn. */
    method MarkPackages(a: Activation, session: InstallSession, ghost before: Project, ghost b: nat,
                        ghost script: seq<Action>, ghost base: nat)
      returns (r: Result<(), ActivationError>, ghost k: nat)
      requires ProofsMatch(a)
      requires Marking(a, MarksBefore(a, 0), session.Value(), before, b, script, base, 1)
      modifies this, session
      ensures r.Ok? ==> Marking(a, MarksBefore(a, |a.instances|), session.Value(), before, b, script, base, k)
      ensures r.Err? ==> Stopped(a, before, b, script, r.error)
    {
      hide Valid, MarksBefore, Marking, Stopped, ActivationPlan;
      k := 1;
      for i := 0 to |a.instances|
        invariant Marking(a, MarksBefore(a, i), session.Value(), before, b, script, base, k)
      {
        r, k := MarkPackage(a, i, session, before, b, script, base, k);
        if r.Err? {
          return;
        }
      }
      r := Ok(());
    }

    lemma MarkingStarts(a: Activation, before: Project, b: nat, script: seq<Action>, base: nat)
      requires ProofsMatch(a) && Valid(a.session) && Follows(script, base, ActivationPlan(a).script)
      requires base + 1 <= |script| && base + 1 <= b && Did(before, b, script[..base + 1])
      ensures Marking(a, MarksBefore(a, 0), a.session, before, b, script, base, 1)
    {
      NothingMarked(a);
    }

    lemma MarkingEnds(a: Activation, s: SessionValue, before: Project, b: nat, script: seq<Action>, base: nat, k: nat)
      requires ProofsMatch(a) && Marking(a, MarksBefore(a, |a.instances|), s, before, b, script, base, k)
      ensures s.phase != ReadyToCommit ==> b >= |script| && Stopped(a, before, b, script, NotReady)
      ensures s.phase == ReadyToCommit ==>
                && Valid(s) && EndsInCommit(a, s, script, base + k) && base + k <= b && Did(before, b, script[..base + k])
                && ActivationPlan(a).outcome == Ok(|s.packages|)
    {
      hide Valid, MarksBefore, ActivationPlan;
      AllMarked(a, s, k);
      assert script[..|script|] == script;
      assert |s.packages| == |s.packages.Keys| && |a.session.packages| == |a.session.packages.Keys|;
    }

    /** Journal every stage of every package, then commit; what came before is in `script` up to `base`. */
    method ActivateRecovered(a: Activation, ghost before: Project, ghost b: nat, ghost script: seq<Action>, ghost base: nat)
      returns (r: Result<nat, ActivationError>)
      requires Follows(script, base, ActivationPlan(a).script) && base <= b && Did(before, b, script[..base])
      modifies this
      ensures if b < |script| then Did(before, b, script[..b]) && r == Err(Interrupted)
              else Did(before, b, script) && r == ActivationPlan(a).outcome
    {
      hide Valid, MarksBefore, Did, ActivationPlan, ProofsMatch, Marking, EndsInCommit;
      assert script[..|script|] == script;
      var checked := CheckProofs(a);
      if checked.Err? {
        return Err(checked.error);
      }
      var session := new InstallSession(a.session);
      PlanStarts(a);
      assert Valid(a.session) ==> script[base + 0] == ActivationPlan(a).script[0];
      var saved := Persist(session, before, b, script, base);
      if saved.Err? {
        return Err(saved.error);
      }
      MarkingStarts(a, before, b, script, base);
      ghost var k;
      saved, k := MarkPackages(a, session, before, b, script, base);
      if saved.Err? {
        return Err(saved.error);
      }
      MarkingEnds(a, session.Value(), before, b, script, base, k);
      if session.phase != ReadyToCommit {
        return Err(NotReady);
      }
      var done := Commit(a, session, before, b, script, base + k);
      return if done.Ok? then Ok(|session.packages|) else Err(done.error);
    }

    /** Recover what an earlier install may have left, then activate. */
    method ActivateLocked(env: Env, a: Activation) returns (r: Result<nat, ActivationError>)
      modifies this
      ensures Ran(old(Files()), old(budget), FullPlan(env, old(Files()), a), r)
    {
      hide Did, RecoveryPlan, ActivationPlan, ApplyAll;
      ghost var before, b := Files(), budget;
      ghost var first := RecoveryPlan(env, before);
      ghost var script := FullPlan(env, before, a).script;
      var recovered := RecoverLocked(env);
      assert first.outcome.Ok? ==> script == first.script + ActivationPlan(a).script;
      assert b < |first.script| ==> first.script[..b] == script[..b];
      if recovered.Err? {
        return Err(recovered.error);
      }
      assert script[..|first.script|] == first.script;
      r := ActivateRecovered(a, before, b, script, |first.script|);
    }
  }
}
