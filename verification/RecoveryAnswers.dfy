/** What the answers of a recovery mean, for the files it found and for how far the install before it had come. */
module RecoveryAnswers {
  import opened Text
  import opened Session
  import opened Activation
  import opened ActivationSafety

  /** The lock that is there, rendered again, has the digest the journal pins. */
  predicate TargetLock(env: Env, d: Project, s: SessionValue) {
    && d.lock.Some? && env.canonical(d.lock.value).Some?
    && env.sha(env.canonical(d.lock.value).value) == s.targetLockSha256
  }

  predicate TargetManifest(env: Env, d: Project, s: SessionValue) {
    d.manifest.Some? && env.sha(d.manifest.value) == s.manifestSha256
  }

  predicate TooLarge(text: Option<string>) { text.Some? && Utf8Length(text.value) > 2097152 }

  /** What was read is within its limits, valid and parses, as far as it had to be read. */
  predicate Readable(env: Env, d: Project, s: SessionValue) {
    && env.journalBytes(s) <= 2097152 && Valid(s)
    && !TooLarge(d.lock) && (d.lock.Some? ==> env.canonical(d.lock.value).Some?)
    && (TargetLock(env, d, s) ==> !TooLarge(d.manifest) && (!TargetManifest(env, d, s) ==> !TooLarge(d.staged)))
  }

  /** What an answer says of the files before and after. */
  ghost predicate Means(env: Env, d: Project, after: Project, answer: Recovery) {
    && after.journal.None? && after.staged.None? && after.lock == d.lock
    && (answer == CompletedManifestPublication <==> after.manifest != d.manifest)
    && match d.journal
       case None => answer == Clean && after.builds == d.builds
       case Some(s) =>
         && Readable(env, d, s) && after.builds == d.builds - {s.sessionId}
         && (answer == RolledBackUncommitted <==> !TargetLock(env, d, s))
         && (answer == CleanedCommittedJournal <==> TargetLock(env, d, s) && TargetManifest(env, d, s))
         && (answer == CompletedManifestPublication ==>
               after.manifest == d.staged && TargetManifest(env, after, s) && env.manifestParses(after.manifest.value))
         && answer != Clean
  }

  /** What a refusal says of them; it changes nothing. */
  ghost predicate Refuses(env: Env, d: Project, refusal: ActivationError) {
    d.journal.Some? &&
    var s := d.journal.value;
    match refusal
    case InstallStateTooLarge =>
      env.journalBytes(s) > 2097152 || TooLarge(d.lock) || TooLarge(d.manifest) || TooLarge(d.staged)
    case InvalidJournal => !Valid(s)
    case LockUnreadable => d.lock.Some? && env.canonical(d.lock.value).None?
    case CommittedLockMissingStagedManifest => TargetLock(env, d, s) && !TargetManifest(env, d, s) && d.staged.None?
    case StagedManifestHashMismatch =>
      TargetLock(env, d, s) && !TargetManifest(env, d, s) && d.staged.Some? && env.sha(d.staged.value) != s.manifestSha256
    case ManifestUnreadable =>
      && TargetLock(env, d, s) && !TargetManifest(env, d, s) && d.staged.Some?
      && env.sha(d.staged.value) == s.manifestSha256 && !env.manifestParses(d.staged.value)
    case _ => false
  }

  /** Every answer and every refusal of a recovery means what it says. */
  lemma AnswersMean(env: Env, d: Project)
    ensures var plan := RecoveryPlan(env, d);
            && (plan.outcome.Ok? ==> Means(env, d, ApplyAll(d, plan.script), plan.outcome.value))
            && (plan.outcome.Err? ==> plan.script == [] && Refuses(env, d, plan.outcome.error))
  {
    hide Valid, Utf8Length;
    var plan := RecoveryPlan(env, d);
    if plan.script != [] {
      ScriptEffect(d, plan.script);
    }
  }

  lemma ScriptEffect(d: Project, script: seq<Action>)
    ensures script == [RemoveStaged] ==> ApplyAll(d, script) == d.(staged := None)
    ensures |script| == 3 && script == CleanUpScript(if script[2].RemoveBuild? then script[2].sessionId else "") ==>
              ApplyAll(d, script) == d.(staged := None, journal := None, builds := d.builds - {script[2].sessionId})
    ensures |script| == 4 && script[0].WriteManifest?
            && script[1..] == CleanUpScript(if script[3].RemoveBuild? then script[3].sessionId else "") ==>
              ApplyAll(d, script) == d.(manifest := Some(script[0].text), staged := None, journal := None,
                                        builds := d.builds - {script[3].sessionId})
  {
    assert script[..|script|] == script && script[..0] == [];
    if |script| == 1 {
      ApplyNext(d, script, 0);
    } else if |script| == 3 {
      ApplyNext(d, script, 0);
      ApplyNext(d, script, 1);
      ApplyNext(d, script, 2);
    } else if |script| == 4 && script[0].WriteManifest? {
      assert script[1..][0] == script[1] && script[1..][1] == script[2] && script[1..][2] == script[3];
      ApplyNext(d, script, 0);
      ApplyNext(d, script, 1);
      ApplyNext(d, script, 2);
      ApplyNext(d, script, 3);
    }
  }

  // ----- how far an install had come

  /** The answer for an install whose target differs from what was there, by what it had done. */
  ghost predicate TellsHowFar(a: Activation, done: seq<Action>, answer: Recovery) {
    && (answer == Clean <==> done == [] || RemoveJournal in done)
    && (answer == RolledBackUncommitted <==> done != [] && WriteLock(a.lock) !in done)
    && (answer == CompletedManifestPublication <==> WriteLock(a.lock) in done && WriteManifest(a.manifest) !in done)
    && (answer == CleanedCommittedJournal <==> WriteManifest(a.manifest) in done && RemoveJournal !in done)
  }

  /** The next recovery tells how far an install had come before it stopped. */
  lemma AnswerTellsHowFar(env: Env, d: Project, p: Pair, a: Activation, k: nat)
    requires WellFormed(env, a) && CrashSafe(env, p, a) && NoCollision(env, p, a) && Done(d, p)
    requires !LockIs(env, p.lock, env.sha(a.lock)) && !ManifestIs(env, p.manifest, env.sha(a.manifest))
    requires k <= |ActivationPlan(a).script|
    ensures var done := ActivationPlan(a).script[..k];
            var plan := RecoveryPlan(env, ApplyAll(d, done));
            plan.outcome.Ok? && TellsHowFar(a, done, plan.outcome.value)
  {
    hide Valid, Step, SameIdentity, ActivationPlan, RecoveryPlan, CrashSafe, ApplyAll, Apply, Means, WellFormed;
    var script := ActivationPlan(a).script;
    var done := script[..k];
    var journals, ready := PlanShape(env, a);
    var n, now := |journals|, ApplyAll(d, done);
    ActivationKeepsInv(env, d, p, a, k);
    RecoveryKeepsInv(env, now, PairAfter(p, done, a), 0);
    AnswersMean(env, now);
    var answer := RecoveryPlan(env, now).outcome.value;
    if k <= n {
      assert done == journals[..k];
      JournalWrites(d, done);
      if k > 0 {
        OldLock(env, now, p, a, journals[k - 1].session);
        MeansRolledBack(env, now, ApplyAll(now, RecoveryPlan(env, now).script), answer, journals[k - 1].session);
      } else {
        MeansClean(env, now, ApplyAll(now, RecoveryPlan(env, now).script), answer);
      }
    } else {
      CommitDone(a, journals, ready, k);
      CommitStates(d, a, journals, ready);
      AnswerInCommit(env, d, p, a, now, journals, ready, k, answer);
    }
  }

  lemma OldLock(env: Env, d: Project, p: Pair, a: Activation, s: SessionValue)
    requires WellFormed(env, a) && JournalFor(a, s) && d.lock == p.lock && !LockIs(env, p.lock, env.sha(a.lock))
    ensures !TargetLock(env, d, s)
  {}

  lemma NewLock(env: Env, d: Project, a: Activation, s: SessionValue)
    requires WellFormed(env, a) && JournalFor(a, s) && d.lock == Some(a.lock)
    ensures TargetLock(env, d, s)
    ensures TargetManifest(env, d, s) <==> ManifestIs(env, d.manifest, env.sha(a.manifest))
  {}

  lemma MeansClean(env: Env, d: Project, after: Project, answer: Recovery)
    requires Means(env, d, after, answer) && d.journal.None?
    ensures answer == Clean
  {}

  lemma MeansRolledBack(env: Env, d: Project, after: Project, answer: Recovery, s: SessionValue)
    requires Means(env, d, after, answer) && d.journal == Some(s) && !TargetLock(env, d, s)
    ensures answer == RolledBackUncommitted
  {}

  lemma MeansCommitted(env: Env, d: Project, after: Project, answer: Recovery, s: SessionValue)
    requires Means(env, d, after, answer) && d.journal == Some(s) && TargetLock(env, d, s)
    ensures answer == if TargetManifest(env, d, s) then CleanedCommittedJournal else CompletedManifestPublication
  {}

  /** Which of the commit operations are done. */
  lemma CommitDone(a: Activation, journals: seq<Action>, ready: SessionValue, k: nat)
    requires forall i :: 0 <= i < |journals| ==> journals[i].WriteJournal?
    requires |journals| < k <= |journals| + 7
    ensures var n, done := |journals|, (journals + CommitScript(a, ready))[..k];
            && (WriteLock(a.lock) in done <==> k > n + 2)
            && (WriteManifest(a.manifest) in done <==> k > n + 3)
            && (RemoveJournal in done <==> k > n + 6)
  {
    var script, n := journals + CommitScript(a, ready), |journals|;
    SwapIndex(a, journals, ready, k);
    forall i | 0 <= i < k
      ensures script[..k][i] == if i < n then journals[i] else CommitScript(a, ready)[i - n]
    {}
    if k > n + 3 {
      assert script[..k][n + 3] == WriteManifest(a.manifest);
    }
    if k > n + 6 {
      assert script[..k][n + 6] == RemoveJournal;
    }
  }

  lemma AnswerInCommit(env: Env, d: Project, p: Pair, a: Activation, now: Project, journals: seq<Action>,
                       ready: SessionValue, k: nat, answer: Recovery)
    requires WellFormed(env, a) && Done(d, p)
    requires !LockIs(env, p.lock, env.sha(a.lock)) && !ManifestIs(env, p.manifest, env.sha(a.manifest))
    requires forall i :: 0 <= i < |journals| ==> journals[i].WriteJournal? && JournalFor(a, journals[i].session)
    requires JournalFor(a, ready) && JournalFor(a, ready.(phase := Committed))
    requires 0 < |journals| < k <= |journals| + 7
    requires var script := journals + CommitScript(a, ready);
             now == ApplyAll(d, script[..k]) && Means(env, now, ApplyAll(now, RecoveryPlan(env, now).script), answer)
    ensures TellsHowFar(a, (journals + CommitScript(a, ready))[..k], answer)
  {
    hide Valid, SameIdentity, RecoveryPlan, ApplyAll, Apply, Means, WellFormed, JournalFor, TargetLock, TargetManifest;
    var script, n := journals + CommitScript(a, ready), |journals|;
    var after := ApplyAll(now, RecoveryPlan(env, now).script);
    CommitDone(a, journals, ready, k);
    CommitStates(d, a, journals, ready);
    if k <= n + 2 {
      OldLock(env, now, p, a, now.journal.value);
      MeansRolledBack(env, now, after, answer, now.journal.value);
    } else if k < n + 7 {
      NewLock(env, now, a, now.journal.value);
      MeansCommitted(env, now, after, answer, now.journal.value);
    } else {
      assert script[..k] == script;
      MeansClean(env, now, after, answer);
    }
  }
}
