/** Exactly which activations can be recovered after a crash, and one that cannot. */
module RecoveryOutcome {
  import opened Text
  import opened Session
  import opened Activation
  import opened ActivationSafety
  import opened ActivationOutcome

  ghost predicate RecoversAfter(env: Env, d: Project, a: Activation, k: nat) {
    k <= |ActivationPlan(a).script| ==> RecoveryPlan(env, ApplyAll(d, ActivationPlan(a).script[..k])).outcome.Ok?
  }

  /** A readable journal that pins the activation's target. */
  ghost predicate Pins(env: Env, a: Activation, s: SessionValue) {
    && Valid(s) && env.journalBytes(s) <= MAX_INSTALL_JOURNAL_BYTES
    && s.targetLockSha256 == env.sha(a.lock) && s.manifestSha256 == env.sha(a.manifest)
  }

  lemma JournalPins(env: Env, a: Activation, script: seq<Action>, i: nat)
    requires WellFormed(env, a) && JournalsFit(env, a) && script == ActivationPlan(a).script
    requires i < |script| && script[i].WriteJournal? && JournalFor(a, script[i].session)
    ensures Pins(env, a, script[i].session)
  {
    hide Valid, ActivationPlan, Fresh;
    assert script[i] in script;
  }

  lemma ReadsOldState(env: Env, d: Project, p: Pair, a: Activation, s: SessionValue)
    requires d.journal == Some(s) && Pins(env, a, s)
    requires d.lock == p.lock && d.manifest == p.manifest && OldStateReadable(env, p, a)
    ensures RecoveryPlan(env, d).outcome.Ok?
  {}

  lemma ReadsNewState(env: Env, d: Project, p: Pair, a: Activation, s: SessionValue)
    requires d.journal == Some(s) && Pins(env, a, s)
    requires env.canonical(a.lock) == Some(a.lock) && env.manifestParses(a.manifest)
    requires d.lock == Some(a.lock) && Fits(Some(a.lock)) && Fits(p.manifest) && Fits(Some(a.manifest))
    requires d.manifest == Some(a.manifest) || (d.manifest == p.manifest && d.staged == Some(a.manifest))
    ensures RecoveryPlan(env, d).outcome.Ok?
  {}

  /** Over a recovered project, recovery succeeds after a crash at every point of an activation, whether it would
      complete or stop at a failing proof, if and only if it is CrashSafe. */
  lemma RecoveryNeverFailsIff(env: Env, d: Project, p: Pair, a: Activation)
    requires WellFormed(env, a) && Done(d, p)
    ensures (forall k :: RecoversAfter(env, d, a, k)) <==> CrashSafe(env, p, a)
  {
    hide ActivationPlan, RecoveryPlan, WellFormed;
    if CrashSafe(env, p, a) {
      forall k: nat
        ensures RecoversAfter(env, d, a, k)
      {
        if k <= |ActivationPlan(a).script| {
          RecoversAt(env, d, p, a, k);
        }
      }
    } else {
      UnsafeCrash(env, d, p, a);
    }
  }

  lemma RecoversAt(env: Env, d: Project, p: Pair, a: Activation, k: nat)
    requires WellFormed(env, a) && Done(d, p) && CrashSafe(env, p, a) && k <= |ActivationPlan(a).script|
    ensures RecoveryPlan(env, ApplyAll(d, ActivationPlan(a).script[..k])).outcome.Ok?
  {
    hide WellFormed, ActivationPlan, RecoveryPlan, JournalFor, JournalsFit, Pins, OldStateReadable;
    var script := ActivationPlan(a).script;
    var journals, ready := PlanShape(env, a);
    var n := |journals|;
    OldStateFits(env, p, a);
    if k == 0 {
      NoJournal(env, d);
      assert script[..0] == [];
    } else if k <= n {
      assert script[..k] == journals[..k] && script[k - 1] == journals[k - 1];
      JournalWrites(d, journals[..k]);
      JournalPins(env, a, script, k - 1);
      ReadsOldState(env, ApplyAll(d, script[..k]), p, a, journals[k - 1].session);
    } else {
      RecoversCommit(env, d, p, a, journals, ready, k);
    }
  }

  lemma OldStateFits(env: Env, p: Pair, a: Activation)
    ensures OldStateReadable(env, p, a) ==> JournalsFit(env, a)
  {}

  lemma RecoversCommit(env: Env, d: Project, p: Pair, a: Activation, journals: seq<Action>, ready: SessionValue, k: nat)
    requires WellFormed(env, a) && Done(d, p) && CrashSafe(env, p, a) && ActivationPlan(a).outcome.Ok?
    requires forall i :: 0 <= i < |journals| ==> journals[i].WriteJournal? && JournalFor(a, journals[i].session)
    requires JournalFor(a, ready) && JournalFor(a, ready.(phase := Committed))
    requires ActivationPlan(a).script == journals + CommitScript(a, ready) && 0 < |journals| < k <= |journals| + 7
    ensures RecoveryPlan(env, ApplyAll(d, ActivationPlan(a).script[..k])).outcome.Ok?
  {
    hide WellFormed, ActivationPlan, RecoveryPlan, JournalFor, JournalsFit, Pins, OldStateReadable, ApplyAll, Apply;
    var script, n := ActivationPlan(a).script, |journals|;
    var now := ApplyAll(d, script[..k]);
    OldStateFits(env, p, a);
    CommitStates(d, a, journals, ready);
    assert script[n - 1] == journals[n - 1];
    assert script[n + 1] == WriteJournal(ready) && script[n + 5] == WriteJournal(ready.(phase := Committed));
    JournalPins(env, a, script, n - 1);
    JournalPins(env, a, script, n + 1);
    JournalPins(env, a, script, n + 5);
    if k <= n + 2 {
      ReadsOldState(env, now, p, a, now.journal.value);
    } else if k < n + 7 {
      TargetParses(env, a);
      ReadsNewState(env, now, p, a, now.journal.value);
    } else {
      assert script[..k] == script;
      NoJournal(env, now);
    }
  }

  lemma TargetParses(env: Env, a: Activation)
    requires WellFormed(env, a)
    ensures env.canonical(a.lock) == Some(a.lock) && env.manifestParses(a.manifest)
  {}

  lemma NoJournal(env: Env, d: Project)
    requires d.journal.None?
    ensures RecoveryPlan(env, d).outcome.Ok?
  {}

  lemma UnsafeCrash(env: Env, d: Project, p: Pair, a: Activation)
    requires WellFormed(env, a) && Done(d, p) && !CrashSafe(env, p, a)
    ensures exists k :: !RecoversAfter(env, d, a, k)
  {
    hide Valid, Step, ActivationPlan;
    var script := ActivationPlan(a).script;
    var journals, ready := PlanShape(env, a);
    var n := |journals|;
    assert script[..1] == journals[..1] && script[0] == journals[0];
    JournalWrites(d, journals[..1]);
    if !JournalsFit(env, a) {
      var s :| WriteJournal(s) in script && env.journalBytes(s) > MAX_INSTALL_JOURNAL_BYTES;
      var i :| 0 <= i < |script| && script[i] == WriteJournal(s);
      ApplyNext(d, script, i);
      assert !RecoversAfter(env, d, a, i + 1);
    } else if !OldStateReadable(env, p, a) {
      assert !RecoversAfter(env, d, a, 1);
    } else {
      CommitStates(d, a, journals, ready);
      if !Fits(p.manifest) || !Fits(Some(a.lock)) {
        assert !RecoversAfter(env, d, a, n + 3);
      } else {
        assert !RecoversAfter(env, d, a, n + 4);
      }
    }
  }

  /** The family that is not safe by its lock alone: planning that changes the manifest but resolves to the same
      lock. A crash right after the first journal write leaves a project that no later call can recover. */
  lemma {:induction false} UnchangedLockStrandsRecovery(env: Env, d: Project, p: Pair, a: Activation, events: seq<Event>)
    requires WellFormed(env, a) && ActivationPlan(a).script != [] && Done(d, p)
    requires JournalsFit(env, a) && Fits(p.lock) && Fits(p.manifest)
    requires LockIs(env, p.lock, env.sha(a.lock)) && !ManifestIs(env, p.manifest, env.sha(a.manifest))
    ensures var crashed := ApplyAll(d, ActivationPlan(a).script[..1]);
            && RecoveryPlan(env, crashed).outcome == Err(CommittedLockMissingStagedManifest)
            && RunTo(env, crashed, events) == crashed
    decreases |events|
  {
    hide Valid, Step, ActivationPlan;
    var script := ActivationPlan(a).script;
    var journals, _ := PlanShape(env, a);
    assert script[..1] == journals[..1] && script[0] == journals[0] && script[0] in script;
    JournalWrites(d, journals[..1]);
    if events != [] {
      UnchangedLockStrandsRecovery(env, d, p, a, events[..|events| - 1]);
    }
  }

  // ----- a member of the family

  function Digest(c: char): (s: string)
    ensures |s| == 64 && forall i :: 0 <= i < 64 ==> s[i] == c
  {
    seq(64, _ => c)
  }

  /** A library in which the manifest "n" has a digest of its own and every text parses. */
  function SmallSha(s: string): string { if s == "n" then Digest('1') else Digest('0') }

  function SmallEnv(): Env { Env(SmallSha, (s: SessionValue) => 0, (s: string) => Some(s), (s: string) => true) }

  function SmallPackage(): SessionPackage { SessionPackage("a", "a", false, "1", Digest('0'), Pending, None) }

  function SmallSession(): SessionValue {
    SessionValue(INSTALL_SESSION_FORMAT, "s", Digest('1'), Digest('0'), Preparing, map["a" := SmallPackage()])
  }

  /** One package; the manifest changes from "m" to "n" and the lock stays "L". */
  function SmallActivation(): Activation {
    Activation("n", "L", SmallSession(), ["a"], map["a" := Proof(Digest('0'), None, true)])
  }

  lemma SmallSessionIsFresh()
    ensures Fresh(SmallSession())
  {
    assert "a"[1..] == "" && ["a"[0]] + "" == "a";
    assert Split("a", '.') == ["a"];
    assert Utf8Length("1") == 1 by {
      assert "1"[1..] == "";
    }
    assert !IsWhitespace("1"[0]);
    assert ValidPackage("a", SmallSession().packages["a"]);
    assert SmallSession().packages["a"].state == Pending;
  }

  lemma SmallPasses()
    ensures Passes(SmallSession(), "a", Proof(Digest('0'), None, true))
  {
    assert Lower(Digest('0')) == Digest('0');
  }

  /** It would complete, and a crash after its first write strands the project for ever. */
  lemma UnchangedLockExample(events: seq<Event>)
    ensures var env, a := SmallEnv(), SmallActivation();
            var d := Project(None, None, Some("L"), Some("m"), {});
            && WellFormed(env, a) && ActivationPlan(a).outcome.Ok?
            && !CrashSafe(env, Pair(d.lock, d.manifest), a)
            && 1 <= |ActivationPlan(a).script|
            && var crashed := ApplyAll(d, ActivationPlan(a).script[..1]);
            && RecoveryPlan(env, crashed).outcome == Err(CommittedLockMissingStagedManifest)
            && RunTo(env, crashed, events) == crashed
  {
    hide ActivationPlan, RecoveryPlan, RunTo, ApplyAll, Valid, Passes;
    var env, a := SmallEnv(), SmallActivation();
    var d := Project(None, None, Some("L"), Some("m"), {});
    var p := Pair(d.lock, d.manifest);
    SmallSessionIsFresh();
    SmallPasses();
    assert Digest('0')[0] != Digest('1')[0];
    assert WellFormed(env, a) by {
      assert (set key | key in a.instances) == a.session.packages.Keys;
    }
    ActivationCompletesIff(env, a);
    var journals, ready := PlanShape(env, a);
    assert JournalsFit(env, a);
    SmallFits();
    UnchangedLockStrandsRecovery(env, d, p, a, events);
  }

  lemma SmallFits()
    ensures Fits(Some("L")) && Fits(Some("m"))
  {
    assert "L"[1..] == "" && "m"[1..] == "";
  }
}
