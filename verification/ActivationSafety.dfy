/** Runs of activations and recoveries, each stopped after any number of durable operations. */
module ActivationSafety {
  import opened Text
  import opened Session
  import opened Activation

  // ----- the journals an activation writes

  ghost predicate JournalFor(a: Activation, s: SessionValue) {
    Valid(s) && SameIdentity(a.session, s)
  }

  predicate OnlyStageMarks(marks: seq<Mark>) {
    forall i :: 0 <= i < |marks| ==> !marks[i].MarkCommitted?
  }

  lemma {:induction false} AllMarksAreStageMarks(instances: seq<string>, proofs: map<string, Proof>)
    requires forall i :: 0 <= i < |instances| ==> instances[i] in proofs
    ensures OnlyStageMarks(AllMarks(instances, proofs))
    decreases |instances|
  {
    if instances != [] {
      AllMarksAreStageMarks(instances[..|instances| - 1], proofs);
    }
  }

  /** Persisting never fails on its own account, and every journal written is valid and pins the same target. */
  lemma {:induction false} MarkAllJournals(a: Activation, marks: seq<Mark>)
    requires Fresh(a.session) && OnlyStageMarks(marks)
    ensures var m := MarkAll(a.session, marks);
            && JournalFor(a, m.session) && m.session.phase != Committed
            && (m.error.Some? ==> m.error.value.SessionFailed?)
            && forall i :: 0 <= i < |m.script| ==> m.script[i].WriteJournal? && JournalFor(a, m.script[i].session)
    decreases |marks|
  {
    hide Valid, SameIdentity, Step;
    FreshJournal(a.session);
    if marks != [] {
      var init, last := marks[..|marks| - 1], marks[|marks| - 1];
      MarkAllJournals(a, init);
      var before := MarkAll(a.session, init);
      if before.error.None? && Step(before.session, last).Ok? {
        StepKeepsValid(before.session, last);
        StepKeepsIdentity(a.session, before.session, last);
        StepMovesOnePackage(before.session, last);
      }
    }
  }

  lemma {:induction false} MarkAllConcat(s: SessionValue, first: seq<Mark>, second: seq<Mark>)
    ensures var m, n := MarkAll(s, first), MarkAll(MarkAll(s, first).session, second);
            MarkAll(s, first + second) == if m.error.Some? then m else n.(script := m.script + n.script)
    decreases |second|
  {
    hide Valid, Step;
    if second == [] {
      assert first + second == first;
    } else {
      var k := |second| - 1;
      MarkAllConcat(s, first, second[..k]);
      assert (first + second)[..|first + second| - 1] == first + second[..k];
    }
  }

  /** An accepted mark, seen as a change of one package's stage. */
  lemma MarkAllGrows(s: SessionValue, marks: seq<Mark>, m: Mark)
    requires MarkAll(s, marks + [m]).error.None? && !m.MarkCommitted?
    ensures MarkAll(s, marks).error.None?
    ensures var t, u := MarkAll(s, marks).session, MarkAll(s, marks + [m]).session;
            && m.instance in t.packages && u.packages.Keys == t.packages.Keys
            && Rank(u.packages[m.instance].state) == Rank(t.packages[m.instance].state) + 1
            && forall key :: key in t.packages && key != m.instance ==> u.packages[key] == t.packages[key]
  {
    hide Valid, Step;
    assert (marks + [m])[..|marks|] == marks;
    StepMovesOnePackage(MarkAll(s, marks).session, m);
  }

  /** A package whose four marks all succeed ends Ready, and no other package moves. */
  lemma PackageBecomesReady(s: SessionValue, earlier: seq<Mark>, instance: string, proof: Proof)
    requires MarkAll(s, earlier + PackageMarks(instance, proof)).error.None?
    ensures MarkAll(s, earlier).error.None?
    ensures var t, u := MarkAll(s, earlier).session, MarkAll(s, earlier + PackageMarks(instance, proof)).session;
            && instance in t.packages && u.packages.Keys == t.packages.Keys
            && u.packages[instance].state == Ready
            && forall key :: key in t.packages && key != instance ==> u.packages[key] == t.packages[key]
  {
    hide MarkAll;
    var marks := PackageMarks(instance, proof);
    var e1 := earlier + [marks[0]];
    var e2 := e1 + [marks[1]];
    var e3 := e2 + [marks[2]];
    assert e3 + [marks[3]] == earlier + marks;
    MarkAllGrows(s, e3, marks[3]);
    MarkAllGrows(s, e2, marks[2]);
    MarkAllGrows(s, e1, marks[1]);
    MarkAllGrows(s, earlier, marks[0]);
  }

  lemma {:induction false} VisitedAreReady(s: SessionValue, instances: seq<string>, proofs: map<string, Proof>)
    requires forall i :: 0 <= i < |instances| ==> instances[i] in proofs
    requires MarkAll(s, AllMarks(instances, proofs)).error.None?
    ensures var t := MarkAll(s, AllMarks(instances, proofs)).session;
            && t.packages.Keys == s.packages.Keys
            && forall i :: 0 <= i < |instances| ==> instances[i] in t.packages && t.packages[instances[i]].state == Ready
    decreases |instances|
  {
    hide MarkAll;
    if instances != [] {
      var n := |instances| - 1;
      PackageBecomesReady(s, AllMarks(instances[..n], proofs), instances[n], proofs[instances[n]]);
      VisitedAreReady(s, instances[..n], proofs);
    } else {
      NoMarks(s);
    }
  }

  lemma NoMarks(s: SessionValue)
    ensures MarkAll(s, []) == Marked([], s, None)
  {}

  lemma ReadyPhase(s: SessionValue)
    requires Valid(s) && AllReady(s.packages) && s.phase != Committed
    ensures s.phase == ReadyToCommit
  {}

  lemma MarkingEndsReady(a: Activation)
    requires Fresh(a.session) && (set key | key in a.instances) == a.session.packages.Keys
    requires forall i :: 0 <= i < |a.instances| ==> a.instances[i] in a.proofs
    ensures MarkAll(a.session, AllMarks(a.instances, a.proofs)).error.None? ==>
              MarkAll(a.session, AllMarks(a.instances, a.proofs)).session.phase == ReadyToCommit
  {
    hide Step, Valid, MarkAll, AllMarks, SameIdentity;
    var marks := AllMarks(a.instances, a.proofs);
    AllMarksAreStageMarks(a.instances, a.proofs);
    MarkAllJournals(a, marks);
    var m := MarkAll(a.session, marks);
    if m.error.None? {
      VisitedAreReady(a.session, a.instances, a.proofs);
      forall key | key in m.session.packages
        ensures m.session.packages[key].state == Ready
      {
        assert key in set k | k in a.instances;
      }
      ReadyPhase(m.session);
    }
  }

  /** `SessionNotReady` is unreachable: once every package is marked, the session is ready to commit. */
  lemma MarkedSessionIsReady(env: Env, a: Activation)
    requires WellFormed(env, a)
    ensures ActivationPlan(a).outcome != Err(NotReady) && ActivationPlan(a).outcome != Err(InvalidJournal)
    ensures ActivationPlan(a).outcome.Ok? ==>
              MarkAll(a.session, AllMarks(a.instances, a.proofs)).session.phase == ReadyToCommit
  {
    hide Step, Valid, MarkAll, AllMarks, SameIdentity;
    FreshJournal(a.session);
    if forall i :: 0 <= i < |a.instances| ==> a.instances[i] in a.proofs {
      AllMarksAreStageMarks(a.instances, a.proofs);
      MarkAllJournals(a, AllMarks(a.instances, a.proofs));
      MarkingEndsReady(a);
    }
  }

  /** The plan of an activation that passes the proof check: journals first, then, only if every package became
      ready, the commit operations. */
  lemma PlanShape(env: Env, a: Activation) returns (journals: seq<Action>, ready: SessionValue)
    requires WellFormed(env, a)
    ensures forall i :: 0 <= i < |journals| ==> journals[i].WriteJournal? && JournalFor(a, journals[i].session)
    ensures JournalFor(a, ready)
    ensures ActivationPlan(a).outcome.Ok? ==>
              && |journals| > 0 && ready.phase == ReadyToCommit
              && ActivationPlan(a).script == journals + CommitScript(a, ready)
              && JournalFor(a, ready.(phase := Committed))
    ensures ActivationPlan(a).outcome.Err? ==> ActivationPlan(a).script == journals
  {
    hide Valid, Step, SameIdentity, MarkAll;
    journals, ready := [], a.session;
    FreshJournal(a.session);
    if ActivationPlan(a).script != [] {
      var marks := AllMarks(a.instances, a.proofs);
      AllMarksAreStageMarks(a.instances, a.proofs);
      MarkAllJournals(a, marks);
      MarkedSessionIsReady(env, a);
      var m := MarkAll(a.session, marks);
      journals, ready := [WriteJournal(a.session)] + m.script, m.session;
      if ActivationPlan(a).outcome.Ok? {
        CommittedJournal(a, ready);
        assert journals + CommitScript(a, ready) == ActivationPlan(a).script;
      }
    }
  }

  lemma FreshJournal(s: SessionValue)
    requires Fresh(s)
    ensures Valid(s) && SameIdentity(s, s)
  {}

  lemma CommittedJournal(a: Activation, s: SessionValue)
    requires JournalFor(a, s) && s.phase == ReadyToCommit
    ensures JournalFor(a, s.(phase := Committed))
  {}

  // ----- when a crash is harmless

  datatype Pair = Pair(lock: Option<string>, manifest: Option<string>)

  ghost predicate JournalsFit(env: Env, a: Activation) {
    forall s :: WriteJournal(s) in ActivationPlan(a).script ==> env.journalBytes(s) <= MAX_INSTALL_JOURNAL_BYTES
  }

  /** What recovery reads while the lock is still the old one. */
  ghost predicate OldStateReadable(env: Env, p: Pair, a: Activation) {
    && JournalsFit(env, a) && Fits(p.lock) && (p.lock.Some? ==> env.canonical(p.lock.value).Some?)
    && (LockIs(env, p.lock, env.sha(a.lock)) ==> Fits(p.manifest) && ManifestIs(env, p.manifest, env.sha(a.manifest)))
  }

  /** What a caller can check before activating: nothing will be journaled at all, or what recovery would read fits
      and parses, and the lock really changes unless the manifest does not. The new texts matter only when every
      package becomes ready. */
  ghost predicate CrashSafe(env: Env, p: Pair, a: Activation) {
    var plan := ActivationPlan(a);
    || plan.script == []
    || (&& OldStateReadable(env, p, a)
        && (plan.outcome.Ok? ==> Fits(p.manifest) && Fits(Some(a.lock)) && Fits(Some(a.manifest))))
  }

  /** The old and the target manifest do not share a digest by accident. */
  ghost predicate NoCollision(env: Env, p: Pair, a: Activation) {
    ManifestIs(env, p.manifest, env.sha(a.manifest)) ==> p.manifest == Some(a.manifest)
  }

  // ----- the invariant

  ghost predicate Publishable(env: Env, staged: Option<string>, manifest: Option<string>, s: SessionValue) {
    && staged == manifest && ManifestIs(env, manifest, s.manifestSha256)
    && Fits(manifest) && env.manifestParses(manifest.value)
  }

  /** `p` is the pair of the last activation whose lock swap happened. */
  ghost predicate Inv(env: Env, d: Project, p: Pair) {
    && d.lock == p.lock
    && match d.journal
       case None => d.manifest == p.manifest
       case Some(s) =>
         && Valid(s) && env.journalBytes(s) <= MAX_INSTALL_JOURNAL_BYTES
         && Fits(d.lock) && (d.lock.Some? ==> env.canonical(d.lock.value).Some?)
         && if LockIs(env, d.lock, s.targetLockSha256) then
              && Fits(d.manifest)
              && if ManifestIs(env, d.manifest, s.manifestSha256) then d.manifest == p.manifest
                 else Publishable(env, d.staged, p.manifest, s)
            else d.manifest == p.manifest
  }

  predicate Done(d: Project, p: Pair) {
    d.journal.None? && d.staged.None? && d.lock == p.lock && d.manifest == p.manifest
  }

  lemma ApplyNext(d: Project, script: seq<Action>, k: nat)
    requires k < |script|
    ensures ApplyAll(d, script[..k + 1]) == Apply(ApplyAll(d, script[..k]), script[k])
  {
    assert script[..k + 1][..k] == script[..k];
  }

  /** Recovery never fails from such a state, keeps it wherever it is stopped, and reaches the committed pair. */
  lemma RecoveryKeepsInv(env: Env, d: Project, p: Pair, k: nat)
    requires Inv(env, d, p) && k <= |RecoveryPlan(env, d).script|
    ensures RecoveryPlan(env, d).outcome.Ok?
    ensures Inv(env, ApplyAll(d, RecoveryPlan(env, d).script[..k]), p)
    ensures Done(ApplyAll(d, RecoveryPlan(env, d).script), p)
  {
    hide Valid, Fits, LockIs;
    var script := RecoveryPlan(env, d).script;
    assert script[..0] == [] && script[..|script|] == script;
    if d.journal.None? {
      ApplyNext(d, script, 0);
    } else {
      var id := d.journal.value.sessionId;
      if |script| == 3 {
        CleanUpKeepsInv(env, d, p, id, script, k);
      } else {
        var published := d.(manifest := d.staged);
        ApplyNext(d, script, 0);
        assert script == [WriteManifest(d.staged.value)] + CleanUpScript(id);
        ApplyAllConcat(d, [WriteManifest(d.staged.value)], CleanUpScript(id));
        if k > 0 {
          assert script[..k] == [WriteManifest(d.staged.value)] + CleanUpScript(id)[..k - 1];
          ApplyAllConcat(d, [WriteManifest(d.staged.value)], CleanUpScript(id)[..k - 1]);
          CleanUpKeepsInv(env, published, p, id, CleanUpScript(id), k - 1);
        } else {
          CleanUpKeepsInv(env, published, p, id, CleanUpScript(id), 0);
        }
      }
    }
  }

  function CleanUpScript(id: string): seq<Action> { [RemoveStaged, RemoveJournal, RemoveBuild(id)] }

  /** Cleaning up where the manifest is already the committed one. */
  lemma CleanUpKeepsInv(env: Env, d: Project, p: Pair, id: string, script: seq<Action>, k: nat)
    requires Inv(env, d, p) && d.journal.Some? && d.manifest == p.manifest && script == CleanUpScript(id) && k <= 3
    requires LockIs(env, d.lock, d.journal.value.targetLockSha256) ==> ManifestIs(env, d.manifest, d.journal.value.manifestSha256)
    ensures Inv(env, ApplyAll(d, script[..k]), p) && Done(ApplyAll(d, script), p)
  {
    hide Valid, Fits, LockIs, ManifestIs;
    ApplyNext(d, script, 0);
    ApplyNext(d, script, 1);
    ApplyNext(d, script, 2);
    assert script[..0] == [] && script[..3] == script;
  }

  /** After it, recovery finds nothing to do and changes nothing. */
  lemma RecoveryIsIdempotent(env: Env, d: Project, p: Pair)
    requires Done(d, p)
    ensures RecoveryPlan(env, d).outcome == Ok(Clean) && ApplyAll(d, RecoveryPlan(env, d).script) == d
  {
    ApplyNext(d, [RemoveStaged], 0);
    assert [RemoveStaged][..1] == [RemoveStaged];
  }

  lemma {:induction false} JournalWrites(d: Project, journals: seq<Action>)
    requires forall i :: 0 <= i < |journals| ==> journals[i].WriteJournal?
    ensures ApplyAll(d, journals)
         == if journals == [] then d else d.(journal := Some(journals[|journals| - 1].session))
    decreases |journals|
  {
    if journals != [] {
      JournalWrites(d, journals[..|journals| - 1]);
    }
  }

  predicate Swapped(script: seq<Action>, a: Activation) { WriteLock(a.lock) in script }

  function PairAfter(p: Pair, script: seq<Action>, a: Activation): Pair {
    if Swapped(script, a) then Pair(Some(a.lock), Some(a.manifest)) else p
  }

  /** A journal of the activation over the files of the given pair. */
  lemma JournalKeepsInv(env: Env, d: Project, p: Pair, a: Activation, s: SessionValue)
    requires WellFormed(env, a) && OldStateReadable(env, p, a) && NoCollision(env, p, a) && Written(env, a, s)
    requires d.journal == Some(s) && d.lock == p.lock && d.manifest == p.manifest
    ensures Inv(env, d, p)
  {}

  /** Wherever an activation over a recovered project is stopped, recovery can still finish or undo it. */
  lemma ActivationKeepsInv(env: Env, d: Project, p: Pair, a: Activation, k: nat)
    requires WellFormed(env, a) && CrashSafe(env, p, a) && NoCollision(env, p, a)
    requires Done(d, p) && k <= |ActivationPlan(a).script|
    ensures var done := ActivationPlan(a).script[..k];
            Inv(env, ApplyAll(d, done), PairAfter(p, done, a))
    ensures ActivationPlan(a).outcome.Ok? ==>
              Done(ApplyAll(d, ActivationPlan(a).script), Pair(Some(a.lock), Some(a.manifest)))
  {
    hide Valid, Step, SameIdentity, ActivationPlan, Inv;
    var script := ActivationPlan(a).script;
    var journals, ready := PlanShape(env, a);
    var n := |journals|;
    assert forall i :: 0 <= i < n ==> script[i] == journals[i];
    forall i | 0 <= i < |script| && script[i].WriteJournal?
      ensures env.journalBytes(script[i].session) <= MAX_INSTALL_JOURNAL_BYTES
    {
      assert script[i] in script;
    }
    if k <= n {
      assert script[..k] == journals[..k];
      JournalWrites(d, journals[..k]);
      if k > 0 {
        JournalKeepsInv(env, ApplyAll(d, script[..k]), p, a, journals[k - 1].session);
      } else {
        CleanInv(env, d, p);
      }
      assert !Swapped(journals[..k], a);
    }
    if ActivationPlan(a).outcome.Ok? {
      assert script[n + 1] == WriteJournal(ready) && script[n + 5] == WriteJournal(ready.(phase := Committed));
      CommitKeepsInv(env, d, p, a, journals, ready, if k <= n then n + 1 else k);
    }
  }

  /** The files after each of the commit operations. */
  lemma CommitStates(d: Project, a: Activation, journals: seq<Action>, ready: SessionValue)
    requires forall i :: 0 <= i < |journals| ==> journals[i].WriteJournal?
    requires |journals| > 0
    ensures var script, n := journals + CommitScript(a, ready), |journals|;
            var staged := d.(journal := Some(journals[n - 1].session), staged := Some(a.manifest));
            var swapped := d.(journal := Some(ready), staged := Some(a.manifest), lock := Some(a.lock));
            var published := swapped.(manifest := Some(a.manifest));
            && ApplyAll(d, script[..n + 1]) == staged
            && ApplyAll(d, script[..n + 2]) == staged.(journal := Some(ready))
            && ApplyAll(d, script[..n + 3]) == swapped
            && ApplyAll(d, script[..n + 4]) == published
            && ApplyAll(d, script[..n + 5]) == published.(staged := None)
            && ApplyAll(d, script[..n + 6]) == published.(staged := None, journal := Some(ready.(phase := Committed)))
            && ApplyAll(d, script) == published.(staged := None, journal := None)
  {
    var script, n := journals + CommitScript(a, ready), |journals|;
    assert script[..n] == journals && script[..n + 7] == script;
    JournalWrites(d, journals);
    ApplyNext(d, script, n);
    ApplyNext(d, script, n + 1);
    ApplyNext(d, script, n + 2);
    ApplyNext(d, script, n + 3);
    ApplyNext(d, script, n + 4);
    ApplyNext(d, script, n + 5);
    ApplyNext(d, script, n + 6);
  }

  ghost predicate Written(env: Env, a: Activation, s: SessionValue) {
    JournalFor(a, s) && env.journalBytes(s) <= MAX_INSTALL_JOURNAL_BYTES
  }

  lemma CommitKeepsInv(env: Env, d: Project, p: Pair, a: Activation, journals: seq<Action>, ready: SessionValue, k: nat)
    requires WellFormed(env, a) && OldStateReadable(env, p, a) && NoCollision(env, p, a) && Done(d, p)
    requires Fits(p.manifest) && Fits(Some(a.lock)) && Fits(Some(a.manifest))
    requires forall i :: 0 <= i < |journals| ==> journals[i].WriteJournal?
    requires |journals| > 0 && Written(env, a, journals[|journals| - 1].session)
    requires Written(env, a, ready) && Written(env, a, ready.(phase := Committed))
    requires |journals| < k <= |journals| + 7
    ensures var done := (journals + CommitScript(a, ready))[..k];
            Inv(env, ApplyAll(d, done), PairAfter(p, done, a))
    ensures Done(ApplyAll(d, journals + CommitScript(a, ready)), Pair(Some(a.lock), Some(a.manifest)))
  {
    hide Valid, SameIdentity, WellFormed, OldStateReadable, NoCollision, Inv;
    var script, n := journals + CommitScript(a, ready), |journals|;
    var now := ApplyAll(d, script[..k]);
    assert script[..n + 7] == script;
    CommitStates(d, a, journals, ready);
    SwapIndex(a, journals, ready, k);
    if k <= n + 2 {
      JournalKeepsInv(env, now, p, a, now.journal.value);
    } else if k < n + 7 {
      AfterSwap(env, now, p, a, now.journal.value);
    } else {
      CleanInv(env, now, Pair(Some(a.lock), Some(a.manifest)));
    }
  }

  lemma CleanInv(env: Env, d: Project, p: Pair)
    requires Done(d, p)
    ensures Inv(env, d, p)
  {}

  lemma SwapIndex(a: Activation, journals: seq<Action>, ready: SessionValue, k: nat)
    requires forall i :: 0 <= i < |journals| ==> journals[i].WriteJournal?
    requires k <= |journals| + 7
    ensures Swapped((journals + CommitScript(a, ready))[..k], a) <==> k > |journals| + 2
  {
    var script, n := journals + CommitScript(a, ready), |journals|;
    if k > n + 2 {
      assert script[..k][n + 2] == WriteLock(a.lock);
    } else {
      forall i | 0 <= i < k
        ensures script[i] != WriteLock(a.lock)
      {
        assert i < n ==> script[i] == journals[i];
        assert i >= n ==> script[i] == CommitScript(a, ready)[i - n];
      }
    }
  }

  lemma AfterSwap(env: Env, d: Project, p: Pair, a: Activation, s: SessionValue)
    requires WellFormed(env, a) && OldStateReadable(env, p, a) && NoCollision(env, p, a)
    requires Fits(p.manifest) && Fits(Some(a.lock)) && Fits(Some(a.manifest))
    requires Written(env, a, s)
    requires d.journal == Some(s) && d.lock == Some(a.lock)
    requires d.manifest == Some(a.manifest) || (d.manifest == p.manifest && d.staged == Some(a.manifest))
    ensures Inv(env, d, Pair(Some(a.lock), Some(a.manifest)))
  {}

  // ----- runs

  /** A call, stopped after at most `stop` durable operations. */
  datatype Event = Activate(a: Activation, stop: nat) | Recover(stop: nat)

  function EventScript(env: Env, d: Project, e: Event): seq<Action> {
    match e
    case Activate(a, _) => FullPlan(env, d, a).script
    case Recover(_) => RecoveryPlan(env, d).script
  }

  function Performed(env: Env, d: Project, e: Event): seq<Action> {
    var script := EventScript(env, d, e);
    if e.stop < |script| then script[..e.stop] else script
  }

  function RunTo(env: Env, d: Project, events: seq<Event>): Project
    decreases |events|
  {
    if events == [] then d
    else
      var before := RunTo(env, d, events[..|events| - 1]);
      ApplyAll(before, Performed(env, before, events[|events| - 1]))
  }

  /** The pair of the last activation in the run whose lock swap happened. */
  function CommittedPair(env: Env, d: Project, events: seq<Event>): Pair
    decreases |events|
  {
    if events == [] then Pair(d.lock, d.manifest)
    else
      var init, e := events[..|events| - 1], events[|events| - 1];
      var p := CommittedPair(env, d, init);
      if e.Activate? then PairAfter(p, Performed(env, RunTo(env, d, init), e), e.a) else p
  }

  ghost predicate Allowed(env: Env, p: Pair, e: Event) {
    e.Activate? ==> WellFormed(env, e.a) && CrashSafe(env, p, e.a) && NoCollision(env, p, e.a)
  }

  ghost predicate AllowedRun(env: Env, d: Project, events: seq<Event>) {
    forall i :: 0 <= i < |events| ==> Allowed(env, CommittedPair(env, d, events[..i]), events[i])
  }

  lemma RecoveryNeverSwaps(env: Env, d: Project)
    ensures forall i :: 0 <= i < |RecoveryPlan(env, d).script| ==> !RecoveryPlan(env, d).script[i].WriteLock?
  {}

  lemma EventKeepsInv(env: Env, d: Project, p: Pair, e: Event)
    requires Inv(env, d, p) && Allowed(env, p, e)
    ensures var done := Performed(env, d, e);
            Inv(env, ApplyAll(d, done), if e.Activate? then PairAfter(p, done, e.a) else p)
  {
    hide Valid, Step, ActivationPlan, RecoveryPlan, Inv;
    var rec := RecoveryPlan(env, d).script;
    var done := Performed(env, d, e);
    assert rec[..|rec|] == rec;
    assert forall i :: 0 <= i < |rec| ==> !rec[i].WriteLock? by {
      RecoveryNeverSwaps(env, d);
    }
    RecoveryKeepsInv(env, d, p, if |done| < |rec| then |done| else |rec|);
    if e.Activate? {
      var act := ActivationPlan(e.a).script;
      if |done| <= |rec| {
        assert done == rec[..|done|];
      } else {
        var k := |done| - |rec|;
        assert done == rec + act[..k];
        ApplyAllConcat(d, rec, act[..k]);
        ActivationKeepsInv(env, ApplyAll(d, rec), p, e.a, k);
        assert Swapped(done, e.a) <==> Swapped(act[..k], e.a);
      }
    }
  }

  lemma {:induction false} RunKeepsInv(env: Env, d: Project, events: seq<Event>)
    requires d.journal.None? && AllowedRun(env, d, events)
    ensures Inv(env, RunTo(env, d, events), CommittedPair(env, d, events))
    decreases |events|
  {
    if events != [] {
      var n := |events| - 1;
      var init := events[..n];
      forall i | 0 <= i < n
        ensures Allowed(env, CommittedPair(env, d, init[..i]), init[i])
      {
        assert init[..i] == events[..i];
      }
      RunKeepsInv(env, d, init);
      EventKeepsInv(env, RunTo(env, d, init), CommittedPair(env, d, init), events[n]);
    }
  }

  /** Crash atomicity and convergence: after any run, stopped anywhere, the lock is the last one swapped in, and
      recovery succeeds, leaves exactly the pair that swap committed and no trace of the install, and run once
      more changes nothing. */
  lemma CrashAtomicity(env: Env, d: Project, events: seq<Event>)
    requires d.journal.None? && AllowedRun(env, d, events)
    ensures var now, p := RunTo(env, d, events), CommittedPair(env, d, events);
            var plan := RecoveryPlan(env, RunTo(env, d, events));
            && now.lock == p.lock
            && plan.outcome.Ok?
            && Done(ApplyAll(now, plan.script), p)
            && RecoveryPlan(env, ApplyAll(now, plan.script)).outcome == Ok(Clean)
            && RunTo(env, d, events + [Recover(|plan.script|), Recover(1)]) == ApplyAll(now, plan.script)
  {
    var now, p := RunTo(env, d, events), CommittedPair(env, d, events);
    var plan := RecoveryPlan(env, now);
    RunKeepsInv(env, d, events);
    RecoveryKeepsInv(env, now, p, 0);
    RecoveryIsIdempotent(env, ApplyAll(now, plan.script), p);
    var once := events + [Recover(|plan.script|)];
    var twice := events + [Recover(|plan.script|), Recover(1)];
    assert twice[..|twice| - 1] == once && once[..|once| - 1] == events;
  }

  /** A completed activation commits exactly its target. */
  lemma CompletedActivation(env: Env, d: Project, events: seq<Event>, a: Activation)
    requires d.journal.None? && AllowedRun(env, d, events)
    requires Allowed(env, CommittedPair(env, d, events), Activate(a, 0))
    requires FullPlan(env, RunTo(env, d, events), a).outcome.Ok?
    ensures var now := RunTo(env, d, events);
            Done(ApplyAll(now, FullPlan(env, now, a).script), Pair(Some(a.lock), Some(a.manifest)))
  {
    var now, p := RunTo(env, d, events), CommittedPair(env, d, events);
    RunKeepsInv(env, d, events);
    RecoveryKeepsInv(env, now, p, 0);
    var rec := RecoveryPlan(env, now).script;
    ApplyAllConcat(now, rec, ActivationPlan(a).script);
    ActivationKeepsInv(env, ApplyAll(now, rec), p, a, 0);
  }
}
