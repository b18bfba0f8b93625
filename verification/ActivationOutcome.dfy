/** Exactly which activations complete. */
module ActivationOutcome {
  import opened Text
  import opened Session
  import opened Activation
  import opened ActivationSafety

  /** The proof carries the package's own hash, an acceptable build id, and a gate that activates. */
  predicate Passes(s: SessionValue, key: string, proof: Proof) {
    && key in s.packages
    && IsSha256(proof.observed) && Lower(proof.observed) == s.packages[key].artifactSha256
    && (proof.build.Some? ==> ValidText(proof.build.value))
    && proof.canActivate
  }

  lemma OneMark(s: SessionValue, m: Mark)
    requires Valid(s)
    ensures MarkAll(s, [m]).error.None? <==> Step(s, m).Ok?
    ensures Step(s, m).Ok? ==> MarkAll(s, [m]).session == Step(s, m).value && Valid(Step(s, m).value)
  {
    hide Valid, Step;
    assert [m][..0] == [];
    if Step(s, m).Ok? {
      StepKeepsValid(s, m);
    }
  }

  /** A mark in front of others. */
  lemma MarkThenRest(s: SessionValue, m: Mark, rest: seq<Mark>)
    requires Valid(s)
    ensures MarkAll(s, [m] + rest).error.None? <==> Step(s, m).Ok? && MarkAll(Step(s, m).value, rest).error.None?
    ensures Step(s, m).Ok? ==> Valid(Step(s, m).value)
  {
    hide Valid, Step, MarkAll;
    MarkAllConcat(s, [m], rest);
    OneMark(s, m);
  }

  /** A pending package takes all four marks exactly when its proof passes. */
  lemma FourMarksIff(s: SessionValue, key: string, proof: Proof)
    requires Valid(s) && key in s.packages && s.packages[key].state == Pending
    ensures MarkAll(s, PackageMarks(key, proof)).error.None? <==> Passes(s, key, proof)
  {
    hide MarkAll, Valid, ValidText, IsSha256, Lower, Passes, Step;
    var m := PackageMarks(key, proof);
    assert m == [m[0]] + [m[1], m[2], m[3]];
    MarkThenRest(s, m[0], [m[1], m[2], m[3]]);
    PendingIsPreparing(s, key);
    AcceptsVerified(s, key, proof);
    if Step(s, m[0]).Ok? {
      var s1 := Step(s, m[0]).value;
      assert [m[1], m[2], m[3]] == [m[1]] + [m[2], m[3]];
      MarkThenRest(s1, m[1], [m[2], m[3]]);
      AcceptsPrepared(s1, key, proof);
      if Step(s1, m[1]).Ok? {
        var s2 := Step(s1, m[1]).value;
        assert [m[2], m[3]] == [m[2]] + [m[3]];
        MarkThenRest(s2, m[2], [m[3]]);
        AcceptsAttested(s2, key, proof);
        if Step(s2, m[2]).Ok? {
          OneMark(Step(s2, m[2]).value, m[3]);
        }
      }
    }
    PassesMeans(s, key, proof);
  }

  lemma PassesMeans(s: SessionValue, key: string, proof: Proof)
    requires key in s.packages
    ensures Passes(s, key, proof) <==>
              && IsSha256(proof.observed) && Lower(proof.observed) == s.packages[key].artifactSha256
              && (proof.build.Some? ==> ValidText(proof.build.value)) && proof.canActivate
  {}

  lemma PendingIsPreparing(s: SessionValue, key: string)
    requires Valid(s) && key in s.packages && s.packages[key].state == Pending
    ensures s.phase == Preparing
  {}

  lemma AcceptsVerified(s: SessionValue, key: string, proof: Proof)
    requires s.phase == Preparing && key in s.packages && s.packages[key].state == Pending
    ensures var r := Step(s, MarkArtifactVerified(key, proof.observed));
            && (r.Ok? <==> IsSha256(proof.observed) && Lower(proof.observed) == s.packages[key].artifactSha256)
            && (r.Ok? ==> r.value.phase == Preparing && key in r.value.packages && r.value.packages[key].state == ArtifactVerified)
  {}

  lemma AcceptsPrepared(s: SessionValue, key: string, proof: Proof)
    requires s.phase == Preparing && key in s.packages && s.packages[key].state == ArtifactVerified
    ensures var r := Step(s, MarkPrepared(key, proof.build));
            && (r.Ok? <==> (proof.build.Some? ==> ValidText(proof.build.value)))
            && (r.Ok? ==> r.value.phase == Preparing && key in r.value.packages && r.value.packages[key].state == Prepared)
  {}

  lemma AcceptsAttested(s: SessionValue, key: string, proof: Proof)
    requires s.phase == Preparing && key in s.packages && s.packages[key].state == Prepared
    ensures var r := Step(s, MarkAttested(key, proof.canActivate));
            && (r.Ok? <==> proof.canActivate)
            && (r.Ok? ==> Step(r.value, MarkReady(key)).Ok?)
  {}

  lemma {:induction false} UnvisitedStay(s: SessionValue, instances: seq<string>, proofs: map<string, Proof>, key: string)
    requires forall i :: 0 <= i < |instances| ==> instances[i] in proofs && instances[i] != key
    requires MarkAll(s, AllMarks(instances, proofs)).error.None? && key in s.packages
    ensures var t := MarkAll(s, AllMarks(instances, proofs)).session;
            key in t.packages && t.packages[key] == s.packages[key]
    decreases |instances|
  {
    hide MarkAll;
    if instances == [] {
      NoMarks(s);
    } else {
      var n := |instances| - 1;
      PackageBecomesReady(s, AllMarks(instances[..n], proofs), instances[n], proofs[instances[n]]);
      UnvisitedStay(s, instances[..n], proofs, key);
    }
  }

  lemma {:induction false} AllMarksIff(a: Activation, n: nat)
    requires Fresh(a.session) && n <= |a.instances|
    requires forall i :: 0 <= i < |a.instances| ==> a.instances[i] in a.proofs && a.instances[i] in a.session.packages
    requires forall i, j :: 0 <= i < j < |a.instances| ==> a.instances[i] != a.instances[j]
    ensures MarkAll(a.session, AllMarks(a.instances[..n], a.proofs)).error.None?
       <==> forall i :: 0 <= i < n ==> Passes(a.session, a.instances[i], a.proofs[a.instances[i]])
  {
    hide MarkAll, Passes, Valid, SameIdentity;
    if n == 0 {
      NoMarks(a.session);
    } else {
      AllMarksIff(a, n - 1);
      var earlier, key := AllMarks(a.instances[..n - 1], a.proofs), a.instances[n - 1];
      assert a.instances[..n][..n - 1] == a.instances[..n - 1];
      MarkAllConcat(a.session, earlier, PackageMarks(key, a.proofs[key]));
      if MarkAll(a.session, earlier).error.None? {
        var t := MarkAll(a.session, earlier).session;
        AllMarksAreStageMarks(a.instances[..n - 1], a.proofs);
        MarkAllJournals(a, earlier);
        UnvisitedStay(a.session, a.instances[..n - 1], a.proofs, key);
        FreshIsPending(a.session, key);
        FourMarksIff(t, key, a.proofs[key]);
        PassesAs(a.session, t, key, a.proofs[key]);
      }
    }
  }

  lemma FreshIsPending(s: SessionValue, key: string)
    requires Fresh(s) && key in s.packages
    ensures s.packages[key].state == Pending
  {}

  lemma PassesAs(s: SessionValue, t: SessionValue, key: string, proof: Proof)
    requires key in s.packages && key in t.packages && s.packages[key] == t.packages[key]
    ensures Passes(s, key, proof) <==> Passes(t, key, proof)
  {}

  /** An activation completes if and only if it has exactly one proof for each package and each proof passes. */
  lemma ActivationCompletesIff(env: Env, a: Activation)
    requires WellFormed(env, a)
    ensures ActivationPlan(a).outcome.Ok? <==>
              && a.proofs.Keys == a.session.packages.Keys
              && forall key :: key in a.session.packages ==> Passes(a.session, key, a.proofs[key])
  {
    hide ActivationPlan, MarkAll, AllMarks, Passes, WellFormed, Fresh;
    FromWellFormed(env, a);
    PlanCompletes(env, a);
    if a.proofs.Keys == a.session.packages.Keys {
      AllMarksIff(a, |a.instances|);
      assert a.instances[..|a.instances|] == a.instances;
    }
  }

  lemma FromWellFormed(env: Env, a: Activation)
    requires WellFormed(env, a)
    ensures Fresh(a.session) && forall i, j :: 0 <= i < j < |a.instances| ==> a.instances[i] != a.instances[j]
    ensures forall i :: 0 <= i < |a.instances| ==> a.instances[i] in a.session.packages
    ensures forall key :: key in a.session.packages ==> exists i :: 0 <= i < |a.instances| && a.instances[i] == key
  {
    hide Fresh;
    InstancesArePackages(a);
  }

  /** The checks before the first journal, and then the marks. */
  lemma PlanCompletes(env: Env, a: Activation)
    requires WellFormed(env, a)
    ensures forall i :: 0 <= i < |a.instances| ==> a.instances[i] in a.session.packages
    ensures ActivationPlan(a).outcome.Ok? <==>
              a.proofs.Keys == a.session.packages.Keys && MarkAll(a.session, AllMarks(a.instances, a.proofs)).error.None?
  {
    hide MarkAll, AllMarks, Valid, Step;
    InstancesArePackages(a);
    MarkedSessionIsReady(env, a);
    FreshJournal(a.session);
  }

  lemma InstancesArePackages(a: Activation)
    requires (set key | key in a.instances) == a.session.packages.Keys
    ensures forall i :: 0 <= i < |a.instances| ==> a.instances[i] in a.session.packages
    ensures forall key :: key in a.session.packages ==> exists i :: 0 <= i < |a.instances| && a.instances[i] == key
  {
    forall i | 0 <= i < |a.instances|
      ensures a.instances[i] in a.session.packages
    {
      assert a.instances[i] in set key | key in a.instances;
    }
    forall key | key in a.session.packages
      ensures exists i :: 0 <= i < |a.instances| && a.instances[i] == key
    {
      assert key in set k | k in a.instances;
    }
  }

  // ----- why the others do not

  ghost predicate Extra(a: Activation) { exists key :: key in a.proofs && key !in a.session.packages }

  ghost predicate Missing(a: Activation) { exists key :: key in a.session.packages && key !in a.proofs }

  /** Proofs are checked before anything is written: for one too many, then for one that is missing. */
  lemma ProofsChecked(env: Env, a: Activation)
    requires WellFormed(env, a)
    ensures ActivationPlan(a) == Plan([], Err(UnexpectedProof)) <==> Extra(a)
    ensures ActivationPlan(a) == Plan([], Err(MissingProof)) <==> !Extra(a) && Missing(a)
    ensures ActivationPlan(a).outcome.Ok? ==> ActivationPlan(a).outcome.value == |a.session.packages.Keys|
    ensures !Extra(a) && !Missing(a) ==> |ActivationPlan(a).script| > 0 && ActivationPlan(a).script[0] == WriteJournal(a.session)
  {
    hide Valid, Step, MarkAll, AllMarks, SameIdentity;
    FreshJournal(a.session);
    if !Extra(a) && !Missing(a) {
      forall i | 0 <= i < |a.instances|
        ensures a.instances[i] in a.proofs
      {
        assert a.instances[i] in set key | key in a.instances;
      }
    }
  }

  /** The first `n` marks are accepted, one after another, and each is journaled. */
  ghost predicate Accepted(s: SessionValue, marks: seq<Mark>, n: nat, states: seq<SessionValue>, script: seq<Action>)
    requires n <= |marks|
  {
    && |states| == n + 1 && states[0] == s && |script| == n
    && forall i :: 0 <= i < n ==> Step(states[i], marks[i]) == Ok(states[i + 1]) && script[i] == WriteJournal(states[i + 1])
  }

  /** Marking stops at the first mark that is refused, with its refusal, after journaling those before it. */
  lemma {:induction false} StopsAtRefusal(a: Activation, marks: seq<Mark>) returns (n: nat, states: seq<SessionValue>)
    requires Fresh(a.session) && OnlyStageMarks(marks)
    ensures n <= |marks| && Accepted(a.session, marks, n, states, MarkAll(a.session, marks).script)
    ensures MarkAll(a.session, marks).session == states[n]
    ensures match MarkAll(a.session, marks).error
            case None => n == |marks|
            case Some(e) => n < |marks| && e.SessionFailed? && Step(states[n], marks[n]) == Err(e.error)
    decreases |marks|
  {
    hide Valid, Step, SameIdentity;
    if marks == [] {
      n, states := 0, [a.session];
    } else {
      var k := |marks| - 1;
      MarkAllJournals(a, marks[..k]);
      n, states := StopsAtRefusal(a, marks[..k]);
      if n == k && Step(states[k], marks[k]).Ok? {
        StepKeepsValid(states[k], marks[k]);
        states := states + [Step(states[k], marks[k]).value];
        n := k + 1;
      }
    }
  }
}
