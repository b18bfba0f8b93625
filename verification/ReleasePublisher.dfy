/** The release refresh as it runs: calls to a service that may stop answering at any of them. */
module ReleasePublisher {
  import opened Text
  import opened ReleaseRefresh

  /** The calls made until the service stops answering, and whether all were made. */
  function RunCalls(h: Hosting, budget: nat, left: Option<Asset>, calls: seq<Call>): (Hosting, bool)
    decreases |calls|
  {
    if calls == [] then (h, true)
    else if budget == 0 then (if left.Some? then ApplyBroken(h, calls[0], left.value) else h, false)
    else RunCalls(Apply(h, calls[0]), budget - 1, left, calls[1..])
  }

  /** A run that stops answering is one of the stopped refreshes. */
  lemma {:induction false} RunCallsStop(h: Hosting, budget: nat, left: Option<Asset>, calls: seq<Call>)
    ensures RunCalls(h, budget, left, calls) == (Stopped(h, calls, budget, left), budget >= |calls|)
    decreases |calls|
  {
    hide Apply, ApplyBroken;
    if calls != [] && budget > 0 {
      RunCallsStop(Apply(h, calls[0]), budget - 1, left, calls[1..]);
      if budget < |calls| {
        assert calls[..budget][1..] == calls[1..][..budget - 1];
      }
    }
  }

  lemma NextCall(h: Hosting, budget: nat, left: Option<Asset>, call: Call, rest: seq<Call>)
    ensures RunCalls(h, budget, left, [call] + rest)
            == if budget == 0 then (if left.Some? then ApplyBroken(h, call, left.value) else h, false)
               else RunCalls(Apply(h, call), budget - 1, left, rest)
  {
    assert ([call] + rest)[1..] == rest;
  }

  class Service {
    var hosting: Hosting
    /** How many more calls are answered, and what the next one after them leaves if it is an upload. */
    var budget: nat
    const left: Option<Asset>

    constructor (hosting: Hosting, budget: nat, left: Option<Asset>)
      ensures this.hosting == hosting && this.budget == budget && this.left == left
    {
      this.hosting, this.budget, this.left := hosting, budget, left;
    }

    /** What `calls` would do from now. */
    ghost function Outcome(calls: seq<Call>): (Hosting, bool)
      reads this
    {
      RunCalls(hosting, budget, left, calls)
    }

    method Request(call: Call, ghost rest: seq<Call>) returns (ok: bool)
      modifies this
      ensures ok ==> old(Outcome([call] + rest)) == Outcome(rest) && hosting == Apply(old(hosting), call)
      ensures !ok ==> old(Outcome([call] + rest)) == (hosting, false)
    {
      NextCall(hosting, budget, left, call, rest);
      if budget == 0 {
        if left.Some? {
          hosting := ApplyBroken(hosting, call, left.value);
        }
        return false;
      }
      hosting, budget := Apply(hosting, call), budget - 1;
      return true;
    }

    /** Each package that is missing, or only half there, is uploaded; one that differs ends the refresh. */
    method UploadPackages(listed: map<string, Asset>, packages: seq<Package>, ghost rest: seq<Call>)
      returns (r: Result<(), RefreshError>)
      modifies this
      ensures var plan := UploadPlan(listed, packages);
              if plan.outcome.Ok? then
                if r.Ok? then old(Outcome(plan.calls + rest)) == Outcome(rest)
                else r == Err(Interrupted) && old(Outcome(plan.calls + rest)) == (hosting, false)
              else
                && r.Err?
                && old(Outcome(plan.calls)) == (hosting, r != Err(Interrupted))
                && (r == Err(Interrupted) || r == plan.outcome)
    {
      hide Apply, ApplyBroken, RunCalls, Matches;
      ghost var plan := UploadPlan(listed, packages);
      ghost var tail := if plan.outcome.Ok? then rest else [];
      assert plan.calls + [] == plan.calls;
      NothingLeft(hosting, budget, left);
      assert packages[0..] == packages;
      var i := 0;
      while i < |packages|
        invariant i <= |packages|
        invariant UploadPlan(listed, packages[i..]).outcome == plan.outcome
        invariant old(Outcome(plan.calls + tail)) == Outcome(UploadPlan(listed, packages[i..]).calls + tail)
      {
        var p := packages[i];
        assert packages[i..][0] == p && packages[i..][1..] == packages[i + 1..];
        ghost var later := UploadPlan(listed, packages[i + 1..]).calls + tail;
        PlanCalls(listed, packages, i, tail);
        var missing := p.name !in listed;
        if !missing && listed[p.name].starter && listed[p.name].size == 0 {
          var deleted := Request(DeleteAsset(listed[p.name].id), [Upload(p)] + later);
          if !deleted {
            return Err(Interrupted);
          }
          missing := true;
        }
        if missing {
          var uploaded := Request(Upload(p), later);
          if !uploaded {
            return Err(Interrupted);
          }
        } else if !Matches(listed, p) {
          NothingLeft(hosting, budget, left);
          return Err(ChecksumMismatch);
        }
        i := i + 1;
      }
      assert packages[|packages|..] == [];
      assert [] + tail == tail;
      return Ok(());
    }

    method DeleteObsolete(listed: map<string, Asset>, listing: seq<string>, build: Build) returns (done: bool)
      modifies this
      ensures old(Outcome(CleanupCalls(listed, listing, build))) == (hosting, done)
    {
      hide Apply, ApplyBroken, RunCalls, Obsolete;
      assert listing[0..] == listing;
      for i := 0 to |listing|
        invariant old(Outcome(CleanupCalls(listed, listing, build))) == Outcome(CleanupCalls(listed, listing[i..], build))
      {
        assert listing[i..][0] == listing[i] && listing[i..][1..] == listing[i + 1..];
        ghost var later := CleanupCalls(listed, listing[i + 1..], build);
        assert [] + later == later;
        if listing[i] in listed && Obsolete(build, listing[i]) {
          var deleted := Request(DeleteAsset(listed[listing[i]].id), later);
          if !deleted {
            return false;
          }
        }
      }
      assert listing[|listing|..] == [];
      NothingLeft(hosting, budget, left);
      return true;
    }

    method PublishRelease(site: string, listing: seq<string>, build: Build) returns (r: Result<(), RefreshError>)
      modifies this
      ensures var plan := RefreshPlan(site, old(hosting), listing, build);
              && old(Outcome(plan.calls)) == (hosting, r != Err(Interrupted))
              && (r == Err(Interrupted) || r == plan.outcome)
      ensures forall base :: Inv(site, base, old(hosting)) && ValidBuild(base, build) ==>
                Inv(site, base, hosting) && KeepsForeign(base, old(hosting), hosting)
    {
      hide Apply, ApplyBroken, RunCalls, UploadPlan, CleanupCalls, ValidBuild, Inv, KeepsForeign;
      ghost var before, plan := hosting, RefreshPlan(site, hosting, listing, build);
      StoppedIsSafe(site, hosting, budget, left, listing, build);
      ghost var uploads := UploadPlan(hosting.assets, build.packages);
      ghost var last := if uploads.outcome.Err? then [] else
        [Patch(BodyOf(site, build))] + CleanupCalls(hosting.assets, listing, build);
      assert plan.calls == (if hosting.release.None? then [CreateDraft] else []) + (uploads.calls + last);
      if hosting.release.None? {
        var created := Request(CreateDraft, uploads.calls + last);
        if !created {
          return Err(Interrupted);
        }
      } else {
        assert [] + (uploads.calls + last) == uploads.calls + last;
      }
      assert hosting.assets == before.assets by { DraftHasNoFiles(before); }
      assert uploads.outcome.Err? ==> uploads.calls + last == uploads.calls;
      var previous := hosting.assets;
      r := UploadPackages(previous, build.packages, last);
      if r.Err? {
        return;
      }
      var patched := Request(Patch(BodyOf(site, build)), CleanupCalls(previous, listing, build));
      if !patched {
        return Err(Interrupted);
      }
      var done := DeleteObsolete(previous, listing, build);
      return if done then Ok(()) else Err(Interrupted);
    }
  }

  lemma NothingLeft(h: Hosting, budget: nat, left: Option<Asset>)
    ensures RunCalls(h, budget, left, []) == (h, true)
  {}

  lemma DraftHasNoFiles(h: Hosting)
    ensures Apply(h, CreateDraft).assets == h.assets
  {}

  lemma PlanCalls(listed: map<string, Asset>, packages: seq<Package>, i: nat, tail: seq<Call>)
    requires i < |packages|
    ensures var p, later := packages[i], UploadPlan(listed, packages[i + 1..]).calls + tail;
            var calls := UploadPlan(listed, packages[i..]).calls + tail;
            if p.name !in listed then calls == [Upload(p)] + later
            else if listed[p.name].starter && listed[p.name].size == 0 then
              calls == [DeleteAsset(listed[p.name].id)] + ([Upload(p)] + later)
            else if Matches(listed, p) then calls == later
            else calls == tail
  {
    hide Matches;
    assert packages[i..][0] == packages[i] && packages[i..][1..] == packages[i + 1..];
  }

  lemma StoppedIsSafe(site: string, h: Hosting, budget: nat, left: Option<Asset>, listing: seq<string>, build: Build)
    ensures forall base :: Inv(site, base, h) && ValidBuild(base, build) ==>
              var after := RunCalls(h, budget, left, RefreshPlan(site, h, listing, build).calls).0;
              Inv(site, base, after) && KeepsForeign(base, h, after)
  {
    hide Inv, ValidBuild, KeepsForeign, RefreshPlan, RunCalls, Stopped, SafeRun;
    var calls := RefreshPlan(site, h, listing, build).calls;
    RunCallsStop(h, budget, left, calls);
    forall base | Inv(site, base, h) && ValidBuild(base, build)
      ensures Inv(site, base, Stopped(h, calls, budget, left)) && KeepsForeign(base, h, Stopped(h, calls, budget, left))
    {
      RefreshSafe(site, base, h, listing, build);
      SafeStopped(site, base, h, calls, budget, left);
    }
  }
}
