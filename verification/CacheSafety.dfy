/** Write-once publication under hard-link aliasing, over runs of stages and promotions stopped anywhere. */
module CacheSafety {
  import opened Text
  import opened Numerals
  import opened ArtifactCache

  /** A plan as it is made from a lock: a canonical digest, and a size that is known. */
  predicate Pinned(plan: DownloadPlan) {
    plan.expectedSize.Some? && plan.maximumBytes < U64_BOUND && Lower(plan.expectedSha256) == plan.expectedSha256
  }

  /** Bytes that satisfy the pin. */
  predicate Good(sha: Bytes -> string, plan: DownloadPlan, contents: Bytes) {
    plan.expectedSize == Some(|contents|) && sha(contents) == plan.expectedSha256
  }

  /** The two names share an inode only when it holds the whole verified artifact. */
  ghost predicate Inv(sha: Bytes -> string, plan: DownloadPlan, f: Files) {
    && WellFormed(f)
    && (f.final.Some? && f.partial == f.final ==> Good(sha, plan, f.inodes[f.final.value]))
  }

  ghost predicate FinalAbsentOrGood(sha: Bytes -> string, plan: DownloadPlan, f: Files) {
    f.final.Some? ==> Contents(f, f.final).Some? && Good(sha, plan, Contents(f, f.final).value)
  }

  /** `g` came from `f` without touching what the final name leads to. */
  ghost predicate FinalKept(f: Files, g: Files) {
    f.final.Some? ==> g.final == f.final && Contents(g, g.final) == Contents(f, f.final)
  }

  /** A step that may be taken while staging: it never writes through the final name. */
  ghost predicate SafeStep(f: Files, a: Action) {
    match a
    case RemovePartial => true
    case TruncatePartial => f.final.None? || f.partial != f.final
    case Append(_) => f.partial.Some? && (f.final.None? || f.partial != f.final)
    case _ => false
  }

  ghost predicate SafeScript(f: Files, script: seq<Action>) {
    forall k :: 0 <= k < |script| ==> SafeStep(ApplyAll(f, script[..k]), script[k])
  }

  lemma {:induction false} SafeScriptKeeps(sha: Bytes -> string, plan: DownloadPlan, f: Files, script: seq<Action>, k: nat)
    requires Inv(sha, plan, f) && SafeScript(f, script) && k <= |script|
    ensures var g := ApplyAll(f, script[..k]);
            Inv(sha, plan, g) && FinalKept(f, g) && (f.final.None? ==> g.final.None?)
  {
    hide ApplyAll;
    EmptyScript(f);
    assert script[..0] == [];
    if k > 0 {
      SafeScriptKeeps(sha, plan, f, script, k - 1);
      ApplyNext(f, script, k - 1);
      assert SafeStep(ApplyAll(f, script[..k - 1]), script[k - 1]);
    }
  }

  /** Appending to a partial file of its own. */
  lemma {:induction false} AppendsEffect(f: Files, bytes: Bytes, k: nat)
    requires WellFormed(f) && f.partial.Some? && k <= |bytes|
    ensures ApplyAll(f, Appends(bytes)[..k])
         == f.(inodes := f.inodes[f.partial.value := PartialBytes(f) + bytes[..k]])
  {
    if k == 0 {
      assert PartialBytes(f) + bytes[..0] == PartialBytes(f);
    } else {
      AppendsEffect(f, bytes, k - 1);
      ApplyNext(f, Appends(bytes), k - 1);
      assert PartialBytes(f) + bytes[..k - 1] + [bytes[k - 1]] == PartialBytes(f) + bytes[..k];
    }
  }

  lemma SafeScriptConcat(f: Files, a: seq<Action>, b: seq<Action>)
    requires SafeScript(f, a) && SafeScript(ApplyAll(f, a), b)
    ensures SafeScript(f, a + b) && ApplyAll(f, a + b) == ApplyAll(ApplyAll(f, a), b)
  {
    forall k | 0 <= k < |a + b|
      ensures SafeStep(ApplyAll(f, (a + b)[..k]), (a + b)[k])
    {
      if k < |a| {
        assert (a + b)[..k] == a[..k];
      } else {
        assert (a + b)[..k] == a + b[..k - |a|];
        ApplyAllConcat(f, a, b[..k - |a|]);
        assert SafeStep(ApplyAll(ApplyAll(f, a), b[..k - |a|]), b[k - |a|]);
      }
    }
    ApplyAllConcat(f, a, b);
  }

  lemma AppendingIsSafe(f: Files, bytes: Bytes)
    requires WellFormed(f) && f.partial.Some? && (f.final.None? || f.partial != f.final)
    ensures SafeScript(f, Appends(bytes))
    ensures PartialBytes(ApplyAll(f, Appends(bytes))) == PartialBytes(f) + bytes
  {
    hide ApplyAll;
    forall k | 0 <= k < |bytes|
      ensures SafeStep(ApplyAll(f, Appends(bytes)[..k]), Appends(bytes)[k])
    {
      AppendsEffect(f, bytes, k);
    }
    AppendsEffect(f, bytes, |bytes|);
    assert Appends(bytes)[..|bytes|] == Appends(bytes) && bytes[..|bytes|] == bytes;
  }

  lemma TruncatingIsSafe(f: Files)
    requires WellFormed(f) && (f.final.None? || f.partial != f.final)
    ensures var g := Apply(f, TruncatePartial);
            && ApplyAll(f, [TruncatePartial]) == g && SafeScript(f, [TruncatePartial])
            && WellFormed(g) && g.partial.Some? && (g.final.None? || g.partial != g.final) && PartialBytes(g) == []
  {
    assert [TruncatePartial][..0] == [];
  }

  /** Opening the partial file, to truncate it or at its end, and writing bytes to it. */
  lemma WritingIsSafe(f: Files, open: seq<Action>, bytes: Bytes)
    requires WellFormed(f) && (f.final.None? || f.partial != f.final)
    requires open == [TruncatePartial] || (open == [] && f.partial.Some?)
    ensures SafeScript(f, open + Appends(bytes))
    ensures PartialBytes(ApplyAll(f, open + Appends(bytes))) == (if open == [] then PartialBytes(f) else []) + bytes
  {
    hide ApplyAll, SafeScript, Appends;
    if open == [] {
      EmptyScript(f);
      AppendingIsSafe(f, bytes);
      assert open + Appends(bytes) == Appends(bytes);
    } else {
      TruncatingIsSafe(f);
      AppendingIsSafe(Apply(f, TruncatePartial), bytes);
      SafeScriptConcat(f, open, Appends(bytes));
    }
  }

  predicate Answers(plan: DownloadPlan, v: VerifierValue, r: Response) {
    200 <= r.status < 300 && ContentLengthProblem(r, plan.expectedSize, |v.fed|).None?
  }

  /** The download part. A refused answer writes nothing. An accepted one, whole, broken off or with a refused
      chunk, leaves on disk exactly the bytes that were hashed, and a verdict is about them. */
  lemma DownloadIsSafe(sha: Bytes -> string, plan: DownloadPlan, f: Files, v: VerifierValue, r: Response)
    requires WellFormed(f) && (f.final.None? || f.partial != f.final)
    requires v.fed == [] || v.fed == PartialBytes(f)
    requires |v.fed| <= v.maximumBytes < U64_BOUND
    ensures var d, after := DownloadScript(sha, plan, v, r), ApplyAll(f, DownloadScript(sha, plan, v, r).script);
            && SafeScript(f, d.script)
            && (if Answers(plan, v, r) then PartialBytes(after) == Receive(v, r.chunks).verifier.fed
                else d.script == [] && d.outcome.Err?)
            && (d.outcome.Ok? || d.outcome == Err(HashMismatch) ==>
                  Answers(plan, v, r) && d.outcome == FinishStage(sha, plan, v.(fed := PartialBytes(after))))
  {
    hide SafeScript, ApplyAll, Receive, FinishStage;
    var d := DownloadScript(sha, plan, v, r);
    EmptyScript(f);
    if Answers(plan, v, r) {
      StreamingEqualsOneShot(v, r.chunks);
      RefusalsAreNoVerdict(v, r.chunks);
      WritingIsSafe(f, if |v.fed| > 0 then [] else [TruncatePartial], Receive(v, r.chunks).written);
    } else {
      LengthIsNoVerdict(r, plan.expectedSize, |v.fed|);
    }
  }

  /** And so at every moment between: once the partial file is opened it is what was hashed, up to a chunk torn by a
      crash, whether the answer goes on after what was there or starts over. */
  lemma HashedIsOnDisk(sha: Bytes -> string, plan: DownloadPlan, f: Files, v: VerifierValue, r: Response, k: nat)
    requires WellFormed(f) && (f.final.None? || f.partial != f.final)
    requires v.fed == [] || v.fed == PartialBytes(f)
    requires |v.fed| <= v.maximumBytes < U64_BOUND && k <= |DownloadScript(sha, plan, v, r).script|
    ensures k > 0 || v.fed == PartialBytes(f) ==>
              PartialBytes(ApplyAll(f, DownloadScript(sha, plan, v, r).script[..k])) <= Receive(v, r.chunks).verifier.fed
    ensures k == 0 ==> ApplyAll(f, DownloadScript(sha, plan, v, r).script[..k]) == f
  {
    hide DownloadScript, Receive, ApplyAll, Appends, SafeScript;
    StreamingEqualsOneShot(v, r.chunks);
    EmptyScript(f);
    var script, written := DownloadScript(sha, plan, v, r).script, Receive(v, r.chunks).written;
    var open := if |v.fed| > 0 then [] else [TruncatePartial];
    OpensThenAppends(sha, plan, v, r);
    if k == 0 {
      assert script[..0] == [];
    } else {
      CutScript(open, written, k);
      WritingIsSafe(f, open, written[..k - |open|]);
    }
  }

  lemma OpensThenAppends(sha: Bytes -> string, plan: DownloadPlan, v: VerifierValue, r: Response)
    ensures var script := DownloadScript(sha, plan, v, r).script;
            script == [] || script == (if |v.fed| > 0 then [] else [TruncatePartial]) + Appends(Receive(v, r.chunks).written)
  {
    hide Receive, FinishStage;
  }

  lemma CutScript(open: seq<Action>, written: Bytes, k: nat)
    requires |open| <= k <= |open| + |written|
    ensures (open + Appends(written))[..k] == open + Appends(written[..k - |open|])
  {}

  lemma {:induction false} RefusalsAreNoVerdict(v: VerifierValue, chunks: seq<Bytes>)
    ensures Receive(v, chunks).error != Some(HashMismatch)
    decreases |chunks|
  {
    if chunks != [] && Feed(v, chunks[0]).Ok? {
      RefusalsAreNoVerdict(Feed(v, chunks[0]).value, chunks[1..]);
    }
  }

  lemma LengthIsNoVerdict(r: Response, expectedSize: Option<nat>, existing: nat)
    ensures ContentLengthProblem(r, expectedSize, existing) != Some(HashMismatch)
  {}

  lemma EmptyScript(f: Files)
    ensures SafeScript(f, []) && ApplyAll(f, []) == f
  {}

  // ----- staging as a whole

  lemma RespondIsSafe(sha: Bytes -> string, plan: DownloadPlan, f: Files, v: VerifierValue, server: Server)
    requires WellFormed(f) && (f.final.None? || f.partial != f.final)
    requires v.fed == PartialBytes(f)
    requires |v.fed| <= v.maximumBytes < U64_BOUND
    ensures var d := RespondScript(sha, plan, v, server);
            && SafeScript(f, d.script)
            && (d.outcome.Ok? || d.outcome == Err(HashMismatch) ==>
                  d.outcome == FinishStage(sha, plan, v.(fed := PartialBytes(ApplyAll(f, d.script)))))
  {
    hide SafeScript, ApplyAll, FinishStage, DownloadScript;
    EmptyScript(f);
    if server.first.Some? {
      DownloadIsSafe(sha, plan, f, v, server.first.value);
    }
    if server.second.Some? {
      DownloadIsSafe(sha, plan, f, v.(fed := []), server.second.value);
    }
  }

  /** A network stage with a known size never writes through the final name. When it succeeds the partial file
      holds exactly the pinned bytes, whatever was there before and however the server answered; when the digest
      is the only thing wrong, it holds as many wrong ones. */
  lemma StageIsSafe(sha: Bytes -> string, plan: DownloadPlan, f: Files, server: Server)
    requires Inv(sha, plan, f) && Pinned(plan)
    ensures var s := StagePlan(sha, plan, f, server);
            && SafeScript(f, s.script)
            && (s.outcome.Ok? ==>
                  var contents := PartialBytes(ApplyAll(f, s.script));
                  && contents != [] && Good(sha, plan, contents)
                  && s.outcome == Ok(Verified(plan.expectedSha256, |contents|)))
            && (s.outcome == Err(HashMismatch) ==>
                  var contents := PartialBytes(ApplyAll(f, s.script));
                  contents != [] && plan.expectedSize == Some(|contents|) && !Good(sha, plan, contents))
  {
    hide SafeScript, ApplyAll, RespondScript;
    var discard := Discards(plan, |PartialBytes(f)|);
    var g := if discard then Apply(f, RemovePartial) else f;
    EmptyScript(f);
    EmptyScript(g);
    RemovalIsSafe(f);
    var v := NewVerifier(plan);
    if v.Ok? && Feed(v.value, PartialBytes(g)).Ok? {
      var fed := Feed(v.value, PartialBytes(g)).value;
      assert fed.fed == PartialBytes(g);
      if !(PartialBytes(g) != [] && plan.expectedSize == Some(|PartialBytes(g)|)) {
        RespondIsSafe(sha, plan, g, fed, server);
        var d := RespondScript(sha, plan, fed, server);
        SafeScriptConcat(f, if discard then [RemovePartial] else [], d.script);
        assert [] + d.script == d.script;
      }
    }
  }

  lemma RemovalIsSafe(f: Files)
    ensures SafeScript(f, [RemovePartial]) && ApplyAll(f, [RemovePartial]) == Apply(f, RemovePartial)
  {
    assert [RemovePartial][..0] == [];
  }

  // ----- runs

  /** A call, stopped after at most `stop` file operations; a promotion is of a stage that this plan accepted. */
  datatype Call = Stage(server: Server, stop: nat) | Promote(stop: nat)

  function CallScript(sha: Bytes -> string, plan: DownloadPlan, f: Files, c: Call): seq<Action>
    requires plan.expectedSize.Some?
  {
    match c
    case Stage(server, _) => StageCachedPlan(sha, plan, f, server).script
    case Promote(_) => PromotePlan(sha, Verified(plan.expectedSha256, plan.expectedSize.value), f).script
  }

  function After(sha: Bytes -> string, plan: DownloadPlan, f: Files, c: Call): Files
    requires plan.expectedSize.Some?
  {
    var script := CallScript(sha, plan, f, c);
    ApplyAll(f, if c.stop < |script| then script[..c.stop] else script)
  }

  function RunTo(sha: Bytes -> string, plan: DownloadPlan, f: Files, calls: seq<Call>): Files
    requires plan.expectedSize.Some?
    decreases |calls|
  {
    if calls == [] then f
    else After(sha, plan, RunTo(sha, plan, f, calls[..|calls| - 1]), calls[|calls| - 1])
  }

  /** What every stopping point of a call keeps. */
  ghost predicate Kept(sha: Bytes -> string, plan: DownloadPlan, f: Files, g: Files) {
    && Inv(sha, plan, g) && FinalKept(f, g)
    && (FinalAbsentOrGood(sha, plan, f) ==> FinalAbsentOrGood(sha, plan, g))
  }

  lemma StageKeeps(sha: Bytes -> string, plan: DownloadPlan, f: Files, server: Server, k: nat)
    requires Inv(sha, plan, f) && Pinned(plan)
    requires k <= |StageCachedPlan(sha, plan, f, server).script|
    ensures Kept(sha, plan, f, ApplyAll(f, StageCachedPlan(sha, plan, f, server).script[..k]))
  {
    hide StagePlan, SafeScript;
    var script := StageCachedPlan(sha, plan, f, server).script;
    if script != [] {
      var linked := Contents(f, f.final).Some? && f.partial.None?;
      if linked {
        var g := Apply(f, LinkFinalAsPartial);
        var rest := StagePlan(sha, plan, g, server).script;
        CachedFinalIsGood(sha, plan, Contents(f, f.final).value);
        StageIsSafe(sha, plan, g, server);
        if k > 0 {
          assert script[..k] == [LinkFinalAsPartial] + rest[..k - 1];
          ApplyAllConcat(f, [LinkFinalAsPartial], rest[..k - 1]);
          assert [LinkFinalAsPartial][..0] == [];
          SafeScriptKeeps(sha, plan, g, rest, k - 1);
        }
      } else {
        StageIsSafe(sha, plan, f, server);
        SafeScriptKeeps(sha, plan, f, script, k);
      }
    }
  }

  lemma CachedFinalIsGood(sha: Bytes -> string, plan: DownloadPlan, contents: Bytes)
    requires CachedFinalOk(sha, plan, contents) && Pinned(plan)
    ensures Good(sha, plan, contents)
  {
    assert [] + contents == contents;
  }

  lemma PromoteKeeps(sha: Bytes -> string, plan: DownloadPlan, f: Files, k: nat)
    requires Inv(sha, plan, f) && plan.expectedSize.Some?
    requires k <= |PromotePlan(sha, Verified(plan.expectedSha256, plan.expectedSize.value), f).script|
    ensures Kept(sha, plan, f,
                 ApplyAll(f, PromotePlan(sha, Verified(plan.expectedSha256, plan.expectedSize.value), f).script[..k]))
  {
    var script := PromotePlan(sha, Verified(plan.expectedSha256, plan.expectedSize.value), f).script;
    assert script[..0] == [];
    if k > 0 {
      ApplyNext(f, script, 0);
      if k > 1 {
        ApplyNext(f, script, 1);
      }
    }
  }

  lemma CallKeeps(sha: Bytes -> string, plan: DownloadPlan, f: Files, c: Call)
    requires Inv(sha, plan, f) && Pinned(plan)
    ensures Kept(sha, plan, f, After(sha, plan, f, c))
  {
    hide StageCachedPlan, PromotePlan, Kept;
    var script := CallScript(sha, plan, f, c);
    assert script[..|script|] == script;
    var k := if c.stop < |script| then c.stop else |script|;
    if c.Stage? {
      StageKeeps(sha, plan, f, c.server, k);
    } else {
      PromoteKeeps(sha, plan, f, k);
    }
  }

  /** Once the final name is there, nothing a later call does, complete or not, changes what it leads to. */
  lemma {:induction false} WriteOnce(sha: Bytes -> string, plan: DownloadPlan, f: Files, calls: seq<Call>)
    requires Inv(sha, plan, f) && Pinned(plan)
    ensures Kept(sha, plan, f, RunTo(sha, plan, f, calls))
    ensures forall n :: 0 <= n <= |calls| ==>
              FinalKept(RunTo(sha, plan, f, calls[..n]), RunTo(sha, plan, f, calls))
    decreases |calls|
  {
    hide Inv;
    if calls == [] {
      assert calls[..0] == calls;
    } else {
      var init, last := calls[..|calls| - 1], calls[|calls| - 1];
      WriteOnce(sha, plan, f, init);
      CallKeeps(sha, plan, RunTo(sha, plan, f, init), last);
      forall n | 0 <= n <= |calls|
        ensures FinalKept(RunTo(sha, plan, f, calls[..n]), RunTo(sha, plan, f, calls))
      {
        if n < |calls| {
          assert calls[..n] == init[..n];
          assert FinalKept(RunTo(sha, plan, f, init[..n]), RunTo(sha, plan, f, init));
        } else {
          assert calls[..n] == calls;
        }
      }
    }
  }

  /** A stage that succeeds and a promotion that completes publish exactly the pinned bytes. */
  lemma StageThenPromote(sha: Bytes -> string, plan: DownloadPlan, f: Files, server: Server)
    requires Inv(sha, plan, f) && FinalAbsentOrGood(sha, plan, f)
    requires Pinned(plan)
    requires StageCachedPlan(sha, plan, f, server).outcome.Ok?
    ensures var g := ApplyAll(f, StageCachedPlan(sha, plan, f, server).script);
            var p := PromotePlan(sha, StageCachedPlan(sha, plan, f, server).outcome.value, g);
            var h := ApplyAll(g, p.script);
            && p.outcome.Ok? && h.partial.None? && h.final.Some? && FinalAbsentOrGood(sha, plan, h)
  {
    hide StagePlan, SafeScript;
    var s := StageCachedPlan(sha, plan, f, server);
    StageKeeps(sha, plan, f, server, |s.script|);
    assert s.script[..|s.script|] == s.script;
    var g := ApplyAll(f, s.script);
    if Contents(f, f.final).Some? && f.partial.None? {
      var linked := Apply(f, LinkFinalAsPartial);
      CachedFinalIsGood(sha, plan, Contents(f, f.final).value);
      StageIsSafe(sha, plan, linked, server);
      ApplyAllConcat(f, [LinkFinalAsPartial], StagePlan(sha, plan, linked, server).script);
      assert [LinkFinalAsPartial][..0] == [];
    } else {
      StageIsSafe(sha, plan, f, server);
    }
    assert PartialBytes(g) == [] || Contents(g, g.partial) == Some(PartialBytes(g));
    var p := PromotePlan(sha, s.outcome.value, g);
    ApplyNext(g, p.script, 0);
    assert p.script[..|p.script|] == p.script && p.script[..0] == [];
    if |p.script| > 1 {
      ApplyNext(g, p.script, 1);
    }
  }
}
