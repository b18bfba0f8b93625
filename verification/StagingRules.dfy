/** What staging and promotion refuse, as what, and what their answers mean. */
module StagingRules {
  import opened Text
  import opened Numerals
  import opened ArtifactCache

  predicate IsHash(s: string) {
    |s| == 64 && forall i :: 0 <= i < 64 ==> '0' <= s[i] <= '9' || 'a' <= s[i] <= 'f' || 'A' <= s[i] <= 'F'
  }

  predicate HasCapital(s: string) { exists i :: 0 <= i < |s| && 'A' <= s[i] <= 'F' }

  // ----- verifying

  /** Which plans can be verified at all. */
  lemma VerifierIff(plan: DownloadPlan)
    ensures var r := NewVerifier(plan);
            if !IsHash(plan.expectedSha256) then r == Err(InvalidSha256)
            else if plan.maximumBytes == 0 || plan.expectedSize == Some(0) then r == Err(InvalidMaximumBytes)
            else if plan.expectedSize.Some? && plan.expectedSize.value > plan.maximumBytes then r == Err(ExceedsLimit)
            else r.Ok? && r.value.fed == [] && Verifies(plan, r.value)
  {}

  predicate Verifies(plan: DownloadPlan, v: VerifierValue) {
    && v.expectedSize == plan.expectedSize && v.expectedSha256 == Lower(plan.expectedSha256)
    && v.maximumBytes == if plan.expectedSize.Some? then plan.expectedSize.value else plan.maximumBytes
  }

  /** A chunk is taken while the whole stays within the pinned size, or the limit when no size is pinned. */
  lemma ChunkIff(plan: DownloadPlan, v: VerifierValue, chunk: Bytes)
    requires Verifies(plan, v)
    ensures var total, most := |v.fed| + |chunk|, if plan.expectedSize.Some? then plan.expectedSize.value else plan.maximumBytes;
            Feed(v, chunk) == if total >= 0x1_0000_0000_0000_0000 then Err(SizeOverflow)
                              else if total > most then Err(ExceedsLimit)
                              else Ok(v.(fed := v.fed + chunk))
  {}

  /** The verdict on what was received: size first, then digest, which a plan must give in lower case. */
  lemma VerdictIff(sha: Bytes -> string, plan: DownloadPlan, v: VerifierValue)
    requires Verifies(plan, v) && IsHash(plan.expectedSha256)
    ensures FinishStage(sha, plan, v) ==
            if plan.expectedSize.Some? && plan.expectedSize.value != |v.fed| then Err(SizeMismatch)
            else if HasCapital(plan.expectedSha256) || sha(v.fed) != plan.expectedSha256 then Err(HashMismatch)
            else Ok(Verified(plan.expectedSha256, |v.fed|))
  {
    CapitalIff(plan.expectedSha256);
  }

  lemma CapitalIff(s: string)
    requires IsHash(s)
    ensures HasCapital(s) <==> Lower(s) != s
  {
    if HasCapital(s) {
      var i :| 0 <= i < |s| && 'A' <= s[i] <= 'F';
      assert Lower(s)[i] != s[i];
    } else {
      assert forall i :: 0 <= i < |s| ==> Lower(s)[i] == s[i];
    }
  }

  // ----- room and answers

  /** There must be room for what is missing and 256 MiB beyond. */
  lemma RoomIff(plan: DownloadPlan, existing: nat, available: nat)
    ensures var whole := if plan.expectedSize.Some? then plan.expectedSize.value else plan.maximumBytes;
            DiskProblem(plan, existing, available) ==
            if existing > whole then Some(PartialLargerThanArtifact)
            else if whole - existing + 268435456 >= 0x1_0000_0000_0000_0000 then Some(DiskBudgetOverflow)
            else if available < whole - existing + 268435456 then Some(InsufficientDiskSpace)
            else None
  {}

  /** The first answer continues what is kept only with 206 and the right range. */
  predicate Continues(plan: DownloadPlan, v: VerifierValue, r: Response) {
    r.status == 206 && ContentRangeAccepted(r.contentRange, |v.fed|, plan.expectedSize)
  }

  /** Which answer's body is used, and after what; or why none is. */
  lemma AnswerUsedIff(sha: Bytes -> string, plan: DownloadPlan, v: VerifierValue, server: Server)
    ensures var asked := plan.resumeEnabled && v.fed != [];
            RespondScript(sha, plan, v, server) ==
            match server.first
            case None => Plan([], Err(RequestFailed))
            case Some(r) =>
              if !asked || Continues(plan, v, r) then DownloadScript(sha, plan, v, r)
              else if r.status == 206 then Plan([], Err(InvalidContentRange))
              else if r.status != 200 || !plan.restartOnRangeRejection then Plan([], Err(ResumeRejected))
              else if server.second.None? then Plan([], Err(RequestFailed))
              else DownloadScript(sha, plan, v.(fed := []), server.second.value)
  {}

  // ----- what is there before anything is asked

  /** Longer than anything that could be wanted. */
  predicate TooLong(plan: DownloadPlan, partial: Bytes) {
    |partial| > plan.maximumBytes || (plan.expectedSize.Some? && |partial| > plan.expectedSize.value)
  }

  /** A partial download that is too long is removed and forgotten. Then there must be room, the plan must be verifiable,
      and a complete partial download is judged as it is; only otherwise a server is asked. */
  lemma StageBegins(sha: Bytes -> string, plan: DownloadPlan, f: Files, server: Server)
    requires plan.maximumBytes < 0x1_0000_0000_0000_0000
    ensures var partial := PartialBytes(f);
            var removed, kept := if TooLong(plan, partial) then [RemovePartial] else [], if TooLong(plan, partial) then [] else partial;
            var stage, room, verifier := StagePlan(sha, plan, f, server), DiskProblem(plan, |kept|, server.availableBytes), NewVerifier(plan);
            if room.Some? then stage == Plan(removed, Err(room.value))
            else if verifier.Err? then stage == Plan(removed, Err(verifier.error))
            else if plan.expectedSize == Some(|kept|)
            then stage == Plan(removed, FinishStage(sha, plan, verifier.value.(fed := kept)))
            else
              var answer := RespondScript(sha, plan, verifier.value.(fed := kept), server);
              stage == Plan(removed + answer.script, answer.outcome)
  {
    hide DiskProblem, RespondScript, FinishStage;
    var partial := PartialBytes(f);
    var kept := if TooLong(plan, partial) then [] else partial;
    assert [] + kept == kept;
  }

  /** The bytes verify against the plan. */
  predicate Passes(sha: Bytes -> string, plan: DownloadPlan, contents: Bytes) {
    && IsHash(plan.expectedSha256) && sha(contents) == Lower(plan.expectedSha256) && plan.maximumBytes > 0
    && if plan.expectedSize.Some? then |contents| == plan.expectedSize.value && 0 < |contents| <= plan.maximumBytes
       else |contents| <= plan.maximumBytes
  }

  /** A published artifact that does not pass stops staging; one that does stands in for a missing partial download. */
  lemma CachedStageBegins(sha: Bytes -> string, plan: DownloadPlan, f: Files, server: Server)
    requires plan.maximumBytes < 0x1_0000_0000_0000_0000
    ensures var cached, stage := Contents(f, f.final), StageCachedPlan(sha, plan, f, server);
            if cached.None? then stage == StagePlan(sha, plan, f, server)
            else if !Passes(sha, plan, cached.value) then stage == Plan([], Err(ExistingArtifactMismatch))
            else if f.partial.Some? then stage == StagePlan(sha, plan, f, server)
            else
              var linked := StagePlan(sha, plan, f.(partial := f.final), server);
              stage == Plan([LinkFinalAsPartial] + linked.script, linked.outcome)
  {
    hide StagePlan;
    if Contents(f, f.final).Some? {
      PassesIff(sha, plan, Contents(f, f.final).value);
    }
  }

  lemma PassesIff(sha: Bytes -> string, plan: DownloadPlan, contents: Bytes)
    requires plan.maximumBytes < 0x1_0000_0000_0000_0000
    ensures CachedFinalOk(sha, plan, contents) <==> Passes(sha, plan, contents)
  {
    assert [] + contents == contents;
  }

  // ----- promotion

  predicate IsArtifact(sha: Bytes -> string, contents: Option<Bytes>, expected: Verified) {
    contents.Some? && |contents.value| == expected.size && sha(contents.value) == expected.sha256
  }

  /** What the answer of a promotion says of the files before it and after. */
  ghost predicate PromotionMeans(sha: Bytes -> string, expected: Verified, f: Files, after: Files,
                                 outcome: Result<PromotionState, StageError>) {
    var staged, cached := Contents(f, f.partial), Contents(f, f.final);
    match outcome
    case Ok(Published) =>
      && IsArtifact(sha, staged, expected) && cached.None?
      && after == f.(final := f.partial, partial := None) && IsArtifact(sha, Contents(after, after.final), expected)
    case Ok(ReusedExisting) =>
      IsArtifact(sha, staged, expected) && IsArtifact(sha, cached, expected) && after == f.(partial := None)
    case Err(MissingFile) => staged.None? && after == f
    case Err(PromotedArtifactVerification) => staged.Some? && !IsArtifact(sha, staged, expected) && after == f
    case Err(ExistingArtifactMismatch) =>
      IsArtifact(sha, staged, expected) && cached.Some? && !IsArtifact(sha, cached, expected) && after == f
    case Err(_) => false
  }

  /** Every answer of a promotion means what it says, and any other state of the files would have another answer. */
  lemma PromotionAnswers(sha: Bytes -> string, expected: Verified, f: Files)
    ensures var plan := PromotePlan(sha, expected, f);
            PromotionMeans(sha, expected, f, ApplyAll(f, plan.script), plan.outcome)
  {
    var script := PromotePlan(sha, expected, f).script;
    assert script[..|script|] == script && script[..0] == [];
    if |script| >= 1 {
      ApplyNext(f, script, 0);
    }
    if |script| == 2 {
      ApplyNext(f, script, 1);
    }
  }
}
