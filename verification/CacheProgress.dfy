/** Which plans keep a published artifact, and which files staging can still complete. */
module CacheProgress {
  import opened Text
  import opened Numerals
  import opened ArtifactCache
  import opened CacheSafety

  // ----- exactly when staging again keeps what is published

  /** A project that has published `contents` and cleaned up its staging. */
  function PublishedFiles(contents: Bytes): Files {
    Files(map[0 := contents], 1, None, Some(0))
  }

  ghost predicate NeverChanges(sha: Bytes -> string, plan: DownloadPlan, contents: Bytes) {
    forall server, k | 0 <= k <= |StageCachedPlan(sha, plan, PublishedFiles(contents), server).script| ::
      Contents(ApplyAll(PublishedFiles(contents), StageCachedPlan(sha, plan, PublishedFiles(contents), server).script[..k]),
               Some(0)) == Some(contents)
  }

  /** The linked artifact gets as far as a request without a size, and there is room to write or leave to restart. */
  predicate Overwritable(sha: Bytes -> string, plan: DownloadPlan, contents: Bytes) {
    && plan.expectedSize.None? && CachedFinalOk(sha, plan, contents)
    && plan.maximumBytes - |contents| + DEFAULT_DISK_RESERVE_BYTES < U64_BOUND
    && (|contents| < plan.maximumBytes || (plan.resumeEnabled && plan.restartOnRangeRejection))
  }

  /** Staging again over a published artifact can change it if and only if the plan does not know the size, the
      artifact verifies, and the plan either leaves room for another byte or may restart. */
  lemma PublishedIsKeptIff(sha: Bytes -> string, plan: DownloadPlan, contents: Bytes)
    requires plan.maximumBytes < U64_BOUND
    ensures NeverChanges(sha, plan, contents) <==> !Overwritable(sha, plan, contents)
  {
    hide StageCachedPlan, CachedFinalOk, ApplyAll;
    if Overwritable(sha, plan, contents) {
      VerifiedFits(sha, plan, contents);
      if plan.resumeEnabled && plan.restartOnRangeRejection && contents != [] {
        RestartTruncatesFinal(sha, plan, contents);
      } else {
        AnswerIsAppended(sha, plan, contents);
      }
    } else {
      forall server, k | 0 <= k <= |StageCachedPlan(sha, plan, PublishedFiles(contents), server).script|
        ensures Contents(ApplyAll(PublishedFiles(contents), StageCachedPlan(sha, plan, PublishedFiles(contents), server).script[..k]),
                         Some(0)) == Some(contents)
      {
        NothingWritten(sha, plan, contents, server);
        LinkOnly(contents, StageCachedPlan(sha, plan, PublishedFiles(contents), server).script[..k]);
      }
    }
  }

  lemma VerifiedFits(sha: Bytes -> string, plan: DownloadPlan, contents: Bytes)
    requires CachedFinalOk(sha, plan, contents)
    ensures NewVerifier(plan).Ok? && Feed(NewVerifier(plan).value, contents).Ok?
    ensures Feed(NewVerifier(plan).value, contents).value.fed == contents
    ensures |contents| <= plan.maximumBytes && |contents| < U64_BOUND && plan.maximumBytes > 0
    ensures plan.expectedSize.Some? ==> plan.expectedSize.value == |contents| > 0
  {
    assert [] + contents == contents;
  }

  /** What staging does once it has linked the published artifact. */
  lemma LinkedStage(sha: Bytes -> string, plan: DownloadPlan, contents: Bytes, server: Server)
    requires CachedFinalOk(sha, plan, contents) && plan.expectedSize.None?
    requires DiskProblem(plan, |contents|, server.availableBytes).None?
    ensures StageCachedPlan(sha, plan, PublishedFiles(contents), server).script
         == [LinkFinalAsPartial] + RespondScript(sha, plan, Feed(NewVerifier(plan).value, contents).value, server).script
  {
    hide CachedFinalOk, RespondScript;
    VerifiedFits(sha, plan, contents);
  }

  predicate OnlyLinks(script: seq<Action>) { forall i :: 0 <= i < |script| ==> script[i] == LinkFinalAsPartial }

  /** Otherwise no operation but the link is planned. */
  lemma NothingWritten(sha: Bytes -> string, plan: DownloadPlan, contents: Bytes, server: Server)
    requires plan.maximumBytes < U64_BOUND && !Overwritable(sha, plan, contents)
    ensures OnlyLinks(StageCachedPlan(sha, plan, PublishedFiles(contents), server).script)
  {
    hide RespondScript, CachedFinalOk, FinishStage;
    if CachedFinalOk(sha, plan, contents) {
      VerifiedFits(sha, plan, contents);
      if plan.expectedSize.None? && DiskProblem(plan, |contents|, server.availableBytes).None? {
        LinkedStage(sha, plan, contents, server);
        FullIsRefused(sha, plan, Feed(NewVerifier(plan).value, contents).value, server);
      }
    }
  }

  /** At the limit every byte is refused before it is written. */
  lemma FullIsRefused(sha: Bytes -> string, plan: DownloadPlan, v: VerifierValue, server: Server)
    requires |v.fed| == v.maximumBytes > 0 && plan.expectedSize.None?
    requires !(plan.resumeEnabled && plan.restartOnRangeRejection)
    ensures RespondScript(sha, plan, v, server).script == []
  {
    hide FinishStage, ContentRangeAccepted;
    if server.first.Some? {
      NothingReceived(v, server.first.value.chunks);
    }
  }

  lemma {:induction false} NothingReceived(v: VerifierValue, chunks: seq<Bytes>)
    requires |v.fed| == v.maximumBytes
    ensures Receive(v, chunks).written == []
    decreases |chunks|
  {
    if chunks != [] && Feed(v, chunks[0]).Ok? {
      assert chunks[0] == [] && v.fed + [] == v.fed;
      NothingReceived(v, chunks[1..]);
    }
  }

  lemma {:induction false} LinkOnly(contents: Bytes, script: seq<Action>)
    requires OnlyLinks(script)
    ensures ApplyAll(PublishedFiles(contents), script).inodes == map[0 := contents]
    ensures ApplyAll(PublishedFiles(contents), script).final == Some(0)
    decreases |script|
  {
    if script != [] {
      LinkOnly(contents, script[..|script| - 1]);
    }
  }

  /** An ignored range request and a restart truncate what both names lead to. */
  lemma RestartTruncatesFinal(sha: Bytes -> string, plan: DownloadPlan, contents: Bytes)
    requires Overwritable(sha, plan, contents) && contents != []
    requires plan.resumeEnabled && plan.restartOnRangeRejection
    ensures !NeverChanges(sha, plan, contents)
  {
    hide CachedFinalOk;
    var f := PublishedFiles(contents);
    VerifiedFits(sha, plan, contents);
    var silent := Response(200, None, None, [], true);
    var server := Server(U64_BOUND, Some(silent), Some(silent));
    LinkedStage(sha, plan, contents, server);
    var script := StageCachedPlan(sha, plan, f, server).script;
    assert Appends([]) == [] && script == [LinkFinalAsPartial, TruncatePartial];
    ApplyNext(f, script, 0);
    ApplyNext(f, script, 1);
    assert Contents(ApplyAll(f, script[..2]), Some(0)) == Some([]);
  }

  /** Without a size, a server may go on after what is complete, and one more byte goes into the shared inode. */
  lemma AnswerIsAppended(sha: Bytes -> string, plan: DownloadPlan, contents: Bytes)
    requires Overwritable(sha, plan, contents) && |contents| < plan.maximumBytes < U64_BOUND
    requires contents == [] || !plan.resumeEnabled || !plan.restartOnRangeRejection
    ensures !NeverChanges(sha, plan, contents)
  {
    hide CachedFinalOk, RespondScript, StageCachedPlan, ApplyAll;
    VerifiedFits(sha, plan, contents);
    var v := Feed(NewVerifier(plan).value, contents).value;
    var server := OneByteMore(plan, contents);
    LinkedStage(sha, plan, contents, server);
    OneByteAnswered(sha, plan, contents, v);
    var open := if contents == [] then [TruncatePartial] else [];
    var script := StageCachedPlan(sha, plan, PublishedFiles(contents), server).script;
    assert script == [LinkFinalAsPartial] + open + [Append(0)];
    AppendsToShared(contents, open, script);
  }

  /** A server that continues with one byte. */
  function OneByteMore(plan: DownloadPlan, contents: Bytes): Server {
    var at := Decimal(|contents|);
    var status := if plan.resumeEnabled && contents != [] then 206 else 200;
    Server(U64_BOUND, Some(Response(status, Some("bytes " + at + "-" + at + "/" + "*"), None, [[0]], true)), None)
  }

  lemma OneByteAnswered(sha: Bytes -> string, plan: DownloadPlan, contents: Bytes, v: VerifierValue)
    requires plan.expectedSize.None? && |contents| < U64_BOUND && v.fed == contents
    requires |v.fed| < v.maximumBytes < U64_BOUND
    ensures RespondScript(sha, plan, v, OneByteMore(plan, contents)).script
         == (if contents == [] then [TruncatePartial] else []) + [Append(0)]
  {
    hide ContentRangeAccepted, FinishStage, Decimal;
    RangeAccepted(|contents|);
    OneByte(v, 0);
    assert Appends([0]) == [Append(0)];
  }

  lemma RangeAccepted(existing: nat)
    requires existing < U64_BOUND
    ensures var at := Decimal(existing); ContentRangeAccepted(Some("bytes " + at + "-" + at + "/" + "*"), existing, None)
  {
    hide ParseU64, Decimal;
    DecimalRoundTrip(existing);
    var at := Decimal(existing);
    ContentRangeParts(at, at, "*");
  }

  lemma OneByte(v: VerifierValue, b: Byte)
    requires |v.fed| < v.maximumBytes < U64_BOUND
    ensures Receive(v, [[b]]).written == [b]
  {
    var next := v.(fed := v.fed + [b]);
    assert Receive(next, []) == Received([], next, None);
    assert [[b]][1..] == [] && [b] + [] == [b];
  }

  lemma AppendsToShared(contents: Bytes, open: seq<Action>, script: seq<Action>)
    requires open == (if contents == [] then [TruncatePartial] else []) && script == [LinkFinalAsPartial] + open + [Append(0)]
    ensures Contents(ApplyAll(PublishedFiles(contents), script[..|script|]), Some(0)) == Some(contents + [0])
  {
    var f := PublishedFiles(contents);
    assert script[..|script|] == script && script[..0] == [];
    ApplyNext(f, script, 0);
    ApplyNext(f, script, 1);
    if contents == [] {
      ApplyNext(f, script, 2);
    }
  }

  // ----- exactly when staging can still complete

  /** A plan that can be staged: valid digest and a size within the limits, under any resume policy. */
  predicate Stageable(plan: DownloadPlan) {
    && Pinned(plan) && IsSha256(plan.expectedSha256)
    && 0 < plan.expectedSize.value <= plan.maximumBytes
    && plan.expectedSize.value + DEFAULT_DISK_RESERVE_BYTES < U64_BOUND
  }

  /** The resume policy under which a server can make staging start over. */
  predicate Restarts(plan: DownloadPlan) { plan.resumeEnabled && plan.restartOnRangeRejection }

  /** What staging goes on from: the partial download, else the published artifact, unless it is too long. */
  function Kept(plan: DownloadPlan, f: Files): Bytes {
    var cached := Contents(f, f.final);
    var partial := if f.partial.None? && cached.Some? then cached.value else PartialBytes(f);
    if Discards(plan, |partial|) then [] else partial
  }

  /** There is an artifact that satisfies the pin, and it begins with what is kept unless staging can start over. */
  ghost predicate Completable(sha: Bytes -> string, plan: DownloadPlan, f: Files) {
    exists good :: Good(sha, plan, good) && (Restarts(plan) || Kept(plan, f) <= good)
  }

  /** A published artifact that is wrong, or a partial one of the full size with a wrong digest. */
  predicate Stranded(sha: Bytes -> string, plan: DownloadPlan, f: Files) {
    var partial, cached := PartialBytes(f), Contents(f, f.final);
    || (cached.Some? && !Good(sha, plan, cached.value))
    || (partial != [] && plan.expectedSize == Some(|partial|) && !Good(sha, plan, partial))
  }

  lemma VerifiedIsGood(sha: Bytes -> string, plan: DownloadPlan, contents: Bytes)
    requires Stageable(plan)
    ensures CachedFinalOk(sha, plan, contents) <==> Good(sha, plan, contents)
  {
    assert [] + contents == contents;
  }

  /** Some server completes staging if and only if the files are not stranded and an artifact can still be completed. */
  lemma StagingCompletesIff(sha: Bytes -> string, plan: DownloadPlan, f: Files)
    requires Stageable(plan)
    ensures (exists server :: StageCachedPlan(sha, plan, f, server).outcome.Ok?)
       <==> !Stranded(sha, plan, f) && Completable(sha, plan, f)
  {
    hide StageCachedPlan, Stranded, Completable;
    if server :| StageCachedPlan(sha, plan, f, server).outcome.Ok? {
      if Stranded(sha, plan, f) {
        StrandedFails(sha, plan, f, server);
      }
      CompletedIsCompletable(sha, plan, f, server);
    }
    if !Stranded(sha, plan, f) && Completable(sha, plan, f) {
      var server := SomeServerCompletes(sha, plan, f);
    }
  }

  /** The files from which the network stage starts. */
  function Seeded(f: Files): Files {
    if f.partial.None? && Contents(f, f.final).Some? then Apply(f, LinkFinalAsPartial) else f
  }

  lemma SeededStage(sha: Bytes -> string, plan: DownloadPlan, f: Files, server: Server)
    requires Stageable(plan)
    ensures Kept(plan, f) == Kept(plan, Seeded(f))
    ensures Kept(plan, Seeded(f)) == (if Discards(plan, |PartialBytes(Seeded(f))|) then [] else PartialBytes(Seeded(f)))
    ensures StageCachedPlan(sha, plan, f, server).outcome.Ok? ==> StagePlan(sha, plan, Seeded(f), server).outcome.Ok?
    ensures !Stranded(sha, plan, f) && StagePlan(sha, plan, Seeded(f), server).outcome.Ok? ==>
              StageCachedPlan(sha, plan, f, server).outcome.Ok?
  {
    hide StagePlan, CachedFinalOk;
    if Contents(f, f.final).Some? {
      VerifiedIsGood(sha, plan, Contents(f, f.final).value);
    }
  }

  /** Staging in its two parts, what is kept and the answer. */
  lemma StageFromKept(sha: Bytes -> string, plan: DownloadPlan, f: Files, server: Server)
    requires Stageable(plan) && NewVerifier(plan).Ok?
    requires Kept(plan, f) == if Discards(plan, |PartialBytes(f)|) then [] else PartialBytes(f)
    ensures var kept := Kept(plan, f);
            var v := NewVerifier(plan).value.(fed := kept);
            var done := kept != [] && plan.expectedSize == Some(|kept|);
            var d := if done then FinishStage(sha, plan, v) else RespondScript(sha, plan, v, server).outcome;
            && |kept| <= v.maximumBytes < U64_BOUND && v.expectedSize == plan.expectedSize
            && v.expectedSha256 == plan.expectedSha256
            && (StagePlan(sha, plan, f, server).outcome.Ok? ==> d.Ok?)
            && (server.availableBytes >= U64_BOUND && d.Ok? ==> StagePlan(sha, plan, f, server).outcome.Ok?)
  {
    hide RespondScript, FinishStage;
    var kept := Kept(plan, f);
    assert [] + kept == kept;
  }

  lemma VerifierIsMade(plan: DownloadPlan)
    requires Stageable(plan)
    ensures NewVerifier(plan).Ok?
  {}

  lemma CompletedIsCompletable(sha: Bytes -> string, plan: DownloadPlan, f: Files, server: Server)
    requires Stageable(plan) && StageCachedPlan(sha, plan, f, server).outcome.Ok?
    ensures Completable(sha, plan, f)
  {
    hide StagePlan, StageCachedPlan, RespondScript, Kept, FinishStage;
    VerifierIsMade(plan);
    SeededStage(sha, plan, f, server);
    StageFromKept(sha, plan, Seeded(f), server);
    var kept := Kept(plan, f);
    var v := NewVerifier(plan).value.(fed := kept);
    if kept != [] && plan.expectedSize == Some(|kept|) {
      FinishedIsGood(sha, plan, v);
    } else {
      AnswerIsGood(sha, plan, v, server);
    }
  }

  lemma FinishedIsGood(sha: Bytes -> string, plan: DownloadPlan, v: VerifierValue)
    requires Stageable(plan) && v.expectedSize == plan.expectedSize
    ensures FinishStage(sha, plan, v).Ok? ==> Good(sha, plan, v.fed)
  {}

  lemma AnswerIsGood(sha: Bytes -> string, plan: DownloadPlan, v: VerifierValue, server: Server)
    requires Stageable(plan) && RespondScript(sha, plan, v, server).outcome.Ok?
    requires |v.fed| <= v.maximumBytes < U64_BOUND && v.expectedSize == plan.expectedSize
    ensures exists good :: Good(sha, plan, good) && (Restarts(plan) || v.fed <= good)
  {
    hide DownloadScript, ContentRangeAccepted;
    if DownloadScript(sha, plan, v, server.first.value).outcome.Ok? {
      DownloadedIsGood(sha, plan, v, server.first.value);
    } else {
      DownloadedIsGood(sha, plan, v.(fed := []), server.second.value);
    }
  }

  lemma DownloadedIsGood(sha: Bytes -> string, plan: DownloadPlan, v: VerifierValue, r: Response)
    requires Stageable(plan) && DownloadScript(sha, plan, v, r).outcome.Ok?
    requires |v.fed| <= v.maximumBytes < U64_BOUND && v.expectedSize == plan.expectedSize
    ensures Good(sha, plan, Receive(v, r.chunks).verifier.fed) && v.fed <= Receive(v, r.chunks).verifier.fed
  {
    hide Receive, FinishStage;
    StreamingEqualsOneShot(v, r.chunks);
    FinishedIsGood(sha, plan, Receive(v, r.chunks).verifier);
  }

  /** A server that answers with the whole artifact, its length given, and again if asked to start over. */
  function Honest(good: Bytes): Server {
    var whole := Response(200, None, Some(Some(|good|)), [good], true);
    Server(U64_BOUND, Some(whole), Some(whole))
  }

  /** A server that goes on where the request says, and gives the range and the length of what it sends. */
  function Continuing(plan: DownloadPlan, kept: Bytes, good: Bytes): Server
    requires kept <= good && good != []
  {
    var status := if plan.resumeEnabled && kept != [] then 206 else 200;
    var range := "bytes " + Decimal(|kept|) + "-" + Decimal(|good| - 1) + "/" + Decimal(|good|);
    Server(U64_BOUND, Some(Response(status, Some(range), Some(Some(|good| - |kept|)), [good[|kept|..]], true)), None)
  }

  lemma SomeServerCompletes(sha: Bytes -> string, plan: DownloadPlan, f: Files) returns (server: Server)
    requires Stageable(plan) && !Stranded(sha, plan, f) && Completable(sha, plan, f)
    ensures StageCachedPlan(sha, plan, f, server).outcome.Ok?
  {
    hide StagePlan, StageCachedPlan, RespondScript, Stranded, FinishStage;
    VerifierIsMade(plan);
    var good :| Good(sha, plan, good) && (Restarts(plan) || Kept(plan, f) <= good);
    var kept := Kept(plan, f);
    server := if kept <= good then Continuing(plan, kept, good) else Honest(good);
    SeededStage(sha, plan, f, server);
    StageFromKept(sha, plan, Seeded(f), server);
    if kept != [] && plan.expectedSize == Some(|kept|) {
      FullIsGood(sha, plan, f);
      GoodIsFinished(sha, plan, NewVerifier(plan).value.(fed := kept));
    } else if kept <= good {
      ContinuedIsGood(sha, plan, NewVerifier(plan).value.(fed := kept), good);
    } else {
      HonestAnswer(sha, plan, NewVerifier(plan).value.(fed := kept), good);
    }
  }

  /** What is kept whole is the published artifact or a partial download that is not stranded. */
  lemma FullIsGood(sha: Bytes -> string, plan: DownloadPlan, f: Files)
    requires Stageable(plan) && !Stranded(sha, plan, f)
    requires Kept(plan, f) != [] && plan.expectedSize == Some(|Kept(plan, f)|)
    ensures Good(sha, plan, Kept(plan, f))
  {}

  lemma GoodIsFinished(sha: Bytes -> string, plan: DownloadPlan, v: VerifierValue)
    requires Stageable(plan) && Good(sha, plan, v.fed)
    requires v.expectedSize == plan.expectedSize && v.expectedSha256 == plan.expectedSha256
    ensures FinishStage(sha, plan, v).Ok?
  {}

  lemma ContinuedIsGood(sha: Bytes -> string, plan: DownloadPlan, v: VerifierValue, good: Bytes)
    requires Stageable(plan) && Good(sha, plan, good) && v.fed < good
    requires v == NewVerifier(plan).value.(fed := v.fed)
    ensures RespondScript(sha, plan, v, Continuing(plan, v.fed, good)).outcome.Ok?
  {
    hide ContentRangeAccepted, Decimal, FinishStage;
    ContentRangeExact(|v.fed|, |good| - 1, |good|, |v.fed|, |good|);
    var rest := good[|v.fed|..];
    var whole := v.(fed := good);
    assert v.fed + rest == good;
    assert Receive(whole, []) == Received([], whole, None);
    var chunks: seq<Bytes> := [rest];
    assert chunks[1..] == [] && rest + [] == rest;
    assert Receive(v, chunks) == Received(rest, whole, None);
    GoodIsFinished(sha, plan, whole);
  }

  lemma HonestAnswer(sha: Bytes -> string, plan: DownloadPlan, v: VerifierValue, good: Bytes)
    requires Stageable(plan) && Restarts(plan) && Good(sha, plan, good)
    requires v == NewVerifier(plan).value.(fed := v.fed)
    ensures RespondScript(sha, plan, v, Honest(good)).outcome.Ok?
  {
    hide FinishStage;
    var empty := v.(fed := []);
    var whole := v.(fed := good);
    assert [] + good == good;
    assert Receive(whole, []) == Received([], whole, None);
    assert [good][1..] == [] && good + [] == good;
    assert Receive(empty, [good]) == Received(good, whole, None);
    GoodIsFinished(sha, plan, whole);
  }

  /** No stage completes on stranded files, and none does anything to them. */
  lemma StrandedFails(sha: Bytes -> string, plan: DownloadPlan, f: Files, server: Server)
    requires Stageable(plan) && Stranded(sha, plan, f)
    ensures StageCachedPlan(sha, plan, f, server).script == [] && StageCachedPlan(sha, plan, f, server).outcome.Err?
  {
    hide CachedFinalOk, RespondScript;
    if Contents(f, f.final).Some? {
      VerifiedIsGood(sha, plan, Contents(f, f.final).value);
    }
    assert [] + PartialBytes(f) == PartialBytes(f);
  }

  lemma StrandedPromotesNothing(sha: Bytes -> string, plan: DownloadPlan, f: Files)
    requires Stageable(plan) && Stranded(sha, plan, f)
    ensures var p := PromotePlan(sha, Verified(plan.expectedSha256, plan.expectedSize.value), f);
            p.script == [] && p.outcome.Err?
  {}

  /** Stranded files stay as they are for ever, whatever is called and however the servers answer. */
  lemma {:induction false} StrandedForever(sha: Bytes -> string, plan: DownloadPlan, f: Files, calls: seq<Call>)
    requires Stageable(plan) && Stranded(sha, plan, f)
    ensures RunTo(sha, plan, f, calls) == f
    decreases |calls|
  {
    hide Stranded, StageCachedPlan, PromotePlan;
    if calls != [] {
      var last := calls[|calls| - 1];
      StrandedForever(sha, plan, f, calls[..|calls| - 1]);
      StrandedPromotesNothing(sha, plan, f);
      if last.Stage? {
        StrandedFails(sha, plan, f, last.server);
      }
    }
  }

  /** A stage that ends with a wrong digest alone leaves the files stranded. */
  lemma WrongDigestStrands(sha: Bytes -> string, plan: DownloadPlan, f: Files, server: Server)
    requires Inv(sha, plan, f) && Pinned(plan)
    requires StageCachedPlan(sha, plan, f, server).outcome == Err(HashMismatch)
    ensures Stranded(sha, plan, ApplyAll(f, StageCachedPlan(sha, plan, f, server).script))
  {
    hide StagePlan, CachedFinalOk, SafeScript, ApplyAll;
    StageIsSafe(sha, plan, f, server);
    var g := Apply(f, LinkFinalAsPartial);
    if Contents(f, f.final).Some? && f.partial.None? {
      CachedFinalIsGood(sha, plan, Contents(f, f.final).value);
      StageIsSafe(sha, plan, g, server);
      LinkThenApply(f, StagePlan(sha, plan, g, server).script);
    }
  }

  lemma LinkThenApply(f: Files, rest: seq<Action>)
    ensures ApplyAll(f, [LinkFinalAsPartial] + rest) == ApplyAll(Apply(f, LinkFinalAsPartial), rest)
  {
    ApplyAllConcat(f, [LinkFinalAsPartial], rest);
    assert [LinkFinalAsPartial][..0] == [];
  }

  /** And one answer with a wrong body of the right size does: a fresh cache is stranded by it. */
  lemma WrongBodyStrands(sha: Bytes -> string, plan: DownloadPlan, f: Files, bad: Bytes)
    requires Inv(sha, plan, f) && Stageable(plan)
    requires Contents(f, f.final).None? && PartialBytes(f) == []
    requires plan.expectedSize == Some(|bad|) && !Good(sha, plan, bad)
    ensures StageCachedPlan(sha, plan, f, Honest(bad)).outcome == Err(HashMismatch)
    ensures Stranded(sha, plan, ApplyAll(f, StageCachedPlan(sha, plan, f, Honest(bad)).script))
  {
    hide Stranded, ApplyAll;
    WrongAnswer(sha, plan, NewVerifier(plan).value, bad);
    var nothing: Bytes := [];
    assert nothing + nothing == nothing;
    WrongDigestStrands(sha, plan, f, Honest(bad));
  }

  lemma WrongAnswer(sha: Bytes -> string, plan: DownloadPlan, v: VerifierValue, bad: Bytes)
    requires Stageable(plan) && v == NewVerifier(plan).value
    requires plan.expectedSize == Some(|bad|) && !Good(sha, plan, bad)
    ensures RespondScript(sha, plan, v, Honest(bad)).outcome == Err(HashMismatch)
  {
    var whole := v.(fed := bad);
    assert [] + bad == bad;
    assert Receive(whole, []) == Received([], whole, None);
    assert [bad][1..] == [] && bad + [] == bad;
    assert Receive(v, [bad]) == Received(bad, whole, None);
  }
}
