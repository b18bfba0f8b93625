/** Staging and promotion as they run: loops over chunks, a verifier that hashes as it goes, links and removals,
    any of which may be the last before the process stops. */
module ArtifactStore {
  import opened Text
  import opened Numerals
  import opened ArtifactCache

  class StreamingVerifier {
    const expectedSha256: string
    const expectedSize: Option<nat>
    const maximumBytes: nat
    /** Everything hashed so far. */
    var hashed: Bytes
    var observed: nat

    constructor (v: VerifierValue)
      ensures Value() == v && observed == |hashed|
    {
      expectedSha256, expectedSize, maximumBytes := v.expectedSha256, v.expectedSize, v.maximumBytes;
      hashed, observed := v.fed, |v.fed|;
    }

    function Value(): VerifierValue
      reads this
    {
      VerifierValue(hashed, expectedSha256, expectedSize, maximumBytes)
    }

    method Update(chunk: Bytes) returns (r: Result<(), StageError>)
      requires observed == |hashed|
      modifies this
      ensures observed == |hashed|
      ensures match Feed(old(Value()), chunk)
              case Ok(v) => r == Ok(()) && Value() == v
              case Err(e) => r == Err(e) && Value() == old(Value())
    {
      var next := observed + |chunk|;
      if next >= U64_BOUND {
        return Err(SizeOverflow);
      }
      if next > maximumBytes {
        return Err(ExceedsLimit);
      }
      hashed := hashed + chunk;
      observed := next;
      return Ok(());
    }
  }

  const BUFFER_BYTES: nat := 64 * 1024

  /** Reading a file to its end through a buffer, short reads included, feeds its whole contents; the first refusal is
      the one a single feed of everything would give, unless the whole does not fit 64 bits. */
  method FeedFile(contents: Bytes, verifier: StreamingVerifier) returns (r: Result<(), StageError>)
    requires verifier.observed == |verifier.hashed| <= verifier.maximumBytes < U64_BOUND
    modifies verifier
    ensures verifier.observed == |verifier.hashed|
    ensures match Feed(old(verifier.Value()), contents)
            case Ok(v) => r == Ok(()) && verifier.Value() == v
            case Err(e) => r.Err? && (|old(verifier.Value()).fed| + |contents| < U64_BOUND ==> r == Err(e))
  {
    ghost var start := verifier.Value();
    var position := 0;
    assert start.fed + contents[..0] == start.fed;
    while position < |contents|
      invariant position <= |contents| && verifier.observed == |verifier.hashed|
      invariant verifier.Value() == start.(fed := start.fed + contents[..position])
      invariant position > 0 ==> |start.fed| + position <= start.maximumBytes
    {
      var read :| 0 < read <= BUFFER_BYTES && position + read <= |contents|;
      var updated := verifier.Update(contents[position..position + read]);
      if updated.Err? {
        return Err(updated.error);
      }
      assert contents[..position] + contents[position..position + read] == contents[..position + read];
      position := position + read;
    }
    assert contents[..position] == contents;
    return Ok(());
  }

  /** From position `k` on, the script only writes these bytes. */
  ghost predicate EndsInAppends(script: seq<Action>, k: nat, bytes: Bytes) {
    k + |bytes| == |script| && forall i :: 0 <= i < |bytes| ==> script[k + i] == Append(bytes[i])
  }

  lemma EndLength(script: seq<Action>, k: nat, bytes: Bytes)
    requires EndsInAppends(script, k, bytes)
    ensures k + |bytes| == |script|
  {}

  lemma EndSplits(script: seq<Action>, k: nat, a: Bytes, b: Bytes)
    requires EndsInAppends(script, k, a + b)
    ensures k + |a| <= |script| && forall i :: 0 <= i < |a| ==> script[k + i] == Append(a[i])
    ensures EndsInAppends(script, k + |a|, b)
  {
    forall i | 0 <= i < |a|
      ensures script[k + i] == Append(a[i])
    {
      assert (a + b)[i] == a[i];
    }
    forall i | 0 <= i < |b|
      ensures script[k + |a| + i] == Append(b[i])
    {
      assert (a + b)[|a| + i] == b[i] && script[k + (|a| + i)] == Append((a + b)[|a| + i]);
    }
  }

  lemma TailFollows(script: seq<Action>, base: nat, head: seq<Action>, tail: seq<Action>)
    requires |script| == base + |head| + |tail|
    requires forall i :: 0 <= i < |head + tail| ==> script[base + i] == (head + tail)[i]
    ensures forall i :: 0 <= i < |tail| ==> script[base + |head| + i] == tail[i]
  {
    forall i | 0 <= i < |tail|
      ensures script[base + |head| + i] == tail[i]
    {
      assert script[base + (|head| + i)] == (head + tail)[|head| + i];
    }
  }

  /** An accepted answer's operations: the truncation, if nothing is kept, then the bytes received. */
  lemma DownloadTail(sha: Bytes -> string, plan: DownloadPlan, v: VerifierValue, response: Response,
                     script: seq<Action>, base: nat)
    requires 200 <= response.status < 300 && ContentLengthProblem(response, plan.expectedSize, |v.fed|).None?
    requires Follows(script, base, DownloadScript(sha, plan, v, response).script)
    ensures v.fed == [] ==> base < |script| && script[base] == TruncatePartial
    ensures EndsInAppends(script, base + if v.fed == [] then 1 else 0, Receive(v, response.chunks).written)
  {
    hide Receive, FinishStage;
    var planned := DownloadScript(sha, plan, v, response).script;
    var open := if |v.fed| > 0 then [] else [TruncatePartial];
    TailFollows(script, base, open, Appends(Receive(v, response.chunks).written));
    assert open != [] ==> script[base + 0] == planned[0];
  }

  class Store {
    var inodes: map<nat, Bytes>
    var next: nat
    var partial: Option<nat>
    var final: Option<nat>
    /** How many more file operations succeed before the process stops. */
    var budget: nat

    function Now(): Files
      reads this
    {
      Files(inodes, next, partial, final)
    }

    ghost predicate Did(before: Files, b: nat, done: seq<Action>)
      reads this
    {
      Now() == ApplyAll(before, done) && budget + |done| == b
    }

    /** The script ran to its planned outcome, or was interrupted where the budget ended. */
    ghost predicate Ran<R>(before: Files, b: nat, script: seq<Action>, planned: Result<R, StageError>, r: Result<R, StageError>)
      reads this
    {
      if b < |script| then Did(before, b, script[..b]) && r == Err(Interrupted)
      else Did(before, b, script) && r == planned
    }

    method Perform(a: Action, ghost before: Files, ghost b: nat, ghost script: seq<Action>, ghost k: nat)
      returns (ok: bool)
      requires k < |script| && script[k] == a && Did(before, b, script[..k])
      modifies this
      ensures ok <==> k < b
      ensures Did(before, b, script[..if ok then k + 1 else k])
    {
      if budget == 0 {
        return false;
      }
      budget := budget - 1;
      match a {
        case RemovePartial => partial := None;
        case RemoveFinal => final := None;
        case LinkFinalAsPartial => partial := final;
        case LinkPartialAsFinal => final := partial;
        case TruncatePartial =>
          if partial.Some? {
            inodes := inodes[partial.value := []];
          } else {
            inodes, partial, next := inodes[next := []], Some(next), next + 1;
          }
        case Append(byte) =>
          if partial.Some? {
            inodes := inodes[partial.value := PartialBytes(Now()) + [byte]];
          }
      }
      ApplyNext(before, script, k);
      return true;
    }

    /** Writing one chunk; a crash may tear it. */
    method WriteAll(chunk: Bytes, ghost before: Files, ghost b: nat, ghost script: seq<Action>, ghost k: nat)
      returns (ok: bool)
      requires k + |chunk| <= |script| && k <= b && Did(before, b, script[..k])
      requires forall i :: 0 <= i < |chunk| ==> script[k + i] == Append(chunk[i])
      modifies this
      ensures ok <==> k + |chunk| <= b
      ensures Did(before, b, script[..if ok then k + |chunk| else b])
    {
      for i := 0 to |chunk|
        invariant k + i <= b && Did(before, b, script[..k + i])
      {
        ok := Perform(Append(chunk[i]), before, b, script, k + i);
        if !ok {
          return;
        }
      }
      return true;
    }

    /** The body of the answer, chunk by chunk: hashed first, written second. */
    method ReceiveBody(chunks: seq<Bytes>, verifier: StreamingVerifier, ghost before: Files, ghost b: nat,
                       ghost script: seq<Action>, ghost base: nat)
      returns (r: Result<(), StageError>)
      requires verifier.observed == |verifier.hashed|
      requires base <= b && EndsInAppends(script, base, Receive(verifier.Value(), chunks).written)
      requires Did(before, b, script[..base])
      modifies this, verifier
      ensures var received := old(Receive(verifier.Value(), chunks));
              && Ran(before, b, script, if received.error.Some? then Err(received.error.value) else Ok(()), r)
              && (r.Ok? ==> verifier.Value() == received.verifier)
    {
      hide Did, EndsInAppends, ApplyAll;
      ghost var whole := Receive(verifier.Value(), chunks);
      ghost var k: nat := base;
      var c := 0;
      assert chunks[0..] == chunks && script[..|script|] == script;
      EndLength(script, k, whole.written);
      while c < |chunks|
        invariant c <= |chunks| && verifier.observed == |verifier.hashed|
        invariant k <= |script| && k <= b && Did(before, b, script[..k])
        invariant var rest := Receive(verifier.Value(), chunks[c..]);
                  && EndsInAppends(script, k, rest.written)
                  && whole.error == rest.error && whole.verifier == rest.verifier
      {
        ghost var rest := Receive(verifier.Value(), chunks[c..]);
        assert chunks[c..][0] == chunks[c] && chunks[c..][1..] == chunks[c + 1..];
        EndLength(script, k, rest.written);
        var updated := verifier.Update(chunks[c]);
        if updated.Err? {
          assert rest.written == [];
          return Err(updated.error);
        }
        EndSplits(script, k, chunks[c], Receive(verifier.Value(), chunks[c + 1..]).written);
        var ok := WriteAll(chunks[c], before, b, script, k);
        if !ok {
          return Err(Interrupted);
        }
        k, c := k + |chunks[c]|, c + 1;
      }
      EndLength(script, k, []);
      return Ok(());
    }

    /** One answer: its status and length, the file opened to continue or to start over, the body, the verdict. */
    method Download(sha: Bytes -> string, plan: DownloadPlan, verifier: StreamingVerifier, response: Response,
                    ghost before: Files, ghost b: nat, ghost script: seq<Action>, ghost base: nat)
      returns (r: Result<Verified, StageError>)
      requires verifier.observed == |verifier.hashed|
      requires Follows(script, base, DownloadScript(sha, plan, verifier.Value(), response).script)
      requires base <= b && Did(before, b, script[..base])
      modifies this, verifier
      ensures Ran(before, b, script, old(DownloadScript(sha, plan, verifier.Value(), response).outcome), r)
    {
      hide Did, Receive, FinishStage, ApplyAll, ContentLengthProblem, EndsInAppends;
      assert script[..|script|] == script;
      if !(200 <= response.status < 300) {
        return Err(HttpStatus(response.status));
      }
      var problem := ContentLengthProblem(response, plan.expectedSize, verifier.observed);
      if problem.Some? {
        return Err(problem.value);
      }
      DownloadTail(sha, plan, verifier.Value(), response, script, base);
      ghost var open: nat := 0;
      if verifier.observed == 0 {
        var ok := Perform(TruncatePartial, before, b, script, base);
        if !ok {
          return Err(Interrupted);
        }
        open := 1;
      }
      var body := ReceiveBody(response.chunks, verifier, before, b, script, base + open);
      if body.Err? {
        return Err(body.error);
      }
      if !response.complete {
        return Err(BodyFailed);
      }
      return FinishStage(sha, plan, verifier.Value());
    }

    /** The network part of staging. */
    method Respond(sha: Bytes -> string, plan: DownloadPlan, verifier: StreamingVerifier, server: Server,
                   ghost before: Files, ghost b: nat, ghost script: seq<Action>, ghost base: nat)
      returns (r: Result<Verified, StageError>)
      requires verifier.observed == |verifier.hashed| && NewVerifier(plan).Ok?
      requires verifier.Value() == NewVerifier(plan).value.(fed := verifier.hashed)
      requires Follows(script, base, RespondScript(sha, plan, verifier.Value(), server).script)
      requires base <= b && Did(before, b, script[..base])
      modifies this, verifier
      ensures Ran(before, b, script, old(RespondScript(sha, plan, verifier.Value(), server).outcome), r)
    {
      hide Did, DownloadScript;
      assert script[..|script|] == script;
      if server.first.None? {
        return Err(RequestFailed);
      }
      var response, current := server.first.value, verifier;
      if plan.resumeEnabled && verifier.observed > 0 {
        if response.status == 206 {
          if !ContentRangeAccepted(response.contentRange, verifier.observed, plan.expectedSize) {
            return Err(InvalidContentRange);
          }
        } else if response.status == 200 && plan.restartOnRangeRejection {
          if server.second.None? {
            return Err(RequestFailed);
          }
          current := new StreamingVerifier(NewVerifier(plan).value);
          response := server.second.value;
        } else {
          return Err(ResumeRejected);
        }
      }
      r := Download(sha, plan, current, response, before, b, script, base);
    }

    /** Resume what is there, or start over; the partial file is re-hashed before it is continued. */
    method StageArtifact(sha: Bytes -> string, plan: DownloadPlan, server: Server, ghost before: Files, ghost b: nat,
                         ghost script: seq<Action>, ghost base: nat)
      returns (r: Result<Verified, StageError>)
      requires plan.maximumBytes < U64_BOUND
      requires partial.Some? ==> partial.value in inodes
      requires Follows(script, base, StagePlan(sha, plan, Now(), server).script)
      requires base <= b && Did(before, b, script[..base])
      modifies this
      ensures Ran(before, b, script, old(StagePlan(sha, plan, Now(), server).outcome), r)
    {
      hide Did, RespondScript, FinishStage;
      ghost var planned := StagePlan(sha, plan, Now(), server);
      assert script[..|script|] == script;
      var contents := PartialBytes(Now());
      ghost var k: nat := 0;
      if Discards(plan, |contents|) {
        assert script[base + 0] == planned.script[0];
        var ok := Perform(RemovePartial, before, b, script, base);
        if !ok {
          return Err(Interrupted);
        }
        k, contents := 1, [];
      }
      var disk := DiskProblem(plan, |contents|, server.availableBytes);
      if disk.Some? {
        return Err(disk.value);
      }
      var initial := NewVerifier(plan);
      if initial.Err? {
        return Err(initial.error);
      }
      var verifier := new StreamingVerifier(initial.value);
      assert [] + contents == contents;
      if contents != [] {
        var rehashed := FeedFile(contents, verifier);
        if rehashed.Err? {
          // A file that was not discarded is within the verifier's limit.
          assert false;
        }
        if plan.expectedSize == Some(|contents|) {
          return FinishStage(sha, plan, verifier.Value());
        }
      }
      if plan.resumeEnabled && contents != [] && plan.expectedSize.Some? && |contents| >= plan.expectedSize.value {
        return Err(InvalidResumeOffset);
      }
      TailFollows(script, base, planned.script[..k], RespondScript(sha, plan, verifier.Value(), server).script);
      r := Respond(sha, plan, verifier, server, before, b, script, base + k);
    }

    /** A cached artifact is verified in full before it seeds the staging area. */
    method StageArtifactCached(sha: Bytes -> string, plan: DownloadPlan, server: Server)
      returns (r: Result<Verified, StageError>)
      requires plan.maximumBytes < U64_BOUND && WellFormed(Now())
      modifies this
      ensures var planned := StageCachedPlan(sha, plan, old(Now()), server);
              Ran(old(Now()), old(budget), planned.script, planned.outcome, r)
    {
      hide Did, StagePlan, Finish;
      ghost var before, b := Now(), budget;
      ghost var planned := StageCachedPlan(sha, plan, before, server);
      ghost var script := planned.script;
      NothingDone(b);
      if final.Some? {
        var verified := VerifyCachedFinal(sha, plan, inodes[final.value]);
        if !verified {
          return Err(ExistingArtifactMismatch);
        }
        if partial.None? {
          var ok := Perform(LinkFinalAsPartial, before, b, script, 0);
          if !ok {
            return Err(Interrupted);
          }
          assert Now() == Apply(before, LinkFinalAsPartial) by {
            AfterFirst(before, b, script);
          }
          r := StageArtifact(sha, plan, server, before, b, script, 1);
          return;
        }
      }
      r := StageArtifact(sha, plan, server, before, b, script, 0);
    }

    lemma NothingDone(b: nat)
      requires budget == b
      ensures Did(Now(), b, [])
    {}

    lemma AfterFirst(before: Files, b: nat, script: seq<Action>)
      requires |script| > 0 && Did(before, b, script[..1])
      ensures Now() == Apply(before, script[0])
    {
      ApplyNext(before, script, 0);
    }

    method PromoteArtifact(sha: Bytes -> string, expected: Verified) returns (r: Result<PromotionState, StageError>)
      requires WellFormed(Now())
      modifies this
      ensures var planned := PromotePlan(sha, expected, old(Now()));
              Ran(old(Now()), old(budget), planned.script, planned.outcome, r)
    {
      ghost var before, b := Now(), budget;
      ghost var script := PromotePlan(sha, expected, before).script;
      assert script[..0] == [] && script[..|script|] == script;
      if partial.None? {
        return Err(MissingFile);
      }
      var ok := VerifyRegularFile(sha, inodes[partial.value], expected);
      if !ok {
        return Err(PromotedArtifactVerification);
      }
      if final.Some? {
        ok := VerifyRegularFile(sha, inodes[final.value], expected);
        if !ok {
          return Err(ExistingArtifactMismatch);
        }
        ok := Perform(RemovePartial, before, b, script, 0);
        return if ok then Ok(ReusedExisting) else Err(Interrupted);
      }
      ok := Perform(LinkPartialAsFinal, before, b, script, 0);
      if !ok {
        return Err(Interrupted);
      }
      AfterFirst(before, b, script);
      ok := VerifyRegularFile(sha, inodes[final.value], expected);
      if !ok {
        // The new name leads to the very bytes that were verified above.
        assert false;
      }
      ok := Perform(RemovePartial, before, b, script, 1);
      return if ok then Ok(Published) else Err(Interrupted);
    }
  }

  /** The full check of a cached artifact, streamed. */
  method VerifyCachedFinal(sha: Bytes -> string, plan: DownloadPlan, contents: Bytes) returns (ok: bool)
    requires plan.maximumBytes < U64_BOUND
    ensures ok <==> CachedFinalOk(sha, plan, contents)
  {
    var initial := NewVerifier(plan);
    if initial.Err? {
      return false;
    }
    var verifier := new StreamingVerifier(initial.value);
    assert [] + contents == contents;
    var fed := FeedFile(contents, verifier);
    if fed.Err? {
      return false;
    }
    return Finish(sha, verifier.Value()).Ok?;
  }

  /** Length first, then a hash of the file that stops as soon as the file is longer than it said. */
  method VerifyRegularFile(sha: Bytes -> string, contents: Bytes, expected: Verified) returns (ok: bool)
    ensures ok <==> Matches(sha, contents, expected)
  {
    if |contents| != expected.size {
      return false;
    }
    var observed, hashed := 0, [];
    while observed < |contents|
      invariant observed <= |contents| && hashed == contents[..observed]
    {
      var read :| 0 < read <= BUFFER_BYTES && observed + read <= |contents|;
      if observed + read > expected.size {
        return false;
      }
      hashed := hashed + contents[observed..observed + read];
      observed := observed + read;
    }
    assert hashed == contents;
    return observed == expected.size && sha(hashed) == expected.sha256;
  }
}
