/** Downloading, verifying and publishing one pinned artifact. Two names, the partial download and the cached
    final artifact, lead to inodes; a hard link makes them lead to the same one. */
module ArtifactCache {
  import opened Text
  import opened Numerals

  const DEFAULT_DISK_RESERVE_BYTES: nat := 256 * 1024 * 1024

  datatype DownloadPlan = DownloadPlan(
    expectedSha256: string,
    expectedSize: Option<nat>,
    maximumBytes: nat,
    resumeEnabled: bool,
    restartOnRangeRejection: bool)

  datatype Verified = Verified(sha256: string, size: nat)

  datatype StageError =
    | InvalidSha256
    | InvalidMaximumBytes
    | ExceedsLimit
    | SizeOverflow
    | SizeMismatch
    | HashMismatch
    | PartialLargerThanArtifact
    | DiskBudgetOverflow
    | InsufficientDiskSpace
    | InvalidResumeOffset
    | RequestFailed
    | InvalidContentRange
    | ResumeRejected
    | HttpStatus(status: nat)
    | InvalidContentLength
    | ContentLengthMismatch
    | BodyFailed
    | ExistingArtifactMismatch
    | PromotedArtifactVerification
    | MissingFile
    | Interrupted

  // ----- the streaming verifier

  datatype VerifierValue = VerifierValue(fed: Bytes, expectedSha256: string, expectedSize: Option<nat>, maximumBytes: nat)

  function NewVerifier(plan: DownloadPlan): Result<VerifierValue, StageError> {
    var maximum := if plan.expectedSize.Some? && plan.expectedSize.value < plan.maximumBytes
                   then plan.expectedSize.value else plan.maximumBytes;
    if !IsSha256(plan.expectedSha256) then Err(InvalidSha256)
    else if maximum == 0 then Err(InvalidMaximumBytes)
    else if plan.expectedSize.Some? && plan.expectedSize.value > maximum then Err(ExceedsLimit)
    else Ok(VerifierValue([], Lower(plan.expectedSha256), plan.expectedSize, maximum))
  }

  function Feed(v: VerifierValue, chunk: Bytes): Result<VerifierValue, StageError> {
    if |v.fed| + |chunk| >= U64_BOUND then Err(SizeOverflow)
    else if |v.fed| + |chunk| > v.maximumBytes then Err(ExceedsLimit)
    else Ok(v.(fed := v.fed + chunk))
  }

  function Finish(sha: Bytes -> string, v: VerifierValue): Result<Verified, StageError> {
    if v.expectedSize.Some? && |v.fed| != v.expectedSize.value then Err(SizeMismatch)
    else if sha(v.fed) != v.expectedSha256 then Err(HashMismatch)
    else Ok(Verified(sha(v.fed), |v.fed|))
  }

  function Concat(chunks: seq<Bytes>): Bytes {
    if chunks == [] then [] else chunks[0] + Concat(chunks[1..])
  }

  /** What reaches the disk while chunks are verified first and written second. */
  datatype Received = Received(written: Bytes, verifier: VerifierValue, error: Option<StageError>)

  function Receive(v: VerifierValue, chunks: seq<Bytes>): Received
    decreases |chunks|
  {
    if chunks == [] then Received([], v, None)
    else
      match Feed(v, chunks[0])
      case Err(e) => Received([], v, Some(e))
      case Ok(next) =>
        var rest := Receive(next, chunks[1..]);
        rest.(written := chunks[0] + rest.written)
  }

  /** The bytes written are the bytes hashed, and, unless a chunk is refused, they are the whole body; the
      streaming verdict is the one-shot verdict on the concatenation, however the body is cut up. */
  lemma {:induction false} StreamingEqualsOneShot(v: VerifierValue, chunks: seq<Bytes>)
    requires |v.fed| <= v.maximumBytes < U64_BOUND
    ensures var r := Receive(v, chunks);
            && r.verifier == v.(fed := v.fed + r.written)
            && (r.error.None? <==> Feed(v, Concat(chunks)).Ok?)
            && (r.error.None? ==> Feed(v, Concat(chunks)) == Ok(r.verifier) && r.written == Concat(chunks))
            && |r.verifier.fed| <= v.maximumBytes
    decreases |chunks|
  {
    if chunks == [] {
      assert v.fed + [] == v.fed;
    } else if Feed(v, chunks[0]).Ok? {
      var next := Feed(v, chunks[0]).value;
      StreamingEqualsOneShot(next, chunks[1..]);
      assert next.fed + Receive(next, chunks[1..]).written == v.fed + (chunks[0] + Receive(next, chunks[1..]).written);
    }
  }

  // ----- files

  datatype Files = Files(inodes: map<nat, Bytes>, next: nat, partial: Option<nat>, final: Option<nat>)

  datatype Action =
    | RemovePartial
    | TruncatePartial
    | Append(byte: Byte)
    | LinkFinalAsPartial
    | LinkPartialAsFinal
    | RemoveFinal

  ghost predicate WellFormed(f: Files) {
    && (forall i :: i in f.inodes ==> i < f.next)
    && (f.partial.Some? ==> f.partial.value in f.inodes)
    && (f.final.Some? ==> f.final.value in f.inodes)
  }

  function Contents(f: Files, name: Option<nat>): Option<Bytes> {
    if name.Some? && name.value in f.inodes then Some(f.inodes[name.value]) else None
  }

  function PartialBytes(f: Files): Bytes {
    var c := Contents(f, f.partial);
    if c.Some? then c.value else []
  }

  /** Opening for truncation or appending creates the partial file when it is missing. */
  function Apply(f: Files, a: Action): Files {
    match a
    case RemovePartial => f.(partial := None)
    case RemoveFinal => f.(final := None)
    case LinkFinalAsPartial => f.(partial := f.final)
    case LinkPartialAsFinal => f.(final := f.partial)
    case TruncatePartial =>
      if f.partial.Some? then f.(inodes := f.inodes[f.partial.value := []])
      else f.(inodes := f.inodes[f.next := []], partial := Some(f.next), next := f.next + 1)
    case Append(b) =>
      if f.partial.Some? then f.(inodes := f.inodes[f.partial.value := PartialBytes(f) + [b]]) else f
  }

  function ApplyAll(f: Files, script: seq<Action>): Files
    decreases |script|
  {
    if script == [] then f else Apply(ApplyAll(f, script[..|script| - 1]), script[|script| - 1])
  }

  lemma ApplyNext(f: Files, script: seq<Action>, k: nat)
    requires k < |script|
    ensures ApplyAll(f, script[..k + 1]) == Apply(ApplyAll(f, script[..k]), script[k])
  {
    assert script[..k + 1][..k] == script[..k];
  }

  lemma {:induction false} ApplyAllConcat(f: Files, a: seq<Action>, b: seq<Action>)
    ensures ApplyAll(f, a + b) == ApplyAll(ApplyAll(f, a), b)
    decreases |b|
  {
    if b == [] {
      assert a + b == a;
    } else {
      ApplyAllConcat(f, a, b[..|b| - 1]);
      assert (a + b)[..|a + b| - 1] == a + b[..|b| - 1];
    }
  }

  function Appends(bytes: Bytes): (s: seq<Action>)
    ensures |s| == |bytes|
    ensures forall i :: 0 <= i < |bytes| ==> s[i] == Append(bytes[i])
  {
    seq(|bytes|, i requires 0 <= i < |bytes| => Append(bytes[i]))
  }

  // ----- the server's answers

  /** `contentRange` is None when the header is missing or not text; `contentLength` is Some(None) when it is not
      a number; a body may break off (`complete` false). */
  datatype Response = Response(
    status: nat,
    contentRange: Option<string>,
    contentLength: Option<Option<nat>>,
    chunks: seq<Bytes>,
    complete: bool)

  datatype Server = Server(availableBytes: nat, first: Option<Response>, second: Option<Response>)

  function IndexOf(s: string, c: char): Option<nat> {
    if s == "" then None
    else if s[0] == c then Some(0)
    else
      var r := IndexOf(s[1..], c);
      if r.Some? then Some(r.value + 1) else None
  }

  lemma {:induction false} IndexOfBounds(s: string, c: char)
    ensures IndexOf(s, c).Some? ==> IndexOf(s, c).value < |s|
  {
    if s != "" {
      IndexOfBounds(s[1..], c);
    }
  }

  predicate ContentRangeAccepted(header: Option<string>, expectedStart: nat, expectedTotal: Option<nat>) {
    if header.None? || !("bytes " <= header.value) then false
    else
      var rest := header.value[6..];
      IndexOfBounds(rest, '/');
      var slash := IndexOf(rest, '/');
      if slash.None? then false
      else
        var range, total := rest[..slash.value], rest[slash.value + 1..];
        IndexOfBounds(range, '-');
        var dash := IndexOf(range, '-');
        if dash.None? then false
        else
          var start, end := ParseU64(range[..dash.value]), ParseU64(range[dash.value + 1..]);
          if start.None? || end.None? || start.value != expectedStart || end.value < start.value then false
          else if expectedTotal.Some? then ParseU64(total) == expectedTotal && end.value < expectedTotal.value
          else total == "*" || ParseU64(total).Some?
  }

  lemma {:induction false} IndexOfFirst(a: string, c: char, b: string)
    requires c !in a
    ensures IndexOf(a + [c] + b, c) == Some(|a|)
  {
    if a == "" {
      assert a + [c] + b == [c] + b;
    } else {
      assert (a + [c] + b)[1..] == a[1..] + [c] + b;
      IndexOfFirst(a[1..], c, b);
    }
  }

  /** A Content-Range as section 14.4 of RFC 9110 renders it is accepted exactly when it continues at the requested
      offset and lies inside the pinned size. */
  lemma ContentRangeExact(first: nat, last: nat, length: nat, expectedStart: nat, expectedTotal: nat)
    requires first < U64_BOUND && last < U64_BOUND && length < U64_BOUND
    ensures ContentRangeAccepted(Some("bytes " + Decimal(first) + "-" + Decimal(last) + "/" + Decimal(length)),
                                 expectedStart, Some(expectedTotal))
       <==> first == expectedStart && length == expectedTotal && first <= last < length
  {
    hide ParseU64, Decimal;
    DecimalRoundTrip(first);
    DecimalRoundTrip(last);
    DecimalRoundTrip(length);
    ContentRangeParts(Decimal(first), Decimal(last), Decimal(length));
  }

  /** How a header falls into its three numerals. */
  lemma ContentRangeParts(first: string, last: string, length: string)
    requires '/' !in first && '-' !in first && '/' !in last
    ensures var header := "bytes " + first + "-" + last + "/" + length;
            var range := first + "-" + last;
            && "bytes " <= header && header[6..] == range + "/" + length
            && IndexOf(header[6..], '/') == Some(|range|)
            && header[6..][..|range|] == range && header[6..][|range| + 1..] == length
            && IndexOf(range, '-') == Some(|first|)
            && range[..|first|] == first && range[|first| + 1..] == last
  {
    var range := first + "-" + last;
    assert "bytes " + first + "-" + last + "/" + length == "bytes " + (range + "/" + length);
    IndexOfFirst(range, '/', length);
    IndexOfFirst(first, '-', last);
  }

  /** None when acceptable. */
  function ContentLengthProblem(r: Response, expectedSize: Option<nat>, existing: nat): Option<StageError> {
    match r.contentLength
    case None => None
    case Some(None) => Some(InvalidContentLength)
    case Some(Some(n)) =>
      if expectedSize.None? then None
      else if expectedSize.value < existing || n != expectedSize.value - existing then Some(ContentLengthMismatch)
      else None
  }

  // ----- staging

  datatype Plan<R> = Plan(script: seq<Action>, outcome: Result<R, StageError>)

  function DiskProblem(plan: DownloadPlan, existing: nat, available: nat): Option<StageError> {
    var budget := if plan.expectedSize.Some? then plan.expectedSize.value else plan.maximumBytes;
    if existing > budget then Some(PartialLargerThanArtifact)
    else if budget - existing + DEFAULT_DISK_RESERVE_BYTES >= U64_BOUND then Some(DiskBudgetOverflow)
    else if available < budget - existing + DEFAULT_DISK_RESERVE_BYTES then Some(InsufficientDiskSpace)
    else None
  }

  /** The verdict, and the check that it is the one the plan pinned. */
  function FinishStage(sha: Bytes -> string, plan: DownloadPlan, v: VerifierValue): Result<Verified, StageError> {
    match Finish(sha, v)
    case Err(e) => Err(e)
    case Ok(verified) =>
      if verified.sha256 != plan.expectedSha256 then Err(HashMismatch)
      else if plan.expectedSize.Some? && plan.expectedSize.value != verified.size then Err(SizeMismatch)
      else Ok(verified)
  }

  /** The body is written after whatever of the partial file is kept: all of it, or nothing. */
  function DownloadScript(sha: Bytes -> string, plan: DownloadPlan, v: VerifierValue, r: Response): Plan<Verified> {
    var existing := |v.fed|;
    if !(200 <= r.status < 300) then Plan([], Err(HttpStatus(r.status)))
    else
      var problem := ContentLengthProblem(r, plan.expectedSize, existing);
      if problem.Some? then Plan([], Err(problem.value))
      else
        var open := if existing > 0 then [] else [TruncatePartial];
        var received := Receive(v, r.chunks);
        var script := open + Appends(received.written);
        if received.error.Some? then Plan(script, Err(received.error.value))
        else if !r.complete then Plan(script, Err(BodyFailed))
        else Plan(script, FinishStage(sha, plan, received.verifier))
  }

  /** Which answers are refused before anything is written, and as what: with the pinned size `s` and `k` bytes kept,
      a given length `n` gets past the check exactly when `k + n` is `s`. */
  lemma AnswerRefusedIff(sha: Bytes -> string, plan: DownloadPlan, v: VerifierValue, r: Response)
    ensures var outcome := DownloadScript(sha, plan, v, r).outcome;
            var received := 200 <= r.status < 300;
            && (forall status :: outcome == Err(HttpStatus(status)) <==> !received && status == r.status)
            && (outcome == Err(InvalidContentLength) <==> received && r.contentLength == Some(None))
            && (outcome == Err(ContentLengthMismatch) <==>
                  received && plan.expectedSize.Some? && r.contentLength.Some? && r.contentLength.value.Some?
                  && |v.fed| + r.contentLength.value.value != plan.expectedSize.value)
  {
    if DownloadScript(sha, plan, v, r).outcome.Err? {
      ReceiveRefusals(v, r.chunks);
    }
  }

  lemma {:induction false} ReceiveRefusals(v: VerifierValue, chunks: seq<Bytes>)
    ensures Receive(v, chunks).error in {None, Some(SizeOverflow), Some(ExceedsLimit)}
    decreases |chunks|
  {
    if chunks != [] && Feed(v, chunks[0]).Ok? {
      ReceiveRefusals(Feed(v, chunks[0]).value, chunks[1..]);
    }
  }

  /** What the answer to the (possibly ranged) request leads to; `v` has been fed the partial file. */
  function RespondScript(sha: Bytes -> string, plan: DownloadPlan, v: VerifierValue, server: Server): Plan<Verified> {
    var existing := |v.fed|;
    if server.first.None? then Plan([], Err(RequestFailed))
    else if !plan.resumeEnabled || existing == 0 then DownloadScript(sha, plan, v, server.first.value)
    else if server.first.value.status == 206 then
      if ContentRangeAccepted(server.first.value.contentRange, existing, plan.expectedSize)
      then DownloadScript(sha, plan, v, server.first.value) else Plan([], Err(InvalidContentRange))
    else if server.first.value.status == 200 && plan.restartOnRangeRejection then
      if server.second.None? then Plan([], Err(RequestFailed))
      else DownloadScript(sha, plan, v.(fed := []), server.second.value)
    else Plan([], Err(ResumeRejected))
  }

  predicate Discards(plan: DownloadPlan, existing: nat) {
    existing > plan.maximumBytes || (plan.expectedSize.Some? && existing > plan.expectedSize.value)
  }

  function StagePlan(sha: Bytes -> string, plan: DownloadPlan, f: Files, server: Server): Plan<Verified> {
    var discard := Discards(plan, |PartialBytes(f)|);
    var prefix := if discard then [] else PartialBytes(f);
    var script := if discard then [RemovePartial] else [];
    var disk := DiskProblem(plan, |prefix|, server.availableBytes);
    if disk.Some? then Plan(script, Err(disk.value))
    else
      var initial := NewVerifier(plan);
      if initial.Err? then Plan(script, Err(initial.error))
      else
        var fed := Feed(initial.value, prefix);
        if fed.Err? then Plan(script, Err(fed.error))
        else if prefix != [] && plan.expectedSize == Some(|prefix|) then Plan(script, FinishStage(sha, plan, fed.value))
        else if plan.resumeEnabled && prefix != [] && plan.expectedSize.Some? && |prefix| >= plan.expectedSize.value
        then Plan(script, Err(InvalidResumeOffset))
        else
          var rest := RespondScript(sha, plan, fed.value, server);
          rest.(script := script + rest.script)
  }

  /** Verifying the cached artifact in full. */
  predicate CachedFinalOk(sha: Bytes -> string, plan: DownloadPlan, contents: Bytes) {
    var initial := NewVerifier(plan);
    if initial.Err? then false
    else
      var fed := Feed(initial.value, contents);
      fed.Ok? && Finish(sha, fed.value).Ok?
  }

  /** A verified cached artifact seeds the partial name by a hard link unless a partial download is there. */
  function StageCachedPlan(sha: Bytes -> string, plan: DownloadPlan, f: Files, server: Server): Plan<Verified> {
    var cached := Contents(f, f.final);
    if cached.None? then StagePlan(sha, plan, f, server)
    else if !CachedFinalOk(sha, plan, cached.value) then Plan([], Err(ExistingArtifactMismatch))
    else if f.partial.Some? then StagePlan(sha, plan, f, server)
    else
      var rest := StagePlan(sha, plan, Apply(f, LinkFinalAsPartial), server);
      rest.(script := [LinkFinalAsPartial] + rest.script)
  }

  // ----- promotion

  datatype PromotionState = Published | ReusedExisting

  predicate Matches(sha: Bytes -> string, contents: Bytes, expected: Verified) {
    |contents| == expected.size && sha(contents) == expected.sha256
  }

  function PromotePlan(sha: Bytes -> string, expected: Verified, f: Files): Plan<PromotionState> {
    var staged, cached := Contents(f, f.partial), Contents(f, f.final);
    if staged.None? then Plan([], Err(MissingFile))
    else if !Matches(sha, staged.value, expected) then Plan([], Err(PromotedArtifactVerification))
    else if cached.Some? then
      if Matches(sha, cached.value, expected) then Plan([RemovePartial], Ok(ReusedExisting))
      else Plan([], Err(ExistingArtifactMismatch))
    else
      var linked := Contents(Apply(f, LinkPartialAsFinal), Apply(f, LinkPartialAsFinal).final);
      if linked.Some? && Matches(sha, linked.value, expected) then Plan([LinkPartialAsFinal, RemovePartial], Ok(Published))
      else Plan([LinkPartialAsFinal, RemoveFinal], Err(PromotedArtifactVerification))
  }
}
