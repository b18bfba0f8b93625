/** Refreshing the downloads of a version's release, one service call after another. */
module ReleaseRefresh {
  import opened Text
  import opened Numerals

  /** One uploaded file; `starter` is what an upload that did not finish can leave. */
  datatype Asset = Asset(id: nat, size: nat, digest: Option<string>, starter: bool)

  datatype Package = Package(name: string, size: nat, digest: string)

  datatype Build = Build(base: string, run: nat, attempt: nat, source: string, packages: seq<Package>)

  datatype Link = Link(title: string, url: string)

  /** The published text: which build it announces and its download links. */
  datatype Body = Body(build: Build, links: seq<Link>)

  datatype Release = Release(draft: bool, body: Option<Body>)

  /** The release of one version and its files, by the names that are unique within it. */
  datatype Hosting = Hosting(release: Option<Release>, assets: map<string, Asset>, nextId: nat)

  datatype Call =
    | CreateDraft
    | DeleteAsset(id: nat)
    | Upload(package: Package)
    | Patch(body: Body)

  datatype RefreshError = ChecksumMismatch | Interrupted

  datatype Plan = Plan(calls: seq<Call>, outcome: Result<(), RefreshError>)

  // ----- names

  const PLATFORMS: seq<(string, string, string)> := [
    ("linux-x64", "Linux x64", "tar.gz"),
    ("linux-arm64", "Linux ARM64", "tar.gz"),
    ("windows-x64", "Windows x64", "zip"),
    ("macos-intel", "macOS Intel", "tar.gz"),
    ("macos-arm64", "macOS Apple Silicon", "tar.gz")]

  /** What comes before and after the build sequence in the name of a package; the last is the checksum list. */
  function Pattern(base: string, platform: nat): (string, string)
    requires platform <= |PLATFORMS|
  {
    if platform == |PLATFORMS| then ("SHA256SUMS-build.", ".txt")
    else ("rbe-" + base + "-" + PLATFORMS[platform].0 + "-build.", "." + PLATFORMS[platform].2)
  }

  function PackageName(base: string, platform: nat, run: nat, attempt: nat): string
    requires platform <= |PLATFORMS|
  {
    var (prefix, suffix) := Pattern(base, platform);
    prefix + (Decimal(run) + "." + Decimal(attempt)) + suffix
  }

  predicate IsPositiveNumeral(s: string) {
    s != "" && s[0] != '0' && forall i :: 0 <= i < |s| ==> IsDigit(s[i])
  }

  predicate IsBuildSequence(s: string) {
    var parts := Split(s, '.');
    |parts| == 2 && IsPositiveNumeral(parts[0]) && IsPositiveNumeral(parts[1])
  }

  predicate MatchesPattern(prefix: string, suffix: string, name: string) {
    && |prefix| + |suffix| <= |name|
    && prefix <= name && name[|name| - |suffix|..] == suffix
    && IsBuildSequence(name[|prefix|..|name| - |suffix|])
  }

  /** The files of this publisher, of any build of the version. */
  predicate Managed(base: string, name: string) {
    exists platform :: 0 <= platform <= |PLATFORMS| && MatchesPattern(Pattern(base, platform).0, Pattern(base, platform).1, name)
  }

  // ----- the plan

  predicate Matches(assets: map<string, Asset>, p: Package) {
    p.name in assets && assets[p.name].size == p.size && assets[p.name].digest == Some(p.digest)
  }

  function PackagePlan(listed: map<string, Asset>, p: Package): Plan {
    if p.name !in listed then Plan([Upload(p)], Ok(()))
    else if listed[p.name].starter && listed[p.name].size == 0 then Plan([DeleteAsset(listed[p.name].id), Upload(p)], Ok(()))
    else Plan([], if Matches(listed, p) then Ok(()) else Err(ChecksumMismatch))
  }

  function UploadPlan(listed: map<string, Asset>, packages: seq<Package>): Plan {
    if packages == [] then Plan([], Ok(()))
    else
      var first := PackagePlan(listed, packages[0]);
      if first.outcome.Err? then first
      else
        var rest := UploadPlan(listed, packages[1..]);
        Plan(first.calls + rest.calls, rest.outcome)
  }

  function DownloadUrl(site: string, base: string, name: string): string {
    site + "/releases/download/rbe-bin-v" + base + "/" + name
  }

  function BodyOf(site: string, build: Build): Body {
    Body(build, seq(|build.packages|, i requires 0 <= i < |build.packages| =>
                      Link(if i < |PLATFORMS| then PLATFORMS[i].1 else "SHA-256 checksums",
                           DownloadUrl(site, build.base, build.packages[i].name))))
  }

  predicate Current(build: Build, name: string) {
    exists i :: 0 <= i < |build.packages| && build.packages[i].name == name
  }

  predicate Obsolete(build: Build, name: string) { !Current(build, name) && Managed(build.base, name) }

  /** Deletions of the obsolete files, in the order of the listing. */
  function CleanupCalls(listed: map<string, Asset>, listing: seq<string>, build: Build): seq<Call> {
    if listing == [] then []
    else
      (if listing[0] in listed && Obsolete(build, listing[0]) then [DeleteAsset(listed[listing[0]].id)] else [])
      + CleanupCalls(listed, listing[1..], build)
  }

  /** Uploads first, then the links, then what the links no longer need. */
  function RefreshPlan(site: string, h: Hosting, listing: seq<string>, build: Build): Plan {
    var create := if h.release.None? then [CreateDraft] else [];
    var uploads := UploadPlan(h.assets, build.packages);
    if uploads.outcome.Err? then Plan(create + uploads.calls, uploads.outcome)
    else Plan(create + uploads.calls + [Patch(BodyOf(site, build))] + CleanupCalls(h.assets, listing, build), Ok(()))
  }

  // ----- the service

  function Without(assets: map<string, Asset>, id: nat): map<string, Asset> {
    map name | name in assets && assets[name].id != id :: assets[name]
  }

  function Apply(h: Hosting, call: Call): Hosting {
    match call
    case CreateDraft => h.(release := Some(Release(true, None)))
    case DeleteAsset(id) => h.(assets := Without(h.assets, id))
    case Upload(p) => h.(assets := h.assets[p.name := Asset(h.nextId, p.size, Some(p.digest), false)], nextId := h.nextId + 1)
    case Patch(body) => h.(release := Some(Release(false, Some(body))))
  }

  function ApplyAll(h: Hosting, calls: seq<Call>): Hosting
    decreases |calls|
  {
    if calls == [] then h else ApplyAll(Apply(h, calls[0]), calls[1..])
  }

  /** What an upload that fails, or that stores something else, can leave behind. */
  function ApplyBroken(h: Hosting, call: Call, left: Asset): Hosting {
    match call
    case Upload(p) => h.(assets := h.assets[p.name := left.(id := h.nextId)], nextId := h.nextId + 1)
    case _ => h
  }

  /** A refresh that stops before call `stop`, which may have left something broken; or an operator's own file. */
  datatype Event =
    | Refresh(build: Build, listing: seq<string>, stop: nat, left: Option<Asset>)
    | AddFile(name: string, asset: Asset)
    | RemoveFile(name: string)

  function Stopped(h: Hosting, calls: seq<Call>, stop: nat, left: Option<Asset>): Hosting {
    if stop >= |calls| then ApplyAll(h, calls)
    else
      var before := ApplyAll(h, calls[..stop]);
      if left.Some? then ApplyBroken(before, calls[stop], left.value) else before
  }

  /** Operators touch only files that are not the publisher's. */
  function Step(site: string, base: string, h: Hosting, e: Event): Hosting {
    match e
    case Refresh(build, listing, stop, left) =>
      if ValidBuild(base, build) then Stopped(h, RefreshPlan(site, h, listing, build).calls, stop, left) else h
    case AddFile(name, asset) =>
      if Managed(base, name) || name in h.assets || h.release.None? then h
      else h.(assets := h.assets[name := asset.(id := h.nextId)], nextId := h.nextId + 1)
    case RemoveFile(name) => if Managed(base, name) then h else h.(assets := h.assets - {name})
  }

  function Run(site: string, base: string, h: Hosting, events: seq<Event>): Hosting
    decreases |events|
  {
    if events == [] then h else Step(site, base, Run(site, base, h, events[..|events| - 1]), events[|events| - 1])
  }

  /** One package for each platform and the checksum list, none of them empty. */
  predicate ValidBuild(base: string, build: Build) {
    && build.base == base && build.run > 0 && build.attempt > 0
    && |build.packages| == |PLATFORMS| + 1
    && forall i :: 0 <= i < |build.packages| ==>
         build.packages[i].size > 0 && build.packages[i].name == PackageName(base, i, build.run, build.attempt)
  }

  // ----- the publisher's names

  lemma PackageIsManaged(base: string, platform: nat, run: nat, attempt: nat)
    requires platform <= |PLATFORMS| && run > 0 && attempt > 0
    ensures Managed(base, PackageName(base, platform, run, attempt))
  {
    var (prefix, suffix) := Pattern(base, platform);
    var parts := [Decimal(run), Decimal(attempt)];
    assert Join(parts, '.') == Decimal(run) + "." + Decimal(attempt) by {
      assert Join(parts[1..], '.') == parts[1];
    }
    SplitJoin(parts, '.');
    var name := PackageName(base, platform, run, attempt);
    assert name[|prefix|..|name| - |suffix|] == Join(parts, '.');
    assert MatchesPattern(Pattern(base, platform).0, Pattern(base, platform).1, name);
  }

  lemma PackagesAreDistinct(base: string, i: nat, j: nat, run: nat, attempt: nat)
    requires i < j <= |PLATFORMS|
    ensures PackageName(base, i, run, attempt) != PackageName(base, j, run, attempt)
  {
    var a, b := PackageName(base, i, run, attempt), PackageName(base, j, run, attempt);
    LabelInName(base, i, run, attempt);
    if j < |PLATFORMS| {
      LabelInName(base, j, run, attempt);
    }
    assert a[0] == 'r';
    assert j == |PLATFORMS| ==> b[0] == 'S';
  }

  lemma LabelInName(base: string, platform: nat, run: nat, attempt: nat)
    requires platform < |PLATFORMS|
    ensures var name, n := PackageName(base, platform, run, attempt), |base| + 5;
            |name| > n + 6 && name[n] == PLATFORMS[platform].0[0] && name[n + 6] == PLATFORMS[platform].0[6]
  {
    var name := PackageName(base, platform, run, attempt);
    var head := "rbe-" + base + "-";
    assert head + PLATFORMS[platform].0 <= name;
  }

  // ----- what is kept

  /** Each published link leads to a file of the size and digest its build has. */
  ghost predicate Linked(site: string, assets: map<string, Asset>, body: Body) {
    && |body.links| == |body.build.packages|
    && forall i :: 0 <= i < |body.links| ==>
         && Matches(assets, body.build.packages[i])
         && body.links[i].url == DownloadUrl(site, body.build.base, body.build.packages[i].name)
  }

  ghost predicate Inv(site: string, base: string, h: Hosting) {
    && (h.release.None? ==> h.assets == map[])
    && (forall name :: name in h.assets ==> h.assets[name].id < h.nextId)
    && (forall a, b :: a in h.assets && b in h.assets && h.assets[a].id == h.assets[b].id ==> a == b)
    && (Published(h) ==>
          ValidBuild(base, h.release.value.body.value.build) && Linked(site, h.assets, h.release.value.body.value))
  }

  predicate Published(h: Hosting) { h.release.Some? && h.release.value.body.Some? }

  ghost predicate Needed(h: Hosting, name: string) {
    Published(h) && Current(h.release.value.body.value.build, name)
  }

  /** What makes a call harmless where it is made. */
  ghost predicate Safe(site: string, base: string, h: Hosting, call: Call) {
    match call
    case CreateDraft => h.release.None?
    case DeleteAsset(id) =>
      forall name :: name in h.assets && h.assets[name].id == id ==>
        Managed(base, name) && (Needed(h, name) ==> h.assets[name].size == 0)
    case Upload(p) => h.release.Some? && p.name !in h.assets && Managed(base, p.name)
    case Patch(body) => h.release.Some? && ValidBuild(base, body.build) && Linked(site, h.assets, body)
  }

  ghost predicate SafeRun(site: string, base: string, h: Hosting, calls: seq<Call>)
    decreases |calls|
  {
    calls == [] || (Safe(site, base, h, calls[0]) && SafeRun(site, base, Apply(h, calls[0]), calls[1..]))
  }

  lemma SafeKeepsInv(site: string, base: string, h: Hosting, call: Call)
    requires Inv(site, base, h) && Safe(site, base, h, call)
    ensures Inv(site, base, Apply(h, call))
    ensures forall left :: Inv(site, base, ApplyBroken(h, call, left))
  {
    hide Managed, ValidBuild, Linked, Inv;
    match call
    case CreateDraft => DraftKeepsInv(site, base, h);
    case DeleteAsset(id) => DeleteKeepsInv(site, base, h, id);
    case Upload(p) =>
      forall left
        ensures Inv(site, base, ApplyBroken(h, call, left))
      {
        StoreKeepsInv(site, base, h, p.name, left.(id := h.nextId));
      }
      StoreKeepsInv(site, base, h, p.name, Asset(h.nextId, p.size, Some(p.digest), false));
    case Patch(body) => PatchKeepsInv(site, base, h, body);
  }

  lemma DraftKeepsInv(site: string, base: string, h: Hosting)
    requires Inv(site, base, h) && h.release.None?
    ensures Inv(site, base, Apply(h, CreateDraft))
  {}

  lemma PatchKeepsInv(site: string, base: string, h: Hosting, body: Body)
    requires Inv(site, base, h) && h.release.Some? && ValidBuild(base, body.build) && Linked(site, h.assets, body)
    ensures Inv(site, base, Apply(h, Patch(body)))
  {
    hide ValidBuild, Linked;
  }

  /** A file under a new name and a new id disturbs nothing. */
  lemma StoreKeepsInv(site: string, base: string, h: Hosting, name: string, asset: Asset)
    requires Inv(site, base, h) && h.release.Some? && name !in h.assets && asset.id == h.nextId
    ensures Inv(site, base, h.(assets := h.assets[name := asset], nextId := h.nextId + 1))
  {
    hide ValidBuild;
  }

  lemma DeleteKeepsInv(site: string, base: string, h: Hosting, id: nat)
    requires Inv(site, base, h)
    requires forall name :: name in h.assets && h.assets[name].id == id && Needed(h, name) ==> h.assets[name].size == 0
    ensures Inv(site, base, Apply(h, DeleteAsset(id)))
  {
    hide PackageName;
    NeededHasSize(site, base, h);
  }

  lemma NeededHasSize(site: string, base: string, h: Hosting)
    requires Inv(site, base, h)
    ensures forall name :: Needed(h, name) ==> name in h.assets && h.assets[name].size > 0
  {}

  /** Files that are not the publisher's are as they were. */
  ghost predicate KeepsForeign(base: string, before: Hosting, after: Hosting) {
    forall name :: !Managed(base, name) ==>
      (name in before.assets <==> name in after.assets)
      && (name in before.assets ==> after.assets[name] == before.assets[name])
  }

  lemma SafeKeepsForeign(site: string, base: string, h: Hosting, call: Call)
    requires Safe(site, base, h, call)
    ensures KeepsForeign(base, h, Apply(h, call))
    ensures forall left :: KeepsForeign(base, h, ApplyBroken(h, call, left))
  {
    hide Managed, ValidBuild, Linked;
  }

  lemma {:induction false} SafeStopped(site: string, base: string, h: Hosting, calls: seq<Call>, stop: nat, left: Option<Asset>)
    requires Inv(site, base, h) && SafeRun(site, base, h, calls)
    ensures Inv(site, base, Stopped(h, calls, stop, left))
    ensures KeepsForeign(base, h, Stopped(h, calls, stop, left))
    decreases |calls|
  {
    hide Inv, Safe, Managed, Apply, ApplyBroken;
    if calls != [] {
      SafeKeepsInv(site, base, h, calls[0]);
      SafeKeepsForeign(site, base, h, calls[0]);
      var next := Apply(h, calls[0]);
      if stop > 0 {
        SafeStopped(site, base, next, calls[1..], stop - 1, left);
        if stop < |calls| {
          assert calls[..stop][1..] == calls[1..][..stop - 1];
        }
      }
    }
  }

  lemma {:induction false} SafeConcat(site: string, base: string, h: Hosting, a: seq<Call>, b: seq<Call>)
    ensures ApplyAll(h, a + b) == ApplyAll(ApplyAll(h, a), b)
    ensures SafeRun(site, base, h, a) && SafeRun(site, base, ApplyAll(h, a), b) ==> SafeRun(site, base, h, a + b)
    decreases |a|
  {
    hide Safe, Apply;
    if a == [] {
      assert a + b == b;
    } else {
      SafeConcat(site, base, Apply(h, a[0]), a[1..], b);
      assert (a + b)[1..] == a[1..] + b;
    }
  }

  // ----- every refresh is safe

  /** Partway through a refresh: every file is as listed, or newer than the listing. */
  ghost predicate Refreshing(site: string, base: string, listed: map<string, Asset>, bound: nat, h: Hosting) {
    && Inv(site, base, h) && h.release.Some? && bound <= h.nextId
    && (forall a :: a in listed ==> listed[a].id < bound)
    && (forall a, b :: a in listed && b in listed && listed[a].id == listed[b].id ==> a == b)
    && (forall a :: a in h.assets ==> Lookup(listed, a) == Some(h.assets[a]) || h.assets[a].id >= bound)
  }

  ghost predicate DistinctNames(packages: seq<Package>) {
    forall i, j :: 0 <= i < j < |packages| ==> packages[i].name != packages[j].name
  }

  ghost predicate Named(packages: seq<Package>, name: string) {
    exists i :: 0 <= i < |packages| && packages[i].name == name
  }

  lemma PackageSafe(site: string, base: string, listed: map<string, Asset>, bound: nat, h: Hosting, p: Package)
    requires Refreshing(site, base, listed, bound, h) && Managed(base, p.name)
    requires Lookup(h.assets, p.name) == Lookup(listed, p.name)
    ensures var plan := PackagePlan(listed, p);
            var after := ApplyAll(h, plan.calls);
            && SafeRun(site, base, h, plan.calls)
            && Refreshing(site, base, listed, bound, after) && after.release == h.release
            && (forall name :: name != p.name ==> Lookup(after.assets, name) == Lookup(h.assets, name))
            && (plan.outcome.Ok? ==> Matches(after.assets, p))
  {
    hide Managed, Needed, Inv;
    var calls := PackagePlan(listed, p).calls;
    IdsDiffer(site, base, h);
    if p.name !in listed {
      SafeKeepsInv(site, base, h, Upload(p));
      OneCall(site, base, h, Upload(p));
    } else if listed[p.name].starter && listed[p.name].size == 0 {
      var delete := DeleteAsset(listed[p.name].id);
      SafeKeepsInv(site, base, h, delete);
      var cleared := Apply(h, delete);
      assert p.name !in cleared.assets;
      SafeKeepsInv(site, base, cleared, Upload(p));
      OneCall(site, base, cleared, Upload(p));
      FirstCall(site, base, h, delete, [Upload(p)]);
      assert calls == [delete] + [Upload(p)];
    }
  }

  lemma IdsDiffer(site: string, base: string, h: Hosting)
    requires Inv(site, base, h)
    ensures forall a, b :: a in h.assets && b in h.assets && h.assets[a].id == h.assets[b].id ==> a == b
  {}

  lemma {:induction false} UploadsSafe(site: string, base: string, listed: map<string, Asset>, bound: nat, h: Hosting,
                                       packages: seq<Package>)
    requires Refreshing(site, base, listed, bound, h) && DistinctNames(packages)
    requires forall i :: 0 <= i < |packages| ==> Managed(base, packages[i].name)
    requires forall i :: 0 <= i < |packages| ==> Lookup(h.assets, packages[i].name) == Lookup(listed, packages[i].name)
    ensures var plan := UploadPlan(listed, packages);
            var after := ApplyAll(h, plan.calls);
            && SafeRun(site, base, h, plan.calls)
            && Refreshing(site, base, listed, bound, after) && after.release == h.release
            && (forall name :: !Named(packages, name) ==> Lookup(after.assets, name) == Lookup(h.assets, name))
            && (plan.outcome.Ok? ==> forall i :: 0 <= i < |packages| ==> Matches(after.assets, packages[i]))
    decreases |packages|
  {
    hide Refreshing, Managed, SafeRun, ApplyAll, PackagePlan, Lookup, Named, DistinctNames;
    if packages == [] {
      NothingCalled(site, base, h);
    } else {
      var first := PackagePlan(listed, packages[0]);
      PackageSafe(site, base, listed, bound, h, packages[0]);
      NamedFirst(packages);
      if first.outcome.Ok? {
        var next := ApplyAll(h, first.calls);
        var rest := UploadPlan(listed, packages[1..]);
        UploadsSafe(site, base, listed, bound, next, packages[1..]);
        SafeConcat(site, base, h, first.calls, rest.calls);
        MatchesAs(next.assets, ApplyAll(next, rest.calls).assets, packages[0]);
      }
    }
  }

  lemma NothingCalled(site: string, base: string, h: Hosting)
    ensures SafeRun(site, base, h, []) && ApplyAll(h, []) == h
  {}

  lemma NamedFirst(packages: seq<Package>)
    requires packages != []
    ensures forall name :: Named(packages, name) <==> name == packages[0].name || Named(packages[1..], name)
    ensures DistinctNames(packages) ==> DistinctNames(packages[1..]) && !Named(packages[1..], packages[0].name)
    ensures DistinctNames(packages) ==> forall i :: 0 < i < |packages| ==> packages[i].name != packages[0].name
  {
    forall name | Named(packages, name)
      ensures name == packages[0].name || Named(packages[1..], name)
    {
      var i :| 0 <= i < |packages| && packages[i].name == name;
      assert i > 0 ==> packages[1..][i - 1].name == name;
    }
  }

  lemma MatchesAs(a: map<string, Asset>, b: map<string, Asset>, p: Package)
    requires Matches(a, p) && Lookup(a, p.name) == Lookup(b, p.name)
    ensures Matches(b, p)
  {}

  /** The obsolete files of the listing are gone and nothing else is. */
  ghost predicate Cleaned(listed: map<string, Asset>, listing: seq<string>, build: Build, before: Hosting, after: Hosting) {
    forall name ::
      Lookup(after.assets, name)
      == if name in listing && Obsolete(build, name) && name in listed && Lookup(before.assets, name) == Some(listed[name])
         then None else Lookup(before.assets, name)
  }

  lemma {:induction false} CleanupSafe(site: string, base: string, listed: map<string, Asset>, bound: nat, h: Hosting,
                                       listing: seq<string>, build: Build)
    requires Refreshing(site, base, listed, bound, h) && build.base == base
    requires Published(h) && h.release.value.body.value.build == build
    ensures var calls := CleanupCalls(listed, listing, build);
            && SafeRun(site, base, h, calls)
            && ApplyAll(h, calls).release == h.release
            && Inv(site, base, ApplyAll(h, calls))
            && Cleaned(listed, listing, build, h, ApplyAll(h, calls))
    decreases |listing|
  {
    hide Refreshing, Managed, Current, Inv, Obsolete, Cleaned, SafeRun, ApplyAll;
    NothingCalled(site, base, h);
    if listing == [] {
      NothingCleaned(listed, build, h);
      RefreshingIsInv(site, base, listed, bound, h);
    } else {
      var rest := CleanupCalls(listed, listing[1..], build);
      if listing[0] in listed && Obsolete(build, listing[0]) {
        var call := DeleteAsset(listed[listing[0]].id);
        DeleteSafe(site, base, listed, bound, h, listing[0], build);
        var next := Apply(h, call);
        CleanupSafe(site, base, listed, bound, next, listing[1..], build);
        FirstCall(site, base, h, call, rest);
        CleanedFirst(listed, listing, build, h, next, ApplyAll(next, rest));
      } else {
        CleanupSafe(site, base, listed, bound, h, listing[1..], build);
        assert CleanupCalls(listed, listing, build) == rest;
        CleanedFirst(listed, listing, build, h, h, ApplyAll(h, rest));
      }
    }
  }

  lemma RefreshingIsInv(site: string, base: string, listed: map<string, Asset>, bound: nat, h: Hosting)
    requires Refreshing(site, base, listed, bound, h)
    ensures Inv(site, base, h)
  {}

  lemma NothingCleaned(listed: map<string, Asset>, build: Build, h: Hosting)
    ensures Cleaned(listed, [], build, h, h)
  {
    hide Obsolete;
  }

  lemma OneCall(site: string, base: string, h: Hosting, call: Call)
    ensures ApplyAll(h, [call]) == Apply(h, call)
    ensures Safe(site, base, h, call) ==> SafeRun(site, base, h, [call])
  {
    hide Safe, Apply;
    NothingCalled(site, base, Apply(h, call));
    FirstCall(site, base, h, call, []);
    assert [call] + [] == [call];
  }

  lemma FirstCall(site: string, base: string, h: Hosting, call: Call, rest: seq<Call>)
    ensures ApplyAll(h, [call] + rest) == ApplyAll(Apply(h, call), rest)
    ensures Safe(site, base, h, call) && SafeRun(site, base, Apply(h, call), rest) ==> SafeRun(site, base, h, [call] + rest)
  {
    hide Safe, Apply;
    assert ([call] + rest)[1..] == rest;
  }

  lemma DeleteSafe(site: string, base: string, listed: map<string, Asset>, bound: nat, h: Hosting, name: string, build: Build)
    requires Refreshing(site, base, listed, bound, h) && build.base == base
    requires Published(h) && h.release.value.body.value.build == build
    requires name in listed && Obsolete(build, name)
    ensures var call := DeleteAsset(listed[name].id);
            && Safe(site, base, h, call) && Refreshing(site, base, listed, bound, Apply(h, call))
            && forall other :: Lookup(Apply(h, call).assets, other)
                               == if other == name && Lookup(h.assets, name) == Some(listed[name]) then None else Lookup(h.assets, other)
  {
    hide Managed, Current, Inv;
    IdsDiffer(site, base, h);
    SafeKeepsInv(site, base, h, DeleteAsset(listed[name].id));
  }

  lemma CleanedFirst(listed: map<string, Asset>, listing: seq<string>, build: Build, h: Hosting, next: Hosting, after: Hosting)
    requires listing != [] && Cleaned(listed, listing[1..], build, next, after)
    requires forall other ::
               Lookup(next.assets, other)
               == if other == listing[0] && Obsolete(build, other) && other in listed && Lookup(h.assets, other) == Some(listed[other])
                  then None else Lookup(h.assets, other)
    ensures Cleaned(listed, listing, build, h, after)
  {
    hide Obsolete;
    assert forall name :: name in listing <==> name == listing[0] || name in listing[1..];
  }

  lemma BuildNames(base: string, build: Build)
    requires ValidBuild(base, build)
    ensures build.base == base && DistinctNames(build.packages)
    ensures forall i :: 0 <= i < |build.packages| ==> Managed(base, build.packages[i].name)
  {
    hide PackageName, Managed;
    forall i, j | 0 <= i < j < |build.packages|
      ensures build.packages[i].name != build.packages[j].name
    {
      PackagesAreDistinct(base, i, j, build.run, build.attempt);
    }
    forall i | 0 <= i < |build.packages|
      ensures Managed(base, build.packages[i].name)
    {
      PackageIsManaged(base, i, build.run, build.attempt);
    }
  }

  /** The whole refresh: each call is safe where it is made, and what it leaves when it completes. */
  lemma RefreshSafe(site: string, base: string, h: Hosting, listing: seq<string>, build: Build)
    requires Inv(site, base, h) && ValidBuild(base, build)
    ensures var plan := RefreshPlan(site, h, listing, build);
            && SafeRun(site, base, h, plan.calls)
            && (plan.outcome.Ok? ==>
                  var after := ApplyAll(h, plan.calls);
                  && after.release == Some(Release(false, Some(BodyOf(site, build))))
                  && (forall i :: 0 <= i < |build.packages| ==> Matches(after.assets, build.packages[i]))
                  && forall name :: !Current(build, name) ==>
                       Lookup(after.assets, name) == if name in listing && Managed(base, name) then None else Lookup(h.assets, name))
  {
    hide Managed, Inv, SafeRun, ApplyAll, UploadPlan, CleanupCalls, ValidBuild, Refreshing, Cleaned;
    BuildNames(base, build);
    var create := if h.release.None? then [CreateDraft] else [];
    var draft := ApplyAll(h, create);
    DraftReady(site, base, h);
    NothingCalled(site, base, h);
    var uploads := UploadPlan(h.assets, build.packages);
    UploadsSafe(site, base, h.assets, h.nextId, draft, build.packages);
    SafeConcat(site, base, h, create, uploads.calls);
    if uploads.outcome.Ok? {
      var uploaded, body := ApplyAll(draft, uploads.calls), BodyOf(site, build);
      var cleanup := CleanupCalls(h.assets, listing, build);
      PatchSafe(site, base, h.assets, h.nextId, uploaded, build);
      var patched := Apply(uploaded, Patch(body));
      CleanupSafe(site, base, h.assets, h.nextId, patched, listing, build);
      FirstCall(site, base, uploaded, Patch(body), cleanup);
      SafeConcat(site, base, h, create + uploads.calls, [Patch(body)] + cleanup);
      assert RefreshPlan(site, h, listing, build).calls == create + uploads.calls + ([Patch(body)] + cleanup);
      AfterCleanup(base, h, patched, listing, build, ApplyAll(patched, cleanup));
    }
  }

  lemma DraftReady(site: string, base: string, h: Hosting)
    requires Inv(site, base, h)
    ensures var create := if h.release.None? then [CreateDraft] else [];
            && SafeRun(site, base, h, create)
            && Refreshing(site, base, h.assets, h.nextId, ApplyAll(h, create)) && ApplyAll(h, create).assets == h.assets
  {
    hide Managed, ValidBuild, Linked;
    NothingCalled(site, base, h);
    OneCall(site, base, h, CreateDraft);
  }

  lemma PatchSafe(site: string, base: string, listed: map<string, Asset>, bound: nat, h: Hosting, build: Build)
    requires Refreshing(site, base, listed, bound, h) && ValidBuild(base, build)
    requires forall i :: 0 <= i < |build.packages| ==> Matches(h.assets, build.packages[i])
    ensures var call := Patch(BodyOf(site, build));
            Safe(site, base, h, call) && Refreshing(site, base, listed, bound, Apply(h, call))
  {
    hide ValidBuild, Inv;
    SafeKeepsInv(site, base, h, Patch(BodyOf(site, build)));
  }

  lemma AfterCleanup(base: string, h: Hosting, patched: Hosting, listing: seq<string>, build: Build, after: Hosting)
    requires Cleaned(h.assets, listing, build, patched, after) && build.base == base
    requires forall name :: !Named(build.packages, name) ==> Lookup(patched.assets, name) == Lookup(h.assets, name)
    requires forall i :: 0 <= i < |build.packages| ==> Matches(patched.assets, build.packages[i])
    ensures forall i :: 0 <= i < |build.packages| ==> Matches(after.assets, build.packages[i])
    ensures forall name :: !Current(build, name) ==>
              Lookup(after.assets, name) == if name in listing && Managed(base, name) then None else Lookup(h.assets, name)
  {
    hide Managed;
    forall i | 0 <= i < |build.packages|
      ensures Matches(after.assets, build.packages[i])
    {
      assert Current(build, build.packages[i].name);
      assert !Obsolete(build, build.packages[i].name);
      MatchesAs(patched.assets, after.assets, build.packages[i]);
    }
  }

  // ----- the promises

  lemma StepKeepsInv(site: string, base: string, h: Hosting, e: Event)
    requires Inv(site, base, h)
    ensures Inv(site, base, Step(site, base, h, e))
    ensures e.Refresh? ==> KeepsForeign(base, h, Step(site, base, h, e))
  {
    hide Managed, PackageName, RefreshPlan, SafeRun, Stopped;
    match e
    case Refresh(build, listing, stop, left) =>
      if ValidBuild(base, build) {
        RefreshSafe(site, base, h, listing, build);
        SafeStopped(site, base, h, RefreshPlan(site, h, listing, build).calls, stop, left);
      }
    case _ =>
      if Published(h) {
        NeededIsManaged(site, base, h);
      }
  }

  lemma NeededIsManaged(site: string, base: string, h: Hosting)
    requires Inv(site, base, h) && Published(h)
    ensures forall i :: 0 <= i < |h.release.value.body.value.build.packages| ==>
              Managed(base, h.release.value.body.value.build.packages[i].name)
  {
    hide Managed;
    BuildNames(base, h.release.value.body.value.build);
  }

  lemma {:induction false} RunKeepsInv(site: string, base: string, h: Hosting, events: seq<Event>)
    requires Inv(site, base, h)
    ensures Inv(site, base, Run(site, base, h, events))
    decreases |events|
  {
    hide Inv, Step;
    if events != [] {
      RunKeepsInv(site, base, h, events[..|events| - 1]);
      StepKeepsInv(site, base, Run(site, base, h, events[..|events| - 1]), events[|events| - 1]);
    }
  }

  ghost const NOTHING_HOSTED: Hosting := Hosting(None, map[], 1)

  /** Whatever stopped and was run again: each link in the published text leads to its build's file. */
  lemma LinksAlwaysWork(site: string, base: string, events: seq<Event>, i: nat)
    requires Published(Run(site, base, NOTHING_HOSTED, events))
    requires i < |Run(site, base, NOTHING_HOSTED, events).release.value.body.value.links|
    ensures var h := Run(site, base, NOTHING_HOSTED, events);
            var body := h.release.value.body.value;
            && ValidBuild(base, body.build) && |body.links| == |body.build.packages|
            && body.links[i].url == DownloadUrl(site, base, body.build.packages[i].name)
            && Matches(h.assets, body.build.packages[i])
  {
    hide Run, ValidBuild;
    RunKeepsInv(site, base, NOTHING_HOSTED, events);
    BuildNames(base, Run(site, base, NOTHING_HOSTED, events).release.value.body.value.build);
  }

  /** A file that is not the publisher's is still the same after any refreshes, until its owner removes it. */
  lemma {:induction false} ForeignFilesSurvive(site: string, base: string, h: Hosting, events: seq<Event>, name: string)
    requires Inv(site, base, h) && name in h.assets && !Managed(base, name)
    requires RemoveFile(name) !in events
    ensures Lookup(Run(site, base, h, events).assets, name) == Some(h.assets[name])
    decreases |events|
  {
    hide Inv, Managed, ValidBuild, Stopped, RefreshPlan;
    if events != [] {
      var before, e := Run(site, base, h, events[..|events| - 1]), events[|events| - 1];
      ForeignFilesSurvive(site, base, h, events[..|events| - 1], name);
      RunKeepsInv(site, base, h, events[..|events| - 1]);
      StepKeepsInv(site, base, before, e);
      assert e != RemoveFile(name);
    }
  }

  /** A refresh completes exactly when no file of one of its names is there with other contents. */
  lemma {:induction false} UploadsCompleteIff(listed: map<string, Asset>, packages: seq<Package>)
    ensures UploadPlan(listed, packages).outcome.Ok? <==>
              forall i :: 0 <= i < |packages| ==> PackagePlan(listed, packages[i]).outcome.Ok?
    decreases |packages|
  {
    hide PackagePlan;
    if packages != [] {
      UploadsCompleteIff(listed, packages[1..]);
      assert forall i :: 0 < i < |packages| ==> packages[i] == packages[1..][i - 1];
    }
  }

  predicate Replaceable(listed: map<string, Asset>, p: Package) {
    p.name !in listed || (listed[p.name].starter && listed[p.name].size == 0) || Matches(listed, p)
  }

  lemma RefreshCompletesIff(site: string, h: Hosting, listing: seq<string>, build: Build)
    ensures RefreshPlan(site, h, listing, build).outcome.Ok? <==>
              forall i :: 0 <= i < |build.packages| ==> Replaceable(h.assets, build.packages[i])
  {
    hide UploadPlan, CleanupCalls;
    UploadsCompleteIff(h.assets, build.packages);
    forall i | 0 <= i < |build.packages|
      ensures PackagePlan(h.assets, build.packages[i]).outcome.Ok? <==> Replaceable(h.assets, build.packages[i])
    {}
  }

  /** A completed refresh publishes its build, keeps exactly its files among the publisher's, and has nothing left to upload. */
  lemma CompletedRefresh(site: string, base: string, h: Hosting, listing: seq<string>, again: seq<string>, build: Build)
    requires Inv(site, base, h) && ValidBuild(base, build) && RefreshPlan(site, h, listing, build).outcome.Ok?
    requires forall name :: name in listing <==> name in h.assets
    ensures var after := ApplyAll(h, RefreshPlan(site, h, listing, build).calls);
            && after.release == Some(Release(false, Some(BodyOf(site, build))))
            && (forall name :: Managed(base, name) ==> (name in after.assets <==> Current(build, name)))
            && (forall i :: 0 <= i < |build.packages| ==> Matches(after.assets, build.packages[i]))
            && KeepsForeign(base, h, after)
            && RefreshPlan(site, after, again, build) == Plan([Patch(BodyOf(site, build))], Ok(()))
  {
    hide Managed, Inv, ApplyAll, UploadPlan, SafeRun, CleanupCalls, RefreshPlan, PackageName;
    RefreshSafe(site, base, h, listing, build);
    var calls := RefreshPlan(site, h, listing, build).calls;
    var after := ApplyAll(h, calls);
    SafeStopped(site, base, h, calls, |calls|, None);
    BuildNames(base, build);
    forall name | Managed(base, name)
      ensures name in after.assets <==> Current(build, name)
    {
      if !Current(build, name) {
        assert Lookup(after.assets, name) == if name in listing then None else Lookup(h.assets, name);
      }
    }
    NothingToUpload(after.assets, build.packages);
    NothingToClean(after.assets, again, build);
    RetryPlan(site, after, again, build);
  }

  lemma RetryPlan(site: string, h: Hosting, listing: seq<string>, build: Build)
    requires h.release.Some? && UploadPlan(h.assets, build.packages) == Plan([], Ok(()))
    requires CleanupCalls(h.assets, listing, build) == []
    ensures RefreshPlan(site, h, listing, build) == Plan([Patch(BodyOf(site, build))], Ok(()))
  {
    hide UploadPlan, CleanupCalls;
  }

  lemma {:induction false} NothingToUpload(listed: map<string, Asset>, packages: seq<Package>)
    requires forall i :: 0 <= i < |packages| ==> Matches(listed, packages[i]) && packages[i].size > 0
    ensures UploadPlan(listed, packages) == Plan([], Ok(()))
    decreases |packages|
  {
    if packages != [] {
      NothingToUpload(listed, packages[1..]);
    }
  }

  lemma {:induction false} NothingToClean(listed: map<string, Asset>, listing: seq<string>, build: Build)
    requires forall name :: name in listed && Managed(build.base, name) ==> Current(build, name)
    ensures CleanupCalls(listed, listing, build) == []
    decreases |listing|
  {
    hide Managed, Current;
    if listing != [] {
      NothingToClean(listed, listing[1..], build);
    }
  }
}
