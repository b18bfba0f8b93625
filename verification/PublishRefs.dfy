/** Publishing build tags and moving the aliases, with publishers that race each other. */
module PublishRefs {
  import opened Text
  import opened BinaryMetadata

  /** A commit by its content; `manifest` is what its manifest file parses to, if it does. */
  datatype Commit = Commit(manifest: Option<Metadata>, tree: nat)

  type Refs = map<string, Commit>

  datatype PublishError =
    | ImmutableTagTaken
    | ManifestUnreadable
    | InvalidBuildMetadata
    | DifferentVersion
    | PushRejected
    | Interrupted

  /** An alias this push may move, provided it still is where it was read. */
  datatype Lease = Lease(alias: string, read: Option<Commit>)

  datatype Phase =
    | Idle
    | Read(view: Refs)
    | Leased(leases: seq<Lease>)
    | Published(updates: seq<string>)
    | Failed(error: PublishError)

  predicate Publishable(c: Commit) { c.manifest.Some? && ValidMetadata(c.manifest.value) }

  function Aliases(meta: Metadata): seq<string> { [VersionTag(meta), LATEST] }

  // ----- reading, comparing, pushing

  function LeaseFor(alias: string, meta: Metadata, view: Refs): Result<Option<Lease>, PublishError> {
    if alias !in view then Ok(Some(Lease(alias, None)))
    else if view[alias].manifest.None? then Err(ManifestUnreadable)
    else
      var previous := view[alias].manifest.value;
      if !ValidMetadata(previous) then Err(InvalidBuildMetadata)
      else if alias == VersionTag(meta) && VersionBase(previous.version) != VersionBase(meta.version) then Err(DifferentVersion)
      else if Earlier(meta, previous) then Ok(None)
      else Ok(Some(Lease(alias, Some(view[alias]))))
  }

  function LeasesFor(aliases: seq<string>, meta: Metadata, view: Refs): Result<seq<Lease>, PublishError> {
    if aliases == [] then Ok([])
    else
      var before := LeasesFor(aliases[..|aliases| - 1], meta, view);
      if before.Err? then before
      else
        match LeaseFor(aliases[|aliases| - 1], meta, view)
        case Err(e) => Err(e)
        case Ok(None) => before
        case Ok(Some(lease)) => Ok(before.value + [lease])
  }

  function Compare(commit: Commit, view: Refs): (phase: Phase)
    requires commit.manifest.Some?
    ensures phase.Leased? || phase.Failed?
  {
    var meta := commit.manifest.value;
    if meta.tag in view && view[meta.tag] != commit then Failed(ImmutableTagTaken)
    else
      match LeasesFor(Aliases(meta), meta, view)
      case Ok(leases) => Leased(leases)
      case Err(e) => Failed(e)
  }

  /** A leased alias is where it was read, or already names the pushed commit. */
  predicate LeaseHolds(refs: Refs, commit: Commit, lease: Lease) {
    Lookup(refs, lease.alias) == lease.read || Lookup(refs, lease.alias) == Some(commit)
  }

  /** The server takes the whole push or none of it. */
  predicate PushAccepted(refs: Refs, commit: Commit, leases: seq<Lease>)
    requires commit.manifest.Some?
  {
    && Lookup(refs, commit.manifest.value.tag) in {None, Some(commit)}
    && forall i :: 0 <= i < |leases| ==> LeaseHolds(refs, commit, leases[i])
  }

  function Names(leases: seq<Lease>): (names: seq<string>)
    ensures |names| == |leases|
    ensures forall i :: 0 <= i < |leases| ==> names[i] == leases[i].alias
  {
    seq(|leases|, i requires 0 <= i < |leases| => leases[i].alias)
  }

  function PushedRefs(refs: Refs, commit: Commit, leases: seq<Lease>): Refs
    requires commit.manifest.Some?
  {
    refs + map name | name in [commit.manifest.value.tag] + Names(leases) :: commit
  }

  function Push(refs: Refs, commit: Commit, leases: seq<Lease>): (Refs, Phase)
    requires commit.manifest.Some?
  {
    if PushAccepted(refs, commit, leases) then (PushedRefs(refs, commit, leases), Published(Names(leases)))
    else (refs, Failed(PushRejected))
  }

  /** The next step of a publisher. Its metadata is validated before anything is read. */
  function Act(refs: Refs, commit: Commit, phase: Phase): (Refs, Phase)
    requires commit.manifest.Some?
  {
    match phase
    case Idle => if ValidMetadata(commit.manifest.value) then (refs, Read(refs)) else (refs, Failed(InvalidBuildMetadata))
    case Read(view) => (refs, Compare(commit, view))
    case Leased(leases) => Push(refs, commit, leases)
    case _ => (refs, phase)
  }

  // ----- racing publishers

  datatype Publisher = Publisher(commit: Commit, phase: Phase)

  datatype World = World(refs: Refs, publishers: seq<Publisher>)

  /** A publisher acts, acts without hearing the answer, stops anywhere, or starts again. */
  datatype Event =
    | Acts(who: nat)
    | Unanswered(who: nat)
    | Stops(who: nat)
    | Restarts(who: nat)

  function Step(w: World, e: Event): World {
    if e.who >= |w.publishers| || w.publishers[e.who].commit.manifest.None? then w
    else
      var p := w.publishers[e.who];
      var (refs, phase) := Act(w.refs, p.commit, p.phase);
      match e
      case Acts(who) => World(refs, w.publishers[who := p.(phase := phase)])
      case Unanswered(who) => World(refs, w.publishers[who := p.(phase := Failed(Interrupted))])
      case Stops(who) => w.(publishers := w.publishers[who := p.(phase := Failed(Interrupted))])
      case Restarts(who) => w.(publishers := w.publishers[who := p.(phase := Idle)])
  }

  function Run(w: World, events: seq<Event>): World
    decreases |events|
  {
    if events == [] then w else Step(Run(w, events[..|events| - 1]), events[|events| - 1])
  }

  // ----- what every run keeps

  predicate AtLeast(c: Commit, meta: Metadata) { Publishable(c) && !Earlier(c.manifest.value, meta) }

  /** The same commit, or a build that is not earlier. */
  predicate NotRewound(before: Commit, after: Commit) {
    before == after || (Publishable(before) && AtLeast(after, before.manifest.value))
  }

  /** No name goes away, aliases only move forward, every other name stays put. */
  ghost predicate Advances(before: Refs, after: Refs) {
    forall name :: name in before ==>
      name in after && if IsAlias(name) then NotRewound(before[name], after[name]) else after[name] == before[name]
  }

  lemma AdvancesAgain(a: Refs, b: Refs, c: Refs)
    requires Advances(a, b) && Advances(b, c)
    ensures Advances(a, c)
  {
    hide IsAlias, ValidMetadata;
  }

  ghost predicate LeaseFits(lease: Lease, meta: Metadata) {
    && lease.alias in Aliases(meta)
    && (lease.read.Some? ==> Publishable(lease.read.value) && !Earlier(meta, lease.read.value.manifest.value))
  }

  ghost predicate Covers(refs: Refs, alias: string, meta: Metadata) { alias in refs && AtLeast(refs[alias], meta) }

  ghost predicate Outrun(view: Refs, alias: string, meta: Metadata) {
    alias in view && Publishable(view[alias]) && Earlier(meta, view[alias].manifest.value)
  }

  ghost predicate Leases(leases: seq<Lease>, alias: string) { exists i :: 0 <= i < |leases| && leases[i].alias == alias }

  /** What a publisher in flight may rely on, whatever the others do. */
  ghost predicate Sound(refs: Refs, p: Publisher) {
    match p.phase
    case Read(view) => Publishable(p.commit) && Advances(view, refs)
    case Leased(leases) =>
      && Publishable(p.commit)
      && (forall i :: 0 <= i < |leases| ==> LeaseFits(leases[i], p.commit.manifest.value))
      && Distinct(Names(leases))
      && (forall alias :: alias in Aliases(p.commit.manifest.value) ==>
            Leases(leases, alias) || Outrun(refs, alias, p.commit.manifest.value))
    case Published(updates) =>
      && Publishable(p.commit)
      && Lookup(refs, p.commit.manifest.value.tag) == Some(p.commit)
      && Distinct(updates) && (forall alias :: alias in updates ==> alias in Aliases(p.commit.manifest.value))
      && (forall alias :: alias in Aliases(p.commit.manifest.value) ==>
            if alias in updates then Covers(refs, alias, p.commit.manifest.value)
            else Outrun(refs, alias, p.commit.manifest.value))
    case _ => true
  }

  ghost predicate Inv(w: World) { forall i :: 0 <= i < |w.publishers| ==> Sound(w.refs, w.publishers[i]) }

  lemma OutrunIsCovered(view: Refs, meta: Metadata)
    ensures forall alias :: Outrun(view, alias, meta) ==> Covers(view, alias, meta)
  {}

  /** An earlier build stays behind. */
  lemma OutrunLater(before: Refs, after: Refs, alias: string, meta: Metadata)
    requires Advances(before, after) && IsAlias(alias) && Outrun(before, alias, meta)
    ensures Outrun(after, alias, meta)
  {
    hide IsAlias, ValidMetadata;
  }

  lemma CoversLater(before: Refs, after: Refs, alias: string, meta: Metadata)
    requires Advances(before, after) && IsAlias(alias) && Covers(before, alias, meta)
    ensures Covers(after, alias, meta)
  {
    hide IsAlias, ValidMetadata;
  }

  lemma AliasesAreAliases(meta: Metadata)
    requires ValidMetadata(meta)
    ensures forall alias :: alias in Aliases(meta) ==> IsAlias(alias)
    ensures Distinct(Aliases(meta))
  {
    hide ValidMetadata;
    VersionTagIsAlias(meta);
  }

  lemma SoundLater(before: Refs, after: Refs, p: Publisher)
    requires Advances(before, after) && Sound(before, p)
    ensures Sound(after, p)
  {
    hide IsAlias, ValidMetadata, Advances, LeaseFits, Covers, Outrun, Aliases;
    match p.phase
    case Read(view) => AdvancesAgain(view, before, after);
    case Leased(leases) =>
      AliasesAreAliases(p.commit.manifest.value);
      forall alias | alias in Aliases(p.commit.manifest.value) && !Leases(leases, alias)
        ensures Outrun(after, alias, p.commit.manifest.value)
      {
        OutrunLater(before, after, alias, p.commit.manifest.value);
      }
    case Published(updates) =>
      AliasesAreAliases(p.commit.manifest.value);
      BuildTagIsNoAlias(p.commit.manifest.value);
      TagStays(before, after, p.commit.manifest.value.tag);
      forall alias | alias in Aliases(p.commit.manifest.value)
        ensures if alias in updates then Covers(after, alias, p.commit.manifest.value)
                else Outrun(after, alias, p.commit.manifest.value)
      {
        if alias in updates {
          CoversLater(before, after, alias, p.commit.manifest.value);
        } else {
          OutrunLater(before, after, alias, p.commit.manifest.value);
        }
      }
    case _ =>
  }

  lemma TagStays(before: Refs, after: Refs, name: string)
    requires Advances(before, after) && !IsAlias(name) && name in before
    ensures Lookup(after, name) == Some(before[name])
  {
    hide IsAlias;
  }

  // ----- one step

  lemma {:induction false} LeasesFit(aliases: seq<string>, meta: Metadata, view: Refs)
    requires LeasesFor(aliases, meta, view).Ok?
    requires forall alias :: alias in aliases ==> alias in Aliases(meta)
    ensures var leases := LeasesFor(aliases, meta, view).value;
            && (forall i :: 0 <= i < |leases| ==> LeaseFits(leases[i], meta))
            && (forall i :: 0 <= i < |leases| ==> leases[i].alias in aliases && leases[i].read == Lookup(view, leases[i].alias))
            && (forall alias :: alias in aliases ==> Leases(leases, alias) || Outrun(view, alias, meta))
            && (Distinct(aliases) ==> Distinct(Names(leases)))
  {
    hide ValidMetadata, Aliases;
    if aliases != [] {
      var n := |aliases| - 1;
      LeasesFit(aliases[..n], meta, view);
      var before, leases := LeasesFor(aliases[..n], meta, view).value, LeasesFor(aliases, meta, view).value;
      forall alias | alias in aliases
        ensures Leases(leases, alias) || Outrun(view, alias, meta)
      {
        if alias in aliases[..n] && Leases(before, alias) {
          var i :| 0 <= i < |before| && before[i].alias == alias;
          assert leases[i] == before[i];
        } else if alias == aliases[n] && |leases| > |before| {
          assert leases[|before|].alias == alias;
        }
      }
    }
  }

  lemma PushAdvances(refs: Refs, commit: Commit, leases: seq<Lease>)
    requires Sound(refs, Publisher(commit, Leased(leases)))
    requires PushAccepted(refs, commit, leases)
    ensures Advances(refs, PushedRefs(refs, commit, leases))
    ensures Sound(PushedRefs(refs, commit, leases), Publisher(commit, Published(Names(leases))))
  {
    hide IsAlias, ValidMetadata, Aliases, PushedRefs;
    var meta, after := commit.manifest.value, PushedRefs(refs, commit, leases);
    BuildTagIsNoAlias(meta);
    AliasesAreAliases(meta);
    Moved(refs, commit, leases);
    forall name | name in refs
      ensures name in after && if IsAlias(name) then NotRewound(refs[name], after[name]) else after[name] == refs[name]
    {
      assert Lookup(after, name).Some?;
      if name != meta.tag && Leases(leases, name) {
        var i :| 0 <= i < |leases| && leases[i].alias == name;
        assert LeaseFits(leases[i], meta) && LeaseHolds(refs, commit, leases[i]);
      }
    }
  }

  lemma ActAdvances(refs: Refs, p: Publisher)
    requires p.commit.manifest.Some? && Sound(refs, p)
    ensures var (after, phase) := Act(refs, p.commit, p.phase);
            Advances(refs, after) && Sound(after, p.(phase := phase))
  {
    hide IsAlias, ValidMetadata, Aliases, Advances, PushAccepted, PushedRefs, LeaseFits, Covers, Outrun;
    Unmoved(refs);
    match p.phase
    case Read(view) =>
      var meta := p.commit.manifest.value;
      AliasesAreAliases(meta);
      if LeasesFor(Aliases(meta), meta, view).Ok? {
        LeasesFit(Aliases(meta), meta, view);
        var leases := LeasesFor(Aliases(meta), meta, view).value;
        forall alias | alias in Aliases(meta) && !Leases(leases, alias)
          ensures Outrun(refs, alias, meta)
        {
          OutrunLater(view, refs, alias, meta);
        }
      }
    case Leased(leases) =>
      if PushAccepted(refs, p.commit, leases) {
        PushAdvances(refs, p.commit, leases);
      }
    case _ =>
  }

  lemma Unmoved(refs: Refs)
    ensures Advances(refs, refs)
  {
    hide IsAlias, ValidMetadata;
  }

  lemma StepKeepsInv(w: World, e: Event)
    requires Inv(w)
    ensures Inv(Step(w, e)) && Advances(w.refs, Step(w, e).refs)
  {
    hide Act, Advances, Sound;
    Unmoved(w.refs);
    if e.who < |w.publishers| && w.publishers[e.who].commit.manifest.Some? {
      var p := w.publishers[e.who];
      ActAdvances(w.refs, p);
      StoppedIsSound(Step(w, e).refs, p.commit);
      forall i | 0 <= i < |w.publishers| && i != e.who
        ensures Sound(Step(w, e).refs, w.publishers[i])
      {
        SoundLater(w.refs, Step(w, e).refs, w.publishers[i]);
      }
    }
  }

  lemma StoppedIsSound(refs: Refs, commit: Commit)
    ensures Sound(refs, Publisher(commit, Idle)) && Sound(refs, Publisher(commit, Failed(Interrupted)))
  {}

  /** From publishers that have not begun, or are anywhere a run can leave them. */
  lemma {:induction false} RunAdvances(w: World, events: seq<Event>)
    requires Inv(w)
    ensures Inv(Run(w, events)) && Advances(w.refs, Run(w, events).refs)
    decreases |events|
  {
    hide Step, Advances, Inv;
    Unmoved(w.refs);
    if events != [] {
      var before := Run(w, events[..|events| - 1]);
      RunAdvances(w, events[..|events| - 1]);
      StepKeepsInv(before, events[|events| - 1]);
      AdvancesAgain(w.refs, before.refs, Run(w, events).refs);
    }
  }

  lemma {:induction false} RunSplits(w: World, a: seq<Event>, b: seq<Event>)
    ensures Run(w, a + b) == Run(Run(w, a), b)
    decreases |b|
  {
    hide Step;
    if b == [] {
      assert a + b == a;
    } else {
      RunSplits(w, a, b[..|b| - 1]);
      assert (a + b)[..|a + b| - 1] == a + b[..|b| - 1];
    }
  }

  // ----- the promises

  ghost predicate NotBegun(w: World) { forall i :: 0 <= i < |w.publishers| ==> w.publishers[i].phase.Idle? }

  /** Between any two moments of any run, an alias never names an earlier build than it did. */
  lemma AliasesNeverRewind(w: World, events: seq<Event>, i: nat, j: nat, alias: string)
    requires NotBegun(w) && i <= j <= |events| && IsAlias(alias)
    requires alias in Run(w, events[..i]).refs
    ensures alias in Run(w, events[..j]).refs
    ensures NotRewound(Run(w, events[..i]).refs[alias], Run(w, events[..j]).refs[alias])
  {
    hide IsAlias, NotRewound, Run;
    RunAdvances(w, events[..i]);
    RunAdvances(Run(w, events[..i]), events[i..j]);
    RunSplits(w, events[..i], events[i..j]);
    assert events[..i] + events[i..j] == events[..j];
  }

  /** Any other name, and so every build tag, stays where it was first put. */
  lemma TagsNeverMove(w: World, events: seq<Event>, i: nat, j: nat, tag: string)
    requires NotBegun(w) && i <= j <= |events| && !IsAlias(tag)
    requires tag in Run(w, events[..i]).refs
    ensures Lookup(Run(w, events[..j]).refs, tag) == Some(Run(w, events[..i]).refs[tag])
  {
    hide IsAlias, Run;
    RunAdvances(w, events[..i]);
    RunAdvances(Run(w, events[..i]), events[i..j]);
    RunSplits(w, events[..i], events[i..j]);
    assert events[..i] + events[i..j] == events[..j];
  }

  /** Every publication that succeeded keeps its tag, and both its aliases are at least as new. */
  lemma NewestBuildWins(w: World, events: seq<Event>, i: nat)
    requires NotBegun(w) && i < |Run(w, events).publishers|
    requires Run(w, events).publishers[i].phase.Published?
    ensures var p, refs := Run(w, events).publishers[i], Run(w, events).refs;
            && Publishable(p.commit)
            && Lookup(refs, p.commit.manifest.value.tag) == Some(p.commit)
            && Covers(refs, VersionTag(p.commit.manifest.value), p.commit.manifest.value)
            && Covers(refs, LATEST, p.commit.manifest.value)
  {
    hide ValidMetadata, Covers, Outrun, Run;
    RunAdvances(w, events);
    OutrunIsCovered(Run(w, events).refs, Run(w, events).publishers[i].commit.manifest.value);
    var p := Run(w, events).publishers[i];
    assert Sound(Run(w, events).refs, p);
    assert VersionTag(p.commit.manifest.value) in Aliases(p.commit.manifest.value);
    assert LATEST in Aliases(p.commit.manifest.value);
  }

  /** A push that succeeds in a run reports, each once, exactly the aliases that name its commit then. It moves those
      and its tag, and nothing else; an alias it does not report names a later build. */
  lemma ReportsWhatMoved(w: World, events: seq<Event>, i: nat)
    requires NotBegun(w) && i < |Run(w, events).publishers| && Run(w, events).publishers[i].phase.Leased?
    requires Run(w, events + [Acts(i)]).publishers[i].phase.Published?
    ensures var before, after := Run(w, events).refs, Run(w, events + [Acts(i)]).refs;
            var p := Run(w, events + [Acts(i)]).publishers[i];
            && Publishable(p.commit) && Distinct(p.phase.updates)
            && (forall alias :: alias in p.phase.updates <==>
                  alias in Aliases(p.commit.manifest.value) && Lookup(after, alias) == Some(p.commit))
            && (forall alias :: alias in Aliases(p.commit.manifest.value) && alias !in p.phase.updates ==>
                  Outrun(after, alias, p.commit.manifest.value))
            && (forall name :: name !in p.phase.updates && name != p.commit.manifest.value.tag ==>
                  Lookup(after, name) == Lookup(before, name))
  {
    hide ValidMetadata, Covers, Outrun, Run, PushAccepted, PushedRefs, LeaseFits;
    var now, next := Run(w, events), Run(w, events + [Acts(i)]);
    RunAdvances(w, events);
    RunAdvances(w, events + [Acts(i)]);
    RunOneMore(w, events, Acts(i));
    var p := now.publishers[i];
    assert Sound(now.refs, p) && Sound(next.refs, next.publishers[i]);
    Moved(now.refs, p.commit, p.phase.leases);
    NamesAre(p.phase.leases);
    var meta := p.commit.manifest.value;
    forall alias | alias in Aliases(meta) && alias !in Names(p.phase.leases)
      ensures Lookup(next.refs, alias) != Some(p.commit)
    {
      OutrunIsOther(next.refs, alias, p.commit);
    }
  }

  lemma RunOneMore(w: World, events: seq<Event>, e: Event)
    ensures Run(w, events + [e]) == Step(Run(w, events), e)
  {
    assert (events + [e])[..|events|] == events;
  }

  lemma NamesAre(leases: seq<Lease>)
    ensures forall alias :: alias in Names(leases) <==> Leases(leases, alias)
  {
    forall alias
      ensures alias in Names(leases) <==> Leases(leases, alias)
    {
      if Leases(leases, alias) {
        var i :| 0 <= i < |leases| && leases[i].alias == alias;
        assert Names(leases)[i] == alias;
      }
    }
  }

  lemma OutrunIsOther(refs: Refs, alias: string, commit: Commit)
    requires commit.manifest.Some? && Outrun(refs, alias, commit.manifest.value)
    ensures refs[alias] != commit
  {}

  /** An alias names a commit that its own build tag names too; a version alias names that version. */
  ghost predicate BackedAlias(refs: Refs, alias: string)
    requires alias in refs
  {
    && Publishable(refs[alias])
    && Lookup(refs, refs[alias].manifest.value.tag) == Some(refs[alias])
    && (alias != LATEST ==> alias == VersionTag(refs[alias].manifest.value))
  }

  ghost predicate Backed(refs: Refs) { forall alias :: alias in refs && IsAlias(alias) ==> BackedAlias(refs, alias) }

  lemma PushKeepsBacked(refs: Refs, commit: Commit, leases: seq<Lease>)
    requires Sound(refs, Publisher(commit, Leased(leases))) && Backed(refs)
    requires PushAccepted(refs, commit, leases)
    ensures Backed(PushedRefs(refs, commit, leases))
  {
    hide IsAlias, ValidMetadata, Advances;
    var meta, after := commit.manifest.value, PushedRefs(refs, commit, leases);
    PushAdvances(refs, commit, leases);
    BuildTagIsNoAlias(meta);
    forall alias | alias in after && IsAlias(alias)
      ensures BackedAlias(after, alias)
    {
      if Leases(leases, alias) {
        var i :| 0 <= i < |leases| && leases[i].alias == alias;
        assert LeaseFits(leases[i], meta);
      } else {
        assert BackedAlias(refs, alias);
        var named := refs[alias].manifest.value;
        BuildTagIsNoAlias(named);
        TagStays(refs, after, named.tag);
      }
    }
  }

  lemma {:induction false} AliasesAreBacked(w: World, events: seq<Event>)
    requires Inv(w) && Backed(w.refs)
    ensures Backed(Run(w, events).refs)
    decreases |events|
  {
    hide ValidMetadata, Backed, Sound, PushAccepted, PushedRefs, Compare;
    if events != [] {
      AliasesAreBacked(w, events[..|events| - 1]);
      RunAdvances(w, events[..|events| - 1]);
      var before, e := Run(w, events[..|events| - 1]), events[|events| - 1];
      if e.who < |before.publishers| && before.publishers[e.who].phase.Leased? && before.publishers[e.who].commit.manifest.Some? {
        var p := before.publishers[e.who];
        if PushAccepted(before.refs, p.commit, p.phase.leases) {
          PushKeepsBacked(before.refs, p.commit, p.phase.leases);
        }
      }
    }
  }

  /** With no publisher between, a new build of a backed repository is published, and is the latest unless a newer one is. */
  lemma UncontendedPublish(refs: Refs, commit: Commit)
    requires Publishable(commit) && Backed(refs)
    requires Lookup(refs, commit.manifest.value.tag) in {None, Some(commit)}
    ensures var meta, leased := commit.manifest.value, Compare(commit, refs);
            && leased.Leased?
            && PushAccepted(refs, commit, leased.leases)
            && var after := PushedRefs(refs, commit, leased.leases);
            && Lookup(after, meta.tag) == Some(commit)
            && (forall alias :: alias in Aliases(meta) ==>
                  Lookup(after, alias) == if Outrun(refs, alias, meta) then Lookup(refs, alias) else Some(commit))
            && (forall name :: name != meta.tag && name !in Aliases(meta) ==> Lookup(after, name) == Lookup(refs, name))
  {
    hide ValidMetadata, LeasesFor, Aliases, Outrun, PushedRefs;
    var meta := commit.manifest.value;
    AliasesAreAliases(meta);
    BuildTagIsNoAlias(meta);
    BackedIsLeased(refs, VersionTag(meta), meta);
    BackedIsLeased(refs, LATEST, meta);
    BothLeased(meta, refs);
    LeasesFit(Aliases(meta), meta, refs);
    var leases := LeasesFor(Aliases(meta), meta, refs).value;
    Moved(refs, commit, leases);
    forall alias | alias in Aliases(meta) && Leases(leases, alias)
      ensures !Outrun(refs, alias, meta)
    {
      var i :| 0 <= i < |leases| && leases[i].alias == alias;
      NotOutrun(refs, leases[i], meta);
    }
  }

  /** What a push made right after reading reports. */
  lemma LeasedAreNotOutrun(refs: Refs, meta: Metadata)
    requires ValidMetadata(meta) && LeasesFor(Aliases(meta), meta, refs).Ok?
    ensures var names := Names(LeasesFor(Aliases(meta), meta, refs).value);
            && Distinct(names)
            && forall alias :: alias in names <==> alias in Aliases(meta) && !Outrun(refs, alias, meta)
  {
    hide ValidMetadata, LeasesFor, Aliases, Outrun;
    AliasesAreAliases(meta);
    LeasesFit(Aliases(meta), meta, refs);
    var leases := LeasesFor(Aliases(meta), meta, refs).value;
    NamesAre(leases);
    forall alias | Leases(leases, alias)
      ensures !Outrun(refs, alias, meta)
    {
      var i :| 0 <= i < |leases| && leases[i].alias == alias;
      NotOutrun(refs, leases[i], meta);
    }
  }

  lemma NotOutrun(view: Refs, lease: Lease, meta: Metadata)
    requires LeaseFits(lease, meta) && lease.read == Lookup(view, lease.alias)
    ensures !Outrun(view, lease.alias, meta)
  {}

  /** What a push writes, and that it writes nothing else. */
  lemma Moved(refs: Refs, commit: Commit, leases: seq<Lease>)
    requires commit.manifest.Some?
    ensures forall name ::
              Lookup(PushedRefs(refs, commit, leases), name)
              == if name == commit.manifest.value.tag || Leases(leases, name) then Some(commit) else Lookup(refs, name)
  {
    NamesAre(leases);
  }

  lemma BackedIsLeased(refs: Refs, alias: string, meta: Metadata)
    requires ValidMetadata(meta) && Backed(refs) && alias in {VersionTag(meta), LATEST}
    ensures LeaseFor(alias, meta, refs).Ok?
  {
    hide IsAlias, ValidMetadata;
    VersionTagIsAlias(meta);
    assert IsAlias(LATEST) by { LatestIsAlias(); }
    if alias in refs {
      assert BackedAlias(refs, alias);
      if alias == VersionTag(meta) {
        SameVersion(meta, refs[alias].manifest.value);
      }
    }
  }

  lemma LatestIsAlias()
    ensures IsAlias(LATEST)
  {}

  lemma BothLeased(meta: Metadata, view: Refs)
    requires LeaseFor(VersionTag(meta), meta, view).Ok? && LeaseFor(LATEST, meta, view).Ok?
    ensures LeasesFor(Aliases(meta), meta, view).Ok?
  {
    hide LeaseFor;
    var first := Aliases(meta)[..1];
    assert first == [VersionTag(meta)] && first[..0] == [];
    assert LeasesFor(first, meta, view).Ok?;
  }

  lemma SameVersion(a: Metadata, b: Metadata)
    requires VersionTag(a) == VersionTag(b)
    ensures VersionBase(a.version) == VersionBase(b.version)
  {
    var n := |VERSION_PREFIX|;
    assert VersionTag(a)[n..] == VersionBase(a.version) && VersionTag(b)[n..] == VersionBase(b.version);
  }
}
