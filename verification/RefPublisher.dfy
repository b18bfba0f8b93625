/** The publisher and the repository it pushes to, step by step. */
module RefPublisher {
  import opened Text
  import opened BinaryMetadata
  import opened PublishRefs

  class Repository {
    var refs: Refs

    constructor (refs: Refs)
      ensures this.refs == refs
    {
      this.refs := refs;
    }

    /** One transaction: every update is checked before any is made. */
    method PushAtomic(commit: Commit, leases: seq<Lease>) returns (accepted: bool)
      requires commit.manifest.Some?
      modifies this
      ensures accepted == PushAccepted(old(refs), commit, leases)
      ensures refs == if accepted then PushedRefs(old(refs), commit, leases) else old(refs)
    {
      hide LeaseHolds, PushedRefs;
      var tag := commit.manifest.value.tag;
      if tag in refs && refs[tag] != commit {
        return false;
      }
      for i := 0 to |leases|
        invariant forall j :: 0 <= j < i ==> LeaseHolds(refs, commit, leases[j])
      {
        if !LeaseHolds(refs, commit, leases[i]) {
          return false;
        }
      }
      ghost var before := refs;
      refs := refs[tag := commit];
      PushedTag(before, commit);
      for i := 0 to |leases|
        invariant refs == PushedRefs(before, commit, leases[..i])
      {
        PushedOneMore(before, commit, leases, i);
        refs := refs[leases[i].alias := commit];
      }
      assert leases[..|leases|] == leases;
      return true;
    }
  }

  class RefsPublisher {
    const commit: Commit
    var phase: Phase

    ghost predicate Valid() { commit.manifest.Some? }

    constructor (commit: Commit)
      requires commit.manifest.Some?
      ensures Valid() && this.commit == commit && phase == Idle
    {
      this.commit, phase := commit, Idle;
    }

    /** Validates the build's metadata, then lists the refs. */
    method ReadRefs(repository: Repository)
      requires Valid() && phase.Idle?
      modifies this
      ensures (repository.refs, phase) == Act(repository.refs, commit, old(phase))
    {
      phase := if ValidMetadata(commit.manifest.value) then Read(repository.refs) else Failed(InvalidBuildMetadata);
    }

    /** Goes through the aliases, keeping a lease on each that this build may move. */
    method CompareRefs()
      requires Valid() && phase.Read?
      modifies this
      ensures phase == Compare(commit, old(phase).view)
    {
      hide LeaseFor;
      var meta, view := commit.manifest.value, phase.view;
      if meta.tag in view && view[meta.tag] != commit {
        phase := Failed(ImmutableTagTaken);
        return;
      }
      var aliases := Aliases(meta);
      var leases := [];
      for i := 0 to |aliases|
        invariant LeasesFor(aliases[..i], meta, view) == Ok(leases)
      {
        assert aliases[..i + 1][..i] == aliases[..i];
        ComparisonStops(aliases, meta, view, i + 1);
        var lease := LeaseFor(aliases[i], meta, view);
        if lease.Err? {
          phase := Failed(lease.error);
          return;
        }
        if lease.value.Some? {
          leases := leases + [lease.value.value];
        }
      }
      assert aliases[..|aliases|] == aliases;
      phase := Leased(leases);
    }

    method PushRefs(repository: Repository)
      requires Valid() && phase.Leased?
      modifies this, repository
      ensures (repository.refs, phase) == Act(old(repository.refs), commit, old(phase))
    {
      var leases := phase.leases;
      var accepted := repository.PushAtomic(commit, leases);
      phase := if accepted then Published(Names(leases)) else Failed(PushRejected);
    }

    /** The whole publication, with no other publisher between its steps. */
    method PublishBuild(repository: Repository) returns (r: Result<seq<string>, PublishError>)
      requires Valid() && phase.Idle?
      modifies this, repository
      ensures Publishable(commit) && Backed(old(repository.refs))
              && Lookup(old(repository.refs), commit.manifest.value.tag) in {None, Some(commit)} ==>
                && r.Ok?
                && forall name ::
                     Lookup(repository.refs, name)
                     == if name == commit.manifest.value.tag
                           || (name in Aliases(commit.manifest.value) && !Outrun(old(repository.refs), name, commit.manifest.value))
                        then Some(commit) else Lookup(old(repository.refs), name)
      ensures r.Err? ==> repository.refs == old(repository.refs)
      ensures r.Ok? ==>
                && Distinct(r.value)
                && (forall alias :: alias in r.value <==>
                      alias in Aliases(commit.manifest.value) && !Outrun(old(repository.refs), alias, commit.manifest.value))
                && forall name ::
                     Lookup(repository.refs, name)
                     == if name == commit.manifest.value.tag || name in r.value then Some(commit)
                        else Lookup(old(repository.refs), name)
    {
      hide ValidMetadata, Backed, Outrun, Aliases, LeasesFor, PushedRefs, Compare;
      if ValidMetadata(commit.manifest.value) && Backed(repository.refs)
         && Lookup(repository.refs, commit.manifest.value.tag) in {None, Some(commit)} {
        UncontendedPublish(repository.refs, commit);
      }
      ReadRefs(repository);
      if phase.Failed? {
        return Err(phase.error);
      }
      CompareRefs();
      if phase.Failed? {
        return Err(phase.error);
      }
      ComparedIsLeased(commit, repository.refs);
      LeasedAreNotOutrun(repository.refs, commit.manifest.value);
      Moved(repository.refs, commit, phase.leases);
      NamesAre(phase.leases);
      PushRefs(repository);
      return if phase.Failed? then Err(phase.error) else Ok(phase.updates);
    }
  }

  lemma ComparedIsLeased(commit: Commit, view: Refs)
    requires commit.manifest.Some? && Compare(commit, view).Leased?
    ensures LeasesFor(Aliases(commit.manifest.value), commit.manifest.value, view) == Ok(Compare(commit, view).leases)
  {
    hide LeasesFor;
  }

  lemma PushedTag(refs: Refs, commit: Commit)
    requires commit.manifest.Some?
    ensures PushedRefs(refs, commit, []) == refs[commit.manifest.value.tag := commit]
  {}

  lemma PushedOneMore(refs: Refs, commit: Commit, leases: seq<Lease>, i: nat)
    requires commit.manifest.Some? && i < |leases|
    ensures PushedRefs(refs, commit, leases[..i + 1]) == PushedRefs(refs, commit, leases[..i])[leases[i].alias := commit]
  {
    assert Names(leases[..i + 1]) == Names(leases[..i]) + [leases[i].alias];
  }

  lemma {:induction false} ComparisonStops(aliases: seq<string>, meta: Metadata, view: Refs, i: nat)
    requires i <= |aliases|
    ensures LeasesFor(aliases[..i], meta, view).Err? ==> LeasesFor(aliases, meta, view) == LeasesFor(aliases[..i], meta, view)
    decreases |aliases| - i
  {
    hide LeaseFor;
    if i == |aliases| {
      assert aliases[..i] == aliases;
    } else {
      ComparisonStops(aliases, meta, view, i + 1);
      assert aliases[..i + 1][..i] == aliases[..i];
    }
  }
}
