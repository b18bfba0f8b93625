/** The metadata, names and refusals of a publication, spelled out. */
module PublicationRules {
  import opened Text
  import opened Numerals
  import opened BinaryMetadata
  import opened PublishRefs
  import ReleaseRefresh

  // ----- versions

  lemma {:induction false} NumeralOfValue(s: string)
    requires IsNumericPart(s)
    ensures Decimal(DecimalValue(s)) == s
    decreases |s|
  {
    var n := |s| - 1;
    var last := s[n];
    if n == 0 {
      assert s[..0] == "" && s == [last];
    } else {
      var front := s[..n];
      assert forall i :: 0 <= i < n ==> front[i] == s[i];
      NumeralOfValue(front);
      ValueIsPositive(front);
      var d := (last - '0') as int;
      assert DecimalValue(s) == 10 * DecimalValue(front) + d;
      assert s == front + [last];
    }
  }

  lemma {:induction false} ValueIsPositive(s: string)
    requires IsNumericPart(s) && s[0] != '0'
    ensures DecimalValue(s) > 0
    decreases |s|
  {
    if |s| > 1 {
      var front := s[..|s| - 1];
      assert forall i :: 0 <= i < |front| ==> front[i] == s[i];
      ValueIsPositive(front);
    } else {
      assert s[..0] == "";
    }
  }

  lemma DecimalIsNumeric(n: nat)
    ensures IsNumericPart(Decimal(n))
  {
    if n == 0 {
      assert Decimal(0) == "0";
    }
  }

  /** Three numbers of 64 bits with dots between them. */
  predicate WritesVersion(s: string, major: nat, minor: nat, patch: nat) {
    && s == Decimal(major) + "." + Decimal(minor) + "." + Decimal(patch)
    && major < 0x1_0000_0000_0000_0000 && minor < 0x1_0000_0000_0000_0000 && patch < 0x1_0000_0000_0000_0000
  }

  lemma VersionIff(s: string)
    ensures IsVersion(s) <==> exists major: nat, minor: nat, patch: nat :: WritesVersion(s, major, minor, patch)
  {
    hide Decimal, DecimalValue;
    if IsVersion(s) {
      var parts := Split(s, '.');
      NumeralOfValue(parts[0]);
      NumeralOfValue(parts[1]);
      NumeralOfValue(parts[2]);
      JoinSplit(s, '.');
      JoinThree(parts);
      assert WritesVersion(s, DecimalValue(parts[0]), DecimalValue(parts[1]), DecimalValue(parts[2]));
    }
    if major: nat, minor: nat, patch: nat :| WritesVersion(s, major, minor, patch) {
      var parts := [Decimal(major), Decimal(minor), Decimal(patch)];
      DecimalIsNumeric(major);
      DecimalIsNumeric(minor);
      DecimalIsNumeric(patch);
      DecimalHasValue(major);
      DecimalHasValue(minor);
      DecimalHasValue(patch);
      JoinThree(parts);
      SplitJoin(parts, '.');
    }
  }

  lemma JoinThree(parts: seq<string>)
    requires |parts| == 3
    ensures Join(parts, '.') == parts[0] + "." + parts[1] + "." + parts[2]
  {
    assert parts[1..][1..] == [parts[2]];
    assert Join(parts[1..], '.') == parts[1] + "." + parts[2];
  }

  // ----- metadata

  predicate IsCommit(s: string) { |s| == 40 && forall i :: 0 <= i < 40 ==> '0' <= s[i] <= '9' || 'a' <= s[i] <= 'f' }

  function Sequence(m: Metadata): string
    requires m.run >= 0 && m.attempt >= 0
  {
    Decimal(m.run) + "." + Decimal(m.attempt)
  }

  /** A version and its build: by its own tag, or as a development version by one of two older tags. */
  ghost predicate DescribesBuild(m: Metadata, base: string) {
    && (exists major: nat, minor: nat, patch: nat :: WritesVersion(base, major, minor, patch))
    && |m.tag| < 100 && IsCommit(m.source) && m.format == 1 && m.updateProtocol == 1 && m.credentialFormat == 1
    && 1 <= m.run < 0x1_0000_0000_0000_0000 && 1 <= m.attempt < 0x1_0000_0000_0000_0000
    && (|| (m.version == base && m.tag == "rbe-bin-v" + base + "-build." + Sequence(m))
        || (m.version == base + "-dev." + Sequence(m) && m.tag in {"rbe-v" + m.version, "rbe-bin-v" + m.version}))
  }

  lemma NoDash(base: string)
    requires IsVersion(base)
    ensures '-' !in base
  {
    VersionCharacters(base);
  }

  lemma PlainVersion(base: string)
    requires '-' !in base
    ensures FindFrom(base, DEV, 0).None? && VersionBase(base) == base
  {
    if FindFrom(base, DEV, 0).Some? {
      DashFound(base, FindFrom(base, DEV, 0).value);
    }
  }

  lemma DashFound(s: string, i: nat)
    requires OccursAt(s, DEV, i)
    ensures i < |s| && s[i] == '-'
  {
    assert s[i] == s[i..i + |DEV|][0];
  }

  lemma DevelopmentVersion(base: string, sequence: string)
    requires '-' !in base
    ensures var version := base + "-dev." + sequence;
            && FindFrom(version, DEV, 0) == Some(|base|) && VersionBase(version) == base
            && version[|base| + |DEV|..] == sequence
  {
    var version := base + "-dev." + sequence;
    assert version[|base|..|base| + |DEV|] == DEV;
    var found := FindFrom(version, DEV, 0);
    assert OccursAt(version, DEV, |base|);
    assert forall k :: 0 <= k < |base| ==> version[k] == base[k];
    if found.value < |base| {
      DashFound(version, found.value);
    }
    assert version[..|base|] == base;
  }

  lemma SequenceIs(m: Metadata)
    requires m.run >= 0 && m.attempt >= 0
    ensures SequenceText(m.run, m.attempt) == Sequence(m)
  {}

  /** Which metadata is accepted; its version without a development suffix is the one it describes. */
  lemma MetadataIff(m: Metadata, base: string)
    ensures ValidMetadata(m) && VersionBase(m.version) == base <==> DescribesBuild(m, base)
  {
    hide IsVersion, FindFrom, SequenceText, WritesVersion, Sequence, Decimal;
    VersionIff(base);
    if m.run >= 0 && m.attempt >= 0 {
      SequenceIs(m);
    }
    if DescribesBuild(m, base) {
      NoDash(base);
      if m.version == base {
        PlainVersion(base);
      } else {
        DevelopmentVersion(base, Sequence(m));
      }
    }
    if ValidMetadata(m) && VersionBase(m.version) == base {
      BaseAndRest(m);
    }
  }

  lemma BaseAndRest(m: Metadata)
    requires ValidMetadata(m)
    ensures var base := VersionBase(m.version);
            if FindFrom(m.version, DEV, 0).None? then m.version == base
            else m.version == base + "-dev." + SequenceText(m.run, m.attempt)
  {
    hide IsVersion, SequenceText;
    var found := FindFrom(m.version, DEV, 0);
    if found.Some? {
      DevVersion(m.version, found.value);
    }
  }

  /** Builds are ordered by run, then by attempt. */
  lemma EarlierIff(a: Metadata, b: Metadata)
    requires 0 <= a.attempt < 0x1_0000_0000_0000_0000 && 0 <= b.attempt < 0x1_0000_0000_0000_0000
    ensures Earlier(a, b) <==>
              a.run * 0x1_0000_0000_0000_0000 + a.attempt < b.run * 0x1_0000_0000_0000_0000 + b.attempt
  {}

  // ----- aliases

  /** An alias is the latest build's or one of a version. */
  lemma AliasIff(name: string)
    ensures IsAlias(name) <==>
              name == "rbe-bin-latest" || exists base :: name == "rbe-bin-v" + base && IsVersion(base)
  {
    hide IsVersion;
    if VERSION_PREFIX <= name {
      assert name == "rbe-bin-v" + name[9..];
    }
    if base :| name == "rbe-bin-v" + base && IsVersion(base) {
      assert name[9..] == base;
    }
  }

  /** Why an alias stops a publication, if it does. */
  function AliasProblem(alias: string, meta: Metadata, view: Refs): Option<PublishError> {
    if alias !in view then None
    else if view[alias].manifest.None? then Some(ManifestUnreadable)
    else if !ValidMetadata(view[alias].manifest.value) then Some(InvalidBuildMetadata)
    else if alias != "rbe-bin-latest" && VersionBase(view[alias].manifest.value.version) != VersionBase(meta.version)
    then Some(DifferentVersion)
    else None
  }

  /** What stops a publication when refs are compared: its tag names another commit, else its version's alias, else the
      alias of the latest build. */
  lemma ComparisonRefusedIff(commit: Commit, view: Refs)
    requires commit.manifest.Some? && ValidMetadata(commit.manifest.value)
    ensures var meta := commit.manifest.value;
            var version, latest := AliasProblem(VersionTag(meta), meta, view), AliasProblem(LATEST, meta, view);
            if meta.tag in view && view[meta.tag] != commit then Compare(commit, view) == Failed(ImmutableTagTaken)
            else if version.Some? then Compare(commit, view) == Failed(version.value)
            else if latest.Some? then Compare(commit, view) == Failed(latest.value)
            else Compare(commit, view).Leased?
  {
    hide ValidMetadata, VersionBase;
    var meta := commit.manifest.value;
    VersionTagIsAlias(meta);
    AliasProblemIs(VersionTag(meta), meta, view);
    AliasProblemIs(LATEST, meta, view);
    LeasesOfTwo(meta, view);
  }

  lemma AliasProblemIs(alias: string, meta: Metadata, view: Refs)
    requires alias == VersionTag(meta) != LATEST || alias == LATEST != VersionTag(meta)
    ensures match AliasProblem(alias, meta, view)
            case None => LeaseFor(alias, meta, view).Ok?
            case Some(e) => LeaseFor(alias, meta, view) == Err(e)
  {
    hide ValidMetadata, VersionBase;
  }

  lemma LeasesOfTwo(meta: Metadata, view: Refs)
    ensures var first, second := LeaseFor(VersionTag(meta), meta, view), LeaseFor(LATEST, meta, view);
            var leases := LeasesFor(Aliases(meta), meta, view);
            if first.Err? then leases == Err(first.error) else if second.Err? then leases == Err(second.error) else leases.Ok?
  {
    hide LeaseFor;
    var both := Aliases(meta);
    assert both[..1] == [VersionTag(meta)];
    OneLease(VersionTag(meta), meta, view);
  }

  lemma OneLease(alias: string, meta: Metadata, view: Refs)
    ensures var lease, leases := LeaseFor(alias, meta, view), LeasesFor([alias], meta, view);
            if lease.Err? then leases == Err(lease.error) else leases.Ok?
  {
    hide LeaseFor;
    assert [alias][..0] == [];
  }
}
