/** The files, titles and links of a release as they read. */
module ReleaseNames {
  import opened Text
  import opened Numerals
  import opened PublicationRules
  import opened ReleaseRefresh

  const MIDDLES: seq<string> := [
    "-linux-x64-build.", "-linux-arm64-build.", "-windows-x64-build.", "-macos-intel-build.", "-macos-arm64-build."]

  /** The file of a platform, the checksum list last, for one build sequence. */
  function FileName(base: string, i: nat, sequence: string): string {
    if i < 5 then "rbe-" + base + MIDDLES[i] + sequence + (if i == 2 then ".zip" else ".tar.gz")
    else "SHA256SUMS-build." + sequence + ".txt"
  }

  function Title(i: nat): string {
    match i
    case 0 => "Linux x64"
    case 1 => "Linux ARM64"
    case 2 => "Windows x64"
    case 3 => "macOS Intel"
    case 4 => "macOS Apple Silicon"
    case _ => "SHA-256 checksums"
  }

  lemma PatternsAre(base: string, i: nat, sequence: string)
    requires i <= 5
    ensures Pattern(base, i).0 + sequence + Pattern(base, i).1 == FileName(base, i, sequence)
  {
    if i < 5 {
      PlatformsAre(i);
      NameReads(base, PLATFORMS[i].0, PLATFORMS[i].2, sequence, i);
    }
  }

  lemma PlatformsAre(i: nat)
    requires i < 5
    ensures |PLATFORMS| == 5
    ensures PLATFORMS[i].0 == ["linux-x64", "linux-arm64", "windows-x64", "macos-intel", "macos-arm64"][i]
    ensures PLATFORMS[i].2 == if i == 2 then "zip" else "tar.gz"
    ensures PLATFORMS[i].1 == Title(i)
  {}

  lemma NameReads(base: string, platform: string, extension: string, sequence: string, i: nat)
    requires i < 5 && platform == ["linux-x64", "linux-arm64", "windows-x64", "macos-intel", "macos-arm64"][i]
    requires extension == if i == 2 then "zip" else "tar.gz"
    ensures ("rbe-" + base + "-" + platform + "-build.") + sequence + ("." + extension) == FileName(base, i, sequence)
  {
    MiddleReads(platform, i);
    assert "." + extension == if i == 2 then ".zip" else ".tar.gz";
    Regroup(base, platform, MIDDLES[i], sequence, "." + extension);
  }

  lemma Regroup(base: string, platform: string, middle: string, sequence: string, ending: string)
    requires middle == "-" + platform + "-build."
    ensures ("rbe-" + base + "-" + platform + "-build.") + sequence + ending == "rbe-" + base + middle + sequence + ending
  {
    assert "rbe-" + base + "-" + platform + "-build." == "rbe-" + base + middle;
  }

  lemma MiddleReads(platform: string, i: nat)
    requires i < 5 && platform == ["linux-x64", "linux-arm64", "windows-x64", "macos-intel", "macos-arm64"][i]
    ensures "-" + platform + "-build." == MIDDLES[i]
  {
    if i == 0 {
      assert "-" + "linux-x64" + "-build." == "-linux-x64-build.";
    } else if i == 1 {
      assert "-" + "linux-arm64" + "-build." == "-linux-arm64-build.";
    } else if i == 2 {
      assert "-" + "windows-x64" + "-build." == "-windows-x64-build.";
    } else if i == 3 {
      assert "-" + "macos-intel" + "-build." == "-macos-intel-build.";
    } else {
      assert "-" + "macos-arm64" + "-build." == "-macos-arm64-build.";
    }
  }

  /** Each package is uploaded under its file name, and linked under its title at the place it is downloaded from. */
  lemma LinksRead(site: string, base: string, build: Build, i: nat)
    requires ValidBuild(base, build) && i < 6
    ensures |build.packages| == 6
    ensures var name := FileName(base, i, Decimal(build.run) + "." + Decimal(build.attempt));
            && build.packages[i].name == name && |BodyOf(site, build).links| == 6
            && BodyOf(site, build).links[i] == Link(Title(i), site + "/releases/download/rbe-bin-v" + base + "/" + name)
  {
    if i < 5 {
      PlatformsAre(i);
    }
    PatternsAre(base, i, Decimal(build.run) + "." + Decimal(build.attempt));
  }

  /** The publisher's files are those of some build of the version, and no others. */
  lemma ManagedIff(base: string, name: string)
    ensures Managed(base, name) <==>
              exists i: nat, run: nat, attempt: nat ::
                i <= 5 && run > 0 && attempt > 0 && name == FileName(base, i, Decimal(run) + "." + Decimal(attempt))
  {
    hide FileName, Pattern, Decimal;
    if Managed(base, name) {
      var i :| 0 <= i <= |PLATFORMS| && MatchesPattern(Pattern(base, i).0, Pattern(base, i).1, name);
      var (prefix, suffix) := Pattern(base, i);
      var sequence := name[|prefix|..|name| - |suffix|];
      var run, attempt := SequenceReads(sequence);
      assert name == prefix + sequence + suffix;
      PatternsAre(base, i, sequence);
    }
    if i: nat, run: nat, attempt: nat :|
        i <= 5 && run > 0 && attempt > 0 && name == FileName(base, i, Decimal(run) + "." + Decimal(attempt)) {
      PatternsAre(base, i, Decimal(run) + "." + Decimal(attempt));
      PackageIsManaged(base, i, run, attempt);
    }
  }

  lemma SequenceReads(s: string) returns (run: nat, attempt: nat)
    requires IsBuildSequence(s)
    ensures run > 0 && attempt > 0 && s == Decimal(run) + "." + Decimal(attempt)
  {
    hide Decimal, DecimalValue;
    var parts := Split(s, '.');
    run, attempt := DecimalValue(parts[0]), DecimalValue(parts[1]);
    NumeralOfValue(parts[0]);
    NumeralOfValue(parts[1]);
    ValueIsPositive(parts[0]);
    ValueIsPositive(parts[1]);
    JoinSplit(s, '.');
    assert Join(parts[1..], '.') == parts[1];
  }
}
