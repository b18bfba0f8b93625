/** The metadata of a binary build: versions, build sequences and the tags named after them. */
module BinaryMetadata {
  import opened Text
  import opened Numerals

  const LATEST: string := "rbe-bin-latest"
  const VERSION_PREFIX: string := "rbe-bin-v"
  const DEV: string := "-dev."

  datatype Metadata = Metadata(
    format: int,
    version: string,
    tag: string,
    source: string,
    run: int,
    attempt: int,
    updateProtocol: int,
    credentialFormat: int)

  predicate IsNumericPart(s: string) {
    s != "" && (forall i :: 0 <= i < |s| ==> IsDigit(s[i])) && (s[0] == '0' ==> |s| == 1)
  }

  /** Major, minor and patch without leading zeroes, each within 64 bits. */
  predicate IsVersion(s: string) {
    var parts := Split(s, '.');
    && |parts| == 3
    && (forall k :: 0 <= k < 3 ==> IsNumericPart(parts[k]))
    && (forall k :: 0 <= k < 3 ==> DecimalValue(parts[k]) < U64_BOUND)
  }

  function VersionBase(version: string): (base: string)
    ensures base <= version
  {
    match FindFrom(version, DEV, 0)
    case Some(i) => version[..i]
    case None => version
  }

  function Numeral(n: int): string { if n < 0 then "-" + Decimal(-n) else Decimal(n) }

  function SequenceText(run: int, attempt: int): string { Numeral(run) + "." + Numeral(attempt) }

  predicate IsCommitHash(s: string) {
    |s| == 40 && forall i :: 0 <= i < 40 ==> IsDigit(s[i]) || 'a' <= s[i] <= 'f'
  }

  predicate IsSequencePart(n: int) { 1 <= n < U64_BOUND }

  predicate ValidMetadata(m: Metadata) {
    var separator := FindFrom(m.version, DEV, 0);
    && IsVersion(VersionBase(m.version))
    && |m.tag| < 100
    && (if separator.None? then m.tag == VERSION_PREFIX + m.version + "-build." + SequenceText(m.run, m.attempt)
        else m.tag == "rbe-v" + m.version || m.tag == VERSION_PREFIX + m.version)
    && IsCommitHash(m.source)
    && m.format == 1 && m.updateProtocol == 1 && m.credentialFormat == 1
    && IsSequencePart(m.run) && IsSequencePart(m.attempt)
    && (separator.Some? ==> m.version[separator.value + |DEV|..] == SequenceText(m.run, m.attempt))
  }

  function VersionTag(m: Metadata): string { VERSION_PREFIX + VersionBase(m.version) }

  /** The names that move: the latest build and one alias for each version. */
  predicate IsAlias(name: string) {
    name == LATEST || (VERSION_PREFIX <= name && IsVersion(name[|VERSION_PREFIX|..]))
  }

  /** By run first, then by attempt. */
  predicate Earlier(a: Metadata, b: Metadata) { a.run < b.run || (a.run == b.run && a.attempt < b.attempt) }

  // ----- names that cannot be confused

  lemma VersionCharacters(s: string)
    requires IsVersion(s)
    ensures forall i :: 0 <= i < |s| ==> s[i] == '.' || IsDigit(s[i])
  {
    forall i | 0 <= i < |s| && s[i] != '.'
      ensures IsDigit(s[i])
    {
      SplitCovers(s, '.', i);
    }
  }

  lemma VersionTagIsAlias(m: Metadata)
    requires ValidMetadata(m)
    ensures IsAlias(VersionTag(m)) && VersionTag(m) != LATEST
  {
    assert VersionTag(m)[|VERSION_PREFIX|..] == VersionBase(m.version);
    assert VersionTag(m)[8] == 'v';
  }

  /** A build tag after its prefix: the version base, a dash, and the kind with the build sequence. */
  lemma TagShape(m: Metadata) returns (prefix: string, rest: string)
    requires ValidMetadata(m)
    ensures m.tag == prefix + VersionBase(m.version) + ['-'] + rest
    ensures prefix == VERSION_PREFIX || prefix == "rbe-v"
    ensures rest == "build." + SequenceText(m.run, m.attempt) || rest == "dev." + SequenceText(m.run, m.attempt)
    ensures '-' !in VersionBase(m.version) && m.run > 0 && m.attempt > 0
  {
    hide IsVersion, SequenceText;
    VersionCharacters(VersionBase(m.version));
    var sequence := SequenceText(m.run, m.attempt);
    var separator := FindFrom(m.version, DEV, 0);
    if separator.None? {
      prefix, rest := VERSION_PREFIX, "build." + sequence;
      Reassociate(prefix, m.version, "-build.", "build.", sequence);
    } else {
      DevVersion(m.version, separator.value);
      prefix, rest := if m.tag == VERSION_PREFIX + m.version then VERSION_PREFIX else "rbe-v", "dev." + sequence;
      Reassociate(prefix, VersionBase(m.version), DEV, "dev.", sequence);
    }
  }

  lemma DevVersion(version: string, i: nat)
    requires OccursAt(version, DEV, i)
    ensures version == version[..i] + DEV + version[i + |DEV|..]
  {
    assert version == version[..i] + version[i..i + |DEV|] + version[i + |DEV|..];
  }

  lemma Reassociate(prefix: string, base: string, dashed: string, kind: string, sequence: string)
    requires dashed == ['-'] + kind
    ensures prefix + base + dashed + sequence == prefix + base + ['-'] + (kind + sequence)
    ensures prefix + (base + dashed + sequence) == prefix + base + ['-'] + (kind + sequence)
  {}

  lemma BuildTagIsNoAlias(m: Metadata)
    requires ValidMetadata(m)
    ensures !IsAlias(m.tag)
  {
    hide IsVersion, FindFrom, ValidMetadata, SequenceText;
    var prefix, rest := TagShape(m);
    var base := VersionBase(m.version);
    assert m.tag[4] == prefix[4] && m.tag[|prefix| + |base|] == '-';
    if |m.tag| > 8 && m.tag[4] == 'b' {
      assert m.tag[8] == VERSION_PREFIX[8];
    }
    if VERSION_PREFIX <= m.tag && IsVersion(m.tag[|VERSION_PREFIX|..]) {
      VersionCharacters(m.tag[|VERSION_PREFIX|..]);
    }
  }

  lemma NumeralOnce(a: int, b: int)
    requires a >= 0 && b >= 0 && Numeral(a) == Numeral(b)
    ensures a == b
  {
    DecimalHasValue(a);
    DecimalHasValue(b);
  }

  lemma SequenceOnce(a: Metadata, b: Metadata)
    requires a.run >= 0 && a.attempt >= 0 && b.run >= 0 && b.attempt >= 0
    requires SequenceText(a.run, a.attempt) == SequenceText(b.run, b.attempt)
    ensures a.run == b.run && a.attempt == b.attempt
  {
    assert "." == ['.'];
    CutOnce(Numeral(a.run), Numeral(a.attempt), '.', Numeral(b.run), Numeral(b.attempt));
    NumeralOnce(a.run, b.run);
    NumeralOnce(a.attempt, b.attempt);
  }

  /** A build tag belongs to one version and one build sequence. */
  lemma TagNamesOneBuild(a: Metadata, b: Metadata)
    requires ValidMetadata(a) && ValidMetadata(b) && a.tag == b.tag
    ensures VersionBase(a.version) == VersionBase(b.version) && a.run == b.run && a.attempt == b.attempt
  {
    hide ValidMetadata, FindFrom, SequenceText, VersionBase;
    var prefixA, restA := TagShape(a);
    var prefixB, restB := TagShape(b);
    ShapeOnce(prefixA, VersionBase(a.version), restA, prefixB, VersionBase(b.version), restB);
    assert restA[0] == restB[0];
    AfterKind(restA, SequenceText(a.run, a.attempt));
    AfterKind(restB, SequenceText(b.run, b.attempt));
    SequenceOnce(a, b);
  }

  lemma ShapeOnce(prefixA: string, baseA: string, restA: string, prefixB: string, baseB: string, restB: string)
    requires prefixA in {VERSION_PREFIX, "rbe-v"} && prefixB in {VERSION_PREFIX, "rbe-v"}
    requires '-' !in baseA && '-' !in baseB
    requires prefixA + baseA + ['-'] + restA == prefixB + baseB + ['-'] + restB
    ensures baseA == baseB && restA == restB
  {
    var tag := prefixA + baseA + ['-'] + restA;
    assert tag[4] == prefixA[4] == prefixB[4];
    var n := |prefixA|;
    assert tag[n..] == baseA + ['-'] + restA;
    assert tag[n..] == baseB + ['-'] + restB;
    CutOnce(baseA, restA, '-', baseB, restB);
  }

  lemma AfterKind(rest: string, sequence: string)
    requires rest == "build." + sequence || rest == "dev." + sequence
    ensures rest[if rest[0] == 'b' then 6 else 4..] == sequence
  {}
}
