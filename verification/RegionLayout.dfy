/** The header of a region byte by byte, and which files and leases are refused. */
module RegionLayout {
  import opened Text
  import opened Numerals
  import opened GroupRegion
  import GroupLeases

  /** The number in eight bytes from `at` on, the first byte counting least. */
  function NumberAt(file: Bytes, at: nat): nat
    requires at + 8 <= |file|
  {
    var b := (i: nat) requires i < 8 => file[at + i] as int;
    b(0) + 0x100 * b(1) + 0x1_0000 * b(2) + 0x100_0000 * b(3)
    + 0x1_0000_0000 * (b(4) + 0x100 * b(5) + 0x1_0000 * b(6) + 0x100_0000 * b(7))
  }

  lemma {:induction false} FourBytes(b: Bytes)
    requires |b| >= 4
    ensures FromLittleEndian(b) == b[0] as int + 0x100 * b[1] as int + 0x1_0000 * b[2] as int + 0x100_0000 * b[3] as int
                                   + 0x1_0000_0000 * FromLittleEndian(b[4..])
  {
    assert b[1..][1..] == b[2..] && b[2..][1..] == b[3..] && b[3..][1..] == b[4..];
    assert FromLittleEndian(b[2..]) == b[2] as int + 0x100 * (b[3] as int + 0x100 * FromLittleEndian(b[4..]));
  }

  lemma NumberIs(file: Bytes, at: nat)
    requires at + 8 <= |file|
    ensures FromLittleEndian(file[at..at + 8]) == NumberAt(file, at)
  {
    var b := file[at..at + 8];
    FourBytes(b);
    FourBytes(b[4..]);
    assert b[4..][4..] == [];
  }

  predicate HasMagic(file: Bytes)
    requires |file| >= 64
  {
    && file[0] as char == 'R' && file[1] as char == 'B' && file[2] as char == 'E' && file[3] as char == 'G'
    && file[4] as char == 'R' && file[5] as char == 'P' && file[6] as char == '0' && file[7] as char == '1'
  }

  predicate HasVersion(file: Bytes)
    requires |file| >= 64
  {
    file[8] == 1 && file[9] == 0 && file[10] == 0 && file[11] == 0
  }

  /** Which files are regions, of how many bytes, and why others are not. */
  lemma RegionIff(file: Bytes)
    ensures ValidateHeader(file) ==
            if |file| < 64 then Err(Truncated)
            else if !HasMagic(file) then Err(InvalidMagic)
            else if !HasVersion(file) then Err(UnsupportedVersion)
            else if NumberAt(file, 16) == 0 then Err(EmptyPayload)
            else if NumberAt(file, 16) + 64 >= 0x1_0000_0000_0000_0000 then Err(SizeOverflow)
            else if |file| < NumberAt(file, 16) + 64 then Err(Truncated)
            else Ok(NumberAt(file, 16))
  {
    hide NumberAt;
    if |file| >= 64 {
      NumberIs(file, 16);
      MagicIs(file);
      VersionIs(file);
    }
  }

  lemma MagicIs(file: Bytes)
    requires |file| >= 64
    ensures file[..8] == MAGIC <==> HasMagic(file)
  {
    assert forall i :: 0 <= i < 8 ==> file[..8][i] == file[i];
    assert MAGIC[0] as char == 'R' && MAGIC[1] as char == 'B' && MAGIC[2] as char == 'E' && MAGIC[3] as char == 'G';
    assert MAGIC[4] as char == 'R' && MAGIC[5] as char == 'P' && MAGIC[6] as char == '0' && MAGIC[7] as char == '1';
  }

  lemma VersionIs(file: Bytes)
    requires |file| >= 64
    ensures FromLittleEndian(file[8..12]) == FORMAT_VERSION <==> HasVersion(file)
  {
    FourBytes(file[8..12]);
    assert file[8..12][4..] == [];
  }

  /** Where the generation and the marker stand, and which leases are refused for them. */
  lemma LeaseRefusedIff(region: Bytes, repair: bool)
    requires HasHeader(region)
    ensures var generation, unclean := NumberAt(region, 24), region[32] != 0;
            && GroupLeases.ReadOutcome(region) == (if unclean then Err(UncleanWrite(generation)) else Ok(generation))
            && GroupLeases.LockOutcome(region, repair) ==
               if unclean && !repair then Err(UncleanWrite(generation))
               else if generation == 0xFFFF_FFFF_FFFF_FFFF then Err(GenerationOverflow)
               else Ok(generation + 1)
  {
    NumberIs(region, 24);
    GenerationFits(region);
  }

  lemma GenerationFits(region: Bytes)
    requires HasHeader(region)
    ensures NumberAt(region, 24) <= 0xFFFF_FFFF_FFFF_FFFF
  {}
}
