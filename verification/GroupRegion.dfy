/** The bytes of a group-memory region: a 64-byte header, then the payload. */
module GroupRegion {
  import opened Text
  import opened Numerals

  const HEADER_LEN: nat := 64
  const WRITE_IN_PROGRESS_OFFSET: nat := 32
  const FORMAT_VERSION: nat := 1
  /** "RBEGRP01" */
  const MAGIC: Bytes := [82, 66, 69, 71, 82, 80, 48, 49]

  datatype RegionError =
    | EmptyPayload
    | ReadOnly
    | InvalidMagic
    | UnsupportedVersion
    | Truncated
    | SizeOverflow
    | GenerationOverflow
    | UncleanWrite(generation: nat)

  function Zeros(n: nat): Bytes { seq(n, _ => 0) }

  function Header(payloadLen: nat): (header: Bytes)
    ensures |header| == HEADER_LEN
  {
    MAGIC + LittleEndian(FORMAT_VERSION, 4) + Zeros(4) + LittleEndian(payloadLen, 8) + Zeros(40)
  }

  /** A region as it is created. */
  function NewRegion(payloadLen: nat): Bytes { Header(payloadLen) + Zeros(payloadLen) }

  predicate HasHeader(region: Bytes) { |region| >= HEADER_LEN }

  function Generation(region: Bytes): nat
    requires HasHeader(region)
  {
    FromLittleEndian(region[24..32])
  }

  predicate Dirty(region: Bytes)
    requires HasHeader(region)
  {
    region[WRITE_IN_PROGRESS_OFFSET] != 0
  }

  function Payload(region: Bytes): Bytes
    requires HasHeader(region)
  {
    region[HEADER_LEN..]
  }

  function WithGeneration(region: Bytes, generation: nat): (r: Bytes)
    requires HasHeader(region)
    ensures |r| == |region|
  {
    region[..24] + LittleEndian(generation, 8) + region[32..]
  }

  function WithMarker(region: Bytes, marker: Byte): Bytes
    requires HasHeader(region)
  {
    region[WRITE_IN_PROGRESS_OFFSET := marker]
  }

  function WithPayloadByte(region: Bytes, i: nat, b: Byte): Bytes
    requires HasHeader(region) && i < |region| - HEADER_LEN
  {
    region[HEADER_LEN + i := b]
  }

  /** The payload length of a file that is a region, or why it is not one. */
  function ValidateHeader(file: Bytes): Result<nat, RegionError> {
    if |file| < HEADER_LEN then Err(Truncated)
    else if file[..8] != MAGIC then Err(InvalidMagic)
    else if FromLittleEndian(file[8..12]) != FORMAT_VERSION then Err(UnsupportedVersion)
    else
      var payloadLen := FromLittleEndian(file[16..24]);
      if payloadLen == 0 then Err(EmptyPayload)
      else if HEADER_LEN + payloadLen >= U64_BOUND then Err(SizeOverflow)
      else if |file| < HEADER_LEN + payloadLen then Err(Truncated)
      else Ok(payloadLen)
  }

  /** What validation looks at. */
  predicate SameIdentity(a: Bytes, b: Bytes)
    requires HasHeader(a) && HasHeader(b)
  {
    |a| == |b| && a[..12] == b[..12] && a[16..24] == b[16..24]
  }

  lemma IdentityDecides(a: Bytes, b: Bytes)
    requires HasHeader(a) && HasHeader(b) && SameIdentity(a, b)
    ensures ValidateHeader(a) == ValidateHeader(b)
  {
    assert a[..8] == a[..12][..8] && b[..8] == b[..12][..8];
    assert a[8..12] == a[..12][8..] && b[8..12] == b[..12][8..];
  }

  /** A new region is valid, at generation zero, clean, and all zeros. */
  lemma NewRegionIsValid(payloadLen: nat)
    requires 0 < payloadLen && HEADER_LEN + payloadLen < U64_BOUND
    ensures var r := NewRegion(payloadLen);
            && HasHeader(r) && ValidateHeader(r) == Ok(payloadLen)
            && Generation(r) == 0 && !Dirty(r) && Payload(r) == Zeros(payloadLen)
  {
    var r := NewRegion(payloadLen);
    assert r[..8] == MAGIC;
    assert r[8..12] == LittleEndian(FORMAT_VERSION, 4);
    assert r[16..24] == LittleEndian(payloadLen, 8);
    assert r[24..32] == LittleEndian(0, 8) by {
      assert LittleEndian(0, 8) == [0] + LittleEndian(0, 7);
      assert LittleEndian(0, 7) == [0] + LittleEndian(0, 6);
      assert LittleEndian(0, 6) == [0] + LittleEndian(0, 5);
      assert LittleEndian(0, 5) == [0] + LittleEndian(0, 4);
      assert LittleEndian(0, 4) == [0, 0, 0, 0];
    }
    U64RoundTrip(payloadLen);
    U64RoundTrip(0);
    LittleEndianRoundTrip(FORMAT_VERSION, 4);
    assert Power256(4) == 0x1_0000_0000;
    assert Payload(r) == Zeros(payloadLen);
  }

  /** Storing a generation, a marker or a payload byte changes that and nothing else. */
  lemma StoreGeneration(region: Bytes, generation: nat)
    requires HasHeader(region) && generation < U64_BOUND
    ensures var r := WithGeneration(region, generation);
            && SameIdentity(region, r) && Generation(r) == generation
            && Dirty(r) == Dirty(region) && Payload(r) == Payload(region)
  {
    var r := WithGeneration(region, generation);
    assert r[..12] == region[..12] && r[16..24] == region[16..24];
    assert r[24..32] == LittleEndian(generation, 8);
    assert r[32..] == region[32..];
    assert Payload(r) == r[32..][32..];
    U64RoundTrip(generation);
  }

  lemma StoreMarker(region: Bytes, marker: Byte)
    requires HasHeader(region)
    ensures var r := WithMarker(region, marker);
            && SameIdentity(region, r) && Generation(r) == Generation(region)
            && (Dirty(r) <==> marker != 0) && Payload(r) == Payload(region)
  {
    var r := WithMarker(region, marker);
    assert r[..12] == region[..12] && r[16..24] == region[16..24] && r[24..32] == region[24..32];
    assert Payload(r) == Payload(region);
  }

  lemma StorePayloadByte(region: Bytes, i: nat, b: Byte)
    requires HasHeader(region) && i < |region| - HEADER_LEN
    ensures var r := WithPayloadByte(region, i, b);
            && SameIdentity(region, r) && Generation(r) == Generation(region)
            && Dirty(r) == Dirty(region) && Payload(r) == Payload(region)[i := b]
  {
    var r := WithPayloadByte(region, i, b);
    assert r[..12] == region[..12] && r[16..24] == region[16..24] && r[24..32] == region[24..32];
    assert Payload(r) == Payload(region)[i := b];
  }
}
