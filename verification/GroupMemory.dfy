/** The mapped region itself: header and payload bytes changed in place by leases. */
module GroupMemory {
  import opened Text
  import opened Numerals
  import opened GroupRegion
  import GroupLeases

  datatype AccessMode = ReadOnlyAccess | ReadWriteAccess

  /** Copy bytes into the mapping. */
  method CopyInto(target: array<Byte>, offset: nat, bytes: Bytes)
    requires offset + |bytes| <= target.Length
    modifies target
    ensures target[..] == Overwritten(old(target[..]), offset, bytes)
  {
    for i := 0 to |bytes|
      invariant target[..] == old(target[..])[..offset] + bytes[..i] + old(target[..])[offset + i..]
    {
      target[offset + i] := bytes[i];
    }
    assert bytes[..|bytes|] == bytes;
  }

  method Clear(target: array<Byte>, n: nat)
    requires n <= target.Length
    modifies target
    ensures target[..] == Zeros(n) + old(target[..])[n..]
  {
    for i := 0 to n
      invariant target[..] == Zeros(i) + old(target[..])[i..]
    {
      target[i] := 0;
    }
  }

  /** The first bytes of the mapping become the header. */
  method WriteHeader(mapping: array<Byte>, payloadLen: nat)
    requires mapping.Length >= HEADER_LEN
    modifies mapping
    ensures mapping[..] == Header(payloadLen) + old(mapping[..])[HEADER_LEN..]
  {
    hide Overwritten, LittleEndian, Header;
    Clear(mapping, HEADER_LEN);
    ghost var blank := Zeros(HEADER_LEN) + old(mapping[..])[HEADER_LEN..];
    HeaderWritten(payloadLen, blank, old(mapping[..])[HEADER_LEN..]);
    CopyInto(mapping, 0, MAGIC);
    CopyInto(mapping, 8, LittleEndian(FORMAT_VERSION, 4));
    CopyInto(mapping, 16, LittleEndian(payloadLen, 8));
  }

  ghost function Overwritten(bytes: Bytes, offset: nat, part: Bytes): Bytes
    requires offset + |part| <= |bytes|
  {
    bytes[..offset] + part + bytes[offset + |part|..]
  }

  lemma OverwrittenBetween(front: Bytes, middle: Bytes, back: Bytes, part: Bytes)
    requires |part| == |middle|
    ensures Overwritten(front + middle + back, |front|, part) == front + part + back
  {
    assert (front + middle + back)[|front| + |part|..] == back;
  }

  lemma HeaderWritten(payloadLen: nat, blank: Bytes, tail: Bytes)
    requires blank == Zeros(HEADER_LEN) + tail
    ensures var version, length := LittleEndian(FORMAT_VERSION, 4), LittleEndian(payloadLen, 8);
            Overwritten(Overwritten(Overwritten(blank, 0, MAGIC), 8, version), 16, length) == Header(payloadLen) + tail
  {
    hide Overwritten, LittleEndian;
    var version, length := LittleEndian(FORMAT_VERSION, 4), LittleEndian(payloadLen, 8);
    var rest := Zeros(4) + Zeros(8) + Zeros(40) + tail;
    assert blank == [] + Zeros(8) + (Zeros(4) + rest);
    OverwrittenBetween([], Zeros(8), Zeros(4) + rest, MAGIC);
    assert [] + MAGIC + (Zeros(4) + rest) == MAGIC + Zeros(4) + rest;
    OverwrittenBetween(MAGIC, Zeros(4), rest, version);
    assert MAGIC + version + rest == (MAGIC + version + Zeros(4)) + Zeros(8) + (Zeros(40) + tail);
    OverwrittenBetween(MAGIC + version + Zeros(4), Zeros(8), Zeros(40) + tail, length);
    assert Header(payloadLen) + tail == (MAGIC + version + Zeros(4)) + length + (Zeros(40) + tail);
  }

  class Region {
    const access: AccessMode
    const payloadLen: nat
    const mapping: array<Byte>

    ghost predicate Valid()
      reads this, mapping
    {
      mapping.Length == HEADER_LEN + payloadLen && Generation(mapping[..]) < U64_BOUND
    }

    /** Process-private memory with the header layout of a file. */
    constructor Anonymous(payloadLen: nat)
      requires 0 < payloadLen && HEADER_LEN + payloadLen < U64_BOUND
      ensures Valid() && fresh(mapping) && access == ReadWriteAccess
      ensures mapping[..] == NewRegion(payloadLen) && ValidateHeader(mapping[..]) == Ok(payloadLen)
    {
      access, this.payloadLen := ReadWriteAccess, payloadLen;
      mapping := new Byte[HEADER_LEN + payloadLen](_ => 0);
      new;
      WriteHeader(mapping, payloadLen);
      assert mapping[..] == NewRegion(payloadLen);
      NewRegionIsValid(payloadLen);
    }

    /** The generation a reader sees, or the refusal of an unclean region. */
    method ReadLease() returns (r: Result<nat, RegionError>)
      requires Valid()
      ensures r == GroupLeases.ReadOutcome(mapping[..])
    {
      var generation := FromLittleEndian(mapping[24..32]);
      assert mapping[..][24..32] == mapping[24..32];
      if mapping[WRITE_IN_PROGRESS_OFFSET] != 0 {
        return Err(UncleanWrite(generation));
      }
      return Ok(generation);
    }

    /** The generation is stored first, the marker second, and then the payload may be written; a refused lease
        stores nothing. */
    method BeginWriteLease(allowUnclean: bool) returns (r: Result<WriteLease, RegionError>)
      requires Valid()
      modifies mapping
      ensures Valid()
      ensures r.Ok? ==>
                && access == ReadWriteAccess && fresh(r.value) && r.value.region == this && !r.value.committed
                && GroupLeases.LockOutcome(old(mapping[..]), allowUnclean) == Ok(r.value.generation)
                && mapping[..] == WithMarker(WithGeneration(old(mapping[..]), r.value.generation), 1)
      ensures r.Err? ==>
                && mapping[..] == old(mapping[..])
                && (if access == ReadOnlyAccess then r.error == ReadOnly
                    else GroupLeases.LockOutcome(mapping[..], allowUnclean) == Err(r.error))
    {
      if access != ReadWriteAccess {
        return Err(ReadOnly);
      }
      ghost var before := mapping[..];
      var current := FromLittleEndian(mapping[24..32]);
      assert before[24..32] == mapping[24..32];
      if mapping[WRITE_IN_PROGRESS_OFFSET] != 0 && !allowUnclean {
        return Err(UncleanWrite(current));
      }
      if current + 1 >= U64_BOUND {
        return Err(GenerationOverflow);
      }
      CopyInto(mapping, 24, LittleEndian(current + 1, 8));
      assert mapping[..] == WithGeneration(before, current + 1);
      mapping[WRITE_IN_PROGRESS_OFFSET] := 1;
      StoreGeneration(before, current + 1);
      StoreMarker(WithGeneration(before, current + 1), 1);
      var lease := new WriteLease(this, current + 1);
      return Ok(lease);
    }
  }

  lemma OnlyPayload(before: Bytes, after: Bytes, payload: Bytes)
    requires HasHeader(before) && |payload| == |before| - HEADER_LEN
    requires after == Overwritten(before, HEADER_LEN, payload)
    ensures |after| == |before| && Payload(after) == payload && Generation(after) == Generation(before)
    ensures Dirty(after) == Dirty(before) && SameIdentity(before, after)
  {
    assert before[..12] == after[..12] && before[16..24] == after[16..24] && before[24..32] == after[24..32];
  }

  /** One scoped mutation: on success the payload is the mutated one, one generation later, and clean. */
  method WithWrite(region: Region, write: Bytes -> Bytes) returns (r: Result<(), RegionError>)
    requires region.Valid() && forall p :: |write(p)| == |p|
    modifies region.mapping
    ensures region.Valid()
    ensures r.Ok? ==>
              && Payload(region.mapping[..]) == write(Payload(old(region.mapping[..]))) && !Dirty(region.mapping[..])
              && Generation(region.mapping[..]) == Generation(old(region.mapping[..])) + 1
              && GroupRegion.SameIdentity(old(region.mapping[..]), region.mapping[..])
    ensures r.Err? ==> region.mapping[..] == old(region.mapping[..])
  {
    ghost var before := region.mapping[..];
    var begun := region.BeginWriteLease(false);
    if begun.Err? {
      return Err(begun.error);
    }
    var lease := begun.value;
    StoreGeneration(before, lease.generation);
    StoreMarker(WithGeneration(before, lease.generation), 1);
    ghost var marked := region.mapping[..];
    assert region.mapping[HEADER_LEN..] == Payload(marked);
    CopyInto(region.mapping, HEADER_LEN, write(region.mapping[HEADER_LEN..]));
    OnlyPayload(marked, region.mapping[..], write(Payload(marked)));
    assert Payload(region.mapping[..]) == write(Payload(before));
    StoreMarker(region.mapping[..], 0);
    lease.Commit();
    StoreMarker(region.mapping[..], 0);
    lease.Release();
    return Ok(());
  }

  /** An exclusive lease. Dropping it without a commit leaves the marker set. */
  class WriteLease {
    const region: Region
    const generation: nat
    var committed: bool

    constructor (region: Region, generation: nat)
      ensures this.region == region && this.generation == generation && !committed
    {
      this.region, this.generation, committed := region, generation, false;
    }

    method Write(i: nat, b: Byte)
      requires region.Valid() && i < region.payloadLen
      modifies region.mapping
      ensures region.Valid() && region.mapping[..] == WithPayloadByte(old(region.mapping[..]), i, b)
    {
      StorePayloadByte(region.mapping[..], i, b);
      region.mapping[HEADER_LEN + i] := b;
      assert region.mapping[..] == WithPayloadByte(old(region.mapping[..]), i, b);
    }

    method Commit()
      requires region.Valid()
      modifies this, region.mapping
      ensures region.Valid() && committed && region.mapping[..] == WithMarker(old(region.mapping[..]), 0)
    {
      StoreMarker(region.mapping[..], 0);
      region.mapping[WRITE_IN_PROGRESS_OFFSET] := 0;
      committed := true;
      assert region.mapping[..] == WithMarker(old(region.mapping[..]), 0);
    }

    method Release()
      requires region.Valid()
      modifies region.mapping
      ensures region.Valid()
      ensures region.mapping[..] == if committed then WithMarker(old(region.mapping[..]), 0) else old(region.mapping[..])
    {
      if committed {
        StoreMarker(region.mapping[..], 0);
        region.mapping[WRITE_IN_PROGRESS_OFFSET] := 0;
        assert region.mapping[..] == WithMarker(old(region.mapping[..]), 0);
      }
    }
  }
}
