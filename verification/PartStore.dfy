/** Writing, checking and rebuilding parts, as loops over reads that may come up short. */
module PartStore {
  import opened Text
  import opened Numerals
  import opened BinaryMetadata
  import opened BinaryParts

  class Reader {
    const data: Bytes
    var position: nat

    ghost predicate Valid()
      reads this
    {
      position <= |data|
    }

    ghost function Rest(): Bytes
      reads this
      requires Valid()
    {
      data[position..]
    }

    constructor (data: Bytes)
      ensures Valid() && Rest() == data
    {
      this.data, position := data, 0;
    }

    /** Some of the next `n` bytes, and none only at the end. */
    method Read(n: nat) returns (chunk: Bytes)
      requires Valid() && n > 0
      modifies this
      ensures Valid() && old(Rest()) == chunk + Rest()
      ensures |chunk| <= n && (chunk == [] <==> old(Rest()) == [])
    {
      var most := if n < |data| - position then n else |data| - position;
      var count :| 0 <= count <= most && (count == 0 <==> most == 0);
      chunk := data[position..position + count];
      position := position + count;
    }
  }

  class Sink {
    var written: Bytes

    constructor ()
      ensures written == []
    {
      written := [];
    }

    method Write(chunk: Bytes)
      modifies this
      ensures written == old(written) + chunk
    {
      written := written + chunk;
    }
  }

  /** Copies one part. It succeeds exactly when the source holds the promised bytes and nothing after them. */
  method CopyVerifiedPart(sha: Bytes -> string, handle: Reader, out: Sink, part: Part) returns (ok: bool)
    requires handle.Valid()
    modifies handle, out
    ensures handle.Valid()
    ensures var source := old(handle.Rest());
            && (ok <==> |source| == part.size && sha(source) == part.sha256)
            && out.written == old(out.written) + source[..if part.size < |source| then part.size else |source|]
  {
    ghost var source := handle.Rest();
    var hashed: Bytes, remaining: nat := [], part.size;
    while remaining > 0
      invariant handle.Valid() && remaining == part.size - |hashed|
      invariant source == hashed + handle.Rest() && out.written == old(out.written) + hashed
      decreases remaining
    {
      var chunk := handle.Read(if remaining < READ_BYTES then remaining else READ_BYTES);
      if chunk == [] {
        assert hashed == source && source[..|source|] == source;
        return false;
      }
      hashed := hashed + chunk;
      out.Write(chunk);
      remaining := remaining - |chunk|;
    }
    ghost var rest := handle.Rest();
    assert source[..|hashed|] == hashed && |source| == |hashed| + |rest|;
    var more := handle.Read(1);
    assert source[..part.size] == hashed && (more == [] <==> |source| == part.size);
    assert |source| == part.size ==> source == hashed;
    return more == [] && sha(hashed) == part.sha256;
  }

  lemma {:induction false} CopyStops(sha: Bytes -> string, files: Files, parts: seq<Part>, i: nat)
    requires i <= |parts| && CopyParts(sha, files, parts[..i]).None?
    ensures CopyParts(sha, files, parts).None?
    decreases |parts| - i
  {
    hide PartStored;
    if i == |parts| {
      assert parts[..i] == parts;
    } else {
      assert parts[..i + 1][..i] == parts[..i];
      CopyStops(sha, files, parts, i + 1);
    }
  }

  /** Packaging and installing: every part through a fresh reader into one file, then the whole once more. */
  method RebuildBinary(sha: Bytes -> string, files: Files, b: Binary) returns (r: Option<Bytes>)
    ensures r == Rebuild(sha, files, b)
  {
    var out := new Sink();
    for i := 0 to |b.parts|
      invariant CopyParts(sha, files, b.parts[..i]) == Some(out.written)
      invariant fresh(out)
    {
      assert b.parts[..i + 1][..i] == b.parts[..i];
      if b.parts[i].path !in files {
        CopyStops(sha, files, b.parts, i + 1);
        return None;
      }
      var handle := new Reader(files[b.parts[i].path]);
      ghost var before, stored := out.written, files[b.parts[i].path];
      assert stored[..|stored|] == stored && b.parts[..i + 1][i] == b.parts[i];
      var ok := CopyVerifiedPart(sha, handle, out, b.parts[i]);
      if !ok {
        CopyStops(sha, files, b.parts, i + 1);
        return None;
      }
    }
    assert b.parts[..|b.parts|] == b.parts;
    if |out.written| != b.size || sha(out.written) != b.sha256 {
      return None;
    }
    return Some(out.written);
  }

  /** The check before publication: each part by itself, and one digest over all of them. */
  method AssembleBinary(sha: Bytes -> string, files: Files, b: Binary) returns (ok: bool)
    ensures ok == Assembled(sha, files, b)
  {
    var hashed := [];
    for i := 0 to |b.parts|
      invariant forall j :: 0 <= j < i ==> PartStored(sha, files, b.parts[j])
      invariant CopyParts(sha, files, b.parts[..i]) == Some(hashed)
    {
      assert b.parts[..i + 1][..i] == b.parts[..i];
      if !PartStored(sha, files, b.parts[i]) {
        return false;
      }
      var handle := new Reader(files[b.parts[i].path]);
      ghost var before := hashed;
      var chunk := handle.Read(READ_BYTES);
      while chunk != []
        invariant handle.Valid() && fresh(handle)
        invariant before + files[b.parts[i].path] == hashed + chunk + handle.Rest()
        invariant chunk == [] ==> handle.Rest() == []
        decreases |handle.Rest()| + |chunk|
      {
        hashed := hashed + chunk;
        chunk := handle.Read(READ_BYTES);
      }
      assert hashed + [] + [] == hashed && b.parts[..i + 1][i] == b.parts[i];
    }
    assert b.parts[..|b.parts|] == b.parts;
    return sha(hashed) == b.sha256;
  }

  // ----- the snapshot

  /** Nothing but the parts of this binary was written. */
  ghost predicate WritesOnly(before: Files, after: Files, target: string, name: string, many: bool) {
    forall path :: Lookup(after, path) == Lookup(before, path) || exists k: nat :: path == PartPath(target, name, k, many)
  }

  lemma OnePartMore(files: Files, target: string, i: nat, data: Bytes, partSize: nat, n: nat)
    requires i < |RUNTIME| && partSize > 0 && n < PartCount(|data|, partSize)
    requires HoldsUpTo(files, target, RuntimeNames(target)[i], data, partSize, n)
    ensures HoldsUpTo(files[PartPath(target, RuntimeNames(target)[i], n, |data| > partSize) := Chunk(data, partSize, n)],
                      target, RuntimeNames(target)[i], data, partSize, n + 1)
  {
    hide Chunk, PartPath;
    var many := |data| > partSize;
    CountBounds(|data|, partSize);
    forall k | 0 <= k < n
      ensures PartPath(target, RuntimeNames(target)[i], k, many) != PartPath(target, RuntimeNames(target)[i], n, many)
    {
      if PartPath(target, RuntimeNames(target)[i], k, many) == PartPath(target, RuntimeNames(target)[i], n, many) {
        PartPathOnce(target, i, k, many, i, n, many);
      }
    }
  }

  lemma OthersStay(before: Files, after: Files, target: string, i: nat, j: nat, many: bool, data: Bytes, partSize: nat, n: nat)
    requires i < |RUNTIME| && j < |RUNTIME| && i != j
    requires WritesOnly(before, after, target, RuntimeNames(target)[i], many)
    requires HoldsUpTo(before, target, RuntimeNames(target)[j], data, partSize, n)
    ensures HoldsUpTo(after, target, RuntimeNames(target)[j], data, partSize, n)
  {
    hide Chunk, PartPath, Lookup, RuntimeNames;
    forall l | 0 <= l < n
      ensures Lookup(after, PartPath(target, RuntimeNames(target)[j], l, |data| > partSize)) == Some(Chunk(data, partSize, l))
    {
      var path := PartPath(target, RuntimeNames(target)[j], l, |data| > partSize);
      if Lookup(after, path) != Lookup(before, path) {
        var k: nat :| path == PartPath(target, RuntimeNames(target)[i], k, many);
        PartPathOnce(target, i, k, many, j, l, |data| > partSize);
      }
    }
  }

  predicate Acceptable(dist: Files, name: string) { name in dist && 0 < |dist[name]| <= MAX_BINARY }

  predicate AllAcceptable(dist: Files, target: string) {
    forall name :: name in RuntimeNames(target) ==> Acceptable(dist, name)
  }

  /** The part files of one of the target's binaries. */
  ghost predicate HoldsBinary(files: Files, dist: Files, target: string, partSize: nat, i: nat)
    requires i < |RUNTIME| && partSize > 0
  {
    var name := RuntimeNames(target)[i];
    name in dist && Holds(files, target, name, dist[name], partSize)
  }

  /** The manifest of a target's binaries. */
  function SnapshotManifest(sha: Bytes -> string, dist: Files, target: string, meta: Metadata, partSize: nat): Manifest
    requires partSize > 0 && AllAcceptable(dist, target)
  {
    Manifest(meta, map[target := map name | name in RuntimeNames(target) :: BinaryOf(sha, target, name, dist[name], partSize)])
  }

  lemma SnapshotValidatesIff(sha: Bytes -> string, dist: Files, target: string, meta: Metadata, partSize: nat)
    requires forall x :: IsDigest(sha(x))
    requires target in TARGETS && 0 < partSize <= PART_SIZE && ValidMetadata(meta)
    requires AllAcceptable(dist, target)
    ensures ValidManifest(SnapshotManifest(sha, dist, target, meta, partSize), target) <==>
              forall name :: name in RuntimeNames(target) ==> |dist[name]| <= MAX_PARTS * partSize
  {
    hide IsDigest, ValidBinary, BinaryOf, ValidMetadata, RuntimeNames;
    var bundle := SnapshotManifest(sha, dist, target, meta, partSize).targets[target];
    assert bundle.Keys == set name | name in RuntimeNames(target);
    forall name | name in RuntimeNames(target)
      ensures name in dist && (ValidBinary(target, name, BinaryOf(sha, target, name, dist[name], partSize)) <==> |dist[name]| <= MAX_PARTS * partSize)
    {
      assert Acceptable(dist, name);
      SplitValidatesIff(sha, target, name, dist[name], partSize);
    }
    var m := SnapshotManifest(sha, dist, target, meta, partSize);
    assert m.targets[target] == bundle && m.meta == meta;
    assert forall name :: name in bundle ==> bundle[name] == BinaryOf(sha, target, name, dist[name], partSize);
    assert ValidManifest(m, target) <==> forall name :: name in bundle ==> ValidBinary(target, name, bundle[name]);
  }

  class Output {
    var files: Files

    constructor ()
      ensures files == map[]
    {
      files := map[];
    }

    /** One binary, read part after part. */
    method WriteBinary(sha: Bytes -> string, target: string, i: nat, data: Bytes, partSize: nat) returns (b: Binary)
      requires i < |RUNTIME| && partSize > 0
      modifies this
      ensures b == BinaryOf(sha, target, RuntimeNames(target)[i], data, partSize)
      ensures Holds(files, target, RuntimeNames(target)[i], data, partSize)
      ensures WritesOnly(old(files), files, target, RuntimeNames(target)[i], |data| > partSize)
    {
      hide PartPath, HoldsUpTo, Chunk, RuntimeNames;
      var name := RuntimeNames(target)[i];
      var parts := [];
      var position: nat := 0;
      HoldsNothing(files, target, name, data, partSize);
      for index := 0 to PartCount(|data|, partSize)
        invariant position == if index * partSize < |data| then index * partSize else |data|
        invariant |parts| == index && forall k :: 0 <= k < index ==> parts[k] == PartOf(sha, target, name, data, partSize, k)
        invariant HoldsUpTo(files, target, name, data, partSize, index)
        invariant WritesOnly(old(files), files, target, name, |data| > partSize)
      {
        ReadsChunk(data, partSize, index);
        var chunk := data[position..if partSize < |data| - position then position + partSize else |data|];
        position := position + |chunk|;
        var path := PartPath(target, name, index, |data| > partSize);
        OnePartMore(files, target, i, data, partSize, index);
        files := files[path := chunk];
        parts := parts + [Part(path, |chunk|, sha(chunk))];
      }
      return Binary(|data|, sha(data), parts);
    }

    method Snapshot(sha: Bytes -> string, dist: Files, target: string, meta: Metadata, partSize: nat) returns (r: Option<Manifest>)
      modifies this
      ensures r.Some? <==>
                target in TARGETS && 0 < partSize <= PART_SIZE && AllAcceptable(dist, target)
      ensures r.None? ==> files == old(files)
      ensures r.Some? ==>
                && r.value == SnapshotManifest(sha, dist, target, meta, partSize)
                && forall i :: 0 <= i < |RUNTIME| ==> HoldsBinary(files, dist, target, partSize, i)
    {
      hide HoldsUpTo, WritesOnly, BinaryOf, RuntimeNames;
      if target !in TARGETS || !(0 < partSize <= PART_SIZE) {
        return None;
      }
      var names := RuntimeNames(target);
      for i := 0 to |RUNTIME|
        invariant forall j :: 0 <= j < i ==> Acceptable(dist, names[j])
      {
        if !Acceptable(dist, names[i]) {
          return None;
        }
      }
      var bundle: Bundle := map[];
      for i := 0 to |RUNTIME|
        invariant forall name :: name in bundle <==> name in names[..i]
        invariant forall name :: name in bundle ==> name in dist && bundle[name] == BinaryOf(sha, target, name, dist[name], partSize)
        invariant forall j :: 0 <= j < i ==> HoldsBinary(files, dist, target, partSize, j)
      {
        ghost var before := files;
        var data := dist[names[i]];
        var b := WriteBinary(sha, target, i, data, partSize);
        bundle := bundle[names[i] := b];
        forall j | 0 <= j < i
          ensures HoldsBinary(files, dist, target, partSize, j)
        {
          assert HoldsBinary(before, dist, target, partSize, j);
          OthersStay(before, files, target, i, j, |data| > partSize, dist[names[j]], partSize, PartCount(|dist[names[j]]|, partSize));
        }
      }
      assert names[..|RUNTIME|] == names;
      assert bundle == SnapshotManifest(sha, dist, target, meta, partSize).targets[target];
      return Some(Manifest(meta, map[target := bundle]));
    }
  }

  lemma HoldsNothing(files: Files, target: string, name: string, data: Bytes, partSize: nat)
    ensures HoldsUpTo(files, target, name, data, partSize, 0)
  {}

  lemma ReadsChunk(data: Bytes, partSize: nat, index: nat)
    requires partSize > 0 && index < PartCount(|data|, partSize)
    ensures var from, to := index * partSize, (index + 1) * partSize;
            && from < |data| && to == from + partSize
            && Chunk(data, partSize, index) == data[from..if partSize < |data| - from then to else |data|]
  {
    CountBounds(|data|, partSize);
    Ordered(index, PartCount(|data|, partSize) - 1, partSize);
    assert (index + 1) * partSize == index * partSize + partSize;
  }

  /** What a snapshot wrote rebuilds every binary of the distribution. */
  lemma SnapshotRebuilds(sha: Bytes -> string, dist: Files, files: Files, target: string, meta: Metadata, partSize: nat, i: nat)
    requires i < |RUNTIME| && partSize > 0
    requires AllAcceptable(dist, target) && HoldsBinary(files, dist, target, partSize, i)
    ensures var name, bundle := RuntimeNames(target)[i], SnapshotManifest(sha, dist, target, meta, partSize).targets[target];
            name in bundle && Rebuild(sha, files, bundle[name]) == Some(dist[name])
  {
    hide BinaryOf, Rebuild, Holds;
    var name := RuntimeNames(target)[i];
    assert name in RuntimeNames(target);
    RoundTrip(sha, files, target, name, dist[name], partSize);
  }
}
