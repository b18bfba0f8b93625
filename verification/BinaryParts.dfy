/** Binaries split into parts, the manifest that describes them, and putting them together again. */
module BinaryParts {
  import opened Text
  import opened Numerals
  import opened BinaryMetadata

  const PART_SIZE: nat := 80 * 1024 * 1024
  const MAX_BINARY: nat := 1024 * 1024 * 1024
  const MAX_PARTS: nat := 128
  const READ_BYTES: nat := 65536

  const TARGETS: seq<string> := [
    "x86_64-unknown-linux-gnu", "aarch64-unknown-linux-gnu", "x86_64-pc-windows-msvc",
    "x86_64-apple-darwin", "aarch64-apple-darwin"]

  datatype Part = Part(path: string, size: nat, sha256: string)

  datatype Binary = Binary(size: nat, sha256: string, parts: seq<Part>)

  type Bundle = map<string, Binary>

  datatype Manifest = Manifest(meta: Metadata, targets: map<string, Bundle>)

  /** Stored files by path. */
  type Files = map<string, Bytes>

  const RUNTIME: seq<string> := ["backend", "cloud_node", "dep/container", "dep/service"]

  function Extension(target: string): string {
    if FindFrom(target, "windows", 0).Some? then ".exe" else ""
  }

  function RuntimeNames(target: string): (names: seq<string>)
    ensures |names| == |RUNTIME|
  {
    seq(|RUNTIME|, i requires 0 <= i < |RUNTIME| => RUNTIME[i] + Extension(target))
  }

  // ----- parts of one binary

  function Zeroes(n: nat): string { seq(n, _ => '0') }

  /** The numeral with at least four digits. */
  function FourDigits(n: nat): string {
    Zeroes(if |Decimal(n)| < 4 then 4 - |Decimal(n)| else 0) + Decimal(n)
  }

  function PartPath(target: string, name: string, index: nat, many: bool): string {
    "binaries/" + target + "/" + name + if many then ".part" + FourDigits(index) else ""
  }

  function PartCount(length: nat, partSize: nat): nat
    requires partSize > 0
  {
    (length + partSize - 1) / partSize
  }

  /** What the part with this index holds. */
  function Chunk(data: Bytes, partSize: nat, index: nat): Bytes {
    var from, to := index * partSize, (index + 1) * partSize;
    if from >= |data| then [] else data[from..if to < |data| then to else |data|]
  }

  function PartOf(sha: Bytes -> string, target: string, name: string, data: Bytes, partSize: nat, index: nat): Part {
    var chunk := Chunk(data, partSize, index);
    Part(PartPath(target, name, index, |data| > partSize), |chunk|, sha(chunk))
  }

  function BinaryOf(sha: Bytes -> string, target: string, name: string, data: Bytes, partSize: nat): Binary
    requires partSize > 0
  {
    Binary(|data|, sha(data), seq(PartCount(|data|, partSize), i requires i >= 0 => PartOf(sha, target, name, data, partSize, i)))
  }

  // ----- validation

  predicate IsDigest(s: string) { |s| == 64 && forall i :: 0 <= i < 64 ==> IsDigit(s[i]) || 'a' <= s[i] <= 'f' }

  function TotalSize(parts: seq<Part>): nat {
    if parts == [] then 0 else TotalSize(parts[..|parts| - 1]) + parts[|parts| - 1].size
  }

  predicate ValidPart(target: string, name: string, parts: seq<Part>, i: nat)
    requires i < |parts|
  {
    && parts[i].path == PartPath(target, name, i, |parts| > 1)
    && 0 < parts[i].size <= PART_SIZE && IsDigest(parts[i].sha256)
  }

  predicate ValidBinary(target: string, name: string, b: Binary) {
    && 0 < b.size <= MAX_BINARY && IsDigest(b.sha256)
    && 1 <= |b.parts| <= MAX_PARTS && TotalSize(b.parts) == b.size
    && forall i :: 0 <= i < |b.parts| ==> ValidPart(target, name, b.parts, i)
  }

  predicate ValidManifest(m: Manifest, target: string) {
    && ValidMetadata(m.meta) && target in TARGETS && target in m.targets
    && m.targets[target].Keys == (set name | name in RuntimeNames(target))
    && forall name :: name in m.targets[target] ==> ValidBinary(target, name, m.targets[target][name])
  }

  // ----- splitting

  lemma CountBounds(length: nat, partSize: nat)
    requires partSize > 0
    ensures var n := PartCount(length, partSize);
            && n * partSize >= length && (length > 0 ==> n > 0 && (n - 1) * partSize < length)
            && (n > 1 <==> length > partSize)
            && (forall k: nat :: n <= k <==> length <= k * partSize)
  {
    var n := PartCount(length, partSize);
    assert n * partSize <= length + partSize - 1 < (n + 1) * partSize by {
      Division(length + partSize - 1, partSize);
    }
    assert (n - 1) * partSize == n * partSize - partSize && (n + 1) * partSize == n * partSize + partSize;
    forall k: nat
      ensures n <= k <==> length <= k * partSize
    {
      if n <= k {
        Ordered(n, k, partSize);
      } else {
        Ordered(k, n - 1, partSize);
      }
    }
    if n > 1 {
      Ordered(2, n, partSize);
    }
  }

  lemma Division(a: nat, b: nat)
    requires b > 0
    ensures a / b * b <= a < (a / b + 1) * b
  {
    assert a == a / b * b + a % b;
    assert (a / b + 1) * b == a / b * b + b;
  }

  lemma Ordered(a: nat, b: nat, factor: nat)
    requires a <= b
    ensures a * factor <= b * factor
  {
    assert b * factor == a * factor + (b - a) * factor;
  }

  /** The first `n` chunks together. */
  function Chunks(data: Bytes, partSize: nat, n: nat): Bytes {
    if n == 0 then [] else Chunks(data, partSize, n - 1) + Chunk(data, partSize, n - 1)
  }

  lemma {:induction false} ChunksArePrefix(data: Bytes, partSize: nat, n: nat)
    ensures Chunks(data, partSize, n) == if n * partSize <= |data| then data[..n * partSize] else data
  {
    if n > 0 {
      ChunksArePrefix(data, partSize, n - 1);
      assert n * partSize == (n - 1) * partSize + partSize;
    }
  }

  lemma ChunkSize(data: Bytes, partSize: nat, index: nat)
    requires partSize > 0 && index < PartCount(|data|, partSize)
    ensures 0 < |Chunk(data, partSize, index)| <= partSize
  {
    CountBounds(|data|, partSize);
    Ordered(index, PartCount(|data|, partSize) - 1, partSize);
    assert (index + 1) * partSize == index * partSize + partSize;
  }

  lemma {:induction false} TotalOfChunks(sha: Bytes -> string, target: string, name: string, data: Bytes, partSize: nat, n: nat)
    requires partSize > 0
    requires n <= PartCount(|data|, partSize)
    ensures TotalSize(BinaryOf(sha, target, name, data, partSize).parts[..n]) == |Chunks(data, partSize, n)|
  {
    hide PartPath, Chunk;
    if n > 0 {
      TotalOfChunks(sha, target, name, data, partSize, n - 1);
      var parts := BinaryOf(sha, target, name, data, partSize).parts;
      assert parts[..n][..n - 1] == parts[..n - 1];
    }
  }

  lemma AllChunks(data: Bytes, partSize: nat)
    requires partSize > 0
    ensures Chunks(data, partSize, PartCount(|data|, partSize)) == data
  {
    CountBounds(|data|, partSize);
    ChunksArePrefix(data, partSize, PartCount(|data|, partSize));
    var n := PartCount(|data|, partSize) * partSize;
    assert n == |data| ==> data[..n] == data;
  }

  /** What a snapshot makes of an acceptable binary passes validation exactly when it has at most 128 parts. */
  lemma SplitValidatesIff(sha: Bytes -> string, target: string, name: string, data: Bytes, partSize: nat)
    requires forall x :: IsDigest(sha(x))
    requires 0 < |data| <= MAX_BINARY && 0 < partSize <= PART_SIZE
    ensures ValidBinary(target, name, BinaryOf(sha, target, name, data, partSize)) <==> |data| <= MAX_PARTS * partSize
  {
    hide PartPath, IsDigest, Chunk;
    var b := BinaryOf(sha, target, name, data, partSize);
    CountBounds(|data|, partSize);
    TotalOfChunks(sha, target, name, data, partSize, |b.parts|);
    AllChunks(data, partSize);
    assert b.parts[..|b.parts|] == b.parts;
    forall i | 0 <= i < |b.parts|
      ensures ValidPart(target, name, b.parts, i)
    {
      ChunkSize(data, partSize, i);
      assert IsDigest(sha(Chunk(data, partSize, i)));
    }
    assert IsDigest(sha(data));
  }

  /** With the default part size every acceptable binary fits. */
  lemma DefaultSplitValidates(sha: Bytes -> string, target: string, name: string, data: Bytes)
    requires forall x :: IsDigest(sha(x))
    requires 0 < |data| <= MAX_BINARY
    ensures ValidBinary(target, name, BinaryOf(sha, target, name, data, PART_SIZE))
  {
    SplitValidatesIff(sha, target, name, data, PART_SIZE);
  }

  // ----- part paths

  lemma {:induction false} ZeroesAddNothing(n: nat, digits: string)
    requires forall i :: 0 <= i < |digits| ==> IsDigit(digits[i])
    ensures DecimalValue(Zeroes(n) + digits) == DecimalValue(digits)
    decreases |digits|, n
  {
    var s := Zeroes(n) + digits;
    if digits != "" {
      ZeroesAddNothing(n, digits[..|digits| - 1]);
      assert s[..|s| - 1] == Zeroes(n) + digits[..|digits| - 1];
    } else if n > 0 {
      ZeroesAddNothing(n - 1, "");
      assert s[..n - 1] == Zeroes(n - 1) + "" && s[n - 1] == '0';
    }
  }

  lemma FourDigitsOnce(a: nat, b: nat)
    requires FourDigits(a) == FourDigits(b)
    ensures a == b
  {
    ZeroesAddNothing(if |Decimal(a)| < 4 then 4 - |Decimal(a)| else 0, Decimal(a));
    ZeroesAddNothing(if |Decimal(b)| < 4 then 4 - |Decimal(b)| else 0, Decimal(b));
    DecimalHasValue(a);
    DecimalHasValue(b);
  }

  /** No two parts of a bundle share a path. */
  lemma PartPathOnce(target: string, i: nat, a: nat, manyA: bool, j: nat, b: nat, manyB: bool)
    requires i < |RUNTIME| && j < |RUNTIME|
    requires PartPath(target, RuntimeNames(target)[i], a, manyA) == PartPath(target, RuntimeNames(target)[j], b, manyB)
    ensures i == j && (manyA && manyB ==> a == b)
  {
    var head := "binaries/" + target + "/";
    var first, second := RuntimeNames(target)[i], RuntimeNames(target)[j];
    PathTail(target, first, a, manyA);
    PathTail(target, second, b, manyB);
    var tail := PartPath(target, first, a, manyA)[|head|..];
    assert first <= tail && second <= tail;
    assert first[0] == tail[0] == second[0] && first[4] == tail[4] == second[4];
    assert first == second;
    if manyA && manyB {
      var n := |head| + |first| + |".part"|;
      assert PartPath(target, first, a, true)[n..] == FourDigits(a);
      assert PartPath(target, first, b, true)[n..] == FourDigits(b);
      FourDigitsOnce(a, b);
    }
  }

  lemma PathTail(target: string, name: string, index: nat, many: bool)
    ensures var n := |"binaries/" + target + "/"|;
            PartPath(target, name, index, many)[n..] == name + if many then ".part" + FourDigits(index) else ""
  {
    hide FourDigits;
  }

  // ----- rebuilding

  predicate PartStored(sha: Bytes -> string, files: Files, part: Part) {
    part.path in files && |files[part.path]| == part.size && sha(files[part.path]) == part.sha256
  }

  /** The stored parts in order, each checked against the manifest. */
  function CopyParts(sha: Bytes -> string, files: Files, parts: seq<Part>): Option<Bytes> {
    if parts == [] then Some([])
    else
      var before := CopyParts(sha, files, parts[..|parts| - 1]);
      var last := parts[|parts| - 1];
      if before.None? || !PartStored(sha, files, last) then None else Some(before.value + files[last.path])
  }

  /** A binary is rebuilt from its parts and checked once more as a whole. */
  function Rebuild(sha: Bytes -> string, files: Files, b: Binary): Option<Bytes> {
    var copied := CopyParts(sha, files, b.parts);
    if copied.None? || |copied.value| != b.size || sha(copied.value) != b.sha256 then None else copied
  }

  /** The stored files hold the first `n` parts of `data`. */
  ghost predicate HoldsUpTo(files: Files, target: string, name: string, data: Bytes, partSize: nat, n: nat) {
    forall i :: 0 <= i < n ==>
      Lookup(files, PartPath(target, name, i, |data| > partSize)) == Some(Chunk(data, partSize, i))
  }

  ghost predicate Holds(files: Files, target: string, name: string, data: Bytes, partSize: nat)
    requires partSize > 0
  {
    HoldsUpTo(files, target, name, data, partSize, PartCount(|data|, partSize))
  }

  lemma {:induction false} CopiesChunks(sha: Bytes -> string, files: Files, target: string, name: string, data: Bytes, partSize: nat, n: nat)
    requires partSize > 0 && Holds(files, target, name, data, partSize)
    requires n <= PartCount(|data|, partSize)
    ensures CopyParts(sha, files, BinaryOf(sha, target, name, data, partSize).parts[..n]) == Some(Chunks(data, partSize, n))
  {
    hide PartPath, Chunk;
    if n > 0 {
      CopiesChunks(sha, files, target, name, data, partSize, n - 1);
      var parts := BinaryOf(sha, target, name, data, partSize).parts;
      assert parts[..n][..n - 1] == parts[..n - 1];
      assert parts[n - 1] == PartOf(sha, target, name, data, partSize, n - 1);
    }
  }

  /** Splitting and rebuilding gives the binary back. */
  lemma RoundTrip(sha: Bytes -> string, files: Files, target: string, name: string, data: Bytes, partSize: nat)
    requires partSize > 0 && Holds(files, target, name, data, partSize)
    ensures Rebuild(sha, files, BinaryOf(sha, target, name, data, partSize)) == Some(data)
  {
    hide Chunk;
    var b := BinaryOf(sha, target, name, data, partSize);
    CopiesChunks(sha, files, target, name, data, partSize, |b.parts|);
    AllChunks(data, partSize);
    assert b.parts[..|b.parts|] == b.parts;
  }

  /** Copying succeeds exactly when every part is there with its size and digest. */
  lemma {:induction false} CopiedIff(sha: Bytes -> string, files: Files, parts: seq<Part>)
    ensures CopyParts(sha, files, parts).Some? <==> forall i :: 0 <= i < |parts| ==> PartStored(sha, files, parts[i])
    ensures CopyParts(sha, files, parts).Some? ==> |CopyParts(sha, files, parts).value| == TotalSize(parts)
    decreases |parts|
  {
    hide PartStored;
    if parts != [] {
      CopiedIff(sha, files, parts[..|parts| - 1]);
      assert PartStored(sha, files, parts[|parts| - 1]) ==> |files[parts[|parts| - 1].path]| == parts[|parts| - 1].size by {
        StoredSize(sha, files, parts[|parts| - 1]);
      }
    }
  }

  lemma StoredSize(sha: Bytes -> string, files: Files, part: Part)
    ensures PartStored(sha, files, part) ==> part.path in files && |files[part.path]| == part.size
  {}

  /** A changed part is refused: always when its length changes, otherwise unless its digest is the same. */
  lemma ChangedPartIsRefused(sha: Bytes -> string, files: Files, target: string, name: string, data: Bytes, partSize: nat,
                             index: nat, changed: Bytes)
    requires partSize > 0 && index < PartCount(|data|, partSize)
    requires |changed| != |Chunk(data, partSize, index)| || sha(changed) != sha(Chunk(data, partSize, index))
    ensures var b := BinaryOf(sha, target, name, data, partSize);
            Rebuild(sha, files[b.parts[index].path := changed], b) == None
  {
    hide Chunk, PartPath;
    var b := BinaryOf(sha, target, name, data, partSize);
    var after := files[b.parts[index].path := changed];
    CopiedIff(sha, after, b.parts);
    assert b.parts[index] == PartOf(sha, target, name, data, partSize, index);
    assert !PartStored(sha, after, b.parts[index]);
  }

  // ----- publication

  /** The check before publication: every part unchanged, and the parts together the binary. */
  predicate Assembled(sha: Bytes -> string, files: Files, b: Binary) {
    && (forall i :: 0 <= i < |b.parts| ==> PartStored(sha, files, b.parts[i]))
    && CopyParts(sha, files, b.parts).Some? && sha(CopyParts(sha, files, b.parts).value) == b.sha256
  }

  /** Whatever passes validation and the check before publication can be rebuilt, with the promised size and digest. */
  lemma AssembledRebuilds(sha: Bytes -> string, files: Files, target: string, name: string, b: Binary)
    requires ValidBinary(target, name, b)
    ensures Rebuild(sha, files, b).Some? <==> Assembled(sha, files, b)
    ensures Rebuild(sha, files, b).Some? ==> |Rebuild(sha, files, b).value| == b.size && sha(Rebuild(sha, files, b).value) == b.sha256
  {
    hide PartStored, ValidPart;
    CopiedIff(sha, files, b.parts);
  }
}
