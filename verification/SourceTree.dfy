/** The identity of a source tree: the selected files in path order, encoded into one hash input. */
module SourceTree {
  import opened Text
  import opened Numerals

  /** Paths and digests are the bytes of their texts; 47 is '/', 92 is '\', 58 is ':'. */
  datatype SourceFile = SourceFile(path: Bytes, size: nat, sha256: Bytes)

  datatype TreeError =
    | NoSelectedSourceFiles
    | EmptySourceSelection
    | UnsafePath(path: Bytes)
    | UnsafeSourceRoot
    | InvalidSha256
    | DuplicatePath(path: Bytes)
    | SizeOverflow
    | EmptySourceTree
    | TooManyFiles
    | FileTooLarge
    | SourceTooLarge

  /** What reaches the tree hasher, and the totals beside it. */
  datatype TreeDigest = TreeDigest(input: Bytes, fileCount: nat, totalBytes: nat)

  /** The widths the source gives these fields. */
  ghost predicate Representable(f: SourceFile) { |f.path| < U64_BOUND && f.size < U64_BOUND }

  ghost predicate AllRepresentable(files: seq<SourceFile>) {
    forall i :: 0 <= i < |files| ==> Representable(files[i])
  }

  // ----- checks on bytes

  predicate IsHexByte(b: Byte) { 48 <= b <= 57 || 97 <= b <= 102 || 65 <= b <= 70 }

  function LowerByte(b: Byte): Byte { if 65 <= b <= 90 then b + 32 else b }

  function LowerBytes(s: Bytes): (r: Bytes)
    ensures |r| == |s|
    ensures forall i :: 0 <= i < |s| ==> r[i] == LowerByte(s[i])
  {
    seq(|s|, i requires 0 <= i < |s| => LowerByte(s[i]))
  }

  predicate ValidSha256(s: Bytes) { |s| == 64 && forall i :: 0 <= i < |s| ==> IsHexByte(s[i]) }

  function TrimSlashes(s: Bytes): Bytes
    decreases |s|
  {
    if s != [] && s[|s| - 1] == 47 then TrimSlashes(s[..|s| - 1]) else s
  }

  predicate SafePart(part: Bytes) { part != [] && part != [46] && part != [46, 46] }

  predicate SafeParts(s: Bytes) {
    forall k :: 0 <= k < |Split(s, 47)| ==> SafePart(Split(s, 47)[k])
  }

  predicate SafeRoot(root: Bytes) {
    var trimmed := TrimSlashes(root);
    trimmed != [] && 92 !in root && root[0] != 47 && 58 !in root && SafeParts(trimmed)
  }

  predicate SafeFilePath(path: Bytes) {
    var trimmed := TrimSlashes(path);
    trimmed != [] && path[|path| - 1] != 47 && 92 !in path && path[0] != 47 && 58 !in path && SafeParts(trimmed)
  }

  // ----- selection and order

  predicate Under(root: Bytes, path: Bytes) {
    path == root || (|root| < |path| && root == path[..|root|] && path[|root|] == 47)
  }

  predicate Includes(roots: set<Bytes>, path: Bytes) { exists root :: root in roots && Under(root, path) }

  function Selected(roots: set<Bytes>, files: seq<SourceFile>): (r: seq<SourceFile>)
    ensures forall i :: 0 <= i < |r| ==> r[i] in files && Includes(roots, r[i].path)
  {
    if files == [] then []
    else
      var rest := Selected(roots, files[1..]);
      if Includes(roots, files[0].path) then [files[0]] + rest else rest
  }

  /** Bytewise lexicographic order. */
  predicate PathLess(a: Bytes, b: Bytes) {
    if b == [] then false
    else if a == [] then true
    else if a[0] != b[0] then a[0] < b[0]
    else PathLess(a[1..], b[1..])
  }

  lemma {:induction false} PathOrder(a: Bytes, b: Bytes)
    ensures PathLess(a, b) ==> a != b && !PathLess(b, a)
    ensures PathLess(a, b) || PathLess(b, a) || a == b
  {
    if a != [] && b != [] && a[0] == b[0] {
      PathOrder(a[1..], b[1..]);
      assert a == [a[0]] + a[1..] && b == [b[0]] + b[1..];
    }
  }

  lemma {:induction false} PathTransitive(a: Bytes, b: Bytes, c: Bytes)
    requires !PathLess(b, a) && !PathLess(c, b)
    ensures !PathLess(c, a)
    ensures PathLess(a, b) || PathLess(b, c) ==> PathLess(a, c)
  {
    if a != [] && b != [] && c != [] {
      if a[0] == b[0] && b[0] == c[0] {
        PathTransitive(a[1..], b[1..], c[1..]);
      }
    }
  }

  function Insert(f: SourceFile, sorted: seq<SourceFile>): seq<SourceFile> {
    if sorted == [] || !PathLess(sorted[0].path, f.path) then [f] + sorted
    else [sorted[0]] + Insert(f, sorted[1..])
  }

  /** The stable sort by path. */
  function SortByPath(files: seq<SourceFile>): seq<SourceFile> {
    if files == [] then [] else Insert(files[0], SortByPath(files[1..]))
  }

  predicate Sorted(files: seq<SourceFile>) {
    forall i, j :: 0 <= i < j < |files| ==> !PathLess(files[j].path, files[i].path)
  }

  lemma {:induction false} InsertSorts(f: SourceFile, sorted: seq<SourceFile>)
    requires Sorted(sorted)
    ensures Sorted(Insert(f, sorted))
    ensures multiset(Insert(f, sorted)) == multiset{f} + multiset(sorted)
  {
    var r := Insert(f, sorted);
    if sorted == [] {
    } else if !PathLess(sorted[0].path, f.path) {
      forall j | 0 <= j < |sorted|
        ensures !PathLess(sorted[j].path, f.path)
      {
        if j > 0 {
          PathTransitive(f.path, sorted[0].path, sorted[j].path);
        }
      }
    } else {
      var rest := Insert(f, sorted[1..]);
      InsertSorts(f, sorted[1..]);
      PathOrder(sorted[0].path, f.path);
      assert sorted == [sorted[0]] + sorted[1..];
      forall j | 0 <= j < |rest|
        ensures !PathLess(rest[j].path, sorted[0].path)
      {
        assert rest[j] in multiset(rest);
        assert rest[j] == f || rest[j] in sorted[1..];
      }
    }
  }

  lemma {:induction false} SortSorts(files: seq<SourceFile>)
    ensures Sorted(SortByPath(files)) && multiset(SortByPath(files)) == multiset(files)
  {
    if files != [] {
      SortSorts(files[1..]);
      InsertSorts(files[0], SortByPath(files[1..]));
      assert files == [files[0]] + files[1..];
    }
  }

  // ----- the hash input

  /** "RBE-SOURCE-TREE-SHA256-V1\0" */
  const TREE_TAG: Bytes :=
    [82, 66, 69, 45, 83, 79, 85, 82, 67, 69, 45, 84, 82, 69, 69, 45, 83, 72, 65, 50, 53, 54, 45, 86, 49, 0]

  function Record(f: SourceFile): Bytes {
    BigEndian(|f.path|, 8) + f.path + BigEndian(f.size, 8) + LowerBytes(f.sha256)
  }

  function Records(files: seq<SourceFile>): Bytes
    decreases |files|
  {
    if files == [] then [] else Records(files[..|files| - 1]) + Record(files[|files| - 1])
  }

  function TotalBytes(files: seq<SourceFile>): nat {
    if files == [] then 0 else files[0].size + TotalBytes(files[1..])
  }

  lemma {:induction false} TotalOfPrefix(files: seq<SourceFile>, i: nat)
    requires i < |files|
    ensures TotalBytes(files[..i + 1]) == TotalBytes(files[..i]) + files[i].size
  {
    if i == 0 {
      assert files[..1][1..] == [] && files[..0] == [];
    } else {
      TotalOfPrefix(files[1..], i - 1);
      assert files[..i + 1][1..] == files[1..][..i] && files[..i][1..] == files[1..][..i - 1];
    }
  }

  lemma {:induction false} TotalOfInsert(f: SourceFile, sorted: seq<SourceFile>)
    ensures TotalBytes(Insert(f, sorted)) == f.size + TotalBytes(sorted)
  {
    if sorted != [] && PathLess(sorted[0].path, f.path) {
      TotalOfInsert(f, sorted[1..]);
    }
  }

  lemma {:induction false} TotalOfSorted(files: seq<SourceFile>)
    ensures TotalBytes(SortByPath(files)) == TotalBytes(files)
  {
    if files != [] {
      TotalOfSorted(files[1..]);
      TotalOfInsert(files[0], SortByPath(files[1..]));
    }
  }

  /** The first file of the order that is refused, checked in the order the flow checks. */
  function Problem(files: seq<SourceFile>): Option<TreeError>
    decreases |files|
  {
    if files == [] then None
    else
      var init, last := files[..|files| - 1], files[|files| - 1];
      var earlier := Problem(init);
      if earlier.Some? then earlier
      else if !SafeFilePath(last.path) then Some(UnsafePath(last.path))
      else if !ValidSha256(last.sha256) then Some(InvalidSha256)
      else if exists i :: 0 <= i < |init| && LowerBytes(init[i].path) == LowerBytes(last.path) then Some(DuplicatePath(last.path))
      else if TotalBytes(files) >= U64_BOUND then Some(SizeOverflow)
      else None
  }

  function TreeOf(roots: set<Bytes>, files: seq<SourceFile>): Result<TreeDigest, TreeError> {
    var selected := SortByPath(Selected(roots, files));
    if selected == [] then Err(NoSelectedSourceFiles)
    else if Problem(selected).Some? then Err(Problem(selected).value)
    else Ok(TreeDigest(TREE_TAG + Records(selected), |selected|, TotalBytes(selected)))
  }

  method SelectFiles(roots: set<Bytes>, files: seq<SourceFile>) returns (chosen: seq<SourceFile>)
    ensures chosen == Selected(roots, files)
  {
    hide Includes;
    chosen := [];
    for i := 0 to |files|
      invariant chosen + Selected(roots, files[i..]) == Selected(roots, files)
    {
      assert files[i..][0] == files[i] && files[i..][1..] == files[i + 1..];
      if Includes(roots, files[i].path) {
        chosen := chosen + [files[i]];
      }
    }
  }

  /** Check each file in order and feed the hasher with it. */
  method HashFiles(sorted: seq<SourceFile>) returns (r: Result<TreeDigest, TreeError>)
    ensures r == if Problem(sorted).Some? then Err(Problem(sorted).value)
                 else Ok(TreeDigest(TREE_TAG + Records(sorted), |sorted|, TotalBytes(sorted)))
  {
    hide SafeFilePath, Record, ValidSha256;
    var seen, total, input := {}, 0, TREE_TAG;
    for i := 0 to |sorted|
      invariant SeenAre(seen, sorted[..i])
      invariant total == TotalBytes(sorted[..i]) && input == TREE_TAG + Records(sorted[..i])
      invariant Problem(sorted[..i]).None?
    {
      var file := sorted[i];
      assert sorted[..i + 1][..i] == sorted[..i];
      ProblemPersists(sorted, i + 1);
      TotalOfPrefix(sorted, i);
      if !SafeFilePath(file.path) {
        return Err(UnsafePath(file.path));
      }
      if !ValidSha256(file.sha256) {
        return Err(InvalidSha256);
      }
      if LowerBytes(file.path) in seen {
        return Err(DuplicatePath(file.path));
      }
      SeenGrows(seen, sorted, i);
      seen := seen + {LowerBytes(file.path)};
      if total + file.size >= U64_BOUND {
        return Err(SizeOverflow);
      }
      total := total + file.size;
      input := input + Record(file);
    }
    assert sorted[..|sorted|] == sorted;
    return Ok(TreeDigest(input, |sorted|, total));
  }

  ghost predicate SeenAre(seen: set<Bytes>, files: seq<SourceFile>) {
    forall key :: key in seen <==> exists i :: 0 <= i < |files| && LowerBytes(files[i].path) == key
  }

  lemma SeenGrows(seen: set<Bytes>, files: seq<SourceFile>, i: nat)
    requires i < |files| && SeenAre(seen, files[..i])
    ensures SeenAre(seen + {LowerBytes(files[i].path)}, files[..i + 1])
  {
    var longer := files[..i + 1];
    forall k | 0 <= k <= i
      ensures LowerBytes(files[k].path) in seen + {LowerBytes(files[i].path)}
    {
      assert k < i ==> files[..i][k] == files[k];
    }
    forall key | key in seen + {LowerBytes(files[i].path)}
      ensures exists k :: 0 <= k < |longer| && LowerBytes(longer[k].path) == key
    {
      if key in seen {
        var k :| 0 <= k < |files[..i]| && LowerBytes(files[..i][k].path) == key;
        assert longer[k] == files[..i][k];
      } else {
        assert longer[i] == files[i];
      }
    }
  }

  /** Filter, sort, check and hash. */
  method FromFiles(roots: set<Bytes>, files: seq<SourceFile>) returns (r: Result<TreeDigest, TreeError>)
    ensures r == TreeOf(roots, files)
  {
    var chosen := SelectFiles(roots, files);
    SortSorts(chosen);
    assert |multiset(SortByPath(chosen))| == |SortByPath(chosen)| && |multiset(chosen)| == |chosen|;
    if chosen == [] {
      return Err(NoSelectedSourceFiles);
    }
    r := HashFiles(SortByPath(chosen));
  }

  lemma {:induction false} ProblemPersists(files: seq<SourceFile>, i: nat)
    requires i <= |files|
    ensures Problem(files[..i]).Some? ==> Problem(files) == Problem(files[..i])
    decreases |files| - i
  {
    if i == |files| {
      assert files[..i] == files;
    } else {
      ProblemPersists(files, i + 1);
      assert files[..i + 1][..i] == files[..i];
    }
  }

  // ----- order of the input

  predicate StrictlySorted(files: seq<SourceFile>) {
    forall i, j :: 0 <= i < j < |files| ==> PathLess(files[i].path, files[j].path)
  }

  lemma {:induction false} AcceptedAreDistinct(files: seq<SourceFile>)
    requires Problem(files).None?
    ensures forall i, j :: 0 <= i < j < |files| ==> LowerBytes(files[i].path) != LowerBytes(files[j].path)
    ensures forall i :: 0 <= i < |files| ==> SafeFilePath(files[i].path) && ValidSha256(files[i].sha256)
    decreases |files|
  {
    hide SafeFilePath, ValidSha256;
    if files != [] {
      var init := files[..|files| - 1];
      AcceptedAreDistinct(init);
      assert forall i :: 0 <= i < |init| ==> init[i] == files[i];
    }
  }

  lemma AcceptedAreStrict(files: seq<SourceFile>)
    requires Sorted(files) && Problem(files).None?
    ensures StrictlySorted(files)
  {
    AcceptedAreDistinct(files);
    forall i, j | 0 <= i < j < |files|
      ensures PathLess(files[i].path, files[j].path)
    {
      PathOrder(files[i].path, files[j].path);
    }
  }

  lemma SameSmallest(a: seq<SourceFile>, b: seq<SourceFile>)
    requires a != [] && b != [] && StrictlySorted(a) && Sorted(b)
    requires a[0] in b && b[0] in a
    ensures a[0] == b[0]
  {
    var i :| 0 <= i < |b| && b[i] == a[0];
    var j :| 0 <= j < |a| && a[j] == b[0];
    var p, q := a[0].path, b[0].path;
    PathOrder(p, q);
    assert i > 0 ==> !PathLess(p, q);
    assert j > 0 ==> PathLess(p, q);
  }

  lemma SortedTail(a: seq<SourceFile>)
    requires a != []
    ensures StrictlySorted(a) ==> StrictlySorted(a[1..])
    ensures Sorted(a) ==> Sorted(a[1..])
    ensures multiset(a[1..]) == multiset(a) - multiset{a[0]}
  {
    assert a == [a[0]] + a[1..];
  }

  /** Sorting leaves no choice when the paths differ. */
  lemma {:induction false} SortedIsUnique(a: seq<SourceFile>, b: seq<SourceFile>)
    requires StrictlySorted(a) && Sorted(b) && multiset(a) == multiset(b)
    ensures a == b
    decreases |a|
  {
    hide Sorted, StrictlySorted;
    assert |a| == |multiset(a)| == |multiset(b)| == |b|;
    if a != [] {
      assert a[0] in multiset(b) && b[0] in multiset(a);
      SameSmallest(a, b);
      SortedTail(a);
      SortedTail(b);
      SortedIsUnique(a[1..], b[1..]);
      assert a == [a[0]] + a[1..] && b == [b[0]] + b[1..];
    }
  }

  lemma {:induction false} SelectedPermutes(roots: set<Bytes>, a: seq<SourceFile>, b: seq<SourceFile>)
    requires multiset(a) == multiset(b)
    ensures multiset(Selected(roots, a)) == multiset(Selected(roots, b))
  {
    forall f: SourceFile
      ensures multiset(Selected(roots, a))[f] == multiset(Selected(roots, b))[f]
    {
      SelectedCounts(roots, a, f);
      SelectedCounts(roots, b, f);
    }
  }

  lemma {:induction false} SelectedCounts(roots: set<Bytes>, files: seq<SourceFile>, f: SourceFile)
    ensures multiset(Selected(roots, files))[f] == if Includes(roots, f.path) then multiset(files)[f] else 0
  {
    if files != [] {
      SelectedCounts(roots, files[1..], f);
      assert files == [files[0]] + files[1..];
    }
  }

  /** A tree is accepted in one order exactly when it is accepted in every order, with the same hash input and
      totals. */
  lemma OrderDoesNotMatter(roots: set<Bytes>, a: seq<SourceFile>, b: seq<SourceFile>)
    requires multiset(a) == multiset(b)
    ensures TreeOf(roots, a).Ok? <==> TreeOf(roots, b).Ok?
    ensures TreeOf(roots, a).Ok? ==> TreeOf(roots, a) == TreeOf(roots, b)
  {
    SelectedPermutes(roots, a, b);
    var x, y := SortByPath(Selected(roots, a)), SortByPath(Selected(roots, b));
    SortSorts(Selected(roots, a));
    SortSorts(Selected(roots, b));
    if TreeOf(roots, a).Ok? {
      AcceptedAreStrict(x);
      SortedIsUnique(x, y);
    }
    if TreeOf(roots, b).Ok? {
      AcceptedAreStrict(y);
      SortedIsUnique(y, x);
    }
  }

  // ----- identity

  /** What of a file the identity depends on. */
  function Canonical(f: SourceFile): SourceFile { f.(sha256 := LowerBytes(f.sha256)) }

  function CanonicalSet(files: seq<SourceFile>): set<SourceFile> {
    set i | 0 <= i < |files| :: Canonical(files[i])
  }

  lemma RecordsSplit(f: SourceFile, rest: Bytes)
    ensures var r := Record(f) + rest;
            && |r| >= 16 + |f.path| + |f.sha256|
            && r[..8] == BigEndian(|f.path|, 8)
            && r[8..8 + |f.path|] == f.path
            && r[8 + |f.path|..16 + |f.path|] == BigEndian(f.size, 8)
            && r[16 + |f.path|..16 + |f.path| + |f.sha256|] == LowerBytes(f.sha256)
            && r[16 + |f.path| + |f.sha256|..] == rest
  {}

  /** Records from the front, which is how a reader would decode them. */
  lemma {:induction false} RecordsFront(files: seq<SourceFile>)
    requires files != []
    ensures Records(files) == Record(files[0]) + Records(files[1..])
    decreases |files|
  {
    hide Record;
    var n := |files| - 1;
    if n > 0 {
      RecordsFront(files[..n]);
      assert files[..n][1..] == files[1..][..n - 1];
      assert files[1..][n - 1] == files[n];
    } else {
      assert files[..0] == [] && files[1..] == [];
    }
  }

  /** The encoding is uniquely decodable. */
  lemma {:induction false} RecordsDetermine(a: seq<SourceFile>, b: seq<SourceFile>)
    requires AllRepresentable(a) && AllRepresentable(b)
    requires forall i :: 0 <= i < |a| ==> |a[i].sha256| == 64
    requires forall i :: 0 <= i < |b| ==> |b[i].sha256| == 64
    requires Records(a) == Records(b)
    ensures |a| == |b| && forall i :: 0 <= i < |a| ==> Canonical(a[i]) == Canonical(b[i])
    decreases |a|
  {
    if a != [] {
      RecordsFront(a);
      RecordsSplit(a[0], Records(a[1..]));
    }
    if b != [] {
      RecordsFront(b);
      RecordsSplit(b[0], Records(b[1..]));
    }
    if a != [] && b != [] {
      var x, y := a[0], b[0];
      U64Injective(|x.path|, |y.path|);
      U64Injective(x.size, y.size);
      RecordsDetermine(a[1..], b[1..]);
      forall i | 0 <= i < |a|
        ensures Canonical(a[i]) == Canonical(b[i])
      {
        assert i > 0 ==> a[i] == a[1..][i - 1] && b[i] == b[1..][i - 1];
      }
    }
  }

  lemma SameRecord(f: SourceFile, g: SourceFile)
    requires Canonical(f) == Canonical(g)
    ensures Record(f) == Record(g)
  {}

  lemma {:induction false} CanonicalRecords(a: seq<SourceFile>, b: seq<SourceFile>)
    requires |a| == |b| && forall i :: 0 <= i < |a| ==> Canonical(a[i]) == Canonical(b[i])
    ensures Records(a) == Records(b)
    decreases |a|
  {
    hide Record;
    if a != [] {
      var n := |a| - 1;
      CanonicalRecords(a[..n], b[..n]);
      SameRecord(a[n], b[n]);
    }
  }

  /** Strictly sorted files with the same canonical set are the same canonical sequence. */
  lemma {:induction false} SetDetermines(a: seq<SourceFile>, b: seq<SourceFile>)
    requires StrictlySorted(a) && StrictlySorted(b) && CanonicalSet(a) == CanonicalSet(b)
    ensures |a| == |b| && forall i :: 0 <= i < |a| ==> Canonical(a[i]) == Canonical(b[i])
    decreases |a|
  {
    if a != [] {
      assert Canonical(a[0]) in CanonicalSet(b);
    }
    if b != [] {
      assert Canonical(b[0]) in CanonicalSet(a);
    }
    if a != [] && b != [] {
      SameFirst(a, b);
      assert CanonicalSet(a[1..]) == CanonicalSet(a) - {Canonical(a[0])} by { SetOfRest(a); }
      assert CanonicalSet(b[1..]) == CanonicalSet(b) - {Canonical(b[0])} by { SetOfRest(b); }
      SetDetermines(a[1..], b[1..]);
      forall i | 0 <= i < |a|
        ensures Canonical(a[i]) == Canonical(b[i])
      {
        assert i > 0 ==> a[i] == a[1..][i - 1] && b[i] == b[1..][i - 1];
      }
    }
  }

  lemma SameFirst(a: seq<SourceFile>, b: seq<SourceFile>)
    requires StrictlySorted(a) && StrictlySorted(b) && a != [] && b != []
    requires Canonical(a[0]) in CanonicalSet(b) && Canonical(b[0]) in CanonicalSet(a)
    ensures Canonical(a[0]) == Canonical(b[0])
  {
    var i :| 0 <= i < |b| && Canonical(b[i]) == Canonical(a[0]);
    var j :| 0 <= j < |a| && Canonical(a[j]) == Canonical(b[0]);
    var p, q := a[0].path, b[0].path;
    PathOrder(p, q);
    assert i > 0 ==> PathLess(q, p);
    assert j > 0 ==> PathLess(p, q);
  }

  lemma SetOfRest(a: seq<SourceFile>)
    requires StrictlySorted(a) && a != []
    ensures CanonicalSet(a[1..]) == CanonicalSet(a) - {Canonical(a[0])}
  {
    forall c | c in CanonicalSet(a[1..])
      ensures c in CanonicalSet(a) - {Canonical(a[0])}
    {
      var i :| 0 <= i < |a[1..]| && Canonical(a[1..][i]) == c;
      assert a[i + 1] == a[1..][i];
      PathOrder(a[0].path, a[i + 1].path);
    }
    forall c | c in CanonicalSet(a) - {Canonical(a[0])}
      ensures c in CanonicalSet(a[1..])
    {
      var i :| 0 <= i < |a| && Canonical(a[i]) == c;
      assert a[1..][i - 1] == a[i];
    }
  }

  lemma SelectedSet(roots: set<Bytes>, files: seq<SourceFile>)
    ensures CanonicalSet(SortByPath(Selected(roots, files))) == CanonicalSet(Selected(roots, files))
  {
    var s, t := Selected(roots, files), SortByPath(Selected(roots, files));
    SortSorts(s);
    forall c | c in CanonicalSet(t)
      ensures c in CanonicalSet(s)
    {
      var i :| 0 <= i < |t| && Canonical(t[i]) == c;
      assert t[i] in multiset(s);
    }
    forall c | c in CanonicalSet(s)
      ensures c in CanonicalSet(t)
    {
      var i :| 0 <= i < |s| && Canonical(s[i]) == c;
      assert s[i] in multiset(t);
    }
  }

  /** Two accepted trees feed the hasher the same bytes exactly when they select the same set of paths, sizes and
      lower-cased digests. */
  lemma IdentityIsCanonical(r1: set<Bytes>, a: seq<SourceFile>, r2: set<Bytes>, b: seq<SourceFile>)
    requires AllRepresentable(a) && AllRepresentable(b)
    requires TreeOf(r1, a).Ok? && TreeOf(r2, b).Ok?
    ensures TreeOf(r1, a).value.input == TreeOf(r2, b).value.input
       <==> CanonicalSet(Selected(r1, a)) == CanonicalSet(Selected(r2, b))
  {
    hide Sorted, StrictlySorted, SortByPath, Selected, Problem, Records, AllRepresentable, CanonicalSet;
    var x, y := SortByPath(Selected(r1, a)), SortByPath(Selected(r2, b));
    SortSorts(Selected(r1, a));
    SortSorts(Selected(r2, b));
    SelectedSet(r1, a);
    SelectedSet(r2, b);
    AcceptedAreStrict(x);
    AcceptedAreStrict(y);
    AcceptedAreDistinct(x);
    AcceptedAreDistinct(y);
    SortedAreRepresentable(r1, a);
    SortedAreRepresentable(r2, b);
    if CanonicalSet(x) == CanonicalSet(y) {
      SetDetermines(x, y);
      CanonicalRecords(x, y);
    }
    if TREE_TAG + Records(x) == TREE_TAG + Records(y) {
      assert Records(x) == (TREE_TAG + Records(x))[|TREE_TAG|..] == (TREE_TAG + Records(y))[|TREE_TAG|..] == Records(y);
      RecordsDetermine(x, y);
      SameCanonicalSet(x, y);
    }
  }

  lemma SameCanonicalSet(a: seq<SourceFile>, b: seq<SourceFile>)
    requires |a| == |b| && forall i :: 0 <= i < |a| ==> Canonical(a[i]) == Canonical(b[i])
    ensures CanonicalSet(a) == CanonicalSet(b)
  {}

  lemma SortedAreRepresentable(roots: set<Bytes>, files: seq<SourceFile>)
    requires AllRepresentable(files)
    ensures AllRepresentable(SortByPath(Selected(roots, files)))
  {
    var s, t := Selected(roots, files), SortByPath(Selected(roots, files));
    SortSorts(s);
    forall i | 0 <= i < |t|
      ensures Representable(t[i])
    {
      assert t[i] in multiset(s);
      assert t[i] in s;
    }
  }

  // ----- sealing a receipt

  datatype Limits = Limits(maximumFiles: nat, maximumBytes: nat, maximumFileBytes: nat)

  function FirstPart(path: Bytes): Bytes { Split(path, 47)[0] }

  /** Each file's size, then their running total. */
  function LimitScan(files: seq<SourceFile>, limits: Limits, total: nat): Option<TreeError> {
    if files == [] then (if total > limits.maximumBytes then Some(SourceTooLarge) else None)
    else if files[0].size > limits.maximumFileBytes then Some(FileTooLarge)
    else if total + files[0].size >= U64_BOUND then Some(SizeOverflow)
    else LimitScan(files[1..], limits, total + files[0].size)
  }

  function LimitProblem(files: seq<SourceFile>, limits: Limits): Option<TreeError> {
    if files == [] then Some(EmptySourceTree)
    else if |files| > limits.maximumFiles then Some(TooManyFiles)
    else LimitScan(files, limits, 0)
  }

  /** The limits hold exactly when every file and the total are within them. */
  lemma {:induction false} LimitScanAccepts(files: seq<SourceFile>, limits: Limits, total: nat)
    requires total < U64_BOUND && limits.maximumBytes < U64_BOUND
    ensures LimitScan(files, limits, total).None?
       <==> total + TotalBytes(files) <= limits.maximumBytes
            && forall i :: 0 <= i < |files| ==> files[i].size <= limits.maximumFileBytes
    decreases |files|
  {
    if files != [] && files[0].size <= limits.maximumFileBytes && total + files[0].size < U64_BOUND {
      LimitScanAccepts(files[1..], limits, total + files[0].size);
      assert files == [files[0]] + files[1..];
    }
  }

  method ValidateSourceFiles(files: seq<SourceFile>, limits: Limits) returns (problem: Option<TreeError>)
    ensures problem == LimitProblem(files, limits)
  {
    if files == [] {
      return Some(EmptySourceTree);
    }
    if |files| > limits.maximumFiles {
      return Some(TooManyFiles);
    }
    var total: nat := 0;
    for i := 0 to |files|
      invariant LimitScan(files[i..], limits, total) == LimitScan(files, limits, 0)
    {
      assert files[i..][1..] == files[i + 1..];
      if files[i].size > limits.maximumFileBytes {
        return Some(FileTooLarge);
      }
      if total + files[i].size >= U64_BOUND {
        return Some(SizeOverflow);
      }
      total := total + files[i].size;
    }
    return if total > limits.maximumBytes then Some(SourceTooLarge) else None;
  }

  function NewSelection(roots: set<Bytes>): Result<set<Bytes>, TreeError> {
    if roots == {} then Err(EmptySourceSelection)
    else if exists root :: root in roots && !SafeRoot(root) then Err(UnsafeSourceRoot)
    else Ok(set root | root in roots :: TrimSlashes(root))
  }

  /** The receipt selects by the first components of the files it is given. */
  function SealReceipt(files: seq<SourceFile>, limits: Limits): Result<TreeDigest, TreeError> {
    var problem := LimitProblem(files, limits);
    if problem.Some? then Err(problem.value)
    else
      var roots := set i | 0 <= i < |files| :: FirstPart(files[i].path);
      if [] in roots then Err(UnsafePath([]))
      else
        var selection := NewSelection(roots);
        if selection.Err? then Err(selection.error) else TreeOf(selection.value, files)
  }

  lemma {:induction false} FirstPartIsAbove(path: Bytes)
    ensures 47 !in FirstPart(path) && Under(FirstPart(path), path)
  {
    if path != [] {
      FirstPartIsAbove(path[1..]);
      if path[0] != 47 {
        assert FirstPart(path) == [path[0]] + FirstPart(path[1..]);
        assert path == [path[0]] + path[1..];
      }
    }
  }

  lemma {:induction false} EverythingSelected(roots: set<Bytes>, files: seq<SourceFile>)
    requires forall i :: 0 <= i < |files| ==> Includes(roots, files[i].path)
    ensures Selected(roots, files) == files
  {
    if files != [] {
      EverythingSelected(roots, files[1..]);
      assert files == [files[0]] + files[1..];
    }
  }

  /** A sealed receipt counts every file it was given, and every byte of them, within the limits. */
  lemma ReceiptCountsEverything(files: seq<SourceFile>, limits: Limits)
    requires SealReceipt(files, limits).Ok? && limits.maximumBytes < U64_BOUND
    ensures var d := SealReceipt(files, limits).value;
            && d.fileCount == |files| && 0 < d.fileCount <= limits.maximumFiles
            && d.totalBytes == TotalBytes(files) <= limits.maximumBytes
            && exists roots :: TreeOf(roots, files) == Ok(d) && Selected(roots, files) == files
  {
    hide SortByPath, Problem, Records, Split, SafeRoot, Includes, Selected, TotalBytes;
    var roots := set i | 0 <= i < |files| :: FirstPart(files[i].path);
    var selection := NewSelection(roots).value;
    SelectsEverything(files, roots, selection);
    EverythingSelected(selection, files);
    SortSorts(files);
    assert |SortByPath(files)| == |multiset(SortByPath(files))| == |multiset(files)| == |files|;
    TotalOfSorted(files);
    LimitScanAccepts(files, limits, 0);
  }

  lemma SelectsEverything(files: seq<SourceFile>, roots: set<Bytes>, selection: set<Bytes>)
    requires roots == (set i | 0 <= i < |files| :: FirstPart(files[i].path)) && [] !in roots
    requires selection == set root | root in roots :: TrimSlashes(root)
    ensures forall i :: 0 <= i < |files| ==> Includes(selection, files[i].path)
  {
    forall i | 0 <= i < |files|
      ensures Includes(selection, files[i].path)
    {
      var first := FirstPart(files[i].path);
      FirstPartIsAbove(files[i].path);
      assert first in roots && TrimSlashes(first) == first;
      assert first in selection;
    }
  }
}
