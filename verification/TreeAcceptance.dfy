/** Exactly which source trees and tree listings are accepted, and what of them is hashed. */
module TreeAcceptance {
  import opened Text
  import opened Numerals
  import opened SourceTree
  import opened PathWalk
  import opened TreeListing
  import opened Utf8Text

  // ----- selection and order

  lemma {:induction false} SplitConcat(a: Bytes, b: Bytes)
    ensures Split(a + [47] + b, 47) == Split(a, 47) + Split(b, 47)
  {
    var s := a + [47] + b;
    if a == [] {
      assert s[1..] == b;
    } else {
      assert s[1..] == a[1..] + [47] + b && s[0] == a[0];
      SplitConcat(a[1..], b);
      PartsConcat(a[0], Split(a[1..], 47), Split(b, 47));
    }
  }

  lemma PartsConcat(first: Byte, a: seq<Bytes>, b: seq<Bytes>)
    requires |a| > 0
    ensures [[]] + (a + b) == [[]] + a + b
    ensures [[first] + (a + b)[0]] + (a + b)[1..] == [[first] + a[0]] + a[1..] + b
  {}

  lemma {:induction false} JoinConcat(a: seq<Bytes>, b: seq<Bytes>)
    requires |a| > 0 && |b| > 0
    ensures Join(a + b, 47) == Join(a, 47) + [47] + Join(b, 47)
    decreases |a|
  {
    assert (a + b)[1..] == a[1..] + b;
    if |a| > 1 {
      JoinConcat(a[1..], b);
    } else {
      assert a[1..] + b == b;
    }
  }

  /** A root selects itself and what its components lead to. */
  lemma UnderIsPrefix(root: Bytes, path: Bytes)
    ensures Under(root, path) <==> Split(root, 47) <= Split(path, 47)
  {
    hide Split, Join;
    var r, p := Split(root, 47), Split(path, 47);
    JoinSplit(root, 47);
    JoinSplit(path, 47);
    if Under(root, path) && path != root {
      SplitConcat(root, path[|root| + 1..]);
      assert path == root + [47] + path[|root| + 1..];
    }
    if r <= p && r != p {
      JoinConcat(r, p[|r|..]);
      assert p == r + p[|r|..];
      assert path == root + [47] + Join(p[|r|..], 47);
    }
  }

  /** Bytewise lexicographic order: at the first difference the smaller byte, or a proper prefix. */
  lemma {:induction false} PathLessIff(a: Bytes, b: Bytes)
    ensures PathLess(a, b) <==>
              exists k: nat :: k <= |a| && k < |b| && a[..k] == b[..k] && (k == |a| || a[k] < b[k])
  {
    if b != [] {
      if a == [] {
        assert a[..0] == b[..0];
      } else if a[0] != b[0] {
        if a[0] < b[0] {
          assert a[..0] == b[..0];
        }
        forall k: nat | 0 < k <= |a| && k < |b|
          ensures a[..k] != b[..k]
        {
          assert a[..k][0] != b[..k][0];
        }
      } else {
        PathLessIff(a[1..], b[1..]);
        if PathLess(a, b) {
          var k: nat :| k <= |a[1..]| && k < |b[1..]| && a[1..][..k] == b[1..][..k] && (k == |a[1..]| || a[1..][k] < b[1..][k]);
          assert a[..k + 1] == [a[0]] + a[1..][..k] && b[..k + 1] == [b[0]] + b[1..][..k];
        }
        if k: nat :| k <= |a| && k < |b| && a[..k] == b[..k] && (k == |a| || a[k] < b[k]) {
          assert k > 0;
          assert a[1..][..k - 1] == a[..k][1..] && b[1..][..k - 1] == b[..k][1..];
          assert a[1..][..k - 1] == b[1..][..k - 1];
        }
      }
    }
  }

  // ----- what is hashed

  /** The tag is the bytes of its text and a NUL. */
  lemma TagIsText()
    ensures var text := "RBE-SOURCE-TREE-SHA256-V1";
            && |TREE_TAG| == |text| + 1 && TREE_TAG[|text|] == 0
            && forall i :: 0 <= i < |text| ==> TREE_TAG[i] == text[i] as int
  {}

  /** The digest of a file in the hash input is in lower case; everything else of it stands as it is. */
  lemma RecordReads(f: SourceFile, rest: Bytes)
    requires Representable(f)
    ensures var r, n := Record(f) + rest, |f.path|;
            && |Record(f)| == 16 + n + |f.sha256|
            && FromBigEndian(r[..8]) == n && r[8..8 + n] == f.path && FromBigEndian(r[8 + n..16 + n]) == f.size
            && forall k :: 0 <= k < |f.sha256| ==>
                 r[16 + n + k] == if 65 <= f.sha256[k] <= 90 then f.sha256[k] + 32 else f.sha256[k]
  {
    RecordsSplit(f, rest);
    U64Reads(|f.path|);
    U64Reads(f.size);
    var r, n := Record(f) + rest, |f.path|;
    forall k | 0 <= k < |f.sha256|
      ensures r[16 + n + k] == if 65 <= f.sha256[k] <= 90 then f.sha256[k] + 32 else f.sha256[k]
    {
      assert r[16 + n..16 + n + |f.sha256|][k] == LowerBytes(f.sha256)[k];
    }
  }

  // ----- which trees are accepted

  /** Equal apart from the case of ASCII letters. */
  predicate SameFolded(a: Bytes, b: Bytes) {
    |a| == |b| && forall k :: 0 <= k < |a| ==>
      a[k] == b[k] || (65 <= a[k] <= 90 && b[k] == a[k] + 32) || (65 <= b[k] <= 90 && a[k] == b[k] + 32)
  }

  lemma FoldedIff(a: Bytes, b: Bytes)
    ensures LowerBytes(a) == LowerBytes(b) <==> SameFolded(a, b)
  {
    if LowerBytes(a) == LowerBytes(b) {
      forall k | 0 <= k < |a|
        ensures LowerByte(a[k]) == LowerByte(b[k])
      {
        assert LowerBytes(a)[k] == LowerBytes(b)[k];
      }
    }
  }

  predicate HexDigest(s: Bytes) {
    |s| == 64 && forall k :: 0 <= k < 64 ==> 48 <= s[k] <= 57 || 65 <= s[k] <= 70 || 97 <= s[k] <= 102
  }

  ghost predicate GoodFile(f: SourceFile) { StaysBelow(f.path) && HexDigest(f.sha256) }

  ghost predicate GoodTree(files: seq<SourceFile>) {
    && (forall i :: 0 <= i < |files| ==> GoodFile(files[i]))
    && (forall i, j :: 0 <= i < j < |files| ==> !SameFolded(files[i].path, files[j].path))
    && TotalBytes(files) < U64_BOUND
  }

  lemma {:induction false} ProblemIff(files: seq<SourceFile>)
    ensures Problem(files).None? <==> GoodTree(files)
    decreases |files|
  {
    hide SafeFilePath, ValidSha256, SameFolded, GoodFile, LowerBytes;
    if files != [] {
      var n := |files| - 1;
      var init, last := files[..n], files[n];
      ProblemIff(init);
      TotalOfPrefix(files, n);
      assert files[..n + 1] == files;
      GoodFileIff(last);
      forall i | 0 <= i < n
        ensures LowerBytes(init[i].path) == LowerBytes(last.path) <==> SameFolded(files[i].path, last.path)
      {
        FoldedIff(init[i].path, last.path);
      }
      if GoodTree(files) {
        assert GoodTree(init);
      }
    }
  }

  lemma GoodFileIff(f: SourceFile)
    ensures GoodFile(f) <==> SafeFilePath(f.path) && ValidSha256(f.sha256)
  {
    hide SafeFilePath, StaysBelow;
    FilePathIsSafeIff(f.path);
  }

  /** The files that some root leads to. */
  predicate IsSelected(roots: set<Bytes>, f: SourceFile) {
    exists root :: root in roots && Split(root, 47) <= Split(f.path, 47)
  }

  lemma SelectedIff(roots: set<Bytes>, files: seq<SourceFile>, f: SourceFile)
    ensures multiset(SortByPath(Selected(roots, files)))[f] == if IsSelected(roots, f) then multiset(files)[f] else 0
  {
    SelectedCounts(roots, files, f);
    SortSorts(Selected(roots, files));
    forall root: Bytes
      ensures Under(root, f.path) <==> Split(root, 47) <= Split(f.path, 47)
    {
      UnderIsPrefix(root, f.path);
    }
  }

  /** A tree is accepted if and only if some file is selected and the selected ones, in path order, are good: paths that
      stay below the root and differ even in letter case, hexadecimal digests, and a total that fits 64 bits. */
  lemma TreeAcceptedIff(roots: set<Bytes>, files: seq<SourceFile>)
    ensures var sorted := SortByPath(Selected(roots, files));
            && (TreeOf(roots, files).Ok? <==> sorted != [] && GoodTree(sorted))
            && (TreeOf(roots, files) == Err(NoSelectedSourceFiles) <==> sorted == [])
            && Sorted(sorted)
            && forall f :: multiset(sorted)[f] == if IsSelected(roots, f) then multiset(files)[f] else 0
  {
    hide IsSelected, GoodTree, Problem;
    var sorted := SortByPath(Selected(roots, files));
    ProblemIff(sorted);
    var n := TreeStops(sorted);
    SortSorts(Selected(roots, files));
    forall f: SourceFile
      ensures multiset(sorted)[f] == if IsSelected(roots, f) then multiset(files)[f] else 0
    {
      SelectedIff(roots, files, f);
    }
  }

  /** Which roots can be selected by, and that slashes at their ends do not count. */
  lemma SelectionIff(roots: set<Bytes>)
    ensures NewSelection(roots) ==
            if roots == {} then Err(EmptySourceSelection)
            else if exists root :: root in roots && !IsRoot(root) then Err(UnsafeSourceRoot)
            else Ok(Trimmed(roots))
    ensures forall root :: root in roots && IsRoot(root) ==>
              StaysBelow(TrimSlashes(root)) && TrimSlashes(root) <= root
              && forall k :: |TrimSlashes(root)| <= k < |root| ==> root[k] == 47
  {
    hide StaysBelow, SafeRoot;
    forall root: Bytes
      ensures SafeRoot(root) <==> IsRoot(root)
    {
      RootIsSafeIff(root);
    }
    assert NewSelection(roots).Ok? ==> NewSelection(roots).value == Trimmed(roots);
    forall root | root in roots && IsRoot(root)
      ensures StaysBelow(TrimSlashes(root)) && TrimSlashes(root) <= root
              && forall k :: |TrimSlashes(root)| <= k < |root| ==> root[k] == 47
    {
      var n: nat :| n <= |root| && StaysBelow(root[..n]) && forall k :: n <= k < |root| ==> root[k] == 47;
      TrimOnce(root);
      BelowEnds(root[..n]);
      assert root[..n] == TrimSlashes(root);
    }
  }

  function Trimmed(roots: set<Bytes>): set<Bytes> { set root | root in roots :: TrimSlashes(root) }

  ghost predicate IsRoot(root: Bytes) {
    exists n: nat :: n <= |root| && StaysBelow(root[..n]) && forall k :: n <= k < |root| ==> root[k] == 47
  }

  lemma BelowEnds(path: Bytes)
    requires StaysBelow(path)
    ensures path != [] && path[|path| - 1] != 47
  {
    hide SafeParts, WrittenAsWalked;
    SafePartsIff(path);
    EndsAreParts(path);
  }

  // ----- which listings are accepted

  /** A record: mode, `blob`, an object id, a tab and the path, "100755" for an executable and "100644" otherwise. */
  predicate IsRecord(raw: Bytes, e: TreeEntry, field: Bytes) {
    && raw == [49, 48, 48] + (if e.executable then [55, 53, 53] else [54, 52, 52]) + [32, 98, 108, 111, 98, 32]
              + field + [9] + e.path
    && 9 !in field && 32 !in field
  }

  /** The Unicode White_Space property. */
  predicate WhiteSpace(c: Scalar) {
    || 9 <= c <= 13 || c in {0x20, 0x85, 0xA0, 0x1680, 0x2028, 0x2029, 0x202F, 0x205F, 0x3000} || 0x2000 <= c <= 0x200A
  }

  predicate Blank(text: seq<Scalar>) { forall k :: 0 <= k < |text| ==> WhiteSpace(text[k]) }

  predicate HexText(s: Bytes) {
    forall k :: 0 <= k < |s| ==> 48 <= s[k] <= 57 || 65 <= s[k] <= 70 || 97 <= s[k] <= 102
  }

  predicate IsLowered(s: Bytes, lower: Bytes) {
    |s| == |lower| && forall k :: 0 <= k < |s| ==> lower[k] == if 65 <= s[k] <= 90 then s[k] + 32 else s[k]
  }

  /** An id of 40 or 64 hexadecimal digits in any case, with any white space around it. */
  predicate Names(field: Bytes, id: Bytes, before: seq<Scalar>, digits: Bytes, after: seq<Scalar>) {
    && field == Encode(before) + digits + Encode(after) && Blank(before) && Blank(after)
    && (|digits| == 40 || |digits| == 64) && HexText(digits) && IsLowered(digits, id)
  }

  ghost predicate NamesObject(field: Bytes, id: Bytes) {
    exists before, digits, after :: Names(field, id, before, digits, after)
  }

  lemma SpaceIs(c: Scalar)
    ensures IsSpaceEncoding(EncodeChar(c)) <==> WhiteSpace(c)
  {}

  lemma SpaceIsEncoded(s: Bytes) returns (c: Scalar)
    requires IsSpaceEncoding(s)
    ensures WhiteSpace(c) && EncodeChar(c) == s
  {
    assert CharLength(s) == |s| && s[..|s|] == s;
    c := RecognisedIsChar(s);
    SpaceIs(c);
  }

  /** One white-space character at the front, and none shorter. */
  lemma TrimsFirst(c: Scalar, rest: Bytes)
    requires WhiteSpace(c)
    ensures TrimFront(EncodeChar(c) + rest) == TrimFront(rest)
  {
    var first := EncodeChar(c);
    var s := first + rest;
    SpaceIs(c);
    assert s[..|first|] == first && s[|first|..] == rest;
    assert s[..1] == first[..1];
    if |first| == 3 {
      assert s[..2] == first[..2];
    }
  }

  lemma TrimsLast(c: Scalar, rest: Bytes)
    requires WhiteSpace(c)
    ensures TrimBack(rest + EncodeChar(c)) == TrimBack(rest)
  {
    hide EncodeChar, WhiteSpace, IsSpaceEncoding, SpaceAtEnd;
    var last := EncodeChar(c);
    SpaceIs(c);
    SpaceLength(last);
    LastOf(rest, last, |last|);
    LastSpace(rest, last);
  }

  lemma LastSpace(rest: Bytes, last: Bytes)
    requires IsSpaceEncoding(last)
    ensures SpaceAtEnd(rest + last) == |last|
  {
    hide IsSpaceEncoding;
    SpaceLength(last);
    LastOf(rest, last, 1);
    LastOf(rest, last, |last|);
    if |last| == 3 {
      LastOf(rest, last, 2);
    }
  }

  /** No shorter end of a white-space character is one. */
  lemma SpaceLength(s: Bytes)
    requires IsSpaceEncoding(s)
    ensures 1 <= |s| <= 3
    ensures |s| > 1 ==> !IsSpaceEncoding(s[|s| - 1..])
    ensures |s| > 2 ==> !IsSpaceEncoding(s[|s| - 2..])
  {
    if |s| > 1 {
      assert s[|s| - 1..][0] == s[|s| - 1];
    }
    if |s| > 2 {
      assert s[1..][0] == s[1] && s[1..][1] == s[2];
    }
  }

  lemma LastOf(rest: Bytes, last: Bytes, n: nat)
    requires n <= |last|
    ensures var s := rest + last; s[|s| - n..] == last[|last| - n..] && (n == |last| ==> s[..|s| - n] == rest)
  {}

  lemma {:induction false} TrimsBlankFront(text: seq<Scalar>, rest: Bytes)
    requires Blank(text)
    ensures TrimFront(Encode(text) + rest) == TrimFront(rest)
    decreases |text|
  {
    hide TrimFront, EncodeChar;
    if text == [] {
      assert Encode(text) + rest == rest;
    } else {
      TrimsFirst(text[0], Encode(text[1..]) + rest);
      assert Encode(text) + rest == EncodeChar(text[0]) + (Encode(text[1..]) + rest);
      TrimsBlankFront(text[1..], rest);
    }
  }

  lemma {:induction false} EncodeConcat(a: seq<Scalar>, b: seq<Scalar>)
    ensures Encode(a + b) == Encode(a) + Encode(b)
    decreases |a|
  {
    hide EncodeChar;
    if a == [] {
      assert a + b == b;
    } else {
      EncodeConcat(a[1..], b);
      assert (a + b)[1..] == a[1..] + b;
      assert EncodeChar(a[0]) + (Encode(a[1..]) + Encode(b)) == EncodeChar(a[0]) + Encode(a[1..]) + Encode(b);
    }
  }

  lemma {:induction false} TrimsBlankBack(text: seq<Scalar>, rest: Bytes)
    requires Blank(text)
    ensures TrimBack(rest + Encode(text)) == TrimBack(rest)
    decreases |text|
  {
    hide TrimBack, EncodeChar;
    if text == [] {
      assert rest + Encode(text) == rest;
    } else {
      var n := |text| - 1;
      EncodeConcat(text[..n], [text[n]]);
      assert text == text[..n] + [text[n]] && [text[n]][1..] == [];
      OneEncoded(text[n]);
      TrimsLast(text[n], rest + Encode(text[..n]));
      assert rest + Encode(text) == rest + Encode(text[..n]) + EncodeChar(text[n]);
      TrimsBlankBack(text[..n], rest);
    }
  }

  lemma OneEncoded(c: Scalar)
    ensures Encode([c]) == EncodeChar(c)
  {
    assert [c][1..] == [];
  }

  /** What is trimmed is white space. */
  lemma {:induction false} FrontIsBlank(s: Bytes) returns (text: seq<Scalar>)
    ensures Blank(text) && s == Encode(text) + TrimFront(s)
    decreases |s|
  {
    hide EncodeChar, IsSpaceEncoding, SpaceAtFront;
    text := [];
    var n := SpaceAtFront(s);
    SpaceAtFrontIs(s);
    if n > 0 {
      var c := SpaceIsEncoded(s[..n]);
      var rest := FrontIsBlank(s[n..]);
      text := [c] + rest;
      assert text[1..] == rest && s == s[..n] + s[n..];
    }
  }

  lemma SpaceAtFrontIs(s: Bytes)
    ensures SpaceAtFront(s) > 0 ==> IsSpaceEncoding(s[..SpaceAtFront(s)])
  {
    hide IsSpaceEncoding;
  }

  lemma SpaceAtEndIs(s: Bytes)
    ensures SpaceAtEnd(s) > 0 ==> IsSpaceEncoding(s[|s| - SpaceAtEnd(s)..])
  {
    hide IsSpaceEncoding;
  }

  lemma {:induction false} BackIsBlank(s: Bytes) returns (text: seq<Scalar>)
    ensures Blank(text) && s == TrimBack(s) + Encode(text)
    decreases |s|
  {
    hide EncodeChar, IsSpaceEncoding, Encode, SpaceAtEnd;
    var n, m := SpaceAtEnd(s), |s|;
    SpaceAtEndIs(s);
    if n == 0 {
      text := [];
      NothingEncoded();
    } else {
      var c := SpaceIsEncoded(s[m - n..]);
      var rest := BackIsBlank(s[..m - n]);
      text := rest + [c];
      EncodeConcat(rest, [c]);
      OneEncoded(c);
      assert s == s[..m - n] + s[m - n..];
    }
  }

  lemma NothingEncoded()
    ensures Encode([]) == []
  {}

  lemma DigitsAreNoBlank(s: Bytes)
    requires |s| >= 3 && HexText(s)
    ensures TrimBack(s) == s && forall rest: Bytes :: TrimFront(s + rest) == s + rest
  {
    hide IsSpaceEncoding;
    NoSpaceLast(s);
    forall rest: Bytes
      ensures TrimFront(s + rest) == s + rest
    {
      assert (s + rest)[0] == s[0];
      NoSpaceFirst(s + rest);
    }
  }

  lemma ObjectIdIff(field: Bytes, id: Bytes)
    ensures NormalizeObjectId(field) == Ok(id) <==> NamesObject(field, id)
  {
    hide TrimFront, TrimBack, Encode, Blank;
    if before, digits, after :| Names(field, id, before, digits, after) {
      assert field == Encode(before) + (digits + Encode(after));
      TrimsBlankFront(before, digits + Encode(after));
      DigitsAreNoBlank(digits);
      TrimsBlankBack(after, digits);
      assert LowerBytes(digits) == id;
    }
    if NormalizeObjectId(field) == Ok(id) {
      var digits := TrimBack(TrimFront(field));
      var before := FrontIsBlank(field);
      var after := BackIsBlank(TrimFront(field));
      assert field == Encode(before) + (digits + Encode(after));
      assert Names(field, id, before, digits, after);
    }
  }

  /** Which bytes are a record, and of which entry. */
  ghost predicate DescribesEntry(raw: Bytes, e: TreeEntry) {
    && (exists text :: Encode(text) == raw) && StaysBelow(e.path)
    && exists field :: IsRecord(raw, e, field) && NamesObject(field, e.objectId)
  }

  lemma RecordIff(raw: Bytes, e: TreeEntry)
    ensures ParseRecord(raw) == Ok(e) <==> DescribesEntry(raw, e)
  {
    hide ParseRecord, DescribesEntry;
    if DescribesEntry(raw, e) {
      RecordIsParsed(raw, e);
    }
    if ParseRecord(raw) == Ok(e) {
      ParsedIsRecord(raw, e);
    }
  }

  lemma RecordIsParsed(raw: Bytes, e: TreeEntry)
    requires DescribesEntry(raw, e)
    ensures ParseRecord(raw) == Ok(e)
  {
    hide Split, NormalizeObjectId, SafeTreePath, StaysBelow, NamesObject, ValidUtf8, Encode;
    var text :| Encode(text) == raw;
    EncodedIsValid(text);
    TreePathIsSafeIff(e.path);
    var field :| IsRecord(raw, e, field) && NamesObject(field, e.objectId);
    ObjectIdIff(field, e.objectId);
    RecordParts(raw, e, field);
    assert EXECUTABLE[3] != REGULAR[3];
  }

  lemma ParsedIsRecord(raw: Bytes, e: TreeEntry)
    requires ParseRecord(raw) == Ok(e)
    ensures DescribesEntry(raw, e)
  {
    hide Split, NormalizeObjectId, SafeTreePath, StaysBelow, NamesObject, ValidUtf8, Encode;
    var text := ValidIsEncoded(raw);
    TreePathIsSafeIff(e.path);
    var tab := TreeListing.IndexOf(raw, TAB);
    var field := Split(raw[..tab], SPACE)[2];
    FieldsOf(raw[..tab]);
    ObjectIdIff(field, e.objectId);
    assert raw == raw[..tab] + [9] + raw[tab + 1..];
    assert IsRecord(raw, e, field) && NamesObject(field, e.objectId);
  }

  lemma RecordParts(raw: Bytes, e: TreeEntry, field: Bytes)
    requires IsRecord(raw, e, field)
    ensures var tab := TreeListing.IndexOf(raw, TAB);
            && tab < |raw| && raw[tab + 1..] == e.path
            && Split(raw[..tab], SPACE) == [if e.executable then EXECUTABLE else REGULAR, BLOB, field]
  {
    hide Split, TreeListing.IndexOf;
    var mode := if e.executable then EXECUTABLE else REGULAR;
    var metadata := mode + [SPACE] + BLOB + [SPACE] + field;
    RecordIsPrinted(raw, e, field);
    ThreeFields(mode, field);
    AtTab(metadata, e.path);
  }

  lemma RecordIsPrinted(raw: Bytes, e: TreeEntry, field: Bytes)
    requires IsRecord(raw, e, field)
    ensures raw == (if e.executable then EXECUTABLE else REGULAR) + [SPACE] + BLOB + [SPACE] + field + [TAB] + e.path
  {
    var mode := if e.executable then EXECUTABLE else REGULAR;
    assert mode + [SPACE] + BLOB + [SPACE] == [49, 48, 48] + (if e.executable then [55, 53, 53] else [54, 52, 52])
                                             + [32, 98, 108, 111, 98, 32];
  }

  lemma FieldsOf(metadata: Bytes)
    requires |Split(metadata, SPACE)| == 3
    ensures var fields := Split(metadata, SPACE);
            && metadata == fields[0] + [32] + fields[1] + [32] + fields[2] && 32 !in fields[2]
            && forall b :: b in fields[2] ==> b in metadata
  {
    JoinSplit(metadata, SPACE);
    var fields := Split(metadata, SPACE);
    assert fields[1..][1..] == [fields[2]];
    assert Join(fields[1..], SPACE) == fields[1] + [32] + fields[2];
  }

  /** The records that are not empty. */
  function Filled(records: seq<Bytes>): seq<Bytes> {
    if records == [] then [] else (if records[0] == [] then [] else [records[0]]) + Filled(records[1..])
  }

  ghost predicate Lists(records: seq<Bytes>, entries: seq<TreeEntry>) {
    |records| == |entries| && forall i :: 0 <= i < |records| ==> DescribesEntry(records[i], entries[i])
  }

  predicate DistinctPaths(entries: seq<TreeEntry>) {
    forall i, j :: 0 <= i < j < |entries| ==> !SameFolded(entries[i].path, entries[j].path)
  }

  lemma ClashesIff(entries: seq<TreeEntry>, path: Bytes)
    ensures Clashes(entries, path) <==> exists i :: 0 <= i < |entries| && SameFolded(entries[i].path, path)
  {
    forall i | 0 <= i < |entries|
      ensures LowerBytes(entries[i].path) == LowerBytes(path) <==> SameFolded(entries[i].path, path)
    {
      FoldedIff(entries[i].path, path);
    }
  }

  lemma {:induction false} RecordsListIff(records: seq<Bytes>, maximum: nat, done: seq<TreeEntry>, entries: seq<TreeEntry>)
    requires |done| <= maximum && DistinctPaths(done)
    ensures ParseRecords(records, maximum, done) == Ok(done + entries) <==>
              Lists(Filled(records), entries) && 0 < |done + entries| <= maximum && DistinctPaths(done + entries)
    ensures ParseRecords(records, maximum, done).Ok? ==> done <= ParseRecords(records, maximum, done).value
    decreases |records|
  {
    hide ParseRecord, DescribesEntry, SameFolded, Clashes;
    if records == [] {
      assert entries == [] ==> done + entries == done;
    } else if records[0] == [] {
      RecordsListIff(records[1..], maximum, done, entries);
      assert [] + Filled(records[1..]) == Filled(records[1..]);
    } else {
      var rest := Filled(records[1..]);
      assert Filled(records) == [records[0]] + rest && Filled(records)[1..] == rest;
      if |done| < maximum && ParseRecord(records[0]).Ok? {
        var e := ParseRecord(records[0]).value;
        RecordIff(records[0], e);
        ClashesIff(done, e.path);
        FirstRecord(records[0], rest, entries);
        if !Clashes(done, e.path) {
          DistinctOneMore(done, e, entries);
          var later := ParseRecords(records[1..], maximum, done + [e]);
          if entries != [] && entries[0] == e {
            RecordsListIff(records[1..], maximum, done + [e], entries[1..]);
            assert done + [e] + entries[1..] == done + entries;
          } else {
            RecordsListIff(records[1..], maximum, done + [e], []);
            assert later.Ok? ==> later.value[|done|] == e;
            assert entries != [] ==> (done + entries)[|done|] == entries[0];
          }
        } else {
          DistinctOneMore(done, e, entries);
        }
      } else {
        FirstRecord(records[0], rest, entries);
      }
    }
  }

  lemma FirstRecord(record: Bytes, rest: seq<Bytes>, entries: seq<TreeEntry>)
    ensures Lists([record] + rest, entries) <==>
              entries != [] && DescribesEntry(record, entries[0]) && Lists(rest, entries[1..])
    ensures entries != [] ==> (DescribesEntry(record, entries[0]) <==> ParseRecord(record) == Ok(entries[0]))
  {
    hide DescribesEntry, ParseRecord;
    var all := [record] + rest;
    if entries != [] {
      RecordIff(record, entries[0]);
    }
    if entries != [] && DescribesEntry(record, entries[0]) && Lists(rest, entries[1..]) {
      forall i | 0 <= i < |all|
        ensures DescribesEntry(all[i], entries[i])
      {
        assert i > 0 ==> all[i] == rest[i - 1] && entries[i] == entries[1..][i - 1];
      }
    }
    if Lists(all, entries) {
      forall i | 0 <= i < |rest|
        ensures DescribesEntry(rest[i], entries[1..][i])
      {
        assert all[i + 1] == rest[i];
      }
    }
  }

  lemma DistinctOneMore(done: seq<TreeEntry>, e: TreeEntry, entries: seq<TreeEntry>)
    requires DistinctPaths(done)
    ensures DistinctPaths(done + [e]) <==> forall i :: 0 <= i < |done| ==> !SameFolded(done[i].path, e.path)
    ensures entries != [] && entries[0] == e && DistinctPaths(done + entries) ==> DistinctPaths(done + [e])
  {
    hide SameFolded;
    var more := done + [e];
    assert more[|done|] == e && forall i :: 0 <= i < |done| ==> more[i] == done[i];
    if entries != [] && entries[0] == e && DistinctPaths(done + entries) {
      forall i | 0 <= i < |done|
        ensures !SameFolded(done[i].path, e.path)
      {
        assert (done + entries)[i] == done[i] && (done + entries)[|done|] == e;
      }
    }
  }

  /** A listing is accepted as these entries if and only if its records that are not empty are theirs, in order, within
      the limit and at least one, with paths that differ even in letter case. */
  lemma ListingIff(bytes: Bytes, maximum: nat, entries: seq<TreeEntry>)
    ensures ParseListing(bytes, maximum) == Ok(entries) <==>
              Lists(Filled(Split(bytes, 0)), entries) && 0 < |entries| <= maximum && DistinctPaths(entries)
    ensures ParseListing(bytes, 0) == Err(InvalidLimits)
  {
    RecordsListIff(Split(bytes, 0), maximum, [], entries);
    assert [] + entries == entries;
  }

  // ----- why the others are refused

  /** What a record is refused as. */
  lemma RecordRefusedIff(raw: Bytes)
    ensures var tab, r := TreeListing.IndexOf(raw, 9), ParseRecord(raw);
            var fields := Split(raw[..tab], 32);
            if !ValidUtf8(raw) || tab == |raw| || |fields| < 3 then r == Err(InvalidTreeEntry)
            else if |fields| > 3 || fields[1] != [98, 108, 111, 98]
                    || (fields[0] != [49, 48, 48, 54, 52, 52] && fields[0] != [49, 48, 48, 55, 53, 53])
            then r == Err(UnsupportedTreeEntry)
            else if !StaysBelow(raw[tab + 1..]) then r == Err(InvalidTreePath)
            else r.Ok? || (r == Err(InvalidObjectId) && forall id :: !NamesObject(fields[2], id))
  {
    hide Split, NormalizeObjectId, SafeTreePath, StaysBelow, NamesObject, ValidUtf8;
    var tab := TreeListing.IndexOf(raw, 9);
    var fields := Split(raw[..tab], 32);
    if tab < |raw| && |fields| == 3 {
      TreePathIsSafeIff(raw[tab + 1..]);
      forall id
        ensures NormalizeObjectId(fields[2]) == Ok(id) <==> NamesObject(fields[2], id)
      {
        ObjectIdIff(fields[2], id);
      }
      IdRefused(fields[2]);
    }
  }

  lemma IdRefused(field: Bytes)
    ensures NormalizeObjectId(field).Ok? || NormalizeObjectId(field) == Err(InvalidObjectId)
  {}

  /** Parsing stops at the first record that is refused: over the limit, by itself, or for a path that is there. */
  lemma {:induction false} ListingStops(records: seq<Bytes>, maximum: nat, done: seq<TreeEntry>) returns (n: nat, entries: seq<TreeEntry>)
    requires |done| <= maximum
    ensures n <= |Filled(records)| && |entries| == |done| + n && done <= entries
    ensures forall i :: 0 <= i < n ==> ParseRecord(Filled(records)[i]) == Ok(entries[|done| + i])
    ensures var r := ParseRecords(records, maximum, done);
            if n == |Filled(records)| then r == if entries == [] then Err(ListingError.EmptySourceTree) else Ok(entries)
            else if |entries| >= maximum then r == Err(ListingError.TooManyFiles)
            else
              match ParseRecord(Filled(records)[n])
              case Err(e) => r == Err(e)
              case Ok(e) => Clashes(entries, e.path) && r == Err(DuplicateTreePath)
    decreases |records|
  {
    hide ParseRecord, Clashes;
    n, entries := 0, done;
    if records != [] {
      var later := Filled(records[1..]);
      if records[0] == [] {
        assert Filled(records) == later;
        n, entries := ListingStops(records[1..], maximum, done);
      } else {
        assert Filled(records) == [records[0]] + later;
        if |done| < maximum && ParseRecord(records[0]).Ok? && !Clashes(done, ParseRecord(records[0]).value.path) {
          var e := ParseRecord(records[0]).value;
          n, entries := ListingStops(records[1..], maximum, done + [e]);
          n := n + 1;
          assert entries[|done|] == e;
          assert forall i :: 1 <= i < n ==> Filled(records)[i] == later[i - 1];
        }
      }
    }
  }

  /** What the last file of a tree is refused as. */
  function LastProblem(files: seq<SourceFile>): Option<TreeError>
    requires files != []
  {
    var n := |files| - 1;
    if !SafeFilePath(files[n].path) then Some(UnsafePath(files[n].path))
    else if !HexDigest(files[n].sha256) then Some(InvalidSha256)
    else if exists i :: 0 <= i < n && SameFolded(files[i].path, files[n].path) then Some(DuplicatePath(files[n].path))
    else if TotalBytes(files) >= 0x1_0000_0000_0000_0000 then Some(SizeOverflow)
    else None
  }

  lemma ProblemOfLast(files: seq<SourceFile>)
    requires files != []
    ensures var earlier := Problem(files[..|files| - 1]);
            Problem(files) == if earlier.Some? then earlier else LastProblem(files)
  {
    hide SafeFilePath, ValidSha256, HexDigest, LowerBytes, SameFolded;
    var n := |files| - 1;
    DigestIff(files[n].sha256);
    forall i | 0 <= i < n
      ensures LowerBytes(files[..n][i].path) == LowerBytes(files[n].path) <==> SameFolded(files[i].path, files[n].path)
    {
      FoldedIff(files[i].path, files[n].path);
    }
  }

  /** A tree is refused at the first of its files, in path order, that is not good beside those before it: for a path
      that leaves the root or is not written as what it leads to, for its digest, its path or the total. */
  lemma {:induction false} TreeStops(files: seq<SourceFile>) returns (n: nat)
    ensures n <= |files| && GoodTree(files[..n])
    ensures if n == |files| then Problem(files).None? else Problem(files) == LastProblem(files[..n + 1]) != None
    decreases |files|
  {
    hide Problem, LastProblem, GoodTree;
    if files == [] {
      n := 0;
      NoFiles();
      assert files[..0] == [] && files == [];
      ProblemIff([]);
    } else {
      var k := |files| - 1;
      n := TreeStops(files[..k]);
      assert files[..k][..n] == files[..n] && files[..k + 1] == files;
      ProblemOfLast(files);
      if n < k {
        assert files[..k][..n + 1] == files[..n + 1];
      } else if Problem(files).None? {
        n := k + 1;
        ProblemIff(files);
      }
    }
  }

  lemma NoFiles()
    ensures Problem([]).None?
  {}

  lemma DigestIff(s: Bytes)
    ensures ValidSha256(s) <==> HexDigest(s)
  {}

  lemma {:induction false} ScanRefused(files: seq<SourceFile>, limits: Limits, total: nat)
    requires total < U64_BOUND
    ensures match LimitScan(files, limits, total)
            case Some(FileTooLarge) => exists i :: 0 <= i < |files| && files[i].size > limits.maximumFileBytes
            case Some(SizeOverflow) => total + TotalBytes(files) >= U64_BOUND
            case Some(SourceTooLarge) => limits.maximumBytes < total + TotalBytes(files) < U64_BOUND
            case Some(_) => false
            case None => true
    decreases |files|
  {
    if files != [] && files[0].size <= limits.maximumFileBytes && total + files[0].size < U64_BOUND {
      ScanRefused(files[1..], limits, total + files[0].size);
      assert files == [files[0]] + files[1..];
    }
  }

  /** The limits of a receipt are refused as what they are. */
  lemma LimitsRefused(files: seq<SourceFile>, limits: Limits)
    ensures match LimitProblem(files, limits)
            case Some(EmptySourceTree) => files == []
            case Some(TooManyFiles) => |files| > limits.maximumFiles
            case Some(FileTooLarge) => exists i :: 0 <= i < |files| && files[i].size > limits.maximumFileBytes
            case Some(SizeOverflow) => TotalBytes(files) >= U64_BOUND
            case Some(SourceTooLarge) => limits.maximumBytes < TotalBytes(files) < U64_BOUND
            case Some(_) => false
            case None => 0 < |files| <= limits.maximumFiles
  {
    hide TotalBytes;
    ScanRefused(files, limits, 0);
  }
}
