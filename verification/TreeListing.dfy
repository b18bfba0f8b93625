/** The NUL-terminated listing of a commit's tree, printed and parsed. */
module TreeListing {
  import opened Text
  import opened Numerals
  import opened SourceTree
  import opened PathWalk

  datatype TreeEntry = TreeEntry(path: Bytes, objectId: Bytes, executable: bool)

  datatype ListingError =
    | InvalidLimits
    | TooManyFiles
    | InvalidTreeEntry
    | UnsupportedTreeEntry
    | InvalidTreePath
    | InvalidObjectId
    | DuplicateTreePath
    | EmptySourceTree

  /** "100644", "100755" and "blob" */
  const REGULAR: Bytes := [49, 48, 48, 54, 52, 52]
  const EXECUTABLE: Bytes := [49, 48, 48, 55, 53, 53]
  const BLOB: Bytes := [98, 108, 111, 98]

  const NUL: Byte := 0
  const TAB: Byte := 9
  const SPACE: Byte := 32

  // ----- UTF-8

  predicate Continues(b: Byte) { 128 <= b < 192 }

  /** The length of the well-formed character at the front; 0 when there is none. */
  function CharLength(s: Bytes): (n: nat)
    ensures n <= |s|
    ensures forall i :: 1 <= i < n ==> Continues(s[i])
  {
    if s == [] then 0
    else if s[0] < 128 then 1
    else if |s| >= 2 && 194 <= s[0] < 224 && Continues(s[1]) then 2
    else if |s| >= 3 && 224 <= s[0] < 240 && Continues(s[1]) && Continues(s[2])
            && (s[0] == 224 ==> s[1] >= 160) && (s[0] == 237 ==> s[1] < 160) then 3
    else if |s| >= 4 && 240 <= s[0] < 245 && Continues(s[1]) && Continues(s[2]) && Continues(s[3])
            && (s[0] == 240 ==> s[1] >= 144) && (s[0] == 244 ==> s[1] < 144) then 4
    else 0
  }

  predicate ValidUtf8(s: Bytes)
    decreases |s|
  {
    s == [] || (CharLength(s) > 0 && ValidUtf8(s[CharLength(s)..]))
  }

  predicate Ascii(s: Bytes) { forall i :: 0 <= i < |s| ==> s[i] < 128 }

  lemma {:induction false} AsciiPrefix(a: Bytes, s: Bytes)
    requires Ascii(a)
    ensures ValidUtf8(a + s) == ValidUtf8(s)
  {
    if a == [] {
      assert a + s == s;
    } else {
      assert (a + s)[1..] == a[1..] + s;
      AsciiPrefix(a[1..], s);
    }
  }

  /** An ASCII byte is a character boundary. */
  lemma {:induction false} AfterAscii(a: Bytes, c: Byte, s: Bytes)
    requires c < 128 && ValidUtf8(a + [c] + s)
    ensures ValidUtf8(s)
    decreases |a|
  {
    var whole := a + [c] + s;
    var n := CharLength(whole);
    if a == [] {
      assert whole[1..] == s;
    } else {
      assert n <= |a| by {
        assert whole[|a|] == c;
      }
      assert whole[n..] == a[n..] + [c] + s;
      AfterAscii(a[n..], c, s);
    }
  }

  // ----- object identifiers

  /** The UTF-8 forms of the White_Space characters. */
  predicate IsSpaceEncoding(s: Bytes) {
    || (|s| == 1 && (9 <= s[0] <= 13 || s[0] == 32))
    || s == [194, 133] || s == [194, 160] || s == [225, 154, 128]
    || (|s| == 3 && s[0] == 226 && s[1] == 128 && (128 <= s[2] <= 138 || s[2] == 168 || s[2] == 169 || s[2] == 175))
    || s == [226, 129, 159] || s == [227, 128, 128]
  }

  /** How many bytes the white-space character at the front has. */
  function SpaceAtFront(s: Bytes): (n: nat)
    ensures n <= |s|
  {
    if |s| >= 1 && IsSpaceEncoding(s[..1]) then 1 else if |s| >= 2 && IsSpaceEncoding(s[..2]) then 2
    else if |s| >= 3 && IsSpaceEncoding(s[..3]) then 3 else 0
  }

  function SpaceAtEnd(s: Bytes): (n: nat)
    ensures n <= |s|
  {
    var m := |s|;
    if m >= 1 && IsSpaceEncoding(s[m - 1..]) then 1 else if m >= 2 && IsSpaceEncoding(s[m - 2..]) then 2
    else if m >= 3 && IsSpaceEncoding(s[m - 3..]) then 3 else 0
  }

  function TrimFront(s: Bytes): Bytes
    decreases |s|
  {
    var n := SpaceAtFront(s);
    if n == 0 then s else TrimFront(s[n..])
  }

  function TrimBack(s: Bytes): Bytes
    decreases |s|
  {
    var n := SpaceAtEnd(s);
    if n == 0 then s else TrimBack(s[..|s| - n])
  }

  predicate IsObjectId(s: Bytes) { (|s| == 40 || |s| == 64) && forall i :: 0 <= i < |s| ==> IsHexByte(s[i]) }

  function NormalizeObjectId(s: Bytes): Result<Bytes, ListingError> {
    var trimmed := TrimBack(TrimFront(s));
    if IsObjectId(trimmed) then Ok(LowerBytes(trimmed)) else Err(InvalidObjectId)
  }

  // ----- parsing

  predicate SafeTreePath(path: Bytes) {
    path != [] && path[0] != 47 && path[|path| - 1] != 47 && 92 !in path && 58 !in path && SafeParts(path)
  }

  function IndexOf(s: Bytes, b: Byte): (i: nat)
    ensures i <= |s|
    ensures i < |s| ==> s[i] == b
    ensures forall k :: 0 <= k < i ==> s[k] != b
  {
    if s == [] || s[0] == b then 0 else 1 + IndexOf(s[1..], b)
  }

  function ParseRecord(raw: Bytes): Result<TreeEntry, ListingError> {
    var tab := IndexOf(raw, TAB);
    if !ValidUtf8(raw) || tab == |raw| then Err(InvalidTreeEntry)
    else
      var fields, path := Split(raw[..tab], SPACE), raw[tab + 1..];
      if |fields| < 3 then Err(InvalidTreeEntry)
      else if |fields| > 3 || fields[1] != BLOB || (fields[0] != REGULAR && fields[0] != EXECUTABLE)
      then Err(UnsupportedTreeEntry)
      else if !SafeTreePath(path) then Err(InvalidTreePath)
      else
        var id := NormalizeObjectId(fields[2]);
        if id.Err? then Err(id.error) else Ok(TreeEntry(path, id.value, fields[0] == EXECUTABLE))
  }

  predicate Clashes(entries: seq<TreeEntry>, path: Bytes) {
    exists i :: 0 <= i < |entries| && LowerBytes(entries[i].path) == LowerBytes(path)
  }

  lemma NothingClashes()
    ensures forall path :: !Clashes([], path)
  {}

  lemma ClashesGrow(entries: seq<TreeEntry>, e: TreeEntry)
    ensures forall path :: Clashes(entries + [e], path) <==> Clashes(entries, path) || LowerBytes(e.path) == LowerBytes(path)
  {
    var longer := entries + [e];
    forall path
      ensures Clashes(longer, path) <==> Clashes(entries, path) || LowerBytes(e.path) == LowerBytes(path)
    {
      if Clashes(entries, path) {
        var i :| 0 <= i < |entries| && LowerBytes(entries[i].path) == LowerBytes(path);
        assert longer[i] == entries[i];
      }
      assert longer[|entries|] == e;
    }
  }

  /** The records in order; empty ones are skipped. */
  function ParseRecords(records: seq<Bytes>, maximum: nat, done: seq<TreeEntry>): Result<seq<TreeEntry>, ListingError>
    decreases |records|
  {
    if records == [] then (if done == [] then Err(ListingError.EmptySourceTree) else Ok(done))
    else if records[0] == [] then ParseRecords(records[1..], maximum, done)
    else if |done| >= maximum then Err(ListingError.TooManyFiles)
    else
      var entry := ParseRecord(records[0]);
      if entry.Err? then Err(entry.error)
      else if Clashes(done, entry.value.path) then Err(DuplicateTreePath)
      else ParseRecords(records[1..], maximum, done + [entry.value])
  }

  function ParseListing(bytes: Bytes, maximum: nat): Result<seq<TreeEntry>, ListingError> {
    if maximum == 0 then Err(InvalidLimits) else ParseRecords(Split(bytes, NUL), maximum, [])
  }

  method ParseLsTree(bytes: Bytes, maximum: nat) returns (r: Result<seq<TreeEntry>, ListingError>)
    ensures r == ParseListing(bytes, maximum)
  {
    hide ParseRecord, Split, Clashes;
    NothingClashes();
    if maximum == 0 {
      return Err(InvalidLimits);
    }
    var records := Split(bytes, NUL);
    var entries: seq<TreeEntry>, seen := [], {};
    assert records[0..] == records;
    for i := 0 to |records|
      invariant ParseRecords(records[i..], maximum, entries) == ParseRecords(records, maximum, [])
      invariant forall path :: Clashes(entries, path) <==> LowerBytes(path) in seen
    {
      var raw := records[i];
      assert records[i..][0] == raw && records[i..][1..] == records[i + 1..];
      if raw == [] {
        continue;
      }
      if |entries| >= maximum {
        return Err(ListingError.TooManyFiles);
      }
      var entry := ParseRecord(raw);
      if entry.Err? {
        return Err(entry.error);
      }
      if LowerBytes(entry.value.path) in seen {
        return Err(DuplicateTreePath);
      }
      ClashesGrow(entries, entry.value);
      seen, entries := seen + {LowerBytes(entry.value.path)}, entries + [entry.value];
    }
    return if entries == [] then Err(ListingError.EmptySourceTree) else Ok(entries);
  }

  // ----- what is accepted

  /** An entry that can stand in a listing. */
  ghost predicate ValidEntry(e: TreeEntry) {
    && StaysBelow(e.path) && NUL !in e.path && ValidUtf8(e.path)
    && (|e.objectId| == 40 || |e.objectId| == 64)
    && forall i :: 0 <= i < |e.objectId| ==> 48 <= e.objectId[i] <= 57 || 97 <= e.objectId[i] <= 102
  }

  /** A listed path is accepted if and only if it stays below the root and is written as what it leads to. */
  lemma TreePathIsSafeIff(path: Bytes)
    ensures SafeTreePath(path) <==> StaysBelow(path)
  {
    hide SafeParts, WrittenAsWalked;
    SafePartsIff(path);
    EndsAreParts(path);
  }

  ghost predicate ValidListing(entries: seq<TreeEntry>, maximum: nat) {
    && 0 < |entries| <= maximum
    && (forall i :: 0 <= i < |entries| ==> ValidEntry(entries[i]))
    && (forall i, j :: 0 <= i < j < |entries| ==> LowerBytes(entries[i].path) != LowerBytes(entries[j].path))
  }

  lemma RecordIsValid(raw: Bytes)
    requires NUL !in raw && ParseRecord(raw).Ok?
    ensures ValidEntry(ParseRecord(raw).value)
  {
    hide Split, NormalizeObjectId, SafeTreePath, IsObjectId, LowerBytes;
    var tab := IndexOf(raw, TAB);
    var fields, path := Split(raw[..tab], SPACE), raw[tab + 1..];
    assert raw == raw[..tab] + [TAB] + path;
    AfterAscii(raw[..tab], TAB, path);
    IdIsNormal(fields[2]);
    TreePathIsSafeIff(path);
  }

  lemma IdIsNormal(field: Bytes)
    requires NormalizeObjectId(field).Ok?
    ensures var id := NormalizeObjectId(field).value;
            && (|id| == 40 || |id| == 64)
            && forall i :: 0 <= i < |id| ==> 48 <= id[i] <= 57 || 97 <= id[i] <= 102
  {
    var trimmed := TrimBack(TrimFront(field));
    assert forall i :: 0 <= i < |trimmed| ==> IsHexByte(trimmed[i]);
  }

  lemma {:induction false} RecordsAreValid(records: seq<Bytes>, maximum: nat, done: seq<TreeEntry>)
    requires forall k :: 0 <= k < |records| ==> NUL !in records[k]
    requires |done| <= maximum && (done != [] ==> ValidListing(done, maximum))
    requires ParseRecords(records, maximum, done).Ok?
    ensures ValidListing(ParseRecords(records, maximum, done).value, maximum)
    decreases |records|
  {
    hide ValidEntry, ParseRecord;
    if records != [] {
      if records[0] == [] {
        RecordsAreValid(records[1..], maximum, done);
      } else {
        RecordIsValid(records[0]);
        RecordsAreValid(records[1..], maximum, done + [ParseRecord(records[0]).value]);
      }
    }
  }

  /** Every accepted listing is non-empty, within the limit, of regular blobs whose paths stay below the root, are
      written as what they lead to, and differ even in letter case. */
  lemma AcceptedListingIsValid(bytes: Bytes, maximum: nat)
    requires ParseListing(bytes, maximum).Ok?
    ensures ValidListing(ParseListing(bytes, maximum).value, maximum)
  {
    JoinSplit(bytes, NUL);
    RecordsAreValid(Split(bytes, NUL), maximum, []);
  }

  // ----- the round trip

  function PrintEntry(e: TreeEntry): Bytes {
    (if e.executable then EXECUTABLE else REGULAR) + [SPACE] + BLOB + [SPACE] + e.objectId + [TAB] + e.path
  }

  function PrintListing(entries: seq<TreeEntry>): Bytes {
    if entries == [] then [] else PrintEntry(entries[0]) + [NUL] + PrintListing(entries[1..])
  }

  lemma {:induction false} SplitAfter<T>(a: seq<T>, sep: T, b: seq<T>)
    requires sep !in a
    ensures Split(a + [sep] + b, sep) == [a] + Split(b, sep)
  {
    var s := a + [sep] + b;
    if a == [] {
      assert s[1..] == b;
    } else {
      assert s[1..] == a[1..] + [sep] + b;
      SplitAfter(a[1..], sep, b);
      assert [a[0]] + a[1..] == a;
      assert ([a[1..]] + Split(b, sep))[1..] == Split(b, sep);
    }
  }

  lemma {:induction false} SplitWhole<T>(a: seq<T>, sep: T)
    requires sep !in a
    ensures Split(a, sep) == [a]
  {
    if a != [] {
      SplitWhole(a[1..], sep);
      assert [a[0]] + a[1..] == a;
    }
  }

  lemma ObjectIdUnchanged(id: Bytes)
    requires |id| == 40 || |id| == 64
    requires forall i :: 0 <= i < |id| ==> 48 <= id[i] <= 57 || 97 <= id[i] <= 102
    ensures NormalizeObjectId(id) == Ok(id) && SPACE !in id && TAB !in id && NUL !in id && Ascii(id)
  {
    hide IsSpaceEncoding;
    assert LowerBytes(id) == id;
    assert IsHexByte(id[0]) && IsHexByte(id[|id| - 1]);
    NoSpaceFirst(id);
    NoSpaceLast(id);
  }

  lemma NoSpaceFirst(s: Bytes)
    requires |s| >= 3 && IsHexByte(s[0])
    ensures !IsSpaceEncoding(s[..1]) && !IsSpaceEncoding(s[..2]) && !IsSpaceEncoding(s[..3])
  {
    assert s[..1][0] == s[0] && s[..2][0] == s[0] && s[..3][0] == s[0];
  }

  lemma NoSpaceLast(s: Bytes)
    requires |s| >= 3 && IsHexByte(s[|s| - 1])
    ensures !IsSpaceEncoding(s[|s| - 1..]) && !IsSpaceEncoding(s[|s| - 2..]) && !IsSpaceEncoding(s[|s| - 3..])
  {
    var n := |s|;
    assert s[n - 1..][0] == s[n - 1] && s[n - 2..][1] == s[n - 1] && s[n - 3..][2] == s[n - 1];
  }

  lemma ThreeFields(mode: Bytes, id: Bytes)
    requires SPACE !in mode && SPACE !in id
    ensures Split(mode + [SPACE] + BLOB + [SPACE] + id, SPACE) == [mode, BLOB, id]
  {
    assert mode + [SPACE] + BLOB + [SPACE] + id == mode + [SPACE] + (BLOB + [SPACE] + id);
    SplitAfter(mode, SPACE, BLOB + [SPACE] + id);
    SplitAfter(BLOB, SPACE, id);
    SplitWhole(id, SPACE);
  }

  lemma AtTab(metadata: Bytes, path: Bytes)
    requires TAB !in metadata
    ensures var raw := metadata + [TAB] + path;
            IndexOf(raw, TAB) == |metadata| && raw[..|metadata|] == metadata && raw[|metadata| + 1..] == path
  {
    var raw := metadata + [TAB] + path;
    assert raw[|metadata|] == TAB;
    assert forall k :: 0 <= k < |metadata| ==> raw[k] == metadata[k];
  }

  lemma EntryRoundTrip(e: TreeEntry)
    requires ValidEntry(e)
    ensures ParseRecord(PrintEntry(e)) == Ok(e) && NUL !in PrintEntry(e) && PrintEntry(e) != []
  {
    hide SafeTreePath, ValidUtf8, IndexOf, Split, NormalizeObjectId;
    ObjectIdUnchanged(e.objectId);
    TreePathIsSafeIff(e.path);
    var mode := if e.executable then EXECUTABLE else REGULAR;
    var metadata := mode + [SPACE] + BLOB + [SPACE] + e.objectId;
    ThreeFields(mode, e.objectId);
    AtTab(metadata, e.path);
    AsciiPrefix(metadata + [TAB], e.path);
  }

  lemma {:induction false} RecordsRoundTrip(entries: seq<TreeEntry>, maximum: nat, done: seq<TreeEntry>)
    requires done + entries != [] && ValidListing(done + entries, maximum)
    ensures ParseRecords(Split(PrintListing(entries), NUL), maximum, done) == Ok(done + entries)
    decreases |entries|
  {
    hide ValidEntry, ParseRecord, PrintEntry;
    if entries == [] {
      assert Split(PrintListing(entries), NUL) == [[]] && done + entries == done;
    } else {
      var e := entries[0];
      assert (done + entries)[|done|] == e;
      EntryRoundTrip(e);
      SplitAfter(PrintEntry(e), NUL, PrintListing(entries[1..]));
      assert !Clashes(done, e.path) by {
        assert forall i :: 0 <= i < |done| ==> (done + entries)[i] == done[i];
      }
      assert done + [e] + entries[1..] == done + entries;
      RecordsRoundTrip(entries[1..], maximum, done + [e]);
      var rest := Split(PrintListing(entries[1..]), NUL);
      assert ([PrintEntry(e)] + rest)[1..] == rest;
    }
  }

  /** Printing a valid listing and parsing it gives it back, tabs and spaces in its paths included. */
  lemma ListingRoundTrip(entries: seq<TreeEntry>, maximum: nat)
    requires ValidListing(entries, maximum)
    ensures ParseListing(PrintListing(entries), maximum) == Ok(entries)
  {
    assert [] + entries == entries;
    RecordsRoundTrip(entries, maximum, []);
  }

  /** What is parsed from any listing is what its own printing parses to. */
  lemma ParsingNormalizes(bytes: Bytes, maximum: nat)
    requires ParseListing(bytes, maximum).Ok?
    ensures ParseListing(PrintListing(ParseListing(bytes, maximum).value), maximum) == ParseListing(bytes, maximum)
  {
    AcceptedListingIsValid(bytes, maximum);
    ListingRoundTrip(ParseListing(bytes, maximum).value, maximum);
  }
}
