/** Inspecting an untrusted archive and extracting it: entry names, collisions and the resulting tree. */
module WorkspaceArchive {
  import opened Text
  import opened Numerals

  const MAX_WORKSPACE_ARCHIVE_ENTRIES: nat := 4096
  const MAX_WORKSPACE_ARCHIVE_ENTRY_BYTES: nat := 16 * 1024 * 1024
  const MAX_WORKSPACE_ARCHIVE_UNCOMPRESSED_BYTES: nat := 64 * 1024 * 1024
  const MAX_WORKSPACE_ARCHIVE_COMPRESSION_RATIO: nat := 200
  const MAX_ENTRY_PATH_BYTES: nat := 1024
  const MAX_ENTRY_DEPTH: nat := 64

  datatype ArchiveError =
    | UnsafeEntry
    | InvalidArchive
    | SpecialEntry
    | DuplicateEntry
    | TooManyEntries
    | EntryTooLarge
    | ExpandedTooLarge
    | CompressionRatio
    | MissingEntry
    | ChangedSource
    | InvalidSource

  /** An archive member as its directory lists it, with the bytes it really decodes to. */
  datatype Member = Member(
    name: string,
    nameIsUtf8: bool,
    directory: bool,
    encrypted: bool,
    supportedCompression: bool,
    unixMode: Option<nat>,
    size: nat,
    compressedSize: nat,
    data: Bytes)

  datatype Entry = Entry(path: string, directory: bool, size: nat, compressedSize: nat)

  // ----- names

  function ToSlashes(s: string): (r: string)
    ensures |r| == |s|
    ensures '\\' !in r
    ensures '\\' !in s ==> r == s
  {
    seq(|s|, i requires 0 <= i < |s| => if s[i] == '\\' then '/' else s[i])
  }

  function TrimSlashes(s: string): (r: string)
    ensures r <= s
    ensures r != "" ==> r[|r| - 1] != '/'
    decreases |s|
  {
    if s != "" && s[|s| - 1] == '/' then TrimSlashes(s[..|s| - 1]) else s
  }

  function UpperChar(c: char): char { if IsLower(c) then c - 'a' + 'A' else c }

  function Upper(s: string): (r: string)
    ensures |r| == |s|
  {
    seq(|s|, i requires 0 <= i < |s| => UpperChar(s[i]))
  }

  /** The position of the last tilde; the length when there is none. */
  function LastTilde(s: string): (i: nat)
    ensures i <= |s|
    decreases |s|
  {
    if s == "" then 0
    else if s[|s| - 1] == '~' then |s| - 1
    else
      var i := LastTilde(s[..|s| - 1]);
      if i == |s| - 1 then |s| else i
  }

  predicate UnsafeWindowsComponent(segment: string) {
    if segment != "" && segment[|segment| - 1] in ". " then true
    else
      var stem := Upper(Split(segment, '.')[0]);
      var tilde := LastTilde(stem);
      || (("COM" <= stem || "LPT" <= stem) && stem[3..] in
            {"1", "2", "3", "4", "5", "6", "7", "8", "9", "\U{B9}", "\U{B2}", "\U{B3}"})
      || stem in {"CON", "PRN", "AUX", "NUL"}
      || (0 < tilde < |stem| - 1 && Utf8Length(stem) <= 8 && forall i :: tilde < i < |stem| ==> IsDigit(stem[i]))
  }

  predicate SafeSegment(segment: string) {
    segment != "" && segment != "." && segment != ".." && !UnsafeWindowsComponent(segment)
  }

  predicate SafeName(trimmed: string) {
    var parts := Split(trimmed, '/');
    && trimmed != "" && Utf8Length(trimmed) <= MAX_ENTRY_PATH_BYTES && |parts| <= MAX_ENTRY_DEPTH
    && trimmed[0] != '/' && '\0' !in trimmed && ':' !in trimmed
    && forall k :: 0 <= k < |parts| ==> SafeSegment(parts[k])
  }

  function NormalizeEntryPath(value: string, directory: bool): Result<string, ArchiveError> {
    var trimmed := TrimSlashes(ToSlashes(value));
    if !SafeName(trimmed) then Err(UnsafeEntry)
    else Ok(if directory then trimmed + "/" else trimmed)
  }

  /** A normalized path keeps its name when it is normalized again. */
  lemma NormalizedAgain(value: string, directory: bool)
    requires NormalizeEntryPath(value, directory).Ok?
    ensures var path := NormalizeEntryPath(value, directory).value;
            && NormalizeEntryPath(path, directory) == Ok(path)
            && TrimSlashes(path) == TrimSlashes(ToSlashes(value)) && SafeName(TrimSlashes(path))
  {
    var trimmed := TrimSlashes(ToSlashes(value));
    assert '\\' !in trimmed;
    assert TrimSlashes(trimmed) == trimmed;
    assert (trimmed + "/")[..|trimmed|] == trimmed;
    assert TrimSlashes(trimmed + "/") == trimmed;
  }

  // ----- collision keys

  /** What is used of the canonical, case-folded spelling: it works within path components. */
  ghost predicate FoldsComponents(key: string -> string) {
    && (forall a, b :: key(a + "/" + b) == key(a) + "/" + key(b))
    && (forall a :: '/' !in a ==> '/' !in key(a))
    && (forall a :: a != "" ==> key(a) != "")
  }

  function Keys(key: string -> string, parts: seq<string>): (r: seq<string>)
    ensures |r| == |parts|
  {
    seq(|parts|, i requires 0 <= i < |parts| => key(parts[i]))
  }

  lemma {:induction false} KeyOfJoin(key: string -> string, parts: seq<string>)
    requires FoldsComponents(key) && |parts| > 0
    ensures key(Join(parts, '/')) == Join(Keys(key, parts), '/')
  {
    if |parts| > 1 {
      KeyOfJoin(key, parts[1..]);
      assert Keys(key, parts)[1..] == Keys(key, parts[1..]);
      assert Join(parts, '/') == parts[0] + "/" + Join(parts[1..], '/');
    }
  }

  // ----- inspection

  predicate RegularMode(mode: Option<nat>) {
    mode.None? || (var kind := mode.value / 4096 % 16; kind == 0 || kind == 8 || kind == 4)
  }

  function SizeProblem(m: Member, total: nat): Option<ArchiveError> {
    if m.size > MAX_WORKSPACE_ARCHIVE_ENTRY_BYTES then Some(EntryTooLarge)
    else if m.size > (if m.compressedSize == 0 then 1 else m.compressedSize) * MAX_WORKSPACE_ARCHIVE_COMPRESSION_RATIO
    then Some(CompressionRatio)
    else if total + m.size > MAX_WORKSPACE_ARCHIVE_UNCOMPRESSED_BYTES then Some(ExpandedTooLarge)
    else None
  }

  function EntryKey(key: string -> string, e: Entry): string { key(TrimSlashes(e.path)) }

  datatype Listed = Listed(entries: seq<Entry>, total: nat)

  /** One member after those already listed. */
  function ListOne(key: string -> string, m: Member, before: Listed): Result<Listed, ArchiveError> {
    if !m.nameIsUtf8 then Err(UnsafeEntry)
    else
      var name := NormalizeEntryPath(m.name, m.directory);
      if name.Err? then Err(name.error)
      else if m.encrypted || !m.supportedCompression then Err(InvalidArchive)
      else if !RegularMode(m.unixMode) then Err(SpecialEntry)
      else
        var entry := Entry(name.value, m.directory, m.size, m.compressedSize);
        if exists i :: 0 <= i < |before.entries| && EntryKey(key, before.entries[i]) == EntryKey(key, entry)
        then Err(DuplicateEntry)
        else
          var problem := SizeProblem(m, before.total);
          if problem.Some? then Err(problem.value)
          else Ok(Listed(before.entries + [entry], before.total + m.size))
  }

  function ListMembers(key: string -> string, members: seq<Member>): Result<Listed, ArchiveError>
    decreases |members|
  {
    if members == [] then Ok(Listed([], 0))
    else
      var before := ListMembers(key, members[..|members| - 1]);
      if before.Err? then before else ListOne(key, members[|members| - 1], before.value)
  }

  function Parts(e: Entry): (r: seq<string>)
    ensures |r| > 0
  {
    Split(TrimSlashes(e.path), '/')
  }

  /** A file stands where the entry needs a directory. */
  predicate UnderAFile(key: string -> string, entries: seq<Entry>, e: Entry) {
    var keys := Keys(key, Parts(e));
    exists n, i :: 0 < n < |keys| && 0 <= i < |entries| && !entries[i].directory && key(entries[i].path) == Join(keys[..n], '/')
  }

  function Inspect(key: string -> string, members: seq<Member>): Result<seq<Entry>, ArchiveError> {
    if |members| > MAX_WORKSPACE_ARCHIVE_ENTRIES then Err(TooManyEntries)
    else
      var listed := ListMembers(key, members);
      if listed.Err? then Err(listed.error)
      else if exists i :: 0 <= i < |listed.value.entries| && UnderAFile(key, listed.value.entries, listed.value.entries[i])
      then Err(DuplicateEntry)
      else Ok(listed.value.entries)
  }

  /** Lists every member, then walks the components above each entry. */
  method InspectArchive(key: string -> string, members: seq<Member>) returns (r: Result<seq<Entry>, ArchiveError>)
    requires FoldsComponents(key)
    ensures r == Inspect(key, members)
  {
    hide NormalizeEntryPath, ListMembers, UnderAFile, SafeEntry, EntryKey, FoldsComponents;
    if |members| > MAX_WORKSPACE_ARCHIVE_ENTRIES {
      return Err(TooManyEntries);
    }
    var listed := ListArchive(key, members);
    if listed.Err? {
      return Err(listed.error);
    }
    ListedAreSafe(key, members);
    var entries := listed.value.entries;
    var hidden := FindEntryUnderAFile(key, entries);
    return if hidden then Err(DuplicateEntry) else Ok(entries);
  }

  method ListArchive(key: string -> string, members: seq<Member>) returns (r: Result<Listed, ArchiveError>)
    ensures r == ListMembers(key, members)
  {
    hide NormalizeEntryPath, ListOne, EntryKey, SeenKeys;
    var entries: seq<Entry>, total: nat, seen := [], 0, {};
    NothingSeen(key);
    for i := 0 to |members|
      invariant ListMembers(key, members[..i]) == Ok(Listed(entries, total))
      invariant SeenKeys(key, entries, seen)
    {
      assert members[..i + 1][..i] == members[..i];
      ListingStops(key, members, i + 1);
      var listed, entry := ListMember(key, members[i], entries, total, seen);
      if listed.Err? {
        return Err(listed.error);
      }
      SeenKeysGrow(key, entries, seen, entry);
      seen, entries, total := seen + {EntryKey(key, entry)}, entries + [entry], total + members[i].size;
    }
    assert members[..|members|] == members;
    return Ok(Listed(entries, total));
  }

  lemma NothingSeen(key: string -> string)
    ensures SeenKeys(key, [], {})
  {}

  method FindEntryUnderAFile(key: string -> string, entries: seq<Entry>) returns (found: bool)
    requires FoldsComponents(key)
    requires forall i :: 0 <= i < |entries| ==> SafeEntry(entries[i])
    ensures found <==> exists i :: 0 <= i < |entries| && UnderAFile(key, entries, entries[i])
  {
    hide UnderAFile, SafeEntry, FoldsComponents, Parts;
    var files := set i | 0 <= i < |entries| && !entries[i].directory :: key(entries[i].path);
    for i := 0 to |entries|
      invariant forall j :: 0 <= j < i ==> !UnderAFile(key, entries, entries[j])
    {
      SafePartsAreNonEmpty(entries[i]);
      var under := FindFileAbove(key, entries, entries[i], files);
      if under {
        return true;
      }
    }
    return false;
  }

  lemma SafePartsAreNonEmpty(e: Entry)
    requires SafeEntry(e)
    ensures forall k :: 0 <= k < |Parts(e)| ==> Parts(e)[k] != ""
  {}

  /** Listed entries have safe names. */
  ghost predicate SafeEntry(e: Entry) {
    && SafeName(TrimSlashes(e.path))
    && e.path == if e.directory then TrimSlashes(e.path) + "/" else TrimSlashes(e.path)
  }

  lemma {:induction false} ListedAreSafe(key: string -> string, members: seq<Member>)
    requires ListMembers(key, members).Ok?
    ensures var entries := ListMembers(key, members).value.entries;
            && |entries| == |members|
            && (forall i :: 0 <= i < |entries| ==> SafeEntry(entries[i]))
            && (forall i, j :: 0 <= i < j < |entries| ==> EntryKey(key, entries[i]) != EntryKey(key, entries[j]))
            && (forall i :: 0 <= i < |entries| ==>
                  entries[i].directory == members[i].directory && entries[i].size == members[i].size
                  && Ok(entries[i].path) == NormalizeEntryPath(members[i].name, members[i].directory))
    decreases |members|
  {
    hide NormalizeEntryPath, SafeEntry, ListOne, EntryKey;
    if members != [] {
      var n := |members| - 1;
      ListedAreSafe(key, members[..n]);
      ListedOne(key, members[n], ListMembers(key, members[..n]).value);
    }
  }

  /** A member is listed under its normal name, which is safe and new. */
  lemma ListedOne(key: string -> string, m: Member, before: Listed)
    requires ListOne(key, m, before).Ok?
    ensures var listed, n := ListOne(key, m, before).value, |before.entries|;
            && |listed.entries| == n + 1 && listed.entries[..n] == before.entries && SafeEntry(listed.entries[n])
            && (forall i :: 0 <= i < n ==> EntryKey(key, before.entries[i]) != EntryKey(key, listed.entries[n]))
            && listed.entries[n].directory == m.directory && listed.entries[n].size == m.size
            && Ok(listed.entries[n].path) == NormalizeEntryPath(m.name, m.directory)
  {
    hide NormalizeEntryPath, SafeName, SizeProblem, RegularMode, EntryKey;
    NormalizedAgain(m.name, m.directory);
    NormalizedShape(m.name, m.directory);
  }

  lemma NormalizedShape(value: string, directory: bool)
    requires NormalizeEntryPath(value, directory).Ok?
    ensures var path := NormalizeEntryPath(value, directory).value;
            path == if directory then TrimSlashes(path) + "/" else TrimSlashes(path)
  {
    NormalizedAgain(value, directory);
  }

  ghost predicate SeenKeys(key: string -> string, entries: seq<Entry>, seen: set<string>) {
    forall k :: k in seen <==> exists i :: 0 <= i < |entries| && EntryKey(key, entries[i]) == k
  }

  lemma SeenKeysGrow(key: string -> string, entries: seq<Entry>, seen: set<string>, e: Entry)
    requires SeenKeys(key, entries, seen)
    ensures SeenKeys(key, entries + [e], seen + {EntryKey(key, e)})
  {
    var longer := entries + [e];
    assert forall i :: 0 <= i < |entries| ==> longer[i] == entries[i];
    assert longer[|entries|] == e;
    forall k | k in seen + {EntryKey(key, e)}
      ensures exists i :: 0 <= i < |longer| && EntryKey(key, longer[i]) == k
    {
      if k in seen {
        var i :| 0 <= i < |entries| && EntryKey(key, entries[i]) == k;
        assert EntryKey(key, longer[i]) == k;
      }
    }
  }

  lemma {:induction false} ListingStops(key: string -> string, members: seq<Member>, i: nat)
    requires i <= |members|
    ensures ListMembers(key, members[..i]).Err? ==> ListMembers(key, members) == ListMembers(key, members[..i])
    decreases |members| - i
  {
    if i == |members| {
      assert members[..i] == members;
    } else {
      ListingStops(key, members, i + 1);
      assert members[..i + 1][..i] == members[..i];
    }
  }

  method ListMember(key: string -> string, m: Member, entries: seq<Entry>, total: nat, seen: set<string>)
    returns (r: Result<(), ArchiveError>, entry: Entry)
    requires SeenKeys(key, entries, seen)
    ensures match ListOne(key, m, Listed(entries, total))
            case Ok(after) => r == Ok(()) && after == Listed(entries + [entry], total + m.size)
            case Err(e) => r == Err(e)
  {
    hide NormalizeEntryPath;
    entry := Entry("", m.directory, m.size, m.compressedSize);
    if !m.nameIsUtf8 {
      return Err(UnsafeEntry), entry;
    }
    var name := NormalizeEntryPath(m.name, m.directory);
    if name.Err? {
      return Err(name.error), entry;
    }
    if m.encrypted || !m.supportedCompression {
      return Err(InvalidArchive), entry;
    }
    if !RegularMode(m.unixMode) {
      return Err(SpecialEntry), entry;
    }
    entry := entry.(path := name.value);
    if EntryKey(key, entry) in seen {
      return Err(DuplicateEntry), entry;
    }
    var problem := SizeProblem(m, total);
    if problem.Some? {
      return Err(problem.value), entry;
    }
    return Ok(()), entry;
  }

  ghost predicate FileKeys(key: string -> string, entries: seq<Entry>, files: set<string>) {
    forall k :: k in files <==> exists i :: 0 <= i < |entries| && !entries[i].directory && key(entries[i].path) == k
  }

  predicate Ancestor(keys: seq<string>, n: nat, files: set<string>)
    requires n <= |keys|
  {
    n > 0 && Join(keys[..n], '/') in files
  }

  lemma UnderAFileIff(key: string -> string, entries: seq<Entry>, e: Entry, files: set<string>)
    requires FileKeys(key, entries, files)
    ensures UnderAFile(key, entries, e) <==>
              exists n :: 0 <= n < |Parts(e)| && Ancestor(Keys(key, Parts(e)), n, files)
  {
    var keys := Keys(key, Parts(e));
    if UnderAFile(key, entries, e) {
      var n, i :| 0 < n < |keys| && 0 <= i < |entries| && !entries[i].directory && key(entries[i].path) == Join(keys[..n], '/');
      assert Ancestor(keys, n, files);
    }
  }

  /** The growing prefix of component keys, looked up among the files. */
  method FindFileAbove(key: string -> string, entries: seq<Entry>, e: Entry, files: set<string>) returns (found: bool)
    requires FoldsComponents(key) && FileKeys(key, entries, files)
    requires forall k :: 0 <= k < |Parts(e)| ==> Parts(e)[k] != ""
    ensures found <==> UnderAFile(key, entries, e)
  {
    hide UnderAFile, FileKeys, Parts;
    UnderAFileIff(key, entries, e, files);
    var parts := Parts(e);
    ghost var keys := Keys(key, parts);
    var prefix := "";
    for n := 0 to |parts| - 1
      invariant if n == 0 then prefix == "" else prefix == Join(keys[..n], '/') && prefix != ""
      invariant forall k :: 0 <= k <= n ==> !Ancestor(keys, k, files)
    {
      JoinOneMore(keys, n);
      assert parts[n] != "" && keys[n] == key(parts[n]);
      if prefix != "" {
        prefix := prefix + "/";
      }
      prefix := prefix + key(parts[n]);
      assert prefix == Join(keys[..n + 1], '/');
      if prefix in files {
        assert Ancestor(keys, n + 1, files);
        return true;
      }
    }
    return false;
  }

  lemma {:induction false} JoinOneMore(parts: seq<string>, n: nat)
    requires n < |parts|
    ensures Join(parts[..n + 1], '/') == if n > 0 then Join(parts[..n], '/') + "/" + parts[n] else parts[n]
  {
    if n > 0 {
      JoinOneMore(parts[1..], n - 1);
      assert parts[..n + 1][1..] == parts[1..][..n] && parts[..n][1..] == parts[1..][..n - 1];
    }
  }
}
