/** Which archive members are accepted, under which names, and what the others are refused as. */
module ArchiveRules {
  import opened Text
  import opened PathWalk
  import opened Utf8Text
  import SessionRules
  import opened WorkspaceArchive

  // ----- reserved components

  /** The length of the part in front of the first dot. */
  predicate IsStem(segment: string, n: nat) {
    n <= |segment| && '.' !in segment[..n] && (n < |segment| ==> segment[n] == '.')
  }

  /** A lower-case word, with ASCII letters in any case. */
  predicate ReadsAs(s: string, word: string) {
    |s| == |word| && forall i :: 0 <= i < |word| ==> s[i] == word[i] || ('A' <= s[i] <= 'Z' && word[i] == s[i] - 'A' + 'a')
  }

  /** A device: console, printer, auxiliary, null, or a numbered port, superscript digits included. */
  predicate IsDevice(stem: string) {
    || ReadsAs(stem, "con") || ReadsAs(stem, "prn") || ReadsAs(stem, "aux") || ReadsAs(stem, "nul")
    || (|stem| == 4 && (ReadsAs(stem[..3], "com") || ReadsAs(stem[..3], "lpt"))
        && stem[3] in "123456789\U{B9}\U{B2}\U{B3}")
  }

  /** A short name: something, a tilde and digits, eight bytes at most. */
  predicate IsShortName(stem: string) {
    && |Encode(SessionRules.Scalars(stem))| <= 8
    && exists t :: 0 < t < |stem| - 1 && stem[t] == '~' && forall i :: t < i < |stem| ==> '0' <= stem[i] <= '9'
  }

  /** What Windows reads as something else. */
  ghost predicate Reserved(segment: string) {
    || (segment != "" && (segment[|segment| - 1] == '.' || segment[|segment| - 1] == ' '))
    || exists n: nat :: IsStem(segment, n) && (IsDevice(segment[..n]) || IsShortName(segment[..n]))
  }

  lemma {:induction false} FirstPart(segment: string)
    ensures var n := |Split(segment, '.')[0]|; IsStem(segment, n) && Split(segment, '.')[0] == segment[..n]
  {
    if segment != "" {
      FirstPart(segment[1..]);
      if segment[0] != '.' {
        var rest := Split(segment[1..], '.')[0];
        assert segment[..|rest| + 1] == [segment[0]] + segment[1..][..|rest|];
      }
    }
  }

  lemma OneStem(segment: string, m: nat, n: nat)
    requires IsStem(segment, m) && IsStem(segment, n)
    ensures m == n
  {}

  lemma ReadsIff(s: string, word: string, upper: string)
    requires |word| == |upper| && forall i :: 0 <= i < |word| ==> 'a' <= word[i] <= 'z' && upper[i] == word[i] - 'a' + 'A'
    ensures Upper(s) == upper <==> ReadsAs(s, word)
  {
    if Upper(s) == upper {
      forall i | 0 <= i < |word|
        ensures s[i] == word[i] || ('A' <= s[i] <= 'Z' && word[i] == s[i] - 'A' + 'a')
      {
        assert Upper(s)[i] == UpperChar(s[i]);
      }
    }
    if ReadsAs(s, word) {
      assert forall i :: 0 <= i < |word| ==> Upper(s)[i] == upper[i];
    }
  }

  predicate PortIn(upper: string) {
    && ("COM" <= upper || "LPT" <= upper)
    && upper[3..] in {"1", "2", "3", "4", "5", "6", "7", "8", "9", "\U{B9}", "\U{B2}", "\U{B3}"}
  }

  predicate TildeIn(upper: string) {
    var tilde := LastTilde(upper);
    0 < tilde < |upper| - 1 && Utf8Length(upper) <= 8 && forall i :: tilde < i < |upper| ==> IsDigit(upper[i])
  }

  lemma PortIff(stem: string)
    ensures PortIn(Upper(stem)) <==>
              |stem| == 4 && (ReadsAs(stem[..3], "com") || ReadsAs(stem[..3], "lpt"))
              && stem[3] in "123456789\U{B9}\U{B2}\U{B3}"
  {
    var upper := Upper(stem);
    if |stem| >= 3 {
      assert upper[..3] == Upper(stem[..3]);
      ReadsIff(stem[..3], "com", "COM");
      ReadsIff(stem[..3], "lpt", "LPT");
      assert ("COM" <= upper <==> upper[..3] == "COM") && ("LPT" <= upper <==> upper[..3] == "LPT");
      PortDigit(upper[3..]);
      if |stem| == 4 {
        DigitStays(stem[3]);
        assert upper[3] == UpperChar(stem[3]);
      }
    }
  }

  lemma PortDigit(s: string)
    ensures s in {"1", "2", "3", "4", "5", "6", "7", "8", "9", "\U{B9}", "\U{B2}", "\U{B3}"} <==>
              |s| == 1 && s[0] in "123456789\U{B9}\U{B2}\U{B3}"
  {
    if |s| == 1 {
      assert s == [s[0]];
    }
  }

  lemma DigitStays(c: char)
    ensures UpperChar(c) in "123456789\U{B9}\U{B2}\U{B3}" <==> c in "123456789\U{B9}\U{B2}\U{B3}"
  {}

  lemma DeviceIff(stem: string)
    ensures Upper(stem) in {"CON", "PRN", "AUX", "NUL"} <==>
              ReadsAs(stem, "con") || ReadsAs(stem, "prn") || ReadsAs(stem, "aux") || ReadsAs(stem, "nul")
  {
    ReadsIff(stem, "con", "CON");
    ReadsIff(stem, "prn", "PRN");
    ReadsIff(stem, "aux", "AUX");
    ReadsIff(stem, "nul", "NUL");
  }

  lemma {:induction false} LastTildeIs(s: string)
    ensures var i := LastTilde(s); (i < |s| ==> s[i] == '~') && forall k :: i < k < |s| ==> s[k] != '~'
    ensures LastTilde(s) == |s| ==> '~' !in s
    decreases |s|
  {
    if s != "" && s[|s| - 1] != '~' {
      LastTildeIs(s[..|s| - 1]);
    }
  }

  lemma ShortNameIff(stem: string)
    ensures TildeIn(Upper(stem)) <==> IsShortName(stem)
  {
    hide Upper, LastTilde, Utf8Length, Encode, IsDigit;
    var upper := Upper(stem);
    var tilde := LastTilde(upper);
    LastTildeIs(upper);
    UpperLength(stem);
    SessionRules.Utf8LengthIs(stem);
    UpperDigits(stem);
    if IsShortName(stem) {
      var t :| 0 < t < |stem| - 1 && stem[t] == '~' && forall i :: t < i < |stem| ==> '0' <= stem[i] <= '9';
      assert upper[t] == '~' && forall i :: t < i < |upper| ==> upper[i] != '~';
      assert tilde == t;
    }
  }

  lemma UpperDigits(stem: string)
    ensures forall i :: 0 <= i < |stem| ==> (Upper(stem)[i] == '~' <==> stem[i] == '~')
    ensures forall i :: 0 <= i < |stem| ==> (IsDigit(Upper(stem)[i]) <==> '0' <= stem[i] <= '9')
    ensures forall i :: 0 <= i < |stem| && '0' <= stem[i] <= '9' ==> Upper(stem)[i] != '~'
  {
    forall i | 0 <= i < |stem|
      ensures Upper(stem)[i] == UpperChar(stem[i])
    {}
  }

  lemma {:induction false} UpperLength(s: string)
    ensures Utf8Length(Upper(s)) == Utf8Length(s)
  {
    if s != "" {
      UpperLength(s[1..]);
      assert Upper(s)[1..] == Upper(s[1..]);
      assert Upper(s)[0] == UpperChar(s[0]);
    }
  }

  lemma ReservedIff(segment: string)
    ensures UnsafeWindowsComponent(segment) <==> Reserved(segment)
  {
    hide IsDevice, IsShortName, Upper, LastTilde, Utf8Length;
    var stem := Split(segment, '.')[0];
    FirstPart(segment);
    forall n: nat | IsStem(segment, n)
      ensures n == |stem|
    {
      OneStem(segment, n, |stem|);
    }
    StemIff(stem);
  }

  lemma StemIff(stem: string)
    ensures PortIn(Upper(stem)) || Upper(stem) in {"CON", "PRN", "AUX", "NUL"} || TildeIn(Upper(stem)) <==>
              IsDevice(stem) || IsShortName(stem)
  {
    hide Upper, PortIn, TildeIn, ReadsAs, IsShortName;
    PortIff(stem);
    DeviceIff(stem);
    ShortNameIff(stem);
  }

  // ----- names

  /** At most 64 components and 1024 bytes, staying below the root as written, without device paths and NULs. */
  ghost predicate IsMemberName(body: string) {
    && |Encode(SessionRules.Scalars(body))| <= 1024 && ':' !in body && '\0' !in body
    && WrittenAsWalked(body, '/', '.') && |Walk(body, '/', '.').value| <= 64
    && forall k :: 0 <= k < |Walk(body, '/', '.').value| ==> !Reserved(Walk(body, '/', '.').value[k])
  }

  lemma NameIff(body: string)
    ensures SafeName(body) <==> IsMemberName(body)
  {
    hide Reserved, UnsafeWindowsComponent, Encode, Walk, Utf8Length;
    SessionRules.Utf8LengthIs(body);
    var parts := Split(body, '/');
    GoesDownIff(body, '/', '.');
    if AllGoDown(parts, '.') {
      WalkIsEnterAll(body, '/', '.');
      EntersAtMost([], parts, '.');
      assert [] + parts == parts;
    }
    forall k | 0 <= k < |parts|
      ensures UnsafeWindowsComponent(parts[k]) <==> Reserved(parts[k])
    {
      ReservedIff(parts[k]);
    }
    FirstIsPart(body);
  }

  /** A leading slash leaves an empty component. */
  lemma FirstIsPart(body: string)
    ensures AllGoDown(Split(body, '/'), '.') ==> body != "" && body[0] != '/'
  {
    if body == "" || body[0] == '/' {
      assert Split(body, '/')[0] == "";
    }
  }

  /** The listed name is the stored one with forward slashes and none at the end, but one for a directory. */
  predicate Spells(value: string, body: string) {
    && |body| <= |value|
    && (forall k :: 0 <= k < |body| ==> body[k] == if value[k] == '\\' then '/' else value[k])
    && (forall k :: |body| <= k < |value| ==> value[k] == '/' || value[k] == '\\')
    && (body != "" ==> body[|body| - 1] != '/')
  }

  lemma {:induction false} TrimmedIs(s: string)
    ensures forall k :: |WorkspaceArchive.TrimSlashes(s)| <= k < |s| ==> s[k] == '/'
    decreases |s|
  {
    if s != "" && s[|s| - 1] == '/' {
      TrimmedIs(s[..|s| - 1]);
    }
  }

  lemma SpellsIff(value: string, body: string)
    ensures WorkspaceArchive.TrimSlashes(ToSlashes(value)) == body <==> Spells(value, body)
  {
    var slashed := ToSlashes(value);
    var trimmed := WorkspaceArchive.TrimSlashes(slashed);
    TrimmedIs(slashed);
    forall k | 0 <= k < |value|
      ensures slashed[k] == if value[k] == '\\' then '/' else value[k]
    {}
    if Spells(value, body) {
      assert slashed[..|body|] == body;
    }
  }

  /** Which stored names are accepted, and as what. */
  lemma EntryPathIff(value: string, directory: bool, path: string)
    ensures NormalizeEntryPath(value, directory) == Ok(path) <==>
              exists body :: Spells(value, body) && IsMemberName(body) && path == if directory then body + "/" else body
    ensures NormalizeEntryPath(value, directory).Err? ==> NormalizeEntryPath(value, directory).error == UnsafeEntry
  {
    hide IsMemberName, SafeName, Spells;
    var trimmed := WorkspaceArchive.TrimSlashes(ToSlashes(value));
    NameIff(trimmed);
    forall body
      ensures Spells(value, body) <==> body == trimmed
    {
      SpellsIff(value, body);
    }
  }

  // ----- members

  /** Neither a link nor a device: the type bits say nothing, a regular file or a directory. */
  lemma ModeIff(mode: nat)
    ensures RegularMode(Some(mode)) <==> (mode % 0x1_0000) - (mode % 0x1000) in {0, 0x8000, 0x4000}
    ensures RegularMode(None)
  {}

  /** What a member is refused as, after those listed already. */
  lemma MemberRefusedIff(key: string -> string, m: Member, before: Listed)
    ensures var r, name := ListOne(key, m, before), NormalizeEntryPath(m.name, m.directory);
            if !m.nameIsUtf8 || name.Err? then r == Err(UnsafeEntry)
            else if m.encrypted || !m.supportedCompression then r == Err(InvalidArchive)
            else if !RegularMode(m.unixMode) then r == Err(SpecialEntry)
            else
              var entry := Entry(name.value, m.directory, m.size, m.compressedSize);
              if exists i :: 0 <= i < |before.entries| && EntryKey(key, before.entries[i]) == EntryKey(key, entry)
              then r == Err(DuplicateEntry)
              else if m.size > 16777216 then r == Err(EntryTooLarge)
              else if m.size > 200 && m.size > 200 * m.compressedSize then r == Err(CompressionRatio)
              else if before.total + m.size > 67108864 then r == Err(ExpandedTooLarge)
              else r == Ok(Listed(before.entries + [entry], before.total + m.size))
  {
    hide SafeName;
  }

  lemma CountIff(key: string -> string, members: seq<Member>)
    ensures Inspect(key, members) == Err(TooManyEntries) <==> |members| > 4096
  {
    hide ListMembers;
    ListRefusals(key, members);
  }

  lemma {:induction false} ListRefusals(key: string -> string, members: seq<Member>)
    ensures ListMembers(key, members) != Err(TooManyEntries)
    decreases |members|
  {
    if members != [] {
      ListRefusals(key, members[..|members| - 1]);
    }
  }
}
