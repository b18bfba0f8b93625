/** Two texts at which the whole redaction shows what its own passes had not left: a header and user information. */
module RedactionExamples {
  import opened Text
  import opened RedactionPass
  import opened BlockRedaction
  import opened UserinfoRedaction
  import opened Redaction
  import opened RedactionRuns
  import opened RedactedKinds
  import opened WholeRedaction

  // ----- words that do not occur

  lemma MissingChar(t: string, word: string, k: nat, at: nat)
    requires k < |word| && forall p :: at <= p < |t| ==> LowerChar(t[p]) != word[k]
    ensures FindWord(t, word, at).None?
  {
    hide At;
    var found := FindWord(t, word, at);
    if found.Some? {
      CharAt(t, word, found.value, k);
    }
  }

  ghost predicate NoPair(t: string, c: char, d: char) {
    forall p :: 0 <= p < |t| - 1 ==> LowerChar(t[p]) != c || LowerChar(t[p + 1]) != d
  }

  lemma MissingPair(t: string, word: string, k: nat)
    requires k + 1 < |word| && NoPair(t, word[k], word[k + 1])
    ensures FindWord(t, word, 0).None?
  {
    hide At;
    var found := FindWord(t, word, 0);
    if found.Some? {
      CharAt(t, word, found.value, k);
      CharAt(t, word, found.value, k + 1);
    }
  }

  lemma AbsentIsUnchanged(kind: Kind, t: string)
    requires ValidKind(kind) && FindWord(t, kind.word, 0).None?
    ensures RedactKind(kind, t) == t
  {
    hide FindWord, Pass;
    KindProgresses(kind);
    PassStep(Decide(kind), REDACTED, t, 0);
  }

  lemma {:induction false} AbsentKinds(kinds: seq<Kind>, t: string)
    requires forall i :: 0 <= i < |kinds| ==> ValidKind(kinds[i]) && FindWord(t, kinds[i].word, 0).None?
    ensures RedactKinds(kinds, t) == t
    decreases |kinds|
  {
    hide ValidKind, FindWord, RedactKind;
    if kinds != [] {
      AbsentKinds(kinds[..|kinds| - 1], t);
      AbsentIsUnchanged(kinds[|kinds| - 1], t);
    }
  }

  lemma {:induction false} KindsInTwo(a: seq<Kind>, b: seq<Kind>, t: string)
    requires forall i :: 0 <= i < |a| ==> ValidKind(a[i])
    requires forall i :: 0 <= i < |b| ==> ValidKind(b[i])
    ensures RedactKinds(a + b, t) == RedactKinds(b, RedactKinds(a, t))
    decreases |b|
  {
    hide ValidKind, RedactKind;
    if b == [] {
      assert a + b == a;
    } else {
      KindsInTwo(a, b[..|b| - 1], t);
      assert (a + b)[..|a + b| - 1] == a + b[..|b| - 1];
    }
  }

  // ----- a header that comes back

  /** A quoted value takes the line feed between the two halves of a header. */
  const GIVEN: string := "password='"
  const HEAD: string := BEGIN + "x " + GIVEN
  const TAIL: string := "' " + PRIVATE
  const SPLIT_HEADER: string := HEAD + "\n" + TAIL
  const JOINED_HEADER: string := HEAD + REDACTED + TAIL

  ghost predicate Lacks(t: string, c: char) { forall p :: 0 <= p < |t| ==> LowerChar(t[p]) != c }

  lemma LacksBoth(a: string, b: string, c: char)
    requires Lacks(a, c) && Lacks(b, c)
    ensures Lacks(a + b, c)
  {}

  lemma NoPairInBoth(a: string, b: string, c: char, d: char)
    requires NoPair(a, c, d) && NoPair(b, c, d)
    requires a != "" && b != "" ==> LowerChar(a[|a| - 1]) != c || LowerChar(b[0]) != d
    ensures NoPair(a + b, c, d)
  {
    forall p | 0 <= p < |a + b| - 1
      ensures LowerChar((a + b)[p]) != c || LowerChar((a + b)[p + 1]) != d
    {
      if p >= |a| {
        assert (a + b)[p] == b[p - |a|] && (a + b)[p + 1] == b[p - |a| + 1];
      }
    }
  }

  /** Letters that no piece of the text has. */
  lemma RareInPieces(c: char)
    requires c in "lfu_:"
    ensures Lacks(BEGIN, c) && Lacks("x ", c) && Lacks(GIVEN, c) && Lacks("\n", c) && Lacks("' ", c) && Lacks(PRIVATE, c)
  {}

  lemma RareInMark(c: char)
    requires c in "lfu_:"
    ensures Lacks(REDACTED, c)
  {}

  lemma NoCInPieces()
    ensures Lacks(BEGIN, 'c') && Lacks("x ", 'c') && Lacks(GIVEN, 'c') && Lacks("\n", 'c') && Lacks("' ", 'c') && Lacks(PRIVATE, 'c')
  {}

  lemma RareInSplit(c: char)
    requires c in "c:"
    ensures Lacks(SPLIT_HEADER, c)
  {
    hide Lacks;
    if c == 'c' {
      NoCInPieces();
    } else {
      RareInPieces(c);
    }
    LacksBoth(BEGIN, "x ", c);
    LacksBoth(BEGIN + "x ", GIVEN, c);
    LacksBoth("' ", PRIVATE, c);
    LacksBoth(HEAD, "\n", c);
    LacksBoth(HEAD + "\n", TAIL, c);
  }

  lemma RareInJoined(c: char)
    requires c in "lfu_:"
    ensures Lacks(JOINED_HEADER, c)
  {
    hide Lacks;
    RareInPieces(c);
    RareInMark(c);
    LacksBoth(BEGIN, "x ", c);
    LacksBoth(BEGIN + "x ", GIVEN, c);
    LacksBoth("' ", PRIVATE, c);
    LacksBoth(HEAD, REDACTED, c);
    LacksBoth(HEAD + REDACTED, TAIL, c);
  }

  /** Pairs of letters that the joined text nowhere has. */
  predicate AbsentPair(c: char, d: char) {
    (c, d) in {('w', 'd'), ('a', 'p'), ('s', 'e'), ('c', 'c'), ('c', 'o'), ('d', 's')}
  }

  predicate FirstPairs(c: char, d: char) { (c, d) in {('w', 'd'), ('a', 'p'), ('s', 'e')} }

  predicate LastPairs(c: char, d: char) { (c, d) in {('c', 'c'), ('c', 'o'), ('d', 's'), ('e', 'a')} }

  lemma FirstPairsAbsent(c: char, d: char)
    requires FirstPairs(c, d)
    ensures NoPair(BEGIN, c, d) && NoPair(GIVEN, c, d)
  {}

  lemma LastPairsAbsent(c: char, d: char)
    requires LastPairs(c, d)
    ensures NoPair(BEGIN, c, d) && NoPair(GIVEN, c, d)
  {}

  lemma FirstPairsAbsentBehind(c: char, d: char)
    requires FirstPairs(c, d)
    ensures NoPair(PRIVATE, c, d)
  {}

  lemma LastPairsAbsentBehind(c: char, d: char)
    requires LastPairs(c, d)
    ensures NoPair(PRIVATE, c, d)
  {}

  lemma NoPairInShort(c: char, d: char)
    requires FirstPairs(c, d) || LastPairs(c, d)
    ensures NoPair("x ", c, d) && NoPair("' ", c, d) && NoPair("\n", c, d)
  {}

  lemma NoPairInMark(c: char, d: char)
    requires AbsentPair(c, d)
    ensures NoPair(REDACTED, c, d)
  {}

  lemma NoPairInHeadAndTail(c: char, d: char)
    requires AbsentPair(c, d) || (c, d) == ('e', 'a')
    ensures NoPair(HEAD, c, d) && NoPair(TAIL, c, d)
  {
    hide NoPair;
    if FirstPairs(c, d) {
      FirstPairsAbsent(c, d);
      FirstPairsAbsentBehind(c, d);
    } else {
      LastPairsAbsent(c, d);
      LastPairsAbsentBehind(c, d);
    }
    NoPairInShort(c, d);
    NoPairInBoth(BEGIN, "x ", c, d);
    NoPairInBoth(BEGIN + "x ", GIVEN, c, d);
    NoPairInBoth("' ", PRIVATE, c, d);
  }

  lemma NoPairInJoined(c: char, d: char)
    requires AbsentPair(c, d)
    ensures NoPair(JOINED_HEADER, c, d)
  {
    hide NoPair;
    NoPairInHeadAndTail(c, d);
    NoPairInMark(c, d);
    NoPairInBoth(HEAD, REDACTED, c, d);
    NoPairInBoth(HEAD + REDACTED, TAIL, c, d);
  }

  lemma NoEaInSplit()
    ensures NoPair(SPLIT_HEADER, 'e', 'a')
  {
    hide NoPair;
    NoPairInHeadAndTail('e', 'a');
    NoPairInShort('e', 'a');
    NoPairInBoth(HEAD, "\n", 'e', 'a');
    NoPairInBoth(HEAD + "\n", TAIL, 'e', 'a');
  }

  lemma SchemesAbsent(i: nat)
    requires i < |SCHEMES|
    ensures FindWord(SPLIT_HEADER, SCHEMES[i], 0).None?
  {
    hide FindWord, NoPair;
    if i == 0 {
      NoEaInSplit();
      MissingPair(SPLIT_HEADER, SCHEMES[0], 1);
    } else {
      RareInSplit('c');
      MissingChar(SPLIT_HEADER, SCHEMES[1], 4, 0);
    }
  }

  lemma PasswordNamesAbsent(i: nat)
    requires 0 < i < |PASSWORD_NAMES|
    ensures FindWord(JOINED_HEADER, PASSWORD_NAMES[i], 0).None?
  {
    hide FindWord, NoPair;
    if i < 3 {
      NoPairInJoined('w', 'd');
      MissingPair(JOINED_HEADER, PASSWORD_NAMES[i], if i == 1 then 4 else 1);
    } else {
      NoPairInJoined('a', 'p');
      MissingPair(JOINED_HEADER, PASSWORD_NAMES[i], if i == 6 then 2 else 0);
    }
  }

  lemma SecretNamesAbsent(i: nat)
    requires i < |SECRET_NAMES|
    ensures FindWord(JOINED_HEADER, SECRET_NAMES[i], 0).None?
  {
    hide FindWord, NoPair;
    if i == 0 {
      NoPairInJoined('s', 'e');
      MissingPair(JOINED_HEADER, SECRET_NAMES[0], 0);
    } else if i < 3 {
      RareInJoined('l');
      MissingChar(JOINED_HEADER, SECRET_NAMES[i], 1, 0);
    } else {
      NoPairInJoined('c', 'c');
      MissingPair(JOINED_HEADER, SECRET_NAMES[i], 1);
    }
  }

  lemma TokenNamesAbsent(i: nat)
    requires i < |TOKEN_NAMES|
    ensures FindWord(JOINED_HEADER, TOKEN_NAMES[i], 0).None?
  {
    hide FindWord, NoPair;
    if i < 2 {
      RareInJoined('f');
      MissingChar(JOINED_HEADER, TOKEN_NAMES[i], 2, 0);
    } else if i < 4 {
      RareInJoined('u');
      MissingChar(JOINED_HEADER, TOKEN_NAMES[i], 1, 0);
    } else {
      NoPairInJoined('s', 'e');
      MissingPair(JOINED_HEADER, TOKEN_NAMES[i], 0);
    }
  }

  lemma StoreNamesAbsent(i: nat)
    requires i < |STORE_NAMES|
    ensures FindWord(JOINED_HEADER, STORE_NAMES[i], 0).None?
  {
    hide FindWord, NoPair;
    if i == 0 || i == 6 || i == 7 {
      NoPairInJoined('c', 'o');
      MissingPair(JOINED_HEADER, STORE_NAMES[i], 0);
    } else if i == 1 {
      NoPairInJoined('s', 'e');
      MissingPair(JOINED_HEADER, STORE_NAMES[1], 0);
    } else if i == 8 {
      NoPairInJoined('d', 's');
      MissingPair(JOINED_HEADER, STORE_NAMES[8], 0);
    } else {
      var k := if i == 2 then 8 else if i == 3 then 9 else if i == 4 then 2 else 3;
      RareInJoined(STORE_NAMES[i][k]);
      MissingChar(JOINED_HEADER, STORE_NAMES[i], k, 0);
    }
  }

  function FirstKinds(): seq<Kind> { KindsOf(SchemeKind, SCHEMES) }

  function LaterKinds(): seq<Kind> { KINDS[|SCHEMES| + 1..] }

  lemma LaterAbsent(i: nat)
    requires i < |LaterKinds()|
    ensures FindWord(JOINED_HEADER, LaterKinds()[i].word, 0).None?
  {
    hide FindWord;
    assert LaterKinds()[i] == KINDS[i + 3];
    if i < 6 {
      PasswordNamesAbsent(i + 1);
    } else if i < 11 {
      SecretNamesAbsent(i - 6);
    } else if i < 17 {
      TokenNamesAbsent(i - 11);
    } else if i < 26 {
      StoreNamesAbsent(i - 17);
    } else {
      HeadersAbsent(i - 26);
    }
  }

  lemma HeadersAbsent(i: nat)
    requires i < |SENSITIVE_LINE_HEADERS|
    ensures FindWord(JOINED_HEADER, SENSITIVE_LINE_HEADERS[i], 0).None?
  {
    hide FindWord;
    var word := SENSITIVE_LINE_HEADERS[i];
    HeadersAreValid(i);
    assert word[|word| - 1] == ':';
    RareInJoined(':');
    MissingChar(JOINED_HEADER, word, |word| - 1, 0);
  }

  lemma KeysAreKept()
    ensures KeysRemoved(SPLIT_HEADER) == SPLIT_HEADER
  {
    hide FindWord, Pass, At;
    var t := SPLIT_HEADER;
    KeysProgress();
    BeginAtFront();
    SkipIs(t, 0, OnLine, 23);
    NoKeyInFirstLine();
    PassStep(PrivateKeyDecider(), REDACTED_PRIVATE_KEY, t, 0);
    MissingChar(t, BEGIN, 5, 23);
    PassStep(PrivateKeyDecider(), REDACTED_PRIVATE_KEY, t, 23);
  }

  lemma BeginIsLower()
    ensures forall k :: 0 <= k < |BEGIN| ==> LowerChar(BEGIN[k]) == BEGIN[k]
  {}

  lemma PrivateIsLower()
    ensures forall k :: 0 <= k < |PRIVATE| ==> LowerChar(PRIVATE[k]) == PRIVATE[k]
  {}

  /** A lower-case word stands where it was put. */
  lemma WordInside(before: string, word: string, behind: string)
    requires forall k :: 0 <= k < |word| ==> LowerChar(word[k]) == word[k]
    ensures At(before + word + behind, word, |before|)
  {
    forall k | 0 <= k < |word|
      ensures LowerChar((before + word + behind)[|before| + k]) == word[k]
    {
      assert (before + word + behind)[|before| + k] == word[k];
    }
  }

  lemma BeginAtFront()
    ensures FindWord(SPLIT_HEADER, BEGIN, 0) == Some(0) && At(JOINED_HEADER, BEGIN, 0)
  {
    hide At;
    BeginIsLower();
    WordInside("", BEGIN, "x " + GIVEN + "\n" + TAIL);
    WordInside("", BEGIN, "x " + GIVEN + REDACTED + TAIL);
    assert "" + BEGIN + ("x " + GIVEN + "\n" + TAIL) == SPLIT_HEADER;
    assert "" + BEGIN + ("x " + GIVEN + REDACTED + TAIL) == JOINED_HEADER;
  }

  lemma NoKeyInFirstLine()
    ensures FindWord(SPLIT_HEADER[..23], PRIVATE, 0).None?
  {
    hide FindWord;
    assert SPLIT_HEADER[..23] == HEAD;
    NoVInHead();
    MissingChar(HEAD, PRIVATE, 3, 0);
  }

  lemma NoVInHead()
    ensures Lacks(HEAD, 'v')
  {
    LacksBoth(BEGIN, "x ", 'v');
    LacksBoth(BEGIN + "x ", GIVEN, 'v');
  }

  lemma NoSeparator()
    ensures Progresses(UserinfoDecider()) && Pass(UserinfoDecider(), REDACTED, SPLIT_HEADER, 0) == SPLIT_HEADER
  {
    hide FindFrom, Pass;
    UserinfoProgresses();
    var found := FindFrom(SPLIT_HEADER, SCHEME_END, 0);
    if found.Some? {
      FitsInText(SPLIT_HEADER, 0, found.value);
      SeparatorChars(SPLIT_HEADER, found.value);
      RareInSplit(':');
    }
    PassStep(UserinfoDecider(), REDACTED, SPLIT_HEADER, 0);
  }

  lemma PasswordIsReplaced()
    ensures ValidKind(Named("password")) && RedactKind(Named("password"), SPLIT_HEADER) == JOINED_HEADER
  {
    hide Pass, DecideNamed, ValidKind;
    var kind := Named("password");
    PasswordNamesAreValid(0);
    KindProgresses(kind);
    PasswordDecided();
    PasswordEnds();
    PassStep(Decide(kind), REDACTED, SPLIT_HEADER, 0);
    assert SPLIT_HEADER[..23] == HEAD && SPLIT_HEADER[24..] == TAIL;
    PassStep(Decide(kind), REDACTED, JOINED_HEADER, 33);
  }

  lemma PasswordDecided()
    ensures DecideNamed(SPLIT_HEADER, "password", 0) == Replace(23, 24)
  {
    hide FindWord, SkipWhile;
    PasswordFound();
    SkipIs(SPLIT_HEADER, 21, IsSpace, 21);
    SkipIs(SPLIT_HEADER, 22, IsSpace, 22);
    SkipIs(SPLIT_HEADER, 23, Not(Is('\'')), 24);
  }

  lemma PasswordEnds()
    ensures DecideNamed(JOINED_HEADER, "password", 33) == Done
  {
    hide FindWord;
    LacksBoth("' ", PRIVATE, 'w');
    forall p | 33 <= p < |JOINED_HEADER|
      ensures LowerChar(JOINED_HEADER[p]) != 'w'
    {
      assert JOINED_HEADER[p] == TAIL[p - 33];
    }
    MissingChar(JOINED_HEADER, "password", 4, 33);
  }

  lemma PasswordFound()
    ensures FindWord(SPLIT_HEADER, "password", 0) == Some(13)
  {
    assert At(SPLIT_HEADER, "password", 13);
    forall p: nat | p < 13
      ensures !At(SPLIT_HEADER, "password", p)
    {
      if At(SPLIT_HEADER, "password", p) {
        CharAt(SPLIT_HEADER, "password", p, 0);
      }
    }
  }

  /** The whole redaction makes a private-key header of a text that had none. */
  lemma HeaderComesBack()
    ensures RedactSensitiveText(SPLIT_HEADER) == JOINED_HEADER
    ensures !HeaderLeft(SPLIT_HEADER) && HeaderLeft(JOINED_HEADER)
  {
    hide RedactKinds, RedactKind, KeysRemoved, Pass, FindWord, ValidKind, Harmless;
    KeysAreKept();
    NoSeparator();
    ValidKinds();
    forall i | 0 <= i < |FirstKinds()|
      ensures ValidKind(FirstKinds()[i]) && FindWord(SPLIT_HEADER, FirstKinds()[i].word, 0).None?
    {
      SchemesAreValid(i);
      SchemesAbsent(i);
    }
    AbsentKinds(FirstKinds(), SPLIT_HEADER);
    PasswordIsReplaced();
    forall i | 0 <= i < |LaterKinds()|
      ensures ValidKind(LaterKinds()[i]) && FindWord(JOINED_HEADER, LaterKinds()[i].word, 0).None?
    {
      assert LaterKinds()[i] == KINDS[i + 3];
      LaterAbsent(i);
    }
    AbsentKinds(LaterKinds(), JOINED_HEADER);
    var middle := [Named("password")];
    OneKind(Named("password"), SPLIT_HEADER);
    KindsInTwo(FirstKinds(), middle, SPLIT_HEADER);
    KindsInTwo(FirstKinds() + middle, LaterKinds(), SPLIT_HEADER);
    assert KINDS == FirstKinds() + middle + LaterKinds();
    NothingLeftYet(SPLIT_HEADER);
    HeaderShows();
  }

  lemma OneKind(kind: Kind, t: string)
    requires ValidKind(kind)
    ensures RedactKinds([kind], t) == RedactKind(kind, t)
  {
    hide RedactKind;
    assert [kind][..0] == [];
    assert RedactKinds([], t) == t;
  }

  lemma PrivateAtEnd()
    ensures At(JOINED_HEADER, PRIVATE, 35)
  {
    hide At;
    PrivateIsLower();
    WordInside(HEAD + REDACTED + "' ", PRIVATE, "");
    assert HEAD + REDACTED + "' " + PRIVATE + "" == JOINED_HEADER;
  }

  lemma JoinedIsOneLine()
    ensures Lacks(JOINED_HEADER, '\n')
  {
    LacksBoth(BEGIN, "x ", '\n');
    LacksBoth(BEGIN + "x ", GIVEN, '\n');
    LacksBoth("' ", PRIVATE, '\n');
    LacksBoth(HEAD, REDACTED, '\n');
    LacksBoth(HEAD + REDACTED, TAIL, '\n');
  }

  lemma HeaderShows()
    ensures HeaderLeft(JOINED_HEADER)
  {
    hide At;
    BeginAtFront();
    PrivateAtEnd();
    JoinedIsOneLine();
    SkipIs(JOINED_HEADER, 0, OnLine, |JOINED_HEADER|);
    assert !Harmless(JOINED_HEADER, 0);
  }

  // ----- user information that comes back

  /** A quoted value takes the slash that ends the authority in front of an at sign. */
  const OPENED: string := "x://u:p,pwd='"
  const CLOSED: string := "'@x.y"
  const SLASHED: string := OPENED + "/" + CLOSED
  const UNSLASHED: string := OPENED + REDACTED + CLOSED

  lemma RareInOpened(c: char)
    requires c in "abisflo"
    ensures Lacks(OPENED, c)
  {}

  lemma RareInClosed(c: char)
    requires c in "abisflo"
    ensures Lacks(CLOSED, c) && Lacks("/", c)
  {}

  lemma RareInMarkToo(c: char)
    requires c in "bisflo"
    ensures Lacks(REDACTED, c)
  {}

  lemma RareInSlashed(c: char)
    requires c in "ab"
    ensures Lacks(SLASHED, c)
  {
    hide Lacks;
    RareInOpened(c);
    RareInClosed(c);
    LacksBoth(OPENED, "/", c);
    LacksBoth(OPENED + "/", CLOSED, c);
  }

  lemma RareInUnslashed(c: char)
    requires c in "bisflo"
    ensures Lacks(UNSLASHED, c)
  {
    hide Lacks;
    RareInOpened(c);
    RareInClosed(c);
    RareInMarkToo(c);
    LacksBoth(OPENED, REDACTED, c);
    LacksBoth(OPENED + REDACTED, CLOSED, c);
  }

  lemma LacksWord(t: string, word: string, k: nat)
    requires k < |word| && Lacks(t, word[k])
    ensures FindWord(t, word, 0).None?
  {
    MissingChar(t, word, k, 0);
  }

  /** No kind before the name is in the text. */
  lemma EarlierMissing(i: nat)
    requires i < 4
    ensures FindWord(SLASHED, KINDS[i].word, 0).None?
  {
    hide FindWord, Lacks;
    RareInSlashed('b');
    RareInSlashed('a');
    LacksWord(SLASHED, KINDS[i].word, if i < 2 then 0 else 1);
  }

  /** A letter of each later kind that the text with the mark lacks. */
  function RareLetter(i: nat): (k: nat)
    requires i < |LaterThanPwd()|
    ensures k < |LaterThanPwd()[i].word| && LaterThanPwd()[i].word[k] in "bisflo"
  {
    if i < 9 then RareInSecrets(i) else if i < 15 then RareInTokens(i) else RareInStores(i)
  }

  function LaterThanPwd(): seq<Kind> { KINDS[5..] }

  function RareInSecrets(i: nat): (k: nat)
    requires i < 9
    ensures k < |LaterThanPwd()[i].word| && LaterThanPwd()[i].word[k] in "bisflo"
  {
    assert LaterThanPwd()[i] == KINDS[i + 5];
    if i < 3 then 2 else if i == 3 then 4 else if i == 4 then 0 else if i < 7 then 1 else 4
  }

  function RareInTokens(i: nat): (k: nat)
    requires 9 <= i < 15
    ensures k < |LaterThanPwd()[i].word| && LaterThanPwd()[i].word[k] in "bisflo"
  {
    assert LaterThanPwd()[i] == KINDS[i + 5];
    if i < 11 then 2 else if i < 13 then 6 else 0
  }

  function RareInStores(i: nat): (k: nat)
    requires 15 <= i < |LaterThanPwd()|
    ensures k < |LaterThanPwd()[i].word| && LaterThanPwd()[i].word[k] in "bisflo"
  {
    assert LaterThanPwd()[i] == KINDS[i + 5];
    if i == 16 || i == 27 then 0
    else if i == 17 || i == 18 || i == 24 || i == 28 then 4
    else if i == 25 then 2
    else 1
  }

  lemma LaterMissing(i: nat)
    requires i < |LaterThanPwd()|
    ensures FindWord(UNSLASHED, LaterThanPwd()[i].word, 0).None?
  {
    hide FindWord, Lacks;
    var word := LaterThanPwd()[i].word;
    RareInUnslashed(word[RareLetter(i)]);
    LacksWord(UNSLASHED, word, RareLetter(i));
  }

  lemma NoKeyInSlashed()
    ensures KeysRemoved(SLASHED) == SLASHED
  {
    hide FindWord, Pass, Lacks;
    KeysProgress();
    RareInSlashed('b');
    assert BEGIN[5] == 'b';
    LacksWord(SLASHED, BEGIN, 5);
    PassStep(PrivateKeyDecider(), REDACTED_PRIVATE_KEY, SLASHED, 0);
  }

  lemma SlashedChars()
    ensures |SLASHED| == 19 && SLASHED[0] == 'x' && SLASHED[1] == ':' && SLASHED[2] == '/' && SLASHED[3] == '/'
    ensures SLASHED[13] == '/' && SLASHED[12] == '\''
    ensures forall k :: 4 <= k < 13 ==> InAuthority(SLASHED[k]) && SLASHED[k] != '@'
    ensures forall k :: 2 <= k < 18 ==> SLASHED[k] != ':' || SLASHED[k + 1] != '/'
  {}

  /** The only authority is plain, so its own pass changes nothing and leaves nothing. */
  lemma NothingExposed()
    ensures Progresses(UserinfoDecider()) && Pass(UserinfoDecider(), REDACTED, SLASHED, 0) == SLASHED
    ensures forall p: nat :: !Exposed(SLASHED, p)
  {
    hide Pass, Masked;
    SlashedChars();
    SecondIsKept(SLASHED, 13);
    SkipIs(SLASHED, 4, InAuthority, 13);
    forall p: nat | OccursAt(SLASHED, SCHEME_END, p)
      ensures p == 1
    {
      SeparatorChars(SLASHED, p);
    }
  }

  lemma PwdIsReplaced()
    ensures ValidKind(Named("pwd")) && RedactKind(Named("pwd"), SLASHED) == UNSLASHED
  {
    hide Pass, DecideNamed, ValidKind;
    var kind := Named("pwd");
    PasswordNamesAreValid(2);
    KindProgresses(kind);
    PwdDecision();
    PwdIsLast();
    PassStep(Decide(kind), REDACTED, SLASHED, 0);
    assert SLASHED[..13] == OPENED && SLASHED[14..] == CLOSED;
    PassStep(Decide(kind), REDACTED, UNSLASHED, 23);
  }

  lemma PwdDecision()
    ensures DecideNamed(SLASHED, "pwd", 0) == Replace(13, 14)
  {
    hide FindWord, SkipWhile;
    PwdFound();
    SkipIs(SLASHED, 11, IsSpace, 11);
    SkipIs(SLASHED, 12, IsSpace, 12);
    SkipIs(SLASHED, 13, Not(Is('\'')), 14);
  }

  lemma PwdFound()
    ensures FindWord(SLASHED, "pwd", 0) == Some(8)
  {
    assert At(SLASHED, "pwd", 8);
    forall p: nat | p < 8
      ensures !At(SLASHED, "pwd", p)
    {
      if At(SLASHED, "pwd", p) {
        CharAt(SLASHED, "pwd", p, 0);
        CharAt(SLASHED, "pwd", p, 1);
      }
    }
  }

  lemma PwdIsLast()
    ensures DecideNamed(UNSLASHED, "pwd", 23) == Done
  {
    hide FindWord;
    forall p | 23 <= p < |UNSLASHED|
      ensures LowerChar(UNSLASHED[p]) != 'p'
    {
      assert UNSLASHED[p] == CLOSED[p - 23];
    }
    MissingChar(UNSLASHED, "pwd", 0, 23);
  }

  lemma UserinfoShows()
    ensures Exposed(UNSLASHED, 1)
  {
    hide Exposed;
    UnslashedChars();
    SecondIsExposed(UNSLASHED, 1, 24);
  }

  lemma UnslashedChars()
    ensures |UNSLASHED| == 28 && UNSLASHED[1] == ':' && UNSLASHED[2] == '/' && UNSLASHED[3] == '/' && UNSLASHED[4] == 'u'
    ensures UNSLASHED[24] == '@' && forall k :: 4 <= k < 24 ==> InAuthority(UNSLASHED[k])
  {
    forall k | 4 <= k < 24
      ensures InAuthority(UNSLASHED[k])
    {
      if 13 <= k < 23 {
        assert UNSLASHED[k] == REDACTED[k - 13];
      }
    }
  }

  /** The whole redaction makes user information of a text in which its own pass left none. */
  lemma UserinfoComesBack()
    ensures RedactSensitiveText(SLASHED) == UNSLASHED && Exposed(UNSLASHED, 1)
    ensures Progresses(UserinfoDecider()) && KeysRemoved(SLASHED) == SLASHED
    ensures forall p: nat :: !Exposed(Pass(UserinfoDecider(), REDACTED, SLASHED, 0), p)
  {
    hide RedactKinds, RedactKind, KeysRemoved, Pass, FindWord, ValidKind, Exposed, KindsOf;
    NoKeyInSlashed();
    NothingExposed();
    UserinfoShows();
    ValidKinds();
    var first, middle := KINDS[..4], [Named("pwd")];
    forall i | 0 <= i < |first|
      ensures ValidKind(first[i]) && FindWord(SLASHED, first[i].word, 0).None?
    {
      assert first[i] == KINDS[i];
      EarlierMissing(i);
    }
    AbsentKinds(first, SLASHED);
    PwdIsReplaced();
    forall i | 0 <= i < |LaterThanPwd()|
      ensures ValidKind(LaterThanPwd()[i]) && FindWord(UNSLASHED, LaterThanPwd()[i].word, 0).None?
    {
      assert LaterThanPwd()[i] == KINDS[i + 5];
      LaterMissing(i);
    }
    AbsentKinds(LaterThanPwd(), UNSLASHED);
    OneKind(Named("pwd"), SLASHED);
    KindsInTwo(first, middle, SLASHED);
    KindsInTwo(first + middle, LaterThanPwd(), SLASHED);
    PwdIsFifth();
    assert KINDS == first + middle + LaterThanPwd();
  }

  lemma PwdIsFifth()
    ensures KINDS[4] == Named("pwd")
  {}
}
