/** The redacted values as a grammar of the reported text, character by character, and that each pass replaces exactly
    what the grammar describes. */
module ValueGrammar {
  import opened Text
  import opened RedactionPass
  import opened BlockRedaction
  import opened UserinfoRedaction
  import opened Redaction
  import opened RedactionRuns
  import opened RedactedRanges

  // ----- the characters

  const BLANKS: string := " \t\n\U{C}\r"
  const QUOTES: string := "\"'"
  const VALUE_ENDS: string := " \t\n\U{C}\r&,;\"')]}<>"
  const TOKEN_ENDS: string := " \t\n\U{C}\r,;\"')]}"
  const LINE_ENDS: string := "\r\n"

  predicate LetterOrDigit(c: char) { 'a' <= c <= 'z' || 'A' <= c <= 'Z' || '0' <= c <= '9' }

  predicate InName(c: char) { LetterOrDigit(c) || c in "_-" }

  /** Only these characters stand from `i` up to `j`. */
  predicate Only(t: string, i: nat, j: nat, chars: string) { i <= j <= |t| && forall k :: i <= k < j ==> t[k] in chars }

  /** From `i` up to the first of these characters, or to the end of the text. */
  predicate Upto(t: string, i: nat, j: nat, ends: string) {
    i <= j <= |t| && (forall k :: i <= k < j ==> t[k] !in ends) && (j < |t| ==> t[j] in ends)
  }

  /** The lower-case word, with ASCII letters in any case. */
  predicate Spelled(t: string, word: string, q: nat) {
    q + |word| <= |t|
    && forall k :: 0 <= k < |word| ==> (if 'A' <= t[q + k] <= 'Z' then t[q + k] - 'A' + 'a' else t[q + k]) == word[k]
  }

  // ----- the grammar

  /** Whole name, optional closing quote, blanks, `=` or `:`, blanks. */
  predicate NameAndSeparator(t: string, name: string, q: nat, s: nat, v: nat) {
    var end := q + |name|;
    && Spelled(t, name, q) && (q > 0 ==> !InName(t[q - 1])) && (end < |t| ==> !InName(t[end]))
    && end < |t| && Only(t, if t[end] in QUOTES then end + 1 else end, s, BLANKS)
    && s < |t| && t[s] in "=:" && s < v && Only(t, s + 1, v, BLANKS) && (v < |t| ==> t[v] !in BLANKS)
  }

  /** In quotes up to the next quote of the kind, else up to a character that ends it. */
  predicate NamedValue(t: string, v: nat, r: Range) {
    && v < |t| && r.from < r.to <= |t|
    && if t[v] in QUOTES then r.from == v + 1 && Upto(t, v + 1, r.to, [t[v]]) else r.from == v && Upto(t, v, r.to, VALUE_ENDS)
  }

  ghost predicate Describes(kind: Kind, t: string, q: nat, r: Range) {
    match kind
    case Named(name) => exists s: nat, v: nat :: NameAndSeparator(t, name, q, s, v) && NamedValue(t, v, r)
    case Scheme(scheme) =>
      && Spelled(t, scheme, q) && (q > 0 ==> !LetterOrDigit(t[q - 1]))
      && q + |scheme| < r.from < r.to && Only(t, q + |scheme|, r.from, BLANKS) && Upto(t, r.from, r.to, TOKEN_ENDS)
    case Header(header) =>
      && Spelled(t, header, q) && (q > 0 ==> !InName(t[q - 1]))
      && r.from == q + |header| && Upto(t, r.from, r.to, LINE_ENDS)
  }

  // ----- the grammar is what the passes follow

  lemma BlanksAre(c: char)
    ensures IsSpace(c) <==> c in BLANKS
    ensures IsQuote(c) <==> c in QUOTES
    ensures IsSeparator(c) <==> c in "=:"
  {}

  lemma EndsAre(c: char)
    ensures IsTerminator(c) <==> c in VALUE_ENDS
    ensures EndsScheme(c) <==> c in TOKEN_ENDS
    ensures !InLine(c) <==> c in LINE_ENDS
  {}

  lemma LettersAre(c: char)
    ensures IsAlphanumeric(c) <==> LetterOrDigit(c)
    ensures IsIdentifier(c) <==> InName(c)
  {}

  lemma SpelledIsAt(t: string, word: string, q: nat)
    ensures Spelled(t, word, q) <==> At(t, word, q)
  {
    if At(t, word, q) {
      forall k | 0 <= k < |word|
        ensures (if 'A' <= t[q + k] <= 'Z' then t[q + k] - 'A' + 'a' else t[q + k]) == word[k]
      {
        CharAt(t, word, q, k);
      }
    }
  }

  /** A scan stops at the first of the characters that fail its test. */
  lemma SkipIsUpto(t: string, i: nat, j: nat, test: char -> bool, ends: string)
    requires i <= |t| && forall c :: test(c) <==> c !in ends
    ensures Upto(t, i, j, ends) <==> SkipWhile(t, i, test) == j
  {
    if Upto(t, i, j, ends) {
      SkipIs(t, i, test, j);
    }
  }

  lemma SkipIsOnly(t: string, i: nat, j: nat)
    requires i <= |t|
    ensures Only(t, i, j, BLANKS) && (j < |t| ==> t[j] !in BLANKS) <==> SkipWhile(t, i, IsSpace) == j
  {
    forall c: char
      ensures IsSpace(c) <==> c in BLANKS
    {
      BlanksAre(c);
    }
    if Only(t, i, j, BLANKS) && (j < |t| ==> t[j] !in BLANKS) {
      SkipIs(t, i, IsSpace, j);
    }
  }

  lemma SeparatorIs(t: string, end: nat, s: nat)
    requires end <= |t|
    ensures AfterName(t, end) == s && s < |t| && IsSeparator(t[s])
       <==> end < |t| && Only(t, if t[end] in QUOTES then end + 1 else end, s, BLANKS) && s < |t| && t[s] in "=:"
  {
    hide SkipWhile, Only, IsSpace, IsQuote, IsSeparator;
    if end < |t| {
      BlanksAre(t[end]);
      SkipIsOnly(t, if t[end] in QUOTES then end + 1 else end, s);
    }
    if s < |t| {
      BlanksAre(t[s]);
      SeparatorIsNoBlank(t[s]);
    }
  }

  lemma SeparatorIsNoBlank(c: char)
    ensures c in "=:" ==> c !in BLANKS
  {}

  lemma NameIs(t: string, name: string, q: nat)
    ensures Delimited(t, name, q)
       <==> Spelled(t, name, q) && (q > 0 ==> !InName(t[q - 1])) && (q + |name| < |t| ==> !InName(t[q + |name|]))
  {
    hide IsIdentifier, InName, At, Spelled;
    SpelledIsAt(t, name, q);
    SpelledFits(t, name, q);
    if q > 0 && q <= |t| {
      LettersAre(t[q - 1]);
    }
    if q + |name| < |t| {
      LettersAre(t[q + |name|]);
    }
  }

  lemma SpelledFits(t: string, word: string, q: nat)
    ensures Spelled(t, word, q) || At(t, word, q) ==> q + |word| <= |t|
  {}

  lemma IntroductionIs(t: string, name: string, q: nat, s: nat, v: nat)
    ensures NameAndSeparator(t, name, q, s, v)
       <==> Introduces(Named(name), t, q) && s == AfterName(t, q + |name|) && ValueAt(Named(name), t, q) == v
  {
    hide SkipWhile, Only, Delimited, Spelled, InName, AfterName, IsSeparator;
    NameIs(t, name, q);
    SpelledFits(t, name, q);
    DelimitedFits(t, name, q);
    if q + |name| <= |t| {
      SeparatorIs(t, q + |name|, s);
      if s < |t| {
        SkipIsOnly(t, s + 1, v);
        OnlyForward(t, s + 1, v);
      }
    }
  }

  lemma OnlyForward(t: string, i: nat, j: nat)
    ensures Only(t, i, j, BLANKS) ==> i <= j <= |t|
  {}

  lemma DelimitedFits(t: string, name: string, q: nat)
    ensures Delimited(t, name, q) ==> q + |name| <= |t|
  {}

  lemma NamedValueIs(t: string, name: string, q: nat, r: Range)
    requires Introduces(Named(name), t, q)
    ensures Gives(Named(name), t, q, r) <==> NamedValue(t, ValueAt(Named(name), t, q), r)
  {
    hide SkipWhile, Upto, Introduces, ValueAt, IsQuote, IsTerminator;
    var v := ValueAt(Named(name), t, q);
    if v < |t| {
      BlanksAre(t[v]);
      ValueEndIs(t, v, r.to);
      if t[v] in QUOTES {
        QuoteEndIs(t, v + 1, r.to, t[v]);
      }
    } else {
      SkipAtEnd(t, v);
    }
    UptoForward(t, v, r.to, VALUE_ENDS);
    if v < |t| {
      UptoForward(t, v + 1, r.to, [t[v]]);
    }
  }

  lemma SkipAtEnd(t: string, v: nat)
    requires v == |t|
    ensures forall test :: SkipWhile(t, v, test) == v
  {}

  lemma UptoForward(t: string, i: nat, j: nat, ends: string)
    ensures Upto(t, i, j, ends) ==> i <= j <= |t|
  {}

  lemma ValueEndIs(t: string, v: nat, e: nat)
    requires v <= |t|
    ensures Upto(t, v, e, VALUE_ENDS) <==> SkipWhile(t, v, Not(IsTerminator)) == e
    ensures Upto(t, v, e, TOKEN_ENDS) <==> SkipWhile(t, v, Not(EndsScheme)) == e
    ensures Upto(t, v, e, LINE_ENDS) <==> SkipWhile(t, v, InLine) == e
  {
    hide IsTerminator, EndsScheme, InLine, Upto, SkipWhile;
    forall c: char
      ensures (IsTerminator(c) <==> c in VALUE_ENDS) && (EndsScheme(c) <==> c in TOKEN_ENDS) && (!InLine(c) <==> c in LINE_ENDS)
    {
      EndsAre(c);
    }
    SkipIsUpto(t, v, e, Not(IsTerminator), VALUE_ENDS);
    SkipIsUpto(t, v, e, Not(EndsScheme), TOKEN_ENDS);
    SkipIsUpto(t, v, e, InLine, LINE_ENDS);
  }

  lemma QuoteEndIs(t: string, i: nat, e: nat, quote: char)
    requires i <= |t|
    ensures Upto(t, i, e, [quote]) <==> SkipWhile(t, i, Not(Is(quote))) == e
  {
    SkipIsUpto(t, i, e, Not(Is(quote)), [quote]);
  }

  lemma NamedIsDescribed(name: string, t: string, q: nat, r: Range)
    ensures Gives(Named(name), t, q, r) <==> Describes(Named(name), t, q, r)
  {
    hide NameAndSeparator, NamedValue, Introduces, ValueAt, Gives;
    if Describes(Named(name), t, q, r) {
      var s: nat, v: nat :| NameAndSeparator(t, name, q, s, v) && NamedValue(t, v, r);
      IntroductionIs(t, name, q, s, v);
      NamedValueIs(t, name, q, r);
    }
    if Gives(Named(name), t, q, r) {
      GivenValue(Named(name), t, q, r);
      SeparatorOf(t, name, q);
      IntroductionIs(t, name, q, AfterName(t, q + |name|), ValueAt(Named(name), t, q));
      NamedValueIs(t, name, q, r);
    }
  }

  lemma SeparatorOf(t: string, name: string, q: nat)
    requires Introduces(Named(name), t, q)
    ensures q + |name| <= |t|
  {}

  lemma SchemeIsDescribed(scheme: string, t: string, q: nat, r: Range)
    ensures Gives(Scheme(scheme), t, q, r) <==> Describes(Scheme(scheme), t, q, r)
  {
    hide SkipWhile, Upto, Only, Spelled, At, EndsScheme, IsSpace, IsAlphanumeric, LetterOrDigit;
    var end := q + |scheme|;
    SpelledIsAt(t, scheme, q);
    SpelledFits(t, scheme, q);
    UptoForward(t, r.from, r.to, TOKEN_ENDS);
    OnlyForward(t, end, r.from);
    if end < |t| {
      if q > 0 {
        LettersAre(t[q - 1]);
      }
      BlanksFirst(t, end, r.from);
      SkipIsOnly(t, end, r.from);
      if r.from <= |t| {
        ValueEndIs(t, r.from, r.to);
        TokenIsNoBlank(t, r.from, r.to);
      }
    }
  }

  lemma BlanksFirst(t: string, i: nat, j: nat)
    requires i < |t|
    ensures Only(t, i, j, BLANKS) && i < j ==> IsSpace(t[i])
    ensures IsSpace(t[i]) ==> SkipWhile(t, i, IsSpace) > i
  {
    BlanksAre(t[i]);
  }

  lemma TokenIsNoBlank(t: string, i: nat, j: nat)
    requires i <= |t|
    ensures Upto(t, i, j, TOKEN_ENDS) && i < j ==> t[i] !in BLANKS
  {
    if i < |t| {
      EndsAre(t[i]);
      BlanksAre(t[i]);
    }
  }

  lemma HeaderIsDescribed(header: string, t: string, q: nat, r: Range)
    ensures Gives(Header(header), t, q, r) <==> Describes(Header(header), t, q, r)
  {
    hide SkipWhile, Upto, Spelled, At, IsIdentifier, InName, InLine;
    SpelledIsAt(t, header, q);
    SpelledFits(t, header, q);
    if q + |header| <= |t| {
      if q > 0 {
        LettersAre(t[q - 1]);
      }
      ValueEndIs(t, q + |header|, r.to);
    }
  }

  lemma GivesIsDescribed(kind: Kind, t: string, q: nat, r: Range)
    ensures Gives(kind, t, q, r) <==> Describes(kind, t, q, r)
  {
    hide Gives, Describes;
    match kind
    case Named(name) => NamedIsDescribed(name, t, q, r);
    case Scheme(scheme) => SchemeIsDescribed(scheme, t, q, r);
    case Header(header) => HeaderIsDescribed(header, t, q, r);
  }

  /** The text after the pass is the text before with the mark in place of exactly the values the grammar describes,
      each whole, save those whose words stand in a replaced value. */
  ghost predicate ReplacesValues(kind: Kind, t: string, after: string) {
    exists cuts :: InOrder(t, 0, cuts) && after == Filled(t, 0, cuts, "[REDACTED]") && AreDescribed(kind, t, cuts)
  }

  ghost predicate AreDescribed(kind: Kind, t: string, cuts: seq<Range>) {
    forall r :: r in cuts <==> exists q: nat :: Describes(kind, t, q, r) && !InCut(cuts, q)
  }

  lemma KindFollowsGrammar(kind: Kind, t: string)
    requires ValidKind(kind)
    ensures ReplacesValues(kind, t, RedactKind(kind, t))
  {
    hide ValidKind, Filled, InOrder, Gives, Describes, InCut, RedactKind;
    var cuts := KindReplacesValues(kind, t);
    forall r, q: nat
      ensures Gives(kind, t, q, r) <==> Describes(kind, t, q, r)
    {
      GivesIsDescribed(kind, t, q, r);
    }
    assert AreDescribed(kind, t, cuts);
  }

  // ----- a token behind a name

  const TOKEN_MARKS: string := "._~+/=-"

  predicate InToken(c: char) { LetterOrDigit(c) || c in TOKEN_MARKS }

  /** After a whole name and `=`, a token goes as a whole. */
  lemma TokenIsReplaced(before: string, name: string, token: string, rest: string) returns (cuts: seq<Range>)
    requires ValidKind(Named(name)) && (before != "" ==> !InName(before[|before| - 1]))
    requires token != "" && forall k :: 0 <= k < |token| ==> InToken(token[k])
    requires (forall k :: 0 <= k < |name| ==> !('A' <= name[k] <= 'Z')) && (rest != "" ==> rest[0] in VALUE_ENDS)
    ensures var t := before + name + "=" + token + rest;
            var v := |before| + |name| + 1;
            && InOrder(t, 0, cuts) && RedactKind(Named(name), t) == Filled(t, 0, cuts, "[REDACTED]")
            && (Range(v, v + |token|) in cuts || InCut(cuts, |before|))
  {
    hide ValidKind, Filled, InOrder, Gives, Describes, InCut, RedactKind, InToken, InName;
    var t := before + name + "=" + token + rest;
    var q, v := |before|, |before| + |name| + 1;
    cuts := KindReplacesValues(Named(name), t);
    assert Spelled(t, name, q);
    assert t[v - 1] == '=' && !InName('=') by {
      EqualsEndsName();
    }
    forall k | v <= k < v + |token|
      ensures t[k] !in VALUE_ENDS && t[k] !in BLANKS && t[k] !in QUOTES
    {
      assert t[k] == token[k - v];
      TokenGoesOn(token[k - v]);
    }
    TokenIsDescribed(t, name, q, v, v + |token|);
    NamedIsDescribed(name, t, q, Range(v, v + |token|));
  }

  lemma EqualsEndsName()
    ensures !InName('=') && '=' !in QUOTES && '=' !in BLANKS
  {}

  lemma TokenGoesOn(c: char)
    requires InToken(c)
    ensures c !in VALUE_ENDS && c !in BLANKS && c !in QUOTES
  {}

  lemma TokenIsDescribed(t: string, name: string, q: nat, v: nat, e: nat)
    requires Spelled(t, name, q) && q + |name| + 1 == v < e <= |t| && t[v - 1] == '=' && !InName('=')
    requires q > 0 ==> !InName(t[q - 1])
    requires t[v] !in BLANKS && t[v] !in QUOTES && Upto(t, v, e, VALUE_ENDS)
    ensures Describes(Named(name), t, q, Range(v, e))
  {
    hide InName, Spelled, Upto;
    EqualsEndsName();
    assert NameAndSeparator(t, name, q, v - 1, v);
    assert NamedValue(t, v, Range(v, e));
  }

  // ----- private keys and user information

  predicate FirstWord(t: string, word: string, from: nat, p: nat) {
    from <= p && Spelled(t, word, p) && forall k :: from <= k < p ==> !Spelled(t, word, k)
  }

  predicate NoWord(t: string, word: string, from: nat) { forall k :: from <= k <= |t| ==> !Spelled(t, word, k) }

  /** Up to and with the dashes that close the next end line, or the whole rest when there is none. */
  ghost predicate BlockUpto(t: string, from: nat, end: nat) {
    || (NoWord(t, "-----end ", from) && end == |t|)
    || exists closing: nat :: FirstWord(t, "-----end ", from, closing) &&
         if NoWord(t, "-----", closing + 5) then end == |t| else end >= 5 && FirstWord(t, "-----", closing + 5, end - 5)
  }

  /** The line of the begin announces a private key. */
  ghost predicate Announces(t: string, p: nat) {
    && Spelled(t, "-----begin ", p)
    && exists line: nat, k: nat :: Upto(t, p, line, "\n") && p <= k && Spelled(t, "private key-----", k) && k + 16 <= line
  }

  /** All of the block from such a begin on. */
  ghost predicate DescribesKey(t: string, r: Range) {
    Announces(t, r.from) && exists line: nat :: Upto(t, r.from, line, "\n") && BlockUpto(t, line, r.to)
  }

  lemma FirstWordIs(t: string, word: string, from: nat)
    ensures match FindWord(t, word, from)
            case None => NoWord(t, word, from)
            case Some(p) => FirstWord(t, word, from, p)
  {
    forall k: nat
      ensures Spelled(t, word, k) <==> At(t, word, k)
    {
      SpelledIsAt(t, word, k);
    }
  }

  lemma FirstDashesAre(t: string, from: nat)
    ensures match FindFrom(t, DASHES, from)
            case None => NoWord(t, "-----", from)
            case Some(p) => FirstWord(t, "-----", from, p)
  {
    forall k: nat
      ensures Spelled(t, "-----", k) <==> OccursAt(t, DASHES, k)
    {
      DashesAre(t, k);
    }
  }

  lemma DashesAre(t: string, k: nat)
    ensures Spelled(t, "-----", k) <==> OccursAt(t, DASHES, k)
  {
    if k + 5 <= |t| {
      var cut := t[k..k + 5];
      assert forall i :: 0 <= i < 5 ==> cut[i] == t[k + i];
      if Spelled(t, "-----", k) {
        assert forall i :: 0 <= i < 5 ==> t[k + i] == "-----"[i];
        assert cut == DASHES;
      }
    }
  }

  /** There is one first word, or none. */
  lemma OneFirst(t: string, word: string, from: nat, p: nat, q: nat)
    requires FirstWord(t, word, from, p)
    ensures !NoWord(t, word, from)
    ensures FirstWord(t, word, from, q) ==> p == q
  {
    hide Spelled;
    SpelledFits(t, word, p);
  }

  lemma LineIs(t: string, p: nat, end: nat)
    requires p <= |t|
    ensures Upto(t, p, end, "\n") <==> LineEnd(t, p) == end
  {
    SkipIsUpto(t, p, end, OnLine, "\n");
  }

  lemma AnnouncesIs(t: string, p: nat)
    ensures Announces(t, p) <==> !Harmless(t, p)
  {
    hide Spelled, At, Upto;
    SpelledIsAt(t, "-----begin ", p);
    SpelledFits(t, "-----begin ", p);
    if p <= |t| {
      var line := LineEnd(t, p);
      forall end: nat
        ensures Upto(t, p, end, "\n") <==> end == line
      {
        LineIs(t, p, end);
      }
      forall k: nat
        ensures Spelled(t, "private key-----", k) <==> At(t, PRIVATE, k)
      {
        SpelledIsAt(t, PRIVATE, k);
      }
      assert Upto(t, p, line, "\n");
      if !Harmless(t, p) {
        var k :| p <= k && k + |PRIVATE| <= line && At(t, PRIVATE, k);
        assert Spelled(t, "private key-----", k);
      }
      if Announces(t, p) {
        var end: nat, k: nat :| Upto(t, p, end, "\n") && p <= k && Spelled(t, "private key-----", k) && k + 16 <= end;
        assert At(t, PRIVATE, k) && end == line;
      }
    }
  }

  lemma BlockIs(t: string, from: nat, end: nat)
    requires from <= |t|
    ensures BlockUpto(t, from, end) <==> BlockEnd(t, from) == end
  {
    hide Spelled, FindWord, FindFrom, FirstWord, NoWord;
    FirstWordIs(t, END, from);
    var found := FindWord(t, END, from);
    if found.Some? {
      var closing := found.value;
      EndBeginsWithDashes(t, closing);
      FirstDashesAre(t, closing);
      FirstDashesAre(t, closing + 5);
      OneFirst(t, END, from, closing, closing);
      if exists other: nat :: FirstWord(t, END, from, other) && other != closing {
        var other: nat :| FirstWord(t, END, from, other) && other != closing;
        OneFirst(t, END, from, closing, other);
      }
      var second := FindFrom(t, DASHES, closing + 5);
      if second.Some? {
        OneFirst(t, "-----", closing + 5, second.value, if end >= 5 then end - 5 else 0);
      }
    } else {
      NothingFirst(t, END, from);
    }
  }

  lemma NothingFirst(t: string, word: string, from: nat)
    requires NoWord(t, word, from)
    ensures forall p: nat :: !FirstWord(t, word, from, p)
  {}

  /** The end of a block begins with dashes itself. */
  lemma EndBeginsWithDashes(t: string, closing: nat)
    requires FindWord(t, END, closing).Some? || At(t, END, closing)
    ensures At(t, END, closing) ==> FindFrom(t, DASHES, closing) == Some(closing) && closing + 5 <= |t|
  {
    if At(t, END, closing) {
      forall k | 0 <= k < 5
        ensures t[closing + k] == DASHES[k]
      {
        CharAt(t, END, closing, k);
      }
      assert t[closing..closing + 5] == DASHES;
    }
  }

  lemma KeyIsDescribed(t: string, r: Range)
    ensures DescribesKey(t, r) <==> KeyBlock(t, r)
  {
    hide Announces, Harmless, BlockEnd, BlockUpto, Upto, LineEnd;
    AnnouncesIs(t, r.from);
    if !Harmless(t, r.from) {
      HarmfulFits(t, r.from);
      var line := LineEnd(t, r.from);
      LineIs(t, r.from, line);
      BlockIs(t, line, r.to);
      forall end: nat | Upto(t, r.from, end, "\n")
        ensures end == line
      {
        LineIs(t, r.from, end);
      }
    }
  }

  lemma HarmfulFits(t: string, p: nat)
    requires !Harmless(t, p)
    ensures p <= |t|
  {}

  /** The text after the pass is the text before with the mark in place of whole private-key blocks, and every begin
      that announces a private key stands in one. */
  ghost predicate ReplacesKeys(t: string, after: string) {
    exists cuts :: InOrder(t, 0, cuts) && after == Filled(t, 0, cuts, "[REDACTED PRIVATE KEY]") && AreBlocks(t, cuts)
  }

  ghost predicate AreBlocks(t: string, cuts: seq<Range>) {
    (forall r :: r in cuts ==> DescribesKey(t, r)) && (forall p: nat :: Announces(t, p) ==> InCut(cuts, p))
  }

  lemma KeysFollowGrammar(t: string)
    ensures Progresses(PrivateKeyDecider())
    ensures ReplacesKeys(t, Pass(PrivateKeyDecider(), REDACTED_PRIVATE_KEY, t, 0))
  {
    hide Pass, Filled, InOrder, KeyBlock, DescribesKey, Announces, Harmless, InCut;
    var cuts := KeysAreReplaced(t);
    forall r
      ensures DescribesKey(t, r) <==> KeyBlock(t, r)
    {
      KeyIsDescribed(t, r);
    }
    forall p: nat
      ensures Announces(t, p) <==> !Harmless(t, p)
    {
      AnnouncesIs(t, p);
    }
    assert AreBlocks(t, cuts);
  }

  // ----- user information

  /** The characters that end an authority: three marks, and white space by the Unicode property. */
  predicate EndsUrl(c: char) {
    || c in "/?#" || c in " \t\n\U{B}\U{C}\r" || c in "\U{85}\U{A0}\U{1680}\U{2028}\U{2029}\U{202F}\U{205F}\U{3000}"
    || ('\U{2000}' <= c && c <= '\U{200A}')
  }

  predicate SeparatorIn(t: string, p: nat) { p + 3 <= |t| && t[p] == ':' && t[p + 1] == '/' && t[p + 2] == '/' }

  /** Up to an at sign, with no end of the authority in it and no other at sign before the authority ends. */
  predicate DescribesUserinfo(t: string, p: nat, r: Range) {
    && SeparatorIn(t, p) && p + 3 == r.from < r.to < |t| && t[r.to] == '@' && (forall k :: r.from <= k < r.to ==> !EndsUrl(t[k]))
    && forall k :: r.to < k < |t| && t[k] == '@' ==> exists m :: r.to < m < k && EndsUrl(t[m])
  }

  lemma EndsUrlIs(c: char)
    ensures EndsUrl(c) <==> !InAuthority(c)
  {}

  lemma SeparatorInIs(t: string, p: nat)
    ensures SeparatorIn(t, p) <==> OccursAt(t, SCHEME_END, p)
  {
    if p + 3 <= |t| {
      SeparatorAt(t, p);
    }
  }

  lemma UserinfoIsDescribed(t: string, p: nat, r: Range)
    ensures DescribesUserinfo(t, p, r) <==> IsUserinfo(t, p, r)
  {
    hide EndsUrl, InAuthority, OccursAt;
    SeparatorInIs(t, p);
    forall c: char
      ensures EndsUrl(c) <==> !InAuthority(c)
    {
      EndsUrlIs(c);
    }
    if SeparatorIn(t, p) {
      var end := AuthorityEnd(t, p);
      if DescribesUserinfo(t, p, r) {
        AtIsNoEnd();
        assert forall k :: p + 3 <= k <= r.to ==> InAuthority(t[k]);
        assert end > r.to;
      }
      if IsUserinfo(t, p, r) {
        forall k | r.to < k < |t| && t[k] == '@'
          ensures exists m :: r.to < m < k && EndsUrl(t[m])
        {
          AtIsNoEnd();
          assert k > end;
          assert EndsUrl(t[end]);
        }
      }
    }
  }

  lemma AtIsNoEnd()
    ensures !EndsUrl('@')
  {}

  /** The authority of `q`, without user information, ends in the middle of the separator `p`. */
  predicate Swallows(t: string, q: nat, p: nat) {
    && SeparatorIn(t, q) && q + 3 <= p < |t| && (forall k :: q + 3 <= k <= p ==> !EndsUrl(t[k]))
    && forall k :: q + 3 < k <= p ==> t[k] != '@'
  }

  /** The search comes upon every separator but those that one it came upon swallows. */
  ghost predicate Searches(t: string, at: nat, visited: set<nat>) {
    forall p: nat :: p in visited <==> at <= p && SeparatorIn(t, p) && !exists q :: q in visited && q < p && Swallows(t, q, p)
  }

  lemma SwallowsIs(t: string, q: nat, p: nat)
    requires SeparatorIn(t, q) && SeparatorIn(t, p) && q < p
    ensures Swallows(t, q, p) <==> p < NextSearch(t, q)
  {
    hide EndsUrl, InAuthority, OccursAt;
    SeparatorInIs(t, p);
    SeparatorInIs(t, q);
    EndsBeforeNext(t, q, p);
    forall c: char
      ensures EndsUrl(c) <==> !InAuthority(c)
    {
      EndsUrlIs(c);
    }
    assert t[p] == ':' && t[p + 1] == '/';
    SlashEndsUrl();
    var end := AuthorityEnd(t, q);
    if p < NextSearch(t, q) {
      SignIsEarlier(t, q, p);
    }
    if Swallows(t, q, p) {
      assert end == p + 1;
      assert Plain(t, q);
    }
  }

  lemma SlashEndsUrl()
    ensures EndsUrl('/')
  {}

  /** The separators that the search from `at` comes upon. */
  ghost function Visited(t: string, at: nat): (visited: set<nat>)
    ensures forall p: nat :: p in visited <==> Visits(t, at, p)
  {
    forall p: nat | Visits(t, at, p)
      ensures p <= |t|
    {
      VisitsLater(t, at, p);
    }
    set p: nat | p <= |t| && Visits(t, at, p)
  }

  lemma {:induction false} SearchesVisited(t: string, at: nat)
    ensures Searches(t, at, Visited(t, at))
    decreases |t| - at
  {
    hide Visits, OccursAt, FindFrom, NextSearch, Swallows, SeparatorIn;
    forall p: nat
      ensures p in Visited(t, at) <==>
                at <= p && SeparatorIn(t, p) && !exists q :: q in Visited(t, at) && q < p && Swallows(t, q, p)
    {
      if at <= p && SeparatorIn(t, p) {
        VisitedUnlessSwallowed(t, at, p);
      } else if Visits(t, at, p) {
        VisitsLater(t, at, p);
        SeparatorInIs(t, p);
      }
    }
  }

  lemma {:induction false} VisitedUnlessSwallowed(t: string, at: nat, p: nat)
    requires at <= p && SeparatorIn(t, p)
    ensures Visits(t, at, p) <==> !exists q: nat :: Visits(t, at, q) && q < p && Swallows(t, q, p)
    decreases |t| - at
  {
    hide Visits, OccursAt, FindFrom, NextSearch, Swallows, SeparatorIn;
    SeparatorInIs(t, p);
    SeparatorFound(t, at, p);
    var s := FindFrom(t, SCHEME_END, at).value;
    FitsInText(t, at, s);
    SeparatorInIs(t, s);
    var next := NextSearch(t, s);
    forall q: nat
      ensures Visits(t, at, q) <==> q == s || Visits(t, next, q)
    {
      VisitsStep(t, at, s, q);
    }
    if s < p {
      SwallowsIs(t, s, p);
      if next <= p {
        VisitedUnlessSwallowed(t, next, p);
      } else {
        NotVisited(t, next, p);
        assert Visits(t, at, s);
      }
    } else {
      forall q: nat | Visits(t, at, q)
        ensures q >= p
      {
        VisitsLater(t, at, q);
        SeparatorFound(t, at, q);
      }
    }
  }

  /** The text after the pass is the text before with the mark in place of the user information of the separators the
      search comes upon, each whole. */
  ghost predicate ReplacesUserinfo(t: string, after: string) {
    exists cuts, visited :: InOrder(t, 0, cuts) && after == Filled(t, 0, cuts, "[REDACTED]") && Searches(t, 0, visited) &&
      AreBehind(t, visited, cuts)
  }

  ghost predicate AreBehind(t: string, visited: set<nat>, cuts: seq<Range>) {
    forall r :: r in cuts <==> exists p: nat :: p in visited && DescribesUserinfo(t, p, r)
  }

  lemma UserinfoFollowsGrammar(t: string)
    ensures Progresses(UserinfoDecider()) && ReplacesUserinfo(t, Pass(UserinfoDecider(), REDACTED, t, 0))
  {
    hide Pass, Filled, InOrder, IsUserinfo, DescribesUserinfo, Visits, Searches;
    var cuts := UserinfoIsReplaced(t);
    SearchesVisited(t, 0);
    forall r, p: nat
      ensures DescribesUserinfo(t, p, r) <==> IsUserinfo(t, p, r)
    {
      UserinfoIsDescribed(t, p, r);
    }
    assert AreBehind(t, Visited(t, 0), cuts);
  }

  // ----- all passes

  /** Each text comes from the one before it by one pass that replaces what the grammar describes. */
  ghost predicate Chain(kinds: seq<Kind>, texts: seq<string>) {
    |texts| == |kinds| + 1 && forall i :: 0 <= i < |kinds| ==> ReplacesValues(kinds[i], texts[i], texts[i + 1])
  }

  lemma {:induction false} KindsFollowGrammar(kinds: seq<Kind>, t: string) returns (texts: seq<string>)
    requires forall i :: 0 <= i < |kinds| ==> ValidKind(kinds[i])
    ensures Chain(kinds, texts) && texts[0] == t && texts[|kinds|] == RedactKinds(kinds, t)
    decreases |kinds|
  {
    hide ValidKind, ReplacesValues, RedactKind;
    if kinds == [] {
      texts := [t];
    } else {
      var n := |kinds| - 1;
      var before := KindsFollowGrammar(kinds[..n], t);
      KindFollowsGrammar(kinds[n], before[n]);
      texts := before + [RedactKinds(kinds, t)];
      forall i | 0 <= i < |kinds|
        ensures ReplacesValues(kinds[i], texts[i], texts[i + 1])
      {
        assert i < n ==> kinds[..n][i] == kinds[i];
      }
    }
  }

  /** The whole redaction in the terms of the grammar: key blocks, then user information, then kind after kind. */
  ghost predicate FollowsGrammar(kinds: seq<Kind>, t: string, after: string) {
    exists keyless, texts :: ReplacesKeys(t, keyless) && Chain(kinds, texts) && ReplacesUserinfo(keyless, texts[0])
      && after == texts[|kinds|]
  }
}
