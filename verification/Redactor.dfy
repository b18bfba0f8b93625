/** The redaction loops, editing one text in place. */
module Redactor {
  import opened Text
  import opened RedactionPass
  import opened BlockRedaction
  import opened UserinfoRedaction
  import opened Redaction
  import opened RedactionRuns
  import opened RedactedKinds
  import opened WholeRedaction
  import opened ValueGrammar

  class Message {
    var text: string

    constructor (text: string)
      ensures this.text == text
    {
      this.text := text;
    }

    method ReplaceRange(from: nat, to: nat, mark: string)
      requires from <= to <= |text|
      modifies this
      ensures text == Replaced(old(text), from, to, mark)
    {
      text := text[..from] + mark + text[to..];
    }

    /** Moves on while the characters pass the test. */
    method Advance(start: nat, test: char -> bool) returns (cursor: nat)
      requires start <= |text|
      ensures cursor == SkipWhile(text, start, test)
    {
      cursor := start;
      while cursor < |text| && test(text[cursor])
        invariant start <= cursor <= |text| && SkipWhile(text, start, test) == SkipWhile(text, cursor, test)
      {
        cursor := cursor + 1;
      }
    }

    method RedactPrivateKeyBlocks()
      modifies this
      ensures Progresses(PrivateKeyDecider())
      ensures text == Pass(PrivateKeyDecider(), REDACTED_PRIVATE_KEY, old(text), 0)
      ensures forall p: nat :: Harmless(text, p)
      ensures ReplacesKeys(old(text), text)
    {
      hide Pass, At, Replaced, ReplacesKeys;
      KeysProgress();
      KeysFollowGrammar(text);
      NothingSearched(text);
      NoPrivateKeyLeft(text, 0);
      var searchFrom: nat := 0;
      while true
        invariant searchFrom <= |text|
        invariant Pass(PrivateKeyDecider(), REDACTED_PRIVATE_KEY, text, searchFrom)
                  == old(Pass(PrivateKeyDecider(), REDACTED_PRIVATE_KEY, text, 0))
        decreases |text| - searchFrom
      {
        PassStep(PrivateKeyDecider(), REDACTED_PRIVATE_KEY, text, searchFrom);
        var found := FindWord(text, BEGIN, searchFrom);
        if found.None? {
          return;
        }
        var begin := found.value;
        var headerEnd := LineEnd(text, begin);
        if FindWord(text[..headerEnd], PRIVATE, begin).None? {
          searchFrom := headerEnd;
          if searchFrom == |text| {
            return;
          }
          continue;
        }
        var end := BlockEnd(text, headerEnd);
        ReplacedLength(text, begin, end, REDACTED_PRIVATE_KEY);
        ReplaceRange(begin, end, REDACTED_PRIVATE_KEY);
        searchFrom := begin + |REDACTED_PRIVATE_KEY|;
      }
    }

    method RedactUrlUserinfo()
      modifies this
      ensures Progresses(UserinfoDecider())
      ensures text == Pass(UserinfoDecider(), REDACTED, old(text), 0)
      ensures UserinfoHandled(old(text), text) && ReplacesUserinfo(old(text), text)
    {
      hide Pass, Replaced, OccursAt, FindFrom, LastAt, SkipWhile, InAuthority, UserinfoHandled, ReplacesUserinfo;
      PassHandlesUserinfo(text);
      UserinfoFollowsGrammar(text);
      var searchFrom: nat := 0;
      while true
        invariant searchFrom <= |text|
        invariant Pass(UserinfoDecider(), REDACTED, text, searchFrom) == old(Pass(UserinfoDecider(), REDACTED, text, 0))
        decreases |text| - searchFrom
      {
        PassStep(UserinfoDecider(), REDACTED, text, searchFrom);
        var scheme := FindFrom(text, "://", searchFrom);
        if scheme.None? {
          return;
        }
        var start := scheme.value + 3;
        FoundFits(text, "://", searchFrom);
        var end := Advance(start, InAuthority);
        var sign := LastAt(text, start, end);
        if sign.None? {
          searchFrom := end;
          continue;
        }
        if sign.value > start {
          ReplacedLength(text, start, sign.value, REDACTED);
          ReplaceRange(start, sign.value, REDACTED);
          SkipsOne(text, start + |REDACTED|);
          searchFrom := start + |REDACTED| + 1;
        } else {
          searchFrom := end;
        }
      }
    }

    /** The next scheme and the token after it. */
    method NextScheme(scheme: string, searchFrom: nat) returns (next: Decision)
      ensures next == DecideScheme(text, scheme, searchFrom)
    {
      hide At, IsAlphanumeric, IsSpace, SkipWhile;
      var found := FindWord(text, scheme, searchFrom);
      if found.None? {
        return Done;
      }
      var start := found.value;
      var cursor := start + |scheme|;
      if start > 0 && IsAlphanumeric(text[start - 1]) {
        return Skip(cursor);
      }
      if cursor >= |text| || !IsSpace(text[cursor]) {
        return Skip(cursor);
      }
      var valueStart := Advance(cursor, IsSpace);
      cursor := Advance(valueStart, Not(EndsScheme));
      return if cursor > valueStart then Replace(valueStart, cursor) else Skip(cursor);
    }

    method RedactAuthScheme(scheme: string)
      requires ValidKind(Scheme(scheme))
      modifies this
      ensures text == RedactKind(Scheme(scheme), old(text))
      ensures AllCovered(Scheme(scheme), text) && ReplacesValues(Scheme(scheme), old(text), text)
    {
      hide Pass, Replaced, ValidKind, AllCovered, DecideNamed, DecideScheme, ReplacesValues;
      var kind := Scheme(scheme);
      KindProgresses(kind);
      NothingYet(kind, text);
      KindFollowsGrammar(kind, text);
      var searchFrom: nat := 0;
      while true
        invariant searchFrom <= |text|
        invariant Pass(Decide(kind), REDACTED, text, searchFrom) == old(Pass(Decide(kind), REDACTED, text, 0))
        decreases |text| - searchFrom
      {
        PassStep(Decide(kind), REDACTED, text, searchFrom);
        var next := NextScheme(scheme, searchFrom);
        match next {
          case Done => return;
          case Skip(place) => searchFrom := place;
          case Replace(valueStart, valueEnd) =>
            ReplacedLength(text, valueStart, valueEnd, REDACTED);
            ReplaceRange(valueStart, valueEnd, REDACTED);
            searchFrom := valueStart + |REDACTED|;
        }
      }
    }

    /** The next occurrence of the name and the value it is given, if any. */
    method NextNamedValue(name: string, searchFrom: nat) returns (next: Decision)
      ensures next == DecideNamed(text, name, searchFrom)
    {
      hide At, IsIdentifier, IsSpace, SkipWhile, DecideValue, AfterName, FindWord;
      var found := FindWord(text, name, searchFrom);
      if found.None? {
        return Done;
      }
      var start := found.value;
      var nameEnd := start + |name|;
      if (start > 0 && IsIdentifier(text[start - 1])) || (nameEnd < |text| && IsIdentifier(text[nameEnd])) {
        return Skip(nameEnd);
      }
      var cursor := SeparatorAfter(nameEnd);
      if cursor >= |text| || !IsSeparator(text[cursor]) {
        return Skip(nameEnd);
      }
      cursor := Advance(cursor + 1, IsSpace);
      if cursor >= |text| {
        return Done;
      }
      next := ValueRange(cursor);
    }

    method SeparatorAfter(nameEnd: nat) returns (cursor: nat)
      requires nameEnd <= |text|
      ensures cursor == AfterName(text, nameEnd)
    {
      cursor := nameEnd;
      if cursor < |text| && IsQuote(text[cursor]) {
        cursor := cursor + 1;
      }
      cursor := Advance(cursor, IsSpace);
    }

    method ValueRange(start: nat) returns (next: Decision)
      requires start < |text|
      ensures next == DecideValue(text, start)
    {
      if IsQuote(text[start]) {
        var valueEnd := Advance(start + 1, Not(Is(text[start])));
        return if valueEnd > start + 1 then Replace(start + 1, valueEnd) else Skip(valueEnd);
      }
      var cursor := Advance(start, Not(IsTerminator));
      return if cursor > start then Replace(start, cursor) else Skip(cursor + 1);
    }

    method RedactNamedValues(name: string)
      requires ValidKind(Named(name))
      modifies this
      ensures text == RedactKind(Named(name), old(text))
      ensures AllCovered(Named(name), text) && ReplacesValues(Named(name), old(text), text)
    {
      hide Pass, Replaced, ValidKind, AllCovered, DecideNamed, DecideScheme, ReplacesValues;
      var kind := Named(name);
      KindProgresses(kind);
      NothingYet(kind, text);
      KindFollowsGrammar(kind, text);
      var searchFrom: nat := 0;
      while true
        invariant searchFrom <= |text|
        invariant Pass(Decide(kind), REDACTED, text, searchFrom) == old(Pass(Decide(kind), REDACTED, text, 0))
        decreases |text| - searchFrom
      {
        PassStep(Decide(kind), REDACTED, text, searchFrom);
        var next := NextNamedValue(name, searchFrom);
        match next {
          case Done => return;
          case Skip(place) => searchFrom := place;
          case Replace(valueStart, valueEnd) =>
            ReplacedLength(text, valueStart, valueEnd, REDACTED);
            ReplaceRange(valueStart, valueEnd, REDACTED);
            searchFrom := valueStart + |REDACTED|;
        }
      }
    }

    method RedactSensitiveHeader(header: string)
      requires ValidKind(Header(header))
      modifies this
      ensures text == RedactKind(Header(header), old(text))
      ensures AllCovered(Header(header), text) && ReplacesValues(Header(header), old(text), text)
    {
      hide Pass, At, Replaced, ValidKind, AllCovered, ReplacesValues;
      var kind := Header(header);
      KindProgresses(kind);
      NothingYet(kind, text);
      KindFollowsGrammar(kind, text);
      var searchFrom: nat := 0;
      while true
        invariant searchFrom <= |text|
        invariant Pass(Decide(kind), REDACTED, text, searchFrom) == old(Pass(Decide(kind), REDACTED, text, 0))
        decreases |text| - searchFrom
      {
        PassStep(Decide(kind), REDACTED, text, searchFrom);
        var found := FindWord(text, header, searchFrom);
        if found.None? {
          return;
        }
        var start := found.value;
        var valueStart := start + |header|;
        if start > 0 && IsIdentifier(text[start - 1]) {
          searchFrom := valueStart;
          continue;
        }
        var lineEnd := Advance(valueStart, InLine);
        ReplacedLength(text, valueStart, lineEnd, REDACTED);
        ReplaceRange(valueStart, lineEnd, REDACTED);
        searchFrom := valueStart + |REDACTED|;
      }
    }

    method Redact()
      modifies this
      ensures text == RedactSensitiveText(old(text))
      ensures forall i :: 0 <= i < |KINDS| ==> AllCovered(KINDS[i], text)
      ensures FollowsGrammar(KINDS, old(text), text)
    {
      hide Pass, ValidKind, AllCovered, Harmless, UserinfoHandled, RedactKind, KindsOf, ReplacesKeys, ReplacesUserinfo, Chain;
      ValidKinds();
      KeysProgress();
      UserinfoProgresses();
      RedactPrivateKeyBlocks();
      RedactUrlUserinfo();
      ghost var before := text;
      ghost var texts := KindsFollowGrammar(KINDS, before);
      for i := 0 to |KINDS|
        invariant text == RedactKinds(KINDS[..i], before)
      {
        assert KINDS[..i + 1][..i] == KINDS[..i];
        match KINDS[i] {
          case Scheme(scheme) => RedactAuthScheme(scheme);
          case Named(name) => RedactNamedValues(name);
          case Header(header) => RedactSensitiveHeader(header);
        }
      }
      assert KINDS[..|KINDS|] == KINDS;
      forall i | 0 <= i < |KINDS|
        ensures AllCovered(KINDS[i], text)
      {
        KindsCovered(KINDS, before, i);
      }
    }
  }

  lemma NothingSearched(t: string)
    ensures Searched(t, 0)
  {}

  lemma FoundFits(t: string, needle: string, at: nat)
    ensures var r := FindFrom(t, needle, at); r.Some? ==> r.value + |needle| <= |t|
  {}

  /** No scheme separator begins at an at sign. */
  lemma SkipsOne(t: string, at: nat)
    requires at < |t| && t[at] == '@' && Progresses(UserinfoDecider())
    ensures Pass(UserinfoDecider(), REDACTED, t, at) == Pass(UserinfoDecider(), REDACTED, t, at + 1)
  {
    hide Pass, Replaced, DecideUserinfo;
    FindsLater(t, at);
    PassStep(UserinfoDecider(), REDACTED, t, at);
    PassStep(UserinfoDecider(), REDACTED, t, at + 1);
  }

  lemma FindsLater(t: string, at: nat)
    requires at < |t| && t[at] == '@'
    ensures DecideUserinfo(t, at) == DecideUserinfo(t, at + 1)
  {
    hide SkipWhile, LastAt;
    if at + 3 <= |t| {
      assert t[at..at + 3][0] == '@';
    } else {
      assert FindFrom(t, "://", at + 1).None?;
    }
  }
}
