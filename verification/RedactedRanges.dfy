/** The ranges that each pass replaces, in the text it is given: they are the values of that text, and nothing else. */
module RedactedRanges {
  import opened Text
  import opened RedactionPass
  import opened Redaction
  import opened RedactionRuns

  // ----- a decision depends only on what follows

  /** The texts agree from here on, where no word goes on. */
  ghost predicate AgreeFrom(t: string, i: nat, u: string, j: nat) {
    Agree(t, i, u, j) && (i < |t| ==> !IsIdentifier(t[i]))
  }

  /** The same word is found in both, with the same character before it. */
  lemma FoundWord(kind: Kind, t: string, i: nat, u: string, j: nat, k: nat)
    requires ValidKind(kind) && AgreeFrom(t, i, u, j) && i <= k <= |t|
    ensures k - i + j <= |u| && FoundInBoth(FindWord(t, kind.word, k), i, FindWord(u, kind.word, k - i + j), j)
    ensures var found := FindWord(t, kind.word, k);
            found.Some? ==>
              && i < found.value && found.value + |kind.word| <= |t|
              && t[found.value - 1] == u[found.value - 1 - i + j]
              && Agree(t, found.value + |kind.word|, u, found.value + |kind.word| - i + j)
  {
    hide FindWord, Agree;
    AgreeAt(t, i, u, j, k);
    FindWordInBoth(t, k, u, k - i + j, kind.word);
    var found := FindWord(t, kind.word, k);
    if found.Some? {
      WordsAreSearchable(kind);
      CharAt(t, kind.word, found.value, 0);
      AgreeAt(t, i, u, j, found.value - 1);
      AgreeAt(t, i, u, j, found.value + |kind.word|);
    }
  }

  lemma AfterNameInBoth(t: string, i: nat, u: string, j: nat)
    requires Agree(t, i, u, j)
    ensures AfterName(u, j) == AfterName(t, i) - i + j
  {
    hide SkipWhile, Agree;
    AgreesWithin(t, i, u, j);
    AgreeAt(t, i, u, j, i);
    if i < |t| && IsQuote(t[i]) {
      AgreeAt(t, i, u, j, i + 1);
      SkipInBoth(t, i + 1, u, j + 1, IsSpace);
    } else {
      SkipInBoth(t, i, u, j, IsSpace);
    }
  }

  lemma ValueInBoth(t: string, v: nat, u: string, w: nat)
    requires Agree(t, v, u, w) && v < |t|
    ensures w < |u| && SameDecision(DecideValue(t, v), v, DecideValue(u, w), w)
  {
    hide SkipWhile, Agree;
    AgreeAt(t, v, u, w, v);
    AgreeAt(t, v, u, w, v + 1);
    SkipInBoth(t, v + 1, u, w + 1, Not(Is(t[v])));
    SkipInBoth(t, v, u, w, Not(IsTerminator));
  }

  /** What follows the word: a separator, and a value or the end of the text. */
  lemma SeparatorInBoth(t: string, end: nat, u: string, end': nat)
    requires Agree(t, end, u, end')
    ensures end <= |t| && end' <= |u|
    ensures var s, s' := AfterName(t, end), AfterName(u, end');
            && s' - end' == s - end && (s < |t| <==> s' < |u|) && (s < |t| ==> t[s] == u[s'])
            && (s < |t| ==> Agree(t, s + 1, u, s' + 1))
  {
    hide SkipWhile, Agree, AfterName;
    AgreesWithin(t, end, u, end');
    AfterNameInBoth(t, end, u, end');
    var s := AfterName(t, end);
    AgreeAt(t, end, u, end', s);
    if s < |t| {
      AgreeAt(t, end, u, end', s + 1);
    }
  }

  lemma SpacesInBoth(t: string, i: nat, u: string, j: nat)
    requires Agree(t, i, u, j)
    ensures i <= |t| && j <= |u|
    ensures var v, w := SkipWhile(t, i, IsSpace), SkipWhile(u, j, IsSpace);
            w - j == v - i && (v < |t| <==> w < |u|) && Agree(t, v, u, w)
  {
    hide SkipWhile, Agree;
    AgreesWithin(t, i, u, j);
    SkipInBoth(t, i, u, j, IsSpace);
    AgreeAt(t, i, u, j, SkipWhile(t, i, IsSpace));
  }

  lemma NamedInBoth(name: string, t: string, i: nat, u: string, j: nat, k: nat)
    requires ValidKind(Named(name)) && AgreeFrom(t, i, u, j) && i <= k <= |t|
    ensures k - i + j <= |u| && SameDecision(DecideNamed(t, name, k), i, DecideNamed(u, name, k - i + j), j)
  {
    hide SkipWhile, Agree, AfterName, FindWord, DecideValue, IsIdentifier, ValidKind, IsSpace, IsSeparator;
    FoundWord(Named(name), t, i, u, j, k);
    var found := FindWord(t, name, k);
    if found.Some? {
      var q := found.value;
      var end, end' := q + |name|, q + |name| - i + j;
      AgreeAt(t, end, u, end', end);
      SeparatorInBoth(t, end, u, end');
      var s, s' := AfterName(t, end), AfterName(u, end');
      if (end < |t| && IsIdentifier(t[end])) || IsIdentifier(t[q - 1]) || s >= |t| || !IsSeparator(t[s]) {
        assert DecideNamed(t, name, k) == Skip(end);
      } else {
        SpacesInBoth(t, s + 1, u, s' + 1);
        var v, w := SkipWhile(t, s + 1, IsSpace), SkipWhile(u, s' + 1, IsSpace);
        if v < |t| {
          ValueInBoth(t, v, u, w);
          SameLater(DecideValue(t, v), v, DecideValue(u, w), w, i, j);
          assert DecideNamed(t, name, k) == DecideValue(t, v);
        }
      }
    }
  }

  lemma TokenInBoth(t: string, end: nat, u: string, end': nat)
    requires Agree(t, end, u, end')
    ensures end <= |t| && end' <= |u|
    ensures var v, w := SkipWhile(t, end, IsSpace), SkipWhile(u, end', IsSpace);
            w - end' == v - end && SkipWhile(u, w, Not(EndsScheme)) - end' == SkipWhile(t, v, Not(EndsScheme)) - end
  {
    hide SkipWhile, Agree;
    SpacesInBoth(t, end, u, end');
    SkipInBoth(t, SkipWhile(t, end, IsSpace), u, SkipWhile(u, end', IsSpace), Not(EndsScheme));
  }

  lemma SchemeInBoth(scheme: string, t: string, i: nat, u: string, j: nat, k: nat)
    requires ValidKind(Scheme(scheme)) && AgreeFrom(t, i, u, j) && i <= k <= |t|
    ensures k - i + j <= |u| && SameDecision(DecideScheme(t, scheme, k), i, DecideScheme(u, scheme, k - i + j), j)
  {
    hide SkipWhile, Agree, FindWord, IsAlphanumeric, ValidKind, IsSpace, EndsScheme;
    FoundWord(Scheme(scheme), t, i, u, j, k);
    var found := FindWord(t, scheme, k);
    if found.Some? {
      var end, end' := found.value + |scheme|, found.value + |scheme| - i + j;
      AgreeAt(t, end, u, end', end);
      TokenInBoth(t, end, u, end');
    }
  }

  lemma HeaderInBoth(header: string, t: string, i: nat, u: string, j: nat, k: nat)
    requires ValidKind(Header(header)) && AgreeFrom(t, i, u, j) && i <= k <= |t|
    ensures k - i + j <= |u| && SameDecision(DecideHeader(t, header, k), i, DecideHeader(u, header, k - i + j), j)
  {
    hide SkipWhile, Agree, FindWord, IsIdentifier, ValidKind;
    FoundWord(Header(header), t, i, u, j, k);
    var found := FindWord(t, header, k);
    if found.Some? {
      var v := found.value + |header|;
      SkipInBoth(t, v, u, v - i + j, InLine);
    }
  }

  lemma KindIsAlike(kind: Kind, t: string, i: nat, u: string, j: nat)
    requires ValidKind(kind) && AgreeFrom(t, i, u, j)
    ensures Alike(Decide(kind), t, i, u, j)
  {
    hide ValidKind, AgreeFrom, DecideNamed, DecideScheme, DecideHeader;
    assert Agree(t, i, u, j) by {
      AgreesFrom(t, i, u, j);
    }
    forall k: nat | i <= k <= |t|
      ensures SameDecision(Decide(kind)(t, k), i, Decide(kind)(u, k - i + j), j)
    {
      match kind
      case Named(name) => NamedInBoth(name, t, i, u, j, k);
      case Scheme(scheme) => SchemeInBoth(scheme, t, i, u, j, k);
      case Header(header) => HeaderInBoth(header, t, i, u, j, k);
    }
  }

  lemma AgreesFrom(t: string, i: nat, u: string, j: nat)
    requires AgreeFrom(t, i, u, j)
    ensures Agree(t, i, u, j)
  {}

  lemma BehindMark(t: string, a: nat, e: nat)
    requires Edge(t, a, e)
    ensures AgreeFrom(t, e, Replaced(t, a, e, REDACTED), a + |REDACTED|)
  {
    ReplacedParts(t, a, e, REDACTED);
  }

  lemma ReplacementIsUntouched(kind: Kind, t: string, a: nat, e: nat)
    requires ValidKind(kind) && Edge(t, a, e)
    ensures Untouched(Decide(kind), REDACTED, t, a, e)
  {
    hide ValidKind, Decide, Alike, AgreeFrom;
    BehindMark(t, a, e);
    KindIsAlike(kind, t, e, Replaced(t, a, e, REDACTED), a + |REDACTED|);
  }

  lemma KindIsLocal(kind: Kind)
    requires ValidKind(kind)
    ensures Local(Decide(kind), REDACTED)
  {
    hide ValidKind, Decide, Untouched;
    forall t: string, at: nat | at <= |t| && Decide(kind)(t, at).Replace?
      ensures Untouched(Decide(kind), REDACTED, t, Decide(kind)(t, at).from, Decide(kind)(t, at).to)
    {
      DecisionSettles(kind, t, at);
      ReplacementIsUntouched(kind, t, Decide(kind)(t, at).from, Decide(kind)(t, at).to);
    }
  }

  // ----- what the search comes upon

  /** The range is the value of a word that stands in no replaced value. */
  ghost predicate IsValue(kind: Kind, t: string, at: nat, cuts: seq<Range>, r: Range) {
    exists q: nat :: at <= q && Gives(kind, t, q, r) && !InCut(cuts, q)
  }

  /** Every range that is replaced is the value of a word, and every word outside them has its value replaced. */
  ghost predicate AreValues(kind: Kind, t: string, at: nat, cuts: seq<Range>) {
    && (forall r :: r in cuts ==> at <= r.from && IsValue(kind, t, at, cuts, r))
    && (forall q: nat, r :: at <= q && Gives(kind, t, q, r) && !InCut(cuts, q) ==> r in cuts)
  }

  lemma {:induction false} CutsAreValues(kind: Kind, t: string, at: nat)
    requires ValidKind(kind) && Progresses(Decide(kind)) && at <= |t|
    ensures AreValues(kind, t, at, Cuts(Decide(kind), t, at))
    decreases |t| - at
  {
    hide Cuts, ValidKind, Decide, HasValue, ValueOf, Edge;
    CutsStep(Decide(kind), t, at);
    DecisionSettles(kind, t, at);
    match Decide(kind)(t, at)
    case Done =>
    case Skip(next) =>
      CutsAreValues(kind, t, next);
      SkippedValues(kind, t, at, next, Cuts(Decide(kind), t, next));
    case Replace(a, e) =>
      CutsAreValues(kind, t, e);
      var q: nat :| Taken(kind, t, at, q, a, e);
      WordsAreSearchable(kind);
      ReplacedValues(kind, t, at, q, a, e, Cuts(Decide(kind), t, e));
  }

  lemma SkippedValues(kind: Kind, t: string, at: nat, next: nat, cuts: seq<Range>)
    requires at <= next && AreValues(kind, t, next, cuts)
    requires forall p: nat :: at <= p < next ==> !HasValue(kind, t, p)
    ensures AreValues(kind, t, at, cuts)
  {
    hide HasValue, ValueOf, InCut;
  }

  lemma ReplacedValues(kind: Kind, t: string, at: nat, q: nat, a: nat, e: nat, rest: seq<Range>)
    requires at <= a <= e && AreValues(kind, t, e, rest) && Taken(kind, t, at, q, a, e)
    requires forall p: nat :: at <= p < a && Introduces(kind, t, p) ==> ValueOf(kind, t, p) == Range(a, e)
    requires |kind.word| > 0
    ensures AreValues(kind, t, at, [Range(a, e)] + rest)
  {
    hide Gives, ValueOf, InCut, AreValues, IsValue, Taken;
    var cuts := [Range(a, e)] + rest;
    forall r | r in cuts
      ensures at <= r.from && IsValue(kind, t, at, cuts, r)
    {
      if r in rest {
        RestIsValue(kind, t, at, Range(a, e), rest, r);
      } else {
        FirstIsValue(kind, t, at, q, Range(a, e), rest);
      }
    }
    forall p: nat, r | at <= p && Gives(kind, t, p, r) && !InCut(cuts, p)
      ensures r in cuts
    {
      InFirst(Range(a, e), rest, p);
      if p < a {
        GivenValue(kind, t, p, r);
        assert cuts[0] == Range(a, e);
      } else {
        RestHasValue(kind, t, e, rest, p, r);
      }
    }
    ValuesAre(kind, t, at, cuts);
  }

  lemma GivenValue(kind: Kind, t: string, p: nat, r: Range)
    requires Gives(kind, t, p, r)
    ensures Introduces(kind, t, p) && ValueOf(kind, t, p) == r
  {}

  lemma ValuesAre(kind: Kind, t: string, at: nat, cuts: seq<Range>)
    requires forall r :: r in cuts ==> at <= r.from && IsValue(kind, t, at, cuts, r)
    requires forall q: nat, r :: at <= q && Gives(kind, t, q, r) && !InCut(cuts, q) ==> r in cuts
    ensures AreValues(kind, t, at, cuts)
  {}

  lemma FirstIsValue(kind: Kind, t: string, at: nat, q: nat, first: Range, rest: seq<Range>)
    requires first.from <= first.to && AreValues(kind, t, first.to, rest) && Taken(kind, t, at, q, first.from, first.to)
    requires |kind.word| > 0
    ensures IsValue(kind, t, at, [first] + rest, first)
  {
    hide Gives, IsValue;
    InFirst(first, rest, q);
    ValueFound(kind, t, at, [first] + rest, first, q);
  }

  lemma ValueFound(kind: Kind, t: string, at: nat, cuts: seq<Range>, r: Range, q: nat)
    requires at <= q && Gives(kind, t, q, r) && !InCut(cuts, q)
    ensures IsValue(kind, t, at, cuts, r)
  {}

  lemma RestIsValue(kind: Kind, t: string, at: nat, first: Range, rest: seq<Range>, r: Range)
    requires at <= first.from <= first.to && AreValues(kind, t, first.to, rest) && r in rest
    ensures at <= r.from && IsValue(kind, t, at, [first] + rest, r)
  {
    hide Gives, InCut;
    assert first.to <= r.from && IsValue(kind, t, first.to, rest, r);
    var q: nat :| first.to <= q && Gives(kind, t, q, r) && !InCut(rest, q);
    InFirst(first, rest, q);
    ValueFound(kind, t, at, [first] + rest, r, q);
  }

  lemma RestHasValue(kind: Kind, t: string, e: nat, rest: seq<Range>, p: nat, r: Range)
    requires AreValues(kind, t, e, rest) && e <= p && Gives(kind, t, p, r) && !InCut(rest, p)
    ensures r in rest
  {
    hide IsValue, Gives;
  }

  /** A pass replaces the values of its kind that stand in the text it is given, each whole, and nothing else: its
      result is that text with the mark in place of exactly those values whose words stand in no replaced value. */
  lemma KindReplacesValues(kind: Kind, t: string) returns (cuts: seq<Range>)
    requires ValidKind(kind)
    ensures InOrder(t, 0, cuts) && RedactKind(kind, t) == Filled(t, 0, cuts, REDACTED)
    ensures forall r :: r in cuts <==> exists q: nat :: Gives(kind, t, q, r) && !InCut(cuts, q)
  {
    hide Pass, Cuts, Filled, Decide, ValidKind, Gives, InCut;
    KindProgresses(kind);
    KindIsLocal(kind);
    PassFills(Decide(kind), REDACTED, t);
    CutsAreValues(kind, t, 0);
    cuts := Cuts(Decide(kind), t, 0);
    forall r
      ensures r in cuts <==> exists q: nat :: Gives(kind, t, q, r) && !InCut(cuts, q)
    {
      if r in cuts {
        assert IsValue(kind, t, 0, cuts, r);
      }
    }
  }
}
