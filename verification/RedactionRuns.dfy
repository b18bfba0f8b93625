/** Whole redaction passes, one after another, and what their result no longer shows. */
module RedactionRuns {
  import opened Text
  import opened RedactionPass
  import opened Redaction

  // ----- one decision

  /** Between the word found and `n` no other word introduces anything. */
  lemma OnlyWord(kind: Kind, t: string, at: nat, q: nat, n: nat)
    requires ValidKind(kind) && at <= q && q + |kind.word| <= n && n <= |t|
    requires At(t, kind.word, q) && forall p :: at <= p < q ==> !At(t, kind.word, p)
    requires forall k :: q + |kind.word| <= k < n ==> !IsIdentifier(t[k])
    ensures forall p :: at <= p < n && Introduces(kind, t, p) ==> p == q
  {
    hide At, SkipWhile, IsSpace, IsSeparator, AfterName;
    WordsAreSearchable(kind);
    forall p | at <= p < n && Introduces(kind, t, p)
      ensures p == q
    {
      IntroducedAt(kind, t, p);
      if q < p < q + |kind.word| {
        InsideWord(kind, t, q, p - 1 - q);
      } else if p >= q + |kind.word| {
        CharAt(t, kind.word, p, 0);
      }
    }
  }

  lemma InsideWord(kind: Kind, t: string, q: nat, k: nat)
    requires ValidKind(kind) && At(t, kind.word, q) && k + 1 < |kind.word|
    ensures IsIdentifier(t[q + k]) && (kind.Scheme? ==> IsAlphanumeric(t[q + k]))
  {
    CharAt(t, kind.word, q, k);
    if kind.Header? {
      assert kind.word[..|kind.word| - 1][k] == kind.word[k];
    }
  }


  /** The decision is to replace the value of a word from here on. */
  ghost predicate Taken(kind: Kind, t: string, at: nat, q: nat, a: nat, e: nat) {
    at <= q && q + |kind.word| <= a && Gives(kind, t, q, Range(a, e))
  }

  /** What a decision settles. */
  ghost predicate Settles(kind: Kind, t: string, at: nat, d: Decision) {
    && Allowed(t, at, d)
    && match d
       case Done => forall p: nat :: at <= p ==> !HasValue(kind, t, p)
       case Skip(next) => forall p: nat :: at <= p < next ==> !HasValue(kind, t, p)
       case Replace(a, e) =>
         && Edge(t, a, e) && (exists q: nat :: Taken(kind, t, at, q, a, e))
         && forall p: nat :: at <= p < a && Introduces(kind, t, p) ==> ValueOf(kind, t, p) == Range(a, e)
  }

  lemma NothingSettles(kind: Kind, t: string, at: nat)
    requires ValidKind(kind) && FindWord(t, kind.word, at).None?
    ensures Settles(kind, t, at, Done)
  {
    hide Introduces, ValueOf, At;
    forall p: nat | at <= p
      ensures !HasValue(kind, t, p)
    {
      if Introduces(kind, t, p) {
        IntroducedAt(kind, t, p);
      }
    }
  }

  /** The first word found, and nothing but separators, quotes and spaces from its end up to `n`. */
  ghost predicate FoundAlone(kind: Kind, t: string, at: nat, q: nat, n: nat) {
    && at <= q && q + |kind.word| <= n <= |t|
    && FindWord(t, kind.word, at) == Some(q)
    && forall k :: q + |kind.word| <= k < n ==> !IsIdentifier(t[k])
  }

  lemma SkipSettles(kind: Kind, t: string, at: nat, q: nat, n: nat)
    requires ValidKind(kind) && FoundAlone(kind, t, at, q, n) && !HasValue(kind, t, q)
    ensures Settles(kind, t, at, Skip(n))
    ensures n == |t| ==> Settles(kind, t, at, Done)
  {
    hide Introduces, ValueOf, ValidKind;
    WordsAreSearchable(kind);
    OnlyWord(kind, t, at, q, n);
    forall p: nat | Introduces(kind, t, p)
      ensures p < |t|
    {
      IntroducedAt(kind, t, p);
    }
  }

  lemma ReplaceSettles(kind: Kind, t: string, at: nat, q: nat, a: nat, e: nat)
    requires ValidKind(kind) && FoundAlone(kind, t, at, q, a) && Edge(t, a, e)
    requires Gives(kind, t, q, Range(a, e)) && at < e
    ensures Settles(kind, t, at, Replace(a, e))
  {
    hide Introduces, ValueOf, ValidKind, Leads, IsIdentifier;
    WordsAreSearchable(kind);
    OnlyWord(kind, t, at, q, a);
    assert Taken(kind, t, at, q, a, e);
  }

  lemma HeaderSettles(header: string, t: string, at: nat)
    requires ValidKind(Header(header)) && at <= |t|
    ensures Settles(Header(header), t, at, DecideHeader(t, header, at))
  {
    hide SkipWhile, Settles, IsIdentifier, At;
    var kind := Header(header);
    match FindWord(t, header, at)
    case None => NothingSettles(kind, t, at);
    case Some(q) =>
      var v := q + |header|;
      if q > 0 && IsIdentifier(t[q - 1]) {
        SkipSettles(kind, t, at, q, v);
      } else {
        CharAt(t, header, q, |header| - 1);
        LineEnds(t, v);
        ReplaceSettles(kind, t, at, q, v, SkipWhile(t, v, InLine));
      }
  }

  lemma LineEnds(t: string, v: nat)
    requires v <= |t|
    ensures var stop := SkipWhile(t, v, InLine); stop < |t| ==> !IsIdentifier(t[stop])
  {}

  lemma SchemeSettles(scheme: string, t: string, at: nat)
    requires ValidKind(Scheme(scheme)) && at <= |t|
    ensures Settles(Scheme(scheme), t, at, DecideScheme(t, scheme, at))
  {
    hide SkipWhile, Settles, IsIdentifier, At, IsAlphanumeric, EndsScheme, Marked, ValidKind;
    var kind := Scheme(scheme);
    match FindWord(t, scheme, at)
    case None => NothingSettles(kind, t, at);
    case Some(q) =>
      var end := q + |scheme|;
      if (q > 0 && IsAlphanumeric(t[q - 1])) || end >= |t| || !IsSpace(t[end]) {
        SkipSettles(kind, t, at, q, end);
      } else {
        var v := SkipWhile(t, end, IsSpace);
        SpacesOnly(t, end);
        StopsScheme(t, v);
        if SkipWhile(t, v, Not(EndsScheme)) > v {
          ReplaceSettles(kind, t, at, q, v, SkipWhile(t, v, Not(EndsScheme)));
        } else {
          SkipSettles(kind, t, at, q, v);
        }
      }
  }

  lemma SpacesOnly(t: string, i: nat)
    requires i <= |t|
    ensures forall k :: i <= k < SkipWhile(t, i, IsSpace) ==> IsSpace(t[k]) && !IsIdentifier(t[k])
    ensures i < |t| && IsSpace(t[i]) ==> SkipWhile(t, i, IsSpace) > i
  {}

  lemma StopsScheme(t: string, v: nat)
    requires v <= |t|
    ensures var stop := SkipWhile(t, v, Not(EndsScheme)); stop < |t| ==> EndsScheme(t[stop]) && !IsIdentifier(t[stop])
  {}

  lemma StopsValue(t: string, v: nat)
    requires v <= |t|
    ensures var stop := SkipWhile(t, v, Not(IsTerminator)); stop < |t| ==> IsTerminator(t[stop]) && !IsIdentifier(t[stop])
  {}

  lemma StopsQuote(t: string, v: nat, quote: char)
    requires v <= |t| && IsQuote(quote)
    ensures var close := SkipWhile(t, v, Not(Is(quote))); close < |t| ==> t[close] == quote && !IsIdentifier(t[close])
  {}

  lemma NamedSettles(name: string, t: string, at: nat)
    requires ValidKind(Named(name)) && at <= |t|
    ensures Settles(Named(name), t, at, DecideNamed(t, name, at))
  {
    hide SkipWhile, Settles, AfterName, IsIdentifier, IsSpace, IsTerminator, At, ValidKind, Marked, IsSeparator, Leads;
    var kind := Named(name);
    match FindWord(t, name, at)
    case None => NothingSettles(kind, t, at);
    case Some(q) =>
      var end := q + |name|;
      var separator := AfterName(t, end);
      if !Introduces(kind, t, q) {
        SkipSettles(kind, t, at, q, end);
      } else {
        var v := SkipWhile(t, separator + 1, IsSpace);
        NothingNamedBetween(t, end);
        if v < |t| {
          ValueSettles(kind, t, at, q, v);
        } else {
          SkipSettles(kind, t, at, q, v);
        }
      }
  }

  lemma NothingNamedBetween(t: string, end: nat)
    requires end <= |t| && AfterName(t, end) < |t| && IsSeparator(t[AfterName(t, end)])
    ensures var v := SkipWhile(t, AfterName(t, end) + 1, IsSpace);
            && (forall k :: end <= k < v ==> !IsIdentifier(t[k]))
            && v > 0 && Leads(t[v - 1])
  {
    hide SkipWhile;
    SpacesOnly(t, if IsQuote(t[end]) then end + 1 else end);
    SpacesOnly(t, AfterName(t, end) + 1);
  }

  /** The cases of a value that is there: quoted or not, empty or not. */
  lemma ValueSettles(kind: Kind, t: string, at: nat, q: nat, v: nat)
    requires ValidKind(kind) && kind.Named? && at <= q && q + |kind.word| < v < |t| && Leads(t[v - 1])
    requires FindWord(t, kind.word, at) == Some(q) && Introduces(kind, t, q) && ValueAt(kind, t, q) == v
    requires forall k :: q + |kind.word| <= k < v ==> !IsIdentifier(t[k])
    ensures Settles(kind, t, at, DecideValue(t, v))
  {
    hide Marked, SkipWhile, Introduces, ValueAt, ValidKind, FindWord, At, Settles;
    if IsQuote(t[v]) {
      var close := SkipWhile(t, v + 1, Not(Is(t[v])));
      StopsQuote(t, v + 1, t[v]);
      if close > v + 1 {
        ReplaceSettles(kind, t, at, q, v + 1, close);
      } else {
        SkipSettles(kind, t, at, q, close);
      }
    } else {
      var stop := SkipWhile(t, v, Not(IsTerminator));
      StopsValue(t, v);
      if stop > v {
        ReplaceSettles(kind, t, at, q, v, stop);
      } else {
        SkipSettles(kind, t, at, q, v + 1);
      }
    }
  }

  lemma DecisionSettles(kind: Kind, t: string, at: nat)
    requires ValidKind(kind) && at <= |t|
    ensures Settles(kind, t, at, Decide(kind)(t, at))
  {
    match kind
    case Named(name) => NamedSettles(name, t, at);
    case Scheme(scheme) => SchemeSettles(scheme, t, at);
    case Header(header) => HeaderSettles(header, t, at);
  }

  lemma KindProgresses(kind: Kind)
    requires ValidKind(kind)
    ensures Progresses(Decide(kind))
  {
    forall t: string, at: nat | at <= |t|
      ensures Allowed(t, at, Decide(kind)(t, at))
    {
      DecisionSettles(kind, t, at);
    }
  }

  /** An empty value is quiet. */
  lemma NoValueIsQuiet(kind: Kind, t: string, p: nat)
    requires !HasValue(kind, t, p)
    ensures Covered(kind, t, p)
  {
    hide Introduces, ValueAt, Marked;
  }

  lemma CoveredBelow(kind: Kind, t: string, at: nat, next: nat)
    requires forall p: nat :: p < at ==> Covered(kind, t, p)
    requires forall p: nat :: at <= p < next ==> !HasValue(kind, t, p)
    ensures forall p: nat :: p < next ==> Covered(kind, t, p)
  {
    hide Covered, HasValue;
    forall p: nat | at <= p < next
      ensures Covered(kind, t, p)
    {
      NoValueIsQuiet(kind, t, p);
    }
  }

  // ----- whole passes

  function RedactKind(kind: Kind, t: string): string
    requires ValidKind(kind)
  {
    KindProgresses(kind);
    Pass(Decide(kind), REDACTED, t, 0)
  }

  /** A pass covers every value its word introduces. */
  lemma {:induction false} PassCovers(kind: Kind, t: string, at: nat)
    requires ValidKind(kind) && at <= |t| && Progresses(Decide(kind))
    requires forall p :: 0 <= p < at ==> Covered(kind, t, p)
    ensures AllCovered(kind, Pass(Decide(kind), REDACTED, t, at))
    decreases |t| - at
  {
    hide Covered, HasValue, Introduces, ValidKind, Decide, Edge, ValueAt, ValueOf, Reaches;
    DecisionSettles(kind, t, at);
    match Decide(kind)(t, at)
    case Done =>
      forall p: nat
        ensures Covered(kind, t, p)
      {
        CoveredBelow(kind, t, at, p + 1);
      }
    case Skip(next) =>
      CoveredBelow(kind, t, at, next);
      PassCovers(kind, t, next);
    case Replace(a, e) =>
      forall p: nat | p < a + |REDACTED|
        ensures Covered(kind, Marks(t, a, e), p)
      {
        CoveredKept(kind, t, a, e, p);
      }
      PassCovers(kind, Marks(t, a, e), a + |REDACTED|);
  }

  /** A later pass leaves covered what an earlier one covered. */
  lemma {:induction false} PassKeepsCovered(kind: Kind, earlier: Kind, t: string, at: nat)
    requires ValidKind(kind) && ValidKind(earlier) && at <= |t| && Progresses(Decide(kind))
    requires AllCovered(earlier, t)
    ensures AllCovered(earlier, Pass(Decide(kind), REDACTED, t, at))
    decreases |t| - at
  {
    hide Covered, HasValue, Introduces, ValidKind, Decide, Edge, ValueAt, ValueOf, Reaches;
    DecisionSettles(kind, t, at);
    match Decide(kind)(t, at)
    case Done =>
    case Skip(next) => PassKeepsCovered(kind, earlier, t, next);
    case Replace(a, e) =>
      forall p: nat
        ensures Covered(earlier, Marks(t, a, e), p)
      {
        CoveredKept(earlier, t, a, e, p);
      }
      PassKeepsCovered(kind, earlier, Marks(t, a, e), a + |REDACTED|);
  }

  function RedactKinds(kinds: seq<Kind>, t: string): string
    requires forall i :: 0 <= i < |kinds| ==> ValidKind(kinds[i])
    decreases |kinds|
  {
    if kinds == [] then t else RedactKind(kinds[|kinds| - 1], RedactKinds(kinds[..|kinds| - 1], t))
  }

  /** After all the passes every value of every kind is covered. */
  lemma {:induction false} KindsCovered(kinds: seq<Kind>, t: string, i: nat)
    requires forall k :: 0 <= k < |kinds| ==> ValidKind(kinds[k])
    requires i < |kinds|
    ensures AllCovered(kinds[i], RedactKinds(kinds, t))
    decreases |kinds|
  {
    hide AllCovered, ValidKind;
    var n := |kinds| - 1;
    var before := RedactKinds(kinds[..n], t);
    KindProgresses(kinds[n]);
    if i == n {
      NothingYet(kinds[n], before);
    } else {
      KindsCovered(kinds[..n], t, i);
      assert kinds[..n][i] == kinds[i];
      PassKeepsCovered(kinds[n], kinds[i], before, 0);
    }
  }

  lemma NothingYet(kind: Kind, t: string)
    requires ValidKind(kind) && Progresses(Decide(kind))
    ensures AllCovered(kind, Pass(Decide(kind), REDACTED, t, 0))
  {
    PassCovers(kind, t, 0);
  }
}
