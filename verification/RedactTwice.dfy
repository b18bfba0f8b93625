/** Redacting a named value twice: what a pass leaves exactly, and when a second one changes nothing. */
module RedactTwice {
  import opened Text
  import opened RedactionPass
  import opened Redaction
  import opened RedactionRuns
  import opened RedactedRanges
  import opened RedactedKinds

  predicate IsName(name: string) { ValidKind(Named(name)) }

  /** The value is empty, is the mark between quotes, or begins with the mark. */
  predicate ExactValue(t: string, v: nat)
    requires v <= |t|
  {
    || v == |t|
    || (if IsQuote(t[v]) then
          || v + 1 == |t| || t[v + 1] == t[v]
          || (Marked(t, v + 1) && (v + 1 + |REDACTED| == |t| || t[v + 1 + |REDACTED|] == t[v]))
        else IsTerminator(t[v]) || Marked(t, v))
  }

  predicate Exact(t: string, name: string, p: nat) {
    Introduces(Named(name), t, p) ==> ExactValue(t, ValueAt(Named(name), t, p))
  }

  /** An unquoted value that is not empty. */
  predicate Loud(t: string, name: string, p: nat) {
    && Introduces(Named(name), t, p)
    && var v := ValueAt(Named(name), t, p);
    && v < |t| && !IsQuote(t[v]) && !IsTerminator(t[v])
  }

  // ----- what a decision decides

  lemma ValueBeforeNext(t: string, name: string, p: nat, q: nat)
    requires IsName(name) && p < q && Introduces(Named(name), t, p) && Introduces(Named(name), t, q)
    ensures p + |name| < ValueAt(Named(name), t, p) <= q
  {
    hide SkipWhile, AfterName, IsSpace, Leads, IsSeparator;
    var kind := Named(name);
    NothingNamedBetween(t, p + |name|);
    CharAt(t, name, q, 0);
    if q < p + |name| {
      InsideWord(kind, t, p, q - 1 - p);
    }
  }

  /** The end of what a decision settles. */
  function Upto(t: string, d: Decision): nat {
    match d
    case Done => |t| + 1
    case Skip(next) => next
    case Replace(from, _) => from
  }

  /** The decision is about the value of the word introduced at `p`. */
  predicate About(t: string, name: string, p: nat, d: Decision)
    requires Introduces(Named(name), t, p)
  {
    var v := ValueAt(Named(name), t, p);
    if v == |t| then d == Done else d == DecideValue(t, v)
  }

  lemma DecidesFirst(t: string, name: string, at: nat, q: nat)
    requires FindWord(t, name, at) == Some(q) && Introduces(Named(name), t, q)
    ensures About(t, name, q, DecideNamed(t, name, at))
  {
    hide FindWord, SkipWhile, DecideValue;
  }

  lemma SkipsOther(t: string, name: string, at: nat, q: nat)
    requires FindWord(t, name, at) == Some(q) && !Introduces(Named(name), t, q)
    ensures DecideNamed(t, name, at) == Skip(q + |name|)
  {
    hide FindWord, SkipWhile, DecideValue;
  }

  lemma ValueUpto(t: string, v: nat)
    requires v < |t|
    ensures var d := DecideValue(t, v);
            && !d.Done? && v <= Upto(t, d) <= v + 1
            && (Upto(t, d) == v + 1 ==> !IsIdentifier(t[v]))
  {
    hide IsIdentifier;
    QuoteIsNoIdentifier(t[v]);
    StopsValue(t, v);
  }

  lemma QuoteIsNoIdentifier(c: char)
    ensures IsQuote(c) ==> !IsIdentifier(c)
  {}

  lemma NameBegins(t: string, name: string, p: nat)
    requires IsName(name) && At(t, name, p)
    ensures p < |t| && IsIdentifier(t[p])
  {
    CharAt(t, name, p, 0);
  }

  /** Whatever is introduced in the part that a decision settles, the decision is about it. */
  lemma NamedHits(t: string, name: string, at: nat, p: nat)
    requires IsName(name) && at <= p && Introduces(Named(name), t, p)
    requires p < Upto(t, DecideNamed(t, name, at))
    ensures FindWord(t, name, at) == Some(p) && About(t, name, p, DecideNamed(t, name, at))
  {
    hide SkipWhile, AfterName, IsSpace, DecideValue, DecideNamed, Introduces, ValueAt, IsIdentifier;
    var kind := Named(name);
    IntroducedAt(kind, t, p);
    NameBegins(t, name, p);
    var q := FindWord(t, name, at).value;
    if Introduces(kind, t, q) {
      DecidesFirst(t, name, at, q);
      if q < p {
        ValueBeforeNext(t, name, q, p);
        ValueUpto(t, ValueAt(kind, t, q));
      }
    } else {
      SkipsOther(t, name, at, q);
      if q < p {
        InsideWordOnly(t, name, q, p);
      }
    }
  }

  lemma InsideWordOnly(t: string, name: string, q: nat, p: nat)
    requires IsName(name) && At(t, name, q) && q < p && Introduces(Named(name), t, p)
    ensures q + |name| <= p
  {
    if p < q + |name| {
      InsideWord(Named(name), t, q, p - 1 - q);
    }
  }

  // ----- one pass leaves exact values

  lemma ReplacedIsExact(t: string, v: nat, a: nat, e: nat)
    requires v < |t| && DecideValue(t, v) == Replace(a, e)
    ensures v <= a <= e <= |t| && v <= |Marks(t, a, e)| && ExactValue(Marks(t, a, e), v)
  {
    hide Marks, SkipWhile;
    ValueRange(t, v, a, e);
    MarksAt(t, a, e);
  }

  lemma ValueRange(t: string, v: nat, a: nat, e: nat)
    requires v < |t| && DecideValue(t, v) == Replace(a, e)
    ensures a < e <= |t|
    ensures if IsQuote(t[v]) then a == v + 1 && (e < |t| ==> t[e] == t[v]) else a == v
  {}

  lemma ExactKept(t: string, a: nat, e: nat, v: nat)
    requires Edge(t, a, e) && v + 1 < a && ExactValue(t, v)
    ensures v <= |Marks(t, a, e)| && ExactValue(Marks(t, a, e), v)
  {
    hide Marks;
    MarksAt(t, a, e);
    if Marked(t, v) {
      MarkedKept(t, a, e, v);
    }
    if Marked(t, v + 1) {
      MarkedKept(t, a, e, v + 1);
      MarkEndsBefore(t, a, e, v + 1);
    }
  }

  lemma MarkEndsBefore(t: string, a: nat, e: nat, v: nat)
    requires Edge(t, a, e) && v < a && Marked(t, v)
    ensures v + |REDACTED| < a
  {
    assert t[a - 1] != '[' && !IsIdentifier(t[a - 1]) && t[a - 1] != ']';
  }

  lemma OwnEditIsExact(t: string, name: string, at: nat, a: nat, e: nat, p: nat)
    requires IsName(name) && at <= |t| && DecideNamed(t, name, at) == Replace(a, e) && p < a + |REDACTED|
    requires p < at ==> Exact(t, name, p)
    ensures a <= e <= |t| && Exact(Marks(t, a, e), name, p)
  {
    hide Marks, Introduces, ValueAt, DecideNamed, ExactValue, IsIdentifier, Searchable;
    var kind := Named(name);
    NamedSettles(name, t, at);
    if Introduces(kind, Marks(t, a, e), p) {
      WordsAreSearchable(kind);
      IntroducedAt(kind, Marks(t, a, e), p);
      WordMoved(t, a, e, name, p);
      if p + |name| <= a {
        IntroducedBefore(kind, t, a, e, p);
        var v := ValueAt(kind, t, p);
        if p >= at {
          EdgeIsInText(t, a, e);
          NamedHits(t, name, at, p);
          ReplacedIsExact(t, v, a, e);
        } else {
          var q := HitOf(t, name, at, a, e);
          ValueBeforeNext(t, name, p, q);
          ExactKept(t, a, e, v);
        }
      } else {
        NothingInsideMark(kind, t, a, e, p);
      }
    }
  }

  lemma EdgeIsInText(t: string, a: nat, e: nat)
    requires Edge(t, a, e)
    ensures a <= |t|
  {}

  /** The word whose value is replaced. */
  lemma HitOf(t: string, name: string, at: nat, a: nat, e: nat) returns (q: nat)
    requires IsName(name) && at <= |t| && DecideNamed(t, name, at) == Replace(a, e)
    ensures at <= q && FindWord(t, name, at) == Some(q) && Introduces(Named(name), t, q)
    ensures var v := ValueAt(Named(name), t, q);
            q + |name| < v < |t| && DecideValue(t, v) == Replace(a, e) && v <= a
  {
    hide SkipWhile, AfterName, Introduces, ValueAt, DecideValue;
    q := FindWord(t, name, at).value;
    if Introduces(Named(name), t, q) {
      DecidesFirst(t, name, at, q);
      ValueAfterName(t, name, q);
      ValueUpto(t, ValueAt(Named(name), t, q));
    } else {
      SkipsOther(t, name, at, q);
    }
  }

  lemma ValueAfterName(t: string, name: string, q: nat)
    requires Introduces(Named(name), t, q)
    ensures q + |name| < ValueAt(Named(name), t, q)
  {}

  lemma {:induction false} PassIsExact(t: string, name: string, at: nat)
    requires IsName(name) && at <= |t| && Progresses(Decide(Named(name)))
    requires forall p: nat :: p < at ==> Exact(t, name, p)
    ensures forall p: nat :: Exact(Pass(Decide(Named(name)), REDACTED, t, at), name, p)
    decreases |t| - at
  {
    hide Exact, Pass, DecideNamed, ValidKind, Marks;
    var kind := Named(name);
    PassStep(Decide(kind), REDACTED, t, at);
    match DecideNamed(t, name, at)
    case Done =>
      forall p: nat
        ensures Exact(t, name, p)
      {
        SettledIsExact(t, name, at, p);
      }
    case Skip(next) =>
      forall p: nat | p < next
        ensures Exact(t, name, p)
      {
        SettledIsExact(t, name, at, p);
      }
      PassIsExact(t, name, next);
    case Replace(a, e) =>
      var after := Replaced(t, a, e, REDACTED);
      ReplacedLength(t, a, e, REDACTED);
      MarksIsReplaced(t, a, e);
      forall p: nat | p < a + |REDACTED|
        ensures Exact(after, name, p)
      {
        OwnEditIsExact(t, name, at, a, e, p);
      }
      PassIsExact(after, name, a + |REDACTED|);
  }

  lemma MarksIsReplaced(t: string, a: nat, e: nat)
    requires a <= e <= |t|
    ensures Marks(t, a, e) == Replaced(t, a, e, REDACTED)
  {}

  lemma SettledIsExact(t: string, name: string, at: nat, p: nat)
    requires IsName(name) && !DecideNamed(t, name, at).Replace?
    requires DecideNamed(t, name, at).Done? || p < Upto(t, DecideNamed(t, name, at))
    requires p < at ==> Exact(t, name, p)
    ensures Exact(t, name, p)
    ensures p >= at ==> !Loud(t, name, p)
  {
    hide DecideNamed, Introduces, ValueAt, IsName, SkipWhile;
    if p >= at && Introduces(Named(name), t, p) {
      IntroducedAt(Named(name), t, p);
      NamedHits(t, name, at, p);
      var v := ValueAt(Named(name), t, p);
      if v < |t| {
        SkippedIsEmpty(t, v);
      }
    }
  }

  lemma SkippedIsEmpty(t: string, v: nat)
    requires v < |t| && !DecideValue(t, v).Replace?
    ensures ExactValue(t, v) && (IsQuote(t[v]) || IsTerminator(t[v]))
  {}

  // ----- a second pass

  /** A quoted mark is replaced by itself; an unquoted one up to its bracket, so that a bracket is added. */
  lemma ExactReplaced(t: string, v: nat, a: nat, e: nat)
    requires v < |t| && ExactValue(t, v) && DecideValue(t, v) == Replace(a, e)
    ensures a <= e <= |t|
    ensures if IsQuote(t[v]) then a == v + 1 && Replaced(t, a, e, REDACTED) == t && e == a + |REDACTED|
            else a == v && |Replaced(t, a, e, REDACTED)| == |t| + 1 && !IsTerminator(t[v])
  {
    hide Replaced, IsTerminator, Marked, SkipWhile;
    if IsQuote(t[v]) {
      QuotedMarkEnds(t, v);
      MarkIsKept(t, v + 1);
    } else {
      UnquotedMarkEnds(t, v);
      ReplacedLength(t, v, v + 9, REDACTED);
    }
  }

  lemma MarkIsKept(t: string, a: nat)
    requires Marked(t, a)
    ensures a + |REDACTED| <= |t| && Replaced(t, a, a + |REDACTED|, REDACTED) == t
  {
    var e := a + |REDACTED|;
    assert t[a..e] == REDACTED;
    assert t == t[..a] + t[a..e] + t[e..];
  }

  lemma QuotedMarkEnds(t: string, v: nat)
    requires v < |t| && IsQuote(t[v]) && ExactValue(t, v) && DecideValue(t, v).Replace?
    ensures Marked(t, v + 1) && DecideValue(t, v) == Replace(v + 1, v + 1 + |REDACTED|)
  {
    hide IsTerminator, Marked;
    if Marked(t, v + 1) {
      MarkHasNoQuote(t, v + 1);
      SkipIs(t, v + 1, Not(Is(t[v])), v + 1 + |REDACTED|);
    }
  }

  lemma UnquotedMarkEnds(t: string, v: nat)
    requires v < |t| && !IsQuote(t[v]) && ExactValue(t, v) && DecideValue(t, v).Replace?
    ensures v + 9 < |t| && !IsTerminator(t[v]) && DecideValue(t, v) == Replace(v, v + 9)
  {
    hide Marked;
    if Marked(t, v) {
      MarkHasNoQuote(t, v);
      SkipIs(t, v, Not(IsTerminator), v + 9);
    }
  }

  lemma MarkHasNoQuote(t: string, v: nat)
    requires Marked(t, v)
    ensures v + |REDACTED| <= |t|
    ensures forall k :: v <= k < v + |REDACTED| ==> !IsQuote(t[k])
    ensures forall k :: v <= k < v + 9 ==> !IsTerminator(t[k])
    ensures t[v + 9] == ']'
  {}

  lemma {:induction false} TwiceIsSame(t: string, name: string, at: nat)
    requires IsName(name) && at <= |t| && Progresses(Decide(Named(name)))
    requires forall p: nat :: p >= at ==> Exact(t, name, p) && !Loud(t, name, p)
    ensures Pass(Decide(Named(name)), REDACTED, t, at) == t
    decreases |t| - at
  {
    hide Pass, DecideNamed, ValidKind, Introduces, ValueAt, ExactValue, DecideValue;
    PassStep(Decide(Named(name)), REDACTED, t, at);
    match DecideNamed(t, name, at)
    case Done =>
    case Skip(next) => TwiceIsSame(t, name, next);
    case Replace(a, e) =>
      var q := HitOf(t, name, at, a, e);
      var v := ValueAt(Named(name), t, q);
      assert Exact(t, name, q) && !Loud(t, name, q);
      ExactReplaced(t, v, a, e);
      TwiceIsSame(t, name, a + |REDACTED|);
  }

  lemma ExactBehind(t: string, a: nat, e: nat, v: nat)
    requires a <= e <= |t| && a + |REDACTED| <= v <= |Marks(t, a, e)|
    requires Before(a, e, v) <= |t| && ExactValue(t, Before(a, e, v))
    ensures ExactValue(Marks(t, a, e), v)
  {
    hide Marks;
    MarksAt(t, a, e);
    if Marked(t, Before(a, e, v)) {
      MarkedBehind(t, a, e, v);
    }
    if Marked(t, Before(a, e, v) + 1) {
      MarkedBehind(t, a, e, v + 1);
    }
  }

  lemma StaysExactBehind(t: string, name: string, a: nat, e: nat, p: nat)
    requires IsName(name) && Edge(t, a, e) && p >= a + |REDACTED|
    requires forall k: nat :: k >= a ==> Exact(t, name, k)
    ensures Exact(Marks(t, a, e), name, p)
  {
    hide Marks, Introduces, ValueAt, ExactValue, IsIdentifier, Searchable;
    var kind := Named(name);
    if Introduces(kind, Marks(t, a, e), p) {
      WordsAreSearchable(kind);
      IntroducedAt(kind, Marks(t, a, e), p);
      WordMoved(t, a, e, name, p);
      IntroducedBehind(kind, t, a, e, p);
      assert Exact(t, name, Before(a, e, p));
      ExactBehind(t, a, e, ValueAt(kind, Marks(t, a, e), p));
    }
  }

  /** No word is introduced from the quote to the end of a mark that is already there. */
  lemma NothingInMark(t: string, name: string, a: nat, p: nat)
    requires IsName(name) && a + |REDACTED| <= |t| && Edge(t, a, a + |REDACTED|)
    requires Replaced(t, a, a + |REDACTED|, REDACTED) == t && a <= p < a + |REDACTED|
    ensures !Introduces(Named(name), t, p)
  {
    hide Marks, Introduces, Searchable;
    var kind := Named(name);
    MarksIsReplaced(t, a, a + |REDACTED|);
    if Introduces(kind, t, p) {
      WordsAreSearchable(kind);
      IntroducedAt(kind, t, p);
      NameIsSome(name);
      WordMoved(t, a, a + |REDACTED|, name, p);
      NothingInsideMark(kind, t, a, a + |REDACTED|, p);
    }
  }

  lemma NameIsSome(name: string)
    requires IsName(name)
    ensures |name| > 0
  {}

  ghost predicate AnyLoud(t: string, name: string, at: nat) { exists p: nat :: p >= at && Loud(t, name, p) }

  lemma {:induction false} TwiceGrows(t: string, name: string, at: nat)
    requires IsName(name) && at <= |t| && Progresses(Decide(Named(name)))
    requires forall p: nat :: p >= at ==> Exact(t, name, p)
    ensures |Pass(Decide(Named(name)), REDACTED, t, at)| >= |t| + if AnyLoud(t, name, at) then 1 else 0
    decreases |t| - at
  {
    hide Pass, DecideNamed, IsName, Exact, Loud, AnyLoud, Replaced, Introduces, ValueAt, ExactValue, DecideValue;
    PassStep(Decide(Named(name)), REDACTED, t, at);
    match DecideNamed(t, name, at)
    case Done => LoudLater(t, name, at);
    case Skip(next) =>
      LoudLater(t, name, at);
      TwiceGrows(t, name, next);
    case Replace(a, e) =>
      var q := HitOf(t, name, at, a, e);
      var v := ValueAt(Named(name), t, q);
      ExactMeans(t, name, q);
      ExactReplaced(t, v, a, e);
      EdgeOf(t, name, at, a, e);
      var after := Replaced(t, a, e, REDACTED);
      if IsQuote(t[v]) {
        LoudBehind(t, name, at, a, q);
        TwiceGrows(t, name, a + |REDACTED|);
      } else {
        MarksIsReplaced(t, a, e);
        ReplacedLength(t, a, e, REDACTED);
        forall p: nat | p >= a + |REDACTED|
          ensures Exact(after, name, p)
        {
          StaysExactBehind(t, name, a, e, p);
        }
        TwiceGrows(after, name, a + |REDACTED|);
      }
  }

  lemma EdgeOf(t: string, name: string, at: nat, a: nat, e: nat)
    requires IsName(name) && at <= |t| && DecideNamed(t, name, at) == Replace(a, e)
    ensures Edge(t, a, e)
  {
    NamedSettles(name, t, at);
  }

  lemma ExactMeans(t: string, name: string, q: nat)
    requires Exact(t, name, q) && Introduces(Named(name), t, q)
    ensures ExactValue(t, ValueAt(Named(name), t, q))
  {}

  lemma LoudLater(t: string, name: string, at: nat)
    requires IsName(name) && !DecideNamed(t, name, at).Replace? && Allowed(t, at, DecideNamed(t, name, at))
    requires forall p: nat :: p >= at ==> Exact(t, name, p)
    ensures DecideNamed(t, name, at).Done? ==> !AnyLoud(t, name, at)
    ensures DecideNamed(t, name, at).Skip? && AnyLoud(t, name, at) ==> AnyLoud(t, name, DecideNamed(t, name, at).next)
  {
    hide DecideNamed, IsName, Exact;
    if AnyLoud(t, name, at) {
      var p: nat :| p >= at && Loud(t, name, p);
      IntroducedAt(Named(name), t, p);
      if p < Upto(t, DecideNamed(t, name, at)) {
        SettledIsExact(t, name, at, p);
      }
    }
  }

  lemma LoudBehind(t: string, name: string, at: nat, a: nat, q: nat)
    requires IsName(name) && FindWord(t, name, at) == Some(q) && Introduces(Named(name), t, q)
    requires var v := ValueAt(Named(name), t, q); v < |t| && IsQuote(t[v]) && a == v + 1
    requires a + |REDACTED| <= |t| && Edge(t, a, a + |REDACTED|) && Replaced(t, a, a + |REDACTED|, REDACTED) == t
    requires DecideNamed(t, name, at) == Replace(a, a + |REDACTED|)
    ensures AnyLoud(t, name, at) ==> AnyLoud(t, name, a + |REDACTED|)
  {
    hide DecideNamed, IsName, Introduces, ValueAt, Edge, Replaced;
    if AnyLoud(t, name, at) {
      var p: nat :| p >= at && Loud(t, name, p);
      if p < a {
        NamedHits(t, name, at, p);
      } else if p < a + |REDACTED| {
        NothingInMark(t, name, a, p);
      }
    }
  }

  // ----- what the first redaction comes upon

  /** Not the inside of quotes. */
  predicate Unquoted(t: string, r: Range)
    requires r.from <= |t|
  {
    r.from == 0 || !IsQuote(t[r.from - 1])
  }

  ghost predicate AnyUnquoted(t: string, cuts: seq<Range>) { exists r :: r in cuts && r.from <= |t| && Unquoted(t, r) }

  lemma UnquotedFirst(t: string, first: Range, rest: seq<Range>)
    requires first.from <= |t|
    ensures AnyUnquoted(t, [first] + rest) <==> Unquoted(t, first) || AnyUnquoted(t, rest)
  {
    hide Unquoted;
    var cuts := [first] + rest;
    assert first in cuts && forall r :: r in rest ==> r in cuts;
  }

  lemma {:induction false} UnquotedInBoth(name: string, t: string, i: nat, u: string, j: nat)
    requires IsName(name) && Progresses(Decide(Named(name))) && Alike(Decide(Named(name)), t, i, u, j)
    ensures i <= |t| && j <= |u|
    ensures AnyUnquoted(t, Cuts(Decide(Named(name)), t, i)) <==> AnyUnquoted(u, Cuts(Decide(Named(name)), u, j))
    decreases |t| - i
  {
    hide Cuts, Alike, Decide, AnyUnquoted, Edge, Gives;
    var decide := Decide(Named(name));
    AlikeAgree(decide, t, i, u, j);
    AlikeAt(decide, t, i, u, j, i);
    CutsStep(decide, t, i);
    CutsStep(decide, u, j);
    DecisionSettles(Named(name), t, i);
    match decide(t, i)
    case Done => NothingUnquoted(t, u);
    case Skip(next) =>
      AlikeAt(decide, t, i, u, j, next);
      UnquotedInBoth(name, t, next, u, next - i + j);
    case Replace(a, e) =>
      AlikeAt(decide, t, i, u, j, e);
      UnquotedInBoth(name, t, e, u, e - i + j);
      NameIsSome(name);
      AgreeAt(t, i, u, j, a - 1);
      UnquotedFirst(t, Range(a, e), Cuts(decide, t, e));
      UnquotedFirst(u, Range(a - i + j, e - i + j), Cuts(decide, u, e - i + j));
  }

  lemma NothingUnquoted(t: string, u: string)
    ensures !AnyUnquoted(t, []) && !AnyUnquoted(u, [])
  {}

  ghost predicate LoudBelow(t: string, name: string, at: nat) { exists p: nat :: p < at && Loud(t, name, p) }

  /** The value of a word in front of the replaced one stays where it is. */
  lemma StaysIntroduced(t: string, name: string, a: nat, e: nat, p: nat)
    requires Edge(t, a, e) && Introduces(Named(name), t, p) && ValueAt(Named(name), t, p) < a
    ensures Introduces(Named(name), Marks(t, a, e), p)
    ensures ValueAt(Named(name), Marks(t, a, e), p) == ValueAt(Named(name), t, p)
  {
    hide Marks, IsIdentifier, IsSpace, IsSeparator, SkipWhile, At;
    NameStays(t, name, a, e, p);
    SeparatorStays(t, a, e, p + |name|);
    SkipBefore(t, a, e, AfterName(t, p + |name|) + 1, IsSpace);
  }

  lemma NameStays(t: string, name: string, a: nat, e: nat, p: nat)
    requires a <= e <= |t| && Delimited(t, name, p) && p + |name| < a
    ensures Delimited(Marks(t, a, e), name, p)
  {
    hide Marks, IsIdentifier;
    MarksAt(t, a, e);
  }

  lemma SeparatorStays(t: string, a: nat, e: nat, end: nat)
    requires a <= e <= |t| && end <= |t| && AfterName(t, end) < a
    ensures end <= |Marks(t, a, e)| && AfterName(Marks(t, a, e), end) == AfterName(t, end)
    ensures AfterName(t, end) < |Marks(t, a, e)| && Marks(t, a, e)[AfterName(t, end)] == t[AfterName(t, end)]
  {
    hide Marks, SkipWhile;
    MarksAt(t, a, e);
    SkipBefore(t, a, e, if end < |t| && IsQuote(t[end]) then end + 1 else end, IsSpace);
  }

  /** An unquoted value that is replaced stays unquoted. */
  lemma OwnIsLoud(t: string, name: string, a: nat, e: nat, q: nat)
    requires Edge(t, a, e) && Introduces(Named(name), t, q) && ValueAt(Named(name), t, q) == a
    ensures Loud(Marks(t, a, e), name, q)
  {
    hide Marks, IsIdentifier, IsSpace, IsSeparator, SkipWhile, At;
    NameStays(t, name, a, e, q);
    SeparatorStays(t, a, e, q + |name|);
    BracketIsNoSpace();
    SkipBefore(t, a, e, AfterName(t, q + |name|) + 1, IsSpace);
    MarksChar(t, a, e, a);
  }

  /** In front of the end of the mark, unquoted values are those that were in front of the search, and the replaced one. */
  lemma LoudAfter(t: string, name: string, at: nat, a: nat, e: nat, p: nat)
    requires IsName(name) && at <= |t| && DecideNamed(t, name, at) == Replace(a, e) && a <= e <= |t| && Edge(t, a, e)
    requires p < a + |REDACTED| && Loud(Marks(t, a, e), name, p)
    ensures Unquoted(t, Range(a, e)) || LoudBelow(t, name, at)
  {
    hide Marks, Introduces, ValueAt, DecideNamed, IsIdentifier, Searchable, DecideValue, Leads;
    var kind := Named(name);
    WordsAreSearchable(kind);
    IntroducedAt(kind, Marks(t, a, e), p);
    WordMoved(t, a, e, name, p);
    if p + |name| <= a {
      IntroducedBefore(kind, t, a, e, p);
      var q := HitOf(t, name, at, a, e);
      ValueRange(t, ValueAt(kind, t, q), a, e);
      MarksChar(t, a, e, ValueAt(kind, Marks(t, a, e), p));
      if p >= at {
        NamedHits(t, name, at, p);
        UnquotedValue(t, name, q);
      } else {
        ValueBeforeNext(t, name, p, q);
        assert Loud(t, name, p);
      }
    } else {
      NothingInsideMark(kind, t, a, e, p);
    }
  }

  lemma UnquotedValue(t: string, name: string, q: nat)
    requires Introduces(Named(name), t, q)
    ensures var v := ValueAt(Named(name), t, q); 0 < v <= |t| && !IsQuote(t[v - 1])
  {
    hide IsIdentifier;
  }

  lemma LoudBelowKept(t: string, name: string, at: nat, a: nat, e: nat)
    requires IsName(name) && at <= |t| && DecideNamed(t, name, at) == Replace(a, e) && a <= e <= |t| && Edge(t, a, e)
    ensures LoudBelow(t, name, at) || Unquoted(t, Range(a, e)) <==> LoudBelow(Marks(t, a, e), name, a + |REDACTED|)
  {
    hide Marks, Introduces, ValueAt, DecideNamed, IsIdentifier, DecideValue, Edge, Unquoted;
    var q := HitOf(t, name, at, a, e);
    ValueRange(t, ValueAt(Named(name), t, q), a, e);
    if LoudBelow(t, name, at) {
      var p: nat :| p < at && Loud(t, name, p);
      ValueBeforeNext(t, name, p, q);
      StaysIntroduced(t, name, a, e, p);
      MarksChar(t, a, e, ValueAt(Named(name), t, p));
      assert Loud(Marks(t, a, e), name, p);
    }
    if Unquoted(t, Range(a, e)) {
      UnquotedIsAt(t, ValueAt(Named(name), t, q), a, e);
      OwnIsLoud(t, name, a, e, q);
    }
    if LoudBelow(Marks(t, a, e), name, a + |REDACTED|) {
      var p: nat :| p < a + |REDACTED| && Loud(Marks(t, a, e), name, p);
      LoudAfter(t, name, at, a, e, p);
    }
  }

  lemma UnquotedIsAt(t: string, v: nat, a: nat, e: nat)
    requires v < |t| && a <= |t| && Unquoted(t, Range(a, e)) && (if IsQuote(t[v]) then a == v + 1 else a == v)
    ensures v == a
  {}

  /** Unquoted values are in the result for those in front of the search and for the unquoted ones it comes upon. */
  lemma {:induction false} PassLeavesLoud(t: string, name: string, at: nat)
    requires IsName(name) && at <= |t| && Progresses(Decide(Named(name)))
    ensures AnyLoud(Pass(Decide(Named(name)), REDACTED, t, at), name, 0)
       <==> LoudBelow(t, name, at) || AnyUnquoted(t, Cuts(Decide(Named(name)), t, at))
    decreases |t| - at
  {
    hide Pass, Cuts, DecideNamed, IsName, Loud, AnyUnquoted, Marks, Unquoted;
    var decide := Decide(Named(name));
    PassStep(decide, REDACTED, t, at);
    CutsStep(decide, t, at);
    match DecideNamed(t, name, at)
    case Done =>
      NothingUnquoted(t, t);
      LoudBelowSkip(t, name, at, |t| + 1);
      NoneBehind(t, name);
    case Skip(next) =>
      LoudBelowSkip(t, name, at, next);
      PassLeavesLoud(t, name, next);
    case Replace(a, e) =>
      var after := Replaced(t, a, e, REDACTED);
      ReplacedLength(t, a, e, REDACTED);
      EdgeOf(t, name, at, a, e);
      LoudBelowKept(t, name, at, a, e);
      MarksIsReplaced(t, a, e);
      PassLeavesLoud(after, name, a + |REDACTED|);
      ReplacedAlike(name, t, a, e);
      UnquotedInBoth(name, t, e, after, a + |REDACTED|);
      UnquotedFirst(t, Range(a, e), Cuts(decide, t, e));
  }

  lemma ReplacedAlike(name: string, t: string, a: nat, e: nat)
    requires IsName(name) && Edge(t, a, e)
    ensures Alike(Decide(Named(name)), t, e, Replaced(t, a, e, REDACTED), a + |REDACTED|)
  {
    hide ValidKind, Decide, Alike;
    ReplacementIsUntouched(Named(name), t, a, e);
  }

  lemma NoneBehind(t: string, name: string)
    ensures IsName(name) ==> (AnyLoud(t, name, 0) <==> LoudBelow(t, name, |t| + 1))
  {
    hide Introduces, ValueAt;
    forall p: nat | Loud(t, name, p)
      ensures p < |t| + 1
    {
      IntroducedAt(Named(name), t, p);
    }
  }

  lemma LoudBelowSkip(t: string, name: string, at: nat, next: nat)
    requires IsName(name) && at <= next && !DecideNamed(t, name, at).Replace?
    requires DecideNamed(t, name, at).Done? || next <= Upto(t, DecideNamed(t, name, at))
    ensures LoudBelow(t, name, at) <==> LoudBelow(t, name, next)
  {
    hide DecideNamed, IsName, Introduces, ValueAt;
    forall p: nat | at <= p < next
      ensures !Loud(t, name, p)
    {
      SettledIsNotLoud(t, name, at, p);
    }
  }

  lemma SettledIsNotLoud(t: string, name: string, at: nat, p: nat)
    requires IsName(name) && at <= p && !DecideNamed(t, name, at).Replace?
    requires DecideNamed(t, name, at).Done? || p < Upto(t, DecideNamed(t, name, at))
    ensures !Loud(t, name, p)
  {
    SettledIsExact(t, name, at, p);
  }

  /** Redacting a named value again changes nothing if and only if the first search of the text comes upon no unquoted
      value, empty ones apart. */
  lemma RedactTwiceIff(t: string, name: string)
    requires IsName(name)
    ensures Progresses(Decide(Named(name)))
    ensures RedactKind(Named(name), RedactKind(Named(name), t)) == RedactKind(Named(name), t)
       <==> forall r :: r in Cuts(Decide(Named(name)), t, 0) ==> 0 < r.from <= |t| && IsQuote(t[r.from - 1])
  {
    hide Pass, Exact, Loud, ValidKind, Cuts;
    KindProgresses(Named(name));
    PassIsExact(t, name, 0);
    PassLeavesLoud(t, name, 0);
    AllQuoted(t, name);
    var once := RedactKind(Named(name), t);
    if forall p: nat :: !Loud(once, name, p) {
      TwiceIsSame(once, name, 0);
    } else {
      TwiceGrows(once, name, 0);
    }
  }

  lemma AllQuoted(t: string, name: string)
    requires IsName(name) && Progresses(Decide(Named(name)))
    ensures !AnyUnquoted(t, Cuts(Decide(Named(name)), t, 0))
       <==> forall r :: r in Cuts(Decide(Named(name)), t, 0) ==> 0 < r.from <= |t| && IsQuote(t[r.from - 1])
  {
    hide Cuts, Gives, Decide;
    CutsInText(Decide(Named(name)), t, 0);
  }

  // ----- an example

  lemma PwdDecided()
    ensures DecideNamed("pwd=x", "pwd", 0) == Replace(4, 5)
    ensures DecideNamed("pwd=[REDACTED]", "pwd", 0) == Replace(4, 13)
  {
    hide DecideNamed;
    PwdAt("pwd=x", 5);
    PwdAt("pwd=[REDACTED]", 13);
  }

  lemma PwdEnds()
    ensures DecideNamed("pwd=[REDACTED]", "pwd", 14) == Done
    ensures DecideNamed("pwd=[REDACTED]]", "pwd", 14) == Done
  {}

  lemma PwdAt(t: string, stop: nat)
    requires |t| > 4 && t[0] == 'p' && t[1] == 'w' && t[2] == 'd' && t[3] == '='
    requires 4 < stop <= |t| && (forall k :: 4 <= k < stop ==> !IsTerminator(t[k])) && (stop < |t| ==> IsTerminator(t[stop]))
    ensures DecideNamed(t, "pwd", 0) == Replace(4, stop)
  {
    hide SkipWhile, FindWord;
    PwdFirst(t);
    assert !IsTerminator(t[4]);
    SkipIs(t, 3, IsSpace, 3);
    SkipIs(t, 4, IsSpace, 4);
    SkipIs(t, 4, Not(IsTerminator), stop);
  }

  lemma PwdFirst(t: string)
    requires |t| > 4 && t[0] == 'p' && t[1] == 'w' && t[2] == 'd'
    ensures FindWord(t, "pwd", 0) == Some(0)
  {
    assert At(t, "pwd", 0);
  }

  /** An unquoted value grows by a bracket when it is redacted again. */
  lemma PwdGrows()
    ensures IsName("pwd")
    ensures RedactKind(Named("pwd"), "pwd=x") == "pwd=[REDACTED]"
    ensures RedactKind(Named("pwd"), "pwd=[REDACTED]") == "pwd=[REDACTED]]"
  {
    hide Pass, DecideNamed, ValidKind;
    PasswordNamesAreValid(2);
    var kind := Named("pwd");
    KindProgresses(kind);
    PwdDecided();
    PwdEnds();
    PassStep(Decide(kind), REDACTED, "pwd=x", 0);
    assert Replaced("pwd=x", 4, 5, REDACTED) == "pwd=[REDACTED]";
    PassStep(Decide(kind), REDACTED, "pwd=[REDACTED]", 14);
    PassStep(Decide(kind), REDACTED, "pwd=[REDACTED]", 0);
    assert Replaced("pwd=[REDACTED]", 4, 13, REDACTED) == "pwd=[REDACTED]]";
    PassStep(Decide(kind), REDACTED, "pwd=[REDACTED]]", 14);
  }
}
