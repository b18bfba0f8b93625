/** Guards on a text: when the whole redaction shows no private-key header, and no user information. */
module RedactionGuards {
  import opened Text
  import opened RedactionPass
  import opened BlockRedaction
  import opened UserinfoRedaction
  import opened Redaction
  import opened RedactionRuns
  import opened RedactedRanges
  import opened RedactedKinds
  import RedactionTrace
  import opened WholeRedaction

  // ----- what every replacement keeps

  ghost predicate KeptBy(t: string, a: nat, e: nat, holds: string -> bool) {
    a <= e <= |t| && holds(Marks(t, a, e))
  }

  ghost predicate Keeps(decide: Decider, holds: string -> bool) {
    forall t: string, at: nat :: at <= |t| && holds(t) && decide(t, at).Replace? ==>
      KeptBy(t, decide(t, at).from, decide(t, at).to, holds)
  }

  lemma {:induction false} PassKeeps(decide: Decider, t: string, at: nat, holds: string -> bool)
    requires Progresses(decide) && Keeps(decide, holds) && at <= |t| && holds(t)
    ensures holds(Pass(decide, REDACTED, t, at))
    decreases |t| - at
  {
    hide Pass, Replaced;
    PassStep(decide, REDACTED, t, at);
    match decide(t, at)
    case Done =>
    case Skip(next) => PassKeeps(decide, t, next, holds);
    case Replace(a, e) =>
      ReplacedLength(t, a, e, REDACTED);
      assert KeptBy(t, decide(t, at).from, decide(t, at).to, holds);
      PassKeeps(decide, Replaced(t, a, e, REDACTED), a + |REDACTED|, holds);
  }

  lemma {:induction false} KindsKeep(kinds: seq<Kind>, t: string, holds: string -> bool)
    requires forall i :: 0 <= i < |kinds| ==> ValidKind(kinds[i]) && Keeps(Decide(kinds[i]), holds)
    requires holds(t)
    ensures holds(RedactKinds(kinds, t))
    decreases |kinds|
  {
    hide ValidKind, Keeps, Pass, Decide;
    if kinds != [] {
      var n := |kinds| - 1;
      KindsKeep(kinds[..n], t, holds);
      KindProgresses(kinds[n]);
      PassKeeps(Decide(kinds[n]), RedactKinds(kinds[..n], t), 0, holds);
    }
  }

  lemma LaterPassesKeep(u: string, holds: string -> bool)
    requires Progresses(UserinfoDecider()) && holds(Pass(UserinfoDecider(), REDACTED, u, 0))
    requires forall kind :: kind in KINDS ==> Keeps(Decide(kind), holds)
    requires forall i :: 0 <= i < |KINDS| ==> ValidKind(KINDS[i])
    ensures holds(RedactKinds(KINDS, Pass(UserinfoDecider(), REDACTED, u, 0)))
  {
    hide ValidKind, Keeps, Pass, Decide, KindsOf;
    KindsKeep(KINDS, Pass(UserinfoDecider(), REDACTED, u, 0), holds);
  }

  /** The value of a word of the kind is replaced. */
  ghost predicate ValueReplaced(kind: Kind, t: string, q: nat, a: nat, e: nat) {
    Edge(t, a, e) && Gives(kind, t, q, Range(a, e)) && q + |kind.word| <= a && RedactionTrace.Fine(t, RedactionTrace.Edit(a, e))
  }

  lemma KindReplaces(kind: Kind, t: string, at: nat) returns (q: nat)
    requires ValidKind(kind) && at <= |t| && Decide(kind)(t, at).Replace?
    ensures ValueReplaced(kind, t, q, Decide(kind)(t, at).from, Decide(kind)(t, at).to)
  {
    hide ValidKind, Decide, Edge, Gives, RedactionTrace.Fine;
    DecisionSettles(kind, t, at);
    KindIsFine(kind);
    var d := Decide(kind)(t, at);
    q :| Taken(kind, t, at, q, d.from, d.to);
  }

  lemma UserinfoReplaces(t: string, at: nat) returns (p: nat)
    requires at <= |t| && DecideUserinfo(t, at).Replace?
    ensures IsUserinfo(t, p, Range(DecideUserinfo(t, at).from, DecideUserinfo(t, at).to))
    ensures Edge(t, DecideUserinfo(t, at).from, DecideUserinfo(t, at).to)
  {
    hide OccursAt, FindFrom, SkipWhile;
    p := FindFrom(t, SCHEME_END, at).value;
    FitsInText(t, at, p);
    SeparatorChars(t, p);
  }

  // ----- line feeds that stay

  /** The word introduces a quoted value that begins in front of `k`. */
  predicate QuotesBefore(kind: Kind, t: string, p: nat, k: nat) {
    && kind.Named? && Introduces(kind, t, p)
    && ValueAt(kind, t, p) < k && ValueAt(kind, t, p) < |t| && IsQuote(t[ValueAt(kind, t, p)])
  }

  /** A line feed with no quoted value in front of it. */
  ghost predicate PlainFeed(kinds: seq<Kind>, t: string, k: nat) {
    k < |t| && t[k] == '\n' && forall kind, p: nat :: kind in kinds ==> !QuotesBefore(kind, t, p, k)
  }

  /** Such a line feed stands between every begin of a block and every private-key text behind it. */
  ghost predicate Apart(kinds: seq<Kind>, t: string) {
    forall p: nat, q: nat :: At(t, BEGIN, p) && At(t, PRIVATE, q) && p + |BEGIN| <= q ==> FeedBetween(kinds, t, p, q)
  }

  ghost predicate FeedBetween(kinds: seq<Kind>, t: string, p: nat, q: nat) {
    exists k: nat :: p + |BEGIN| <= k < q && PlainFeed(kinds, t, k)
  }

  function Shifted(a: nat, e: nat, k: nat): nat
    requires k < a || e <= k
  {
    if k < a then k else k - e + a + |REDACTED|
  }

  lemma QuotesBeforeMoved(kind: Kind, t: string, a: nat, e: nat, p: nat, k: nat) returns (p': nat)
    requires ValidKind(kind) && Edge(t, a, e) && (k < a || e <= k)
    requires QuotesBefore(kind, Marks(t, a, e), p, Shifted(a, e, k))
    ensures QuotesBefore(kind, t, p', k)
  {
    hide Marks, Introduces, ValueAt, IsIdentifier, Searchable, ValidKind, Leads;
    var after := Marks(t, a, e);
    var v := ValueAt(kind, after, p);
    WordsAreSearchable(kind);
    IntroducedAt(kind, after, p);
    WordMoved(t, a, e, kind.word, p);
    MarksChar(t, a, e, v);
    if p + |kind.word| <= a {
      IntroducedBefore(kind, t, a, e, p);
      p' := p;
    } else if p > a + |REDACTED| {
      IntroducedBehind(kind, t, a, e, p);
      p' := Before(a, e, p);
    } else {
      NothingInsideMark(kind, t, a, e, p);
    }
  }

  lemma PlainFeedKept(kinds: seq<Kind>, t: string, a: nat, e: nat, k: nat)
    requires forall i :: 0 <= i < |kinds| ==> ValidKind(kinds[i])
    requires Edge(t, a, e) && PlainFeed(kinds, t, k) && (k < a || e <= k)
    ensures PlainFeed(kinds, Marks(t, a, e), Shifted(a, e, k))
  {
    hide Marks, QuotesBefore, Edge, ValidKind;
    assert a <= e <= |t| by {
      EdgeInText(t, a, e);
    }
    MarksAt(t, a, e);
    forall kind, p: nat | kind in kinds
      ensures !QuotesBefore(kind, Marks(t, a, e), p, Shifted(a, e, k))
    {
      if QuotesBefore(kind, Marks(t, a, e), p, Shifted(a, e, k)) {
        var p' := QuotesBeforeMoved(kind, t, a, e, p, k);
      }
    }
  }

  lemma EdgeInText(t: string, a: nat, e: nat)
    requires Edge(t, a, e)
    ensures 0 < a <= e <= |t|
  {}

  lemma WordsOfHeader()
    ensures RedactionTrace.Foreign(BEGIN) && RedactionTrace.Foreign(PRIVATE)
  {}

  lemma ApartKept(kinds: seq<Kind>, t: string, a: nat, e: nat)
    requires forall i :: 0 <= i < |kinds| ==> ValidKind(kinds[i])
    requires Edge(t, a, e) && RedactionTrace.Fine(t, RedactionTrace.Edit(a, e)) && Apart(kinds, t)
    requires forall k: nat :: a <= k < e ==> !PlainFeed(kinds, t, k)
    ensures Apart(kinds, Marks(t, a, e))
  {
    hide Marks, ValidKind, Edge, At, PlainFeed, RedactionTrace.Fine, RedactionTrace.Foreign;
    WordsOfHeader();
    EdgeInText(t, a, e);
    var edit, after := RedactionTrace.Edit(a, e), Marks(t, a, e);
    AfterIsMarks(t, a, e);
    forall p: nat, q: nat | At(after, BEGIN, p) && At(after, PRIVATE, q) && p + |BEGIN| <= q
      ensures FeedBetween(kinds, after, p, q)
    {
      RedactionTrace.WordMoved(t, edit, BEGIN, p);
      RedactionTrace.WordMoved(t, edit, PRIVATE, q);
      var p', q' := RedactionTrace.MovedFrom(edit, p), RedactionTrace.MovedFrom(edit, q);
      assert FeedBetween(kinds, t, p', q');
      var k: nat :| p' + |BEGIN| <= k < q' && PlainFeed(kinds, t, k);
      PlainFeedKept(kinds, t, a, e, k);
      assert p + |BEGIN| <= Shifted(a, e, k) < q;
    }
  }

  lemma AfterIsMarks(t: string, a: nat, e: nat)
    requires RedactionTrace.Fine(t, RedactionTrace.Edit(a, e))
    ensures a <= e <= |t| && RedactionTrace.After(t, RedactionTrace.Edit(a, e)) == Marks(t, a, e)
  {}

  /** Only a quoted value takes a line feed. */
  lemma UnquotedIsOneLine(kind: Kind, t: string, q: nat)
    requires Introduces(kind, t, q)
    requires var v := ValueAt(kind, t, q); kind.Named? && v < |t| ==> !IsQuote(t[v])
    ensures var r := ValueOf(kind, t, q); forall k :: r.from <= k < r.to ==> t[k] != '\n'
  {
    hide Introduces, ValueAt;
    var v := ValueAt(kind, t, q);
    assert IsTerminator('\n') && EndsScheme('\n') && !InLine('\n');
    StopsAtFeed(t, v, Not(IsTerminator));
    StopsAtFeed(t, v, Not(EndsScheme));
    StopsAtFeed(t, v, InLine);
  }

  lemma StopsAtFeed(t: string, i: nat, test: char -> bool)
    requires i <= |t| && !test('\n')
    ensures forall k :: i <= k < SkipWhile(t, i, test) ==> t[k] != '\n'
  {}

  lemma ValueTakesNoFeed(kinds: seq<Kind>, kind: Kind, t: string, q: nat, a: nat, e: nat, k: nat)
    requires kind in kinds && ValueReplaced(kind, t, q, a, e) && PlainFeed(kinds, t, k)
    ensures k < a || e <= k
  {
    hide Introduces, ValueAt, Edge, RedactionTrace.Fine;
    GivenValue(kind, t, q, Range(a, e));
    if a <= k < e {
      assert !QuotesBefore(kind, t, q, k);
      UnquotedIsOneLine(kind, t, q);
      assert false;
    }
  }

  lemma UserinfoTakesNoFeed(t: string, p: nat, a: nat, e: nat, k: nat)
    requires IsUserinfo(t, p, Range(a, e)) && a <= k < e
    ensures t[k] != '\n'
  {
    hide OccursAt;
  }

  lemma KindKeepsApart(kinds: seq<Kind>, kind: Kind)
    requires kind in kinds && forall i :: 0 <= i < |kinds| ==> ValidKind(kinds[i])
    ensures Keeps(Decide(kind), t => Apart(kinds, t))
  {
    hide ValidKind, Decide, Apart, PlainFeed, Gives, Edge;
    forall t: string, at: nat | at <= |t| && Apart(kinds, t) && Decide(kind)(t, at).Replace?
      ensures KeptBy(t, Decide(kind)(t, at).from, Decide(kind)(t, at).to, t => Apart(kinds, t))
    {
      var a, e := Decide(kind)(t, at).from, Decide(kind)(t, at).to;
      var q := KindReplaces(kind, t, at);
      EdgeInText(t, a, e);
      forall k: nat | a <= k < e
        ensures !PlainFeed(kinds, t, k)
      {
        if PlainFeed(kinds, t, k) {
          ValueTakesNoFeed(kinds, kind, t, q, a, e, k);
        }
      }
      ApartKept(kinds, t, a, e);
    }
  }

  lemma UserinfoKeepsApart(kinds: seq<Kind>)
    requires forall i :: 0 <= i < |kinds| ==> ValidKind(kinds[i])
    ensures Keeps(UserinfoDecider(), t => Apart(kinds, t))
  {
    hide ValidKind, DecideUserinfo, Apart, Edge;
    UserinfoIsFine();
    forall t: string, at: nat | at <= |t| && Apart(kinds, t) && DecideUserinfo(t, at).Replace?
      ensures KeptBy(t, DecideUserinfo(t, at).from, DecideUserinfo(t, at).to, t => Apart(kinds, t))
    {
      var a, e := DecideUserinfo(t, at).from, DecideUserinfo(t, at).to;
      var p := UserinfoReplaces(t, at);
      EdgeInText(t, a, e);
      forall k: nat | a <= k < e
        ensures !PlainFeed(kinds, t, k)
      {
        UserinfoTakesNoFeed(t, p, a, e, k);
      }
      assert UserinfoDecider()(t, at) == DecideUserinfo(t, at);
      ApartKept(kinds, t, a, e);
    }
  }

  lemma ApartIsHarmless(kinds: seq<Kind>, t: string)
    requires Apart(kinds, t)
    ensures !HeaderLeft(t)
  {
    hide At, QuotesBefore;
    if p: nat :| !Harmless(t, p) {
      var q :| p <= q && q + |PRIVATE| <= LineEnd(t, p) && At(t, PRIVATE, q);
      if q < p + |BEGIN| {
        CharAt(t, PRIVATE, q, 0);
        CharAt(t, BEGIN, p, q - p);
      }
      assert FeedBetween(kinds, t, p, q);
    }
  }

  /** No header is left when, once the keys are removed, a line feed with no quoted value in front of it stands between
      each begin of a block and each private-key text behind it. */
  lemma ApartShowsNoHeader(t: string)
    requires Apart(KINDS, KeysRemoved(t))
    ensures !HeaderLeft(RedactSensitiveText(t))
  {
    hide KeysRemoved, ValidKind, Apart, Keeps, Pass, RedactKinds, HeaderLeft, KindsOf, Decide;
    ValidKinds();
    KeysProgress();
    UserinfoProgresses();
    UserinfoKeepsApart(KINDS);
    forall kind | kind in KINDS
      ensures Keeps(Decide(kind), t => Apart(KINDS, t))
    {
      KindKeepsApart(KINDS, kind);
    }
    PassKeeps(UserinfoDecider(), KeysRemoved(t), 0, t => Apart(KINDS, t));
    LaterPassesKeep(KeysRemoved(t), t => Apart(KINDS, t));
    ApartIsHarmless(KINDS, RedactSensitiveText(t));
  }

  /** In particular when no line feed follows a quote in the text itself. */
  ghost predicate FeedsFirst(t: string) { forall i, k :: 0 <= i < k < |t| && IsQuote(t[i]) ==> t[k] != '\n' }

  lemma FeedsFirstKept(t: string, a: nat, e: nat)
    requires a <= e <= |t| && FeedsFirst(t)
    ensures FeedsFirst(Replaced(t, a, e, REDACTED_PRIVATE_KEY))
  {
    hide Replaced;
    var after, next := Replaced(t, a, e, REDACTED_PRIVATE_KEY), a + |REDACTED_PRIVATE_KEY|;
    ReplacedParts(t, a, e, REDACTED_PRIVATE_KEY);
    KeyMarkIsPlain(after, a);
    forall i, k | 0 <= i < k < |after| && IsQuote(after[i])
      ensures after[k] != '\n'
    {
      if i < a {
        assert after[i] == after[..a][i] == t[i];
      }
      if k < a {
        assert after[k] == after[..a][k] == t[k];
      }
    }
  }

  lemma KeyMarkIsPlain(t: string, a: nat)
    requires a + |REDACTED_PRIVATE_KEY| <= |t| && t[a..a + |REDACTED_PRIVATE_KEY|] == REDACTED_PRIVATE_KEY
    ensures forall k :: a <= k < a + |REDACTED_PRIVATE_KEY| ==> !IsQuote(t[k]) && t[k] != '\n'
  {
    forall k | a <= k < a + |REDACTED_PRIVATE_KEY|
      ensures !IsQuote(t[k]) && t[k] != '\n'
    {
      assert t[k] == t[a..a + |REDACTED_PRIVATE_KEY|][k - a] == REDACTED_PRIVATE_KEY[k - a];
    }
  }

  lemma {:induction false} KeysKeepFeedsFirst(t: string, at: nat)
    requires at <= |t| && Progresses(PrivateKeyDecider()) && FeedsFirst(t)
    ensures FeedsFirst(Pass(PrivateKeyDecider(), REDACTED_PRIVATE_KEY, t, at))
    decreases |t| - at
  {
    hide Pass, Replaced, FeedsFirst, DecidePrivateKey;
    PassStep(PrivateKeyDecider(), REDACTED_PRIVATE_KEY, t, at);
    match DecidePrivateKey(t, at)
    case Done =>
    case Skip(next) => KeysKeepFeedsFirst(t, next);
    case Replace(a, e) =>
      ReplacedLength(t, a, e, REDACTED_PRIVATE_KEY);
      FeedsFirstKept(t, a, e);
      KeysKeepFeedsFirst(Replaced(t, a, e, REDACTED_PRIVATE_KEY), a + |REDACTED_PRIVATE_KEY|);
  }

  /** A harmless text without quoted values in front of its line feeds is apart. */
  lemma PlainFeedsAreApart(kinds: seq<Kind>, t: string)
    requires !HeaderLeft(t) && forall k: nat :: k < |t| && t[k] == '\n' ==> PlainFeed(kinds, t, k)
    ensures Apart(kinds, t)
  {
    hide At, PlainFeed;
    forall p: nat, q: nat | At(t, BEGIN, p) && At(t, PRIVATE, q) && p + |BEGIN| <= q
      ensures FeedBetween(kinds, t, p, q)
    {
      assert Harmless(t, p);
      HeaderIsLong(t, p);
      var k := LineEnd(t, p);
      PrivateOnLine(t, p, q);
    }
  }

  lemma PrivateOnLine(t: string, p: nat, q: nat)
    requires At(t, BEGIN, p) && At(t, PRIVATE, q) && p + |BEGIN| <= q && NoKeyOnLine(t, p)
    ensures LineEnd(t, p) < q <= |t|
  {
    var end := LineEnd(t, p);
    if q <= end < q + |PRIVATE| {
      CharAt(t, PRIVATE, q, end - q);
      assert false;
    }
  }

  /** No header is left when no line feed of the text follows a quote. */
  lemma FeedsFirstShowNoHeader(t: string)
    requires FeedsFirst(t)
    ensures !HeaderLeft(RedactSensitiveText(t))
  {
    hide Pass, RedactSensitiveText, Harmless, KindsOf, Introduces, ValueAt;
    KeysProgress();
    KeysKeepFeedsFirst(t, 0);
    NothingLeftYet(t);
    var u := KeysRemoved(t);
    PlainFeedsAreApart(KINDS, u);
    ApartShowsNoHeader(t);
  }

  lemma BlockShowsHeader(t: string, r: Range)
    requires KeyBlock(t, r)
    ensures HeaderLeft(t)
  {
    hide Harmless;
  }

  /** A text is its own text without the keys if and only if it shows no private-key header, so that the guards are then
      about the text itself. */
  lemma KeysRemovedIsSameIff(t: string)
    ensures KeysRemoved(t) == t <==> !HeaderLeft(t)
  {
    hide Pass, Harmless, Filled, KeyBlock;
    NothingLeftYet(t);
    if !HeaderLeft(t) {
      KeysProgress();
      var cuts := KeysAreReplaced(t);
      if cuts != [] {
        BlockShowsHeader(t, cuts[0]);
      }
      NothingFilled(t, 0, t, 0, REDACTED_PRIVATE_KEY);
      assert t[..0] == [];
    }
  }
}
