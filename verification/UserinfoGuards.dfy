/** A guard on a text: when the whole redaction shows no more user information than its own pass leaves. */
module UserinfoGuards {
  import opened Text
  import opened RedactionPass
  import opened BlockRedaction
  import opened UserinfoRedaction
  import opened Redaction
  import opened RedactionRuns
  import opened RedactedRanges
  import opened RedactedKinds
  import RedactionTrace
  import opened WholeRedaction
  import opened RedactionGuards

  ghost predicate SignIn(t: string, from: nat, to: nat)
    requires to <= |t|
  {
    exists k: nat :: from <= k < to && t[k] == '@'
  }

  /** A word that introduces a value stands in the authority of the separator. */
  ghost predicate InsideAuthority(kind: Kind, t: string, p: nat, x: nat) {
    OccursAt(t, SCHEME_END, p) && p < x < AuthorityEnd(t, p) && Introduces(kind, t, x)
  }

  /** The at sign behind such a word, if there is any, is one of the authority. */
  ghost predicate Guarded(kinds: seq<Kind>, t: string) {
    forall kind, p: nat, x: nat :: kind in kinds && InsideAuthority(kind, t, p, x) && SignIn(t, x, |t|) ==>
      SignIn(t, x, AuthorityEnd(t, p))
  }

  /** No at sign follows such a word. */
  ghost predicate Sealed(kinds: seq<Kind>, t: string) {
    forall kind, p: nat, x: nat :: kind in kinds && InsideAuthority(kind, t, p, x) ==> !SignIn(t, x, |t|)
  }

  ghost predicate NoneExposed(t: string) { forall p: nat :: !Exposed(t, p) }

  // ----- separators, words and at signs around a replacement

  lemma SeparatorMoved(t: string, a: nat, e: nat, p: nat)
    requires a <= e <= |t| && OccursAt(Marks(t, a, e), SCHEME_END, p)
    ensures p + 3 <= a || a + |REDACTED| <= p
    ensures p + 3 <= a ==> OccursAt(t, SCHEME_END, p)
    ensures a + |REDACTED| <= p ==> OccursAt(t, SCHEME_END, Before(a, e, p))
  {
    hide Marks;
    var after := Marks(t, a, e);
    MarksAt(t, a, e);
    SeparatorChars(after, p);
    if p + 3 <= a {
      SeparatorAt(t, p);
    } else if a + |REDACTED| <= p {
      SeparatorAt(t, Before(a, e, p));
    } else {
      NoSeparatorInMark(if p < a then 0 else p - a);
      assert false;
    }
  }

  lemma NoSeparatorInMark(k: nat)
    requires k < |REDACTED|
    ensures REDACTED[k] != ':' && REDACTED[k] != '/' && REDACTED[k] != '@' && InAuthority(REDACTED[k])
  {}

  lemma MarkHasNone(t: string, a: nat, e: nat)
    requires a <= e <= |t|
    ensures a + |REDACTED| <= |Marks(t, a, e)|
    ensures forall k :: a <= k < a + |REDACTED| ==> Marks(t, a, e)[k] != '@' && InAuthority(Marks(t, a, e)[k])
  {
    hide Marks;
    MarksAt(t, a, e);
    forall k | a <= k < a + |REDACTED|
      ensures Marks(t, a, e)[k] != '@' && InAuthority(Marks(t, a, e)[k])
    {
      NoSeparatorInMark(k - a);
    }
  }

  /** An at sign behind a place in front of the mark, or behind the mark, was there before. */
  lemma SignMoved(t: string, a: nat, e: nat, x: nat)
    requires a <= e <= |t| && SignIn(Marks(t, a, e), x, |Marks(t, a, e)|)
    ensures x <= a ==> SignIn(t, x, |t|)
    ensures a + |REDACTED| <= x ==> SignIn(t, Before(a, e, x), |t|)
  {
    hide Marks;
    MarksAt(t, a, e);
    MarkHasNone(t, a, e);
    var after := Marks(t, a, e);
    var k: nat :| x <= k < |after| && after[k] == '@';
    if k < a {
      assert t[k] == '@';
    } else {
      assert t[Before(a, e, k)] == '@';
    }
  }

  lemma Authority(t: string, p: nat, n: nat)
    requires p + 3 <= n <= |t| && forall k :: p + 3 <= k < n ==> InAuthority(t[k])
    ensures n <= AuthorityEnd(t, p)
  {}

  lemma BehindAgrees(t: string, a: nat, e: nat)
    requires a <= e <= |t|
    ensures Agree(Marks(t, a, e), a + |REDACTED|, t, e)
  {
    ReplacedParts(t, a, e, REDACTED);
  }

  /** Both behind the replacement, separator and word stand to each other as before. */
  lemma BothBehind(kind: Kind, t: string, a: nat, e: nat, p: nat, x: nat)
    requires ValidKind(kind) && Edge(t, a, e) && InsideAuthority(kind, Marks(t, a, e), p, x) && a + |REDACTED| <= p
    ensures InsideAuthority(kind, t, Before(a, e, p), Before(a, e, x))
    ensures AuthorityEnd(Marks(t, a, e), p) - p == AuthorityEnd(t, Before(a, e, p)) - Before(a, e, p)
    ensures SignIn(t, Before(a, e, x), AuthorityEnd(t, Before(a, e, p)))
        ==> SignIn(Marks(t, a, e), x, AuthorityEnd(Marks(t, a, e), p))
  {
    hide Marks, Introduces, OccursAt, AuthorityEnd, ValidKind;
    EdgeInText(t, a, e);
    var after := Marks(t, a, e);
    SeparatorMoved(t, a, e, p);
    IntroducedBehind(kind, t, a, e, x);
    BehindAgrees(t, a, e);
    OccursInText(after, p);
    AgreeAt(after, a + |REDACTED|, t, e, p);
    AuthorityInBoth(after, p, t, Before(a, e, p));
    if SignIn(t, Before(a, e, x), AuthorityEnd(t, Before(a, e, p))) {
      var k: nat :| Before(a, e, x) <= k < AuthorityEnd(t, Before(a, e, p)) && t[k] == '@';
      AgreeAt(after, a + |REDACTED|, t, e, k - e + a + |REDACTED|);
    }
  }

  lemma OccursInText(t: string, p: nat)
    requires OccursAt(t, SCHEME_END, p)
    ensures p + 3 <= |t|
  {}

  /** A word in front of the replacement is in the same authority as before. */
  lemma WordInFront(kind: Kind, t: string, a: nat, e: nat, p: nat, x: nat)
    requires ValidKind(kind) && Edge(t, a, e) && InsideAuthority(kind, Marks(t, a, e), p, x) && x + |kind.word| <= a
    ensures InsideAuthority(kind, t, p, x)
  {
    hide Marks, Introduces, ValidKind;
    EdgeInText(t, a, e);
    MarksAt(t, a, e);
    WordsAreSearchable(kind);
    SeparatorMoved(t, a, e, p);
    IntroducedBefore(kind, t, a, e, x);
    WordBehindSeparator(kind, t, p, x);
    Authority(t, p, x + 1);
  }

  lemma WordBehindSeparator(kind: Kind, t: string, p: nat, x: nat)
    requires ValidKind(kind) && OccursAt(t, SCHEME_END, p) && Introduces(kind, t, x) && p < x
    ensures p + 3 <= x < |t| && InAuthority(t[x])
  {
    hide Introduces, ValidKind;
    WordsAreSearchable(kind);
    IntroducedAt(kind, t, x);
    CharAt(t, kind.word, x, 0);
    SeparatorChars(t, p);
  }

  /** Where a word stands after a replacement: in front of it or behind the mark. */
  lemma WordAround(kind: Kind, t: string, a: nat, e: nat, x: nat)
    requires ValidKind(kind) && Edge(t, a, e) && Introduces(kind, Marks(t, a, e), x)
    ensures x + |kind.word| <= a || a + |REDACTED| < x
  {
    hide Marks, Introduces, ValidKind;
    WordsAreSearchable(kind);
    IntroducedAt(kind, Marks(t, a, e), x);
    WordMoved(t, a, e, kind.word, x);
    if x == a + 1 && |kind.word| <= 8 {
      NothingInsideMark(kind, t, a, e, x);
    }
  }

  // ----- the replacement of user information

  lemma UserinfoKeepsGuardAt(kinds: seq<Kind>, kind: Kind, t: string, s: nat, a: nat, e: nat, p: nat, x: nat)
    requires kind in kinds && ValidKind(kind) && Guarded(kinds, t) && Edge(t, a, e) && IsUserinfo(t, s, Range(a, e))
    requires InsideAuthority(kind, Marks(t, a, e), p, x) && SignIn(Marks(t, a, e), x, |Marks(t, a, e)|)
    ensures SignIn(Marks(t, a, e), x, AuthorityEnd(Marks(t, a, e), p))
  {
    hide Marks, Introduces, ValidKind, Guarded, OccursAt, AuthorityEnd, Edge;
    EdgeInText(t, a, e);
    var after := Marks(t, a, e);
    SignMoved(t, a, e, x);
    SeparatorMoved(t, a, e, p);
    WordAround(kind, t, a, e, x);
    if x + |kind.word| <= a {
      WordInFront(kind, t, a, e, p, x);
      GuardAt(kinds, kind, t, p, x);
      WordBehindSeparator(kind, t, p, x);
      SignStays(t, s, a, e, p, x);
    } else if a + |REDACTED| <= p {
      BothBehind(kind, t, a, e, p, x);
      GuardAt(kinds, kind, t, Before(a, e, p), Before(a, e, x));
    } else {
      IntroducedBehind(kind, t, a, e, x);
      AroundMark(t, s, a, e, p, x);
      GuardAt(kinds, kind, t, p, Before(a, e, x));
      SignBehind(t, a, e, p, x);
    }
  }

  lemma GuardAt(kinds: seq<Kind>, kind: Kind, t: string, p: nat, x: nat)
    requires kind in kinds && Guarded(kinds, t) && InsideAuthority(kind, t, p, x) && SignIn(t, x, |t|)
    ensures SignIn(t, x, AuthorityEnd(t, p))
  {}

  /** All of the user information, and its at sign, stand in the authority. */
  lemma UserinfoChars(t: string, s: nat, a: nat, e: nat)
    requires IsUserinfo(t, s, Range(a, e))
    ensures a < e < |t| && t[e] == '@' && forall k :: a <= k <= e ==> InAuthority(t[k])
  {
    hide OccursAt;
  }

  lemma SignStays(t: string, s: nat, a: nat, e: nat, p: nat, x: nat)
    requires IsUserinfo(t, s, Range(a, e)) && OccursAt(t, SCHEME_END, p) && OccursAt(Marks(t, a, e), SCHEME_END, p)
    requires p + 3 <= x <= a <= |t| && SignIn(t, x, AuthorityEnd(t, p))
    ensures SignIn(Marks(t, a, e), x, AuthorityEnd(Marks(t, a, e), p))
  {
    hide Marks, OccursAt, IsUserinfo;
    UserinfoChars(t, s, a, e);
    MarksAt(t, a, e);
    MarkHasNone(t, a, e);
    var after := Marks(t, a, e);
    var k: nat :| x <= k < AuthorityEnd(t, p) && t[k] == '@';
    var k' := if k < a then k else if k < e then a + |REDACTED| else k - e + a + |REDACTED|;
    assert after[k'] == '@';
    forall m | p + 3 <= m <= k'
      ensures InAuthority(after[m])
    {
      if m >= a + |REDACTED| {
        assert after[m] == t[Before(a, e, m)];
      }
    }
    Authority(after, p, k' + 1);
  }

  lemma AroundMark(t: string, s: nat, a: nat, e: nat, p: nat, x: nat)
    requires IsUserinfo(t, s, Range(a, e)) && OccursAt(t, SCHEME_END, p) && p + 3 <= a && a + |REDACTED| < x
    requires p + 3 <= |Marks(t, a, e)| && x < AuthorityEnd(Marks(t, a, e), p)
    ensures Before(a, e, x) < AuthorityEnd(t, p)
  {
    hide Marks, OccursAt, IsUserinfo;
    UserinfoChars(t, s, a, e);
    MarksAt(t, a, e);
    var after := Marks(t, a, e);
    forall m | p + 3 <= m <= Before(a, e, x)
      ensures InAuthority(t[m])
    {
      if m >= e {
        assert after[m - e + a + |REDACTED|] == t[m];
      } else if m < a {
        assert after[m] == t[m];
      }
    }
    Authority(t, p, Before(a, e, x) + 1);
  }

  lemma SignBehind(t: string, a: nat, e: nat, p: nat, x: nat)
    requires a <= e <= |t| && p + 3 <= a && a + |REDACTED| < x && x < |Marks(t, a, e)|
    requires x < AuthorityEnd(Marks(t, a, e), p) && SignIn(t, Before(a, e, x), AuthorityEnd(t, p))
    ensures SignIn(Marks(t, a, e), x, AuthorityEnd(Marks(t, a, e), p))
  {
    hide Marks;
    MarksAt(t, a, e);
    var after := Marks(t, a, e);
    var k: nat :| Before(a, e, x) <= k < AuthorityEnd(t, p) && t[k] == '@';
    var k' := k - e + a + |REDACTED|;
    assert after[k'] == '@';
    forall m | p + 3 <= m <= k'
      ensures InAuthority(after[m])
    {
      if m > x {
        assert after[m] == t[Before(a, e, m)];
      }
    }
    Authority(after, p, k' + 1);
  }

  lemma UserinfoKeepsGuard(kinds: seq<Kind>)
    requires forall i :: 0 <= i < |kinds| ==> ValidKind(kinds[i])
    ensures Keeps(UserinfoDecider(), t => Guarded(kinds, t))
  {
    hide ValidKind, DecideUserinfo, Edge, Marks, InsideAuthority, SignIn, IsUserinfo;
    forall t: string, at: nat | at <= |t| && Guarded(kinds, t) && DecideUserinfo(t, at).Replace?
      ensures KeptBy(t, DecideUserinfo(t, at).from, DecideUserinfo(t, at).to, t => Guarded(kinds, t))
    {
      var a, e := DecideUserinfo(t, at).from, DecideUserinfo(t, at).to;
      var s := UserinfoReplaces(t, at);
      EdgeInText(t, a, e);
      GuardKept(kinds, t, s, a, e);
    }
  }

  lemma GuardKept(kinds: seq<Kind>, t: string, s: nat, a: nat, e: nat)
    requires forall i :: 0 <= i < |kinds| ==> ValidKind(kinds[i])
    requires Guarded(kinds, t) && Edge(t, a, e) && IsUserinfo(t, s, Range(a, e))
    ensures a <= e <= |t| && Guarded(kinds, Marks(t, a, e))
  {
    hide ValidKind, Edge, Marks, SignIn, IsUserinfo, Introduces;
    EdgeInText(t, a, e);
    var after := Marks(t, a, e);
    forall kind, p: nat, x: nat | kind in kinds && InsideAuthority(kind, after, p, x) && SignIn(after, x, |after|)
      ensures SignIn(after, x, AuthorityEnd(after, p))
    {
      UserinfoKeepsGuardAt(kinds, kind, t, s, a, e, p, x);
    }
  }

  /** When no user information shows, the at sign of an authority comes before any word. */
  lemma GuardedIsSealed(kinds: seq<Kind>, t: string)
    requires forall i :: 0 <= i < |kinds| ==> ValidKind(kinds[i])
    requires Guarded(kinds, t) && NoneExposed(t)
    ensures Sealed(kinds, t)
  {
    hide ValidKind, SignIn, Introduces, Guarded, Plain, Masked;
    forall kind, p: nat, x: nat | kind in kinds && InsideAuthority(kind, t, p, x)
      ensures !SignIn(t, x, |t|)
    {
      if SignIn(t, x, |t|) {
        GuardAt(kinds, kind, t, p, x);
        assert !Exposed(t, p);
        WordBehindSeparator(kind, t, p, x);
        NoSignBehindWord(kind, t, p, x);
      }
    }
  }

  lemma NoSignBehindWord(kind: Kind, t: string, p: nat, x: nat)
    requires ValidKind(kind) && InsideAuthority(kind, t, p, x) && p + 3 <= x && (Plain(t, p) || Masked(t, p))
    ensures !SignIn(t, x, AuthorityEnd(t, p))
  {
    hide Introduces, ValidKind, AuthorityEnd;
    WordsAreSearchable(kind);
    IntroducedAt(kind, t, x);
    CharAt(t, kind.word, x, 0);
    if Masked(t, p) && x <= p + 3 + |REDACTED| {
      MaskIsMarked(t, p);
      WordNotInMask(kind, t, p + 3, x);
    }
  }

  lemma MaskIsMarked(t: string, p: nat)
    requires p + 3 <= |t| && Masked(t, p)
    ensures Marked(t, p + 3) && p + 3 + |REDACTED| < |t| && t[p + 3 + |REDACTED|] == '@'
  {
    var i := p + 3;
    forall k | i <= k < i + |REDACTED|
      ensures t[k] == REDACTED[k - i]
    {
      assert t[k] == t[i..i + |REDACTED|][k - i];
    }
  }

  /** No word begins in a mark. */
  lemma WordNotInMask(kind: Kind, t: string, a: nat, x: nat)
    requires ValidKind(kind) && Marked(t, a) && a <= x <= a + |REDACTED|
    requires a + |REDACTED| < |t| && t[a + |REDACTED|] == '@' && a > 0 && t[a - 1] == '/'
    ensures !Introduces(kind, t, x)
  {
    hide Introduces, ValidKind;
    MarkItself(t, a);
    WordsAreSearchable(kind);
    if Introduces(kind, t, x) {
      WordAround(kind, t, a, a + |REDACTED|, x);
    }
  }

  lemma MarkItself(t: string, a: nat)
    requires Marked(t, a)
    ensures Marks(t, a, a + |REDACTED|) == t
  {
    assert t[a..a + |REDACTED|] == REDACTED;
    assert t == t[..a] + t[a..a + |REDACTED|] + t[a + |REDACTED|..];
  }

  // ----- the replacement of a value

  /** Nothing but quotes, spaces and a separator stands between a word and its value, so no slash. */
  lemma NoSlashBeforeValue(kind: Kind, t: string, q: nat, a: nat, e: nat)
    requires ValidKind(kind) && ValueReplaced(kind, t, q, a, e)
    ensures q < a <= |t| && forall k :: q <= k < a ==> t[k] != '/'
  {
    hide At, ValidKind, ValueAt, Introduces, Edge, RedactionTrace.Fine;
    WordsAreSearchable(kind);
    GivenValue(kind, t, q, Range(a, e));
    IntroducedAt(kind, t, q);
    NoSlashInWord(t, kind.word, q);
    NoSlashBehindWord(kind, t, q);
    NoSlashAtQuote(kind, t, q, a);
  }

  lemma NoSlashAtQuote(kind: Kind, t: string, q: nat, a: nat)
    requires Introduces(kind, t, q) && ValueOf(kind, t, q).from == a
    ensures forall k :: ValueAt(kind, t, q) <= k < a ==> t[k] != '/'
  {
    hide ValueAt, Introduces;
  }

  lemma NoSlashInWord(t: string, word: string, q: nat)
    requires Searchable(word) && At(t, word, q)
    ensures q + |word| <= |t| && forall k :: q <= k < q + |word| ==> t[k] != '/'
  {
    forall k | q <= k < q + |word|
      ensures t[k] != '/'
    {
      CharAt(t, word, q, k - q);
      SlashIsNoLetter();
    }
  }

  lemma NoSlashBehindWord(kind: Kind, t: string, q: nat)
    requires Introduces(kind, t, q)
    ensures forall k :: q + |kind.word| <= k < ValueAt(kind, t, q) ==> t[k] != '/'
  {
    match kind
    case Named(_) => NoSlashBehindName(kind, t, q);
    case Scheme(scheme) => SpacesHaveNoSlash(t, q + |scheme|);
    case Header(_) =>
  }

  lemma NoSlashBehindName(kind: Kind, t: string, q: nat)
    requires kind.Named? && Introduces(kind, t, q)
    ensures forall k :: q + |kind.word| <= k < ValueAt(kind, t, q) ==> t[k] != '/'
  {
    hide SkipWhile, At, IsIdentifier, IsSpace;
    var end := q + |kind.word|;
    SpacesHaveNoSlash(t, if IsQuote(t[end]) then end + 1 else end);
    SpacesHaveNoSlash(t, AfterName(t, end) + 1);
  }

  lemma SlashIsNoLetter()
    ensures !IsIdentifier('/')
  {}

  lemma SpacesHaveNoSlash(t: string, i: nat)
    requires i <= |t|
    ensures forall k :: i <= k < SkipWhile(t, i, IsSpace) ==> t[k] != '/'
  {}

  /** A separator in front of a replaced value stands in front of its word. */
  lemma SeparatorBeforeWord(kind: Kind, t: string, q: nat, a: nat, e: nat, p: nat)
    requires ValidKind(kind) && ValueReplaced(kind, t, q, a, e) && OccursAt(t, SCHEME_END, p) && p + 3 <= a
    ensures p < q < a
  {
    hide ValueReplaced, ValidKind, OccursAt;
    NoSlashBeforeValue(kind, t, q, a, e);
    SeparatorChars(t, p);
  }

  /** An authority that comes to the replacement has the word in it, so that no at sign follows. */
  lemma SealedAtValue(kinds: seq<Kind>, kind: Kind, t: string, q: nat, a: nat, e: nat, p: nat)
    requires kind in kinds && ValidKind(kind) && ValueReplaced(kind, t, q, a, e) && Sealed(kinds, t)
    requires OccursAt(t, SCHEME_END, p) && p + 3 <= a <= AuthorityEnd(t, p)
    ensures p < q < a && !SignIn(t, q, |t|)
  {
    hide ValidKind, Introduces, SignIn, AuthorityEnd, OccursAt, Edge, RedactionTrace.Fine;
    SeparatorBeforeWord(kind, t, q, a, e, p);
    GivenValue(kind, t, q, Range(a, e));
    assert InsideAuthority(kind, t, p, q);
  }

  lemma SealKeptAt(kinds: seq<Kind>, kind: Kind, t: string, q: nat, a: nat, e: nat, other: Kind, p: nat, x: nat)
    requires kind in kinds && other in kinds && ValidKind(kind) && ValidKind(other)
    requires ValueReplaced(kind, t, q, a, e) && Sealed(kinds, t) && a <= e <= |t|
    requires InsideAuthority(other, Marks(t, a, e), p, x)
    ensures !SignIn(Marks(t, a, e), x, |Marks(t, a, e)|)
  {
    hide Marks, Introduces, ValidKind, Sealed, OccursAt, SignIn, AuthorityEnd, Edge, RedactionTrace.Fine;
    if SignIn(Marks(t, a, e), x, |Marks(t, a, e)|) {
      SignMoved(t, a, e, x);
      SeparatorMoved(t, a, e, p);
      WordAround(other, t, a, e, x);
      if x + |other.word| <= a {
        WordInFront(other, t, a, e, p, x);
        SealAt(kinds, other, t, p, x);
      } else if a + |REDACTED| <= p {
        BothBehind(other, t, a, e, p, x);
        SealAt(kinds, other, t, Before(a, e, p), Before(a, e, x));
      } else {
        ReachesValue(t, a, e, p, x);
        SealedAtValue(kinds, kind, t, q, a, e, p);
        SignLater(t, q, Before(a, e, x));
      }
    }
  }

  lemma SealAt(kinds: seq<Kind>, kind: Kind, t: string, p: nat, x: nat)
    requires kind in kinds && Sealed(kinds, t) && InsideAuthority(kind, t, p, x)
    ensures !SignIn(t, x, |t|)
  {}

  lemma SignLater(t: string, q: nat, x: nat)
    requires q <= x && SignIn(t, x, |t|)
    ensures SignIn(t, q, |t|)
  {}

  lemma ReachesValue(t: string, a: nat, e: nat, p: nat, x: nat)
    requires a <= e <= |t| && p + 3 <= a && p + 3 <= |Marks(t, a, e)| && a <= x < AuthorityEnd(Marks(t, a, e), p)
    ensures a <= AuthorityEnd(t, p)
  {
    hide Marks;
    MarksAt(t, a, e);
    forall k | p + 3 <= k < a
      ensures InAuthority(t[k])
    {
      assert Marks(t, a, e)[k] == t[k];
    }
    Authority(t, p, a);
  }

  /** User information that shows after the replacement of a value showed before. */
  lemma NoneExposedAt(kinds: seq<Kind>, kind: Kind, t: string, q: nat, a: nat, e: nat, p: nat)
    requires kind in kinds && ValidKind(kind) && ValueReplaced(kind, t, q, a, e) && Sealed(kinds, t) && a <= e <= |t|
    requires NoneExposed(t)
    ensures !Exposed(Marks(t, a, e), p)
  {
    hide Marks, ValidKind, Sealed, OccursAt, SignIn, AuthorityEnd, Edge, RedactionTrace.Fine, Plain, Masked, ValueReplaced;
    var after := Marks(t, a, e);
    if OccursAt(after, SCHEME_END, p) {
      SeparatorMoved(t, a, e, p);
      if a + |REDACTED| <= p {
        BehindAgrees(t, a, e);
        OccursInText(after, p);
        AgreeAt(after, a + |REDACTED|, t, e, p);
        ExposedInBoth(after, p, t, Before(a, e, p));
      } else {
        assert !Exposed(t, p);
        if AuthorityEnd(t, p) < a {
          AuthorityInFront(t, a, e, p);
        } else {
          SealedAtValue(kinds, kind, t, q, a, e, p);
          AuthorityReaches(t, a, e, p, q);
        }
      }
    }
  }

  lemma AuthorityInFront(t: string, a: nat, e: nat, p: nat)
    requires a <= e <= |t| && p + 3 <= a && AuthorityEnd(t, p) < a && (Plain(t, p) || Masked(t, p))
    ensures p + 3 <= |Marks(t, a, e)| && (Plain(Marks(t, a, e), p) || Masked(Marks(t, a, e), p))
  {
    hide Marks, AuthorityEnd;
    MarksAt(t, a, e);
    var after := Marks(t, a, e);
    assert t[..a] == after[..a];
    SamePrefix(t, after, p, a);
    if Masked(t, p) {
      SameOccurrence(t, after, REDACTED, p + 3, a);
    }
  }

  lemma AuthorityReaches(t: string, a: nat, e: nat, p: nat, q: nat)
    requires a <= e <= |t| && p + 3 <= a && a <= AuthorityEnd(t, p) && (Plain(t, p) || Masked(t, p))
    requires q < a && !SignIn(t, q, |t|)
    ensures p + 3 <= |Marks(t, a, e)| && (Plain(Marks(t, a, e), p) || Masked(Marks(t, a, e), p))
  {
    hide Marks, AuthorityEnd;
    MarksAt(t, a, e);
    MarkHasNone(t, a, e);
    var after := Marks(t, a, e);
    ReachesMark(t, a, e, p);
    forall k: nat | q <= k < |after|
      ensures after[k] != '@'
    {
      if k < a {
        assert after[k] == t[k];
      } else if k >= a + |REDACTED| {
        assert after[k] == t[Before(a, e, k)];
      }
    }
    if Masked(t, p) {
      assert p + 3 + |REDACTED| < q;
      assert t[..a] == after[..a];
      SameOccurrence(t, after, REDACTED, p + 3, a);
    }
  }

  lemma ReachesMark(t: string, a: nat, e: nat, p: nat)
    requires a <= e <= |t| && p + 3 <= a <= AuthorityEnd(t, p)
    ensures p + 3 <= |Marks(t, a, e)| && a <= AuthorityEnd(Marks(t, a, e), p)
  {
    hide Marks;
    MarksAt(t, a, e);
    forall k | p + 3 <= k < a
      ensures InAuthority(Marks(t, a, e)[k])
    {
      assert Marks(t, a, e)[k] == t[k];
    }
    Authority(Marks(t, a, e), p, a);
  }

  ghost predicate Closed(kinds: seq<Kind>, t: string) { Sealed(kinds, t) && NoneExposed(t) }

  lemma ClosedKept(kinds: seq<Kind>, kind: Kind, t: string, q: nat, a: nat, e: nat)
    requires kind in kinds && forall i :: 0 <= i < |kinds| ==> ValidKind(kinds[i])
    requires ValueReplaced(kind, t, q, a, e) && Closed(kinds, t) && a <= e <= |t|
    ensures Closed(kinds, Marks(t, a, e))
  {
    hide Marks, ValidKind, InsideAuthority, SignIn, Exposed, ValueReplaced;
    var after := Marks(t, a, e);
    forall other, p: nat, x: nat | other in kinds && InsideAuthority(other, after, p, x)
      ensures !SignIn(after, x, |after|)
    {
      SealKeptAt(kinds, kind, t, q, a, e, other, p, x);
    }
    forall p: nat
      ensures !Exposed(after, p)
    {
      NoneExposedAt(kinds, kind, t, q, a, e, p);
    }
  }

  lemma KindKeepsClosed(kinds: seq<Kind>, kind: Kind)
    requires kind in kinds && forall i :: 0 <= i < |kinds| ==> ValidKind(kinds[i])
    ensures Keeps(Decide(kind), t => Closed(kinds, t))
  {
    hide ValidKind, Decide, Closed, Gives, Edge, RedactionTrace.Fine;
    forall t: string, at: nat | at <= |t| && Closed(kinds, t) && Decide(kind)(t, at).Replace?
      ensures KeptBy(t, Decide(kind)(t, at).from, Decide(kind)(t, at).to, t => Closed(kinds, t))
    {
      var a, e := Decide(kind)(t, at).from, Decide(kind)(t, at).to;
      var q := KindReplaces(kind, t, at);
      EdgeInText(t, a, e);
      ClosedKept(kinds, kind, t, q, a, e);
    }
  }

  /** The whole redaction shows no user information when, once the keys are removed, no separator that the search skips
      has any, and every at sign behind a sensitive word in an authority has one before it in that authority. */
  lemma GuardedShowsNoUserinfo(t: string)
    requires Guarded(KINDS, KeysRemoved(t))
    requires forall p: nat :: Skipped(KeysRemoved(t), p) ==> !Exposed(KeysRemoved(t), p)
    ensures forall p: nat :: !Exposed(RedactSensitiveText(t), p)
  {
    hide KeysRemoved, ValidKind, Sealed, Keeps, Pass, RedactKinds, KindsOf, Decide, Exposed, Skipped, Guarded;
    ValidKinds();
    KeysProgress();
    UserinfoProgresses();
    UserinfoLeftIff(KeysRemoved(t));
    UserinfoKeepsGuard(KINDS);
    PassKeeps(UserinfoDecider(), KeysRemoved(t), 0, t => Guarded(KINDS, t));
    GuardedIsSealed(KINDS, Pass(UserinfoDecider(), REDACTED, KeysRemoved(t), 0));
    forall kind | kind in KINDS
      ensures Keeps(Decide(kind), t => Closed(KINDS, t))
    {
      KindKeepsClosed(KINDS, kind);
    }
    LaterPassesKeep(KeysRemoved(t), t => Closed(KINDS, t));
    assert Closed(KINDS, RedactSensitiveText(t));
  }
}
