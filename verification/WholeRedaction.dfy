/** The redaction as a whole: all passes, what they leave, and exactly when a header or user information comes back. */
module WholeRedaction {
  import opened Text
  import opened RedactionPass
  import opened BlockRedaction
  import opened UserinfoRedaction
  import opened Redaction
  import opened RedactionRuns
  import opened RedactedKinds
  import opened RedactionTrace

  function KeysRemoved(t: string): string {
    KeysProgress();
    Pass(PrivateKeyDecider(), REDACTED_PRIVATE_KEY, t, 0)
  }

  /** All passes in order: private keys, user information, then the schemes, names and headers. */
  function RedactSensitiveText(t: string): string {
    KeysProgress();
    UserinfoProgresses();
    ValidKinds();
    RedactKinds(KINDS, Pass(UserinfoDecider(), REDACTED, KeysRemoved(t), 0))
  }

  lemma ValidKinds()
    ensures forall i :: 0 <= i < |KINDS| ==> ValidKind(KINDS[i])
  {
    hide ValidKind;
    forall i | 0 <= i < |KINDS|
      ensures ValidKind(KINDS[i])
    {
      KindsAreValid(i);
    }
  }

  /** In the redacted text every sensitive value is empty or gone. */
  lemma NothingSensitiveLeft(t: string, kind: Kind, p: nat)
    requires kind in KINDS
    requires Introduces(kind, RedactSensitiveText(t), p)
    ensures Quiet(kind, RedactSensitiveText(t), ValueAt(kind, RedactSensitiveText(t), p))
  {
    hide RedactKinds, KeysRemoved, Introduces, Quiet, ValueAt, Pass, ValidKind, KindsOf;
    ValidKinds();
    KeysProgress();
    UserinfoProgresses();
    var i :| 0 <= i < |KINDS| && KINDS[i] == kind;
    var before := Pass(UserinfoDecider(), REDACTED, KeysRemoved(t), 0);
    KindsCovered(KINDS, before, i);
    assert Covered(kind, RedactSensitiveText(t), p);
  }

  // ----- the edits after the keys are removed

  lemma UserinfoIsFine()
    ensures FineDecider(UserinfoDecider())
  {
    forall t: string, at: nat | at <= |t| && UserinfoDecider()(t, at).Replace?
      ensures Fine(t, Edit(UserinfoDecider()(t, at).from, UserinfoDecider()(t, at).to))
    {
      UserinfoAllowed(t, at);
    }
  }

  lemma KindIsFine(kind: Kind)
    requires ValidKind(kind)
    ensures FineDecider(Decide(kind))
  {
    hide ValidKind;
    forall t: string, at: nat | at <= |t| && Decide(kind)(t, at).Replace?
      ensures Fine(t, Edit(Decide(kind)(t, at).from, Decide(kind)(t, at).to))
    {
      DecisionSettles(kind, t, at);
      if kind.Header? {
        HeaderIsFine(t, kind.word, at);
      } else {
        ValueIsRange(kind, t, at);
      }
    }
  }

  lemma HeaderIsFine(t: string, header: string, at: nat)
    requires DecideHeader(t, header, at).Replace?
    ensures var d := DecideHeader(t, header, at); Fine(t, Edit(d.from, d.to))
  {}

  lemma ValueIsRange(kind: Kind, t: string, at: nat)
    requires !kind.Header? && Decide(kind)(t, at).Replace?
    ensures Decide(kind)(t, at).from < Decide(kind)(t, at).to
  {
    hide SkipWhile, FindWord, AfterName;
  }

  function KindEdits(kinds: seq<Kind>, t: string): seq<Edit>
    requires forall i :: 0 <= i < |kinds| ==> ValidKind(kinds[i])
    decreases |kinds|
  {
    if kinds == [] then []
    else
      var n := |kinds| - 1;
      KindProgresses(kinds[n]);
      KindEdits(kinds[..n], t) + EditsOf(Decide(kinds[n]), RedactKinds(kinds[..n], t), 0)
  }

  lemma {:induction false} KindsAreEdits(kinds: seq<Kind>, t: string)
    requires forall i :: 0 <= i < |kinds| ==> ValidKind(kinds[i])
    ensures AllFine(t, KindEdits(kinds, t)) && Edited(t, KindEdits(kinds, t)) == RedactKinds(kinds, t)
    decreases |kinds|
  {
    hide ValidKind, AllFine, Edited, EditsOf, Decide, FineDecider, Pass;
    if kinds == [] {
      NoEdits(t);
    } else {
      var n := |kinds| - 1;
      KindsAreEdits(kinds[..n], t);
      var before := RedactKinds(kinds[..n], t);
      KindProgresses(kinds[n]);
      KindIsFine(kinds[n]);
      PassIsEdits(Decide(kinds[n]), before, 0);
      EditedConcat(t, KindEdits(kinds[..n], t), EditsOf(Decide(kinds[n]), before, 0));
    }
  }

  lemma NoEdits(t: string)
    ensures AllFine(t, []) && Edited(t, []) == t
  {}

  /** Every replacement made after the private keys are gone. */
  function LaterEdits(t: string): seq<Edit> {
    UserinfoProgresses();
    ValidKinds();
    EditsOf(UserinfoDecider(), t, 0) + KindEdits(KINDS, Pass(UserinfoDecider(), REDACTED, t, 0))
  }

  lemma LaterPassesAreEdits(t: string)
    ensures AllFine(KeysRemoved(t), LaterEdits(KeysRemoved(t)))
    ensures Edited(KeysRemoved(t), LaterEdits(KeysRemoved(t))) == RedactSensitiveText(t)
  {
    hide KeysRemoved, AllFine, Edited, EditsOf, Pass, RedactKinds, KindEdits, ValidKind, FineDecider, KindsOf;
    UserinfoProgresses();
    ValidKinds();
    UserinfoIsFine();
    var u := KeysRemoved(t);
    PassIsEdits(UserinfoDecider(), u, 0);
    var v := Pass(UserinfoDecider(), REDACTED, u, 0);
    KindsAreEdits(KINDS, v);
    EditedConcat(u, EditsOf(UserinfoDecider(), u, 0), KindEdits(KINDS, v));
  }

  // ----- private-key headers

  predicate IsLineFeed(c: char) { c == '\n' }

  ghost predicate HeaderLeft(t: string) { exists p: nat :: !Harmless(t, p) }

  ghost predicate HeaderJoined(t: string, edits: seq<Edit>) {
    exists p: nat, q: nat :: Joined(t, edits, BEGIN, p, PRIVATE, q, IsLineFeed)
  }

  lemma HeaderWordsAreForeign()
    ensures Foreign(BEGIN) && Foreign(PRIVATE) && NotInMark(IsLineFeed)
  {}

  lemma HeaderIsJoined(t: string, p: nat, q: nat)
    requires Joined(t, [], BEGIN, p, PRIVATE, q, IsLineFeed)
    ensures !Harmless(t, p)
  {
    forall k | p <= k < q + |PRIVATE|
      ensures t[k] != '\n'
    {
      if k < p + |BEGIN| {
        CharAt(t, BEGIN, p, k - p);
      } else if k >= q {
        CharAt(t, PRIVATE, q, k - q);
      } else {
        assert Track([], k) == Some(k);
      }
    }
    assert LineEnd(t, p) >= q + |PRIVATE|;
  }

  lemma JoinedInHeader(t: string, p: nat)
    requires !Harmless(t, p)
    ensures HeaderJoined(t, [])
  {
    var q :| p <= q && q + |PRIVATE| <= LineEnd(t, p) && At(t, PRIVATE, q);
    if q < p + |BEGIN| {
      CharAt(t, PRIVATE, q, 0);
      CharAt(t, BEGIN, p, q - p);
    }
    forall k: nat
      ensures Track([], k) == Some(k)
    {}
    assert Joined(t, [], BEGIN, p, PRIVATE, q, IsLineFeed);
  }

  /** The redacted text shows a private-key header if and only if, once the keys are removed, a line that begins a
      block and a later private-key text both stay untouched while every line feed between them is replaced. */
  lemma HeaderLeftIff(t: string)
    ensures HeaderLeft(RedactSensitiveText(t)) <==> HeaderJoined(KeysRemoved(t), LaterEdits(KeysRemoved(t)))
  {
    hide KeysRemoved, LaterEdits, RedactSensitiveText, Harmless, Joined, Foreign, AllFine, Edited, Track;
    HeaderWordsAreForeign();
    LaterPassesAreEdits(t);
    var u, edits := KeysRemoved(t), LaterEdits(KeysRemoved(t));
    if HeaderLeft(RedactSensitiveText(t)) {
      var p: nat :| !Harmless(RedactSensitiveText(t), p);
      JoinedInHeader(RedactSensitiveText(t), p);
      var p1: nat, q1: nat :| Joined(RedactSensitiveText(t), [], BEGIN, p1, PRIVATE, q1, IsLineFeed);
      var p2, q2 := JoinedBackward(u, edits, BEGIN, p1, PRIVATE, q1, IsLineFeed);
    }
    if HeaderJoined(u, edits) {
      var p: nat, q: nat :| Joined(u, edits, BEGIN, p, PRIVATE, q, IsLineFeed);
      JoinedForward(u, edits, BEGIN, p, PRIVATE, q, IsLineFeed);
      HeaderIsJoined(RedactSensitiveText(t), Track(edits, p).value, Track(edits, q).value);
    }
  }

  /** No replaced range holds a line feed. */
  predicate KeepsLines(t: string, edits: seq<Edit>)
    requires AllFine(t, edits)
    decreases |edits|
  {
    edits == [] || ('\n' !in t[edits[0].from..edits[0].to] && KeepsLines(After(t, edits[0]), edits[1..]))
  }

  lemma {:induction false} LineFeedIsKept(t: string, edits: seq<Edit>, k: nat)
    requires AllFine(t, edits) && KeepsLines(t, edits) && k < |t| && t[k] == '\n'
    ensures Track(edits, k).Some?
    decreases |edits|
  {
    hide After;
    if edits != [] {
      var e := edits[0];
      AfterParts(t, e);
      if e.from <= k < e.to {
        InSlice(t, e.from, e.to, k);
      } else {
        LineFeedIsKept(After(t, e), edits[1..], Move(e, k).value);
      }
    }
  }

  lemma InSlice(t: string, from: nat, to: nat, k: nat)
    requires from <= k < to <= |t|
    ensures t[k] in t[from..to]
  {
    assert t[k] == t[from..to][k - from];
  }

  /** So none is left when no later replacement takes a line feed. */
  lemma KeptLinesShowNoHeader(t: string)
    requires AllFine(KeysRemoved(t), LaterEdits(KeysRemoved(t))) && KeepsLines(KeysRemoved(t), LaterEdits(KeysRemoved(t)))
    ensures !HeaderLeft(RedactSensitiveText(t))
  {
    hide LaterEdits, RedactSensitiveText, Harmless, Joined, AllFine, KeepsLines, Pass;
    HeaderLeftIff(t);
    NothingLeftYet(t);
    var u, edits := KeysRemoved(t), LaterEdits(KeysRemoved(t));
    if HeaderJoined(u, edits) {
      var p: nat, q: nat :| Joined(u, edits, BEGIN, p, PRIVATE, q, IsLineFeed);
      JoinedOnOneLine(u, edits, p, q);
    }
  }

  lemma NothingLeftYet(t: string)
    ensures forall p: nat :: Harmless(KeysRemoved(t), p)
  {
    KeysProgress();
    NoPrivateKeyLeft(t, 0);
  }

  lemma JoinedOnOneLine(t: string, edits: seq<Edit>, p: nat, q: nat)
    requires AllFine(t, edits) && KeepsLines(t, edits) && Joined(t, edits, BEGIN, p, PRIVATE, q, IsLineFeed)
    ensures !Harmless(t, p)
  {
    hide Harmless, AllFine, KeepsLines, Track;
    forall k: nat | p + |BEGIN| <= k < q
      ensures !IsLineFeed(t[k])
    {
      if IsLineFeed(t[k]) {
        LineFeedIsKept(t, edits, k);
      }
    }
    EmptyTrack();
    HeaderIsJoined(t, p, q);
  }

  lemma EmptyTrack()
    ensures forall k: nat :: Track([], k) == Some(k)
  {}

  // ----- user information

  predicate EndsAuthority(c: char) { !InAuthority(c) }

  /** A character at `c` reads as user information, between a separator and an at sign in its authority. */
  ghost predicate Reads(t: string, p: nat, c: nat, q: nat) {
    Joined(t, [], SCHEME_END, p, "@", q, EndsAuthority) && p + |SCHEME_END| <= c < q
  }

  ghost predicate UserinfoShows(t: string, c: nat) { exists p: nat, q: nat :: Reads(t, p, c, q) }

  ghost predicate UserinfoStays(t: string, edits: seq<Edit>, c: nat) {
    exists p: nat, q: nat :: Joined(t, edits, SCHEME_END, p, "@", q, EndsAuthority) && p + |SCHEME_END| <= c < q
  }

  lemma UserinfoWordsAreForeign()
    ensures Foreign(SCHEME_END) && Foreign("@") && NotInMark(EndsAuthority)
  {}

  /** A character that is never replaced reads as user information in the end if and only if a separator before it
      and an at sign after it stay too, and everything between them that ends an authority is replaced. */
  lemma KeptUserinfoIff(t: string, c: nat)
    requires Track(LaterEdits(KeysRemoved(t)), c).Some?
    ensures UserinfoShows(RedactSensitiveText(t), Track(LaterEdits(KeysRemoved(t)), c).value)
       <==> UserinfoStays(KeysRemoved(t), LaterEdits(KeysRemoved(t)), c)
  {
    hide KeysRemoved, LaterEdits, RedactSensitiveText, Joined, Foreign, AllFine, Edited, Track;
    UserinfoWordsAreForeign();
    LaterPassesAreEdits(t);
    var u, edits := KeysRemoved(t), LaterEdits(KeysRemoved(t));
    var final, c' := RedactSensitiveText(t), Track(edits, c).value;
    if UserinfoShows(final, c') {
      var p1: nat, q1: nat :| Reads(final, p1, c', q1);
      var p, q := JoinedBackward(u, edits, SCHEME_END, p1, "@", q1, EndsAuthority);
      BetweenBefore(edits, p, c, q);
    }
    if UserinfoStays(u, edits, c) {
      var p: nat, q: nat :| Joined(u, edits, SCHEME_END, p, "@", q, EndsAuthority) && p + |SCHEME_END| <= c < q;
      JoinedForward(u, edits, SCHEME_END, p, "@", q, EndsAuthority);
      JoinedTracks(u, edits, p, q);
      BetweenAfter(edits, p, c, q);
      assert Reads(final, Track(edits, p).value, c', Track(edits, q).value);
    }
  }

  lemma JoinedTracks(t: string, edits: seq<Edit>, p: nat, q: nat)
    requires Joined(t, edits, SCHEME_END, p, "@", q, EndsAuthority)
    ensures forall k :: p <= k < p + |SCHEME_END| ==> Track(edits, k).Some?
  {}

  lemma BetweenAfter(edits: seq<Edit>, p: nat, c: nat, q: nat)
    requires forall k :: p <= k < p + |SCHEME_END| ==> Track(edits, k).Some?
    requires Track(edits, c).Some? && Track(edits, q).Some? && p + |SCHEME_END| <= c < q
    ensures Track(edits, p).value + |SCHEME_END| <= Track(edits, c).value < Track(edits, q).value
  {
    hide Track;
    TrackIncreases(edits, p, p + 1);
    TrackIncreases(edits, p + 1, p + 2);
    TrackIncreases(edits, p + 2, c);
    TrackIncreases(edits, c, q);
  }

  lemma BetweenBefore(edits: seq<Edit>, p: nat, c: nat, q: nat)
    requires Track(edits, p).Some? && Track(edits, c).Some? && Track(edits, q).Some?
    requires forall k :: p <= k < p + |SCHEME_END| ==> Track(edits, k) == Some(k - p + Track(edits, p).value)
    requires Track(edits, p).value + |SCHEME_END| <= Track(edits, c).value < Track(edits, q).value
    ensures p + |SCHEME_END| <= c < q
  {
    hide Track;
    if c < p {
      TrackIncreases(edits, c, p);
    }
    if q < c {
      TrackIncreases(edits, q, c);
    }
  }
}
