/** Private-key blocks. */
module BlockRedaction {
  import opened Text
  import opened RedactionPass

  const BEGIN: string := "-----begin "
  const PRIVATE: string := "private key-----"
  const END: string := "-----end "
  const DASHES: string := "-----"

  predicate OnLine(c: char) { c != '\n' }

  function LineEnd(t: string, p: nat): (end: nat)
    requires p <= |t|
    ensures p <= end <= |t| && (end < |t| ==> t[end] == '\n')
  {
    SkipWhile(t, p, OnLine)
  }

  /** Past the dashes that close the end line; the end of the text when there is none. */
  function BlockEnd(t: string, from: nat): (end: nat)
    requires from <= |t|
    ensures from <= end <= |t|
  {
    match FindWord(t, END, from)
    case None => |t|
    case Some(closing) =>
      match FindFrom(t, DASHES, closing)
      case None => |t|
      case Some(first) =>
        match FindFrom(t, DASHES, first + 5)
        case None => |t|
        case Some(second) => second + 5
  }

  function DecidePrivateKey(t: string, at: nat): Decision {
    match FindWord(t, BEGIN, at)
    case None => Done
    case Some(begin) =>
      var headerEnd := LineEnd(t, begin);
      if FindWord(t[..headerEnd], PRIVATE, begin).Some? then Replace(begin, BlockEnd(t, headerEnd))
      else if headerEnd == |t| then Done
      else Skip(headerEnd)
  }

  function PrivateKeyDecider(): Decider { (t: string, at: nat) => DecidePrivateKey(t, at) }

  lemma KeysProgress()
    ensures Progresses(PrivateKeyDecider())
  {
    forall t: string, at: nat | at <= |t|
      ensures Allowed(t, at, PrivateKeyDecider()(t, at))
    {
      BlockAllowed(t, at);
    }
  }

  lemma BlockAllowed(t: string, at: nat)
    requires at <= |t|
    ensures Allowed(t, at, DecidePrivateKey(t, at))
  {
    hide BlockEnd;
    var found := FindWord(t, BEGIN, at);
    if found.Some? {
      HeaderIsLong(t, found.value);
    }
  }

  lemma HeaderIsLong(t: string, p: nat)
    requires At(t, BEGIN, p)
    ensures LineEnd(t, p) >= p + |BEGIN|
  {
    forall k | p <= k < p + |BEGIN|
      ensures OnLine(t[k])
    {
      assert LowerChar(t[p + (k - p)]) == BEGIN[k - p];
    }
  }

  // ----- no private key header is left

  /** The line that begins here announces no private key. */
  ghost predicate NoKeyOnLine(t: string, p: nat)
    requires p <= |t|
  {
    forall k :: p <= k && k + |PRIVATE| <= LineEnd(t, p) ==> !At(t, PRIVATE, k)
  }

  ghost predicate Harmless(t: string, p: nat) { At(t, BEGIN, p) ==> NoKeyOnLine(t, p) }

  /** Searched up to `at`: the lines found there announce no key and end there. */
  ghost predicate Searched(t: string, at: nat) {
    forall p: nat :: p < at && At(t, BEGIN, p) ==> NoKeyOnLine(t, p) && LineEnd(t, p) <= at
  }

  lemma HeaderFound(t: string, begin: nat, end: nat)
    requires begin <= end <= |t|
    ensures FindWord(t[..end], PRIVATE, begin).Some? <==> exists k :: begin <= k && k + |PRIVATE| <= end && At(t, PRIVATE, k)
  {
    forall k: nat
      ensures At(t[..end], PRIVATE, k) <==> k + |PRIVATE| <= end && At(t, PRIVATE, k)
    {
      if k + |PRIVATE| <= end {
        AtSame(t[..end], t, PRIVATE, k, end);
      }
    }
  }

  lemma SameLine(t: string, begin: nat, p: nat)
    requires begin <= |t| && begin <= p <= LineEnd(t, begin)
    ensures p < LineEnd(t, begin) ==> LineEnd(t, p) == LineEnd(t, begin)
  {
    SkipIs(t, p, OnLine, LineEnd(t, begin));
  }

  lemma BeginIsOneLine(t: string, p: nat)
    requires At(t, BEGIN, p)
    ensures t[p] == '-' && OnLine(t[p])
  {
    assert LowerChar(t[p + 0]) == BEGIN[0];
  }

  lemma SkipSearched(t: string, at: nat, begin: nat)
    requires Searched(t, at) && FindWord(t, BEGIN, at) == Some(begin)
    requires FindWord(t[..LineEnd(t, begin)], PRIVATE, begin).None?
    ensures Searched(t, LineEnd(t, begin))
  {
    hide At;
    var end := LineEnd(t, begin);
    HeaderFound(t, begin, end);
    forall p: nat | p < end && At(t, BEGIN, p)
      ensures NoKeyOnLine(t, p) && LineEnd(t, p) <= end
    {
      if p >= at {
        assert p >= begin;
        SameLine(t, begin, p);
      }
    }
  }

  lemma KeyReplacedAt(t: string, a: nat, e: nat)
    requires a <= e <= |t|
    ensures var after := Replaced(t, a, e, REDACTED_PRIVATE_KEY);
            && |after| >= a + |REDACTED_PRIVATE_KEY| && (forall k :: 0 <= k < a ==> after[k] == t[k])
            && (forall k :: a <= k < a + |REDACTED_PRIVATE_KEY| ==> after[k] == REDACTED_PRIVATE_KEY[k - a])
  {}

  lemma ReplaceSearched(t: string, at: nat, begin: nat, e: nat)
    requires Searched(t, at) && FindWord(t, BEGIN, at) == Some(begin) && begin <= e <= |t|
    ensures Searched(Replaced(t, begin, e, REDACTED_PRIVATE_KEY), begin + |REDACTED_PRIVATE_KEY|)
  {
    hide Replaced, LineEnd;
    KeyReplacedAt(t, begin, e);
    var after := Replaced(t, begin, e, REDACTED_PRIVATE_KEY);
    BeginIsOneLine(t, begin);
    forall p: nat | p < begin + |REDACTED_PRIVATE_KEY| && At(after, BEGIN, p)
      ensures NoKeyOnLine(after, p) && LineEnd(after, p) <= begin + |REDACTED_PRIVATE_KEY|
    {
      NotAtMark(after, begin, p);
      AtSame(t, after, BEGIN, p, begin);
      LineBefore(t, after, p, begin);
      KeyBefore(t, after, p, begin);
    }
  }

  lemma NotAtMark(t: string, a: nat, p: nat)
    requires a + |REDACTED_PRIVATE_KEY| <= |t| && At(t, BEGIN, p)
    requires forall k :: a <= k < a + |REDACTED_PRIVATE_KEY| ==> t[k] == REDACTED_PRIVATE_KEY[k - a]
    ensures p + |BEGIN| <= a || p >= a + |REDACTED_PRIVATE_KEY|
  {
    if p < a + |REDACTED_PRIVATE_KEY| && p + |BEGIN| > a {
      CharAt(t, BEGIN, p, if p <= a then a - p else 0);
    }
  }

  lemma LineBefore(t: string, after: string, p: nat, a: nat)
    requires p <= a <= |t| && a <= |after| && forall k :: 0 <= k < a ==> after[k] == t[k]
    requires LineEnd(t, p) < a
    ensures LineEnd(after, p) == LineEnd(t, p)
  {
    SkipIs(after, p, OnLine, LineEnd(t, p));
  }

  lemma KeyBefore(t: string, after: string, p: nat, a: nat)
    requires p <= a <= |t| && a <= |after| && forall k :: 0 <= k < a ==> after[k] == t[k]
    requires LineEnd(t, p) < a && LineEnd(after, p) == LineEnd(t, p) && NoKeyOnLine(t, p)
    ensures NoKeyOnLine(after, p)
  {
    forall k | p <= k && k + |PRIVATE| <= LineEnd(after, p)
      ensures !At(after, PRIVATE, k)
    {
      AtSame(t, after, PRIVATE, k, a);
    }
  }

  /** After the pass no line that begins a block announces a private key. */
  lemma {:induction false} NoPrivateKeyLeft(t: string, at: nat)
    requires at <= |t| && Progresses(PrivateKeyDecider()) && Searched(t, at)
    ensures forall p: nat :: Harmless(Pass(PrivateKeyDecider(), REDACTED_PRIVATE_KEY, t, at), p)
    decreases |t| - at
  {
    hide At, BlockEnd, Searched, NoKeyOnLine, LineEnd;
    BlockAllowed(t, at);
    match FindWord(t, BEGIN, at)
    case None => AllHarmless(t, at);
    case Some(begin) =>
      var headerEnd := LineEnd(t, begin);
      if FindWord(t[..headerEnd], PRIVATE, begin).Some? {
        ReplaceSearched(t, at, begin, BlockEnd(t, headerEnd));
        NoPrivateKeyLeft(Replaced(t, begin, BlockEnd(t, headerEnd), REDACTED_PRIVATE_KEY), begin + |REDACTED_PRIVATE_KEY|);
      } else {
        SkipSearched(t, at, begin);
        if headerEnd == |t| {
          SearchedAll(t);
        } else {
          NoPrivateKeyLeft(t, headerEnd);
        }
      }
  }

  lemma AllHarmless(t: string, at: nat)
    requires Searched(t, at) && forall p :: at <= p ==> !At(t, BEGIN, p)
    ensures forall p: nat :: Harmless(t, p)
  {
    hide At, NoKeyOnLine, LineEnd;
  }

  lemma SearchedAll(t: string)
    requires Searched(t, |t|)
    ensures forall p: nat :: Harmless(t, p)
  {
    hide NoKeyOnLine, LineEnd;
  }

  // ----- what the pass replaces

  lemma BlockEndInBoth(t: string, i: nat, u: string, j: nat)
    requires Agree(t, i, u, j)
    ensures i <= |t| && j <= |u| && BlockEnd(u, j) - j == BlockEnd(t, i) - i
  {
    hide Agree, FindWord, FindFrom;
    AgreesWithin(t, i, u, j);
    AgreeAt(t, i, u, j, |t|);
    FindWordInBoth(t, i, u, j, END);
    var closing := FindWord(t, END, i);
    if closing.Some? {
      AgreeAt(t, i, u, j, closing.value);
      FindTextInBoth(t, closing.value, u, closing.value - i + j, DASHES);
      var first := FindFrom(t, DASHES, closing.value);
      if first.Some? {
        DashesFit(t, closing.value);
        AgreeAt(t, i, u, j, first.value + 5);
        FindTextInBoth(t, first.value + 5, u, first.value + 5 - i + j, DASHES);
      }
    }
  }

  lemma DashesFit(t: string, at: nat)
    ensures var found := FindFrom(t, DASHES, at); found.Some? ==> found.value + 5 <= |t|
  {}

  lemma HeaderInBoth(t: string, i: nat, u: string, j: nat)
    requires Agree(t, i, u, j)
    ensures i <= |t| && j <= |u| && LineEnd(u, j) - j == LineEnd(t, i) - i && |t| - i == |u| - j
    ensures FindWord(t[..LineEnd(t, i)], PRIVATE, i).Some? <==> FindWord(u[..LineEnd(u, j)], PRIVATE, j).Some?
  {
    SkipInBoth(t, i, u, j, OnLine);
    AgreeAt(t, i, u, j, |t|);
    var end, end' := LineEnd(t, i), LineEnd(u, j);
    AgreeSlice(t, i, u, j, end);
    assert t[..end][i..] == t[i..end] && u[..end'][j..] == u[j..end'];
    FindWordInBoth(t[..end], i, u[..end'], j, PRIVATE);
  }

  lemma KeyInBoth(t: string, i: nat, u: string, j: nat)
    requires Agree(t, i, u, j)
    ensures SameDecision(DecidePrivateKey(t, i), i, DecidePrivateKey(u, j), j)
  {
    hide Agree, FindWord, LineEnd, BlockEnd;
    FindWordInBoth(t, i, u, j, BEGIN);
    var found := FindWord(t, BEGIN, i);
    if found.Some? {
      var begin, begin' := found.value, found.value - i + j;
      AgreeAt(t, i, u, j, begin);
      HeaderInBoth(t, begin, u, begin');
      var end, end' := LineEnd(t, begin), LineEnd(u, begin');
      AgreeAt(t, i, u, j, end);
      BlockEndInBoth(t, end, u, end');
    }
  }

  lemma KeysAreLocal()
    ensures Local(PrivateKeyDecider(), REDACTED_PRIVATE_KEY)
  {
    hide DecidePrivateKey, Replaced;
    forall t: string, at: nat | at <= |t| && DecidePrivateKey(t, at).Replace?
      ensures Untouched(PrivateKeyDecider(), REDACTED_PRIVATE_KEY, t, DecidePrivateKey(t, at).from, DecidePrivateKey(t, at).to)
    {
      BlockAllowed(t, at);
      var e := DecidePrivateKey(t, at).to;
      var after, next := Replaced(t, DecidePrivateKey(t, at).from, e, REDACTED_PRIVATE_KEY),
                         DecidePrivateKey(t, at).from + |REDACTED_PRIVATE_KEY|;
      ReplacedParts(t, DecidePrivateKey(t, at).from, e, REDACTED_PRIVATE_KEY);
      forall k: nat | e <= k <= |t|
        ensures SameDecision(DecidePrivateKey(t, k), e, DecidePrivateKey(after, k - e + next), next)
      {
        AgreeAt(t, e, after, next, k);
        KeyInBoth(t, k, after, k - e + next);
        SameLater(DecidePrivateKey(t, k), k, DecidePrivateKey(after, k - e + next), k - e + next, e, next);
      }
    }
  }

  /** A block that announces a private key: from its begin line to the dashes that close its end line. */
  ghost predicate KeyBlock(t: string, r: Range) { !Harmless(t, r.from) && r.to == BlockEnd(t, LineEnd(t, r.from)) }

  ghost predicate AreKeys(t: string, at: nat, cuts: seq<Range>) {
    && (forall r :: r in cuts ==> at <= r.from && KeyBlock(t, r))
    && (forall p: nat :: at <= p && !Harmless(t, p) ==> InCut(cuts, p))
  }

  lemma {:induction false} CutsAreKeys(t: string, at: nat)
    requires Progresses(PrivateKeyDecider()) && at <= |t|
    ensures AreKeys(t, at, Cuts(PrivateKeyDecider(), t, at))
    decreases |t| - at
  {
    hide Cuts, At, BlockEnd, NoKeyOnLine, LineEnd, AreKeys;
    CutsStep(PrivateKeyDecider(), t, at);
    match FindWord(t, BEGIN, at)
    case None => NoKeysFrom(t, at);
    case Some(begin) =>
      var end := LineEnd(t, begin);
      HeaderFound(t, begin, end);
      if FindWord(t[..end], PRIVATE, begin).Some? {
        CutsAreKeys(t, BlockEnd(t, end));
        KeyCutFirst(t, at, begin, Cuts(PrivateKeyDecider(), t, BlockEnd(t, end)));
      } else {
        HarmlessUpTo(t, at, begin);
        if end < |t| {
          CutsAreKeys(t, end);
          HarmlessFirst(t, at, end, Cuts(PrivateKeyDecider(), t, end));
        } else {
          NoKeysBehind(t, at);
        }
      }
  }

  lemma NoKeysFrom(t: string, at: nat)
    requires forall p :: at <= p ==> !At(t, BEGIN, p)
    ensures AreKeys(t, at, [])
  {
    hide At, NoKeyOnLine;
  }

  /** No begin of a line that announces no key announces one. */
  lemma HarmlessUpTo(t: string, at: nat, begin: nat)
    requires FindWord(t, BEGIN, at) == Some(begin) && begin <= |t|
    requires !exists k :: begin <= k && k + |PRIVATE| <= LineEnd(t, begin) && At(t, PRIVATE, k)
    ensures forall p: nat :: at <= p < LineEnd(t, begin) ==> Harmless(t, p)
  {
    hide At;
    forall p: nat | at <= p < LineEnd(t, begin) && At(t, BEGIN, p)
      ensures NoKeyOnLine(t, p)
    {
      SameLine(t, begin, p);
    }
  }

  lemma HarmlessFirst(t: string, at: nat, end: nat, cuts: seq<Range>)
    requires at <= end && AreKeys(t, end, cuts) && forall p: nat :: at <= p < end ==> Harmless(t, p)
    ensures AreKeys(t, at, cuts)
  {
    hide Harmless, InCut;
  }

  lemma NoKeysBehind(t: string, at: nat)
    requires forall p: nat :: at <= p < |t| ==> Harmless(t, p)
    ensures AreKeys(t, at, [])
  {
    hide NoKeyOnLine;
  }

  lemma KeyCutFirst(t: string, at: nat, begin: nat, rest: seq<Range>)
    requires FindWord(t, BEGIN, at) == Some(begin) && begin <= |t|
    requires exists k :: begin <= k && k + |PRIVATE| <= LineEnd(t, begin) && At(t, PRIVATE, k)
    requires AreKeys(t, BlockEnd(t, LineEnd(t, begin)), rest)
    ensures AreKeys(t, at, [Range(begin, BlockEnd(t, LineEnd(t, begin)))] + rest)
  {
    hide At, BlockEnd, LineEnd, InCut;
    var first := Range(begin, BlockEnd(t, LineEnd(t, begin)));
    forall p: nat | at <= p && !Harmless(t, p)
      ensures InCut([first] + rest, p)
    {
      InFirst(first, rest, p);
    }
  }

  /** The pass replaces the private-key blocks of the text it is given, each whole, and nothing else. */
  lemma KeysAreReplaced(t: string) returns (cuts: seq<Range>)
    ensures Progresses(PrivateKeyDecider()) && InOrder(t, 0, cuts)
    ensures Pass(PrivateKeyDecider(), REDACTED_PRIVATE_KEY, t, 0) == Filled(t, 0, cuts, REDACTED_PRIVATE_KEY)
    ensures forall r :: r in cuts ==> KeyBlock(t, r)
    ensures forall p: nat :: !Harmless(t, p) ==> InCut(cuts, p)
  {
    hide Pass, Cuts, Filled, KeyBlock, Harmless, InCut;
    KeysProgress();
    KeysAreLocal();
    PassFills(PrivateKeyDecider(), REDACTED_PRIVATE_KEY, t);
    CutsAreKeys(t, 0);
    cuts := Cuts(PrivateKeyDecider(), t, 0);
  }
}
