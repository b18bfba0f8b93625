/** One pass over a text that replaces ranges while it searches on. */
module RedactionPass {
  import opened Text

  const REDACTED: string := "[REDACTED]"
  const REDACTED_PRIVATE_KEY: string := "[REDACTED PRIVATE KEY]"

  predicate IsSpace(c: char) { c == ' ' || c == '\t' || c == '\n' || c == '\U{C}' || c == '\r' }

  predicate IsIdentifier(c: char) { IsAlphanumeric(c) || c == '_' || c == '-' }

  predicate IsQuote(c: char) { c == '"' || c == '\'' }

  // ----- searching

  /** The text has the lower-case word here, in any case. */
  predicate At(t: string, word: string, p: nat) {
    p + |word| <= |t| && forall k :: 0 <= k < |word| ==> LowerChar(t[p + k]) == word[k]
  }

  lemma CharAt(t: string, word: string, p: nat, k: nat)
    requires At(t, word, p) && k < |word|
    ensures LowerChar(t[p + k]) == word[k]
  {}

  /** It depends on no character before or after it. */
  lemma AtSame(t: string, other: string, word: string, k: nat, n: nat)
    requires k + |word| <= n <= |t| && n <= |other| && t[..n] == other[..n]
    ensures At(t, word, k) <==> At(other, word, k)
  {
    forall j | 0 <= j < n
      ensures t[j] == other[j]
    {
      assert t[..n][j] == other[..n][j];
    }
  }

  function FindWord(t: string, word: string, start: nat): (r: Option<nat>)
    ensures r.Some? ==> start <= r.value && r.value + |word| <= |t| && At(t, word, r.value)
    ensures forall p :: start <= p && (r.Some? ==> p < r.value) ==> !At(t, word, p)
    decreases |t| - start
  {
    if start + |word| > |t| then None
    else if At(t, word, start) then Some(start)
    else if start == |t| then None
    else FindWord(t, word, start + 1)
  }

  /** It is the search in the lowered text. */
  lemma {:induction false} FindsLowered(t: string, word: string, start: nat)
    ensures FindWord(t, word, start) == FindFrom(Lower(t), word, start)
    decreases |t| - start
  {
    hide At, OccursAt;
    if start + |word| <= |t| {
      LoweredAt(t, word, start);
      if start < |t| {
        FindsLowered(t, word, start + 1);
      }
    }
  }

  lemma LoweredAt(t: string, word: string, p: nat)
    ensures At(t, word, p) <==> OccursAt(Lower(t), word, p)
  {
    if p + |word| <= |t| {
      var cut := Lower(t)[p..p + |word|];
      assert forall k :: 0 <= k < |word| ==> cut[k] == LowerChar(t[p + k]);
    }
  }

  /** The first position from `i` on whose character fails the test; the length when there is none. */
  function SkipWhile(t: string, i: nat, test: char -> bool): (r: nat)
    requires i <= |t|
    ensures i <= r <= |t| && (r < |t| ==> !test(t[r]))
    ensures forall k :: i <= k < r ==> test(t[k])
    decreases |t| - i
  {
    if i < |t| && test(t[i]) then SkipWhile(t, i + 1, test) else i
  }

  lemma SkipIs(t: string, i: nat, test: char -> bool, r: nat)
    requires i <= r <= |t| && (r < |t| ==> !test(t[r])) && forall k :: i <= k < r ==> test(t[k])
    ensures SkipWhile(t, i, test) == r
  {}

  // ----- one pass

  datatype Decision =
    | Done
    | Skip(next: nat)
    | Replace(from: nat, to: nat)

  predicate Allowed(t: string, at: nat, d: Decision) {
    match d
    case Done => true
    case Skip(next) => at < next <= |t|
    case Replace(from, to) => at <= from <= to <= |t| && at < to
  }

  type Decider = (string, nat) -> Decision

  /** Every decision leaves less of the text to search, even when the text grows. */
  ghost predicate Progresses(decide: Decider) {
    forall t: string, at: nat :: at <= |t| ==> Allowed(t, at, decide(t, at))
  }

  function Replaced(t: string, from: nat, to: nat, mark: string): string
    requires from <= to <= |t|
  {
    t[..from] + mark + t[to..]
  }

  function Pass(decide: Decider, mark: string, t: string, at: nat): string
    requires Progresses(decide) && at <= |t|
    decreases |t| - at
  {
    match decide(t, at)
    case Done => t
    case Skip(next) => assert Allowed(t, at, decide(t, at)); Pass(decide, mark, t, next)
    case Replace(from, to) =>
      assert Allowed(t, at, decide(t, at));
      Pass(decide, mark, Replaced(t, from, to, mark), from + |mark|)
  }

  lemma ReplacedLength(t: string, from: nat, to: nat, mark: string)
    requires from <= to <= |t|
    ensures |Replaced(t, from, to, mark)| == |t| - (to - from) + |mark|
    ensures to < |t| ==> Replaced(t, from, to, mark)[from + |mark|] == t[to]
  {}

  /** The three parts of the text after a replacement. */
  lemma ReplacedParts(t: string, from: nat, to: nat, mark: string)
    requires from <= to <= |t|
    ensures var after, next := Replaced(t, from, to, mark), from + |mark|;
            && |after| == next + |t| - to
            && after[..from] == t[..from] && after[from..next] == mark && after[next..] == t[to..]
            && forall k :: next <= k < |after| ==> after[k] == t[k - next + to]
  {
    var after, next := Replaced(t, from, to, mark), from + |mark|;
    assert after[next..] == t[to..];
    forall k | next <= k < |after|
      ensures after[k] == t[k - next + to]
    {
      assert after[k] == after[next..][k - next];
    }
  }

  /** One turn of a pass. */
  lemma PassStep(decide: Decider, mark: string, t: string, at: nat)
    requires Progresses(decide) && at <= |t|
    ensures match decide(t, at)
            case Done => Pass(decide, mark, t, at) == t
            case Skip(next) => at < next <= |t| && Pass(decide, mark, t, at) == Pass(decide, mark, t, next)
            case Replace(from, to) =>
              && at <= from <= to <= |t| && at < to
              && Pass(decide, mark, t, at) == Pass(decide, mark, Replaced(t, from, to, mark), from + |mark|)
  {
    assert Allowed(t, at, decide(t, at));
  }

  // ----- texts that agree from some place on

  ghost predicate Agree(t: string, i: nat, u: string, j: nat) {
    i <= |t| && j <= |u| && t[i..] == u[j..]
  }

  lemma AgreesWithin(t: string, i: nat, u: string, j: nat)
    requires Agree(t, i, u, j)
    ensures i <= |t| && j <= |u|
  {}

  lemma AgreeAt(t: string, i: nat, u: string, j: nat, k: nat)
    requires Agree(t, i, u, j) && i <= k <= |t|
    ensures |t| - i == |u| - j && k - i + j <= |u| && (k < |t| ==> t[k] == u[k - i + j])
    ensures Agree(t, k, u, k - i + j)
  {
    if k < |t| {
      assert t[k] == t[i..][k - i] && u[k - i + j] == u[j..][k - i];
    }
    assert t[k..] == t[i..][k - i..] && u[k - i + j..] == u[j..][k - i..];
  }

  lemma AgreeChars(t: string, i: nat, u: string, j: nat)
    requires Agree(t, i, u, j)
    ensures |t| - i == |u| - j
    ensures forall k: nat :: i <= k < |t| ==> t[k] == u[k - i + j]
  {
    forall k: nat | i <= k < |t|
      ensures t[k] == u[k - i + j]
    {
      AgreeAt(t, i, u, j, k);
    }
    AgreeAt(t, i, u, j, i);
  }

  lemma SkipInBoth(t: string, i: nat, u: string, j: nat, test: char -> bool)
    requires Agree(t, i, u, j)
    ensures SkipWhile(u, j, test) == SkipWhile(t, i, test) - i + j
  {
    AgreeChars(t, i, u, j);
    var end := SkipWhile(t, i, test);
    forall k | j <= k < end - i + j
      ensures test(u[k])
    {
      assert t[k - j + i] == u[k];
    }
    SkipIs(u, j, test, end - i + j);
  }

  lemma WordInBoth(t: string, i: nat, u: string, j: nat, word: string, k: nat)
    requires Agree(t, i, u, j) && i <= k
    ensures At(t, word, k) <==> At(u, word, k - i + j)
  {
    if At(t, word, k) {
      WordInOther(t, i, u, j, word, k);
    }
    if At(u, word, k - i + j) {
      WordInOther(u, j, t, i, word, k - i + j);
    }
  }

  lemma WordInOther(t: string, i: nat, u: string, j: nat, word: string, k: nat)
    requires Agree(t, i, u, j) && i <= k && At(t, word, k)
    ensures At(u, word, k - i + j)
  {
    AgreeChars(t, i, u, j);
    forall m | 0 <= m < |word|
      ensures LowerChar(u[k - i + j + m]) == word[m]
    {
      CharAt(t, word, k, m);
      assert t[k + m] == u[k + m - i + j];
    }
  }

  lemma {:induction false} FindWordInBoth(t: string, i: nat, u: string, j: nat, word: string)
    requires Agree(t, i, u, j)
    ensures FoundInBoth(FindWord(t, word, i), i, FindWord(u, word, j), j)
    decreases |t| - i
  {
    hide At;
    AgreeAt(t, i, u, j, i);
    WordInBoth(t, i, u, j, word, i);
    if i < |t| {
      AgreeAt(t, i, u, j, i + 1);
      FindWordInBoth(t, i + 1, u, j + 1, word);
    }
  }

  /** The same is found, at the same distance from where the texts begin to agree. */
  predicate FoundInBoth(found: Option<nat>, i: nat, other: Option<nat>, j: nat) {
    match found
    case None => other.None?
    case Some(p) => other.Some? && p - i == other.value - j
  }

  lemma {:induction false} FindTextInBoth(t: string, i: nat, u: string, j: nat, needle: string)
    requires Agree(t, i, u, j)
    ensures FoundInBoth(FindFrom(t, needle, i), i, FindFrom(u, needle, j), j)
    decreases |t| - i
  {
    hide OccursAt;
    AgreeAt(t, i, u, j, i);
    OccursInBoth(t, i, u, j, needle);
    if i < |t| {
      AgreeAt(t, i, u, j, i + 1);
      FindTextInBoth(t, i + 1, u, j + 1, needle);
    }
  }

  lemma OccursInBoth(t: string, i: nat, u: string, j: nat, needle: string)
    requires Agree(t, i, u, j)
    ensures OccursAt(t, needle, i) <==> OccursAt(u, needle, j)
  {
    if i + |needle| <= |t| {
      assert t[i..i + |needle|] == t[i..][..|needle|] && u[j..j + |needle|] == u[j..][..|needle|];
    }
  }

  // ----- what a pass leaves alone

  /** The same decision, at the same distance from where the texts begin to agree. */
  predicate SameDecision(d: Decision, i: nat, other: Decision, j: nat) {
    match d
    case Done => other.Done?
    case Skip(next) => other.Skip? && next - i == other.next - j
    case Replace(from, to) => other.Replace? && from - i == other.from - j && to - i == other.to - j
  }

  lemma SameLater(d: Decision, v: nat, c: Decision, w: nat, i: nat, j: nat)
    requires SameDecision(d, v, c, w) && v - i == w - j
    ensures SameDecision(d, i, c, j)
  {}

  /** From here on the texts agree, and so do the decisions about them. */
  ghost predicate Alike(decide: Decider, t: string, i: nat, u: string, j: nat) {
    && Agree(t, i, u, j)
    && forall k: nat :: i <= k <= |t| ==> SameDecision(decide(t, k), i, decide(u, k - i + j), j)
  }

  /** What the decisions replace does not change those about the text behind it. */
  ghost predicate Local(decide: Decider, mark: string) {
    forall t: string, at: nat :: at <= |t| && decide(t, at).Replace? ==> Untouched(decide, mark, t, decide(t, at).from, decide(t, at).to)
  }

  ghost predicate Untouched(decide: Decider, mark: string, t: string, from: nat, to: nat) {
    from <= to <= |t| && Alike(decide, t, to, Replaced(t, from, to, mark), from + |mark|)
  }

  datatype Range = Range(from: nat, to: nat)

  /** The ranges that the search comes upon when the text is left as it is. */
  function Cuts(decide: Decider, t: string, at: nat): seq<Range>
    requires Progresses(decide) && at <= |t|
    decreases |t| - at
  {
    match decide(t, at)
    case Done => []
    case Skip(next) => assert Allowed(t, at, decide(t, at)); Cuts(decide, t, next)
    case Replace(from, to) => assert Allowed(t, at, decide(t, at)); [Range(from, to)] + Cuts(decide, t, to)
  }

  /** Ranges of the text from `at` on, one behind the other. */
  predicate InOrder(t: string, at: nat, ranges: seq<Range>)
    decreases |ranges|
  {
    ranges == [] || (at <= ranges[0].from <= ranges[0].to <= |t| && InOrder(t, ranges[0].to, ranges[1..]))
  }

  /** The text from `at` on with the mark in place of each range. */
  function Filled(t: string, at: nat, ranges: seq<Range>, mark: string): string
    requires at <= |t| && InOrder(t, at, ranges)
    decreases |ranges|
  {
    if ranges == [] then t[at..] else t[at..ranges[0].from] + mark + Filled(t, ranges[0].to, ranges[1..], mark)
  }

  lemma CutsStep(decide: Decider, t: string, at: nat)
    requires Progresses(decide) && at <= |t|
    ensures match decide(t, at)
            case Done => Cuts(decide, t, at) == []
            case Skip(next) => at < next <= |t| && Cuts(decide, t, at) == Cuts(decide, t, next)
            case Replace(from, to) =>
              at <= from <= to <= |t| && at < to && Cuts(decide, t, at) == [Range(from, to)] + Cuts(decide, t, to)
  {
    assert Allowed(t, at, decide(t, at));
  }

  lemma {:induction false} CutsInOrder(decide: Decider, t: string, at: nat)
    requires Progresses(decide) && at <= |t|
    ensures InOrder(t, at, Cuts(decide, t, at))
    decreases |t| - at
  {
    hide Cuts;
    CutsStep(decide, t, at);
    match decide(t, at)
    case Done =>
    case Skip(next) => CutsInOrder(decide, t, next);
    case Replace(from, to) => CutsInOrder(decide, t, to);
  }

  lemma {:induction false} CutsInText(decide: Decider, t: string, at: nat)
    requires Progresses(decide) && at <= |t|
    ensures forall r :: r in Cuts(decide, t, at) ==> at <= r.from <= r.to <= |t|
    decreases |t| - at
  {
    hide Cuts;
    CutsStep(decide, t, at);
    match decide(t, at)
    case Done =>
    case Skip(next) => CutsInText(decide, t, next);
    case Replace(from, to) => CutsInText(decide, t, to);
  }

  lemma AlikeAt(decide: Decider, t: string, i: nat, u: string, j: nat, k: nat)
    requires Alike(decide, t, i, u, j) && i <= k <= |t|
    ensures k - i + j <= |u| && Alike(decide, t, k, u, k - i + j)
    ensures SameDecision(decide(t, k), i, decide(u, k - i + j), j)
  {
    hide Agree;
    AgreeAt(t, i, u, j, k);
    forall m: nat | k <= m <= |t|
      ensures SameDecision(decide(t, m), k, decide(u, m - k + (k - i + j)), k - i + j)
    {
      assert SameDecision(decide(t, m), i, decide(u, m - i + j), j);
    }
  }

  lemma AlikeBoth(decide: Decider, t: string, i: nat, u: string, j: nat, w: string, k: nat)
    requires Alike(decide, t, i, u, j) && Alike(decide, u, j, w, k)
    ensures Alike(decide, t, i, w, k)
  {
    AgreeChars(t, i, u, j);
    forall m: nat | i <= m <= |t|
      ensures SameDecision(decide(t, m), i, decide(w, m - i + k), k)
    {
      assert SameDecision(decide(t, m), i, decide(u, m - i + j), j);
      assert SameDecision(decide(u, m - i + j), j, decide(w, (m - i + j) - j + k), k);
    }
  }

  /** A text is searched like itself. */
  lemma AlikeItself(decide: Decider, t: string, at: nat)
    requires at <= |t|
    ensures Alike(decide, t, at, t, at)
  {}

  lemma FilledLater(t: string, at: nat, next: nat, ranges: seq<Range>, mark: string)
    requires at <= next <= |t| && InOrder(t, next, ranges)
    ensures InOrder(t, at, ranges) && Filled(t, at, ranges, mark) == t[at..next] + Filled(t, next, ranges, mark)
  {
    if ranges != [] {
      assert t[at..ranges[0].from] == t[at..next] + t[next..ranges[0].from];
    }
  }

  lemma FilledFirst(t: string, at: nat, r: Range, rest: seq<Range>, mark: string)
    requires at <= r.from <= r.to <= |t| && InOrder(t, r.to, rest)
    ensures InOrder(t, at, [r] + rest)
    ensures Filled(t, at, [r] + rest, mark) == t[at..r.from] + mark + Filled(t, r.to, rest, mark)
  {
    assert ([r] + rest)[1..] == rest;
  }

  lemma AgreeSlice(t: string, i: nat, u: string, j: nat, n: nat)
    requires Agree(t, i, u, j) && i <= n <= |t|
    ensures j <= n - i + j <= |u| && t[i..n] == u[j..n - i + j]
  {
    AgreeAt(t, i, u, j, n);
    assert t[i..n] == t[i..][..n - i] && u[j..n - i + j] == u[j..][..n - i];
  }

  /** A pass over a text that agrees with the input from here on is what was searched already, and the rest of the
      input with the mark in place of what the search of the input comes upon. */
  lemma {:induction false} PassFillsRest(decide: Decider, mark: string, t: string, i: nat, u: string, j: nat)
    requires Progresses(decide) && Local(decide, mark) && Alike(decide, t, i, u, j)
    ensures InOrder(t, i, Cuts(decide, t, i))
    ensures Pass(decide, mark, u, j) == u[..j] + Filled(t, i, Cuts(decide, t, i), mark)
    decreases |t| - i
  {
    hide Pass, Cuts, Filled, InOrder, Replaced, Alike;
    AlikeAgree(decide, t, i, u, j);
    AlikeAt(decide, t, i, u, j, i);
    PassStep(decide, mark, u, j);
    CutsStep(decide, t, i);
    CutsInOrder(decide, t, i);
    match decide(t, i)
    case Done => NothingFilled(t, i, u, j, mark);
    case Skip(next) =>
      var next' := next - i + j;
      AlikeAt(decide, t, i, u, j, next);
      PassFillsRest(decide, mark, t, next, u, next');
      FilledLater(t, i, next, Cuts(decide, t, next), mark);
      AgreeSlice(t, i, u, j, next);
      Prefix(u, j, next', Filled(t, next, Cuts(decide, t, next), mark));
    case Replace(from, to) =>
      var from', to' := from - i + j, to - i + j;
      var after := Replaced(u, from', to', mark);
      AlikeAt(decide, t, i, u, j, to);
      assert Untouched(decide, mark, u, decide(u, j).from, decide(u, j).to);
      AlikeBoth(decide, t, to, u, to', after, from' + |mark|);
      PassFillsRest(decide, mark, t, to, after, from' + |mark|);
      FilledFirst(t, i, Range(from, to), Cuts(decide, t, to), mark);
      AgreeSlice(t, i, u, j, from);
      ReplacedFront(u, j, from', to', mark, Filled(t, to, Cuts(decide, t, to), mark));
  }

  lemma AlikeAgree(decide: Decider, t: string, i: nat, u: string, j: nat)
    requires Alike(decide, t, i, u, j)
    ensures Agree(t, i, u, j)
  {}

  lemma NothingFilled(t: string, i: nat, u: string, j: nat, mark: string)
    requires Agree(t, i, u, j)
    ensures InOrder(t, i, []) && u == u[..j] + Filled(t, i, [], mark)
  {}

  lemma Prefix(u: string, j: nat, next: nat, tail: string)
    requires j <= next <= |u|
    ensures u[..next] + tail == u[..j] + (u[j..next] + tail)
  {}

  lemma ReplacedFront(u: string, j: nat, from: nat, to: nat, mark: string, tail: string)
    requires j <= from <= to <= |u|
    ensures from + |mark| <= |Replaced(u, from, to, mark)|
    ensures Replaced(u, from, to, mark)[..from + |mark|] + tail == u[..j] + (u[j..from] + mark + tail)
  {}

  /** The result of a pass is the input with the mark in place of each range that the search of the input comes upon. */
  ghost predicate Fills(decide: Decider, mark: string, t: string, cuts: seq<Range>) {
    && Progresses(decide) && cuts == Cuts(decide, t, 0) && InOrder(t, 0, cuts)
    && Pass(decide, mark, t, 0) == Filled(t, 0, cuts, mark)
  }

  lemma PassFills(decide: Decider, mark: string, t: string)
    requires Progresses(decide) && Local(decide, mark)
    ensures Fills(decide, mark, t, Cuts(decide, t, 0))
  {
    AlikeItself(decide, t, 0);
    PassFillsRest(decide, mark, t, 0, t, 0);
  }

  ghost predicate InCut(cuts: seq<Range>, p: nat) { exists r :: r in cuts && r.from <= p < r.to }

  lemma InFirst(first: Range, rest: seq<Range>, p: nat)
    ensures InCut([first] + rest, p) <==> first.from <= p < first.to || InCut(rest, p)
  {
    var cuts := [first] + rest;
    assert first in cuts && forall r :: r in rest ==> r in cuts;
  }
}
