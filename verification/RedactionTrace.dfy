/** Where the characters of a text go while ranges of it are replaced by the mark, one after another. */
module RedactionTrace {
  import opened Text
  import opened RedactionPass

  datatype Edit = Edit(from: nat, to: nat)

  predicate IsBreak(c: char) { c == '\r' || c == '\n' }

  /** A range is replaced, or the mark is put where a line ends. */
  predicate Fine(t: string, e: Edit) {
    e.from <= e.to <= |t| && (e.from < e.to || e.from == |t| || IsBreak(t[e.from]))
  }

  function After(t: string, e: Edit): string
    requires Fine(t, e)
  {
    Replaced(t, e.from, e.to, REDACTED)
  }

  predicate AllFine(t: string, edits: seq<Edit>)
    decreases |edits|
  {
    edits == [] || (Fine(t, edits[0]) && AllFine(After(t, edits[0]), edits[1..]))
  }

  function Edited(t: string, edits: seq<Edit>): string
    requires AllFine(t, edits)
    decreases |edits|
  {
    if edits == [] then t else Edited(After(t, edits[0]), edits[1..])
  }

  function Move(e: Edit, p: nat): Option<nat>
    requires e.from <= e.to
  {
    if p < e.from then Some(p) else if p < e.to then None else Some(p - e.to + e.from + |REDACTED|)
  }

  /** Where the character at `p` stands in the end; None when it was replaced. */
  function Track(edits: seq<Edit>, p: nat): Option<nat>
    decreases |edits|
  {
    if edits == [] then Some(p)
    else if edits[0].from > edits[0].to then None
    else
      var moved := Move(edits[0], p);
      if moved.None? then None else Track(edits[1..], moved.value)
  }

  lemma {:induction false} EditedConcat(t: string, a: seq<Edit>, b: seq<Edit>)
    requires AllFine(t, a) && AllFine(Edited(t, a), b)
    ensures AllFine(t, a + b) && Edited(t, a + b) == Edited(Edited(t, a), b)
    decreases |a|
  {
    hide Fine, After;
    if a == [] {
      assert a + b == b;
    } else {
      EditedConcat(After(t, a[0]), a[1..], b);
      assert (a + b)[1..] == a[1..] + b;
    }
  }

  // ----- the edits of a pass

  /** The decisions replace only ranges, or put the mark at the end of a line. */
  ghost predicate FineDecider(decide: Decider) {
    forall t: string, at: nat :: at <= |t| && decide(t, at).Replace? ==> Fine(t, Edit(decide(t, at).from, decide(t, at).to))
  }

  function EditsOf(decide: Decider, t: string, at: nat): seq<Edit>
    requires Progresses(decide) && at <= |t|
    decreases |t| - at
  {
    match decide(t, at)
    case Done => []
    case Skip(next) => assert Allowed(t, at, decide(t, at)); EditsOf(decide, t, next)
    case Replace(from, to) =>
      assert Allowed(t, at, decide(t, at));
      [Edit(from, to)] + EditsOf(decide, Replaced(t, from, to, REDACTED), from + |REDACTED|)
  }

  lemma {:induction false} PassIsEdits(decide: Decider, t: string, at: nat)
    requires Progresses(decide) && FineDecider(decide) && at <= |t|
    ensures AllFine(t, EditsOf(decide, t, at)) && Edited(t, EditsOf(decide, t, at)) == Pass(decide, REDACTED, t, at)
    decreases |t| - at
  {
    hide Fine, Replaced;
    assert Allowed(t, at, decide(t, at));
    match decide(t, at)
    case Done =>
    case Skip(next) => PassIsEdits(decide, t, next);
    case Replace(from, to) =>
      ReplacedLength(t, from, to, REDACTED);
      assert Fine(t, Edit(from, to));
      var after := Replaced(t, from, to, REDACTED);
      PassIsEdits(decide, after, from + |REDACTED|);
      var rest := EditsOf(decide, after, from + |REDACTED|);
      assert ([Edit(from, to)] + rest)[1..] == rest;
  }

  // ----- words that cannot come from the mark

  /** No letter of the mark or too long for it, without its brackets, and on one line. */
  predicate Foreign(word: string) {
    && word != "" && '[' !in word && ']' !in word
    && (forall k :: 0 <= k < |word| ==> !IsBreak(word[k]))
    && (|word| > 8 || forall k :: 0 <= k < |word| ==> word[k] !in "redact")
  }

  lemma MarkLetters(k: nat)
    requires 0 < k < 9
    ensures LowerChar(REDACTED[k]) in "redact"
  {}

  lemma AfterParts(t: string, e: Edit)
    requires Fine(t, e)
    ensures var after, next := After(t, e), e.from + |REDACTED|;
            && |after| == next + |t| - e.to
            && (forall k :: 0 <= k < e.from ==> after[k] == t[k])
            && (forall k :: e.from <= k < next ==> after[k] == REDACTED[k - e.from])
            && (forall k :: next <= k < |after| ==> after[k] == t[k - next + e.to])
  {
    ReplacedParts(t, e.from, e.to, REDACTED);
  }

  /** A word none of whose characters is replaced stays whole. */
  lemma WordMoves(t: string, e: Edit, word: string, p: nat)
    requires Fine(t, e) && Foreign(word) && At(t, word, p)
    requires forall k :: p <= k < p + |word| ==> Move(e, k).Some?
    ensures p + |word| <= |t| && (p + |word| <= e.from || e.to <= p)
    ensures At(After(t, e), word, Move(e, p).value) && Move(e, p).value + |word| <= |After(t, e)|
  {
    hide After;
    AfterParts(t, e);
    assert e.from < e.to ==> Move(e, e.from).None?;
    if p < e.from < p + |word| {
      ForeignChar(word, e.from - p);
      CharAt(t, word, p, e.from - p);
    } else {
      var q := Move(e, p).value;
      forall k | 0 <= k < |word|
        ensures LowerChar(After(t, e)[q + k]) == word[k]
      {
        CharAt(t, word, p, k);
      }
    }
  }

  /** And a word of the text after the edit was there before. */
  lemma WordMoved(t: string, e: Edit, word: string, q: nat)
    requires Fine(t, e) && Foreign(word) && At(After(t, e), word, q)
    ensures q + |word| <= |After(t, e)| && (q + |word| <= e.from || e.from + |REDACTED| <= q)
    ensures At(t, word, MovedFrom(e, q)) && MovedFrom(e, q) + |word| <= |t|
    ensures forall k :: MovedFrom(e, q) <= k < MovedFrom(e, q) + |word| ==> Move(e, k) == Some(k - MovedFrom(e, q) + q)
  {
    hide After;
    AfterParts(t, e);
    var after := After(t, e);
    NotInside(after, e.from, word, q);
    var p := MovedFrom(e, q);
    forall k | 0 <= k < |word|
      ensures LowerChar(t[p + k]) == word[k]
    {
      CharAt(after, word, q, k);
    }
  }

  function MovedFrom(e: Edit, q: nat): nat {
    if q < e.from + |REDACTED| then q else q - |REDACTED| - e.from + e.to
  }

  lemma ForeignChar(word: string, k: nat)
    requires Foreign(word) && k < |word|
    ensures word[k] != '[' && word[k] != ']' && !IsBreak(word[k]) && (|word| <= 8 ==> word[k] !in "redact")
  {}

  lemma NotInside(t: string, a: nat, word: string, q: nat)
    requires Foreign(word) && At(t, word, q)
    requires a + |REDACTED| <= |t| && forall k :: a <= k < a + |REDACTED| ==> t[k] == REDACTED[k - a]
    ensures q + |word| <= a || a + |REDACTED| <= q
  {
    if q < a + |REDACTED| && a < q + |word| {
      var k := if q <= a then a - q else if q + |word| >= a + |REDACTED| then a + |REDACTED| - 1 - q else 0;
      ForeignChar(word, k);
      if q > a && q + |word| < a + |REDACTED| {
        MarkLetters(q - a);
      }
      CharAt(t, word, q, k);
    }
  }

  // ----- two words with nothing left between them

  /** `first` and then `second` stand untouched, and every excluded character between them was replaced. */
  ghost predicate Joined(t: string, edits: seq<Edit>, first: string, p: nat, second: string, q: nat, excluded: char -> bool) {
    && At(t, first, p) && At(t, second, q) && p + |first| <= q
    && (forall k :: p <= k < p + |first| ==> Track(edits, k).Some?)
    && (forall k :: q <= k < q + |second| ==> Track(edits, k).Some?)
    && (forall k :: p + |first| <= k < q && excluded(t[k]) ==> Track(edits, k).None?)
  }

  predicate NotInMark(excluded: char -> bool) { forall k :: 0 <= k < |REDACTED| ==> !excluded(REDACTED[k]) }

  lemma TrackFirst(edits: seq<Edit>, p: nat)
    requires edits != [] && edits[0].from <= edits[0].to
    ensures Track(edits, p) == if Move(edits[0], p).None? then None else Track(edits[1..], Move(edits[0], p).value)
  {}

  lemma JoinedMoves(t: string, edits: seq<Edit>, first: string, p: nat, second: string, q: nat, excluded: char -> bool)
    requires edits != [] && AllFine(t, edits) && Foreign(first) && Foreign(second) && NotInMark(excluded)
    requires Joined(t, edits, first, p, second, q, excluded)
    ensures Move(edits[0], p).Some? && Move(edits[0], q).Some?
    ensures Joined(After(t, edits[0]), edits[1..], first, Move(edits[0], p).value, second, Move(edits[0], q).value, excluded)
  {
    hide After, Foreign, At, Track;
    var e, rest := edits[0], edits[1..];
    WordIsSome(first);
    WordIsSome(second);
    forall k: nat
      ensures Track(edits, k) == if Move(e, k).None? then None else Track(rest, Move(e, k).value)
    {
      TrackFirst(edits, k);
    }
    WordMoves(t, e, first, p);
    WordMoves(t, e, second, q);
    AfterParts(t, e);
    var p', q' := Move(e, p).value, Move(e, q).value;
    forall k | p' <= k < p' + |first|
      ensures Track(rest, k).Some?
    {
      assert Move(e, p + (k - p')) == Some(k);
    }
    forall k | q' <= k < q' + |second|
      ensures Track(rest, k).Some?
    {
      assert Move(e, q + (k - q')) == Some(k);
    }
    forall k | p' + |first| <= k < q' && excluded(After(t, e)[k])
      ensures Track(rest, k).None?
    {
      var before := MovedFrom(e, k);
      assert Move(e, before) == Some(k) && t[before] == After(t, e)[k];
    }
  }

  lemma WordIsSome(word: string)
    requires Foreign(word)
    ensures |word| > 0
  {}

  lemma JoinedMoved(t: string, edits: seq<Edit>, first: string, p: nat, second: string, q: nat, excluded: char -> bool)
    requires edits != [] && AllFine(t, edits) && Foreign(first) && Foreign(second) && NotInMark(excluded)
    requires Joined(After(t, edits[0]), edits[1..], first, p, second, q, excluded)
    ensures var e := edits[0];
            && Joined(t, edits, first, MovedFrom(e, p), second, MovedFrom(e, q), excluded)
            && Move(e, MovedFrom(e, p)) == Some(p) && Move(e, MovedFrom(e, q)) == Some(q)
            && forall k :: MovedFrom(e, p) <= k < MovedFrom(e, p) + |first| ==> Move(e, k) == Some(k - MovedFrom(e, p) + p)
  {
    hide After, Foreign, At, Track;
    var e, rest := edits[0], edits[1..];
    WordIsSome(first);
    WordIsSome(second);
    forall k: nat
      ensures Track(edits, k) == if Move(e, k).None? then None else Track(rest, Move(e, k).value)
    {
      TrackFirst(edits, k);
    }
    WordMoved(t, e, first, p);
    WordMoved(t, e, second, q);
    AfterParts(t, e);
    var p', q' := MovedFrom(e, p), MovedFrom(e, q);
    forall k | p' <= k < p' + |first|
      ensures Track(edits, k).Some?
    {
      assert Move(e, p' + (k - p')) == Some(p + (k - p'));
    }
    forall k | q' <= k < q' + |second|
      ensures Track(edits, k).Some?
    {
      assert Move(e, q' + (k - q')) == Some(q + (k - q'));
    }
    forall k | p' + |first| <= k < q' && excluded(t[k])
      ensures Track(edits, k).None?
    {
      if Move(e, k).Some? {
        assert After(t, e)[Move(e, k).value] == t[k];
      }
    }
  }

  /** What is joined in the end stood apart at first, with everything excluded between replaced. */
  lemma {:induction false} JoinedForward(t: string, edits: seq<Edit>, first: string, p: nat, second: string, q: nat, excluded: char -> bool)
    requires AllFine(t, edits) && Foreign(first) && Foreign(second) && NotInMark(excluded)
    requires Joined(t, edits, first, p, second, q, excluded)
    ensures Track(edits, p).Some? && Track(edits, q).Some?
    ensures Joined(Edited(t, edits), [], first, Track(edits, p).value, second, Track(edits, q).value, excluded)
    decreases |edits|
  {
    hide After, Foreign, Joined, Move;
    if edits != [] {
      JoinedMoves(t, edits, first, p, second, q, excluded);
      JoinedForward(After(t, edits[0]), edits[1..], first, Move(edits[0], p).value, second, Move(edits[0], q).value, excluded);
    }
  }

  lemma {:induction false} JoinedBackward(t: string, edits: seq<Edit>, first: string, p: nat, second: string, q: nat, excluded: char -> bool)
    returns (p': nat, q': nat)
    requires AllFine(t, edits) && Foreign(first) && Foreign(second) && NotInMark(excluded)
    requires Joined(Edited(t, edits), [], first, p, second, q, excluded)
    ensures Joined(t, edits, first, p', second, q', excluded)
    ensures Track(edits, p') == Some(p) && Track(edits, q') == Some(q)
    ensures forall k :: p' <= k < p' + |first| ==> Track(edits, k) == Some(k - p' + p)
    decreases |edits|
  {
    hide After, Foreign, Joined, Move, MovedFrom;
    p', q' := p, q;
    if edits != [] {
      var p1, q1 := JoinedBackward(After(t, edits[0]), edits[1..], first, p, second, q, excluded);
      JoinedMoved(t, edits, first, p1, second, q1, excluded);
      p', q' := MovedFrom(edits[0], p1), MovedFrom(edits[0], q1);
      forall k | p' <= k < p' + |first|
        ensures Track(edits, k) == Some(k - p' + p)
      {
        assert Move(edits[0], k) == Some(k - p' + p1);
      }
    }
  }

  /** What is kept keeps its order. */
  lemma {:induction false} TrackIncreases(edits: seq<Edit>, a: nat, b: nat)
    requires a < b && Track(edits, a).Some? && Track(edits, b).Some?
    ensures Track(edits, a).value < Track(edits, b).value
    decreases |edits|
  {
    if edits != [] {
      TrackIncreases(edits[1..], Move(edits[0], a).value, Move(edits[0], b).value);
    }
  }
}
