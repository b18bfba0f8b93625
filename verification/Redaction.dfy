/** What the redaction of names, headers and schemes removes, and that no later pass brings it back. */
module Redaction {
  import opened Text
  import opened RedactionPass

  predicate IsTerminator(c: char) { IsSpace(c) || c in "&,;\"')]}<>" }

  predicate EndsScheme(c: char) { IsSpace(c) || c in ",;\"')]}" }

  predicate InLine(c: char) { c != '\r' && c != '\n' }

  function Not(test: char -> bool): char -> bool { c => !test(c) }

  function Is(q: char): char -> bool { c => c == q }

  // ----- decisions

  function AfterName(t: string, end: nat): (separator: nat)
    requires end <= |t|
    ensures end <= separator <= |t|
  {
    SkipWhile(t, if end < |t| && IsQuote(t[end]) then end + 1 else end, IsSpace)
  }

  predicate IsSeparator(c: char) { c == '=' || c == ':' }

  /** `name = value` and `"name": "value"`, with any spaces around the separator. */
  function DecideNamed(t: string, name: string, at: nat): Decision {
    match FindWord(t, name, at)
    case None => Done
    case Some(start) =>
      var end := start + |name|;
      if (start > 0 && IsIdentifier(t[start - 1])) || (end < |t| && IsIdentifier(t[end])) then Skip(end)
      else
        var separator := AfterName(t, end);
        if separator >= |t| || !IsSeparator(t[separator]) then Skip(end)
        else
          var v := SkipWhile(t, separator + 1, IsSpace);
          if v >= |t| then Done else DecideValue(t, v)
  }

  /** To the closing quote, or to a character that ends an unquoted value. */
  function DecideValue(t: string, v: nat): Decision
    requires v < |t|
  {
    if IsQuote(t[v]) then
      var close := SkipWhile(t, v + 1, Not(Is(t[v])));
      if close > v + 1 then Replace(v + 1, close) else Skip(close)
    else
      var stop := SkipWhile(t, v, Not(IsTerminator));
      if stop > v then Replace(v, stop) else Skip(v + 1)
  }

  /** `bearer token`, for the schemes of an authorization. */
  function DecideScheme(t: string, scheme: string, at: nat): Decision {
    match FindWord(t, scheme, at)
    case None => Done
    case Some(start) =>
      var end := start + |scheme|;
      if start > 0 && IsAlphanumeric(t[start - 1]) then Skip(end)
      else if end >= |t| || !IsSpace(t[end]) then Skip(end)
      else
        var v := SkipWhile(t, end, IsSpace);
        var stop := SkipWhile(t, v, Not(EndsScheme));
        if stop > v then Replace(v, stop) else Skip(v)
  }

  /** A header, to the end of its line. */
  function DecideHeader(t: string, header: string, at: nat): Decision {
    match FindWord(t, header, at)
    case None => Done
    case Some(start) =>
      var v := start + |header|;
      if start > 0 && IsIdentifier(t[start - 1]) then Skip(v) else Replace(v, SkipWhile(t, v, InLine))
  }

  // ----- what must not be left

  datatype Kind =
    | Named(word: string)
    | Scheme(word: string)
    | Header(word: string)

  function Decide(kind: Kind): Decider {
    match kind
    case Named(name) => (t: string, at: nat) => DecideNamed(t, name, at)
    case Scheme(scheme) => (t: string, at: nat) => DecideScheme(t, scheme, at)
    case Header(header) => (t: string, at: nat) => DecideHeader(t, header, at)
  }

  predicate IsWord(word: string) {
    word != "" && forall k :: 0 <= k < |word| ==> IsIdentifier(word[k])
  }

  /** The words each kind searches for. */
  predicate ValidKind(kind: Kind) {
    match kind
    case Named(name) => IsWord(name) && name != "redacted"
    case Scheme(scheme) => IsWord(scheme) && forall k :: 0 <= k < |scheme| ==> IsAlphanumeric(scheme[k])
    case Header(header) => |header| > 1 && header[|header| - 1] == ':' && IsWord(header[..|header| - 1])
  }

  predicate Delimited(t: string, word: string, p: nat) {
    && At(t, word, p)
    && (p > 0 ==> !IsIdentifier(t[p - 1]))
    && (p + |word| < |t| ==> !IsIdentifier(t[p + |word|]))
  }

  /** A word of the kind stands at `p` where it introduces a value. */
  predicate Introduces(kind: Kind, t: string, p: nat) {
    match kind
    case Named(name) =>
      Delimited(t, name, p) && AfterName(t, p + |name|) < |t| && IsSeparator(t[AfterName(t, p + |name|)])
    case Scheme(scheme) =>
      && At(t, scheme, p) && (p > 0 ==> !IsAlphanumeric(t[p - 1]))
      && p + |scheme| < |t| && IsSpace(t[p + |scheme|])
    case Header(header) => At(t, header, p) && (p > 0 ==> !IsIdentifier(t[p - 1]))
  }

  /** Where the value introduced at `p` begins. */
  function ValueAt(kind: Kind, t: string, p: nat): (v: nat)
    requires Introduces(kind, t, p)
    ensures p + |kind.word| <= v <= |t|
  {
    match kind
    case Named(name) => SkipWhile(t, AfterName(t, p + |name|) + 1, IsSpace)
    case Scheme(scheme) => SkipWhile(t, p + |scheme|, IsSpace)
    case Header(header) => p + |header|
  }

  /** The value introduced at `p`: to the closing quote, to a character that ends it, or to the end of the line. */
  function ValueOf(kind: Kind, t: string, p: nat): (value: Range)
    requires Introduces(kind, t, p)
    ensures ValueAt(kind, t, p) <= value.from <= value.to <= |t|
    ensures Reaches(kind, t, ValueAt(kind, t, p), value.from)
  {
    var v := ValueAt(kind, t, p);
    match kind
    case Named(_) =>
      if v < |t| && IsQuote(t[v]) then Range(v + 1, SkipWhile(t, v + 1, Not(Is(t[v]))))
      else Range(v, SkipWhile(t, v, Not(IsTerminator)))
    case Scheme(_) => Range(v, SkipWhile(t, v, Not(EndsScheme)))
    case Header(_) => Range(v, SkipWhile(t, v, InLine))
  }

  /** It introduces a value that is there; a header's is, even when its line ends at once. */
  predicate HasValue(kind: Kind, t: string, p: nat) {
    Introduces(kind, t, p) && (kind.Header? || ValueOf(kind, t, p).from < ValueOf(kind, t, p).to)
  }

  /** The value that is there. */
  predicate Gives(kind: Kind, t: string, p: nat, value: Range) { HasValue(kind, t, p) && ValueOf(kind, t, p) == value }

  predicate Marked(t: string, v: nat) { v + |REDACTED| <= |t| && forall k :: v <= k < v + |REDACTED| ==> t[k] == REDACTED[k - v] }

  /** The value is empty, or what stands in its place is the mark. */
  predicate Quiet(kind: Kind, t: string, v: nat)
    requires v <= |t|
  {
    match kind
    case Named(_) =>
      v == |t|
      || (if IsQuote(t[v]) then v + 1 == |t| || t[v + 1] == t[v] || Marked(t, v + 1) else IsTerminator(t[v]) || Marked(t, v))
    case Scheme(_) => v == |t| || EndsScheme(t[v]) || Marked(t, v)
    case Header(_) => Marked(t, v)
  }

  predicate Covered(kind: Kind, t: string, p: nat) { Introduces(kind, t, p) ==> Quiet(kind, t, ValueAt(kind, t, p)) }

  ghost predicate AllCovered(kind: Kind, t: string) { forall p: nat :: Covered(kind, t, p) }

  // ----- one replacement

  predicate Leads(c: char) { IsSeparator(c) || IsQuote(c) || IsSpace(c) || c == '/' }

  /** Every replacement comes after a separator, a quote, a space or a slash, and before the end or no identifier. */
  ghost predicate Edge(t: string, a: nat, e: nat) {
    0 < a <= e <= |t| && Leads(t[a - 1]) && (e < |t| ==> !IsIdentifier(t[e]))
  }

  function Marks(t: string, a: nat, e: nat): string
    requires a <= e <= |t|
  {
    Replaced(t, a, e, REDACTED)
  }

  lemma MarksAt(t: string, a: nat, e: nat)
    requires a <= e <= |t|
    ensures var after := Marks(t, a, e);
            && |after| == |t| - (e - a) + |REDACTED|
            && (forall k :: 0 <= k < a ==> after[k] == t[k])
            && (forall k :: a <= k < a + |REDACTED| ==> after[k] == REDACTED[k - a])
            && after[a] == '['
            && (forall k :: a + |REDACTED| <= k < |after| ==> after[k] == t[k - a - |REDACTED| + e])
            && Marked(after, a)
  {}

  /** One position, in front of the mark or behind it. */
  lemma MarksChar(t: string, a: nat, e: nat, k: nat)
    requires a <= e <= |t|
    ensures |Marks(t, a, e)| == |t| - (e - a) + |REDACTED| && Marks(t, a, e)[a] == '['
    ensures k < a ==> Marks(t, a, e)[k] == t[k]
    ensures a + |REDACTED| <= k < |Marks(t, a, e)| ==> Marks(t, a, e)[k] == t[Before(a, e, k)]
  {
    MarksAt(t, a, e);
  }

  /** Where a position behind the mark was before. */
  function Before(a: nat, e: nat, k: nat): nat
    requires a + |REDACTED| <= k && a <= e
  {
    k - a - |REDACTED| + e
  }

  predicate Searchable(word: string) {
    && word != "" && IsIdentifier(word[0])
    && forall k :: 0 <= k < |word| ==> IsIdentifier(word[k]) || word[k] == ':'
  }

  /** No word reaches into the mark or begins right behind it. */
  lemma WordMoved(t: string, a: nat, e: nat, word: string, p: nat)
    requires Edge(t, a, e) && Searchable(word)
    requires At(Marks(t, a, e), word, p) && (p > 0 ==> !IsAlphanumeric(Marks(t, a, e)[p - 1]))
    ensures p + |word| <= a || p > a + |REDACTED| || (p == a + 1 && |word| <= 8)
    ensures p + |word| <= a ==> At(t, word, p) && (p > 0 ==> Marks(t, a, e)[p - 1] == t[p - 1])
    ensures p > a + |REDACTED| ==>
              At(t, word, Before(a, e, p)) && Before(a, e, p) > e && Marks(t, a, e)[p - 1] == t[Before(a, e, p) - 1]
  {
    hide Marks;
    MarksAt(t, a, e);
    var after := Marks(t, a, e);
    if p <= a < p + |word| {
      CharAt(after, word, p, a - p);
      assert false;
    } else if a + 1 < p <= a + |REDACTED| {
      CharAt(after, word, p, 0);
      assert false;
    } else if p == a + 1 && |word| > 8 {
      CharAt(after, word, p, 8);
      assert false;
    }
  }

  /** A scan that stops before the mark is the same; one that comes to it stops there, unless it takes brackets. */
  lemma SkipBefore(t: string, a: nat, e: nat, i: nat, test: char -> bool)
    requires i <= a <= e <= |t|
    ensures |Marks(t, a, e)| >= a
    ensures SkipWhile(t, i, test) < a ==> SkipWhile(Marks(t, a, e), i, test) == SkipWhile(t, i, test)
    ensures SkipWhile(t, i, test) >= a && !test('[') ==> SkipWhile(Marks(t, a, e), i, test) == a
  {
    hide Marks;
    MarksAt(t, a, e);
    var after, r := Marks(t, a, e), SkipWhile(t, i, test);
    if r < a {
      SkipIs(after, i, test, r);
    } else if !test('[') {
      SkipIs(after, i, test, a);
    }
  }

  lemma SkipBehind(t: string, a: nat, e: nat, i: nat, test: char -> bool)
    requires a <= e <= |t| && a + |REDACTED| <= i <= |Marks(t, a, e)|
    ensures Before(a, e, i) <= |t|
    ensures var r := SkipWhile(Marks(t, a, e), i, test);
            SkipWhile(t, Before(a, e, i), test) == Before(a, e, r)
  {
    hide Marks;
    MarksAt(t, a, e);
    var after := Marks(t, a, e);
    var r := SkipWhile(after, i, test);
    forall k | Before(a, e, i) <= k < Before(a, e, r)
      ensures test(t[k])
    {
      assert after[k - e + a + |REDACTED|] == t[k];
    }
    SkipIs(t, Before(a, e, i), test, Before(a, e, r));
  }

  lemma MarkedKept(t: string, a: nat, e: nat, v: nat)
    requires Edge(t, a, e) && v < a && Marked(t, v)
    ensures Marked(Marks(t, a, e), v)
  {
    hide Marks;
    MarksAt(t, a, e);
    assert t[a - 1] != '[' && !IsIdentifier(t[a - 1]) && t[a - 1] != ']';
  }

  lemma MarkedBehind(t: string, a: nat, e: nat, v: nat)
    requires a <= e <= |t| && a + |REDACTED| <= v && Marked(t, Before(a, e, v))
    ensures Marked(Marks(t, a, e), v)
  {
    hide Marks;
    MarksAt(t, a, e);
    forall k | v <= k < v + |REDACTED|
      ensures Marks(t, a, e)[k] == REDACTED[k - v]
    {
      assert t[Before(a, e, k)] == REDACTED[Before(a, e, k) - Before(a, e, v)];
    }
  }

  /** The replacement stands in the value that begins at `v`. */
  predicate Reaches(kind: Kind, t: string, v: nat, a: nat) {
    v == a || (kind.Named? && v < |t| && IsQuote(t[v]) && v + 1 == a)
  }

  lemma QuietKept(kind: Kind, t: string, a: nat, e: nat, v: nat)
    requires Edge(t, a, e) && v <= a && (Quiet(kind, t, v) || Reaches(kind, t, v, a))
    ensures |Marks(t, a, e)| >= a && (v < a || Marked(Marks(t, a, e), v)) && Quiet(kind, Marks(t, a, e), v)
  {
    hide Marks;
    MarksAt(t, a, e);
    var after := Marks(t, a, e);
    if v < a {
      if Marked(t, v) {
        MarkedKept(t, a, e, v);
      }
      if kind.Named? && IsQuote(t[v]) && v + 1 < a && Marked(t, v + 1) {
        MarkedKept(t, a, e, v + 1);
      }
    }
  }

  lemma QuietBehind(kind: Kind, t: string, a: nat, e: nat, v: nat)
    requires a <= e <= |t| && a + |REDACTED| <= v <= |Marks(t, a, e)|
    requires Before(a, e, v) <= |t| && Quiet(kind, t, Before(a, e, v))
    ensures Quiet(kind, Marks(t, a, e), v)
  {
    hide Marks;
    MarksAt(t, a, e);
    if Marked(t, Before(a, e, v)) {
      MarkedBehind(t, a, e, v);
    }
    if Marked(t, Before(a, e, v) + 1) {
      MarkedBehind(t, a, e, v + 1);
    }
  }

  lemma WordsAreSearchable(kind: Kind)
    requires ValidKind(kind)
    ensures Searchable(kind.word)
  {
    if kind.Header? {
      var name := kind.word[..|kind.word| - 1];
      assert forall k :: 0 <= k < |name| ==> kind.word[k] == name[k];
    }
  }

  /** What stands in front of the replacement introduces the same value, or one that the mark now begins. */
  lemma IntroducedBefore(kind: Kind, t: string, a: nat, e: nat, p: nat)
    requires ValidKind(kind) && Edge(t, a, e) && p + |kind.word| <= a
    requires Introduces(kind, Marks(t, a, e), p)
    ensures var after := Marks(t, a, e);
            var v := ValueAt(kind, after, p);
            v <= a && Introduces(kind, t, p) && (ValueAt(kind, t, p) == v || (v == a && ValueAt(kind, t, p) > a))
  {
    hide Marks, Searchable, Introduces, ValueAt, IsIdentifier, IsAlphanumeric;
    WordsAreSearchable(kind);
    IntroducedAt(kind, Marks(t, a, e), p);
    WordMoved(t, a, e, kind.word, p);
    EndsBefore(t, a, e, kind, p);
    match kind
    case Named(name) => NamedIntroduced(t, a, e, name, p);
    case Scheme(scheme) => SchemeIntroduced(t, a, e, scheme, p);
    case Header(header) => HeaderIntroduced(t, a, e, header, p);
  }

  lemma NamedIntroduced(t: string, a: nat, e: nat, name: string, p: nat)
    requires Edge(t, a, e) && p + |name| < a && At(t, name, p) && Introduces(Named(name), Marks(t, a, e), p)
    requires p > 0 ==> |Marks(t, a, e)| >= p && Marks(t, a, e)[p - 1] == t[p - 1]
    ensures var v := ValueAt(Named(name), Marks(t, a, e), p);
            && v <= a && Introduces(Named(name), t, p)
            && (ValueAt(Named(name), t, p) == v || (v == a && ValueAt(Named(name), t, p) > a))
  {
    hide Marks, SkipWhile, At, AfterName, IsIdentifier, IsSpace;
    MarksChar(t, a, e, p + |name|);
    NamedBefore(t, a, e, p + |name|);
  }

  lemma SchemeIntroduced(t: string, a: nat, e: nat, scheme: string, p: nat)
    requires Edge(t, a, e) && p + |scheme| < a && At(t, scheme, p) && Introduces(Scheme(scheme), Marks(t, a, e), p)
    requires p > 0 ==> |Marks(t, a, e)| >= p && Marks(t, a, e)[p - 1] == t[p - 1]
    ensures var v := ValueAt(Scheme(scheme), Marks(t, a, e), p);
            && v <= a && Introduces(Scheme(scheme), t, p)
            && (ValueAt(Scheme(scheme), t, p) == v || (v == a && ValueAt(Scheme(scheme), t, p) > a))
  {
    hide Marks, SkipWhile, At, IsAlphanumeric, IsSpace;
    MarksChar(t, a, e, p + |scheme|);
    BracketIsNoSpace();
    SkipBefore(t, a, e, p + |scheme|, IsSpace);
  }

  lemma HeaderIntroduced(t: string, a: nat, e: nat, header: string, p: nat)
    requires Edge(t, a, e) && p + |header| <= a && At(t, header, p) && Introduces(Header(header), Marks(t, a, e), p)
    requires p > 0 ==> |Marks(t, a, e)| >= p && Marks(t, a, e)[p - 1] == t[p - 1]
    ensures Introduces(Header(header), t, p) && ValueAt(Header(header), t, p) == ValueAt(Header(header), Marks(t, a, e), p) <= a
  {
    hide Marks, At, IsIdentifier;
  }

  lemma BracketIsNoSpace()
    ensures !IsSpace('[')
  {}

  lemma EndsBefore(t: string, a: nat, e: nat, kind: Kind, p: nat)
    requires ValidKind(kind) && Edge(t, a, e) && p + |kind.word| <= a && At(t, kind.word, p)
    ensures !kind.Header? ==> p + |kind.word| < a
  {
    if !kind.Header? {
      assert IsIdentifier(kind.word[|kind.word| - 1]);
      CharAt(t, kind.word, p, |kind.word| - 1);
    }
  }

  /** A separator in front of the mark was there before; the value after it may have become the mark. */
  lemma NamedBefore(t: string, a: nat, e: nat, end: nat)
    requires Edge(t, a, e) && end < a && a <= |Marks(t, a, e)|
    requires var after := Marks(t, a, e); AfterName(after, end) < |after| && IsSeparator(after[AfterName(after, end)])
    ensures var after, separator := Marks(t, a, e), AfterName(t, end);
            && separator < a && AfterName(after, end) == separator && t[separator] == after[separator]
            && var was, v := SkipWhile(t, separator + 1, IsSpace), SkipWhile(after, separator + 1, IsSpace);
            v <= a && (was == v || (v == a && was > a))
  {
    hide Marks, SkipWhile;
    MarksChar(t, a, e, end);
    MarksChar(t, a, e, AfterName(t, end));
    SkipBefore(t, a, e, if IsQuote(t[end]) then end + 1 else end, IsSpace);
    if AfterName(t, end) < a {
      SkipBefore(t, a, e, AfterName(t, end) + 1, IsSpace);
    }
  }

  lemma IntroducedBehind(kind: Kind, t: string, a: nat, e: nat, p: nat)
    requires ValidKind(kind) && Edge(t, a, e) && p > a + |REDACTED|
    requires Introduces(kind, Marks(t, a, e), p)
    ensures Introduces(kind, t, Before(a, e, p))
    ensures ValueAt(kind, t, Before(a, e, p)) == Before(a, e, ValueAt(kind, Marks(t, a, e), p))
  {
    hide Marks, SkipWhile, Searchable, ValidKind, At, AfterName, IsIdentifier, IsAlphanumeric, IsSpace;
    MarksChar(t, a, e, p + |kind.word|);
    WordsAreSearchable(kind);
    IntroducedAt(kind, Marks(t, a, e), p);
    WordMoved(t, a, e, kind.word, p);
    match kind
    case Named(name) => NamedBehind(t, a, e, p + |name|);
    case Scheme(scheme) => SkipBehind(t, a, e, p + |scheme|, IsSpace);
    case Header(header) =>
  }

  lemma NamedBehind(t: string, a: nat, e: nat, end: nat)
    requires a <= e <= |t| && a + |REDACTED| <= end <= |Marks(t, a, e)|
    ensures Before(a, e, end) <= |t|
    ensures var after, separator := Marks(t, a, e), AfterName(t, Before(a, e, end));
            && separator == Before(a, e, AfterName(after, end))
            && (separator < |t| <==> AfterName(after, end) < |after|)
            && (separator < |t| ==>
                  && t[separator] == after[AfterName(after, end)]
                  && SkipWhile(t, separator + 1, IsSpace) == Before(a, e, SkipWhile(after, AfterName(after, end) + 1, IsSpace)))
  {
    hide Marks, SkipWhile;
    var after := Marks(t, a, e);
    MarksChar(t, a, e, end);
    MarksChar(t, a, e, AfterName(after, end));
    SkipBehind(t, a, e, if end < |after| && IsQuote(after[end]) then end + 1 else end, IsSpace);
    if AfterName(after, end) < |after| {
      SkipBehind(t, a, e, AfterName(after, end) + 1, IsSpace);
    }
  }

  lemma NothingInsideMark(kind: Kind, t: string, a: nat, e: nat, p: nat)
    requires ValidKind(kind) && Edge(t, a, e) && p == a + 1 && |kind.word| <= 8
    ensures !Introduces(kind, Marks(t, a, e), p)
  {
    hide Marks, SkipWhile, At;
    MarksAt(t, a, e);
    var after, word := Marks(t, a, e), kind.word;
    if At(after, word, p) {
      InMark(after, word, a);
      assert after[p + |word|] == REDACTED[1 + |word|];
    }
  }

  lemma InMark(t: string, word: string, a: nat)
    requires Marked(t, a) && At(t, word, a + 1) && |word| <= 8
    ensures word == "redacted"[..|word|]
  {
    forall k | 0 <= k < |word|
      ensures word[k] == "redacted"[k]
    {
      CharAt(t, word, a + 1, k);
      assert t[a + 1 + k] == REDACTED[1 + k];
    }
  }

  /** A replacement leaves covered what was covered, and covers the value it stands in. */
  lemma CoveredKept(kind: Kind, t: string, a: nat, e: nat, p: nat)
    requires ValidKind(kind) && Edge(t, a, e)
    requires p < a && Introduces(kind, t, p) ==>
               Covered(kind, t, p) || Reaches(kind, t, ValueAt(kind, t, p), a)
    requires p > a + |REDACTED| ==> Covered(kind, t, Before(a, e, p))
    ensures Covered(kind, Marks(t, a, e), p)
  {
    hide Introduces, ValueAt, Quiet, Searchable;
    var after := Marks(t, a, e);
    if Introduces(kind, after, p) {
      WordsAreSearchable(kind);
      IntroducedAt(kind, after, p);
      WordMoved(t, a, e, kind.word, p);
      var v := ValueAt(kind, after, p);
      if p + |kind.word| <= a {
        IntroducedBefore(kind, t, a, e, p);
        if ValueAt(kind, t, p) == v {
          QuietKept(kind, t, a, e, v);
        } else {
          QuietKept(kind, t, a, e, a);
        }
      } else if p > a + |REDACTED| {
        IntroducedBehind(kind, t, a, e, p);
        QuietBehind(kind, t, a, e, v);
      } else {
        NothingInsideMark(kind, t, a, e, p);
      }
    }
  }

  lemma IntroducedAt(kind: Kind, t: string, p: nat)
    requires Introduces(kind, t, p)
    ensures At(t, kind.word, p) && (p > 0 ==> !IsAlphanumeric(t[p - 1]))
  {}
}
