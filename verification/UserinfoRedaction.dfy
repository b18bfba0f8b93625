/** The user information of URLs: which of it the pass replaces, and exactly when none is left. */
module UserinfoRedaction {
  import opened Text
  import opened RedactionPass

  const SCHEME_END: string := "://"

  predicate InAuthority(c: char) { c != '/' && c != '?' && c != '#' && !IsWhitespace(c) }

  function LastAt(t: string, low: nat, high: nat): (r: Option<nat>)
    requires low <= high <= |t|
    ensures r.Some? ==> low <= r.value < high && t[r.value] == '@' && (forall k :: r.value < k < high ==> t[k] != '@')
    ensures r.None? ==> (forall k :: low <= k < high ==> t[k] != '@')
    decreases high
  {
    if low == high then None else if t[high - 1] == '@' then Some(high - 1) else LastAt(t, low, high - 1)
  }

  function DecideUserinfo(t: string, at: nat): Decision {
    match FindFrom(t, SCHEME_END, at)
    case None => Done
    case Some(scheme) =>
      var start := scheme + 3;
      var end := SkipWhile(t, start, InAuthority);
      match LastAt(t, start, end)
      case None => Skip(end)
      case Some(sign) => if sign > start then Replace(start, sign) else Skip(end)
  }

  function UserinfoDecider(): Decider { (t: string, at: nat) => DecideUserinfo(t, at) }

  lemma UserinfoProgresses()
    ensures Progresses(UserinfoDecider())
  {
    forall t: string, at: nat | at <= |t|
      ensures Allowed(t, at, UserinfoDecider()(t, at))
    {
      UserinfoAllowed(t, at);
    }
  }

  lemma UserinfoAllowed(t: string, at: nat)
    requires at <= |t|
    ensures Allowed(t, at, DecideUserinfo(t, at))
  {}

  // ----- where user information stands

  function AuthorityEnd(t: string, p: nat): (end: nat)
    requires p + 3 <= |t|
    ensures p + 3 <= end <= |t|
  {
    SkipWhile(t, p + 3, InAuthority)
  }

  /** The authority has no user information. */
  ghost predicate Plain(t: string, p: nat)
    requires p + 3 <= |t|
  {
    forall k :: p + 3 < k < AuthorityEnd(t, p) ==> t[k] != '@'
  }

  /** The mark, and nothing else, stands in place of the user information. */
  ghost predicate Masked(t: string, p: nat)
    requires p + 3 <= |t|
  {
    var sign := p + 3 + |REDACTED|;
    && OccursAt(t, REDACTED, p + 3) && sign < AuthorityEnd(t, p) && t[sign] == '@'
    && forall k :: sign < k < AuthorityEnd(t, p) ==> t[k] != '@'
  }

  /** User information shows behind this separator. */
  ghost predicate Exposed(t: string, p: nat) { OccursAt(t, SCHEME_END, p) && !Plain(t, p) && !Masked(t, p) }

  /** The last character of another authority, one without user information, begins this separator. */
  ghost predicate Shadowed(t: string, p: nat) {
    exists q: nat :: q < p && OccursAt(t, SCHEME_END, q) && AuthorityEnd(t, q) == p + 1 && Plain(t, q)
  }

  ghost predicate Clear(t: string, p: nat) { Exposed(t, p) ==> Shadowed(t, p) }

  ghost predicate ClearUpTo(t: string, at: nat) { forall p: nat :: p < at ==> Clear(t, p) }

  lemma SeparatorChars(t: string, p: nat)
    requires OccursAt(t, SCHEME_END, p)
    ensures t[p] == ':' && t[p + 1] == '/' && t[p + 2] == '/'
  {
    assert t[p] == t[p..p + 3][0] && t[p + 1] == t[p..p + 3][1] && t[p + 2] == t[p..p + 3][2];
  }

  /** An authority ends before the slashes of any later separator. */
  lemma EndsBeforeNext(t: string, p: nat, next: nat)
    requires OccursAt(t, SCHEME_END, p) && OccursAt(t, SCHEME_END, next) && p < next
    ensures p + 3 <= next && AuthorityEnd(t, p) <= next + 1
  {
    SeparatorChars(t, p);
    SeparatorChars(t, next);
    assert !InAuthority(t[next + 1]);
  }

  lemma SkipClears(t: string, at: nat, scheme: nat)
    requires FindFrom(t, SCHEME_END, at) == Some(scheme) && scheme + 3 <= |t| && Plain(t, scheme)
    ensures forall p :: at <= p < AuthorityEnd(t, scheme) ==> Clear(t, p)
  {
    FitsInText(t, at, scheme);
    hide OccursAt, FindFrom;
    forall p: nat | at <= p < AuthorityEnd(t, scheme) && OccursAt(t, SCHEME_END, p)
      ensures Clear(t, p)
    {
      if p > scheme {
        EndsBeforeNext(t, scheme, p);
        assert AuthorityEnd(t, scheme) == p + 1 && Plain(t, scheme);
      }
    }
  }

  lemma SamePrefix(t: string, after: string, p: nat, n: nat)
    requires p + 3 <= n <= |t| && n <= |after| && t[..n] == after[..n]
    requires AuthorityEnd(t, p) < n
    ensures AuthorityEnd(after, p) == AuthorityEnd(t, p)
    ensures OccursAt(t, SCHEME_END, p) <==> OccursAt(after, SCHEME_END, p)
    ensures forall k :: 0 <= k < n ==> t[k] == after[k]
  {
    SameOccurrence(t, after, SCHEME_END, p, n);
    forall k | 0 <= k < n
      ensures t[k] == after[k]
    {
      assert t[..n][k] == after[..n][k];
    }
    SkipIs(after, p + 3, InAuthority, AuthorityEnd(t, p));
  }

  /** The mark is not cut by what comes after a slash. */
  lemma MarkBeforeSlash(t: string, p: nat, n: nat)
    requires OccursAt(t, REDACTED, p) && p < n < |t| && t[n] in "/:"
    ensures p + |REDACTED| <= n
  {
    MarkChars(t, p);
  }

  lemma MarkChars(t: string, p: nat)
    requires OccursAt(t, REDACTED, p)
    ensures forall k :: p <= k < p + |REDACTED| ==> t[k] != '/' && t[k] != ':'
  {
    forall k | p <= k < p + |REDACTED|
      ensures t[k] != '/' && t[k] != ':'
    {
      assert t[k] == t[p..p + |REDACTED|][k - p] == REDACTED[k - p];
    }
  }

  lemma SameOccurrence(t: string, after: string, needle: string, i: nat, n: nat)
    requires i + |needle| <= n <= |t| && n <= |after| && t[..n] == after[..n]
    ensures OccursAt(t, needle, i) <==> OccursAt(after, needle, i)
  {
    var j := i + |needle|;
    forall k | 0 <= k < |needle|
      ensures t[i..j][k] == after[i..j][k]
    {
      assert t[i + k] == t[..n][i + k] == after[..n][i + k] == after[i + k];
    }
    assert t[i..j] == after[i..j];
  }

  /** What stands before a separator does not depend on what follows that one's slashes. */
  lemma BeforeNext(t: string, after: string, p: nat, next: nat)
    requires OccursAt(t, SCHEME_END, p) && OccursAt(t, SCHEME_END, next) && p < next
    requires next + 3 <= |after| && t[..next + 3] == after[..next + 3]
    ensures OccursAt(after, SCHEME_END, p) && AuthorityEnd(after, p) == AuthorityEnd(t, p)
    ensures Plain(t, p) <==> Plain(after, p)
    ensures Exposed(t, p) <==> Exposed(after, p)
  {
    EndsBeforeNext(t, p, next);
    SeparatorChars(t, next);
    SamePrefix(t, after, p, next + 3);
    if p + 3 + |REDACTED| <= next {
      SameOccurrence(t, after, REDACTED, p + 3, next + 3);
    } else {
      if OccursAt(t, REDACTED, p + 3) && p + 3 < next {
        MarkBeforeSlash(t, p + 3, next);
      }
      if OccursAt(after, REDACTED, p + 3) && p + 3 < next {
        MarkBeforeSlash(after, p + 3, next);
      }
    }
  }

  lemma SeparatorInReplaced(t: string, a: nat, e: nat, p: nat)
    requires a <= e < |t| && t[e] == '@'
    requires OccursAt(Replaced(t, a, e, REDACTED), SCHEME_END, p) && p < a + |REDACTED|
    ensures p + 3 <= a && OccursAt(t, SCHEME_END, p)
  {
    hide Replaced;
    var after := Replaced(t, a, e, REDACTED);
    ReplacedParts(t, a, e, REDACTED);
    SeparatorChars(after, p);
    MarkChars(after, a);
    if p + 3 <= a {
      SameOccurrence(t, after, SCHEME_END, p, a);
    }
  }

  /** What a replacement leaves: the same before its separator, and the mark behind it. */
  lemma ReplacedUserinfo(t: string, scheme: nat, sign: nat)
    requires OccursAt(t, SCHEME_END, scheme) && scheme + 3 <= sign < AuthorityEnd(t, scheme)
    requires t[sign] == '@' && forall k :: sign < k < AuthorityEnd(t, scheme) ==> t[k] != '@'
    ensures var after := Replaced(t, scheme + 3, sign, REDACTED);
            && OccursAt(after, SCHEME_END, scheme) && Masked(after, scheme)
            && after[..scheme + 3] == t[..scheme + 3]
            && after[scheme + 3 + |REDACTED|..] == t[sign..]
  {
    hide Replaced;
    var after, end := Replaced(t, scheme + 3, sign, REDACTED), AuthorityEnd(t, scheme);
    ReplacedParts(t, scheme + 3, sign, REDACTED);
    SameOccurrence(t, after, SCHEME_END, scheme, scheme + 3);
    MarkIsAuthority(after, scheme + 3);
    SkipIs(after, scheme + 3, InAuthority, end + scheme + 3 + |REDACTED| - sign);
  }

  lemma MarkIsAuthority(t: string, p: nat)
    requires OccursAt(t, REDACTED, p)
    ensures forall k :: p <= k < p + |REDACTED| ==> InAuthority(t[k])
  {
    forall k | p <= k < p + |REDACTED|
      ensures InAuthority(t[k])
    {
      assert t[k] == t[p..p + |REDACTED|][k - p] == REDACTED[k - p];
    }
  }

  lemma ReplaceClears(t: string, at: nat, scheme: nat, sign: nat)
    requires FindFrom(t, SCHEME_END, at) == Some(scheme) && OccursAt(t, SCHEME_END, scheme)
    requires scheme + 3 <= sign < AuthorityEnd(t, scheme)
    requires t[sign] == '@' && forall k :: sign < k < AuthorityEnd(t, scheme) ==> t[k] != '@'
    requires ClearUpTo(t, at)
    ensures ClearUpTo(Replaced(t, scheme + 3, sign, REDACTED), scheme + 3 + |REDACTED|)
  {
    hide Replaced, OccursAt, FindFrom, AuthorityEnd, Plain, Masked;
    var after := Replaced(t, scheme + 3, sign, REDACTED);
    ReplacedUserinfo(t, scheme, sign);
    ReplacedParts(t, scheme + 3, sign, REDACTED);
    forall p: nat | p < scheme + 3 + |REDACTED| && Exposed(after, p)
      ensures Shadowed(after, p)
    {
      SeparatorInReplaced(t, scheme + 3, sign, p);
      assert p < at && Clear(t, p);
      BeforeNext(t, after, p, scheme);
      var q: nat :| q < p && OccursAt(t, SCHEME_END, q) && AuthorityEnd(t, q) == p + 1 && Plain(t, q);
      BeforeNext(t, after, q, scheme);
    }
  }

  /** After the pass, user information is left at most behind a separator that begins inside the authority of
      another, one without user information of its own. */
  lemma {:induction false} UserinfoCleared(t: string, at: nat)
    requires at <= |t| && Progresses(UserinfoDecider()) && ClearUpTo(t, at)
    ensures forall p: nat :: Clear(Pass(UserinfoDecider(), REDACTED, t, at), p)
    decreases |t| - at
  {
    hide Clear, SkipWhile, FindFrom, OccursAt, Replaced;
    UserinfoAllowed(t, at);
    match FindFrom(t, SCHEME_END, at)
    case None =>
      forall p: nat
        ensures Clear(t, p)
      {
        NothingIsClear(t, at, p);
      }
    case Some(scheme) =>
      FitsInText(t, at, scheme);
      var end := AuthorityEnd(t, scheme);
      match LastAt(t, scheme + 3, end)
      case None =>
        SkipClears(t, at, scheme);
        UserinfoCleared(t, end);
      case Some(sign) =>
        if sign > scheme + 3 {
          ReplaceClears(t, at, scheme, sign);
          ReplacedLength(t, scheme + 3, sign, REDACTED);
          UserinfoCleared(Replaced(t, scheme + 3, sign, REDACTED), scheme + 3 + |REDACTED|);
        } else {
          SkipClears(t, at, scheme);
          UserinfoCleared(t, end);
        }
  }

  lemma FitsInText(t: string, at: nat, scheme: nat)
    requires FindFrom(t, SCHEME_END, at) == Some(scheme)
    ensures at <= scheme && scheme + 3 <= |t| && OccursAt(t, SCHEME_END, scheme)
  {}

  lemma NothingIsClear(t: string, at: nat, p: nat)
    requires FindFrom(t, SCHEME_END, at).None? && (p < at ==> Clear(t, p))
    ensures Clear(t, p)
  {}

  // ----- exactly when none is left

  /** Where the search goes on after a separator: at the at sign of its user information, or where its authority ends. */
  function NextSearch(t: string, scheme: nat): (next: nat)
    requires scheme + 3 <= |t|
    ensures scheme + 3 <= next <= |t|
  {
    var end := AuthorityEnd(t, scheme);
    match LastAt(t, scheme + 3, end)
    case None => end
    case Some(sign) => if sign > scheme + 3 then sign else end
  }

  /** The search from `at` comes upon the separator at `p`. */
  predicate Visits(t: string, at: nat, p: nat)
    decreases |t| - at
  {
    match FindFrom(t, SCHEME_END, at)
    case None => false
    case Some(scheme) => p == scheme || Visits(t, NextSearch(t, scheme), p)
  }

  /** A separator that the search of the whole text never comes upon. */
  ghost predicate Skipped(t: string, p: nat) { OccursAt(t, SCHEME_END, p) && !Visits(t, 0, p) }

  lemma {:induction false} VisitsLater(t: string, at: nat, p: nat)
    requires Visits(t, at, p)
    ensures at <= p && OccursAt(t, SCHEME_END, p)
    decreases |t| - at
  {
    hide OccursAt, NextSearch, FindFrom;
    var found := FindFrom(t, SCHEME_END, at);
    FitsInText(t, at, found.value);
    if p != found.value {
      VisitsLater(t, NextSearch(t, found.value), p);
    }
  }

  /** A skipped separator begins at the last character of another authority, one without user information. */
  lemma {:induction false} SkippedIsShadowed(t: string, at: nat, p: nat)
    requires at <= p && OccursAt(t, SCHEME_END, p) && !Visits(t, at, p)
    ensures Shadowed(t, p)
    decreases |t| - at
  {
    hide OccursAt, FindFrom, SkipWhile;
    var found := FindFrom(t, SCHEME_END, at);
    SeparatorFound(t, at, p);
    FitsInText(t, at, found.value);
    EndsBeforeNext(t, found.value, p);
    if p < NextSearch(t, found.value) {
      SignIsEarlier(t, found.value, p);
      assert AuthorityEnd(t, found.value) == p + 1 && Plain(t, found.value);
    } else {
      SkippedIsShadowed(t, NextSearch(t, found.value), p);
    }
  }

  lemma SeparatorFound(t: string, at: nat, p: nat)
    requires at <= p && OccursAt(t, SCHEME_END, p)
    ensures FindFrom(t, SCHEME_END, at).Some? && FindFrom(t, SCHEME_END, at).value <= p
  {}

  lemma SignIsEarlier(t: string, scheme: nat, p: nat)
    requires OccursAt(t, SCHEME_END, scheme) && OccursAt(t, SCHEME_END, p) && scheme < p < NextSearch(t, scheme)
    ensures NextSearch(t, scheme) == AuthorityEnd(t, scheme) == p + 1 && Plain(t, scheme)
  {
    EndsBeforeNext(t, scheme, p);
  }

  // ----- texts that agree from some place on

  lemma AuthorityInBoth(t: string, i: nat, u: string, j: nat)
    requires Agree(t, i, u, j) && i + 3 <= |t|
    ensures j + 3 <= |u| && AuthorityEnd(u, j) == AuthorityEnd(t, i) - i + j
  {
    var end := AuthorityEnd(t, i);
    forall k | j + 3 <= k < end - i + j
      ensures InAuthority(u[k])
    {
      AgreeAt(t, i, u, j, k - j + i);
    }
    AgreeAt(t, i, u, j, end);
    SkipIs(u, j + 3, InAuthority, end - i + j);
  }

  lemma PlainInBoth(t: string, i: nat, u: string, j: nat)
    requires Agree(t, i, u, j) && i + 3 <= |t|
    ensures j + 3 <= |u| && (Plain(t, i) ==> Plain(u, j))
  {
    AuthorityInBoth(t, i, u, j);
    forall k | j + 3 < k < AuthorityEnd(u, j)
      ensures u[k] == t[k - j + i]
    {
      AgreeAt(t, i, u, j, k - j + i);
    }
  }

  lemma MaskedInBoth(t: string, i: nat, u: string, j: nat)
    requires Agree(t, i, u, j) && i + 3 <= |t| && Masked(t, i)
    ensures j + 3 <= |u| && Masked(u, j)
  {
    AuthorityInBoth(t, i, u, j);
    AgreeAt(t, i, u, j, i + 3);
    OccursInBoth(t, i + 3, u, j + 3, REDACTED);
    forall k | j + 3 + |REDACTED| <= k < AuthorityEnd(u, j)
      ensures u[k] == t[k - j + i]
    {
      AgreeAt(t, i, u, j, k - j + i);
    }
  }

  lemma ExposedInBoth(t: string, i: nat, u: string, j: nat)
    requires Agree(t, i, u, j)
    ensures Exposed(t, i) <==> Exposed(u, j)
  {
    hide Plain, Masked;
    OccursInBoth(t, i, u, j, SCHEME_END);
    if OccursAt(t, SCHEME_END, i) {
      PlainInBoth(t, i, u, j);
      PlainInBoth(u, j, t, i);
      if Masked(t, i) {
        MaskedInBoth(t, i, u, j);
      }
      if Masked(u, j) {
        MaskedInBoth(u, j, t, i);
      }
    }
  }

  lemma {:induction false} LastAtInBoth(t: string, i: nat, u: string, j: nat, high: nat)
    requires Agree(t, i, u, j) && i <= high <= |t|
    ensures j <= high - i + j <= |u|
    ensures var r, s := LastAt(t, i, high), LastAt(u, j, high - i + j);
            (r.Some? <==> s.Some?) && (r.Some? ==> s.value == r.value - i + j)
    decreases high
  {
    AgreeAt(t, i, u, j, high);
    if i < high {
      AgreeAt(t, i, u, j, high - 1);
      LastAtInBoth(t, i, u, j, high - 1);
    }
  }

  lemma NextInBoth(t: string, i: nat, u: string, j: nat)
    requires Agree(t, i, u, j) && i + 3 <= |t|
    ensures j + 3 <= |u| && NextSearch(u, j) == NextSearch(t, i) - i + j
  {
    AuthorityInBoth(t, i, u, j);
    AgreeAt(t, i, u, j, i + 3);
    LastAtInBoth(t, i + 3, u, j + 3, AuthorityEnd(t, i));
  }

  lemma {:induction false} VisitsInBoth(t: string, i: nat, u: string, j: nat, p: nat)
    requires Agree(t, i, u, j) && i <= p
    ensures Visits(t, i, p) <==> Visits(u, j, p - i + j)
    decreases |t| - i
  {
    hide NextSearch, FindFrom, Agree;
    FindTextInBoth(t, i, u, j, SCHEME_END);
    var found := FindFrom(t, SCHEME_END, i);
    if found.Some? && p != found.value {
      var scheme := found.value;
      FitsInText(t, i, scheme);
      AgreeAt(t, i, u, j, scheme);
      NextInBoth(t, scheme, u, scheme - i + j);
      var next := NextSearch(t, scheme);
      if next <= p {
        AgreeAt(t, i, u, j, next);
        VisitsInBoth(t, next, u, next - i + j, p);
      } else {
        NotVisited(t, next, p);
        NotVisited(u, next - i + j, p - i + j);
      }
    }
  }

  lemma NotVisited(t: string, at: nat, p: nat)
    requires p < at
    ensures !Visits(t, at, p)
  {
    if Visits(t, at, p) {
      VisitsLater(t, at, p);
    }
  }

  // ----- the pass

  /** User information that the rest of a pass, searching from `at`, leaves. */
  ghost predicate Leaves(t: string, at: nat, p: nat) { Exposed(t, p) && (p < at || !Visits(t, at, p)) }

  ghost predicate LeavesAny(t: string, at: nat) { exists p: nat :: Leaves(t, at, p) }

  lemma VisitsStep(t: string, at: nat, scheme: nat, p: nat)
    requires FindFrom(t, SCHEME_END, at) == Some(scheme)
    ensures scheme + 3 <= |t| && (Visits(t, at, p) <==> p == scheme || Visits(t, NextSearch(t, scheme), p))
  {}

  lemma SkipLeaves(t: string, at: nat, scheme: nat, p: nat)
    requires FindFrom(t, SCHEME_END, at) == Some(scheme) && scheme + 3 <= |t| && OccursAt(t, SCHEME_END, p)
    requires Plain(t, scheme) && NextSearch(t, scheme) == AuthorityEnd(t, scheme)
    ensures Leaves(t, at, p) <==> Leaves(t, AuthorityEnd(t, scheme), p)
  {
    hide OccursAt, FindFrom, NextSearch, Masked, Visits;
    VisitsStep(t, at, scheme, p);
    FoundFirst(t, at, scheme, p);
    if p < AuthorityEnd(t, scheme) {
      NotVisited(t, AuthorityEnd(t, scheme), p);
    }
  }

  lemma FoundFirst(t: string, at: nat, scheme: nat, p: nat)
    requires FindFrom(t, SCHEME_END, at) == Some(scheme) && OccursAt(t, SCHEME_END, p)
    ensures at <= scheme && (p < at || scheme <= p)
  {}

  /** The search finds user information to replace. */
  ghost predicate Finds(t: string, at: nat, scheme: nat, sign: nat) {
    && FindFrom(t, SCHEME_END, at) == Some(scheme) && OccursAt(t, SCHEME_END, scheme)
    && LastAt(t, scheme + 3, AuthorityEnd(t, scheme)) == Some(sign) && sign > scheme + 3
  }

  function Hidden(t: string, scheme: nat, sign: nat): string
    requires scheme + 3 <= sign <= |t|
  {
    Replaced(t, scheme + 3, sign, REDACTED)
  }

  /** What a replacement keeps, and where separators stand before and after it. */
  lemma HiddenFacts(t: string, at: nat, scheme: nat, sign: nat)
    requires Finds(t, at, scheme, sign)
    ensures scheme + 3 <= sign <= |t|
    ensures var after, next := Hidden(t, scheme, sign), scheme + 3 + |REDACTED|;
            && |after| >= next && after[..scheme + 3] == t[..scheme + 3]
            && Agree(t, sign, after, next) && Agree(after, next, t, sign)
            && !Exposed(after, scheme)
            && forall p: nat :: OccursAt(after, SCHEME_END, p) && p < next ==> p <= scheme && OccursAt(t, SCHEME_END, p)
    ensures forall p: nat :: Visits(t, at, p) <==> p == scheme || Visits(t, sign, p)
    ensures forall p: nat :: OccursAt(t, SCHEME_END, p) ==> p < at || p == scheme || sign <= p <= |t|
  {
    hide Visits;
    ReplacedUserinfo(t, scheme, sign);
    forall p: nat
      ensures Visits(t, at, p) <==> p == scheme || Visits(t, sign, p)
    {
      VisitsStep(t, at, scheme, p);
    }
    forall p: nat | OccursAt(t, SCHEME_END, p)
      ensures p < at || p == scheme || sign <= p <= |t|
    {
      FoundFirst(t, at, scheme, p);
      if p > scheme {
        EndsBeforeNext(t, scheme, p);
      }
    }
    forall p: nat | OccursAt(Hidden(t, scheme, sign), SCHEME_END, p) && p < scheme + 3 + |REDACTED|
      ensures p <= scheme && OccursAt(t, SCHEME_END, p)
    {
      SeparatorInReplaced(t, scheme + 3, sign, p);
    }
  }

  lemma ExposedOccurs(t: string, p: nat)
    requires Exposed(t, p)
    ensures OccursAt(t, SCHEME_END, p) && p <= |t|
  {}

  lemma HiddenBefore(t: string, at: nat, scheme: nat, sign: nat, p: nat)
    requires Finds(t, at, scheme, sign) && scheme + 3 <= sign <= |t| && p < scheme
    requires OccursAt(t, SCHEME_END, p) || OccursAt(Hidden(t, scheme, sign), SCHEME_END, p)
    ensures p < at && (Exposed(t, p) <==> Exposed(Hidden(t, scheme, sign), p))
  {
    hide Hidden, Exposed, Agree, Visits, FindFrom, AuthorityEnd;
    HiddenFacts(t, at, scheme, sign);
    FoundFirst(t, at, scheme, p);
    BeforeNext(t, Hidden(t, scheme, sign), p, scheme);
  }

  /** Behind the at sign everything is as it was. */
  lemma HiddenBehind(t: string, at: nat, scheme: nat, sign: nat, p: nat)
    requires Finds(t, at, scheme, sign) && scheme + 3 <= sign <= p <= |t|
    ensures var after, next := Hidden(t, scheme, sign), scheme + 3 + |REDACTED|;
            && (Exposed(t, p) <==> Exposed(after, p - sign + next))
            && (Visits(t, at, p) <==> Visits(after, next, p - sign + next))
  {
    hide Hidden, Exposed, Agree, Visits, FindFrom, AuthorityEnd, OccursAt;
    HiddenFacts(t, at, scheme, sign);
    var after, next := Hidden(t, scheme, sign), scheme + 3 + |REDACTED|;
    AgreeAt(t, sign, after, next, p);
    ExposedInBoth(t, p, after, p - sign + next);
    VisitsInBoth(t, sign, after, next, p);
  }

  /** A replacement leaves before its separator, and behind its at sign, what there was, and nothing between. */
  lemma ReplaceLeaves(t: string, at: nat, scheme: nat, sign: nat)
    requires Finds(t, at, scheme, sign) && scheme + 3 <= sign <= |t|
    ensures LeavesAny(t, at) <==> LeavesAny(Hidden(t, scheme, sign), scheme + 3 + |REDACTED|)
  {
    hide Finds, Hidden, Exposed, Agree, Visits, OccursAt;
    var after, next := Hidden(t, scheme, sign), scheme + 3 + |REDACTED|;
    HiddenFacts(t, at, scheme, sign);
    if LeavesAny(t, at) {
      var p: nat :| Leaves(t, at, p);
      ExposedOccurs(t, p);
      if p < scheme {
        HiddenBefore(t, at, scheme, sign, p);
        assert Leaves(after, next, p);
      } else {
        SchemeVisited(t, at, scheme, sign);
        HiddenBehind(t, at, scheme, sign, p);
        assert Leaves(after, next, p - sign + next);
      }
    }
    if LeavesAny(after, next) {
      var p: nat :| Leaves(after, next, p);
      ExposedOccurs(after, p);
      if p < next {
        HiddenBefore(t, at, scheme, sign, p);
        assert Leaves(t, at, p);
      } else {
        AgreeLengths(after, next, t, sign);
        HiddenBehind(t, at, scheme, sign, p - next + sign);
        assert Leaves(t, at, p - next + sign);
      }
    }
  }

  lemma SchemeVisited(t: string, at: nat, scheme: nat, sign: nat)
    requires Finds(t, at, scheme, sign)
    ensures at <= scheme && Visits(t, at, scheme)
  {
    FitsInText(t, at, scheme);
  }

  lemma AgreeLengths(t: string, i: nat, u: string, j: nat)
    requires Agree(t, i, u, j)
    ensures i <= |t| && j <= |u| && |t| - i == |u| - j
  {
    assert |t[i..]| == |u[j..]|;
  }

  lemma {:induction false} PassLeaves(t: string, at: nat)
    requires at <= |t| && Progresses(UserinfoDecider())
    ensures (exists p: nat :: Exposed(Pass(UserinfoDecider(), REDACTED, t, at), p)) <==> LeavesAny(t, at)
    decreases |t| - at
  {
    hide SkipWhile, FindFrom, OccursAt, Replaced, Exposed, Leaves, LeavesAny, Pass;
    PassStep(UserinfoDecider(), REDACTED, t, at);
    match FindFrom(t, SCHEME_END, at)
    case None => NothingVisited(t, at);
    case Some(scheme) =>
      FitsInText(t, at, scheme);
      var end := AuthorityEnd(t, scheme);
      match LastAt(t, scheme + 3, end)
      case None =>
        SkipLeavesAny(t, at, scheme);
        PassLeaves(t, end);
      case Some(sign) =>
        if sign > scheme + 3 {
          ReplaceLeaves(t, at, scheme, sign);
          ReplacedLength(t, scheme + 3, sign, REDACTED);
          PassLeaves(Replaced(t, scheme + 3, sign, REDACTED), scheme + 3 + |REDACTED|);
        } else {
          SkipLeavesAny(t, at, scheme);
          PassLeaves(t, end);
        }
  }

  lemma NothingVisited(t: string, at: nat)
    requires FindFrom(t, SCHEME_END, at).None?
    ensures LeavesAny(t, at) <==> exists p: nat :: Exposed(t, p)
  {
    hide Exposed;
    if exists p: nat :: Exposed(t, p) {
      var p: nat :| Exposed(t, p);
      assert Leaves(t, at, p);
    }
  }

  lemma SkipLeavesAny(t: string, at: nat, scheme: nat)
    requires FindFrom(t, SCHEME_END, at) == Some(scheme) && scheme + 3 <= |t|
    requires Plain(t, scheme) && NextSearch(t, scheme) == AuthorityEnd(t, scheme)
    ensures LeavesAny(t, at) <==> LeavesAny(t, AuthorityEnd(t, scheme))
  {
    hide Leaves, OccursAt, FindFrom, NextSearch, AuthorityEnd, Plain;
    forall p: nat
      ensures Leaves(t, at, p) <==> Leaves(t, AuthorityEnd(t, scheme), p)
    {
      if OccursAt(t, SCHEME_END, p) {
        SkipLeaves(t, at, scheme, p);
      } else {
        LeavesOccur(t, p);
      }
    }
  }

  lemma LeavesOccur(t: string, p: nat)
    requires !OccursAt(t, SCHEME_END, p)
    ensures forall at :: !Leaves(t, at, p)
  {}

  /** The pass leaves no user information if and only if no separator that its search skips has any. */
  lemma UserinfoLeftIff(t: string)
    ensures Progresses(UserinfoDecider())
    ensures (forall p: nat :: !Exposed(Pass(UserinfoDecider(), REDACTED, t, 0), p))
       <==> (forall p: nat :: Skipped(t, p) ==> !Exposed(t, p))
  {
    hide Exposed, Pass, Visits, OccursAt;
    UserinfoProgresses();
    PassLeaves(t, 0);
    forall p: nat
      ensures Leaves(t, 0, p) <==> Skipped(t, p) && Exposed(t, p)
    {
      if Exposed(t, p) {
        ExposedOccurs(t, p);
      }
    }
  }

  /** What the pass promises of its result. */
  ghost predicate UserinfoHandled(t: string, out: string) {
    && (forall p: nat :: Clear(out, p))
    && ((forall p: nat :: !Exposed(out, p)) <==> (forall p: nat :: Skipped(t, p) ==> !Exposed(t, p)))
  }

  lemma PassHandlesUserinfo(t: string)
    ensures Progresses(UserinfoDecider()) && UserinfoHandled(t, Pass(UserinfoDecider(), REDACTED, t, 0))
  {
    hide Clear, Exposed, Skipped, Pass;
    UserinfoLeftIff(t);
    UserinfoCleared(t, 0);
  }

  /** In particular none is left when no separator begins at the last character of another authority. */
  lemma UnshadowedLeavesNone(t: string)
    requires forall p: nat, q: nat :: OccursAt(t, SCHEME_END, q) && OccursAt(t, SCHEME_END, p) ==> AuthorityEnd(t, q) != p + 1
    ensures Progresses(UserinfoDecider())
    ensures forall p: nat :: !Exposed(Pass(UserinfoDecider(), REDACTED, t, 0), p)
  {
    hide Exposed, Pass, Visits, OccursAt, AuthorityEnd;
    UserinfoLeftIff(t);
    forall p: nat
      ensures !Skipped(t, p)
    {
      if Skipped(t, p) {
        SkippedIsShadowed(t, 0, p);
      }
    }
  }

  // ----- what the pass replaces

  lemma UserinfoInBoth(t: string, i: nat, u: string, j: nat)
    requires Agree(t, i, u, j)
    ensures SameDecision(DecideUserinfo(t, i), i, DecideUserinfo(u, j), j)
  {
    hide Agree, FindFrom, SkipWhile, LastAt;
    FindTextInBoth(t, i, u, j, SCHEME_END);
    var found := FindFrom(t, SCHEME_END, i);
    if found.Some? {
      var scheme, scheme' := found.value, found.value - i + j;
      FitsInText(t, i, scheme);
      AgreeAt(t, i, u, j, scheme);
      AuthorityInBoth(t, scheme, u, scheme');
      AgreeAt(t, scheme, u, scheme', scheme + 3);
      LastAtInBoth(t, scheme + 3, u, scheme' + 3, AuthorityEnd(t, scheme));
    }
  }

  lemma UserinfoIsLocal()
    ensures Local(UserinfoDecider(), REDACTED)
  {
    hide DecideUserinfo, Replaced;
    forall t: string, at: nat | at <= |t| && DecideUserinfo(t, at).Replace?
      ensures Untouched(UserinfoDecider(), REDACTED, t, DecideUserinfo(t, at).from, DecideUserinfo(t, at).to)
    {
      UserinfoAllowed(t, at);
      var e, next := DecideUserinfo(t, at).to, DecideUserinfo(t, at).from + |REDACTED|;
      var after := Replaced(t, DecideUserinfo(t, at).from, e, REDACTED);
      ReplacedParts(t, DecideUserinfo(t, at).from, e, REDACTED);
      forall k: nat | e <= k <= |t|
        ensures SameDecision(DecideUserinfo(t, k), e, DecideUserinfo(after, k - e + next), next)
      {
        AgreeAt(t, e, after, next, k);
        UserinfoInBoth(t, k, after, k - e + next);
        SameLater(DecideUserinfo(t, k), k, DecideUserinfo(after, k - e + next), k - e + next, e, next);
      }
    }
  }

  /** The user information behind the separator: up to the last at sign of the authority. */
  predicate IsUserinfo(t: string, p: nat, r: Range) {
    && OccursAt(t, SCHEME_END, p) && p + 3 == r.from < r.to < AuthorityEnd(t, p) && t[r.to] == '@'
    && forall k :: r.to < k < AuthorityEnd(t, p) ==> t[k] != '@'
  }

  /** What is replaced is the user information of the separators that the search comes upon. */
  ghost predicate AreUserinfo(t: string, at: nat, cuts: seq<Range>) {
    forall r :: r in cuts <==> exists p: nat :: Visits(t, at, p) && IsUserinfo(t, p, r)
  }

  lemma {:induction false} CutsAreUserinfo(t: string, at: nat)
    requires Progresses(UserinfoDecider()) && at <= |t|
    ensures AreUserinfo(t, at, Cuts(UserinfoDecider(), t, at))
    decreases |t| - at
  {
    hide Cuts, AuthorityEnd, FindFrom, OccursAt, AreUserinfo;
    CutsStep(UserinfoDecider(), t, at);
    match FindFrom(t, SCHEME_END, at)
    case None => NoneVisited(t, at);
    case Some(scheme) =>
      FitsInText(t, at, scheme);
      CutsAreUserinfo(t, NextSearch(t, scheme));
      VisitedFirst(t, at, scheme, Cuts(UserinfoDecider(), t, NextSearch(t, scheme)));
  }

  lemma NoneVisited(t: string, at: nat)
    requires FindFrom(t, SCHEME_END, at).None?
    ensures AreUserinfo(t, at, [])
  {}

  lemma VisitedFirst(t: string, at: nat, scheme: nat, rest: seq<Range>)
    requires FindFrom(t, SCHEME_END, at) == Some(scheme) && scheme + 3 <= |t| && OccursAt(t, SCHEME_END, scheme)
    requires AreUserinfo(t, NextSearch(t, scheme), rest)
    ensures var sign := NextSearch(t, scheme);
            var first := if IsUserinfo(t, scheme, Range(scheme + 3, sign)) then [Range(scheme + 3, sign)] else [];
            if first == [] then DecideUserinfo(t, at) == Skip(sign) && AreUserinfo(t, at, rest)
            else DecideUserinfo(t, at) == Replace(scheme + 3, sign) && AreUserinfo(t, at, first + rest)
  {
    hide FindFrom, OccursAt, SkipWhile, Visits;
    assert [] + rest == rest;
    var sign := NextSearch(t, scheme);
    var first := if IsUserinfo(t, scheme, Range(scheme + 3, sign)) then [Range(scheme + 3, sign)] else [];
    forall r
      ensures r in first + rest <==> exists p: nat :: Visits(t, at, p) && IsUserinfo(t, p, r)
    {
      VisitsStep(t, at, scheme, scheme);
      assert r in first <==> IsUserinfo(t, scheme, r);
      if r in rest {
        var p: nat :| Visits(t, sign, p) && IsUserinfo(t, p, r);
        VisitsStep(t, at, scheme, p);
      }
      if p: nat :| Visits(t, at, p) && IsUserinfo(t, p, r) {
        VisitsStep(t, at, scheme, p);
      }
    }
  }

  /** The pass replaces user information, each whole, and nothing else: that of the separators its search comes upon. */
  lemma UserinfoIsReplaced(t: string) returns (cuts: seq<Range>)
    ensures Progresses(UserinfoDecider()) && InOrder(t, 0, cuts)
    ensures Pass(UserinfoDecider(), REDACTED, t, 0) == Filled(t, 0, cuts, REDACTED)
    ensures forall r :: r in cuts <==> exists p: nat :: Visits(t, 0, p) && IsUserinfo(t, p, r)
  {
    hide Pass, Cuts, Filled, IsUserinfo, Visits;
    UserinfoProgresses();
    UserinfoIsLocal();
    PassFills(UserinfoDecider(), REDACTED, t);
    CutsAreUserinfo(t, 0);
    cuts := Cuts(UserinfoDecider(), t, 0);
  }

  // ----- two texts that keep theirs

  lemma SeparatorAt(t: string, p: nat)
    requires p + 3 <= |t|
    ensures OccursAt(t, SCHEME_END, p) <==> t[p] == ':' && t[p + 1] == '/' && t[p + 2] == '/'
  {
    if t[p] == ':' && t[p + 1] == '/' && t[p + 2] == '/' {
      assert t[p..p + 3] == SCHEME_END;
    } else if OccursAt(t, SCHEME_END, p) {
      SeparatorChars(t, p);
    }
  }

  lemma {:induction false} FirstSeparator(t: string, at: nat, i: nat)
    requires at <= i && OccursAt(t, SCHEME_END, i) && forall k: nat :: at <= k < i ==> !OccursAt(t, SCHEME_END, k)
    ensures FindFrom(t, SCHEME_END, at) == Some(i)
  {}

  /** A text whose only separator that is searched has no user information is left as it is. */
  lemma OneSearched(t: string, scheme: nat)
    requires FindFrom(t, SCHEME_END, 0) == Some(scheme) && scheme + 3 <= |t| && Plain(t, scheme)
    requires FindFrom(t, SCHEME_END, AuthorityEnd(t, scheme)).None?
    ensures Progresses(UserinfoDecider()) && Pass(UserinfoDecider(), REDACTED, t, 0) == t
  {
    hide FindFrom, AuthorityEnd, Pass, DecideUserinfo, Plain;
    UserinfoProgresses();
    PlainIsSkipped(t, 0, scheme);
    NoneIsDone(t, AuthorityEnd(t, scheme));
    PassStep(UserinfoDecider(), REDACTED, t, 0);
    PassStep(UserinfoDecider(), REDACTED, t, AuthorityEnd(t, scheme));
  }

  lemma PlainIsSkipped(t: string, at: nat, scheme: nat)
    requires FindFrom(t, SCHEME_END, at) == Some(scheme) && scheme + 3 <= |t| && Plain(t, scheme)
    ensures DecideUserinfo(t, at) == Skip(AuthorityEnd(t, scheme))
  {
    hide FindFrom, SkipWhile;
  }

  lemma NoneIsDone(t: string, at: nat)
    requires FindFrom(t, SCHEME_END, at).None?
    ensures DecideUserinfo(t, at) == Done
  {}

  /** Two separators, the first at 1 with its authority up to the second's slashes. */
  lemma SecondIsKept(t: string, end: nat)
    requires 7 < end + 4 < |t| && t[1] == ':' && t[2] == '/' && t[3] == '/' && t[0] != ':'
    requires t[end] == '/' && forall k :: 4 <= k < end ==> InAuthority(t[k])
    requires forall k :: 4 < k < end ==> t[k] != '@'
    requires forall k :: end <= k < |t| - 1 ==> t[k] != ':' || t[k + 1] != '/'
    ensures Progresses(UserinfoDecider()) && Pass(UserinfoDecider(), REDACTED, t, 0) == t
  {
    SeparatorAt(t, 0);
    SeparatorAt(t, 1);
    FirstSeparator(t, 0, 1);
    SkipIs(t, 4, InAuthority, end);
    forall k: nat | end <= k
      ensures !OccursAt(t, SCHEME_END, k)
    {
      if k + 3 <= |t| {
        SeparatorAt(t, k);
      }
    }
    OneSearched(t, 1);
  }

  const SHADOWED: string := "a://b://u:p@h"

  /** An at sign at the front of the first authority does not help. */
  const SHADOWED_BY_EMPTY: string := "a://@b://u:p@h"

  /** The user information of the second separator stays, for want of any in the first authority. */
  lemma ShadowedUserinfoStays()
    ensures Progresses(UserinfoDecider())
    ensures Pass(UserinfoDecider(), REDACTED, SHADOWED, 0) == SHADOWED && Exposed(SHADOWED, 5) && Skipped(SHADOWED, 5)
    ensures Pass(UserinfoDecider(), REDACTED, SHADOWED_BY_EMPTY, 0) == SHADOWED_BY_EMPTY
            && Exposed(SHADOWED_BY_EMPTY, 6) && Skipped(SHADOWED_BY_EMPTY, 6)
  {
    hide Pass, Exposed, Skipped, Progresses;
    ShadowedStays();
    ShadowedByEmptyStays();
  }

  lemma ShadowedStays()
    ensures Progresses(UserinfoDecider())
    ensures Pass(UserinfoDecider(), REDACTED, SHADOWED, 0) == SHADOWED && Exposed(SHADOWED, 5) && Skipped(SHADOWED, 5)
  {
    hide Pass, Exposed, Skipped, Progresses;
    SecondIsKept(SHADOWED, 6);
    SecondIsExposed(SHADOWED, 5, 11);
    SecondIsSkipped(SHADOWED, 6);
  }

  lemma ShadowedByEmptyStays()
    ensures Progresses(UserinfoDecider())
    ensures Pass(UserinfoDecider(), REDACTED, SHADOWED_BY_EMPTY, 0) == SHADOWED_BY_EMPTY
    ensures Exposed(SHADOWED_BY_EMPTY, 6) && Skipped(SHADOWED_BY_EMPTY, 6)
  {
    hide Pass, Exposed, Skipped, Progresses;
    SecondIsKept(SHADOWED_BY_EMPTY, 7);
    SecondIsExposed(SHADOWED_BY_EMPTY, 6, 12);
    SecondIsSkipped(SHADOWED_BY_EMPTY, 7);
  }

  lemma SecondIsExposed(t: string, p: nat, sign: nat)
    requires p + 4 < sign < |t| && t[p] == ':' && t[p + 1] == '/' && t[p + 2] == '/' && t[p + 3] != '['
    requires t[sign] == '@' && forall k :: p + 3 <= k < sign ==> InAuthority(t[k])
    ensures Exposed(t, p)
  {
    SeparatorAt(t, p);
    if OccursAt(t, REDACTED, p + 3) {
      MarkBegins(t, p + 3);
    }
    assert AuthorityEnd(t, p) > sign;
  }

  lemma MarkBegins(t: string, p: nat)
    requires OccursAt(t, REDACTED, p)
    ensures p < |t| && t[p] == '['
  {
    assert t[p] == t[p..p + |REDACTED|][0];
  }

  lemma SecondIsSkipped(t: string, end: nat)
    requires 7 < end + 4 < |t| && t[1] == ':' && t[2] == '/' && t[3] == '/' && t[0] != ':'
    requires t[end - 1] == ':' && t[end] == '/' && t[end + 1] == '/' && forall k :: 4 <= k < end ==> InAuthority(t[k])
    requires forall k :: 4 < k < end ==> t[k] != '@'
    ensures Skipped(t, end - 1)
  {
    SeparatorAt(t, 0);
    SeparatorAt(t, 1);
    SeparatorAt(t, end - 1);
    FirstSeparator(t, 0, 1);
    SkipIs(t, 4, InAuthority, end);
    VisitsStep(t, 0, 1, end - 1);
    NotVisited(t, end, end - 1);
  }
}
