/** Where a path leads when it is walked: what the checks of source paths keep out. */
module PathWalk {
  import opened Text
  import opened Numerals
  import opened SourceTree

  /** Going into a component: an empty one and `.` stay, `..` goes up, and out of the root when there is no way up. */
  function Enter<T(==)>(place: seq<seq<T>>, component: seq<T>, dot: T): Option<seq<seq<T>>> {
    if component == [] || component == [dot] then Some(place)
    else if component == [dot, dot] then (if place == [] then None else Some(place[..|place| - 1]))
    else Some(place + [component])
  }

  /** Walking character by character, with a component begun; None when the walk leaves the root. */
  function WalkOn<T(==)>(place: seq<seq<T>>, begun: seq<T>, rest: seq<T>, slash: T, dot: T): Option<seq<seq<T>>>
    decreases |rest|
  {
    if rest == [] then Enter(place, begun, dot)
    else if rest[0] != slash then WalkOn(place, begun + [rest[0]], rest[1..], slash, dot)
    else
      match Enter(place, begun, dot)
      case None => None
      case Some(next) => WalkOn(next, [], rest[1..], slash, dot)
  }

  function Walk<T(==)>(path: seq<T>, slash: T, dot: T): Option<seq<seq<T>>> { WalkOn([], [], path, slash, dot) }

  /** The path stays below the root, ends below it, and is written as what it leads to. */
  ghost predicate WrittenAsWalked<T>(path: seq<T>, slash: T, dot: T) {
    Walk(path, slash, dot).Some? && Walk(path, slash, dot).value != [] && Join(Walk(path, slash, dot).value, slash) == path
  }

  /** And it holds no backslash and no colon, which other systems read as separators. */
  ghost predicate StaysBelow(path: Bytes) { 92 !in path && 58 !in path && WrittenAsWalked(path, 47, 46) }

  // ----- walking is entering the components

  function EnterAll<T(==)>(place: seq<seq<T>>, components: seq<seq<T>>, dot: T): Option<seq<seq<T>>>
    decreases |components|
  {
    if components == [] then Some(place)
    else
      match Enter(place, components[0], dot)
      case None => None
      case Some(next) => EnterAll(next, components[1..], dot)
  }

  lemma {:induction false} WalkEnters<T>(place: seq<seq<T>>, begun: seq<T>, rest: seq<T>, slash: T, dot: T)
    ensures var parts := Split(rest, slash);
            WalkOn(place, begun, rest, slash, dot) == EnterAll(place, [begun + parts[0]] + parts[1..], dot)
    decreases |rest|
  {
    hide Enter;
    var parts := Split(rest, slash);
    var all := [begun + parts[0]] + parts[1..];
    assert all[1..] == parts[1..];
    if rest == [] {
      assert begun + [] == begun;
    } else {
      var later := Split(rest[1..], slash);
      if rest[0] == slash {
        assert parts[1..] == later && begun + [] == begun && all[0] == begun;
        SameParts(later);
        var next := Enter(place, begun, dot);
        if next.Some? {
          assert EnterAll(place, all, dot) == EnterAll(next.value, later, dot);
        }
        if next.Some? {
          WalkEnters(next.value, [], rest[1..], slash, dot);
        }
      } else {
        WalkEnters(place, begun + [rest[0]], rest[1..], slash, dot);
        assert begun + [rest[0]] + later[0] == begun + parts[0];
      }
    }
  }

  /** A component that goes down. */
  predicate GoesDown<T(==)>(component: seq<T>, dot: T) { component != [] && component != [dot] && component != [dot, dot] }

  predicate AllGoDown<T(==)>(components: seq<seq<T>>, dot: T) {
    forall k :: 0 <= k < |components| ==> GoesDown(components[k], dot)
  }

  /** Every component adds at most one place; all of them do exactly when all go down. */
  lemma {:induction false} EntersAtMost<T>(place: seq<seq<T>>, components: seq<seq<T>>, dot: T)
    ensures var end := EnterAll(place, components, dot);
            && (end.Some? ==> |end.value| <= |place| + |components|)
            && (end.Some? && |end.value| == |place| + |components| ==> AllGoDown(components, dot))
            && (AllGoDown(components, dot) ==> end == Some(place + components))
    decreases |components|
  {
    if components != [] {
      var next := Enter(place, components[0], dot);
      if next.Some? {
        EntersAtMost(next.value, components[1..], dot);
        assert place + [components[0]] + components[1..] == place + components;
      }
      if AllGoDown(components[1..], dot) && GoesDown(components[0], dot) {
        assert forall k :: 1 <= k < |components| ==> components[k] == components[1..][k - 1];
      }
    } else {
      assert place + components == place;
    }
  }

  /** No component holds a slash. */
  lemma {:induction false} EnteredHoldNoSlash<T>(place: seq<seq<T>>, components: seq<seq<T>>, slash: T, dot: T)
    requires forall k :: 0 <= k < |place| ==> slash !in place[k]
    requires forall k :: 0 <= k < |components| ==> slash !in components[k]
    ensures var end := EnterAll(place, components, dot);
            end.Some? ==> forall k :: 0 <= k < |end.value| ==> slash !in end.value[k]
    decreases |components|
  {
    if components != [] {
      var next := Enter(place, components[0], dot);
      if next.Some? {
        EnteredHoldNoSlash(next.value, components[1..], slash, dot);
      }
    }
  }

  lemma WalkIsEnterAll<T>(path: seq<T>, slash: T, dot: T)
    ensures Walk(path, slash, dot) == EnterAll([], Split(path, slash), dot)
  {
    WalkEnters([], [], path, slash, dot);
    SameParts(Split(path, slash));
  }

  lemma SameParts<T>(parts: seq<seq<T>>)
    requires |parts| > 0
    ensures [[] + parts[0]] + parts[1..] == parts
  {
    assert [] + parts[0] == parts[0];
  }

  /** All components go down exactly when the path is written as what it leads to. */
  lemma GoesDownIff<T>(path: seq<T>, slash: T, dot: T)
    ensures AllGoDown(Split(path, slash), dot) <==> WrittenAsWalked(path, slash, dot)
  {
    hide Enter, GoesDown;
    var parts := Split(path, slash);
    WalkIsEnterAll(path, slash, dot);
    JoinSplit(path, slash);
    EntersAtMost([], parts, dot);
    EnteredHoldNoSlash([], parts, slash, dot);
    assert [] + parts == parts;
    if WrittenAsWalked(path, slash, dot) {
      SplitJoin(Walk(path, slash, dot).value, slash);
    }
  }

  lemma SafePartsIff(path: Bytes)
    ensures SafeParts(path) <==> WrittenAsWalked(path, 47, 46)
  {
    GoesDownIff(path, 47, 46);
  }

  // ----- the three checks

  lemma {:induction false} TrimOnce(path: Bytes)
    ensures path != [] && path[|path| - 1] != 47 ==> TrimSlashes(path) == path
    ensures TrimSlashes(path) <= path && forall k :: |TrimSlashes(path)| <= k < |path| ==> path[k] == 47
    ensures TrimSlashes(path) != [] ==> TrimSlashes(path)[|TrimSlashes(path)| - 1] != 47
    decreases |path|
  {
    if path != [] && path[|path| - 1] == 47 {
      TrimOnce(path[..|path| - 1]);
    }
  }

  /** A slash at an end leaves an empty component. */
  lemma EndsAreParts(path: Bytes)
    ensures SafeParts(path) ==> path != [] && path[0] != 47 && path[|path| - 1] != 47
  {
    var parts := Split(path, 47);
    if SafeParts(path) && path != [] {
      JoinSplit(path, 47);
      assert SafePart(parts[0]) && SafePart(parts[|parts| - 1]);
      JoinEnds(parts);
    }
  }

  lemma {:induction false} JoinEnds(parts: seq<Bytes>)
    requires |parts| > 0 && parts[0] != [] && parts[|parts| - 1] != []
    ensures var path := Join(parts, 47);
            path != [] && path[0] == parts[0][0] && path[|path| - 1] == parts[|parts| - 1][|parts[|parts| - 1]| - 1]
    decreases |parts|
  {
    if |parts| == 2 {
      assert Join(parts, 47) == parts[0] + [47] + parts[1];
    } else if |parts| > 2 {
      JoinFromLast(parts);
    }
  }

  lemma {:induction false} JoinFromLast(parts: seq<Bytes>)
    requires |parts| > 1
    ensures Join(parts, 47) == Join(parts[..|parts| - 1], 47) + [47] + parts[|parts| - 1]
    decreases |parts|
  {
    var n := |parts| - 1;
    if n == 1 {
      assert parts[..1] == [parts[0]] && parts[1..] == [parts[1]];
    } else {
      JoinFromLast(parts[1..]);
      assert parts[1..][..n - 1] == parts[..n][1..];
      assert Join(parts[..n], 47) == parts[0] + [47] + Join(parts[..n][1..], 47);
    }
  }

  /** A listed path is accepted if and only if it stays below the root and is written as what it leads to. */
  lemma FilePathIsSafeIff(path: Bytes)
    ensures SafeFilePath(path) <==> StaysBelow(path)
  {
    hide SafeParts, WrittenAsWalked;
    SafePartsIff(path);
    EndsAreParts(path);
    TrimOnce(path);
    EmptyPath();
  }

  lemma EmptyPath()
    ensures !SafeParts([])
  {
    assert Split<Byte>([], 47)[0] == [];
  }

  /** A root may end in slashes. */
  lemma RootIsSafeIff(root: Bytes)
    ensures SafeRoot(root) <==>
              exists n: nat :: n <= |root| && StaysBelow(root[..n]) && forall k :: n <= k < |root| ==> root[k] == 47
  {
    hide SafeParts, WrittenAsWalked;
    TrimOnce(root);
    EmptyPath();
    var n := |TrimSlashes(root)|;
    forall m: nat | m <= |root|
      ensures SafeParts(root[..m]) <==> WrittenAsWalked(root[..m], 47, 46)
      ensures SafeParts(root[..m]) ==> root[..m] != [] && root[0] != 47 && root[m - 1] != 47
    {
      SafePartsIff(root[..m]);
      EndsAreParts(root[..m]);
    }
    if SafeRoot(root) {
      assert root[..n] == TrimSlashes(root);
      assert StaysBelow(root[..n]);
    }
    if m: nat :| m <= |root| && StaysBelow(root[..m]) && forall k :: m <= k < |root| ==> root[k] == 47 {
      assert m == n;
      assert root[..m] == TrimSlashes(root);
      assert forall b :: b in root ==> b in root[..m] || b == 47;
    }
  }
}
