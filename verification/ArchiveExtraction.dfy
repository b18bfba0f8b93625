/** Extracting an accepted archive: no order of its members can change the tree that results. */
module ArchiveExtraction {
  import opened Text
  import opened Numerals
  import opened WorkspaceArchive

  datatype Node = Directory | File(data: Bytes)

  /** A destination, by the components its file system takes a path to name. */
  type Tree = map<seq<string>, Node>

  datatype Item = Item(comps: seq<string>, node: Node)

  // ----- placing one item

  function MakeDirectories(tree: Tree, comps: seq<string>, n: nat): Option<Tree>
    requires n <= |comps|
  {
    if n == 0 then Some(tree)
    else
      var above := MakeDirectories(tree, comps, n - 1);
      if above.None? || (comps[..n] in above.value && above.value[comps[..n]].File?) then None
      else Some(above.value[comps[..n] := Directory])
  }

  function Place(tree: Tree, item: Item): Option<Tree>
    requires |item.comps| > 0
  {
    var n := |item.comps|;
    if item.node.Directory? then MakeDirectories(tree, item.comps, n)
    else
      var made := MakeDirectories(tree, item.comps, n - 1);
      if made.None? || (item.comps in made.value && made.value[item.comps].Directory?) then None
      else Some(made.value[item.comps := item.node])
  }

  function PlaceAll(tree: Tree, items: seq<Item>): Option<Tree>
    requires forall i :: 0 <= i < |items| ==> |items[i].comps| > 0
    decreases |items|
  {
    if items == [] then Some(tree)
    else
      var before := PlaceAll(tree, items[..|items| - 1]);
      if before.None? then None else Place(before.value, items[|items| - 1])
  }

  // ----- the tree a set of items describes

  ghost predicate Leads(p: seq<string>, comps: seq<string>) { p != [] && p <= comps }

  ghost predicate Touches(item: Item, p: seq<string>) { Leads(p, item.comps) }

  ghost function NodeAt(item: Item, p: seq<string>): Node { if p == item.comps then item.node else Directory }

  /** Exactly the items and the directories above them. */
  ghost predicate Describes(tree: Tree, items: seq<Item>) {
    && (forall p :: p in tree <==> exists i :: 0 <= i < |items| && Touches(items[i], p))
    && (forall p, i :: p in tree && 0 <= i < |items| && Touches(items[i], p) ==> tree[p] == NodeAt(items[i], p))
  }

  /** Distinct places, and nothing below a file. */
  ghost predicate Apart(a: Item, b: Item) {
    a.comps != b.comps && (a.node.File? ==> !(a.comps <= b.comps)) && (b.node.File? ==> !(b.comps <= a.comps))
  }

  ghost predicate AllApart(items: seq<Item>) {
    && (forall i :: 0 <= i < |items| ==> items[i].comps != [])
    && (forall i, j :: 0 <= i < j < |items| ==> Apart(items[i], items[j]))
  }

  lemma OnePrefixMore(comps: seq<string>, n: nat)
    requires 0 < n <= |comps|
    ensures forall p :: Leads(p, comps[..n]) <==> Leads(p, comps[..n - 1]) || p == comps[..n]
  {
    forall p | Leads(p, comps[..n])
      ensures Leads(p, comps[..n - 1]) || p == comps[..n]
    {
      if |p| < n {
        assert p == comps[..n - 1][..|p|];
      }
    }
  }

  lemma {:induction false} DirectoriesMade(tree: Tree, comps: seq<string>, n: nat)
    requires n <= |comps|
    requires forall k :: 0 < k <= n && comps[..k] in tree ==> tree[comps[..k]].Directory?
    ensures var made := MakeDirectories(tree, comps, n);
            && made.Some?
            && (forall p :: p in made.value <==> p in tree || Leads(p, comps[..n]))
            && (forall p :: p in made.value ==> made.value[p] == if Leads(p, comps[..n]) then Directory else tree[p])
  {
    if n > 0 {
      DirectoriesMade(tree, comps, n - 1);
      OnePrefixMore(comps, n);
    }
  }

  lemma PlacedBeside(tree: Tree, items: seq<Item>, next: Item)
    requires Describes(tree, items) && next.comps != []
    requires forall i :: 0 <= i < |items| ==> Apart(items[i], next)
    ensures Place(tree, next).Some? && Describes(Place(tree, next).value, items + [next])
  {
    var n := |next.comps|;
    forall k | 0 < k <= n && next.comps[..k] in tree
      ensures tree[next.comps[..k]].Directory?
    {
      var i :| 0 <= i < |items| && Touches(items[i], next.comps[..k]);
      assert items[i].comps[..k] == next.comps[..k];
    }
    DirectoriesMade(tree, next.comps, if next.node.Directory? then n else n - 1);
    assert next.comps[..n] == next.comps;
    var after := Place(tree, next);
    var all := items + [next];
    assert forall i :: 0 <= i < |items| ==> all[i] == items[i];
    PlacedNodes(tree, next);
    forall p
      ensures p in after.value <==> exists i :: 0 <= i < |all| && Touches(all[i], p)
    {
      if p in tree {
        var i :| 0 <= i < |items| && Touches(items[i], p);
        assert Touches(all[i], p);
      }
      if Touches(next, p) {
        assert Touches(all[|items|], p);
      }
    }
    forall p, i | p in after.value && 0 <= i < |all| && Touches(all[i], p)
      ensures after.value[p] == NodeAt(all[i], p)
    {
      if i < |items| {
        assert p in tree;
      }
    }
  }

  /** What one placing adds. */
  lemma PlacedNodes(tree: Tree, item: Item)
    requires item.comps != []
    requires forall k :: 0 < k <= |item.comps| && item.comps[..k] in tree ==> tree[item.comps[..k]].Directory?
    requires item.node.File? ==> item.comps !in tree
    ensures var after := Place(tree, item);
            && after.Some?
            && (forall p :: p in after.value <==> p in tree || Touches(item, p))
            && (forall p :: p in after.value ==> after.value[p] == if Touches(item, p) then NodeAt(item, p) else tree[p])
  {
    var n := |item.comps|;
    DirectoriesMade(tree, item.comps, if item.node.Directory? then n else n - 1);
    assert item.comps[..n] == item.comps;
    OnePrefixMore(item.comps, n);
  }

  lemma {:induction false} PlacingDescribes(items: seq<Item>)
    requires AllApart(items)
    ensures PlaceAll(map[], items).Some? && Describes(PlaceAll(map[], items).value, items)
    decreases |items|
  {
    if items != [] {
      var before := items[..|items| - 1];
      PlacingDescribes(before);
      PlacedBeside(PlaceAll(map[], before).value, before, items[|items| - 1]);
      assert before + [items[|items| - 1]] == items;
    }
  }

  lemma DescribedOnce(a: Tree, b: Tree, items: seq<Item>, others: seq<Item>)
    requires Describes(a, items) && Describes(b, others)
    requires forall item :: item in items <==> item in others
    ensures a == b
  {
    forall p
      ensures p in a <==> p in b
      ensures p in a ==> a[p] == b[p]
    {
      if p in a {
        var i :| 0 <= i < |items| && Touches(items[i], p);
        assert items[i] in others;
        var j :| 0 <= j < |others| && others[j] == items[i];
        assert Touches(others[j], p);
      }
      if p in b {
        var j :| 0 <= j < |others| && Touches(others[j], p);
        assert others[j] in items;
        var i :| 0 <= i < |items| && items[i] == others[j];
        assert Touches(items[i], p);
      }
    }
  }

  // ----- accepted archives

  /** The file system tells apart all names whose keys differ. */
  ghost predicate IdentifiesByKey(canon: string -> string, key: string -> string) {
    forall a, b :: canon(a) == canon(b) ==> key(a) == key(b)
  }

  function ItemOf(canon: string -> string, e: Entry, data: Bytes): (item: Item)
    ensures item.comps != [] && (item.node.Directory? <==> e.directory)
  {
    Item(Keys(canon, Parts(e)), if e.directory then Directory else File(data))
  }

  lemma AcceptedIsApart(canon: string -> string, key: string -> string, members: seq<Member>, i: nat, j: nat)
    requires FoldsComponents(key) && IdentifiesByKey(canon, key)
    requires Inspect(key, members).Ok?
    requires i < |members| && j < |members| && i != j
    ensures |Inspect(key, members).value| == |members|
    ensures var entries := Inspect(key, members).value;
            Apart(ItemOf(canon, entries[i], members[i].data), ItemOf(canon, entries[j], members[j].data))
  {
    hide SafeName, NormalizeEntryPath, ListMembers, UnderAFile, TrimSlashes, Split, Join, Keys, FoldsComponents, IdentifiesByKey;
    ListedAreSafe(key, members);
    var entries := Inspect(key, members).value;
    NotBelow(canon, key, entries, i, j);
    NotBelow(canon, key, entries, j, i);
  }

  lemma NotBelow(canon: string -> string, key: string -> string, entries: seq<Entry>, i: nat, j: nat)
    requires FoldsComponents(key) && IdentifiesByKey(canon, key)
    requires i < |entries| && j < |entries|
    requires SafeEntry(entries[i]) && EntryKey(key, entries[i]) != EntryKey(key, entries[j])
    requires !UnderAFile(key, entries, entries[j])
    ensures Keys(canon, Parts(entries[i])) != Keys(canon, Parts(entries[j]))
    ensures !entries[i].directory ==> !(Keys(canon, Parts(entries[i])) <= Keys(canon, Parts(entries[j])))
  {
    hide SafeName, TrimSlashes, Split, Join, FoldsComponents;
    var above, below := Parts(entries[i]), Parts(entries[j]);
    if Keys(canon, above) <= Keys(canon, below) {
      var n := |above|;
      KeysFollow(canon, key, above, below);
      JoinSplit(TrimSlashes(entries[i].path), '/');
      JoinSplit(TrimSlashes(entries[j].path), '/');
      KeyOfJoin(key, above);
      KeyOfJoin(key, below);
    }
  }

  lemma KeysFollow(canon: string -> string, key: string -> string, above: seq<string>, below: seq<string>)
    requires IdentifiesByKey(canon, key) && Keys(canon, above) <= Keys(canon, below)
    ensures |above| <= |below| && Keys(key, above) == Keys(key, below)[..|above|]
    ensures |above| == |below| ==> Keys(key, above) == Keys(key, below)
  {
    forall k | 0 <= k < |above|
      ensures Keys(key, above)[k] == Keys(key, below)[k]
    {
      assert Keys(canon, above)[k] == Keys(canon, below)[k];
    }
  }

  // ----- any order

  /** The members of an accepted archive that `order` names, in that order. */
  function Chosen(canon: string -> string, entries: seq<Entry>, members: seq<Member>, order: seq<nat>): (items: seq<Item>)
    requires |entries| == |members| && forall k :: 0 <= k < |order| ==> order[k] < |members|
    ensures |items| == |order| && forall k :: 0 <= k < |items| ==> items[k].comps != []
  {
    seq(|order|, k requires 0 <= k < |order| => ItemOf(canon, entries[order[k]], members[order[k]].data))
  }

  /** Any selection, in any order, extracts into an empty root as exactly the tree its members describe. */
  lemma AcceptedExtracts(canon: string -> string, key: string -> string, members: seq<Member>, order: seq<nat>)
    requires FoldsComponents(key) && IdentifiesByKey(canon, key)
    requires Inspect(key, members).Ok?
    requires Distinct(order) && forall k :: 0 <= k < |order| ==> order[k] < |members|
    ensures |Inspect(key, members).value| == |members|
    ensures var items := Chosen(canon, Inspect(key, members).value, members, order);
            && AllApart(items)
            && PlaceAll(map[], items).Some? && Describes(PlaceAll(map[], items).value, items)
  {
    hide Inspect, ItemOf, Apart, FoldsComponents, IdentifiesByKey;
    AcceptedLength(key, members);
    var entries := Inspect(key, members).value;
    var items := Chosen(canon, entries, members, order);
    forall i, j | 0 <= i < j < |items|
      ensures Apart(items[i], items[j])
    {
      AcceptedIsApart(canon, key, members, order[i], order[j]);
    }
    PlacingDescribes(items);
  }

  lemma AcceptedLength(key: string -> string, members: seq<Member>)
    requires Inspect(key, members).Ok?
    ensures |Inspect(key, members).value| == |members|
  {
    hide SafeEntry, NormalizeEntryPath, UnderAFile, EntryKey;
    ListedAreSafe(key, members);
  }

  lemma OrderFree(canon: string -> string, key: string -> string, members: seq<Member>, one: seq<nat>, other: seq<nat>)
    requires FoldsComponents(key) && IdentifiesByKey(canon, key)
    requires Inspect(key, members).Ok?
    requires Distinct(one) && Distinct(other)
    requires forall k :: 0 <= k < |one| ==> one[k] < |members|
    requires forall i :: i in one <==> i in other
    ensures |Inspect(key, members).value| == |members|
    ensures forall k :: 0 <= k < |other| ==> other[k] < |members|
    ensures var entries := Inspect(key, members).value;
            PlaceAll(map[], Chosen(canon, entries, members, one)) == PlaceAll(map[], Chosen(canon, entries, members, other))
  {
    hide Inspect, ItemOf, PlaceAll, Describes, FoldsComponents, IdentifiesByKey, AllApart;
    forall k | 0 <= k < |other|
      ensures other[k] < |members|
    {
      assert other[k] in one;
    }
    AcceptedExtracts(canon, key, members, one);
    AcceptedExtracts(canon, key, members, other);
    var entries := Inspect(key, members).value;
    SameChosen(canon, entries, members, one, other);
    SameChosen(canon, entries, members, other, one);
    var a, b := Chosen(canon, entries, members, one), Chosen(canon, entries, members, other);
    DescribedOnce(PlaceAll(map[], a).value, PlaceAll(map[], b).value, a, b);
  }

  lemma SameChosen(canon: string -> string, entries: seq<Entry>, members: seq<Member>, one: seq<nat>, other: seq<nat>)
    requires |entries| == |members|
    requires forall k :: 0 <= k < |one| ==> one[k] < |members|
    requires forall k :: 0 <= k < |other| ==> other[k] < |members|
    requires forall i :: i in one ==> i in other
    ensures forall item :: item in Chosen(canon, entries, members, one) ==> item in Chosen(canon, entries, members, other)
  {
    hide ItemOf;
    var a, b := Chosen(canon, entries, members, one), Chosen(canon, entries, members, other);
    forall k | 0 <= k < |a|
      ensures a[k] in b
    {
      assert one[k] in other;
      var j :| 0 <= j < |other| && other[j] == one[k];
      assert b[j] == a[k];
    }
  }

  // ----- refused archives

  predicate Named(m: Member) { NormalizeEntryPath(m.name, m.directory).Ok? }

  function EntryOf(m: Member): Entry
    requires Named(m)
  {
    Entry(NormalizeEntryPath(m.name, m.directory).value, m.directory, m.size, m.compressedSize)
  }

  /** Two members that cannot both be extracted where names are told apart by nothing but their keys. */
  ghost predicate Collide(key: string -> string, a: Member, b: Member) {
    Named(a) && Named(b) && !Apart(ItemOf(key, EntryOf(a), a.data), ItemOf(key, EntryOf(b), b.data))
  }

  /** Nothing is refused as a duplicate without a real collision. */
  lemma RefusedCollides(key: string -> string, members: seq<Member>)
    requires FoldsComponents(key)
    requires Inspect(key, members) == Err(DuplicateEntry)
    ensures exists i, j :: 0 <= i < |members| && 0 <= j < |members| && i != j && Collide(key, members[i], members[j])
  {
    hide NormalizeEntryPath, EntryKey, FoldsComponents, Collide, SafeEntry, UnderAFile;
    var listed := ListMembers(key, members);
    if listed.Err? {
      RefusedListing(key, members);
    } else {
      ListedAreSafe(key, members);
      var entries := listed.value.entries;
      var j :| 0 <= j < |entries| && UnderAFile(key, entries, entries[j]);
      forall k: nat | k < |members|
        ensures Named(members[k]) && entries[k] == EntryOf(members[k])
      {
        ListedEntryOf(key, members, k);
      }
      var i := FileAbove(key, entries, members, j);
      assert Collide(key, members[i], members[j]);
    }
  }

  lemma {:induction false} RefusedListing(key: string -> string, members: seq<Member>)
    requires FoldsComponents(key)
    requires ListMembers(key, members) == Err(DuplicateEntry)
    ensures exists i, j :: 0 <= i < |members| && 0 <= j < |members| && i != j && Collide(key, members[i], members[j])
    decreases |members|
  {
    hide NormalizeEntryPath, FoldsComponents, Collide, SafeEntry, RegularMode, SizeProblem;
    if members != [] {
      var n := |members| - 1;
      var before := ListMembers(key, members[..n]);
      if before.Err? {
        RefusedListing(key, members[..n]);
        var i, j :| 0 <= i < n && 0 <= j < n && i != j && Collide(key, members[..n][i], members[..n][j]);
        assert Collide(key, members[i], members[j]);
      } else {
        NameErrors(members[n].name, members[n].directory);
        SizeErrors(members[n], before.value.total);
        var entries, entry := before.value.entries, EntryOf(members[n]);
        var i :| 0 <= i < |entries| && EntryKey(key, entries[i]) == EntryKey(key, entry);
        ListedAreSafe(key, members[..n]);
        ListedEntryOf(key, members[..n], i);
        SameKeySameKeys(key, entries[i], entry);
        SamePlaceCollides(key, members[i], members[n]);
      }
    }
  }

  lemma SizeErrors(m: Member, total: nat)
    ensures SizeProblem(m, total) != Some(DuplicateEntry)
  {}

  lemma NameErrors(value: string, directory: bool)
    ensures NormalizeEntryPath(value, directory).Err? ==> NormalizeEntryPath(value, directory).error == UnsafeEntry
  {}

  lemma {:induction false} ListedEntryOf(key: string -> string, members: seq<Member>, i: nat)
    requires ListMembers(key, members).Ok? && i < |members|
    ensures |ListMembers(key, members).value.entries| == |members|
    ensures Named(members[i]) && ListMembers(key, members).value.entries[i] == EntryOf(members[i])
    decreases |members|
  {
    hide NormalizeEntryPath, EntryKey, RegularMode, SizeProblem;
    ListedCount(key, members[..|members| - 1]);
    if i < |members| - 1 {
      ListedEntryOf(key, members[..|members| - 1], i);
    }
  }

  lemma ListedCount(key: string -> string, members: seq<Member>)
    requires ListMembers(key, members).Ok?
    ensures |ListMembers(key, members).value.entries| == |members|
  {
    hide NormalizeEntryPath, EntryKey, SafeEntry;
    ListedAreSafe(key, members);
  }

  /** One key for two paths is one key for each of their components. */
  lemma SameKeySameKeys(key: string -> string, a: Entry, b: Entry)
    requires FoldsComponents(key) && EntryKey(key, a) == EntryKey(key, b)
    ensures Keys(key, Parts(a)) == Keys(key, Parts(b))
  {
    hide TrimSlashes, Split, Join;
    KeyIsJoined(key, a);
    KeyIsJoined(key, b);
  }

  lemma KeyIsJoined(key: string -> string, e: Entry)
    requires FoldsComponents(key)
    ensures EntryKey(key, e) == Join(Keys(key, Parts(e)), '/')
    ensures Split(EntryKey(key, e), '/') == Keys(key, Parts(e))
  {
    hide TrimSlashes, Split, Join;
    JoinSplit(TrimSlashes(e.path), '/');
    KeyOfJoin(key, Parts(e));
    SplitJoin(Keys(key, Parts(e)), '/');
  }

  lemma SamePlaceCollides(key: string -> string, a: Member, b: Member)
    requires Named(a) && Named(b) && Keys(key, Parts(EntryOf(a))) == Keys(key, Parts(EntryOf(b)))
    ensures Collide(key, a, b)
  {
    hide NormalizeEntryPath, Parts, Keys;
  }

  lemma FileAbove(key: string -> string, entries: seq<Entry>, members: seq<Member>, j: nat) returns (i: nat)
    requires FoldsComponents(key) && |entries| == |members| && j < |members|
    requires UnderAFile(key, entries, entries[j])
    requires forall k :: 0 <= k < |members| ==> Named(members[k]) && SafeEntry(entries[k]) && entries[k] == EntryOf(members[k])
    ensures i < |members| && i != j && Collide(key, members[i], members[j])
  {
    hide NormalizeEntryPath, TrimSlashes, SafeName, Split, Join, FoldsComponents;
    var keys := Keys(key, Parts(entries[j]));
    var n, above :| 0 < n < |keys| && 0 <= above < |entries| && !entries[above].directory
                    && key(entries[above].path) == Join(keys[..n], '/');
    i := above;
    KeyIsJoined(key, entries[i]);
    JoinSplit(TrimSlashes(entries[j].path), '/');
    KeysKeepSlashFree(key, Parts(entries[j]));
    SplitJoin(keys[..n], '/');
    assert Keys(key, Parts(entries[i])) == keys[..n];
  }

  lemma KeysKeepSlashFree(key: string -> string, parts: seq<string>)
    requires FoldsComponents(key) && forall k :: 0 <= k < |parts| ==> '/' !in parts[k]
    ensures forall k :: 0 <= k < |parts| ==> '/' !in Keys(key, parts)[k]
  {}
}
