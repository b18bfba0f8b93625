/** The extraction loop of an archive, writing into a destination directory. */
module ArchiveDestination {
  import opened Text
  import opened WorkspaceArchive
  import opened ArchiveExtraction

  function RequestedNames(requested: seq<string>): Result<set<string>, ArchiveError>
    decreases |requested|
  {
    if requested == [] then Ok({})
    else
      var before := RequestedNames(requested[..|requested| - 1]);
      if before.Err? then before
      else
        var name := NormalizeEntryPath(requested[|requested| - 1], false);
        if name.Err? then Err(name.error) else Ok(before.value + {name.value})
  }

  predicate Wanted(names: set<string>, e: Entry) { names == {} || e.path in names }

  /** The wanted members among the first `n`, in the order of the archive. */
  function WantedOrder(names: set<string>, entries: seq<Entry>, n: nat): (order: seq<nat>)
    requires n <= |entries|
    ensures ListsWanted(names, entries, n, order)
    ensures forall k :: 0 <= k < |order| ==> order[k] < n
  {
    if n == 0 then []
    else
      ListedOneMore(names, entries, n - 1, WantedOrder(names, entries, n - 1));
      WantedOrder(names, entries, n - 1) + if Wanted(names, entries[n - 1]) then [n - 1] else []
  }

  ghost predicate ListsWanted(names: set<string>, entries: seq<Entry>, n: nat, order: seq<nat>)
    requires n <= |entries|
  {
    Distinct(order) && forall i: nat :: i in order <==> i < n && Wanted(names, entries[i])
  }

  lemma ListedOneMore(names: set<string>, entries: seq<Entry>, n: nat, order: seq<nat>)
    requires n < |entries| && ListsWanted(names, entries, n, order)
    ensures ListsWanted(names, entries, n + 1, order + if Wanted(names, entries[n]) then [n] else [])
  {
    hide Wanted;
    forall k | 0 <= k < |order|
      ensures order[k] < n
    {
      assert order[k] in order;
    }
  }

  predicate AllKnown(names: set<string>, entries: seq<Entry>) {
    forall name :: name in names ==> exists i :: 0 <= i < |entries| && !entries[i].directory && entries[i].path == name
  }

  ghost predicate DecodesWhole(e: Entry, m: Member) { e.directory || |m.data| == e.size }

  /** Every wanted member among the first `n` decodes to the length its listing gives. */
  ghost predicate AllWhole(names: set<string>, entries: seq<Entry>, members: seq<Member>, n: nat)
    requires n <= |entries| == |members|
  {
    forall i :: 0 <= i < n && Wanted(names, entries[i]) ==> DecodesWhole(entries[i], members[i])
  }

  function FileBytes(names: set<string>, entries: seq<Entry>, n: nat): nat
    requires n <= |entries|
  {
    if n == 0 then 0
    else
      var last := entries[n - 1];
      FileBytes(names, entries, n - 1) + if Wanted(names, last) && !last.directory then last.size else 0
  }

  function FileCount(names: set<string>, entries: seq<Entry>, n: nat): nat
    requires n <= |entries|
  {
    if n == 0 then 0
    else
      var last := entries[n - 1];
      FileCount(names, entries, n - 1) + if Wanted(names, last) && !last.directory then 1 else 0
  }

  lemma {:induction false} BytesWithinTotal(key: string -> string, members: seq<Member>, names: set<string>)
    requires ListMembers(key, members).Ok?
    ensures var listed := ListMembers(key, members).value;
            FileBytes(names, listed.entries, |listed.entries|) <= listed.total <= MAX_WORKSPACE_ARCHIVE_UNCOMPRESSED_BYTES
    decreases |members|
  {
    hide NormalizeEntryPath, RegularMode, EntryKey, Wanted;
    if members != [] {
      BytesWithinTotal(key, members[..|members| - 1], names);
      var before := ListMembers(key, members[..|members| - 1]).value.entries;
      BytesOfPrefix(names, before, ListMembers(key, members).value.entries, |before|);
    }
  }

  lemma {:induction false} BytesOfPrefix(names: set<string>, a: seq<Entry>, b: seq<Entry>, n: nat)
    requires n <= |a| && a <= b
    ensures FileBytes(names, a, n) == FileBytes(names, b, n)
  {
    if n > 0 {
      BytesOfPrefix(names, a, b, n - 1);
    }
  }

  lemma {:induction false} BytesGrow(names: set<string>, entries: seq<Entry>, n: nat)
    requires n <= |entries|
    ensures FileBytes(names, entries, n) <= FileBytes(names, entries, |entries|)
    decreases |entries| - n
  {
    if n < |entries| {
      BytesGrow(names, entries, n + 1);
    }
  }

  /** What acceptance says of each entry and of the bytes of any selection. */
  lemma AcceptedEntries(key: string -> string, members: seq<Member>, names: set<string>)
    requires Inspect(key, members).Ok?
    ensures var entries := Inspect(key, members).value;
            && |entries| == |members|
            && (forall i :: 0 <= i < |entries| ==>
                  entries[i].directory == members[i].directory && entries[i].size == members[i].size
                  && Ok(entries[i].path) == NormalizeEntryPath(members[i].name, members[i].directory))
            && FileBytes(names, entries, |entries|) <= MAX_WORKSPACE_ARCHIVE_UNCOMPRESSED_BYTES
  {
    hide NormalizeEntryPath, ListMembers, SafeEntry, EntryKey, UnderAFile;
    ListedAreSafe(key, members);
    BytesWithinTotal(key, members, names);
  }

  lemma ChosenGrows(canon: string -> string, entries: seq<Entry>, members: seq<Member>, order: seq<nat>, i: nat)
    requires |entries| == |members| && i < |members| && forall k :: 0 <= k < |order| ==> order[k] < |members|
    ensures forall k :: 0 <= k < |order + [i]| ==> (order + [i])[k] < |members|
    ensures Chosen(canon, entries, members, order + [i])
            == Chosen(canon, entries, members, order) + [ItemOf(canon, entries[i], members[i].data)]
  {
    hide ItemOf;
  }

  lemma WantedIsDistinct(names: set<string>, entries: seq<Entry>, n: nat)
    requires n <= |entries|
    ensures Distinct(WantedOrder(names, entries, n))
  {}

  lemma PlaceNext(tree: Tree, items: seq<Item>, next: Item)
    requires next.comps != [] && forall i :: 0 <= i < |items| ==> items[i].comps != []
    ensures PlaceAll(tree, items).Some? ==> PlaceAll(tree, items + [next]) == Place(PlaceAll(tree, items).value, next)
  {
    hide Place;
    assert (items + [next])[..|items|] == items;
  }

  lemma {:induction false} NothingDeeper(tree: Tree, comps: seq<string>, k: nat, n: nat)
    requires k <= n <= |comps| && MakeDirectories(tree, comps, k).None?
    ensures MakeDirectories(tree, comps, n).None?
    decreases n
  {
    if k < n {
      NothingDeeper(tree, comps, k, n - 1);
    }
  }

  lemma {:induction false} RequestStops(requested: seq<string>, i: nat)
    requires i <= |requested|
    ensures RequestedNames(requested[..i]).Err? ==> RequestedNames(requested) == RequestedNames(requested[..i])
    decreases |requested| - i
  {
    hide NormalizeEntryPath;
    if i == |requested| {
      assert requested[..i] == requested;
    } else {
      RequestStops(requested, i + 1);
      assert requested[..i + 1][..i] == requested[..i];
    }
  }

  method NormalizeRequested(requested: seq<string>) returns (r: Result<set<string>, ArchiveError>)
    ensures r == RequestedNames(requested)
  {
    hide NormalizeEntryPath;
    var names := {};
    for i := 0 to |requested|
      invariant RequestedNames(requested[..i]) == Ok(names)
    {
      assert requested[..i + 1][..i] == requested[..i];
      RequestStops(requested, i + 1);
      var name := NormalizeEntryPath(requested[i], false);
      if name.Err? {
        return Err(name.error);
      }
      names := names + {name.value};
    }
    assert requested[..|requested|] == requested;
    return Ok(names);
  }

  /** The wanted ones among the first `n` members have been placed. */
  ghost predicate Extracted(canon: string -> string, names: set<string>, entries: seq<Entry>, members: seq<Member>, n: nat,
                            before: Tree, after: Tree)
    requires n <= |entries| == |members|
  {
    PlaceAll(before, Chosen(canon, entries, members, WantedOrder(names, entries, n))) == Some(after)
  }

  lemma NothingExtracted(canon: string -> string, names: set<string>, entries: seq<Entry>, members: seq<Member>, tree: Tree)
    requires |entries| == |members|
    ensures Extracted(canon, names, entries, members, 0, tree, tree)
  {
    assert Chosen(canon, entries, members, []) == [];
  }

  lemma UnwantedIsPassed(canon: string -> string, names: set<string>, entries: seq<Entry>, members: seq<Member>, n: nat,
                         before: Tree, after: Tree)
    requires n < |entries| == |members| && !Wanted(names, entries[n])
    requires Extracted(canon, names, entries, members, n, before, after)
    ensures Extracted(canon, names, entries, members, n + 1, before, after)
  {
    assert WantedOrder(names, entries, n + 1) == WantedOrder(names, entries, n);
  }

  /** The next wanted member goes beside them, and into an empty root it always fits. */
  lemma WantedIsPlaced(canon: string -> string, key: string -> string, names: set<string>, entries: seq<Entry>,
                       members: seq<Member>, n: nat, before: Tree, after: Tree)
    requires FoldsComponents(key) && Inspect(key, members) == Ok(entries)
    requires n < |entries| == |members| && Wanted(names, entries[n])
    requires Extracted(canon, names, entries, members, n, before, after)
    ensures var placed := Place(after, ItemOf(canon, entries[n], members[n].data));
            && (placed.Some? ==> Extracted(canon, names, entries, members, n + 1, before, placed.value))
            && (before == map[] && IdentifiesByKey(canon, key) ==> placed.Some?)
  {
    hide FoldsComponents, IdentifiesByKey, Inspect, ItemOf, Place, PlaceAll, AllApart, Describes, Chosen, ListsWanted, Distinct;
    var order, item := WantedOrder(names, entries, n), ItemOf(canon, entries[n], members[n].data);
    ChosenGrows(canon, entries, members, order, n);
    PlaceNext(before, Chosen(canon, entries, members, order), item);
    if before == map[] && IdentifiesByKey(canon, key) {
      WantedIsDistinct(names, entries, n + 1);
      AcceptedExtracts(canon, key, members, order + [n]);
    }
  }

  datatype Written = Written(archiveBytes: nat, entries: nat)

  class Destination {
    var tree: Tree
    const canon: string -> string

    constructor (tree: Tree, canon: string -> string)
      ensures this.tree == tree && this.canon == canon
    {
      this.tree, this.canon := tree, canon;
    }

    method CreateDirectoryTree(comps: seq<string>, n: nat) returns (ok: bool)
      requires n <= |comps|
      modifies this
      ensures ok == MakeDirectories(old(tree), comps, n).Some?
      ensures ok ==> MakeDirectories(old(tree), comps, n) == Some(tree)
    {
      for k := 0 to n
        invariant MakeDirectories(old(tree), comps, k) == Some(tree)
      {
        if comps[..k + 1] in tree && tree[comps[..k + 1]].File? {
          NothingDeeper(old(tree), comps, k + 1, n);
          return false;
        }
        tree := tree[comps[..k + 1] := Directory];
      }
      return true;
    }

    /** Creates a directory, or what a file needs above it, and finds out whether a file can stand here. */
    method MakeRoom(item: Item) returns (ok: bool)
      requires item.comps != []
      modifies this
      ensures ok == Place(old(tree), item).Some?
      ensures ok ==> Place(old(tree), item) == Some(if item.node.Directory? then tree else tree[item.comps := item.node])
    {
      var n := |item.comps|;
      if item.node.Directory? {
        ok := CreateDirectoryTree(item.comps, n);
        return;
      }
      ok := CreateDirectoryTree(item.comps, n - 1);
      return ok && !(item.comps in tree && tree[item.comps].Directory?);
    }

    method ExtractZip(key: string -> string, requested: seq<string>, members: seq<Member>)
      returns (r: Result<Written, ArchiveError>)
      requires FoldsComponents(key)
      modifies this
      ensures var names, listed := RequestedNames(requested), Inspect(key, members);
              if names.Err? then r == Err(names.error) && tree == old(tree)
              else if listed.Err? then r == Err(listed.error) && tree == old(tree)
              else if !AllKnown(names.value, listed.value) then r == Err(MissingEntry) && tree == old(tree)
              else
                && |listed.value| == |members|
                && var order := WantedOrder(names.value, listed.value, |members|);
                && (r.Ok? ==>
                      && PlaceAll(old(tree), Chosen(canon, listed.value, members, order)) == Some(tree)
                      && r.value == Written(FileBytes(names.value, listed.value, |members|), FileCount(names.value, listed.value, |members|))
                      && r.value.archiveBytes <= MAX_WORKSPACE_ARCHIVE_UNCOMPRESSED_BYTES
                      && AllWhole(names.value, listed.value, members, |members|))
                && (r.Err? ==> r.error == InvalidSource || r == Err(ChangedSource))
                && (r == Err(ChangedSource) ==> !AllWhole(names.value, listed.value, members, |members|))
                && (old(tree) == map[] && IdentifiesByKey(canon, key) ==>
                      if AllWhole(names.value, listed.value, members, |members|) then r.Ok? else r == Err(ChangedSource))
    {
      hide NormalizeEntryPath, ListMembers, UnderAFile, SafeEntry, EntryKey, FoldsComponents, IdentifiesByKey, Inspect,
           PlaceAll, Chosen, Wanted, ListsWanted, WantedOrder, AllWhole, FileBytes, FileCount;
      var names := NormalizeRequested(requested);
      if names.Err? {
        return Err(names.error);
      }
      var listed := InspectArchive(key, members);
      if listed.Err? {
        return Err(listed.error);
      }
      var entries := listed.value;
      if !AllKnown(names.value, entries) {
        return Err(MissingEntry);
      }
      r := ExtractWanted(key, names.value, entries, members);
    }

    /** One pass over the members of an accepted archive. */
    method ExtractWanted(key: string -> string, names: set<string>, entries: seq<Entry>, members: seq<Member>)
      returns (r: Result<Written, ArchiveError>)
      requires FoldsComponents(key) && Inspect(key, members) == Ok(entries)
      modifies this
      ensures |entries| == |members|
      ensures r.Ok? ==>
                && Extracted(canon, names, entries, members, |members|, old(tree), tree)
                && r.value == Written(FileBytes(names, entries, |members|), FileCount(names, entries, |members|))
                && r.value.archiveBytes <= MAX_WORKSPACE_ARCHIVE_UNCOMPRESSED_BYTES
                && AllWhole(names, entries, members, |members|)
      ensures r.Err? ==> r.error == InvalidSource || r == Err(ChangedSource)
      ensures r == Err(ChangedSource) ==> !AllWhole(names, entries, members, |members|)
      ensures old(tree) == map[] && IdentifiesByKey(canon, key) ==> r != Err(InvalidSource)
    {
      hide NormalizeEntryPath, FoldsComponents, IdentifiesByKey, Inspect, ItemOf, Place, PlaceAll, Chosen, WantedOrder,
           ListsWanted, Extracted;
      AcceptedEntries(key, members, names);
      NothingExtracted(canon, names, entries, members, tree);
      var written, extracted := 0, 0;
      for i := 0 to |members|
        invariant Extracted(canon, names, entries, members, i, old(tree), tree)
        invariant written == FileBytes(names, entries, i) && extracted == FileCount(names, entries, i)
        invariant AllWhole(names, entries, members, i)
      {
        var name := NormalizeEntryPath(members[i].name, members[i].directory).value;
        if names == {} || name in names {
          var item := ItemOf(canon, entries[i], members[i].data);
          WantedIsPlaced(canon, key, names, entries, members, i, old(tree), tree);
          var room := MakeRoom(item);
          if !room {
            return Err(InvalidSource);
          }
          if !members[i].directory {
            if |members[i].data| != members[i].size {
              return Err(ChangedSource);
            }
            tree := tree[item.comps := item.node];
            written, extracted := written + |members[i].data|, extracted + 1;
            BytesGrow(names, entries, i + 1);
            // The limit on the bytes written is met by the limit on the listed sizes.
            assert written <= MAX_WORKSPACE_ARCHIVE_UNCOMPRESSED_BYTES;
          }
        } else {
          UnwantedIsPassed(canon, names, entries, members, i, old(tree), tree);
        }
      }
      return Ok(Written(written, extracted));
    }
  }
}
