/** What a request selects from an archive, and what the reported counts count. */
module ExtractionRules {
  import opened Text
  import opened Numerals
  import opened WorkspaceArchive
  import opened ArchiveExtraction
  import opened ArchiveDestination

  // ----- requests

  /** A requested name is that of a file once it is normalized; one that cannot be is refused. */
  lemma {:induction false} RequestIs(requested: seq<string>)
    ensures match RequestedNames(requested)
            case Ok(names) =>
              && (forall j :: 0 <= j < |requested| ==> NormalizeEntryPath(requested[j], false).Ok?)
              && forall name :: name in names <==>
                   exists j :: 0 <= j < |requested| && NormalizeEntryPath(requested[j], false) == Ok(name)
            case Err(e) => exists j :: 0 <= j < |requested| && NormalizeEntryPath(requested[j], false) == Err(e)
    decreases |requested|
  {
    hide NormalizeEntryPath;
    if requested != [] {
      RequestIs(requested[..|requested| - 1]);
      var before, n := RequestedNames(requested[..|requested| - 1]), |requested| - 1;
      if before.Ok? && NormalizeEntryPath(requested[n], false).Ok? {
        var names := before.value + {NormalizeEntryPath(requested[n], false).value};
        forall name
          ensures name in names <==> exists j :: 0 <= j < |requested| && NormalizeEntryPath(requested[j], false) == Ok(name)
        {
          if name in before.value {
            var j :| 0 <= j < n && NormalizeEntryPath(requested[..n][j], false) == Ok(name);
            assert requested[j] == requested[..n][j];
          }
          if j :| 0 <= j < |requested| && NormalizeEntryPath(requested[j], false) == Ok(name) {
            assert j < n ==> requested[..n][j] == requested[j];
          }
        }
      }
    }
  }

  /** Without a request everything is extracted, in the order of the archive; otherwise what is requested, and a request
      for anything but a file of the archive is refused. */
  lemma SelectedIs(names: set<string>, entries: seq<Entry>)
    ensures forall i: nat :: i in WantedOrder(names, entries, |entries|) <==>
              i < |entries| && (names == {} || entries[i].path in names)
    ensures Ascending(WantedOrder(names, entries, |entries|))
    ensures AllKnown(names, entries) <==> names <= set e | e in entries && !e.directory :: e.path
  {
    OrderAscends(names, entries, |entries|);
    var files := set e | e in entries && !e.directory :: e.path;
    forall name
      ensures name in files <==> exists i :: 0 <= i < |entries| && !entries[i].directory && entries[i].path == name
    {
      if i :| 0 <= i < |entries| && !entries[i].directory && entries[i].path == name {
        assert entries[i] in entries;
      }
    }
  }

  predicate Ascending(order: seq<nat>) { forall i, j :: 0 <= i < j < |order| ==> order[i] < order[j] }

  lemma {:induction false} OrderAscends(names: set<string>, entries: seq<Entry>, n: nat)
    requires n <= |entries|
    ensures Ascending(WantedOrder(names, entries, n))
  {
    if n > 0 {
      OrderAscends(names, entries, n - 1);
    }
  }

  // ----- counts

  function BytesOf(items: seq<Item>): nat {
    if items == [] then 0
    else BytesOf(items[..|items| - 1]) + match items[|items| - 1].node case File(data) => |data| case Directory => 0
  }

  function FilesOf(items: seq<Item>): nat {
    if items == [] then 0 else FilesOf(items[..|items| - 1]) + if items[|items| - 1].node.File? then 1 else 0
  }

  /** What is reported is the number of files that were written and of all their bytes. */
  lemma {:induction false} CountsAre(canon: string -> string, names: set<string>, entries: seq<Entry>, members: seq<Member>, n: nat)
    requires n <= |entries| == |members| && AllWhole(names, entries, members, n)
    ensures var items := Chosen(canon, entries, members, WantedOrder(names, entries, n));
            FileBytes(names, entries, n) == BytesOf(items) && FileCount(names, entries, n) == FilesOf(items)
  {
    hide Chosen, ItemOf, ListsWanted;
    var items := Chosen(canon, entries, members, WantedOrder(names, entries, n));
    if n == 0 {
      NothingChosen(canon, entries, members);
    } else {
      CountsAre(canon, names, entries, members, n - 1);
      var before := WantedOrder(names, entries, n - 1);
      if Wanted(names, entries[n - 1]) {
        ChosenGrows(canon, entries, members, before, n - 1);
        var item := ItemOf(canon, entries[n - 1], members[n - 1].data);
        ItemBytes(canon, entries[n - 1], members[n - 1].data);
        assert items[..|items| - 1] == Chosen(canon, entries, members, before) && items[|items| - 1] == item;
        assert DecodesWhole(entries[n - 1], members[n - 1]);
      } else {
        assert WantedOrder(names, entries, n) == before;
      }
    }
  }

  lemma NothingChosen(canon: string -> string, entries: seq<Entry>, members: seq<Member>)
    requires |entries| == |members|
    ensures Chosen(canon, entries, members, []) == []
  {}

  lemma ItemBytes(canon: string -> string, e: Entry, data: Bytes)
    ensures ItemOf(canon, e, data).node == if e.directory then Directory else File(data)
  {}

  /** The listed total is that of all sizes. */
  lemma {:induction false} TotalIs(key: string -> string, members: seq<Member>)
    requires ListMembers(key, members).Ok?
    ensures ListMembers(key, members).value.total == SizeOf(members)
    decreases |members|
  {
    hide NormalizeEntryPath, RegularMode, EntryKey;
    if members != [] {
      TotalIs(key, members[..|members| - 1]);
    }
  }

  function SizeOf(members: seq<Member>): nat {
    if members == [] then 0 else SizeOf(members[..|members| - 1]) + members[|members| - 1].size
  }
}
