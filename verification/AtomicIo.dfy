/** Replacing a whole file: a temporary file beside the target, then one rename. */
module AtomicIo {
  import opened Text
  import opened Numerals

  type Files = map<string, Bytes>

  function TmpPath(directory: string, name: string, stamp: nat): string {
    directory + "/." + name + "." + Decimal(stamp) + ".tmp"
  }

  /** A temporary name belongs to one target and one moment. */
  lemma TmpPathOnce(directory: string, name: string, stamp: nat, otherName: string, otherStamp: nat)
    requires TmpPath(directory, name, stamp) == TmpPath(directory, otherName, otherStamp)
    ensures name == otherName && stamp == otherStamp
  {
    var s, a, b := TmpPath(directory, name, stamp), Decimal(stamp), Decimal(otherStamp);
    var n := |s| - |".tmp"|;
    assert s[n - |a|..n] == a && s[n - |a| - 1] == '.';
    assert s[n - |b|..n] == b && s[n - |b| - 1] == '.';
    forall k | n - |a| <= k < n
      ensures IsDigit(s[k])
    {
      assert s[k] == s[n - |a|..n][k - (n - |a|)];
    }
    forall k | n - |b| <= k < n
      ensures IsDigit(s[k])
    {
      assert s[k] == s[n - |b|..n][k - (n - |b|)];
    }
    assert a == b;
    DecimalHasValue(stamp);
    DecimalHasValue(otherStamp);
    var head := |directory + "/."|;
    assert s[head..n - |a| - 1] == name && s[head..n - |b| - 1] == otherName;
  }

  // ----- writers side by side

  datatype Progress =
    | Fresh
    | Writing(written: nat)
    | Renamed
    | Stopped

  /** One replacement of `path`; the lock of a path keeps writers of one process apart, nothing keeps processes apart. */
  datatype Writer = Writer(path: string, tmp: string, bytes: Bytes, progress: Progress)

  datatype Disk = Disk(files: Files, writers: seq<Writer>)

  datatype Event =
    | Acts(who: nat)
    | Dies(who: nat)
    | CleansUp(who: nat)

  function Advance(files: Files, w: Writer): (Files, Progress) {
    match w.progress
    case Fresh => (files[w.tmp := []], Writing(0))
    case Writing(n) =>
      if n < |w.bytes| then (files[w.tmp := w.bytes[..n + 1]], Writing(n + 1))
      else if w.tmp in files then ((files - {w.tmp})[w.path := files[w.tmp]], Renamed)
      else (files, Stopped)
    case _ => (files, w.progress)
  }

  /** A writer takes its next step, dies where it is, or gives up and removes its temporary file. */
  function Step(d: Disk, e: Event): Disk {
    if e.who >= |d.writers| then d
    else
      var w := d.writers[e.who];
      match e
      case Acts(who) =>
        var (files, progress) := Advance(d.files, w);
        Disk(files, d.writers[who := w.(progress := progress)])
      case Dies(who) => if w.progress.Renamed? then d else d.(writers := d.writers[who := w.(progress := Stopped)])
      case CleansUp(who) =>
        if w.progress.Writing? then Disk(d.files - {w.tmp}, d.writers[who := w.(progress := Stopped)]) else d
  }

  function Run(d: Disk, events: seq<Event>): Disk
    decreases |events|
  {
    if events == [] then d else Step(Run(d, events[..|events| - 1]), events[|events| - 1])
  }

  /** Temporary names are each writer's own and are no one's target. */
  ghost predicate Separate(writers: seq<Writer>) {
    && (forall i, j :: 0 <= i < j < |writers| ==> writers[i].tmp != writers[j].tmp)
    && (forall i, j :: 0 <= i < |writers| && 0 <= j < |writers| ==> writers[i].tmp != writers[j].path)
  }

  ghost predicate IsTmp(writers: seq<Writer>, path: string) { exists i :: 0 <= i < |writers| && writers[i].tmp == path }

  ghost predicate Wrote(writers: seq<Writer>, path: string, bytes: Bytes) {
    exists i :: 0 <= i < |writers| && writers[i].path == path && writers[i].bytes == bytes && writers[i].progress.Renamed?
  }

  ghost predicate Inv(start: Disk, d: Disk) {
    && |d.writers| == |start.writers| && Separate(start.writers)
    && (forall i :: 0 <= i < |d.writers| ==> d.writers[i] == start.writers[i].(progress := d.writers[i].progress))
    && (forall i :: 0 <= i < |d.writers| ==> HoldsPrefix(d.files, d.writers[i]))
    && (forall path :: !IsTmp(start.writers, path) ==> Whole(start.files, d, path))
  }

  /** The temporary file of a writer at work holds what it has written so far. */
  ghost predicate HoldsPrefix(files: Files, w: Writer) {
    w.progress.Writing? ==>
      w.progress.written <= |w.bytes| && Lookup(files, w.tmp) == Some(w.bytes[..w.progress.written])
  }

  ghost predicate Whole(before: Files, d: Disk, path: string) {
    Lookup(d.files, path) == Lookup(before, path) || (path in d.files && Wrote(d.writers, path, d.files[path]))
  }

  lemma WroteLater(before: seq<Writer>, after: seq<Writer>, path: string, bytes: Bytes)
    requires |before| == |after| && Wrote(before, path, bytes)
    requires forall i :: 0 <= i < |before| && before[i].progress.Renamed? ==> after[i] == before[i]
    ensures Wrote(after, path, bytes)
  {
    var i :| 0 <= i < |before| && before[i].path == path && before[i].bytes == bytes && before[i].progress.Renamed?;
    assert after[i] == before[i];
  }

  /** A step touches the writer's own temporary file and, when it renames, its target. */
  lemma StepTouches(d: Disk, e: Event)
    requires e.who < |d.writers| && HoldsPrefix(d.files, d.writers[e.who])
    ensures var w, after := d.writers[e.who], Step(d, e);
            && |after.writers| == |d.writers|
            && (forall i :: 0 <= i < |d.writers| && i != e.who ==> after.writers[i] == d.writers[i])
            && after.writers[e.who] == w.(progress := after.writers[e.who].progress)
            && (w.progress.Renamed? ==> after.writers[e.who] == w)
            && HoldsPrefix(after.files, after.writers[e.who])
            && (forall path :: path != w.tmp && Lookup(after.files, path) != Lookup(d.files, path) ==>
                  path == w.path && after.writers[e.who].progress.Renamed? && Lookup(after.files, path) == Some(w.bytes))
  {
    var w := d.writers[e.who];
    assert w.bytes[..|w.bytes|] == w.bytes;
  }

  lemma StepKeepsInv(start: Disk, d: Disk, e: Event)
    requires Inv(start, d)
    ensures Inv(start, Step(d, e))
  {
    hide Wrote, Step, HoldsPrefix;
    var after := Step(d, e);
    if e.who < |d.writers| {
      var w := d.writers[e.who];
      StepTouches(d, e);
      assert IsTmp(start.writers, w.tmp) by { assert start.writers[e.who].tmp == w.tmp; }
      forall i | 0 <= i < |d.writers| && i != e.who
        ensures HoldsPrefix(after.files, after.writers[i])
      {
        assert start.writers[i].tmp != w.path && start.writers[i].tmp != w.tmp;
        PrefixStays(d.files, after.files, d.writers[i]);
      }
      forall path | !IsTmp(start.writers, path)
        ensures Whole(start.files, after, path)
      {
        if Lookup(after.files, path) != Lookup(d.files, path) {
          RenamedWrote(after.writers, e.who);
        } else if path in d.files && Wrote(d.writers, path, d.files[path]) {
          WroteLater(d.writers, after.writers, path, d.files[path]);
        }
      }
    } else {
      assert after == d by { NoSuchWriter(d, e); }
    }
  }

  lemma NoSuchWriter(d: Disk, e: Event)
    requires e.who >= |d.writers|
    ensures Step(d, e) == d
  {}

  lemma PrefixStays(before: Files, after: Files, w: Writer)
    requires HoldsPrefix(before, w) && Lookup(before, w.tmp) == Lookup(after, w.tmp)
    ensures HoldsPrefix(after, w)
  {}

  lemma RenamedWrote(writers: seq<Writer>, i: nat)
    requires i < |writers| && writers[i].progress.Renamed?
    ensures Wrote(writers, writers[i].path, writers[i].bytes)
  {}

  lemma {:induction false} RunKeepsInv(start: Disk, events: seq<Event>)
    requires Separate(start.writers) && forall i :: 0 <= i < |start.writers| ==> start.writers[i].progress.Fresh?
    ensures Inv(start, Run(start, events))
    decreases |events|
  {
    hide Step, Separate;
    if events != [] {
      RunKeepsInv(start, events[..|events| - 1]);
      StepKeepsInv(start, Run(start, events[..|events| - 1]), events[|events| - 1]);
    }
  }

  /** Whoever dies wherever, a file holds what it held at first or the whole of what some writer put there. */
  lemma NeverHalfWritten(start: Disk, events: seq<Event>, path: string)
    requires Separate(start.writers) && forall i :: 0 <= i < |start.writers| ==> start.writers[i].progress.Fresh?
    requires !IsTmp(start.writers, path)
    ensures var d := Run(start, events);
            || Lookup(d.files, path) == Lookup(start.files, path)
            || exists i :: 0 <= i < |start.writers| && start.writers[i].path == path
                           && Lookup(d.files, path) == Some(start.writers[i].bytes)
  {
    hide Run, Separate;
    RunKeepsInv(start, events);
    var d := Run(start, events);
    if Lookup(d.files, path) != Lookup(start.files, path) {
      var i :| 0 <= i < |d.writers| && d.writers[i].path == path && d.writers[i].bytes == d.files[path] && d.writers[i].progress.Renamed?;
      assert d.writers[i] == start.writers[i].(progress := Renamed);
    }
  }

  // ----- the gate

  datatype IoError = Interrupted | NotFound | ExceedsLimit

  class AtomicFiles {
    var files: Files
    var bytesWritten: nat
    var writeOps: nat
    var bytesRead: nat
    var readOps: nat
    /** How many more file operations succeed. */
    var budget: nat

    method Operation() returns (ok: bool)
      modifies this`budget
      ensures ok <==> old(budget) > 0
      ensures budget == if ok then old(budget) - 1 else 0
    {
      ok := budget > 0;
      if ok {
        budget := budget - 1;
      }
    }

    /** A failure before the rename leaves the target alone; one after it has already replaced the target. */
    method WriteAtomic(directory: string, name: string, bytes: Bytes, stamp: nat) returns (r: Result<(), IoError>)
      modifies this
      ensures var path, tmp := directory + "/" + name, TmpPath(directory, name, stamp);
              && (forall other :: other != path && other != tmp ==> Lookup(files, other) == Lookup(old(files), other))
              && (r.Ok? <==> old(budget) >= |bytes| + 3)
              && (path != tmp ==>
                    Lookup(files, path) == if old(budget) >= |bytes| + 2 then Some(bytes) else Lookup(old(files), path))
              && (path != tmp && r.Ok? ==> tmp !in files)
      ensures bytesWritten == old(bytesWritten) + (if r.Ok? then |bytes| else 0)
      ensures writeOps == old(writeOps) + (if r.Ok? then 1 else 0)
      ensures bytesRead == old(bytesRead) && readOps == old(readOps)
    {
      hide TmpPath;
      var path, tmp := directory + "/" + name, TmpPath(directory, name, stamp);
      var ok := Operation();
      if !ok {
        return Err(Interrupted);
      }
      files := files[tmp := []];
      for i := 0 to |bytes|
        invariant Lookup(files, tmp) == Some(bytes[..i]) && budget + 1 + i == old(budget)
        invariant forall other :: other != tmp ==> Lookup(files, other) == Lookup(old(files), other)
        invariant bytesWritten == old(bytesWritten) && writeOps == old(writeOps)
        invariant bytesRead == old(bytesRead) && readOps == old(readOps)
      {
        ok := Operation();
        if !ok {
          return Err(Interrupted);
        }
        files := files[tmp := bytes[..i + 1]];
      }
      assert bytes[..|bytes|] == bytes;
      ok := Operation();
      if !ok {
        files := files - {tmp};
        return Err(Interrupted);
      }
      files := (files - {tmp})[path := bytes];
      ok := Operation();
      if !ok {
        return Err(Interrupted);
      }
      bytesWritten, writeOps := bytesWritten + |bytes|, writeOps + 1;
      return Ok(());
    }

    /** Takes at most one byte more than allowed, and counts what it took even when it refuses. */
    method ReadBounded(path: string, maximum: nat) returns (r: Result<Bytes, IoError>)
      modifies this`bytesRead, this`readOps
      ensures r == match Lookup(files, path)
                   case None => Err(NotFound)
                   case Some(data) => if |data| <= maximum then Ok(data) else Err(ExceedsLimit)
      ensures readOps == old(readOps) + if path in files then 1 else 0
      ensures bytesRead == old(bytesRead) + match r case Ok(data) => |data| case Err(ExceedsLimit) => maximum + 1 case Err(_) => 0
    {
      if path !in files {
        return Err(NotFound);
      }
      var bytes := if |files[path]| <= maximum then files[path] else files[path][..maximum + 1];
      bytesRead, readOps := bytesRead + |bytes|, readOps + 1;
      return if |bytes| > maximum then Err(ExceedsLimit) else Ok(bytes);
    }
  }
}
