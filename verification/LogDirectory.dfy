/** The rotation of the log directory (getNextLogFileName), on real file names. */
module LogDirectory {
  import opened Options
  import opened LogSlots
  import opened LogNames

  /** State of the renaming loop. */
  datatype Scan<T> = Scan(files: map<string, T>, index: nat, foundCurrent: bool)

  /** The files still to be visited are there, each listed once. */
  ghost predicate Visitable<T>(files: map<string, T>, todo: seq<string>) {
    && (forall e | e in todo :: e in files)
    && Distinct(todo)
  }

  ghost predicate Distinct(todo: seq<string>) {
    todo == [] || (todo[|todo| - 1] !in todo[..|todo| - 1] && Distinct(todo[..|todo| - 1]))
  }

  /** One iteration: note the current log, skip what has no number, delete what is obsolete, rename the rest. */
  function Visit<T>(scan: Scan<T>, entry: string, total: nat, nm: Naming): Scan<T>
    requires nm.maximum >= 1 && entry in scan.files
  {
    if entry == nm.Current() then scan.(foundCurrent := true)
    else
      match ReadNumber(entry, nm.numberAt)
      case None => scan
      case Some(n) =>
        var target := Target(n, scan.index);
        if n >= nm.Top() && total >= nm.maximum then
          Scan(scan.files - {entry}, target, scan.foundCurrent)
        else
          Scan(Move(scan.files, entry, nm.Slot(target)), Decrement(target), scan.foundCurrent)
  }

  /** The loop: from the last name still to be visited to the first. */
  function VisitDown<T>(scan: Scan<T>, todo: seq<string>, total: nat, nm: Naming): (r: Scan<T>)
    requires nm.maximum >= 1 && Visitable(scan.files, todo)
    ensures r.foundCurrent <==> scan.foundCurrent || nm.Current() in todo
    ensures nm.Current() in scan.files ==> nm.Current() in r.files
    decreases |todo|
  {
    if todo == [] then scan
    else
      InInit(todo);
      VisitDown(Visit(scan, todo[|todo| - 1], total, nm), todo[..|todo| - 1], total, nm)
  }

  lemma InInit(todo: seq<string>)
    requires todo != []
    ensures forall e :: e in todo <==> e == todo[|todo| - 1] || e in todo[..|todo| - 1]
  {
    assert todo == todo[..|todo| - 1] + [todo[|todo| - 1]];
  }

  /** The whole rotation: the loop, the move of the current log to slot 1, and the probe that leaves no
      current log behind. */
  function Rotated<T>(files: map<string, T>, entries: seq<string>, nm: Naming): map<string, T>
    requires nm.maximum >= 1 && Listing(entries, files.Keys, nm.prefix)
  {
    ListingVisitable(files, entries, nm.prefix);
    var scan := VisitDown(Scan(files, nm.Top(), false), entries, |entries|, nm);
    var renamed := if scan.foundCurrent then Move(scan.files, nm.Current(), nm.Slot(1)) else scan.files;
    renamed - {nm.Current()}
  }

  lemma ListingVisitable<T>(files: map<string, T>, entries: seq<string>, prefix: string)
    requires Listing(entries, files.Keys, prefix)
    ensures Visitable(files, entries)
  {
    AscendingDistinct(entries);
  }

  lemma {:induction false} AscendingDistinct(entries: seq<string>)
    requires Ascending(entries)
    ensures Distinct(entries)
  {
    if entries != [] {
      var e, init := entries[|entries| - 1], entries[..|entries| - 1];
      AscendingDistinct(init);
      StrLessIrreflexive(e);
    }
  }

  lemma VisitUnfolds<T>(scan: Scan<T>, todo: seq<string>, total: nat, nm: Naming)
    requires nm.maximum >= 1 && todo != [] && Visitable(scan.files, todo)
    ensures todo[|todo| - 1] in scan.files
    ensures var next := Visit(scan, todo[|todo| - 1], total, nm);
            && Visitable(next.files, todo[..|todo| - 1])
            && VisitDown(scan, todo, total, nm) == VisitDown(next, todo[..|todo| - 1], total, nm)
  {
    InInit(todo);
  }

  class LogDirectory<T> {
    var files: map<string, T>

    constructor (files: map<string, T>)
      ensures this.files == files
    {
      this.files := files;
    }

    method Delete(name: string)
      modifies this
      ensures files == old(files) - {name}
    {
      files := files - {name};
    }

    /** rename(2): fails when the source does not exist. */
    method Rename(source: string, target: string) returns (ok: bool)
      modifies this
      ensures ok <==> source in old(files)
      ensures files == if ok then Move(old(files), source, target) else old(files)
    {
      ok := source in files;
      if ok {
        files := (files - {source})[target := files[source]];
      }
    }

    method Create(name: string, empty: T)
      modifies this
      ensures files == old(files)[name := if name in old(files) then old(files)[name] else empty]
    {
      if name !in files {
        files := files[name := empty];
      }
    }

    /** The body of the renaming loop. */
    method VisitEntry(entry: string, total: nat, index: nat, foundCurrent: bool, nm: Naming)
      returns (ok: bool, index': nat, foundCurrent': bool)
      requires nm.maximum >= 1 && entry in files
      modifies this
      ensures ok && Scan(files, index', foundCurrent') == Visit(Scan(old(files), index, foundCurrent), entry, total, nm)
    {
      ok, index', foundCurrent' := true, index, foundCurrent;
      if entry == nm.Current() {
        foundCurrent' := true;
        return;
      }
      var number := ReadNumber(entry, nm.numberAt);
      if number.None? {
        return;
      }
      if number.value < index {
        index' := number.value + 1;
      }
      if number.value >= nm.maximum - 1 && total >= nm.maximum {
        Delete(entry);
        return;
      }
      ok := Rename(entry, nm.Slot(index'));
      if !ok {
        return;
      }
      index' := if index' == 0 then 0xFFFF_FFFF else index' - 1;
    }

    /** The renaming loop, from the last entry to the first. */
    method RenameNumbered(entries: seq<string>, nm: Naming) returns (ok: bool, foundCurrent: bool)
      requires nm.maximum >= 1 && Visitable(files, entries)
      modifies this
      ensures ok
      ensures var done := VisitDown(Scan(old(files), nm.Top(), false), entries, |entries|, nm);
              files == done.files && foundCurrent == done.foundCurrent
    {
      ghost var done := VisitDown(Scan(files, nm.Top(), false), entries, |entries|, nm);
      assert entries[..|entries|] == entries;
      ok, foundCurrent := true, false;
      var index: nat := nm.maximum - 1;
      var i := |entries|;
      while i > 0
        invariant 0 <= i <= |entries|
        invariant Visitable(files, entries[..i])
        invariant VisitDown(Scan(files, index, foundCurrent), entries[..i], |entries|, nm) == done
      {
        VisitUnfolds(Scan(files, index, foundCurrent), entries[..i], |entries|, nm);
        i := i - 1;
        assert entries[..i + 1][..i] == entries[..i];
        ok, index, foundCurrent := VisitEntry(entries[i], |entries|, index, foundCurrent, nm);
        if !ok {
          return;
        }
      }
    }

    /** Rotation with numbers read `nm.numberAt` characters into a name. Returns the name of the next log;
        None would mean that a rename failed. */
    method RotateLogs(entries: seq<string>, nm: Naming, empty: T) returns (result: Option<string>)
      requires nm.maximum >= 1 && Listing(entries, files.Keys, nm.prefix)
      modifies this
      ensures result == Some(nm.Current())
      ensures files == Rotated(old(files), entries, nm)
    {
      ListingVisitable(files, entries, nm.prefix);
      assert entries[..|entries|] == entries;
      var ok, foundCurrent := RenameNumbered(entries, nm);
      if !ok {
        return None;
      }
      if foundCurrent {
        ok := Rename(nm.Current(), nm.Slot(1));
        if !ok {
          return None;
        }
      }
      Create(nm.Current(), empty);
      Delete(nm.Current());
      result := Some(nm.Current());
    }

    /** getNextLogFileName in a directory that can be written to. */
    method NextLogFileName(entries: seq<string>, programName: string, prefix: string, maximum: nat, empty: T)
      returns (result: Option<string>)
      requires programName != "" && maximum >= 1 && Listing(entries, files.Keys, prefix)
      modifies this
      ensures result == Some(programName + ".log")
      ensures files == Rotated(old(files), entries, Naming(programName, prefix, |programName|, maximum))
    {
      result := RotateLogs(entries, Literal(programName, prefix, maximum), empty);
    }
  }
}
