/** When a rotation loses a log by renaming another file over it, exactly. */
module LogSafety {
  import opened Options
  import opened LogSlots
  import opened LogNames
  import opened LogDirectory
  import opened LogRotation

  /** The iteration on `entry` renames, if at all, to a name that is free or to the entry's own name. */
  ghost predicate StepSafe<T>(scan: Scan<T>, entry: string, total: nat, nm: Naming)
    requires nm.maximum >= 1
  {
    Unnumbered(entry, nm) ||
    (var n := ReadNumber(entry, nm.numberAt).value;
     var target := nm.Slot(Target(n, scan.index));
     (n >= nm.Top() && total >= nm.maximum) || (target in scan.files ==> target == entry))
  }

  ghost predicate LoopSafe<T>(scan: Scan<T>, todo: seq<string>, total: nat, nm: Naming)
    requires nm.maximum >= 1 && Visitable(scan.files, todo)
    decreases |todo|
  {
    todo == [] ||
    (InInit(todo);
     && StepSafe(scan, todo[|todo| - 1], total, nm)
     && LoopSafe(Visit(scan, todo[|todo| - 1], total, nm), todo[..|todo| - 1], total, nm))
  }

  /** No rename of the whole rotation replaces another file. */
  ghost predicate NothingOverwritten<T>(files: map<string, T>, entries: seq<string>, nm: Naming)
    requires nm.maximum >= 1 && Listing(entries, files.Keys, nm.prefix)
  {
    ListingVisitable(files, entries, nm.prefix);
    var start := Scan(files, nm.Top(), false);
    var done := VisitDown(start, entries, |entries|, nm);
    && LoopSafe(start, entries, |entries|, nm)
    && (done.foundCurrent ==> nm.Slot(1) !in done.files)
  }

  lemma {:induction false} LoopSafeSimulates<T>(
    scan: Scan<T>, slots: map<nat, T>, todo: seq<string>, total: nat, nm: Naming)
    requires nm.Regular() && Visitable(scan.files, todo) && Conforming(todo, nm)
    requires Mirrors(slots, scan.files, nm)
    requires Listed(slots, Numbers(todo, nm)) && Different(Numbers(todo, nm))
    ensures LoopSafe(scan, todo, total, nm)
       <==> Safe(slots, scan.index, Numbers(todo, nm), nm.Top(), total >= nm.maximum)
    decreases |todo|
  {
    if todo != [] {
      var e, rest := todo[|todo| - 1], todo[..|todo| - 1];
      var next := Visit(scan, e, total, nm);
      VisitUnfolds(scan, todo, total, nm);
      NumbersStep(todo, nm);
      if Unnumbered(e, nm) {
        LoopSafeSimulates(next, slots, rest, total, nm);
      } else {
        var nextSlots := StepSafeSimulates(scan, slots, Numbers(todo, nm), total, nm);
        LoopSafeSimulates(next, nextSlots, rest, total, nm);
      }
    }
  }

  lemma StepSafeSimulates<T>(scan: Scan<T>, slots: map<nat, T>, ns: seq<nat>, total: nat, nm: Naming)
    returns (next: map<nat, T>)
    requires nm.Regular() && Mirrors(slots, scan.files, nm)
    requires ns != [] && Listed(slots, ns) && Different(ns) && 1 <= ns[0] < UINT_RANGE
    requires nm.Slot(ns[0]) in scan.files
    ensures var after := Visit(scan, nm.Slot(ns[0]), total, nm);
            && Mirrors(next, after.files, nm) && Listed(next, ns[1..])
            && (Safe(slots, scan.index, ns, nm.Top(), total >= nm.maximum)
                <==> StepSafe(scan, nm.Slot(ns[0]), total, nm)
                     && Safe(next, after.index, ns[1..], nm.Top(), total >= nm.maximum))
  {
    var n := ns[0];
    var target := Target(n, scan.index);
    SchemaReadsBack(nm, n);
    InTail(ns);
    assert At(slots, target) == At(scan.files, nm.Slot(target));
    if nm.Slot(target) == nm.Slot(n) { SlotInjective(nm, target, n); }
    if n >= nm.Top() && total >= nm.maximum {
      RemoveMirrors(slots, scan.files, nm, n);
      next := slots - {n};
    } else {
      MoveMirrors(slots, scan.files, nm, n, target);
      next := Move(slots, n, target);
    }
  }

  /** After the loop of a rotation that moves a current log, slot 1 is free. */
  lemma SlotOneFree<T>(files: map<string, T>, entries: seq<string>, nm: Naming)
    requires Orderly(files, entries, nm) && nm.Current() in files
    ensures Visitable(files, entries)
    ensures nm.Slot(1) !in VisitDown(Scan(files, nm.Top(), false), entries, |entries|, nm).files
  {
    var loop, lifted := LoopOnSlots(files, entries, nm);
    var slots, ns, top, full := SlotsOf(files, entries, nm), Numbers(entries, nm), nm.Top(), |entries| >= nm.maximum;
    SlotsMirror(files, entries, nm);
    NumbersAre(entries, nm);
    assert nm.prefix <= nm.Current();
    if full {
      RotateFull(slots, ns, top);
      assert At(lifted, 1) == if 1 > top then At(Kept(slots, top), 1) else At(Kept(slots, top), 0);
    } else {
      TargetsDescend(top, ns, top, 2);
      RotateOccupies(slots, top, ns, top, full);
      assert 1 !in lifted;
    }
    assert At(lifted, 1) == At(loop, nm.Slot(1));
  }

  /** No log is overwritten if and only if at least `maximum` files are listed, or the k slots that end at
      maximum - 1 are free of logs, k being the number of logs numbered above maximum - 1. In particular
      nothing is overwritten when all numbers lie within 1..maximum - 1. */
  lemma NothingOverwrittenIff<T>(files: map<string, T>, entries: seq<string>, nm: Naming)
    requires Orderly(files, entries, nm)
    ensures var k := CountAbove(Numbers(entries, nm), nm.Top());
            NothingOverwritten(files, entries, nm) <==>
            |entries| >= nm.maximum || forall j: nat | nm.Top() - k < j <= nm.Top() :: nm.Slot(j) !in files
  {
    var slots, ns, top := SlotsOf(files, entries, nm), Numbers(entries, nm), nm.Top();
    ListingVisitable(files, entries, nm.prefix);
    SlotsMirror(files, entries, nm);
    NumbersAre(entries, nm);
    assert nm.prefix <= nm.Current();
    LoopSafeSimulates(Scan(files, top, false), slots, entries, |entries|, nm);
    if nm.Current() in files { SlotOneFree(files, entries, nm); }
    if |entries| >= nm.maximum {
      RotateFull(slots, ns, top);
    } else {
      SafeIff(slots, top, ns, top);
      forall j: nat ensures nm.Slot(j) in files <==> j in ns {
        assert At(slots, j) == At(files, nm.Slot(j));
      }
    }
  }

  lemma InRangeNothingOverwritten<T>(files: map<string, T>, entries: seq<string>, nm: Naming)
    requires Orderly(files, entries, nm)
    requires forall n | n in Numbers(entries, nm) :: n <= nm.Top()
    ensures NothingOverwritten(files, entries, nm)
  {
    CountAboveNone(Numbers(entries, nm), nm.Top());
    NothingOverwrittenIff(files, entries, nm);
  }

  /** When the numbers are met in descending order, afterwards they lie within 1..maximum - 1, however large
      they were before (1 is always possible, since the current log moves there). */
  lemma NumbersBounded<T>(files: map<string, T>, entries: seq<string>, nm: Naming, j: nat)
    requires Orderly(files, entries, nm) && nm.Slot(j) in Rotated(files, entries, nm)
    ensures 1 <= j <= nm.Top() || (j == 1 && nm.Current() in files)
  {
    var loop, lifted := LoopOnSlots(files, entries, nm);
    var slots, ns, top, full := SlotsOf(files, entries, nm), Numbers(entries, nm), nm.Top(), |entries| >= nm.maximum;
    SlotsMirror(files, entries, nm);
    NumbersAre(entries, nm);
    FinalMove(files, entries, nm, loop);
    assert At(lifted, j) == At(loop, nm.Slot(j));
    assert SlotAt(Rotated(files, entries, nm), nm, j) != None;
    if j in lifted {
      if full {
        RotateFull(slots, ns, top);
        assert At(lifted, j) == if j > top then At(Kept(slots, top), j)
                                else if j == 0 then None else At(Kept(slots, top), j - 1);
      } else {
        TargetsDescend(top, ns, top, 1);
        RotateOccupies(slots, top, ns, top, full);
      }
    }
  }

  // ---------- the current log ----------

  /** The loop neither reads nor writes the current log. */
  lemma {:induction false} BlindToCurrent<T>(scan: Scan<T>, todo: seq<string>, total: nat, nm: Naming)
    requires nm.maximum >= 1 && Visitable(scan.files, todo) && nm.Current() !in todo
    requires forall n {:trigger nm.Slot(n)} :: nm.Slot(n) != nm.Current()
    ensures Visitable(scan.files - {nm.Current()}, todo)
    ensures var r := VisitDown(scan, todo, total, nm);
            VisitDown(scan.(files := scan.files - {nm.Current()}), todo, total, nm)
            == r.(files := r.files - {nm.Current()})
    decreases |todo|
  {
    if todo != [] {
      var blind := scan.(files := scan.files - {nm.Current()});
      var e := todo[|todo| - 1];
      var next := Visit(scan, e, total, nm);
      VisitUnfolds(scan, todo, total, nm);
      InInit(todo);
      BlindToCurrent(next, todo[..|todo| - 1], total, nm);
      VisitUnfolds(blind, todo, total, nm);
      BlindVisit(scan, e, total, nm);
    }
  }

  lemma BlindVisit<T>(scan: Scan<T>, e: string, total: nat, nm: Naming)
    requires nm.maximum >= 1 && e in scan.files && e != nm.Current()
    requires forall n {:trigger nm.Slot(n)} :: nm.Slot(n) != nm.Current()
    ensures var next := Visit(scan, e, total, nm);
            Visit(scan.(files := scan.files - {nm.Current()}), e, total, nm)
            == next.(files := next.files - {nm.Current()})
  {
    var next := Visit(scan, e, total, nm);
    assert Visit(scan.(files := scan.files - {nm.Current()}), e, total, nm).files == next.files - {nm.Current()};
  }

  /** A current log whose name does not start with the prefix (a program name that does not extend the name
      of the executable) is not rotated but lost: the outcome is as if it had never existed. */
  lemma UnlistedCurrentLost<T>(files: map<string, T>, entries: seq<string>, nm: Naming)
    requires nm.maximum >= 1 && Listing(entries, files.Keys, nm.prefix) && !(nm.prefix <= nm.Current())
    ensures Listing(entries, (files - {nm.Current()}).Keys, nm.prefix)
    ensures Rotated(files, entries, nm) == Rotated(files - {nm.Current()}, entries, nm)
  {
    forall n ensures nm.Slot(n) != nm.Current() { assert nm.prefix <= nm.Slot(n); }
    ListingVisitable(files, entries, nm.prefix);
    BlindToCurrent(Scan(files, nm.Top(), false), entries, |entries|, nm);
  }

  /** A current log whose name starts with the prefix ends up in slot 1, whatever the numbers read. */
  lemma ListedCurrentMoves<T>(files: map<string, T>, entries: seq<string>, nm: Naming)
    requires nm.maximum >= 1 && Listing(entries, files.Keys, nm.prefix) && nm.prefix <= nm.Current()
    requires nm.Current() in files && forall n {:trigger nm.Slot(n)} :: nm.Slot(n) != nm.Current()
    ensures At(Rotated(files, entries, nm), nm.Slot(1)) == At(files, nm.Current())
  {
    ListingVisitable(files, entries, nm.prefix);
    CurrentUntouched(Scan(files, nm.Top(), false), entries, |entries|, nm);
  }

  lemma {:induction false} CurrentUntouched<T>(scan: Scan<T>, todo: seq<string>, total: nat, nm: Naming)
    requires nm.maximum >= 1 && Visitable(scan.files, todo)
    requires forall n {:trigger nm.Slot(n)} :: nm.Slot(n) != nm.Current()
    ensures At(VisitDown(scan, todo, total, nm).files, nm.Current()) == At(scan.files, nm.Current())
    decreases |todo|
  {
    if todo != [] {
      VisitUnfolds(scan, todo, total, nm);
      CurrentUntouched(Visit(scan, todo[|todo| - 1], total, nm), todo[..|todo| - 1], total, nm);
    }
  }
}
