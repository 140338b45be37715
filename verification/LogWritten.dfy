/** Whole runs of the code as written, with the program name as prefix: numbers are looked for at the underscore
    (`LogNames.LiteralSkipsSlots`), and one old log is kept. */
module LogWritten {
  import opened Options
  import opened LogSlots
  import opened LogNames
  import opened LogDirectory
  import opened LogRotation
  import opened LogRuns
  import opened LogLimit

  /** All names with the prefix belong to the schema. */
  ghost predicate OnlyLogs<T>(files: map<string, T>, nm: Naming) {
    forall name | name in files && nm.prefix <= name :: name == nm.Current() || IsSlot(name, nm)
  }

  function First<T>(logs: seq<T>): Option<T> {
    if logs == [] then None else Some(logs[0])
  }

  /** Slot 1 holds the newest of the old logs, and nothing but slot 1 and the current log has changed. */
  ghost predicate KeepsOne<T>(files: map<string, T>, start: map<string, T>, archive: Archive<T>, nm: Naming) {
    && At(files, nm.Current()) == archive.current
    && SlotAt(files, nm, 1) == First(archive.logs)
    && forall name {:trigger At(files, name)} :: name != nm.Current() && name != nm.Slot(1) ==>
         At(files, name) == At(start, name)
  }

  /** The current log, and the log in slot 1 as the only old one that counts. */
  function FromSlotOne<T>(start: map<string, T>, nm: Naming): Archive<T> {
    Archive(Logs(start, nm, 1), At(start, nm.Current()))
  }

  lemma RestartMoves<T>(files: map<string, T>, nm: Naming)
    requires nm.maximum >= 1 && nm == Literal(nm.prefix, nm.prefix, nm.maximum) && OnlyLogs(files, nm)
    ensures Apply(files, Restart, nm)
         == if nm.Current() in files then Move(files, nm.Current(), nm.Slot(1)) else files
  {
    LiteralRotation(files, ListingOf(files.Keys, nm.prefix), nm.prefix, nm.maximum);
  }

  lemma StepKeepsOne<T>(files: map<string, T>, start: map<string, T>, archive: Archive<T>, event: Event<T>, nm: Naming)
    requires nm.maximum >= 1 && nm == Literal(nm.prefix, nm.prefix, nm.maximum)
    requires OnlyLogs(files, nm) && KeepsOne(files, start, archive, nm)
    ensures OnlyLogs(Apply(files, event, nm), nm) && KeepsOne(Apply(files, event, nm), start, archive.After(event), nm)
  {
    CurrentIsNoSlot(nm.prefix, nm.maximum, 1);
    assert IsSlot(nm.Slot(1), nm);
    RestartMoves(files, nm);
    var after := Apply(files, event, nm);
    forall name | name != nm.Current() && name != nm.Slot(1) ensures At(after, name) == At(start, name) {
      assert At(files, name) == At(start, name);
    }
  }

  /** Any sequence of writes and restarts of the code as written: slot 1 holds the newest old log, all other
      numbered logs stay what they were at the start, and every older log of the run is lost. */
  lemma {:induction false} RunKeepsOne<T>(start: map<string, T>, events: seq<Event<T>>, nm: Naming)
    requires nm.maximum >= 1 && nm == Literal(nm.prefix, nm.prefix, nm.maximum) && OnlyLogs(start, nm)
    ensures OnlyLogs(Run(start, events, nm), nm)
    ensures KeepsOne(Run(start, events, nm), start, Archived(FromSlotOne(start, nm), events), nm)
  {
    if events == [] {
      assert Logs(start, nm, 0) == [];
    } else {
      var init, last := events[..|events| - 1], events[|events| - 1];
      RunKeepsOne(start, init, nm);
      StepKeepsOne(Run(start, init, nm), start, Archived(FromSlotOne(start, nm), init), last, nm);
    }
  }

  // ---------- for how many files this is the promised rotation ----------

  ghost predicate OnlySlotOne<T>(files: map<string, T>, nm: Naming) {
    forall name | name in files && nm.prefix <= name :: name == nm.Current() || name == nm.Slot(1)
  }

  lemma {:induction false} OneLog<T>(files: map<string, T>, nm: Naming, top: nat)
    requires nm == Literal(nm.prefix, nm.prefix, nm.maximum) && OnlySlotOne(files, nm) && top >= 1
    ensures Logs(files, nm, top) == match SlotAt(files, nm, 1) case Some(log) => [log] case None => []
  {
    if top == 1 {
      assert Logs(files, nm, 0) == [];
    } else {
      OneLog(files, nm, top - 1);
      CurrentIsNoSlot(nm.prefix, nm.maximum, top);
      assert nm.prefix <= nm.Slot(top);
      if nm.Slot(top) == nm.Slot(1) { SlotInjective(nm, top, 1); }
    }
  }

  lemma FreshStart<T>(start: map<string, T>, nm: Naming)
    requires nm.maximum >= 2 && nm == Literal(nm.prefix, nm.prefix, nm.maximum) && Fresh(start, nm)
    ensures FromSlotOne(start, nm) == Initial(start, nm) == Archive([], At(start, nm.Current()))
  {
    CurrentIsNoSlot(nm.prefix, nm.maximum, 1);
    assert nm.prefix <= nm.Slot(1);
    OneLog(start, nm, 1);
    OneLog(start, nm, nm.Top());
  }

  lemma FreshRun<T>(start: map<string, T>, events: seq<Event<T>>, nm: Naming)
    requires nm.maximum >= 2 && nm == Literal(nm.prefix, nm.prefix, nm.maximum) && Fresh(start, nm)
    ensures KeepsOne(Run(start, events, nm), start, Archived(Initial(start, nm), events), nm)
    ensures OnlySlotOne(Run(start, events, nm), nm)
  {
    FreshStart(start, nm);
    RunKeepsOne(start, events, nm);
    var files := Run(start, events, nm);
    forall name | name != nm.Current() && name != nm.Slot(1) ensures name in files ==> name in start {
      assert At(files, name) == At(start, name);
    }
  }

  /** From a directory without old logs, a run of the code as written keeps the newest maximum - 1 of them if and
      only if there is at most one, or only one is asked for. */
  lemma WrittenKeepsIff<T>(start: map<string, T>, events: seq<Event<T>>, nm: Naming)
    requires nm.maximum >= 2 && nm == Literal(nm.prefix, nm.prefix, nm.maximum) && Fresh(start, nm)
    ensures var archive := Archived(Initial(start, nm), events);
            Keeps(Run(start, events, nm), start, archive, nm) <==> |archive.logs| <= 1 || nm.maximum == 2
  {
    var files, archive := Run(start, events, nm), Archived(Initial(start, nm), events);
    FreshRun(start, events, nm);
    OneLog(files, nm, nm.Top());
    assert IsSlot(nm.Slot(1), nm);
    forall name | !IsSlot(name, nm) && name != nm.Current() ensures At(files, name) == At(start, name) {
      assert name != nm.Slot(1);
    }
    assert |archive.logs| >= 1 ==> Newer(archive.logs, 1) == [archive.logs[0]];
  }

  /** So it keeps its promise in all runs if and only if at most two files are allowed; the documented naming
      schema allows ten (`LogLimit.RetentionIff`). */
  lemma WrittenRetentionIff<T(!new)>(nm: Naming, c: T)
    requires nm.maximum >= 2 && nm == Literal(nm.prefix, nm.prefix, nm.maximum)
    ensures AllRunsKeep<T>(nm) <==> nm.maximum == 2
  {
    forall start: map<string, T>, events: seq<Event<T>> | nm.maximum == 2 && Fresh(start, nm)
      ensures Keeps(Run(start, events, nm), start, Archived(Initial(start, nm), events), nm)
    {
      WrittenKeepsIff(start, events, nm);
    }
    var start: map<string, T>, events := map[], Cycles(c, 2);
    FreshStart(start, nm);
    CyclesArchive(c, 2);
    WrittenKeepsIff(start, events, nm);
    assert Fresh(start, nm);
  }
}
