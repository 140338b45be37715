/** Whole runs: a program that writes to its log and rotates the logs at every start, in any order and any
    number of times. */
module LogRuns {
  import opened Options
  import opened LogSlots
  import opened LogNames
  import opened LogDirectory
  import opened LogRotation
  import LogSafety

  /** `Write` leaves `content` in the current log; `Restart` calls getNextLogFileName. */
  datatype Event<T> = Write(content: T) | Restart

  ghost function ListingOf(names: set<string>, prefix: string): (entries: seq<string>)
    ensures Listing(entries, names, prefix)
  {
    ListingExists(names, prefix);
    var entries :| Listing(entries, names, prefix);
    entries
  }

  ghost function Apply<T>(files: map<string, T>, event: Event<T>, nm: Naming): map<string, T>
    requires nm.maximum >= 1
  {
    match event
    case Write(c) => files[nm.Current() := c]
    case Restart => Rotated(files, ListingOf(files.Keys, nm.prefix), nm)
  }

  ghost function Run<T>(start: map<string, T>, events: seq<Event<T>>, nm: Naming): map<string, T>
    requires nm.maximum >= 1
  {
    if events == [] then start
    else Apply(Run(start, events[..|events| - 1], nm), events[|events| - 1], nm)
  }

  /** What a log keeper with unlimited space would have: all old logs, newest first, and the current one. */
  datatype Archive<T> = Archive(logs: seq<T>, current: Option<T>) {
    function Newest(): seq<T> {
      if current.Some? then [current.value] else []
    }

    function After(event: Event<T>): Archive<T> {
      match event
      case Write(c) => this.(current := Some(c))
      case Restart => Archive(Newest() + logs, None)
    }
  }

  function Archived<T>(start: Archive<T>, events: seq<Event<T>>): Archive<T> {
    if events == [] then start
    else Archived(start, events[..|events| - 1]).After(events[|events| - 1])
  }

  /** The contents of the numbered logs, from slot 1 upwards. */
  function Logs<T>(files: map<string, T>, nm: Naming, top: nat): seq<T> {
    if top == 0 then []
    else Logs(files, nm, top - 1) + (if nm.Slot(top) in files then [files[nm.Slot(top)]] else [])
  }

  function Newer<T>(s: seq<T>, n: nat): seq<T> {
    if |s| <= n then s else s[..n]
  }

  /** Only the current log and logs numbered 1..maximum - 1 start with the prefix. */
  ghost predicate Tidy<T>(files: map<string, T>, nm: Naming)
    requires nm.maximum >= 1
  {
    forall name | name in files && nm.prefix <= name ::
      name == nm.Current() || exists j | 1 <= j <= nm.Top() :: name == nm.Slot(j)
  }

  /** No numbered log has more than one digit, so that the listing is in numeric order. */
  ghost predicate Small<T>(files: map<string, T>, nm: Naming) {
    forall j: nat {:trigger nm.Slot(j)} | j >= 10 :: nm.Slot(j) !in files
  }

  ghost predicate Suited(nm: Naming) {
    nm.Regular() && nm.maximum >= 2
  }

  // ---------- a tidy directory is what the rotation expects ----------

  lemma OneDigit(a: nat, b: nat)
    requires a < b <= 9
    ensures WithinLead(a, b)
  {
  }

  lemma TidyOrderly<T>(files: map<string, T>, entries: seq<string>, nm: Naming)
    requires Suited(nm) && Tidy(files, nm) && Small(files, nm) && Listing(entries, files.Keys, nm.prefix)
    ensures Orderly(files, entries, nm)
    ensures forall n | n in Numbers(entries, nm) :: 1 <= n <= nm.Top() && n <= 9
    ensures forall e | e in entries :: e == nm.Current() || !Unnumbered(e, nm)
  {
    forall e | e in entries
      ensures Unnumbered(e, nm) || exists n | 1 <= n < UINT_RANGE :: e == nm.Slot(n)
      ensures e == nm.Current() || !Unnumbered(e, nm)
    {
      if e != nm.Current() {
        var j: nat :| 1 <= j <= nm.Top() && e == nm.Slot(j);
        assert j < 10;
        SchemaReadsBack(nm, j);
      }
    }
    NumbersAre(entries, nm);
    forall n | n in Numbers(entries, nm) ensures 1 <= n <= nm.Top() && n <= 9 {
      assert nm.Slot(n) in files && nm.prefix <= nm.Slot(n);
      var j :| 1 <= j <= nm.Top() && nm.Slot(n) == nm.Slot(j);
      SlotInjective(nm, n, j);
    }
    forall a, b | a in Numbers(entries, nm) && b in Numbers(entries, nm) && a < b ensures WithinLead(a, b) {
      OneDigit(a, b);
    }
    NumericOrderIff(entries, nm);
  }

  // ---------- contents of the slots, in order ----------

  /** Slots 1..j after aging hold the current log and what slots 1..j-1 held. */
  lemma {:induction false} LogsLifted<T>(after: map<string, T>, before: map<string, T>, nm: Naming, g: nat, j: nat)
    requires 1 <= j <= g && Aged(after, before, nm, g)
    ensures Logs(after, nm, j) == Archive([], At(before, nm.Current())).Newest() + Logs(before, nm, j - 1)
  {
    assert SlotAt(after, nm, j) == if j == 1 then At(before, nm.Current()) else SlotAt(before, nm, j - 1);
    if j > 1 {
      LogsLifted(after, before, nm, g, j - 1);
    }
  }

  lemma {:induction false} LogsAbove<T>(after: map<string, T>, before: map<string, T>, nm: Naming, g: nat, j: nat)
    requires g <= j && Aged(after, before, nm, g)
    requires g == 0 || nm.Slot(g) !in before
    ensures Logs(after, nm, j)
         == (if g == 0 then [] else Archive([], At(before, nm.Current())).Newest()) + Logs(before, nm, j)
  {
    if j == g {
      if g > 0 { LogsLifted(after, before, nm, g, g); }
    } else {
      assert SlotAt(after, nm, j) == SlotAt(before, nm, j);
      LogsAbove(after, before, nm, g, j - 1);
    }
  }

  lemma {:induction false} LogsLength<T>(files: map<string, T>, nm: Naming, top: nat)
    ensures |Logs(files, nm, top)| <= top
    ensures |Logs(files, nm, top)| == top <==> forall j | 1 <= j <= top :: nm.Slot(j) in files
  {
    if top > 0 { LogsLength(files, nm, top - 1); }
  }

  lemma {:induction false} HighestFreeIsFree<T>(files: map<string, T>, nm: Naming, top: nat)
    ensures var g := HighestFreeSlot(files, nm, top);
            g <= top && (g > 0 ==> nm.Slot(g) !in files) && (g == 0 ==> forall j | 1 <= j <= top :: nm.Slot(j) in files)
    ensures forall j | HighestFreeSlot(files, nm, top) < j <= top :: nm.Slot(j) in files
  {
    if top > 0 { HighestFreeIsFree(files, nm, top - 1); }
  }

  // ---------- a full directory has all its slots taken ----------

  lemma {:induction false} AllTakenConverse(ns: seq<nat>, top: nat)
    requires Descending(ns) && |ns| >= top && forall n | n in ns :: 1 <= n <= top
    ensures forall j | 1 <= j <= top :: j in ns
    decreases top
  {
    if top > 0 {
      InTail(ns);
      BelowHead(ns);
      assert ns[0] in ns;
      AllTakenConverse(ns[1..], top - 1);
    }
  }

  lemma {:induction false} NumbersCount(entries: seq<string>, nm: Naming)
    requires Distinct(entries) && forall e | e in entries :: e == nm.Current() || !Unnumbered(e, nm)
    ensures |entries| <= |Numbers(entries, nm)| + (if nm.Current() in entries then 1 else 0)
  {
    if entries != [] {
      InInit(entries);
      NumbersCount(entries[..|entries| - 1], nm);
    }
  }

  lemma FullMeansAllTaken<T>(files: map<string, T>, entries: seq<string>, nm: Naming)
    requires Suited(nm) && Tidy(files, nm) && Small(files, nm)
    requires Listing(entries, files.Keys, nm.prefix) && |entries| >= nm.maximum
    ensures nm.Current() in files && forall j | 1 <= j <= nm.Top() :: nm.Slot(j) in files
  {
    TidyOrderly(files, entries, nm);
    ListingVisitable(files, entries, nm.prefix);
    NumbersCount(entries, nm);
    var ns := Numbers(entries, nm);
    if ns != [] { BelowHead(ns); assert ns[0] in ns; }
    AllTakenConverse(ns, nm.Top());
    NumbersAre(entries, nm);
  }

  /** A rotation of a tidy directory, in one statement: logs age up to the highest free slot, or all of them
      age and the one in the last slot is dropped. */
  lemma TidyRotation<T>(files: map<string, T>, nm: Naming) returns (g: nat)
    requires Suited(nm) && Tidy(files, nm) && Small(files, nm)
    ensures var after := Apply(files, Restart, nm);
            && Aged(after, files, nm, g) && Tidy(after, nm) && g <= nm.Top()
            && (forall j | g < j <= nm.Top() :: nm.Slot(j) in files)
            && (g == 0 ==> nm.Current() !in files)
            && (g > 0 && nm.Slot(g) in files ==>
                  g == nm.Top() && nm.Current() in files && forall j | 1 <= j <= nm.Top() :: nm.Slot(j) in files)
  {
    var entries := ListingOf(files.Keys, nm.prefix);
    var after := Apply(files, Restart, nm);
    TidyOrderly(files, entries, nm);
    if |entries| >= nm.maximum {
      g := nm.Top();
      RotationDrops(files, entries, nm);
      FullMeansAllTaken(files, entries, nm);
      TidyAbove(files, nm);
    } else {
      g := HighestFreeSlot(files, nm, nm.Top());
      RotationAges(files, entries, nm);
      HighestFreeIsFree(files, nm, nm.Top());
      TidyAbove(files, nm);
    }
    if nm.Slot(0) in after { LogSafety.NumbersBounded(files, entries, nm, 0); }
    AgedTidy(after, files, nm, g);
  }

  lemma TidyAbove<T>(files: map<string, T>, nm: Naming)
    requires Suited(nm) && Tidy(files, nm)
    ensures forall j: nat {:trigger SlotAt(files, nm, j)} :: j == 0 || j > nm.Top() ==> SlotAt(files, nm, j) == None
  {
    forall j: nat | j == 0 || j > nm.Top() ensures SlotAt(files, nm, j) == None {
      if nm.Slot(j) in files {
        assert nm.prefix <= nm.Slot(j);
        var i :| 1 <= i <= nm.Top() && nm.Slot(j) == nm.Slot(i);
        SlotInjective(nm, j, i);
      }
    }
  }

  lemma TidySmall<T>(files: map<string, T>, nm: Naming)
    requires Suited(nm) && Tidy(files, nm) && nm.maximum <= 10
    ensures Small(files, nm)
  {
    TidyAbove(files, nm);
    forall j: nat | j >= 10 ensures nm.Slot(j) !in files { assert SlotAt(files, nm, j) == None; }
  }

  lemma AgedTidy<T>(after: map<string, T>, files: map<string, T>, nm: Naming, g: nat)
    requires Suited(nm) && Tidy(files, nm) && Aged(after, files, nm, g) && g <= nm.Top()
    requires SlotAt(after, nm, 0) == None
    ensures Tidy(after, nm)
  {
    TidyAbove(files, nm);
    forall name | name in after && nm.prefix <= name
      ensures name == nm.Current() || exists j | 1 <= j <= nm.Top() :: name == nm.Slot(j)
    {
      if IsSlot(name, nm) {
        var j: nat :| name == nm.Slot(j);
        assert SlotAt(after, nm, j) != None;
      } else {
        assert At(after, name) == At(files, name);
      }
    }
  }

  // ---------- every run keeps the newest logs ----------

  /** The directory holds the current log and, in order of age, the newest maximum - 1 old logs; files
      outside the naming schema are as they were at the start. */
  ghost predicate Keeps<T>(files: map<string, T>, start: map<string, T>, archive: Archive<T>, nm: Naming)
    requires nm.maximum >= 1
  {
    && Tidy(files, nm)
    && At(files, nm.Current()) == archive.current
    && Logs(files, nm, nm.Top()) == Newer(archive.logs, nm.Top())
    && forall name {:trigger At(files, name)} :: !IsSlot(name, nm) && name != nm.Current() ==>
         At(files, name) == At(start, name)
  }

  lemma {:induction false} LogsSame<T>(a: map<string, T>, b: map<string, T>, nm: Naming, top: nat)
    requires forall j: nat {:trigger SlotAt(a, nm, j)} :: SlotAt(a, nm, j) == SlotAt(b, nm, j)
    ensures Logs(a, nm, top) == Logs(b, nm, top)
  {
    if top > 0 {
      assert SlotAt(a, nm, top) == SlotAt(b, nm, top);
      LogsSame(a, b, nm, top - 1);
    }
  }

  lemma WriteKeeps<T>(files: map<string, T>, start: map<string, T>, archive: Archive<T>, c: T, nm: Naming)
    requires Suited(nm) && Keeps(files, start, archive, nm)
    ensures Keeps(Apply(files, Write(c), nm), start, archive.After(Write(c)), nm)
  {
    var after := files[nm.Current() := c];
    LogsSame(after, files, nm, nm.Top());
    forall name | !IsSlot(name, nm) && name != nm.Current() ensures At(after, name) == At(start, name) {
      assert At(files, name) == At(start, name);
    }
  }

  lemma RestartKeeps<T>(files: map<string, T>, start: map<string, T>, archive: Archive<T>, nm: Naming)
    requires Suited(nm) && Keeps(files, start, archive, nm) && Small(files, nm)
    ensures Keeps(Apply(files, Restart, nm), start, archive.After(Restart), nm)
  {
    var after := Apply(files, Restart, nm);
    var g := TidyRotation(files, nm);
    RestartLogs(files, after, nm, g, archive);
    forall name | !IsSlot(name, nm) && name != nm.Current() ensures At(after, name) == At(start, name) {
      assert At(files, name) == At(start, name);
    }
  }

  lemma RestartLogs<T>(files: map<string, T>, after: map<string, T>, nm: Naming, g: nat, archive: Archive<T>)
    requires nm.maximum >= 2 && g <= nm.Top() && Aged(after, files, nm, g)
    requires At(files, nm.Current()) == archive.current
    requires Logs(files, nm, nm.Top()) == Newer(archive.logs, nm.Top())
    requires g == 0 ==> nm.Current() !in files
    requires g > 0 && nm.Slot(g) in files ==>
               g == nm.Top() && nm.Current() in files && forall j | 1 <= j <= nm.Top() :: nm.Slot(j) in files
    ensures Logs(after, nm, nm.Top()) == Newer(archive.Newest() + archive.logs, nm.Top())
  {
    var top := nm.Top();
    LogsLength(files, nm, top);
    if g > 0 && nm.Slot(g) in files {
      LogsLifted(after, files, nm, top, top);
      assert Logs(files, nm, top) == Logs(files, nm, top - 1) + [files[nm.Slot(top)]];
      assert Logs(files, nm, top - 1) == Logs(files, nm, top)[..top - 1] == archive.logs[..top - 1];
    } else {
      LogsAbove(after, files, nm, g, top);
      if archive.current.Some? { assert |Logs(files, nm, top)| < top; }
    }
  }

  function Initial<T>(start: map<string, T>, nm: Naming): Archive<T>
    requires nm.maximum >= 1
  {
    Archive(Logs(start, nm, nm.Top()), At(start, nm.Current()))
  }

  /** Up to ten files, any sequence of writes and restarts, from a directory with any logs in range: nothing but
      the oldest logs beyond maximum - 1 is ever lost, and slot order is age order. */
  lemma {:induction false} RunKeepsNewest<T>(start: map<string, T>, events: seq<Event<T>>, nm: Naming)
    requires Suited(nm) && nm.maximum <= 10 && Tidy(start, nm)
    ensures Keeps(Run(start, events, nm), start, Archived(Initial(start, nm), events), nm)
  {
    if events == [] {
      LogsLength(start, nm, nm.Top());
    } else {
      var init, last := events[..|events| - 1], events[|events| - 1];
      var files, archive := Run(start, init, nm), Archived(Initial(start, nm), init);
      RunKeepsNewest(start, init, nm);
      TidySmall(files, nm);
      match last
      case Write(c) => WriteKeeps(files, start, archive, c, nm);
      case Restart => RestartKeeps(files, start, archive, nm);
    }
  }

  // ---------- which slot holds which log ----------

  /** There is a current log at every restart. */
  ghost predicate Busy<T>(start: Archive<T>, events: seq<Event<T>>) {
    events == [] ||
    (&& Busy(start, events[..|events| - 1])
     && (events[|events| - 1].Restart? ==> Archived(start, events[..|events| - 1]).current.Some?))
  }

  /** Slot j holds the j-th newest of the old logs. */
  ghost predicate InPlace<T>(files: map<string, T>, logs: seq<T>, nm: Naming)
    requires nm.maximum >= 1
  {
    forall j {:trigger SlotAt(files, nm, j)} | 1 <= j <= nm.Top() ::
      SlotAt(files, nm, j) == if j <= |logs| then Some(logs[j - 1]) else None
  }

  lemma WriteInPlace<T>(files: map<string, T>, logs: seq<T>, c: T, nm: Naming)
    requires Suited(nm) && InPlace(files, logs, nm)
    ensures InPlace(Apply(files, Write(c), nm), logs, nm)
  {
    var after := Apply(files, Write(c), nm);
    forall j | 1 <= j <= nm.Top() ensures SlotAt(after, nm, j) == if j <= |logs| then Some(logs[j - 1]) else None {
      assert SlotAt(after, nm, j) == SlotAt(files, nm, j);
    }
  }

  lemma GapIsTop<T>(files: map<string, T>, logs: seq<T>, nm: Naming, g: nat)
    requires nm.maximum >= 2 && InPlace(files, logs, nm) && 1 <= g <= nm.Top()
    requires forall j | g < j <= nm.Top() :: nm.Slot(j) in files
    requires nm.Slot(g) in files ==> g == nm.Top()
    ensures g == nm.Top()
  {
    assert SlotAt(files, nm, g) != None <==> g <= |logs|;
    assert SlotAt(files, nm, nm.Top()) != None <==> nm.Top() <= |logs|;
  }

  lemma AgedInPlace<T>(after: map<string, T>, files: map<string, T>, logs: seq<T>, nm: Naming)
    requires nm.maximum >= 1 && Aged(after, files, nm, nm.Top()) && InPlace(files, logs, nm) && nm.Current() in files
    ensures InPlace(after, [files[nm.Current()]] + logs, nm)
  {
    forall j | 1 <= j <= nm.Top()
      ensures SlotAt(after, nm, j)
           == if j <= |logs| + 1 then Some(([files[nm.Current()]] + logs)[j - 1]) else None
    {
      assert SlotAt(after, nm, j) == if j == 1 then At(files, nm.Current()) else SlotAt(files, nm, j - 1);
    }
  }

  lemma RestartInPlace<T>(files: map<string, T>, logs: seq<T>, nm: Naming)
    requires Suited(nm) && Tidy(files, nm) && Small(files, nm) && InPlace(files, logs, nm) && nm.Current() in files
    ensures InPlace(Apply(files, Restart, nm), [files[nm.Current()]] + logs, nm)
  {
    var g := TidyRotation(files, nm);
    GapIsTop(files, logs, nm, g);
    AgedInPlace(Apply(files, Restart, nm), files, logs, nm);
  }

  /** When the start has no gaps and every restart finds a current log, slot j holds the j-th newest old log for
      each j <= min (number of old logs, maximum - 1), and no other slot is in use. */
  lemma {:induction false} RunKeepsInPlace<T>(start: map<string, T>, events: seq<Event<T>>, nm: Naming)
    requires Suited(nm) && nm.maximum <= 10 && Tidy(start, nm)
    requires InPlace(start, Initial(start, nm).logs, nm) && Busy(Initial(start, nm), events)
    ensures InPlace(Run(start, events, nm), Archived(Initial(start, nm), events).logs, nm)
  {
    if events != [] {
      var init := events[..|events| - 1];
      var files, archive := Run(start, init, nm), Archived(Initial(start, nm), init);
      RunKeepsInPlace(start, init, nm);
      RunKeepsNewest(start, init, nm);
      TidySmall(files, nm);
      match events[|events| - 1]
      case Write(c) => WriteInPlace(files, archive.logs, c, nm);
      case Restart => RestartInPlace(files, archive.logs, nm);
    }
  }
}
