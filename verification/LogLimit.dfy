/** For how many files the rotation keeps its promise: up to ten, and no more. */
module LogLimit {
  import opened Options
  import Decimal
  import opened LogSlots
  import opened LogNames
  import LogDirectory
  import opened LogRotation
  import opened LogRuns

  /** No old logs. */
  ghost predicate Fresh<T>(start: map<string, T>, nm: Naming) {
    forall name | name in start && nm.prefix <= name :: name == nm.Current()
  }

  ghost predicate AllRunsKeep<T(!new)>(nm: Naming)
    requires nm.maximum >= 1
  {
    forall start: map<string, T>, events: seq<Event<T>> {:trigger Run(start, events, nm)} ::
      Fresh(start, nm) ==> Keeps(Run(start, events, nm), start, Archived(Initial(start, nm), events), nm)
  }

  ghost predicate AllRunsInPlace<T(!new)>(nm: Naming)
    requires nm.maximum >= 1
  {
    forall start: map<string, T>, events: seq<Event<T>> {:trigger Run(start, events, nm)} ::
      Fresh(start, nm) && Busy(Initial(start, nm), events) ==>
        InPlace(Run(start, events, nm), Archived(Initial(start, nm), events).logs, nm)
  }

  lemma NoSlot<T>(files: map<string, T>, nm: Naming, j: nat)
    requires nm.Regular() && Fresh(files, nm)
    ensures nm.Slot(j) !in files
  {
    assert nm.prefix <= nm.Slot(j);
  }

  lemma {:induction false} NoLogs<T>(files: map<string, T>, nm: Naming, top: nat)
    requires nm.Regular() && Fresh(files, nm)
    ensures Logs(files, nm, top) == [] && forall j | 1 <= j <= top :: nm.Slot(j) !in files
  {
    if top > 0 {
      NoSlot(files, nm, top);
      NoLogs(files, nm, top - 1);
    }
  }

  // ---------- ten logs and a current one ----------

  /** The order in which the loop meets the numbers 1 to k and 10: "_10" comes right after "_1". */
  function Down(k: nat): seq<nat> {
    if k <= 1 then [10, 1] else [k] + Down(k - 1)
  }

  lemma {:induction false} DownAre(k: nat)
    requires 1 <= k <= 9
    ensures forall n :: n in Down(k) <==> 1 <= n <= k || n == 10
    ensures Different(Down(k))
  {
    if k == 1 {
      assert Down(1)[1..] == [1];
    } else {
      DownAre(k - 1);
      assert Down(k)[1..] == Down(k - 1);
    }
  }

  lemma DigitOrder(nm: Naming, a: nat, b: nat)
    requires 1 <= a < b <= 9
    ensures StrLess(nm.Slot(a), nm.Slot(b))
  {
    OneDigit(a, b);
    PairOrder(nm, a, b);
  }

  lemma TenAfterOne(nm: Naming)
    ensures StrLess(nm.Slot(1), nm.Slot(10))
  {
    assert Decimal.Print(10) == Decimal.Print(1) + [Decimal.DigitChar(0)];
    PairOrder(nm, 1, 10);
  }

  lemma TenBeforeDigit(nm: Naming, b: nat)
    requires 2 <= b <= 9
    ensures StrLess(nm.Slot(10), nm.Slot(b))
  {
    assert Decimal.Print(10) == Decimal.Print(1) + [Decimal.DigitChar(0)];
    PairOrder(nm, b, 10);
    StrLessTotal(nm.Slot(b), nm.Slot(10));
    if nm.Slot(b) == nm.Slot(10) { SlotInjective(nm, b, 10); }
  }

  lemma OnesListed(nm: Naming)
    ensures ListedDown([10, 1], nm)
  {
    TenAfterOne(nm);
    var ns: seq<nat> := [10, 1];
    assert ns[1..] == [1] && ns[1..][1..] == [];
  }

  lemma {:induction false} DownListed(k: nat, nm: Naming)
    requires 1 <= k <= 9
    ensures ListedDown(Down(k), nm)
  {
    if k == 1 {
      OnesListed(nm);
    } else {
      var rest := Down(k - 1);
      DownListed(k - 1, nm);
      DownAre(k - 1);
      assert Down(k)[0] == k && Down(k)[1..] == rest;
      forall m | m in rest ensures StrLess(nm.Slot(m), nm.Slot(k)) {
        if m == 10 { TenBeforeDigit(nm, k); } else { DigitOrder(nm, m, k); }
      }
    }
  }

  lemma {:induction false} ListedDownUnique(ns: seq<nat>, ms: seq<nat>, nm: Naming)
    requires ListedDown(ns, nm) && ListedDown(ms, nm) && forall n :: n in ns <==> n in ms
    ensures ns == ms
  {
    if ns == [] {
      if ms != [] { HeadIn(ms); }
    } else {
      HeadIn(ns);
      SameHead(ns, ms, nm);
      ListedDownUnique(ns[1..], ms[1..], nm);
      assert ns == [ns[0]] + ns[1..] && ms == [ms[0]] + ms[1..];
    }
  }

  lemma HeadIn(ns: seq<nat>)
    requires ns != []
    ensures exists n :: n in ns
  {
    assert ns[0] in ns;
  }

  lemma SameHead(ns: seq<nat>, ms: seq<nat>, nm: Naming)
    requires ns != [] && ms != [] && ListedDown(ns, nm) && ListedDown(ms, nm) && forall n :: n in ns <==> n in ms
    ensures ns[0] == ms[0] && forall n :: n in ns[1..] <==> n in ms[1..]
  {
    InTail(ns);
    InTail(ms);
    ListedDownDifferent(ns, nm);
    ListedDownDifferent(ms, nm);
    if ns[0] != ms[0] { StrLessAsymmetric(nm.Slot(ns[0]), nm.Slot(ms[0])); }
  }

  /** Number 9 is moved to 10, on top of number 10, which is then met and moved down or deleted. */
  lemma {:induction false} DownRotates<T>(slots: map<nat, T>, index: nat, k: nat, top: nat, full: bool)
    requires 1 <= k <= 9 && top >= 10 && (if k == 9 then index >= 10 else index == k + 1)
    requires Listed(slots, Down(k)) && forall n | n in slots :: n <= 10
    ensures Different(Down(k)) && forall j | j in Rotate(slots, index, Down(k), top, full).0 :: j <= 9
    decreases k
  {
    DownAre(k);
    if k == 1 {
      LastTwoRotate(slots, top, full);
    } else {
      DownAre(k - 1);
      assert Down(k)[1..] == Down(k - 1) && k in Down(k);
      DownRotates(Move(slots, k, k + 1), k, k - 1, top, full);
    }
  }

  lemma LastTwoRotate<T>(slots: map<nat, T>, top: nat, full: bool)
    requires top >= 10 && Listed(slots, [10, 1]) && forall n | n in slots :: n <= 10
    ensures Different([10, 1]) && forall j | j in Rotate(slots, 2, [10, 1], top, full).0 :: j <= 9
  {
    var ns: seq<nat> := [10, 1];
    assert ns[1..] == [1] && ns[1..][1..] == [] && 10 in ns && 1 in ns;
  }

  /** The numbers 1 to 10 are in use, and there is a current log. */
  ghost predicate TenLogs<T>(files: map<string, T>, nm: Naming)
    requires nm.maximum >= 1
  {
    && Tidy(files, nm) && nm.Current() in files
    && forall j: nat {:trigger nm.Slot(j)} :: nm.Slot(j) in files <==> 1 <= j <= 10
  }

  lemma TenLogsRecognised<T>(files: map<string, T>, entries: seq<string>, nm: Naming)
    requires Suited(nm) && TenLogs(files, nm) && Listing(entries, files.Keys, nm.prefix)
    ensures Recognised(files, entries, nm)
  {
    forall e | e in entries ensures Unnumbered(e, nm) || exists n | 1 <= n < UINT_RANGE :: e == nm.Slot(n) {
      if e != nm.Current() {
        var j: nat :| 1 <= j <= nm.Top() && e == nm.Slot(j);
        assert j <= 10;
      }
    }
  }

  lemma TenLogsNumber<T>(files: map<string, T>, entries: seq<string>, nm: Naming, n: nat)
    requires Recognised(files, entries, nm) && (nm.Slot(n) in files <==> 1 <= n <= 10)
    ensures n in Numbers(entries, nm) <==> 1 <= n <= 10
  {
    NumbersAre(entries, nm);
    assert nm.prefix <= nm.Slot(n);
  }

  lemma TenLogsNumbers<T>(files: map<string, T>, entries: seq<string>, nm: Naming)
    requires Suited(nm) && TenLogs(files, nm) && Recognised(files, entries, nm)
    ensures Numbers(entries, nm) == Down(9)
  {
    DownAre(9);
    DownListed(9, nm);
    NumbersListedDown(entries, nm);
    forall n: nat ensures n in Numbers(entries, nm) <==> n in Down(9) {
      TenLogsNumber(files, entries, nm, n);
    }
    ListedDownUnique(Numbers(entries, nm), Down(9), nm);
  }

  lemma TenLogsLoop<T>(files: map<string, T>, entries: seq<string>, nm: Naming)
    requires Suited(nm) && nm.maximum >= 11 && TenLogs(files, nm) && Recognised(files, entries, nm)
    ensures forall j | j in SlotLoop(files, entries, nm).0 :: j <= 9
  {
    var slots := SlotsOf(files, entries, nm);
    TenLogsNumbers(files, entries, nm);
    SlotsMirror(files, entries, nm);
    DownAre(9);
    DownRotates(slots, nm.Top(), 9, nm.Top(), |entries| >= nm.maximum);
  }

  /** Wherever exactly the slots 1 to 10 are in use and more than ten files are allowed, slot 10 is empty after
      the rotation. */
  lemma TenthLost<T>(files: map<string, T>, nm: Naming)
    requires Suited(nm) && nm.maximum >= 11 && TenLogs(files, nm)
    ensures Small(Apply(files, Restart, nm), nm)
  {
    var entries := ListingOf(files.Keys, nm.prefix);
    TenLogsRecognised(files, entries, nm);
    TenLogsLoop(files, entries, nm);
    SmallAfter(files, entries, nm);
  }

  lemma SmallAfter<T>(files: map<string, T>, entries: seq<string>, nm: Naming)
    requires Recognised(files, entries, nm) && forall j | j in SlotLoop(files, entries, nm).0 :: j <= 9
    ensures Small(LogDirectory.Rotated(files, entries, nm), nm)
  {
    var loop, slots := LoopOnSlots(files, entries, nm);
    FinalMove(files, entries, nm, loop);
    var after := LogDirectory.Rotated(files, entries, nm);
    forall j: nat | j >= 10 ensures nm.Slot(j) !in after {
      assert At(slots, j) == At(loop, nm.Slot(j));
      assert SlotAt(after, nm, j) == None;
    }
  }

  // ---------- a run that comes to ten logs ----------

  function Cycles<T>(c: T, k: nat): (events: seq<Event<T>>)
    ensures |events| == 2 * k
  {
    if k == 0 then [] else Cycles(c, k - 1) + [Write(c)] + [Restart]
  }

  lemma CycleParts<T>(c: T, k: nat)
    requires k >= 1
    ensures var all, half := Cycles(c, k), Cycles(c, k - 1) + [Write(c)];
            && all[..|all| - 1] == half && all[|all| - 1] == Restart
            && half[..|half| - 1] == Cycles(c, k - 1) && half[|half| - 1] == Write(c)
  {
  }

  lemma CycleRuns<T>(start: map<string, T>, c: T, k: nat, nm: Naming)
    requires k >= 1 && nm.maximum >= 1
    ensures Run(start, Cycles(c, k), nm) == Apply(Apply(Run(start, Cycles(c, k - 1), nm), Write(c), nm), Restart, nm)
  {
    CycleParts(c, k);
  }

  lemma CycleArchived<T>(archive: Archive<T>, c: T, k: nat)
    requires k >= 1
    ensures Archived(archive, Cycles(c, k)) == Archived(archive, Cycles(c, k - 1)).After(Write(c)).After(Restart)
    ensures Busy(archive, Cycles(c, k)) <==> Busy(archive, Cycles(c, k - 1))
  {
    CycleParts(c, k);
  }

  /** Exactly the slots 1 to k are in use, and there is no current log. */
  ghost predicate Filled<T>(files: map<string, T>, nm: Naming, k: nat)
    requires nm.maximum >= 1
  {
    && Tidy(files, nm) && nm.Current() !in files
    && forall j: nat {:trigger nm.Slot(j)} :: nm.Slot(j) in files <==> 1 <= j <= k
  }

  lemma CycleFills<T>(files: map<string, T>, c: T, nm: Naming, k: nat)
    requires Suited(nm) && nm.maximum >= 11 && k <= 9 && Filled(files, nm, k)
    ensures Filled(Apply(Apply(files, Write(c), nm), Restart, nm), nm, k + 1)
  {
    var full := Apply(files, Write(c), nm);
    assert forall j: nat {:trigger nm.Slot(j)} :: nm.Slot(j) in full <==> 1 <= j <= k;
    var g := TidyRotation(full, nm);
    assert nm.Slot(nm.Top()) !in full;
    var after := Apply(full, Restart, nm);
    TidyAbove(after, nm);
    forall j: nat ensures nm.Slot(j) in after <==> 1 <= j <= k + 1 {
      assert SlotAt(after, nm, j) != None <==> nm.Slot(j) in after;
      assert j >= 1 ==> (SlotAt(full, nm, j - 1) != None <==> 1 <= j - 1 <= k);
    }
  }

  lemma {:induction false} CyclesFill<T>(c: T, nm: Naming, k: nat)
    requires Suited(nm) && nm.maximum >= 11 && k <= 10
    ensures Filled(Run(map[], Cycles(c, k), nm), nm, k)
  {
    if k > 0 {
      CyclesFill(c, nm, k - 1);
      CycleRuns(map[], c, k, nm);
      CycleFills(Run(map[], Cycles(c, k - 1), nm), c, nm, k - 1);
    }
  }

  lemma {:induction false} CyclesArchive<T>(c: T, k: nat)
    ensures Busy(Archive([], None), Cycles(c, k))
    ensures var archive := Archived(Archive([], None), Cycles(c, k)); |archive.logs| == k && archive.current == None
  {
    var start: Archive<T> := Archive([], None);
    if k == 0 {
      assert Cycles(c, 0) == [];
    } else {
      CyclesArchive(c, k - 1);
      CycleArchived(start, c, k);
      var before := Archived(start, Cycles(c, k - 1));
      assert before.After(Write(c)).After(Restart) == Archive([c] + before.logs, None);
    }
  }

  lemma {:induction false} SmallLogs<T>(files: map<string, T>, nm: Naming, top: nat)
    requires Small(files, nm)
    ensures |Logs(files, nm, top)| <= 9
  {
    if top <= 9 {
      LogsLength(files, nm, top);
    } else {
      SmallLogs(files, nm, top - 1);
    }
  }

  lemma ElevenCyclesSmall<T>(c: T, nm: Naming)
    requires Suited(nm) && nm.maximum >= 11
    ensures Small(Run(map[], Cycles(c, 11), nm), nm)
  {
    var files := Run(map[], Cycles(c, 10), nm);
    CyclesFill(c, nm, 10);
    CycleRuns(map[], c, 11, nm);
    var full := Apply(files, Write(c), nm);
    assert forall j: nat {:trigger nm.Slot(j)} :: nm.Slot(j) in full <==> 1 <= j <= 10;
    TenthLost(full, nm);
  }

  lemma SmallIsTooFew<T>(files: map<string, T>, start: map<string, T>, archive: Archive<T>, nm: Naming)
    requires Suited(nm) && nm.maximum >= 11 && Small(files, nm) && |archive.logs| == 11
    ensures !Keeps(files, start, archive, nm) && !InPlace(files, archive.logs, nm)
  {
    assert SlotAt(files, nm, 10) == None;
    SmallLogs(files, nm, nm.Top());
  }

  lemma EmptyStart<T>(nm: Naming)
    requires Suited(nm)
    ensures var start: map<string, T> := map[]; Fresh(start, nm) && Initial(start, nm) == Archive([], None)
  {
    var start: map<string, T> := map[];
    NoLogs(start, nm, nm.Top());
  }

  /** With more than ten files allowed, eleven times writing a log and restarting lose a log that should be kept. */
  lemma EleventhRestartLoses<T>(c: T, nm: Naming)
    requires Suited(nm) && nm.maximum >= 11
    ensures var start: map<string, T> := map[];
            var files, archive := Run(start, Cycles(c, 11), nm), Archived(Initial(start, nm), Cycles(c, 11));
            && Fresh(start, nm) && Busy(Initial(start, nm), Cycles(c, 11))
            && !Keeps(files, start, archive, nm) && !InPlace(files, archive.logs, nm)
  {
    EmptyStart<T>(nm);
    CyclesArchive(c, 11);
    ElevenCyclesSmall(c, nm);
    SmallIsTooFew(Run(map[], Cycles(c, 11), nm), map[], Archived(Archive([], None), Cycles(c, 11)), nm);
  }

  lemma FreshIsTidy<T>(start: map<string, T>, nm: Naming)
    requires Suited(nm) && Fresh(start, nm)
    ensures Tidy(start, nm) && InPlace(start, Initial(start, nm).logs, nm)
  {
    NoLogs(start, nm, nm.Top());
  }

  /** Every run from a directory without old logs keeps the newest logs, and every run that finds a current log
      at each restart keeps them in place, if and only if at most ten files are allowed. */
  lemma RetentionIff<T(!new)>(nm: Naming, c: T)
    requires nm.Regular() && nm.maximum >= 2
    ensures AllRunsKeep<T>(nm) <==> nm.maximum <= 10
    ensures AllRunsInPlace<T>(nm) <==> nm.maximum <= 10
  {
    if nm.maximum <= 10 {
      forall start: map<string, T>, events: seq<Event<T>> | Fresh(start, nm)
        ensures Keeps(Run(start, events, nm), start, Archived(Initial(start, nm), events), nm)
        ensures Busy(Initial(start, nm), events) ==>
                  InPlace(Run(start, events, nm), Archived(Initial(start, nm), events).logs, nm)
      {
        FreshIsTidy(start, nm);
        RunKeepsNewest(start, events, nm);
        if Busy(Initial(start, nm), events) { RunKeepsInPlace(start, events, nm); }
      }
    } else {
      EleventhRestartLoses(c, nm);
    }
  }
}
