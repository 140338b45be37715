/** What a rotation does to the numbered logs. */
module LogRotation {
  import opened Options
  import Decimal
  import opened LogSlots
  import opened LogNames
  import opened LogDirectory

  function SlotAt<T>(files: map<string, T>, nm: Naming, j: nat): Option<T> {
    At(files, nm.Slot(j))
  }

  predicate Unnumbered(entry: string, nm: Naming) {
    entry == nm.Current() || ReadNumber(entry, nm.numberAt) == None
  }

  /** Every listed name that carries a number is a numbered log of the schema. */
  ghost predicate Conforming(entries: seq<string>, nm: Naming) {
    forall e | e in entries :: Unnumbered(e, nm) || exists n | 1 <= n < UINT_RANGE :: e == nm.Slot(n)
  }

  /** The numbers in the order in which the loop meets them. */
  function Numbers(entries: seq<string>, nm: Naming): seq<nat> {
    if entries == [] then []
    else
      var e := entries[|entries| - 1];
      (if Unnumbered(e, nm) then [] else [ReadNumber(e, nm.numberAt).value])
      + Numbers(entries[..|entries| - 1], nm)
  }

  /** `slots` holds exactly what the numbered names of `files` hold. */
  ghost predicate Mirrors<T>(slots: map<nat, T>, files: map<string, T>, nm: Naming) {
    forall j: nat {:trigger At(slots, j)} {:trigger nm.Slot(j)} :: At(slots, j) == At(files, nm.Slot(j))
  }

  ghost predicate IsSlot(name: string, nm: Naming) {
    exists j: nat :: name == nm.Slot(j)
  }

  ghost predicate SameElsewhere<T>(after: map<string, T>, before: map<string, T>, nm: Naming) {
    forall name {:trigger At(after, name)} :: !IsSlot(name, nm) ==> At(after, name) == At(before, name)
  }

  // ---------- the numbers found in a listing ----------

  lemma ConformingNumber(e: string, nm: Naming) returns (n: nat)
    requires nm.Regular() && !Unnumbered(e, nm)
    requires exists n | 1 <= n < UINT_RANGE :: e == nm.Slot(n)
    ensures 1 <= n < UINT_RANGE && e == nm.Slot(n) && ReadNumber(e, nm.numberAt) == Some(n)
  {
    n :| 1 <= n < UINT_RANGE && e == nm.Slot(n);
    SchemaReadsBack(nm, n);
  }

  lemma {:induction false} NumbersAre(entries: seq<string>, nm: Naming)
    requires nm.Regular() && Conforming(entries, nm)
    ensures forall n | n in Numbers(entries, nm) :: 1 <= n < UINT_RANGE && nm.Slot(n) in entries
    ensures forall n: nat | 1 <= n < UINT_RANGE && nm.Slot(n) in entries :: n in Numbers(entries, nm)
    ensures |Numbers(entries, nm)| + (if nm.Current() in entries then 1 else 0) <= |entries|
  {
    if entries == [] {
    } else {
      var e, init := entries[|entries| - 1], entries[..|entries| - 1];
      assert entries == init + [e];
      NumbersAre(init, nm);
      if !Unnumbered(e, nm) {
        var n := ConformingNumber(e, nm);
      }
      forall n: nat | 1 <= n < UINT_RANGE && nm.Slot(n) in entries ensures n in Numbers(entries, nm) {
        SchemaReadsBack(nm, n);
      }
    }
  }

  // ---------- the loop on names does what the loop on numbers does ----------

  lemma MoveMirrors<T>(slots: map<nat, T>, files: map<string, T>, nm: Naming, n: nat, target: nat)
    requires Mirrors(slots, files, nm) && n in slots && nm.Slot(n) in files
    ensures Mirrors(Move(slots, n, target), Move(files, nm.Slot(n), nm.Slot(target)), nm)
    ensures SameElsewhere(Move(files, nm.Slot(n), nm.Slot(target)), files, nm)
  {
    forall j: nat
      ensures At(Move(slots, n, target), j) == At(Move(files, nm.Slot(n), nm.Slot(target)), nm.Slot(j))
    {
      assert At(slots, j) == At(files, nm.Slot(j)) && At(slots, n) == At(files, nm.Slot(n));
      if nm.Slot(j) == nm.Slot(n) { SlotInjective(nm, j, n); }
      if nm.Slot(j) == nm.Slot(target) { SlotInjective(nm, j, target); }
    }
  }

  lemma RemoveMirrors<T>(slots: map<nat, T>, files: map<string, T>, nm: Naming, n: nat)
    requires Mirrors(slots, files, nm)
    ensures Mirrors(slots - {n}, files - {nm.Slot(n)}, nm)
    ensures SameElsewhere(files - {nm.Slot(n)}, files, nm)
  {
    forall j: nat ensures At(slots - {n}, j) == At(files - {nm.Slot(n)}, nm.Slot(j)) {
      assert At(slots, j) == At(files, nm.Slot(j));
      if nm.Slot(j) == nm.Slot(n) { SlotInjective(nm, j, n); }
    }
  }

  /** One iteration on a numbered log. */
  lemma VisitSimulates<T>(scan: Scan<T>, slots: map<nat, T>, ns: seq<nat>, total: nat, nm: Naming)
    returns (next: map<nat, T>)
    requires nm.Regular() && Mirrors(slots, scan.files, nm)
    requires ns != [] && Listed(slots, ns) && Different(ns) && 1 <= ns[0] < UINT_RANGE
    requires nm.Slot(ns[0]) in scan.files
    ensures var after := Visit(scan, nm.Slot(ns[0]), total, nm);
            && Mirrors(next, after.files, nm) && SameElsewhere(after.files, scan.files, nm)
            && Listed(next, ns[1..])
            && Rotate(slots, scan.index, ns, nm.Top(), total >= nm.maximum)
            == Rotate(next, after.index, ns[1..], nm.Top(), total >= nm.maximum)
  {
    var n := ns[0];
    SchemaReadsBack(nm, n);
    InTail(ns);
    if n >= nm.Top() && total >= nm.maximum {
      RemoveMirrors(slots, scan.files, nm, n);
      next := slots - {n};
    } else {
      MoveMirrors(slots, scan.files, nm, n, Target(n, scan.index));
      next := Move(slots, n, Target(n, scan.index));
    }
  }

  lemma NumbersStep(todo: seq<string>, nm: Naming)
    requires nm.Regular() && todo != [] && Conforming(todo, nm)
    ensures Conforming(todo[..|todo| - 1], nm)
    ensures var e, rest := todo[|todo| - 1], Numbers(todo[..|todo| - 1], nm);
            if Unnumbered(e, nm) then Numbers(todo, nm) == rest
            else
              var ns := Numbers(todo, nm);
              ns != [] && ns[1..] == rest && 1 <= ns[0] < UINT_RANGE && e == nm.Slot(ns[0])
  {
    InInit(todo);
    if !Unnumbered(todo[|todo| - 1], nm) {
      var n := ConformingNumber(todo[|todo| - 1], nm);
    }
  }

  /** The state of the loop on names is that of the loop on slots, and all other files are as before. */
  ghost predicate Agrees<T>(scan: Scan<T>, state: (map<nat, T>, nat), before: map<string, T>, nm: Naming) {
    Mirrors(state.0, scan.files, nm) && scan.index == state.1 && SameElsewhere(scan.files, before, nm)
  }

  lemma {:induction false} VisitDownSimulates<T>(
    scan: Scan<T>, slots: map<nat, T>, todo: seq<string>, total: nat, nm: Naming)
    requires nm.Regular() && Visitable(scan.files, todo) && Conforming(todo, nm)
    requires Mirrors(slots, scan.files, nm)
    requires Listed(slots, Numbers(todo, nm)) && Different(Numbers(todo, nm))
    ensures Agrees(VisitDown(scan, todo, total, nm),
                   Rotate(slots, scan.index, Numbers(todo, nm), nm.Top(), total >= nm.maximum),
                   scan.files, nm)
    decreases |todo|
  {
    if todo != [] {
      var e, rest := todo[|todo| - 1], todo[..|todo| - 1];
      var next := Visit(scan, e, total, nm);
      VisitUnfolds(scan, todo, total, nm);
      NumbersStep(todo, nm);
      if Unnumbered(e, nm) {
        VisitDownSimulates(next, slots, rest, total, nm);
      } else {
        var nextSlots := VisitSimulates(scan, slots, Numbers(todo, nm), total, nm);
        VisitDownSimulates(next, nextSlots, rest, total, nm);
      }
    }
  }

  // ---------- the order in which the numbers are met ----------

  lemma StrLessAsymmetric(a: string, b: string)
    requires StrLess(a, b)
    ensures !StrLess(b, a)
  {
    if StrLess(b, a) {
      StrLessTransitive(a, b, a);
      StrLessIrreflexive(a);
    }
  }

  /** Each number's name comes after the names of all numbers met later. */
  ghost predicate ListedDown(ns: seq<nat>, nm: Naming) {
    ns == [] || ((forall m | m in ns[1..] :: StrLess(nm.Slot(m), nm.Slot(ns[0]))) && ListedDown(ns[1..], nm))
  }

  lemma {:induction false} NumbersListedDown(entries: seq<string>, nm: Naming)
    requires nm.Regular() && Conforming(entries, nm) && Ascending(entries)
    ensures ListedDown(Numbers(entries, nm), nm)
  {
    if entries != [] {
      NumbersStep(entries, nm);
      NumbersListedDown(entries[..|entries| - 1], nm);
      NumbersAre(entries[..|entries| - 1], nm);
    }
  }

  lemma {:induction false} ListedDownDifferent(ns: seq<nat>, nm: Naming)
    requires ListedDown(ns, nm)
    ensures Different(ns)
  {
    if ns != [] {
      StrLessIrreflexive(nm.Slot(ns[0]));
      ListedDownDifferent(ns[1..], nm);
    }
  }

  lemma {:induction false} SurvivingListedDown(ns: seq<nat>, top: nat, full: bool, nm: Naming)
    requires ListedDown(ns, nm)
    ensures ListedDown(Surviving(ns, top, full), nm)
  {
    if ns != [] {
      SurvivingListedDown(ns[1..], top, full, nm);
      SurvivingAre(ns[1..], top, full);
    }
  }

  ghost predicate ListedInOrder(ns: seq<nat>, nm: Naming) {
    forall a, b | a in ns && b in ns && a < b :: StrLess(nm.Slot(a), nm.Slot(b))
  }

  lemma {:induction false} DescendingIff(ns: seq<nat>, nm: Naming)
    requires ListedDown(ns, nm)
    ensures Descending(ns) <==> ListedInOrder(ns, nm)
  {
    if ns != [] {
      DescendingIff(ns[1..], nm);
      HeadInOrder(ns, nm);
    }
  }

  lemma HeadInOrder(ns: seq<nat>, nm: Naming)
    requires ns != [] && forall m | m in ns[1..] :: StrLess(nm.Slot(m), nm.Slot(ns[0]))
    ensures ListedInOrder(ns, nm) <==> (forall m | m in ns[1..] :: m < ns[0]) && ListedInOrder(ns[1..], nm)
  {
    InTail(ns);
    forall m | m in ns[1..] ensures !StrLess(nm.Slot(ns[0]), nm.Slot(m)) && m != ns[0] {
      StrLessAsymmetric(nm.Slot(m), nm.Slot(ns[0]));
      StrLessIrreflexive(nm.Slot(m));
    }
  }

  /** No number exceeds the leading digits of a larger one. */
  ghost predicate LeadsAgree(ns: seq<nat>) {
    forall a, b | a in ns && b in ns && a < b :: WithinLead(a, b)
  }

  lemma InOrderIff(ns: seq<nat>, nm: Naming)
    ensures ListedInOrder(ns, nm) <==> LeadsAgree(ns)
  {
    forall a: nat, b: nat | a < b ensures StrLess(nm.Slot(a), nm.Slot(b)) <==> WithinLead(a, b) {
      PairOrder(nm, a, b);
    }
  }

  /** The loop meets the numbers in descending order if and only if no number exceeds the leading digits of
      a larger one. All single-digit numbers qualify, as do numbers of equally many digits. */
  lemma NumericOrderIff(entries: seq<string>, nm: Naming)
    requires nm.Regular() && Conforming(entries, nm) && Ascending(entries)
    ensures Descending(Numbers(entries, nm)) <==> LeadsAgree(Numbers(entries, nm))
  {
    NumbersListedDown(entries, nm);
    DescendingIff(Numbers(entries, nm), nm);
    InOrderIff(Numbers(entries, nm), nm);
  }

  /** One number is met before another exactly when its name is listed after the other's. */
  lemma {:induction false} PrecedesIff(ns: seq<nat>, a: nat, b: nat, nm: Naming)
    requires ListedDown(ns, nm) && a in ns && b in ns && a != b
    ensures Precedes(ns, a, b) <==> StrLess(nm.Slot(b), nm.Slot(a))
  {
    InTail(ns);
    PrecedesIn(ns[1..], a, b);
    if ns[0] == b {
      StrLessAsymmetric(nm.Slot(a), nm.Slot(b));
      ListedDownDifferent(ns, nm);
    } else if ns[0] != a {
      PrecedesIff(ns[1..], a, b, nm);
    }
  }

  // ---------- the directory as a whole ----------

  /** A directory that is properly listed and has no names that only look like numbered logs. */
  ghost predicate Recognised<T>(files: map<string, T>, entries: seq<string>, nm: Naming) {
    && nm.Regular()
    && Listing(entries, files.Keys, nm.prefix)
    && Conforming(entries, nm)
  }

  /** A recognised directory in which the numbers are met in descending order (see `NumericOrderIff`). */
  ghost predicate Orderly<T>(files: map<string, T>, entries: seq<string>, nm: Naming) {
    Recognised(files, entries, nm) && Descending(Numbers(entries, nm))
  }

  function SlotsOf<T>(files: map<string, T>, entries: seq<string>, nm: Naming): map<nat, T> {
    map n: nat | n in Numbers(entries, nm) && nm.Slot(n) in files :: files[nm.Slot(n)]
  }

  lemma SlotScans(nm: Naming, n: nat)
    ensures ReadNumber(nm.Slot(n), |nm.prefix| + 1).Some?
  {
    var t := nm.Slot(n)[|nm.prefix| + 1..];
    assert t[0] == Decimal.Print(n)[0] && Decimal.IsDigit(t[0]);
  }

  lemma SlotsMirror<T>(files: map<string, T>, entries: seq<string>, nm: Naming)
    requires Recognised(files, entries, nm)
    ensures Different(Numbers(entries, nm))
    ensures Mirrors(SlotsOf(files, entries, nm), files, nm)
    ensures Listed(SlotsOf(files, entries, nm), Numbers(entries, nm))
    ensures forall n :: n in SlotsOf(files, entries, nm) <==> n in Numbers(entries, nm)
    ensures forall n | n in Numbers(entries, nm) :: n >= 1
  {
    NumbersAre(entries, nm);
    NumbersListedDown(entries, nm);
    ListedDownDifferent(Numbers(entries, nm), nm);
    forall j: nat ensures At(SlotsOf(files, entries, nm), j) == At(files, nm.Slot(j)) {
      if nm.Slot(j) in files {
        assert nm.prefix <= nm.Slot(j);
        assert nm.Slot(j) in entries;
        SlotScans(nm, j);
        var n := ConformingNumber(nm.Slot(j), nm);
        SlotInjective(nm, j, n);
      }
    }
  }

  /** The highest free slot among 1..top, or 0. */
  function HighestFreeSlot<T>(files: map<string, T>, nm: Naming, top: nat): nat {
    if top == 0 || nm.Slot(top) !in files then top else HighestFreeSlot(files, nm, top - 1)
  }

  lemma {:induction false} SameHighestFree<T>(slots: map<nat, T>, files: map<string, T>, nm: Naming, top: nat)
    requires Mirrors(slots, files, nm)
    ensures HighestFreeSlot(files, nm, top) == HighestFree(slots, top)
  {
    assert At(slots, top) == At(files, nm.Slot(top));
    if top > 0 { SameHighestFree(slots, files, nm, top - 1); }
  }

  /** The loop on slots, for the whole directory. */
  ghost function SlotLoop<T>(files: map<string, T>, entries: seq<string>, nm: Naming): (map<nat, T>, nat)
    requires Recognised(files, entries, nm)
  {
    SlotsMirror(files, entries, nm);
    Rotate(SlotsOf(files, entries, nm), nm.Top(), Numbers(entries, nm), nm.Top(), |entries| >= nm.maximum)
  }

  /** The loop, seen through the slots. */
  lemma LoopOnSlots<T>(files: map<string, T>, entries: seq<string>, nm: Naming)
    returns (loop: map<string, T>, slots: map<nat, T>)
    requires Recognised(files, entries, nm)
    ensures Visitable(files, entries)
    ensures var scan := VisitDown(Scan(files, nm.Top(), false), entries, |entries|, nm);
            loop == scan.files && scan.index == SlotLoop(files, entries, nm).1
    ensures slots == SlotLoop(files, entries, nm).0
    ensures Mirrors(slots, loop, nm) && SameElsewhere(loop, files, nm)
    ensures Rotated(files, entries, nm)
         == (if nm.Current() in files then Move(loop, nm.Current(), nm.Slot(1)) else loop) - {nm.Current()}
  {
    ListingVisitable(files, entries, nm.prefix);
    SlotsMirror(files, entries, nm);
    VisitDownSimulates(Scan(files, nm.Top(), false), SlotsOf(files, entries, nm), entries, |entries|, nm);
    loop := VisitDown(Scan(files, nm.Top(), false), entries, |entries|, nm).files;
    slots := SlotLoop(files, entries, nm).0;
    assert nm.prefix <= nm.Current();
    assert nm.Current() in files <==> nm.Current() in entries;
  }

  /** What the final move of the current log does to slots and to everything else. */
  lemma FinalMove<T>(files: map<string, T>, entries: seq<string>, nm: Naming, loop: map<string, T>)
    requires nm.Regular() && SameElsewhere(loop, files, nm)
    requires nm.Current() in files ==> nm.Current() in loop
    ensures var renamed := if nm.Current() in files then Move(loop, nm.Current(), nm.Slot(1)) else loop;
            var after := renamed - {nm.Current()};
            && nm.Current() !in after
            && (forall j: nat {:trigger SlotAt(after, nm, j)} ::
                  SlotAt(after, nm, j) == if j == 1 && nm.Current() in files then At(files, nm.Current())
                                          else SlotAt(loop, nm, j))
            && (forall name {:trigger At(after, name)} :: !IsSlot(name, nm) && name != nm.Current() ==>
                  At(after, name) == At(files, name))
  {
    var after := (if nm.Current() in files then Move(loop, nm.Current(), nm.Slot(1)) else loop) - {nm.Current()};
    assert At(loop, nm.Current()) == At(files, nm.Current()) && IsSlot(nm.Slot(1), nm);
    forall j: nat
      ensures SlotAt(after, nm, j) == if j == 1 && nm.Current() in files then At(files, nm.Current())
                                      else SlotAt(loop, nm, j)
    {
      if nm.Slot(j) == nm.Slot(1) { SlotInjective(nm, j, 1); }
    }
    forall name | !IsSlot(name, nm) && name != nm.Current() ensures At(after, name) == At(files, name) {
      assert name != nm.Slot(1) && At(loop, name) == At(files, name);
    }
  }

  /** The logs up to slot `g` have moved up by one, the current log into slot 1; the rest stayed. */
  ghost predicate Aged<T>(after: map<string, T>, before: map<string, T>, nm: Naming, g: nat) {
    && nm.Current() !in after
    && (forall j: nat {:trigger SlotAt(after, nm, j)} :: j >= 1 ==>
          SlotAt(after, nm, j) == if j > g then SlotAt(before, nm, j)
                                  else if j == 1 then At(before, nm.Current())
                                  else SlotAt(before, nm, j - 1))
    && (forall name {:trigger At(after, name)} :: !IsSlot(name, nm) && name != nm.Current() ==>
          At(after, name) == At(before, name))
  }

  /** Fewer than `maximum` files listed, numbers within 1..maximum - 1: every log is kept, the highest free
      slot is filled from below, and there is such a slot whenever there is a current log to be moved. */
  lemma RotationAges<T>(files: map<string, T>, entries: seq<string>, nm: Naming)
    requires Orderly(files, entries, nm) && |entries| < nm.maximum
    requires forall n | n in Numbers(entries, nm) :: n <= nm.Top()
    ensures Aged(Rotated(files, entries, nm), files, nm, HighestFreeSlot(files, nm, nm.Top()))
    ensures HighestFreeSlot(files, nm, nm.Top()) == 0 ==> nm.Current() !in files
  {
    var loop, lifted := LoopOnSlots(files, entries, nm);
    var slots, ns, top := SlotsOf(files, entries, nm), Numbers(entries, nm), nm.Top();
    SlotsMirror(files, entries, nm);
    SameHighestFree(slots, files, nm, top);
    RotateLifts(slots, top, ns, top, false);
    LiftOnNames(files, loop, slots, lifted, nm, HighestFree(slots, top));
    FinalMove(files, entries, nm, loop);
    if HighestFree(slots, top) == 0 {
      NoCurrentWhenAllTaken(files, entries, nm);
    }
  }

  lemma LiftOnNames<T>(
    files: map<string, T>, loop: map<string, T>, slots: map<nat, T>, lifted: map<nat, T>, nm: Naming, g: nat)
    requires Mirrors(slots, files, nm) && Mirrors(lifted, loop, nm) && LiftedBelow(lifted, slots, g)
    ensures forall j: nat {:trigger SlotAt(loop, nm, j)} :: j >= 1 ==>
              SlotAt(loop, nm, j) == if j > g then SlotAt(files, nm, j) else SlotAt(files, nm, j - 1)
    ensures 0 !in slots ==> g == 0 || SlotAt(loop, nm, 1) == None
  {
    forall j: nat | j >= 1
      ensures SlotAt(loop, nm, j) == if j > g then SlotAt(files, nm, j) else SlotAt(files, nm, j - 1)
    {
      assert At(lifted, j) == At(loop, nm.Slot(j));
      assert At(slots, j) == At(files, nm.Slot(j)) && At(slots, j - 1) == At(files, nm.Slot(j - 1));
    }
    assert At(slots, 0) == At(files, nm.Slot(0));
  }

  lemma NoCurrentWhenAllTaken<T>(files: map<string, T>, entries: seq<string>, nm: Naming)
    requires Orderly(files, entries, nm) && |entries| < nm.maximum
    requires forall j | 1 <= j <= nm.Top() :: j in SlotsOf(files, entries, nm)
    ensures nm.Current() !in files
  {
    SlotsMirror(files, entries, nm);
    NumbersAre(entries, nm);
    AllTaken(Numbers(entries, nm), nm.Top());
    assert nm.prefix <= nm.Current();
  }

  /** `maximum` or more files listed: the logs numbered maximum - 1 and above are dropped, every other log
      moves up by one, and the current log becomes number 1. */
  lemma RotationDrops<T>(files: map<string, T>, entries: seq<string>, nm: Naming)
    requires Orderly(files, entries, nm) && |entries| >= nm.maximum
    ensures var after := Rotated(files, entries, nm);
            && nm.Current() !in after
            && (forall j: nat {:trigger SlotAt(after, nm, j)} :: j >= 1 ==>
                  SlotAt(after, nm, j) == if j == 1 then At(files, nm.Current())
                                          else if j > nm.Top() then None
                                          else SlotAt(files, nm, j - 1))
            && (forall name {:trigger At(after, name)} :: !IsSlot(name, nm) && name != nm.Current() ==>
                  At(after, name) == At(files, name))
  {
    var loop, lifted := LoopOnSlots(files, entries, nm);
    var slots, ns, top := SlotsOf(files, entries, nm), Numbers(entries, nm), nm.Top();
    SlotsMirror(files, entries, nm);
    RotateFull(slots, ns, top);
    FinalMove(files, entries, nm, loop);
    forall j: nat | j >= 1
      ensures SlotAt(loop, nm, j) == if j == 1 || j > top then None else SlotAt(files, nm, j - 1)
    {
      DroppedAt(slots, files, lifted, loop, nm, top, j);
    }
  }

  lemma DroppedAt<T>(
    slots: map<nat, T>, files: map<string, T>, lifted: map<nat, T>, loop: map<string, T>,
    nm: Naming, top: nat, j: nat)
    requires j >= 1 && 0 !in slots && Mirrors(lifted, loop, nm) && Mirrors(slots, files, nm)
    requires LiftedBelow(lifted, Kept(slots, top), top)
    ensures SlotAt(loop, nm, j) == if j == 1 || j > top then None else SlotAt(files, nm, j - 1)
  {
    KeptMirrors(slots, files, nm, top);
    assert At(slots, 0) == At(files, nm.Slot(0));
    assert At(lifted, j) == At(loop, nm.Slot(j));
    assert At(lifted, j) == if j > top then At(Kept(slots, top), j) else At(Kept(slots, top), j - 1);
  }

  lemma KeptMirrors<T>(slots: map<nat, T>, files: map<string, T>, nm: Naming, top: nat)
    requires Mirrors(slots, files, nm)
    ensures forall j: nat {:trigger At(Kept(slots, top), j)} ::
              At(Kept(slots, top), j) == if j < top then SlotAt(files, nm, j) else None
  {
    forall j: nat ensures At(Kept(slots, top), j) == if j < top then SlotAt(files, nm, j) else None {
      assert At(slots, j) == At(files, nm.Slot(j));
    }
  }

  /** Aging keeps every log (except in slot `g` itself, which is free or dropped), moves it by at most one
      slot, and never changes which of two logs is the older one. */
  lemma AgingKeepsOrder<T>(after: map<string, T>, before: map<string, T>, nm: Naming, g: nat, m: nat, n: nat)
    requires Aged(after, before, nm, g) && 1 <= m < n && m != g && n != g
    ensures exists m', n' | 1 <= m' < n' && m <= m' <= m + 1 && n <= n' <= n + 1 ::
              SlotAt(after, nm, m') == SlotAt(before, nm, m) && SlotAt(after, nm, n') == SlotAt(before, nm, n)
  {
    var m', n' := if m < g then m + 1 else m, if n < g then n + 1 else n;
    assert SlotAt(after, nm, m') == SlotAt(before, nm, m) && SlotAt(after, nm, n') == SlotAt(before, nm, n);
  }

  // ---------- a directory that is not in numeric order ----------

  lemma TenBeforeNine(nm: Naming)
    ensures StrLess(nm.Slot(10), nm.Slot(9)) && nm.Slot(9) != nm.Slot(10)
  {
    assert Decimal.Print(10) == Decimal.Print(1) + [Decimal.DigitChar(0)];
    SlotOrder(nm, 9, 10);
    StrLessTotal(nm.Slot(9), nm.Slot(10));
    if nm.Slot(9) == nm.Slot(10) { SlotInjective(nm, 9, 10); }
  }

  lemma CurrentIsNoSlot(prefix: string, maximum: nat, n: nat)
    ensures Schema(prefix, prefix, maximum).Slot(n) != Schema(prefix, prefix, maximum).Current()
  {
    var nm := Schema(prefix, prefix, maximum);
    assert nm.Slot(n)[|prefix|] == '_' && nm.Current()[|prefix|] == '.';
  }

  lemma TwoListed(a: string, b: string, prefix: string)
    requires StrLess(a, b) && prefix <= a && prefix <= b
    ensures Listing([a, b], {a, b}, prefix)
  {
    assert [a, b][..1] == [a] && [a][..0] == [];
  }

  /** One iteration on a numbered log when few files are listed. */
  lemma VisitMoves<T>(scan: Scan<T>, name: string, n: nat, total: nat, nm: Naming)
    requires nm.maximum > total && nm.numberAt == |nm.prefix| + 1 && n < UINT_RANGE
    requires name == nm.Slot(n) && name != nm.Current() && name in scan.files
    ensures var target := Target(n, scan.index);
            Visit(scan, name, total, nm)
            == Scan(Move(scan.files, name, nm.Slot(target)), Decrement(target), scan.foundCurrent)
  {
    SchemaReadsBack(nm, n);
  }

  lemma LoopOverTwo<T>(scan: Scan<T>, first: string, second: string, nm: Naming)
    requires nm.maximum >= 1 && Visitable(scan.files, [second, first])
    ensures var next := Visit(scan, first, 2, nm);
            second in next.files && VisitDown(scan, [second, first], 2, nm) == Visit(next, second, 2, nm)
  {
    var todo := [second, first];
    assert todo[..1] == [second] && [second][..0] == [];
    VisitUnfolds(scan, todo, 2, nm);
    VisitUnfolds(Visit(scan, first, 2, nm), [second], 2, nm);
  }

  lemma ThereAndBack<T>(nine: string, ten: string, x: T, y: T)
    requires nine != ten
    ensures Move(map[nine := x, ten := y], nine, ten) == map[ten := x]
    ensures Move(map[ten := x], ten, nine) == map[nine := x]
  {
  }

  lemma LoopOverTenAndNine<T>(nm: Naming, nine: string, ten: string, x: T, y: T)
    requires nm.maximum == 20 && nm.numberAt == |nm.prefix| + 1 && nine == nm.Slot(9) && ten == nm.Slot(10)
    requires nine != ten && nine != nm.Current() && ten != nm.Current()
    requires Visitable(map[nine := x, ten := y], [ten, nine])
    ensures VisitDown(Scan(map[nine := x, ten := y], 19, false), [ten, nine], 2, nm)
         == Scan(map[nine := x], 8, false)
  {
    var s0 := Scan(map[nine := x, ten := y], 19, false);
    var s1 := Scan(map[ten := x], 9, false);
    LoopOverTwo(s0, nine, ten, nm);
    ThereAndBack(nine, ten, x, y);
    VisitMoves(s0, nine, 9, 2, nm);
    VisitMoves(s1, ten, 10, 2, nm);
  }

  lemma RotatedWithoutCurrent<T>(files: map<string, T>, entries: seq<string>, nm: Naming)
    requires nm.maximum >= 1 && Listing(entries, files.Keys, nm.prefix) && nm.Current() !in files
    ensures Visitable(files, entries)
    ensures Rotated(files, entries, nm)
         == VisitDown(Scan(files, nm.Top(), false), entries, |entries|, nm).files - {nm.Current()}
  {
    ListingVisitable(files, entries, nm.prefix);
  }

  /** With a two-digit number the order can fail and a log is lost: 9 is listed after 10, moves to slot 10
      (replacing the log there), and moves back to slot 9 when the entry for 10 is visited. */
  lemma TenAfterNine<T>(prefix: string, x: T, y: T)
    ensures var nm := Schema(prefix, prefix, 20);
            var files := map[nm.Slot(9) := x, nm.Slot(10) := y];
            var entries := [nm.Slot(10), nm.Slot(9)];
            && Listing(entries, files.Keys, prefix)
            && Rotated(files, entries, nm) == map[nm.Slot(9) := x]
  {
    var nm := Schema(prefix, prefix, 20);
    TenBeforeNine(nm);
    CurrentIsNoSlot(prefix, 20, 9);
    CurrentIsNoSlot(prefix, 20, 10);
    TwoListed(nm.Slot(10), nm.Slot(9), prefix);
    TenLost(nm, nm.Slot(9), nm.Slot(10), x, y);
  }

  lemma TenLost<T>(nm: Naming, nine: string, ten: string, x: T, y: T)
    requires nm.maximum == 20 && nm.numberAt == |nm.prefix| + 1 && nine == nm.Slot(9) && ten == nm.Slot(10)
    requires nine != ten && nine != nm.Current() && ten != nm.Current() && Listing([ten, nine], {ten, nine}, nm.prefix)
    ensures var files := map[nine := x, ten := y];
            Listing([ten, nine], files.Keys, nm.prefix) && Rotated(files, [ten, nine], nm) == map[nine := x]
  {
    var files := map[nine := x, ten := y];
    assert files.Keys == {ten, nine};
    RotatedWithoutCurrent(files, [ten, nine], nm);
    LoopOverTenAndNine(nm, nine, ten, x, y);
  }

  // ---------- the source as written, with the program name as prefix ----------

  /** Names without a number are passed over. */
  lemma {:induction false} NothingNumbered<T>(scan: Scan<T>, todo: seq<string>, total: nat, nm: Naming)
    requires nm.maximum >= 1 && Visitable(scan.files, todo)
    requires forall e | e in todo :: Unnumbered(e, nm)
    ensures VisitDown(scan, todo, total, nm).files == scan.files
    decreases |todo|
  {
    if todo != [] {
      InInit(todo);
      assert Unnumbered(todo[|todo| - 1], nm);
      VisitUnfolds(scan, todo, total, nm);
      NothingNumbered(Visit(scan, todo[|todo| - 1], total, nm), todo[..|todo| - 1], total, nm);
    }
  }

  /** Numbers are looked for at the underscore, where there is none: the numbered logs stay where they are and
      the current log replaces the one in slot 1. */
  lemma LiteralRotation<T>(files: map<string, T>, entries: seq<string>, programName: string, maximum: nat)
    requires maximum >= 1 && Listing(entries, files.Keys, programName)
    requires var nm := Literal(programName, programName, maximum);
             forall e | e in entries :: e == nm.Current() || IsSlot(e, nm)
    ensures var nm := Literal(programName, programName, maximum);
            Rotated(files, entries, nm)
            == if nm.Current() in files then Move(files, nm.Current(), nm.Slot(1)) else files
  {
    var nm := Literal(programName, programName, maximum);
    ListingVisitable(files, entries, programName);
    forall e | e in entries ensures Unnumbered(e, nm) {
      if e != nm.Current() {
        var n: nat :| e == nm.Slot(n);
        LiteralSkipsSlots(nm, n);
      }
    }
    NothingNumbered(Scan(files, nm.Top(), false), entries, |entries|, nm);
    CurrentIsNoSlot(programName, maximum, 1);
    assert programName <= nm.Current();
  }

  /** So the source as written keeps every log if and only if it does not find both a current log and a log
      in slot 1. */
  lemma LiteralKeepsIff<T>(files: map<string, T>, entries: seq<string>, programName: string, maximum: nat)
    requires maximum >= 1 && Listing(entries, files.Keys, programName)
    requires var nm := Literal(programName, programName, maximum);
             forall e | e in entries :: e == nm.Current() || IsSlot(e, nm)
    ensures var nm := Literal(programName, programName, maximum);
            |Rotated(files, entries, nm)| == |files| <==> !(nm.Current() in files && nm.Slot(1) in files)
  {
    var nm := Literal(programName, programName, maximum);
    LiteralRotation(files, entries, programName, maximum);
    CurrentIsNoSlot(programName, maximum, 1);
    if nm.Current() in files {
      var after := Move(files, nm.Current(), nm.Slot(1));
      assert after.Keys == files.Keys - {nm.Current()} + {nm.Slot(1)};
      assert |after| == |after.Keys| && |files| == |files.Keys|;
    }
  }

  /** Two files where five are allowed, and one of them is lost. */
  lemma LiteralLosesLog<T>(programName: string, x: T, y: T)
    ensures var nm := Literal(programName, programName, 5);
            var files := map[nm.Current() := x, nm.Slot(1) := y];
            var entries := [nm.Current(), nm.Slot(1)];
            && Listing(entries, files.Keys, programName)
            && Rotated(files, entries, nm) == map[nm.Slot(1) := x]
  {
    var nm := Literal(programName, programName, 5);
    var files := map[nm.Current() := x, nm.Slot(1) := y];
    var entries := [nm.Current(), nm.Slot(1)];
    CurrentIsNoSlot(programName, 5, 1);
    assert Decimal.Print(1) == "1";
    assert nm.Slot(1) == programName + "_1.log";
    StrLessCommonPrefix(programName, SUFFIX, "_1.log");
    TwoListed(nm.Current(), nm.Slot(1), programName);
    assert files.Keys == {nm.Current(), nm.Slot(1)};
    assert IsSlot(nm.Slot(1), nm);
    LiteralRotation(files, entries, programName, 5);
  }
}
