/** Exactly when a rotation keeps all logs and their order of age. */
module LogOrder {
  import opened Options
  import Decimal
  import opened LogSlots
  import opened LogNames
  import opened LogDirectory
  import opened LogRotation
  import opened LogSafety

  /** No two files hold the same, so that contents tell where a log has gone. */
  ghost predicate DistinctContents<T>(files: map<string, T>) {
    forall x, y | x in files && y in files && files[x] == files[y] :: x == y
  }

  /** The logs by age before a rotation: the current one, then the numbered ones. */
  function LogAt<T>(files: map<string, T>, nm: Naming, a: nat): Option<T> {
    if a == 0 then At(files, nm.Current()) else SlotAt(files, nm, a)
  }

  /** The deletion rule does not apply to number `n`. */
  predicate Retained(n: nat, entries: seq<string>, nm: Naming)
    requires nm.maximum >= 1
  {
    n < nm.Top() || |entries| < nm.maximum
  }

  /** Of two logs that are not deleted, the newer one ends up in the lower slot. */
  ghost predicate AgesKept<T>(after: map<string, T>, before: map<string, T>, entries: seq<string>, nm: Naming)
    requires nm.maximum >= 1
  {
    forall a: nat, b: nat {:trigger LogAt(before, nm, a), LogAt(before, nm, b)} ::
      a < b && Retained(b, entries, nm) && LogAt(before, nm, a).Some? && LogAt(before, nm, b).Some? ==>
        Placed(after, nm, LogAt(before, nm, a), LogAt(before, nm, b))
  }

  ghost predicate Placed<T>(after: map<string, T>, nm: Naming, x: Option<T>, y: Option<T>) {
    exists i: nat, j: nat {:trigger SlotAt(after, nm, i), SlotAt(after, nm, j)} ::
      1 <= i < j && SlotAt(after, nm, i) == x && SlotAt(after, nm, j) == y
  }

  /** With fewer than `maximum` files listed, the slots that the logs numbered above maximum - 1 need are free.
      With more, maximum - 2 does not exceed the leading digits of maximum - 1, if both are in use. */
  ghost predicate HasRoom<T>(files: map<string, T>, entries: seq<string>, nm: Naming)
    requires nm.maximum >= 1
  {
    var ns, top := Numbers(entries, nm), nm.Top();
    if |entries| < nm.maximum then
      forall j: nat | top - CountAbove(ns, top) < j <= top :: nm.Slot(j) !in files
    else
      forall a, b | a in ns && b in ns && a + 1 == b == top :: WithinLead(a, b)
  }

  /** What a caller can check before the call: no number exceeds the leading digits of a larger one, numbers
      that are deleted aside, and there is room. */
  ghost predicate Fits<T>(files: map<string, T>, entries: seq<string>, nm: Naming)
    requires nm.maximum >= 1
  {
    var ns := Numbers(entries, nm);
    && (forall a, b | a in ns && b in ns && a < b && Retained(b, entries, nm) :: WithinLead(a, b))
    && HasRoom(files, entries, nm)
  }

  // ---------- contents stay distinct ----------

  lemma {:induction false} VisitDownDistinct<T>(scan: Scan<T>, todo: seq<string>, total: nat, nm: Naming)
    requires nm.maximum >= 1 && Visitable(scan.files, todo) && DistinctContents(scan.files)
    ensures DistinctContents(VisitDown(scan, todo, total, nm).files)
    decreases |todo|
  {
    if todo != [] {
      VisitUnfolds(scan, todo, total, nm);
      VisitDownDistinct(Visit(scan, todo[|todo| - 1], total, nm), todo[..|todo| - 1], total, nm);
    }
  }

  lemma RotatedDistinct<T>(files: map<string, T>, entries: seq<string>, nm: Naming)
    requires nm.maximum >= 1 && Listing(entries, files.Keys, nm.prefix) && DistinctContents(files)
    ensures DistinctContents(Rotated(files, entries, nm))
  {
    ListingVisitable(files, entries, nm.prefix);
    VisitDownDistinct(Scan(files, nm.Top(), false), entries, |entries|, nm);
  }

  lemma OnePlace<T>(files: map<string, T>, nm: Naming, i: nat, j: nat)
    requires DistinctContents(files) && SlotAt(files, nm, i).Some? && SlotAt(files, nm, i) == SlotAt(files, nm, j)
    ensures i == j
  {
    SlotInjective(nm, i, j);
  }

  // ---------- where each log goes ----------

  /** The numbers that are not deleted, in the order in which the loop meets them, and their targets. */
  function Survivors(entries: seq<string>, nm: Naming): seq<nat>
    requires nm.maximum >= 1
  {
    Surviving(Numbers(entries, nm), nm.Top(), |entries| >= nm.maximum)
  }

  function Aims(entries: seq<string>, nm: Naming): (ts: seq<nat>)
    requires nm.maximum >= 1
    ensures |ts| == |Survivors(entries, nm)|
  {
    Targets(nm.Top(), Numbers(entries, nm), nm.Top(), |entries| >= nm.maximum)
  }

  lemma SurvivorsAre<T>(files: map<string, T>, entries: seq<string>, nm: Naming)
    requires Recognised(files, entries, nm)
    ensures forall b: nat ::
              b in Survivors(entries, nm) <==> b >= 1 && Retained(b, entries, nm) && LogAt(files, nm, b).Some?
    ensures Different(Survivors(entries, nm)) && AllPositive(Survivors(entries, nm))
    ensures ListedDown(Survivors(entries, nm), nm)
  {
    var ns := Numbers(entries, nm);
    SlotsMirror(files, entries, nm);
    SurvivingAre(ns, nm.Top(), |entries| >= nm.maximum);
    NumbersListedDown(entries, nm);
    SurvivingListedDown(ns, nm.Top(), |entries| >= nm.maximum, nm);
    forall b: nat | b >= 1 ensures b in ns <==> LogAt(files, nm, b).Some? {
      assert At(SlotsOf(files, entries, nm), b) == At(files, nm.Slot(b));
    }
  }

  /** No rename replaces a file: seen through the slots. */
  ghost predicate SlotsSafe<T>(files: map<string, T>, entries: seq<string>, nm: Naming)
    requires Recognised(files, entries, nm)
  {
    SlotsMirror(files, entries, nm);
    Safe(SlotsOf(files, entries, nm), nm.Top(), Numbers(entries, nm), nm.Top(), |entries| >= nm.maximum)
  }

  lemma OverwritingOnSlots<T>(files: map<string, T>, entries: seq<string>, nm: Naming)
    requires Recognised(files, entries, nm)
    ensures NothingOverwritten(files, entries, nm)
       <==> SlotsSafe(files, entries, nm) && (nm.Current() in files ==> 1 !in SlotLoop(files, entries, nm).0)
  {
    var loop, slots := LoopOnSlots(files, entries, nm);
    SlotsMirror(files, entries, nm);
    LoopSafeSimulates(Scan(files, nm.Top(), false), SlotsOf(files, entries, nm), entries, |entries|, nm);
    assert At(slots, 1) == At(loop, nm.Slot(1));
    assert nm.prefix <= nm.Current();
  }

  /** When nothing is overwritten, every log that is not deleted arrives at its target, whatever the order. */
  lemma Delivered<T>(files: map<string, T>, entries: seq<string>, nm: Naming, i: nat)
    requires Recognised(files, entries, nm) && NothingOverwritten(files, entries, nm) && i < |Survivors(entries, nm)|
    ensures SlotAt(Rotated(files, entries, nm), nm, Aims(entries, nm)[i]) == LogAt(files, nm, Survivors(entries, nm)[i])
    ensures LogAt(files, nm, Survivors(entries, nm)[i]).Some?
    ensures nm.Current() in files ==> Aims(entries, nm)[i] != 1
  {
    var loop, slots := LoopOnSlots(files, entries, nm);
    var before := SlotsOf(files, entries, nm);
    var k, t := Survivors(entries, nm)[i], Aims(entries, nm)[i];
    OverwritingOnSlots(files, entries, nm);
    SlotsMirror(files, entries, nm);
    SafeDelivers(before, nm.Top(), Numbers(entries, nm), nm.Top(), |entries| >= nm.maximum, i);
    SurvivorsAre(files, entries, nm);
    assert k in Survivors(entries, nm);
    assert At(before, k) == At(files, nm.Slot(k)) && At(slots, t) == At(loop, nm.Slot(t));
    FinalMove(files, entries, nm, loop);
  }

  /** When no rename replaces a file, on the numbers alone: no log is aimed at a number that is met later, no two
      logs at the same number, and none at 1 when there is a current log. */
  lemma NothingOverwrittenAnyOrderIff<T>(files: map<string, T>, entries: seq<string>, nm: Naming)
    requires Recognised(files, entries, nm)
    ensures NothingOverwritten(files, entries, nm)
       <==> && NoneAhead(Numbers(entries, nm), Survivors(entries, nm), Aims(entries, nm))
            && Different(Aims(entries, nm))
            && (nm.Current() in files ==> 1 !in Aims(entries, nm))
  {
    var before, ns, full := SlotsOf(files, entries, nm), Numbers(entries, nm), |entries| >= nm.maximum;
    SlotsMirror(files, entries, nm);
    OverwritingOnSlots(files, entries, nm);
    SafeAnyOrderIff(before, nm.Top(), ns, nm.Top(), full);
    if SlotsSafe(files, entries, nm) { AimsInUse(before, nm.Top(), ns, nm.Top(), full, 1); }
  }

  /** After a pass without overwriting, the slots in use are the aims. */
  lemma AimsInUse<T>(slots: map<nat, T>, index: nat, ns: seq<nat>, top: nat, full: bool, j: nat)
    requires Listed(slots, ns) && Different(ns) && Safe(slots, index, ns, top, full)
    requires forall n | n in slots :: n in ns
    ensures j in Rotate(slots, index, ns, top, full).0 <==> j in Targets(index, ns, top, full)
  {
    RotateOccupies(slots, index, ns, top, full);
    var ts := Targets(index, ns, top, full);
    if j in ts {
      var i :| 0 <= i < |ts| && ts[i] == j;
      SafeDelivers(slots, index, ns, top, full, i);
    }
  }

  lemma CurrentDelivered<T>(files: map<string, T>, entries: seq<string>, nm: Naming)
    requires Recognised(files, entries, nm) && nm.Current() in files
    ensures SlotAt(Rotated(files, entries, nm), nm, 1) == LogAt(files, nm, 0)
  {
    var loop, slots := LoopOnSlots(files, entries, nm);
    FinalMove(files, entries, nm, loop);
  }

  /** When nothing is overwritten, no log but the deleted ones is lost. */
  lemma NothingLost<T>(files: map<string, T>, entries: seq<string>, nm: Naming, a: nat)
    requires Recognised(files, entries, nm) && NothingOverwritten(files, entries, nm)
    requires Retained(a, entries, nm) && LogAt(files, nm, a).Some?
    ensures exists i: nat :: SlotAt(Rotated(files, entries, nm), nm, i) == LogAt(files, nm, a)
  {
    if a == 0 {
      CurrentDelivered(files, entries, nm);
    } else {
      SurvivorsAre(files, entries, nm);
      var i :| 0 <= i < |Survivors(entries, nm)| && Survivors(entries, nm)[i] == a;
      Delivered(files, entries, nm, i);
    }
  }

  // ---------- out of order ----------

  lemma FewSurvivors<T>(files: map<string, T>, entries: seq<string>, nm: Naming)
    requires Recognised(files, entries, nm)
    ensures RunLength(Survivors(entries, nm)) <= nm.Top()
    ensures |entries| < nm.maximum ==>
              Survivors(entries, nm) == Numbers(entries, nm)
              && |Numbers(entries, nm)| + (if nm.Current() in files then 1 else 0) <= nm.Top()
  {
    var ks := Survivors(entries, nm);
    NumbersAre(entries, nm);
    SurvivorsAre(files, entries, nm);
    assert nm.prefix <= nm.Current();
    if |entries| < nm.maximum {
      AllSurvive(Numbers(entries, nm), nm.Top());
    } else if ks != [] {
      assert ks[0] in ks;
      RunBelow(ks);
    }
  }

  /** A newer log that is met before an older one stays behind it for good. */
  lemma DisorderShows<T>(files: map<string, T>, entries: seq<string>, nm: Naming)
    requires Recognised(files, entries, nm) && DistinctContents(files) && NothingOverwritten(files, entries, nm)
    requires !Descending(Survivors(entries, nm))
    ensures !AgesKept(Rotated(files, entries, nm), files, entries, nm)
  {
    var ks, ts := Survivors(entries, nm), Aims(entries, nm);
    SurvivorsAre(files, entries, nm);
    FewSurvivors(files, entries, nm);
    AscentExists(ks);
    FirstAscent(nm.Top(), Numbers(entries, nm), nm.Top(), |entries| >= nm.maximum);
    var r := RunLength(ks);
    Delivered(files, entries, nm, r - 1);
    Delivered(files, entries, nm, r);
    var a, b := ks[r - 1], ks[r];
    assert b in ks;
    if a == b { DifferentAt(ks, r - 1, r); }
    NotPlaced(files, entries, nm, a, b, ts[r - 1], ts[r]);
  }

  lemma {:induction false} DifferentAt(ks: seq<nat>, i: nat, j: nat)
    requires Different(ks) && i < j < |ks|
    ensures ks[i] != ks[j]
  {
    if i > 0 { DifferentAt(ks[1..], i - 1, j - 1); }
  }

  lemma NotPlaced<T>(files: map<string, T>, entries: seq<string>, nm: Naming, a: nat, b: nat, s: nat, t: nat)
    requires Recognised(files, entries, nm) && DistinctContents(files)
    requires a < b && Retained(b, entries, nm) && LogAt(files, nm, a).Some? && LogAt(files, nm, b).Some? && t < s
    requires SlotAt(Rotated(files, entries, nm), nm, s) == LogAt(files, nm, a)
    requires SlotAt(Rotated(files, entries, nm), nm, t) == LogAt(files, nm, b)
    ensures !AgesKept(Rotated(files, entries, nm), files, entries, nm)
  {
    var after := Rotated(files, entries, nm);
    RotatedDistinct(files, entries, nm);
    if Placed(after, nm, LogAt(files, nm, a), LogAt(files, nm, b)) {
      var x, y := LogAt(files, nm, a), LogAt(files, nm, b);
      var i: nat, j: nat :| 1 <= i < j && SlotAt(after, nm, i) == x && SlotAt(after, nm, j) == y;
      OnePlace(after, nm, i, s);
      OnePlace(after, nm, j, t);
    }
  }

  // ---------- in order ----------

  lemma {:induction false} DescendingAt(ks: seq<nat>, i: nat, j: nat)
    requires Descending(ks) && i < j < |ks|
    ensures ks[j] < ks[i]
  {
    if i == 0 {
      assert ks[j] == ks[1..][j - 1] && ks[j] in ks[1..];
    } else {
      DescendingAt(ks[1..], i - 1, j - 1);
    }
  }

  lemma AimsDescend<T>(files: map<string, T>, entries: seq<string>, nm: Naming)
    requires Recognised(files, entries, nm) && Descending(Survivors(entries, nm))
    ensures Descending(Aims(entries, nm))
    ensures AllBetween(Aims(entries, nm), if nm.Current() in files then 2 else 1, nm.Top())
  {
    var ns, top := Numbers(entries, nm), nm.Top();
    SurvivorsAre(files, entries, nm);
    FewSurvivors(files, entries, nm);
    if |entries| < nm.maximum {
      TargetsDescend(top, ns, top, if nm.Current() in files then 2 else 1);
    } else {
      FullTargetsDescend(top, ns, top);
    }
  }

  /** In order, slot 1 is free for the current log. */
  lemma CurrentHasRoom<T>(files: map<string, T>, entries: seq<string>, nm: Naming)
    requires Recognised(files, entries, nm) && Descending(Survivors(entries, nm)) && nm.Current() in files
    ensures 1 !in SlotLoop(files, entries, nm).0
  {
    SlotsMirror(files, entries, nm);
    AimsDescend(files, entries, nm);
    RotateOccupies(SlotsOf(files, entries, nm), nm.Top(), Numbers(entries, nm), nm.Top(), |entries| >= nm.maximum);
  }

  lemma OrderShows<T>(files: map<string, T>, entries: seq<string>, nm: Naming)
    requires Recognised(files, entries, nm) && NothingOverwritten(files, entries, nm)
    requires Descending(Survivors(entries, nm))
    ensures AgesKept(Rotated(files, entries, nm), files, entries, nm)
  {
    var after, ks, ts := Rotated(files, entries, nm), Survivors(entries, nm), Aims(entries, nm);
    SurvivorsAre(files, entries, nm);
    AimsDescend(files, entries, nm);
    forall a: nat, b: nat | a < b && Retained(b, entries, nm) && LogAt(files, nm, a).Some? && LogAt(files, nm, b).Some?
      ensures Placed(after, nm, LogAt(files, nm, a), LogAt(files, nm, b))
    {
      assert b in ks;
      var j :| 0 <= j < |ks| && ks[j] == b;
      Delivered(files, entries, nm, j);
      assert ts[j] in ts;
      if a == 0 {
        CurrentDelivered(files, entries, nm);
        assert SlotAt(after, nm, 1) == LogAt(files, nm, a) && SlotAt(after, nm, ts[j]) == LogAt(files, nm, b);
      } else {
        assert a in ks;
        var i :| 0 <= i < |ks| && ks[i] == a;
        Delivered(files, entries, nm, i);
        assert ts[i] in ts;
        if i < j { DescendingAt(ks, i, j); }
        DescendingAt(ts, j, i);
        assert SlotAt(after, nm, ts[i]) == LogAt(files, nm, a) && SlotAt(after, nm, ts[j]) == LogAt(files, nm, b);
      }
    }
  }

  // ---------- the condition ----------

  lemma SurvivorsDescendIff<T>(files: map<string, T>, entries: seq<string>, nm: Naming)
    requires Recognised(files, entries, nm)
    ensures Descending(Survivors(entries, nm)) <==> LeadsAgree(Survivors(entries, nm))
  {
    SurvivorsAre(files, entries, nm);
    DescendingIff(Survivors(entries, nm), nm);
    InOrderIff(Survivors(entries, nm), nm);
  }

  lemma RoomWhenFew<T>(files: map<string, T>, entries: seq<string>, nm: Naming)
    requires Recognised(files, entries, nm) && Descending(Numbers(entries, nm)) && |entries| < nm.maximum
    ensures SlotsSafe(files, entries, nm) <==> HasRoom(files, entries, nm)
  {
    var slots, ns, top := SlotsOf(files, entries, nm), Numbers(entries, nm), nm.Top();
    SlotsMirror(files, entries, nm);
    NumbersAre(entries, nm);
    SafeIff(slots, top, ns, top);
    forall j: nat ensures nm.Slot(j) in files <==> j in ns {
      assert At(slots, j) == At(files, nm.Slot(j));
    }
  }

  lemma RoomWhenMany<T>(files: map<string, T>, entries: seq<string>, nm: Naming)
    requires Recognised(files, entries, nm) && Descending(Survivors(entries, nm)) && |entries| >= nm.maximum
    ensures SlotsSafe(files, entries, nm) <==> HasRoom(files, entries, nm)
  {
    var slots, ns, top := SlotsOf(files, entries, nm), Numbers(entries, nm), nm.Top();
    SlotsMirror(files, entries, nm);
    SurvivorsAre(files, entries, nm);
    SafeFullIff(slots, top, ns, top);
    NumbersListedDown(entries, nm);
    LastTwo(ns, top, nm);
  }

  lemma LastTwo(ns: seq<nat>, top: nat, nm: Naming)
    requires ListedDown(ns, nm)
    ensures top > 0 && Precedes(ns, top - 1, top)
       <==> exists a, b | a in ns && b in ns && a + 1 == b == top :: !WithinLead(a, b)
  {
    if top > 0 {
      PrecedesIn(ns, top - 1, top);
      if top - 1 in ns && top in ns { PrecedesByLead(ns, top - 1, top, nm); }
    }
  }

  /** The smaller of two numbers is met first exactly when it exceeds the leading digits of the larger one. */
  lemma PrecedesByLead(ns: seq<nat>, a: nat, b: nat, nm: Naming)
    requires ListedDown(ns, nm) && a in ns && b in ns && a < b
    ensures Precedes(ns, a, b) <==> !WithinLead(a, b)
  {
    PrecedesIff(ns, a, b, nm);
    PairOrder(nm, a, b);
    StrLessTotal(nm.Slot(a), nm.Slot(b));
    if StrLess(nm.Slot(a), nm.Slot(b)) { StrLessAsymmetric(nm.Slot(a), nm.Slot(b)); }
    if nm.Slot(a) == nm.Slot(b) { SlotInjective(nm, a, b); }
  }

  lemma FitsOnSurvivors<T>(files: map<string, T>, entries: seq<string>, nm: Naming)
    requires Recognised(files, entries, nm)
    ensures Fits(files, entries, nm) <==> LeadsAgree(Survivors(entries, nm)) && HasRoom(files, entries, nm)
  {
    SurvivingAre(Numbers(entries, nm), nm.Top(), |entries| >= nm.maximum);
  }

  /** For every recognised directory, in any order and with any numbers: nothing is overwritten and the order of
      age is kept if and only if the directory fits. */
  lemma OrderKeptIff<T>(files: map<string, T>, entries: seq<string>, nm: Naming)
    requires Recognised(files, entries, nm) && DistinctContents(files)
    ensures NothingOverwritten(files, entries, nm) && AgesKept(Rotated(files, entries, nm), files, entries, nm)
       <==> Fits(files, entries, nm)
  {
    FitsOnSurvivors(files, entries, nm);
    SurvivorsDescendIff(files, entries, nm);
    OverwritingOnSlots(files, entries, nm);
    if Descending(Survivors(entries, nm)) {
      if |entries| < nm.maximum {
        FewSurvivors(files, entries, nm);
        RoomWhenFew(files, entries, nm);
      } else {
        RoomWhenMany(files, entries, nm);
      }
      if nm.Current() in files { CurrentHasRoom(files, entries, nm); }
      if NothingOverwritten(files, entries, nm) { OrderShows(files, entries, nm); }
    } else if NothingOverwritten(files, entries, nm) {
      DisorderShows(files, entries, nm);
    }
  }

  /** With fewer than `maximum` files and all numbers in 1..maximum - 1, the digits alone decide. */
  lemma InRangeOrderKeptIff<T>(files: map<string, T>, entries: seq<string>, nm: Naming)
    requires Recognised(files, entries, nm) && DistinctContents(files) && |entries| < nm.maximum
    requires forall n | n in Numbers(entries, nm) :: n <= nm.Top()
    ensures NothingOverwritten(files, entries, nm) && AgesKept(Rotated(files, entries, nm), files, entries, nm)
       <==> forall a, b | a in Numbers(entries, nm) && b in Numbers(entries, nm) && a < b :: WithinLead(a, b)
  {
    OrderKeptIff(files, entries, nm);
    CountAboveNone(Numbers(entries, nm), nm.Top());
  }

  // ---------- out of order, with an index that wraps ----------

  lemma FourMoves<T>(slots: map<nat, T>)
    requires forall n | n in [2, 12, 11, 10] :: n in slots
    ensures Listed(slots, [2, 12, 11, 10]) && Different([2, 12, 11, 10])
    ensures var (after, index) := Rotate(slots, 29, [2, 12, 11, 10], 29, false);
            index == 0xFFFF_FFFF && 1 in after && At(after, 0) == At(slots, 10)
  {
    var ns: seq<nat> := [2, 12, 11, 10];
    assert ns[1..] == [12, 11, 10] && ns[1..][1..] == [11, 10] && ns[1..][1..][1..] == [10];
    var s1 := Move(slots, 2, 3);
    var s2 := Move(s1, 12, 2);
    var s3 := Move(s2, 11, 1);
    var s4 := Move(s3, 10, 0);
    assert Rotate(slots, 29, ns, 29, false) == Rotate(s1, 2, [12, 11, 10], 29, false);
    assert Rotate(s1, 2, [12, 11, 10], 29, false) == Rotate(s2, 1, [11, 10], 29, false);
    assert Rotate(s2, 1, [11, 10], 29, false) == Rotate(s3, 0, [10], 29, false);
    assert Rotate(s3, 0, [10], 29, false) == (s4, 0xFFFF_FFFF);
  }

  /** The names that the loop meets as the numbers `ns`, in the order in which they are listed. */
  function SlotNames(ns: seq<nat>, nm: Naming): seq<string> {
    if ns == [] then [] else SlotNames(ns[1..], nm) + [nm.Slot(ns[0])]
  }

  lemma NumbersAppend(es: seq<string>, n: nat, nm: Naming)
    requires nm.Regular() && n < UINT_RANGE
    ensures Numbers(es + [nm.Slot(n)], nm) == [n] + Numbers(es, nm)
  {
    SchemaReadsBack(nm, n);
    assert (es + [nm.Slot(n)])[..|es|] == es;
  }

  lemma {:induction false} SlotNamesRead(c: string, ns: seq<nat>, nm: Naming)
    requires nm.Regular() && c == nm.Current() && forall n | n in ns :: 1 <= n < UINT_RANGE
    ensures Numbers([c] + SlotNames(ns, nm), nm) == ns
    ensures |SlotNames(ns, nm)| == |ns| && forall e | e in SlotNames(ns, nm) :: exists n | n in ns :: e == nm.Slot(n)
  {
    if ns == [] {
      assert [c] + SlotNames(ns, nm) == [c] && [c][..0] == [];
    } else {
      InTail(ns);
      SlotNamesRead(c, ns[1..], nm);
      assert ns[0] in ns;
      NumbersAppend([c] + SlotNames(ns[1..], nm), ns[0], nm);
      assert [c] + SlotNames(ns, nm) == ([c] + SlotNames(ns[1..], nm)) + [nm.Slot(ns[0])];
    }
  }

  lemma {:induction false} SlotNamesAscend(c: string, ns: seq<nat>, nm: Naming)
    requires ListedDown(ns, nm) && forall n | n in ns :: StrLess(c, nm.Slot(n))
    requires nm.Regular() && c == nm.Current() && forall n | n in ns :: 1 <= n < UINT_RANGE
    ensures Ascending([c] + SlotNames(ns, nm))
  {
    var es := [c] + SlotNames(ns, nm);
    if ns == [] {
      assert es == [c];
    } else {
      InTail(ns);
      SlotNamesAscend(c, ns[1..], nm);
      assert es == ([c] + SlotNames(ns[1..], nm)) + [nm.Slot(ns[0])];
      NamesBefore(c, ns[1..], nm.Slot(ns[0]), nm);
      ListedLast([c] + SlotNames(ns[1..], nm), nm.Slot(ns[0]));
    }
  }

  lemma {:induction false} NamesBefore(c: string, ns: seq<nat>, last: string, nm: Naming)
    requires StrLess(c, last) && forall n | n in ns :: StrLess(nm.Slot(n), last)
    ensures forall e | e in [c] + SlotNames(ns, nm) :: StrLess(e, last)
  {
    if ns != [] {
      InTail(ns);
      NamesBefore(c, ns[1..], last, nm);
    }
  }

  lemma ListedLast(es: seq<string>, last: string)
    requires Ascending(es) && forall e | e in es :: StrLess(e, last)
    ensures Ascending(es + [last])
  {
    assert (es + [last])[..|es|] == es;
  }

  lemma CurrentFirst(nm: Naming, n: nat)
    requires nm.programName == nm.prefix
    ensures StrLess(nm.Current(), nm.Slot(n))
  {
    assert nm.Slot(n) == nm.prefix + ("_" + Decimal.Print(n) + SUFFIX);
    StrLessCommonPrefix(nm.prefix, SUFFIX, "_" + Decimal.Print(n) + SUFFIX);
  }

  lemma ByNumber(nm: Naming, a: nat, b: nat)
    requires a < b
    ensures if WithinLead(a, b) then StrLess(nm.Slot(a), nm.Slot(b)) else StrLess(nm.Slot(b), nm.Slot(a))
  {
    PairOrder(nm, a, b);
    StrLessTotal(nm.Slot(a), nm.Slot(b));
    if nm.Slot(a) == nm.Slot(b) { SlotInjective(nm, a, b); }
  }

  lemma MetFirst(n: nat, ns: seq<nat>, nm: Naming)
    requires ListedDown(ns, nm) && forall m | m in ns :: StrLess(nm.Slot(m), nm.Slot(n))
    ensures ListedDown([n] + ns, nm)
  {
    assert ([n] + ns)[1..] == ns;
  }

  lemma FourOrdered(nm: Naming)
    ensures StrLess(nm.Slot(10), nm.Slot(2)) && StrLess(nm.Slot(11), nm.Slot(2)) && StrLess(nm.Slot(12), nm.Slot(2))
    ensures StrLess(nm.Slot(10), nm.Slot(11)) && StrLess(nm.Slot(10), nm.Slot(12)) && StrLess(nm.Slot(11), nm.Slot(12))
  {
    ByNumber(nm, 2, 10);
    ByNumber(nm, 2, 11);
    ByNumber(nm, 2, 12);
    ByNumber(nm, 10, 11);
    ByNumber(nm, 10, 12);
    ByNumber(nm, 11, 12);
  }

  lemma FourListedDown(nm: Naming)
    ensures ListedDown([2, 12, 11, 10], nm)
  {
    FourOrdered(nm);
    FourInOrder(2, 12, 11, 10, nm);
  }

  lemma ThreeInOrder(b: nat, c: nat, d: nat, nm: Naming)
    requires StrLess(nm.Slot(d), nm.Slot(c)) && StrLess(nm.Slot(d), nm.Slot(b)) && StrLess(nm.Slot(c), nm.Slot(b))
    ensures ListedDown([b, c, d], nm)
  {
    MetFirst(d, [], nm);
    MetFirst(c, [d], nm);
    MetFirst(b, [c, d], nm);
    assert [d] + [] == [d] && [c] + [d] == [c, d] && [b] + [c, d] == [b, c, d];
  }

  lemma FourInOrder(a: nat, b: nat, c: nat, d: nat, nm: Naming)
    requires StrLess(nm.Slot(d), nm.Slot(c)) && StrLess(nm.Slot(d), nm.Slot(b)) && StrLess(nm.Slot(d), nm.Slot(a))
    requires StrLess(nm.Slot(c), nm.Slot(b)) && StrLess(nm.Slot(c), nm.Slot(a)) && StrLess(nm.Slot(b), nm.Slot(a))
    ensures ListedDown([a, b, c, d], nm)
  {
    ThreeInOrder(b, c, d, nm);
    MetFirst(a, [b, c, d], nm);
    assert [a] + [b, c, d] == [a, b, c, d];
  }

  /** A directory of a current log and logs with the given numbers. */
  lemma NamesRecognised<T>(files: map<string, T>, nm: Naming, ns: seq<nat>)
    requires nm.Regular() && nm.programName == nm.prefix
    requires ListedDown(ns, nm) && forall n | n in ns :: 1 <= n < UINT_RANGE
    requires forall e :: e in files <==> e in [nm.Current()] + SlotNames(ns, nm)
    ensures Recognised(files, [nm.Current()] + SlotNames(ns, nm), nm)
  {
    var c := nm.Current();
    forall n | n in ns ensures StrLess(c, nm.Slot(n)) { CurrentFirst(nm, n); }
    SlotNamesRead(c, ns, nm);
    SlotNamesAscend(c, ns, nm);
    NamesConform([c] + SlotNames(ns, nm), ns, nm);
  }

  lemma NamesConform(es: seq<string>, ns: seq<nat>, nm: Naming)
    requires nm.programName == nm.prefix && forall n | n in ns :: 1 <= n < UINT_RANGE
    requires forall e | e in es :: e == nm.Current() || exists n | n in ns :: e == nm.Slot(n)
    ensures Conforming(es, nm) && forall e | e in es :: nm.prefix <= e
  {
    forall e | e in es
      ensures nm.prefix <= e && (Unnumbered(e, nm) || exists n | 1 <= n < UINT_RANGE :: e == nm.Slot(n))
    {
      if e != nm.Current() { var n :| n in ns && e == nm.Slot(n); }
    }
  }

  /** The logs 2, 10, 11 and 12, all in range, and a current log: 2 is met first and pulls the index down, which
      then runs below 0. One log ends up in slot 0, and the current log replaces another one in slot 1. */
  lemma IndexWraps<T>(files: map<string, T>, prefix: string)
    requires var nm := Schema(prefix, prefix, 30);
             forall e :: e in files <==> e in [nm.Current()] + SlotNames([2, 12, 11, 10], nm)
    ensures var nm := Schema(prefix, prefix, 30);
            var entries := [nm.Current()] + SlotNames([2, 12, 11, 10], nm);
            && Recognised(files, entries, nm) && Visitable(files, entries)
            && VisitDown(Scan(files, nm.Top(), false), entries, |entries|, nm).index == 0xFFFF_FFFF
            && SlotAt(Rotated(files, entries, nm), nm, 0) == SlotAt(files, nm, 10)
            && !NothingOverwritten(files, entries, nm)
  {
    var nm := Schema(prefix, prefix, 30);
    forall n ensures nm.Slot(n) != nm.Current() { CurrentIsNoSlot(prefix, 30, n); }
    FourListedDown(nm);
    WrapsWhenListed(files, nm, [2, 12, 11, 10]);
  }

  lemma WrapsWhenListed<T>(files: map<string, T>, nm: Naming, ns: seq<nat>)
    requires nm.Regular() && nm.maximum == 30 && nm.programName == nm.prefix
    requires ns == [2, 12, 11, 10] && ListedDown(ns, nm)
    requires forall e :: e in files <==> e in [nm.Current()] + SlotNames(ns, nm)
    ensures var entries := [nm.Current()] + SlotNames(ns, nm);
            && Recognised(files, entries, nm) && Visitable(files, entries)
            && VisitDown(Scan(files, nm.Top(), false), entries, |entries|, nm).index == 0xFFFF_FFFF
            && SlotAt(Rotated(files, entries, nm), nm, 0) == SlotAt(files, nm, 10)
            && !NothingOverwritten(files, entries, nm)
  {
    var c := nm.Current();
    NamesRecognised(files, nm, ns);
    SlotNamesRead(c, ns, nm);
    WrapsFromFour(files, [c] + SlotNames(ns, nm), nm);
  }

  lemma WrapsFromFour<T>(files: map<string, T>, entries: seq<string>, nm: Naming)
    requires Recognised(files, entries, nm) && nm.maximum == 30 && |entries| == 5 && nm.Current() in files
    requires Numbers(entries, nm) == [2, 12, 11, 10]
    ensures Visitable(files, entries)
    ensures VisitDown(Scan(files, nm.Top(), false), entries, |entries|, nm).index == 0xFFFF_FFFF
    ensures SlotAt(Rotated(files, entries, nm), nm, 0) == SlotAt(files, nm, 10)
    ensures !NothingOverwritten(files, entries, nm)
  {
    var loop, slots := LoopOnSlots(files, entries, nm);
    SlotsMirror(files, entries, nm);
    var before := SlotsOf(files, entries, nm);
    FourMoves(before);
    FinalMove(files, entries, nm, loop);
    OverwritingOnSlots(files, entries, nm);
    assert At(slots, 0) == At(loop, nm.Slot(0)) && At(before, 10) == At(files, nm.Slot(10));
  }
}
