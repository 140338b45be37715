/** The log directory reduced to its numbered slots.

    `Rotate` is the renaming loop of the rotation with the file names taken away: `slots` says which
    numbers are in use and what each numbered log holds, `ns` lists the numbers in the order in which the
    loop meets them, and `index` is the loop's moving target. */
module LogSlots {
  import opened Options

  /** POSIX rename: the target is replaced; renaming a file to itself changes nothing. */
  function Move<K, T>(m: map<K, T>, src: K, dst: K): map<K, T>
    requires src in m
  {
    (m - {src})[dst := m[src]]
  }

  function At<K, T>(m: map<K, T>, k: K): Option<T> {
    if k in m then Some(m[k]) else None
  }

  /** The target is one above the number, unless the number has already reached the index. */
  function Target(n: nat, index: nat): nat {
    if n < index then n + 1 else index
  }

  /** Decrement of a 32-bit unsigned counter. */
  function Decrement(index: nat): nat {
    if index == 0 then 0xFFFF_FFFF else index - 1
  }

  ghost predicate Different(ns: seq<nat>) {
    ns == [] || (ns[0] !in ns[1..] && Different(ns[1..]))
  }

  ghost predicate Falling(ns: seq<nat>) {
    ns == [] || ((forall n | n in ns[1..] :: n < ns[0]) && Falling(ns[1..]))
  }

  ghost predicate Descending(ns: seq<nat>) {
    Different(ns) && Falling(ns)
  }

  lemma InTail(ns: seq<nat>)
    requires ns != []
    ensures forall n :: n in ns <==> n == ns[0] || n in ns[1..]
  {
    assert ns == [ns[0]] + ns[1..];
  }

  ghost predicate Listed<T>(slots: map<nat, T>, ns: seq<nat>) {
    forall n | n in ns :: n in slots
  }

  /** One pass of the loop. `top` is the highest slot that is kept, `full` says that the directory
      lists more than `top` files. */
  function Rotate<T>(slots: map<nat, T>, index: nat, ns: seq<nat>, top: nat, full: bool): (r: (map<nat, T>, nat))
    requires Listed(slots, ns) && Different(ns)
    decreases |ns|
  {
    if ns == [] then (slots, index)
    else
      InTail(ns);
      var n := ns[0];
      var target := Target(n, index);
      if n >= top && full then
        Rotate(slots - {n}, target, ns[1..], top, full)
      else
        Rotate(Move(slots, n, target), Decrement(target), ns[1..], top, full)
  }

  /** No rename of the pass replaces another file. */
  ghost predicate Safe<T>(slots: map<nat, T>, index: nat, ns: seq<nat>, top: nat, full: bool)
    requires Listed(slots, ns) && Different(ns)
    decreases |ns|
  {
    ns == [] ||
    (InTail(ns);
     var n := ns[0];
     var target := Target(n, index);
     if n >= top && full then
       Safe(slots - {n}, target, ns[1..], top, full)
     else
       && (target in slots ==> target == n)
       && Safe(Move(slots, n, target), Decrement(target), ns[1..], top, full))
  }

  /** The numbers that are renamed and not deleted, in the order in which the loop meets them. */
  function Surviving(ns: seq<nat>, top: nat, full: bool): seq<nat> {
    if ns == [] then []
    else if ns[0] >= top && full then Surviving(ns[1..], top, full)
    else [ns[0]] + Surviving(ns[1..], top, full)
  }

  lemma {:induction false} SurvivingAre(ns: seq<nat>, top: nat, full: bool)
    ensures forall k :: k in Surviving(ns, top, full) <==> k in ns && !(k >= top && full)
    ensures Different(ns) ==> Different(Surviving(ns, top, full))
    ensures |Surviving(ns, top, full)| <= |ns|
  {
    if ns != [] {
      InTail(ns);
      SurvivingAre(ns[1..], top, full);
    }
  }

  lemma {:induction false} AllSurvive(ns: seq<nat>, top: nat)
    ensures Surviving(ns, top, false) == ns
  {
    if ns != [] { AllSurvive(ns[1..], top); }
  }

  /** The rename targets of the pass, in the order in which they are used. */
  function Targets(index: nat, ns: seq<nat>, top: nat, full: bool): (ts: seq<nat>)
    ensures |ts| == |Surviving(ns, top, full)|
    decreases |ns|
  {
    if ns == [] then []
    else
      var target := Target(ns[0], index);
      if ns[0] >= top && full then Targets(target, ns[1..], top, full)
      else [target] + Targets(Decrement(target), ns[1..], top, full)
  }

  /** The highest free slot among 1..top, or 0 when all of them are taken. */
  function HighestFree<T>(slots: map<nat, T>, top: nat): (g: nat)
    ensures g <= top
    ensures g == 0 || g !in slots
    ensures forall j | g < j <= top :: j in slots
  {
    if top == 0 || top !in slots then top else HighestFree(slots, top - 1)
  }

  /** Every log below the free slot `g` has moved up by one; the logs above it stayed. */
  ghost predicate LiftedBelow<T>(after: map<nat, T>, before: map<nat, T>, g: nat) {
    forall j: nat {:trigger At(after, j)} ::
      At(after, j) == if j > g then At(before, j) else if j == 0 then None else At(before, j - 1)
  }

  ghost predicate AllBetween(ns: seq<nat>, lo: nat, hi: nat) {
    forall n | n in ns :: lo <= n <= hi
  }

  /** The slots at or below `index` are exactly those the loop has still to visit. */
  ghost predicate Pending<T>(slots: map<nat, T>, index: nat, ns: seq<nat>) {
    forall n :: n <= index && n in slots ==> n in ns
  }

  /** One rename leaves the loop ready for the next number, one slot further down. */
  lemma StepKeepsPending<T>(slots: map<nat, T>, index: nat, ns: seq<nat>)
    requires ns != [] && Listed(slots, ns) && Descending(ns) && AllBetween(ns, 1, index) && Pending(slots, index, ns)
    ensures var next := Move(slots, ns[0], Target(ns[0], index));
            && Target(ns[0], index) >= 1
            && Listed(next, ns[1..]) && Descending(ns[1..])
            && AllBetween(ns[1..], 1, Target(ns[0], index) - 1) && Pending(next, Target(ns[0], index) - 1, ns[1..])
    ensures Target(ns[0], index) in slots ==> Target(ns[0], index) == ns[0]
  {
    InTail(ns);
    assert ns[0] in ns;
  }

  lemma {:induction false} RotateLifts<T>(slots: map<nat, T>, index: nat, ns: seq<nat>, top: nat, full: bool)
    requires Listed(slots, ns) && Descending(ns) && AllBetween(ns, 1, index) && Pending(slots, index, ns)
    requires full ==> forall n | n in ns :: n < top
    ensures LiftedBelow(Rotate(slots, index, ns, top, full).0, slots, HighestFree(slots, index))
    decreases |ns|
  {
    if ns == [] {
      assert HighestFree(slots, index) == index;
    } else {
      StepKeepsPending(slots, index, ns);
      InTail(ns);
      var next := Move(slots, ns[0], Target(ns[0], index));
      RotateLifts(next, Target(ns[0], index) - 1, ns[1..], top, full);
      assert forall m :: ns[0] < m <= index ==> m !in slots;
      assert ns[0] in ns;
      LiftComposes(slots, index, ns[0], Rotate(slots, index, ns, top, full).0);
    }
  }

  lemma LiftComposes<T>(slots: map<nat, T>, index: nat, n: nat, after: map<nat, T>)
    requires n in slots && 1 <= n <= index
    requires forall m :: n < m <= index ==> m !in slots
    requires var target := Target(n, index);
             var next := Move(slots, n, target);
             LiftedBelow(after, next, HighestFree(next, target - 1))
    ensures LiftedBelow(after, slots, HighestFree(slots, index))
  {
    var next := Move(slots, n, Target(n, index));
    if n == index {
      assert next == slots;
    } else {
      assert HighestFree(slots, index) == index;
      assert HighestFree(next, n) == n;
      forall j: nat
        ensures At(after, j) == if j > index then At(slots, j) else if j == 0 then None else At(slots, j - 1)
      {
        assert At(after, j) == if j > n then At(next, j) else if j == 0 then None else At(next, j - 1);
      }
    }
  }

  lemma {:induction false} SafeInRange<T>(slots: map<nat, T>, index: nat, ns: seq<nat>, top: nat, full: bool)
    requires Listed(slots, ns) && Descending(ns) && AllBetween(ns, 1, index) && Pending(slots, index, ns)
    requires full ==> forall n | n in ns :: n < top
    ensures Safe(slots, index, ns, top, full)
    decreases |ns|
  {
    if ns == [] {
    } else {
      StepKeepsPending(slots, index, ns);
      InTail(ns);
      assert ns[0] in ns;
      SafeInRange(Move(slots, ns[0], Target(ns[0], index)), Target(ns[0], index) - 1, ns[1..], top, full);
    }
  }

  /** A directory with more than `top` files: the numbers from `top` on are deleted, all others move up by one. */
  lemma {:induction false} RotateFull<T>(slots: map<nat, T>, ns: seq<nat>, top: nat)
    requires Listed(slots, ns) && Descending(ns)
    requires forall n | n in slots :: n >= 1 && n in ns
    ensures LiftedBelow(Rotate(slots, top, ns, top, true).0, Kept(slots, top), top)
    ensures Safe(slots, top, ns, top, true)
    decreases |ns|
  {
    if ns != [] && ns[0] >= top {
      InTail(ns);
      assert Kept(slots - {ns[0]}, top) == Kept(slots, top);
      RotateFull(slots - {ns[0]}, ns[1..], top);
    } else {
      if ns != [] { InTail(ns); }
      assert Kept(slots, top) == slots;
      assert HighestFree(slots, top) == top;
      RotateLifts(slots, top, ns, top, true);
      SafeInRange(slots, top, ns, top, true);
    }
  }

  function Kept<T>(slots: map<nat, T>, top: nat): map<nat, T> {
    map n | n in slots && n < top :: slots[n]
  }

  /** How many of the numbers lie above `index`. */
  function CountAbove(ns: seq<nat>, index: nat): nat {
    if ns == [] then 0 else (if ns[0] > index then 1 else 0) + CountAbove(ns[1..], index)
  }

  lemma {:induction false} CountAboveLower(ns: seq<nat>, index: nat)
    requires index >= 1 && index !in ns
    ensures CountAbove(ns, index) == CountAbove(ns, index - 1)
  {
    if ns != [] { CountAboveLower(ns[1..], index); }
  }

  lemma {:induction false} CountAboveNone(ns: seq<nat>, index: nat)
    requires forall n | n in ns :: n <= index
    ensures CountAbove(ns, index) == 0
  {
    if ns != [] {
      assert ns[0] in ns && forall m | m in ns[1..] :: m in ns;
      CountAboveNone(ns[1..], index);
    }
  }

  /** The `k` slots that end at `index` hold none of the logs. */
  ghost predicate WindowFree(ns: seq<nat>, index: nat, k: nat) {
    forall j | index - k < j <= index :: j !in ns
  }

  /** Each of the `k` logs numbered above `index` needs one of the `k` slots ending at `index`; the pass
      replaces a file exactly when one of those slots is taken. */
  lemma {:induction false} SafeIff<T>(slots: map<nat, T>, index: nat, ns: seq<nat>, top: nat)
    requires Listed(slots, ns) && Descending(ns) && Pending(slots, index, ns) && |ns| <= index
    requires forall n | n in ns :: n >= 1
    ensures Safe(slots, index, ns, top, false) <==> WindowFree(ns, index, CountAbove(ns, index))
    decreases |ns|
  {
    if ns == [] {
    } else if ns[0] <= index {
      forall n | n in ns ensures n <= index { InTail(ns); }
      CountAboveNone(ns, index);
      SafeInRange(slots, index, ns, top, false);
    } else if index in slots {
      assert CountAbove(ns, index) >= 1;
      assert index in ns;
    } else {
      var next := SafeStep(slots, index, ns, top);
      InTail(ns);
      SafeIff(next, index - 1, ns[1..], top);
      CountAboveLower(ns[1..], index);
      WindowDrops(slots, index, ns, CountAbove(ns[1..], index - 1));
    }
  }

  /** A log numbered above a free `index` moves there. */
  lemma SafeStep<T>(slots: map<nat, T>, index: nat, ns: seq<nat>, top: nat) returns (next: map<nat, T>)
    requires ns != [] && Listed(slots, ns) && Descending(ns) && Pending(slots, index, ns)
    requires 1 <= index < ns[0] && index !in slots
    ensures Listed(next, ns[1..]) && Descending(ns[1..]) && Pending(next, index - 1, ns[1..])
    ensures Safe(slots, index, ns, top, false) == Safe(next, index - 1, ns[1..], top, false)
  {
    InTail(ns);
    next := Move(slots, ns[0], index);
  }

  lemma WindowDrops<T>(slots: map<nat, T>, index: nat, ns: seq<nat>, k: nat)
    requires ns != [] && Listed(slots, ns) && Descending(ns) && 1 <= index < ns[0] && index !in slots
    ensures WindowFree(ns[1..], index - 1, k) <==> WindowFree(ns, index, 1 + k)
  {
    InTail(ns);
    if WindowFree(ns[1..], index - 1, k) {
      forall j | index - (1 + k) < j <= index ensures j !in ns {
        assert j in ns ==> j in slots;
      }
    }
  }

  /** When the numbers are met in descending order, the index never wraps: the targets strictly decrease and
      stay positive. */
  lemma {:induction false} TargetsDescend(index: nat, ns: seq<nat>, top: nat, lo: nat)
    requires Descending(ns) && (forall n | n in ns :: n >= 1) && 1 <= lo <= 2 && |ns| + lo <= index + 1
    ensures Descending(Targets(index, ns, top, false))
    ensures AllBetween(Targets(index, ns, top, false), lo, index)
    decreases |ns|
  {
    if ns == [] {
    } else {
      InTail(ns);
      assert ns[0] in ns;
      var target := Target(ns[0], index);
      if target == ns[0] + 1 { BelowHead(ns); }
      TargetsDescend(target - 1, ns[1..], top, lo);
      ConsTargets(target, Targets(target - 1, ns[1..], top, false), lo, index);
    }
  }

  /** The same with too many files; only the numbers that survive count. */
  lemma {:induction false} FullTargetsDescend(index: nat, ns: seq<nat>, top: nat)
    requires Descending(Surviving(ns, top, true)) && index <= top
    requires forall k | k in Surviving(ns, top, true) :: 1 <= k < index
    ensures Descending(Targets(index, ns, top, true))
    ensures AllBetween(Targets(index, ns, top, true), 2, index)
    decreases |ns|
  {
    if ns == [] {
    } else if ns[0] >= top {
      FullTargetsDescend(index, ns[1..], top);
    } else {
      var n, ks := ns[0], Surviving(ns, top, true);
      HeadSurvives(ns, top, true);
      InTail(ks);
      FullTargetsDescend(n, ns[1..], top);
      ConsTargets(n + 1, Targets(n, ns[1..], top, true), 2, index);
    }
  }

  lemma HeadSurvives(ns: seq<nat>, top: nat, full: bool)
    requires ns != [] && !(ns[0] >= top && full)
    ensures var ks := Surviving(ns, top, full); ks[0] == ns[0] && ks[1..] == Surviving(ns[1..], top, full)
  {
  }

  lemma ConsTargets(target: nat, rest: seq<nat>, lo: nat, index: nat)
    requires 1 <= lo <= target <= index && Descending(rest) && AllBetween(rest, lo, target - 1)
    ensures Descending([target] + rest) && AllBetween([target] + rest, lo, index)
  {
    assert ([target] + rest)[1..] == rest;
  }

  /** Distinct positive numbers below `ns[0]` are fewer than `ns[0]`. */
  lemma {:induction false} BelowHead(ns: seq<nat>)
    requires Descending(ns) && ns != [] && forall n | n in ns :: n >= 1
    ensures |ns| <= ns[0]
    decreases |ns|
  {
    InTail(ns);
    assert ns[0] in ns;
    if |ns| > 1 {
      assert ns[1] in ns[1..];
      BelowHead(ns[1..]);
    }
  }

  /** After the pass every numbered log sits in one of the targets. */
  lemma {:induction false} RotateOccupies<T>(slots: map<nat, T>, index: nat, ns: seq<nat>, top: nat, full: bool)
    requires Listed(slots, ns) && Different(ns)
    ensures forall j | j in Rotate(slots, index, ns, top, full).0 ::
              j in Targets(index, ns, top, full) || (j in slots && j !in ns)
    decreases |ns|
  {
    if ns == [] {
    } else {
      InTail(ns);
      var target := Target(ns[0], index);
      if ns[0] >= top && full {
        RotateOccupies(slots - {ns[0]}, target, ns[1..], top, full);
      } else {
        RotateOccupies(Move(slots, ns[0], target), Decrement(target), ns[1..], top, full);
      }
    }
  }

  /** Pigeonhole: numbers that take all the slots 1..top are at least `top` many. */
  lemma {:induction false} AllTaken(ns: seq<nat>, top: nat)
    requires Descending(ns) && forall j | 1 <= j <= top :: j in ns
    ensures |ns| >= top
    decreases top
  {
    if top > 0 {
      assert top in ns;
      InTail(ns);
      AllTaken(ns[1..], top - 1);
    }
  }

  // ---------- passes in any order ----------

  /** A log that the pass does not meet stays, as long as nothing is overwritten. */
  lemma {:induction false} Stays<T>(slots: map<nat, T>, index: nat, ns: seq<nat>, top: nat, full: bool, j: nat)
    requires Listed(slots, ns) && Different(ns) && Safe(slots, index, ns, top, full)
    requires j in slots && j !in ns
    ensures At(Rotate(slots, index, ns, top, full).0, j) == At(slots, j)
    decreases |ns|
  {
    if ns != [] {
      InTail(ns);
      var target := Target(ns[0], index);
      if ns[0] >= top && full {
        Stays(slots - {ns[0]}, target, ns[1..], top, full, j);
      } else {
        Stays(Move(slots, ns[0], target), Decrement(target), ns[1..], top, full, j);
      }
    }
  }

  /** A pass that overwrites nothing, in whatever order, delivers each surviving log to its target. */
  lemma {:induction false} SafeDelivers<T>(slots: map<nat, T>, index: nat, ns: seq<nat>, top: nat, full: bool, i: nat)
    requires Listed(slots, ns) && Different(ns) && Safe(slots, index, ns, top, full)
    requires i < |Surviving(ns, top, full)|
    ensures Surviving(ns, top, full)[i] in slots
    ensures At(Rotate(slots, index, ns, top, full).0, Targets(index, ns, top, full)[i])
         == At(slots, Surviving(ns, top, full)[i])
    decreases |ns|
  {
    InTail(ns);
    var n, target := ns[0], Target(ns[0], index);
    if n >= top && full {
      SafeDelivers(slots - {n}, target, ns[1..], top, full, i);
      SurvivingAre(ns[1..], top, full);
      assert Surviving(ns[1..], top, full)[i] in Surviving(ns[1..], top, full);
    } else {
      HeadSurvives(ns, top, full);
      var next := Move(slots, n, target);
      if i == 0 {
        Stays(next, Decrement(target), ns[1..], top, full, target);
      } else {
        SafeDelivers(next, Decrement(target), ns[1..], top, full, i - 1);
        SurvivingAre(ns[1..], top, full);
        assert Surviving(ns[1..], top, full)[i - 1] in Surviving(ns[1..], top, full);
      }
    }
  }

  /** How many of the first numbers descend. */
  function RunLength(ks: seq<nat>): (k: nat)
    ensures k <= |ks|
  {
    if |ks| <= 1 then |ks| else if ks[1] < ks[0] then 1 + RunLength(ks[1..]) else 1
  }

  lemma {:induction false} RunBelow(ks: seq<nat>)
    requires ks != [] && forall k | k in ks :: k >= 1
    ensures RunLength(ks) <= ks[0]
  {
    assert ks[0] in ks;
    if |ks| > 1 && ks[1] < ks[0] {
      assert forall k | k in ks[1..] :: k in ks;
      RunBelow(ks[1..]);
    }
  }

  lemma {:induction false} FirstTarget(index: nat, ns: seq<nat>, top: nat, full: bool)
    requires Surviving(ns, top, full) != [] && (full ==> index <= top)
    ensures Targets(index, ns, top, full)[0] == Target(Surviving(ns, top, full)[0], index)
    decreases |ns|
  {
    if ns[0] >= top && full { FirstTarget(index, ns[1..], top, full); }
  }

  lemma {:induction false} AscentExists(ks: seq<nat>)
    requires Different(ks) && !Descending(ks)
    ensures RunLength(ks) < |ks|
  {
    assert |ks| == 1 ==> Falling(ks[1..]);
    if |ks| > 1 && ks[1] < ks[0] {
      InTail(ks[1..]);
      AscentExists(ks[1..]);
    }
  }

  predicate AllPositive(ks: seq<nat>) {
    forall k | k in ks :: k >= 1
  }

  /** Two logs that are met one after the other, the lower number first, and get descending targets. */
  predicate Reversed(ks: seq<nat>, ts: seq<nat>, r: nat) {
    1 <= r < |ks| == |ts| && ks[r - 1] <= ks[r] && ts[r] < ts[r - 1]
  }

  /** Where the surviving numbers first ascend, the targets still descend: the two logs change order. */
  lemma {:induction false} FirstAscent(index: nat, ns: seq<nat>, top: nat, full: bool)
    requires AllPositive(Surviving(ns, top, full)) && (full ==> index <= top)
    requires RunLength(Surviving(ns, top, full)) <= index
             && RunLength(Surviving(ns, top, full)) < |Surviving(ns, top, full)|
    ensures var ks := Surviving(ns, top, full); Reversed(ks, Targets(index, ns, top, full), RunLength(ks))
    decreases |ns|
  {
    var n, ks := ns[0], Surviving(ns, top, full);
    if n >= top && full {
      FirstAscent(index, ns[1..], top, full);
    } else {
      HeadSurvives(ns, top, full);
      if ks[0] <= ks[1] {
        AscentAtHead(index, ns, top, full);
      } else {
        DescentAtHead(ks, index);
        FirstAscent(Target(n, index) - 1, ns[1..], top, full);
        AscentBehind(index, ns, top, full, RunLength(ks[1..]));
      }
    }
  }

  lemma AscentBehind(index: nat, ns: seq<nat>, top: nat, full: bool, r: nat)
    requires ns != [] && !(ns[0] >= top && full) && Target(ns[0], index) >= 1
    requires Reversed(Surviving(ns[1..], top, full), Targets(Target(ns[0], index) - 1, ns[1..], top, full), r)
    ensures Reversed(Surviving(ns, top, full), Targets(index, ns, top, full), r + 1)
  {
    var target := Target(ns[0], index);
    var ks, ts := Surviving(ns[1..], top, full), Targets(target - 1, ns[1..], top, full);
    assert Surviving(ns, top, full) == [ns[0]] + ks && Targets(index, ns, top, full) == [target] + ts;
  }

  lemma AscentAtHead(index: nat, ns: seq<nat>, top: nat, full: bool)
    requires ns != [] && !(ns[0] >= top && full) && index >= 1 && (full ==> index <= top)
    requires var ks := Surviving(ns, top, full); |ks| > 1 && ks[0] <= ks[1]
    ensures Reversed(Surviving(ns, top, full), Targets(index, ns, top, full), 1)
  {
    var target := Target(ns[0], index);
    FirstTarget(target - 1, ns[1..], top, full);
    assert Targets(index, ns, top, full) == [target] + Targets(target - 1, ns[1..], top, full);
  }

  lemma DescentAtHead(ks: seq<nat>, index: nat)
    requires |ks| > 1 && ks[1] < ks[0] && AllPositive(ks) && RunLength(ks) <= index
    ensures AllPositive(ks[1..]) && RunLength(ks[1..]) + 1 == RunLength(ks)
            && RunLength(ks[1..]) + 1 <= Target(ks[0], index)
  {
    InTail(ks);
    RunBelow(ks[1..]);
  }

  /** The loop meets `a` before `b`. */
  ghost predicate Precedes(ns: seq<nat>, a: nat, b: nat) {
    ns != [] && ((ns[0] == a && b in ns[1..]) || Precedes(ns[1..], a, b))
  }

  lemma {:induction false} PrecedesIn(ns: seq<nat>, a: nat, b: nat)
    ensures Precedes(ns, a, b) ==> a in ns && b in ns
  {
    if ns != [] { PrecedesIn(ns[1..], a, b); }
  }

  // ---------- overwriting, in any order ----------

  /** No target is the number of a log that is met later. */
  ghost predicate NoneAhead(ns: seq<nat>, ks: seq<nat>, ts: seq<nat>) {
    |ks| == |ts| && forall i | 0 <= i < |ks| :: !Precedes(ns, ks[i], ts[i])
  }

  /** Among the slots in use, the targets are only those of the given logs. */
  ghost predicate OnlyMet<T>(slots: map<nat, T>, ns: seq<nat>, ts: seq<nat>) {
    forall t | t in ts && t in slots :: t in ns
  }

  /** A pass in whatever order replaces a file exactly when a target belongs to a log that it meets later or does
      not meet, or is used twice. */
  lemma {:induction false} SafeAnyOrderIff<T>(slots: map<nat, T>, index: nat, ns: seq<nat>, top: nat, full: bool)
    requires Listed(slots, ns) && Different(ns)
    ensures var ks, ts := Surviving(ns, top, full), Targets(index, ns, top, full);
            Safe(slots, index, ns, top, full) <==> NoneAhead(ns, ks, ts) && OnlyMet(slots, ns, ts) && Different(ts)
    decreases |ns|
  {
    if ns != [] {
      InTail(ns);
      var n, target := ns[0], Target(ns[0], index);
      var ks, ts := Surviving(ns[1..], top, full), Targets(index, ns, top, full);
      SurvivingAre(ns[1..], top, full);
      if n >= top && full {
        SafeAnyOrderIff(slots - {n}, target, ns[1..], top, full);
        AheadOfHead(ns, ks, ts);
      } else {
        var rest := Targets(Decrement(target), ns[1..], top, full);
        assert ts == [target] + rest && Surviving(ns, top, full) == [n] + ks;
        AheadWithHead(ns, target, ks, rest);
        TargetsInUse(slots, ns, target, rest);
        if target in slots ==> target == n {
          SafeAnyOrderIff(Move(slots, n, target), Decrement(target), ns[1..], top, full);
        }
      }
    }
  }

  lemma AheadOfHead(ns: seq<nat>, ks: seq<nat>, ts: seq<nat>)
    requires ns != [] && Different(ns) && |ks| == |ts| && forall k | k in ks :: k in ns[1..]
    ensures NoneAhead(ns, ks, ts) <==> NoneAhead(ns[1..], ks, ts)
  {
    forall i | 0 <= i < |ks| ensures Precedes(ns, ks[i], ts[i]) <==> Precedes(ns[1..], ks[i], ts[i]) {
      assert ks[i] in ks;
    }
  }

  lemma AheadCons(ns: seq<nat>, ks: seq<nat>, ts: seq<nat>)
    requires |ks| == |ts| > 0
    ensures NoneAhead(ns, ks, ts) <==> !Precedes(ns, ks[0], ts[0]) && NoneAhead(ns, ks[1..], ts[1..])
  {
    if !Precedes(ns, ks[0], ts[0]) && NoneAhead(ns, ks[1..], ts[1..]) {
      forall i | 0 < i < |ks| ensures !Precedes(ns, ks[i], ts[i]) {
        assert !Precedes(ns, ks[1..][i - 1], ts[1..][i - 1]);
      }
    }
  }

  lemma AheadWithHead(ns: seq<nat>, target: nat, ks: seq<nat>, ts: seq<nat>)
    requires ns != [] && Different(ns) && |ks| == |ts| && forall k | k in ks :: k in ns[1..]
    ensures NoneAhead(ns, [ns[0]] + ks, [target] + ts) <==> target !in ns[1..] && NoneAhead(ns[1..], ks, ts)
  {
    AheadOfHead(ns, ks, ts);
    PrecedesIn(ns[1..], ns[0], target);
    AheadCons(ns, [ns[0]] + ks, [target] + ts);
    assert ([ns[0]] + ks)[1..] == ks && ([target] + ts)[1..] == ts;
  }

  lemma TargetsInUse<T>(slots: map<nat, T>, ns: seq<nat>, target: nat, ts: seq<nat>)
    requires ns != [] && Listed(slots, ns) && Different(ns)
    ensures (target in slots && target !in ns) ==> !OnlyMet(slots, ns, [target] + ts)
    ensures (target in slots ==> target == ns[0]) ==>
              (OnlyMet(slots, ns, [target] + ts) && Different([target] + ts)
               <==> OnlyMet(Move(slots, ns[0], target), ns[1..], ts) && Different(ts))
  {
    InTail(ns);
    InTail([target] + ts);
    assert ([target] + ts)[1..] == ts;
  }

  /** With too many files and surviving numbers met in descending order, the pass replaces a file exactly when
      it moves number top - 1 up before it has deleted number top. */
  lemma {:induction false} SafeFullIff<T>(slots: map<nat, T>, index: nat, ns: seq<nat>, top: nat)
    requires Listed(slots, ns) && Different(ns) && Pending(slots, index, ns) && index <= top
    requires Descending(Surviving(ns, top, true)) && AllBetween(Surviving(ns, top, true), 1, index)
    ensures Safe(slots, index, ns, top, true) <==> !(index == top && top > 0 && Precedes(ns, top - 1, top))
    decreases |ns|
  {
    if ns == [] {
    } else {
      InTail(ns);
      var n := ns[0];
      if n >= top {
        SafeFullIff(slots - {n}, index, ns[1..], top);
      } else {
        HeadSurvives(ns, top, true);
        InTail(Surviving(ns, top, true));
        FullStep(slots, index, ns, top);
        var target := Target(n, index);
        if target !in slots || target == n {
          SafeFullIff(Move(slots, n, target), target - 1, ns[1..], top);
        }
      }
    }
  }

  lemma FullStep<T>(slots: map<nat, T>, index: nat, ns: seq<nat>, top: nat)
    requires ns != [] && Listed(slots, ns) && Different(ns) && Pending(slots, index, ns) && index <= top
    requires ns[0] < top && 1 <= ns[0] <= index
    requires var ks := Surviving(ns[1..], top, true); AllBetween(ks, 1, ns[0] - 1)
    ensures var target := Target(ns[0], index);
            && 1 <= target
            && (target in slots && target != ns[0] <==> index == top && Precedes(ns, top - 1, top))
            && Listed(Move(slots, ns[0], target), ns[1..]) && Pending(Move(slots, ns[0], target), target - 1, ns[1..])
            && target - 1 < top
  {
    InTail(ns);
    var n, target := ns[0], Target(ns[0], index);
    if target != n {
      assert target == n + 1;
      assert target in slots ==> target in ns[1..];
    }
    PrecedesIn(ns[1..], top - 1, top);
    SurvivingAre(ns[1..], top, true);
  }
}
