/** Regular expressions as `std::regex` (ECMAScript grammar) uses them: what language an expression
    denotes, and the backtracking matcher that decides which text each group captures. */
module Regex {
  import opened Options

  datatype CharClass =
    | One(c: char)
    | Range(lo: char, hi: char)
    | Either(a: CharClass, b: CharClass)
    | Except(a: CharClass)
  {
    predicate Has(x: char) {
      match this
      case One(c) => x == c
      case Range(lo, hi) => lo <= x <= hi
      case Either(a, b) => a.Has(x) || b.Has(x)
      case Except(a) => !a.Has(x)
    }
  }

  /** `[[:digit:]]`, `[[:alpha:]]` and `[[:alnum:]]` of the "C" locale, and `.` */
  const DIGIT := Range('0', '9')
  const ALPHA := Either(Range('a', 'z'), Range('A', 'Z'))
  const ALNUM := Either(DIGIT, ALPHA)
  const ANY := Except(Either(One('\n'), One('\r')))

  predicate AllIn(cls: CharClass, s: string) {
    forall i | 0 <= i < |s| :: cls.Has(s[i])
  }

  predicate OneLine(s: string) {
    AllIn(ANY, s)
  }

  lemma ClassesAre(c: char)
    ensures DIGIT.Has(c) <==> '0' <= c <= '9'
    ensures ALPHA.Has(c) <==> 'a' <= c <= 'z' || 'A' <= c <= 'Z'
    ensures ALNUM.Has(c) <==> '0' <= c <= '9' || 'a' <= c <= 'z' || 'A' <= c <= 'Z'
    ensures ANY.Has(c) <==> c != '\n' && c != '\r'
  {
    assert Either(One('\n'), One('\r')).Has(c) <==> c == '\n' || c == '\r';
  }

  /** Text without a line terminator. */
  lemma OneLineIff(s: string)
    ensures OneLine(s) <==> '\n' !in s && '\r' !in s
  {
    forall i | 0 <= i < |s| ensures ANY.Has(s[i]) <==> s[i] != '\n' && s[i] != '\r' { ClassesAre(s[i]); }
  }

  datatype Regex =
    | Empty
    | Chr(cls: CharClass)
    | Cat(first: Regex, second: Regex)
    | Alt(left: Regex, right: Regex)
    | Rep(body: Regex, min: nat, max: Option<nat>)
    | Group(number: nat, body: Regex)

  // ---------- the language of an expression ----------

  function Flatten(ps: seq<string>): string {
    if ps == [] then "" else ps[0] + Flatten(ps[1..])
  }

  ghost predicate Within(n: nat, min: nat, max: Option<nat>) {
    min <= n && (max.Some? ==> n <= max.value)
  }

  ghost predicate Matches(r: Regex, s: string)
    decreases r, 0
  {
    match r
    case Empty => s == ""
    case Chr(cls) => |s| == 1 && cls.Has(s[0])
    case Cat(a, b) => exists x, y :: s == x + y && Matches(a, x) && Matches(b, y)
    case Alt(a, b) => Matches(a, s) || Matches(b, s)
    case Rep(body, min, max) => exists ps :: Within(|ps|, min, max) && AllMatch(body, ps) && s == Flatten(ps)
    case Group(_, body) => Matches(body, s)
  }

  ghost predicate AllMatch(r: Regex, ps: seq<string>)
    decreases r, 1
  {
    forall p | p in ps :: Matches(r, p)
  }

  // ---------- the matcher ----------

  /** What remains to be matched. `Close` ends a group that began at `from`; `Again` continues a repetition
      whose last round began at `from` and must not have been empty. */
  datatype Item =
    | Expr(r: Regex)
    | Close(number: nat, from: nat)
    | Again(body: Regex, min: nat, max: Option<nat>, from: nat)

  datatype Stack = Done | Push(item: Item, rest: Stack)

  type Captures = map<nat, string>

  function OneLess(max: Option<nat>): Option<nat> {
    if max.Some? && max.value > 0 then Some(max.value - 1) else max
  }

  function Cost(r: Regex): (c: nat)
    ensures c >= 1
  {
    match r
    case Empty => 1
    case Chr(_) => 1
    case Cat(a, b) => 1 + Cost(a) + Cost(b)
    case Alt(a, b) => 1 + Cost(a) + Cost(b)
    case Rep(body, min, _) => RepCost(Cost(body), min)
    case Group(_, body) => 2 + Cost(body)
  }

  function RepCost(c: nat, min: nat): (d: nat)
    ensures d >= c + 3
  {
    if min == 0 then c + 3 else c + 1 + RepCost(c, min - 1)
  }

  function ItemCost(item: Item, i: nat): nat {
    match item
    case Expr(r) => Cost(r)
    case Close(_, _) => 1
    case Again(body, min, _, from) => if from < i then 1 + RepCost(Cost(body), min) else 1
  }

  function StackCost(k: Stack, i: nat): nat {
    if k.Done? then 0 else ItemCost(k.item, i) + StackCost(k.rest, i)
  }

  lemma PairCost(a: Item, b: Item, rest: Stack, i: nat)
    ensures StackCost(Push(a, Push(b, rest)), i) == ItemCost(a, i) + ItemCost(b, i) + StackCost(rest, i)
  {
  }

  /** Depth-first search in ECMAScript order: the left alternative first, repetitions as long as possible
      first, no empty rounds once the minimum is reached. The first way to reach the end of `s` wins. */
  function Run(k: Stack, s: string, i: nat, caps: Captures): Option<Captures>
    requires i <= |s|
    decreases |s| - i, StackCost(k, i)
  {
    match k
    case Done => if i == |s| then Some(caps) else None
    case Push(Close(n, from), rest) =>
      Run(rest, s, i, caps[n := if from <= i then s[from..i] else ""])
    case Push(Again(body, min, max, from), rest) =>
      if from < i then Run(Push(Expr(Rep(body, min, max)), rest), s, i, caps) else None
    case Push(Expr(r), rest) =>
      match r
      case Empty => Run(rest, s, i, caps)
      case Chr(cls) => if i < |s| && cls.Has(s[i]) then Run(rest, s, i + 1, caps) else None
      case Cat(a, b) =>
        PairCost(Expr(a), Expr(b), rest, i);
        Run(Push(Expr(a), Push(Expr(b), rest)), s, i, caps)
      case Alt(a, b) =>
        var first := Run(Push(Expr(a), rest), s, i, caps);
        if first.Some? then first else Run(Push(Expr(b), rest), s, i, caps)
      case Group(n, body) =>
        PairCost(Expr(body), Close(n, i), rest, i);
        Run(Push(Expr(body), Push(Close(n, i), rest)), s, i, caps)
      case Rep(body, min, max) =>
        if max == Some(0) then
          if min == 0 then Run(rest, s, i, caps) else None
        else if min > 0 then
          PairCost(Expr(body), Expr(Rep(body, min - 1, OneLess(max))), rest, i);
          Run(Push(Expr(body), Push(Expr(Rep(body, min - 1, OneLess(max))), rest)), s, i, caps)
        else
          PairCost(Expr(body), Again(body, 0, OneLess(max), i), rest, i);
          var more := Run(Push(Expr(body), Push(Again(body, 0, OneLess(max), i), rest)), s, i, caps);
          if more.Some? then more else Run(rest, s, i, caps)
  }

  /** `std::regex_match`: the captures of the first way to match all of `s`. */
  function Match(r: Regex, s: string): Option<Captures> {
    Run(Push(Expr(r), Done), s, 0, map[])
  }

  // ---------- the matcher decides the language ----------

  ghost predicate Accepts(k: Stack, s: string, i: nat)
    requires i <= |s|
    decreases k
  {
    match k
    case Done => i == |s|
    case Push(Close(_, _), rest) => Accepts(rest, s, i)
    case Push(Expr(r), rest) => exists j | i <= j <= |s| :: Matches(r, s[i..j]) && Accepts(rest, s, j)
    case Push(Again(body, min, max, from), rest) =>
      from < i && exists j | i <= j <= |s| :: Matches(Rep(body, min, max), s[i..j]) && Accepts(rest, s, j)
  }

  lemma Slices(s: string, i: nat, j: nat, x: string, y: string) returns (m: nat)
    requires i <= j <= |s| && s[i..j] == x + y
    ensures i <= m <= j && s[i..m] == x && s[m..j] == y
  {
    m := i + |x|;
    assert s[i..m] == s[i..j][..|x|];
    assert s[m..j] == s[i..j][|x|..];
  }

  lemma AcceptsCatOnlyIf(a: Regex, b: Regex, rest: Stack, s: string, i: nat)
    requires i <= |s| && Accepts(Push(Expr(Cat(a, b)), rest), s, i)
    ensures Accepts(Push(Expr(a), Push(Expr(b), rest)), s, i)
  {
    var j :| i <= j <= |s| && Matches(Cat(a, b), s[i..j]) && Accepts(rest, s, j);
    var x, y :| s[i..j] == x + y && Matches(a, x) && Matches(b, y);
    var m := Slices(s, i, j, x, y);
    assert Accepts(Push(Expr(b), rest), s, m);
  }

  lemma AcceptsCatIf(a: Regex, b: Regex, rest: Stack, s: string, i: nat)
    requires i <= |s| && Accepts(Push(Expr(a), Push(Expr(b), rest)), s, i)
    ensures Accepts(Push(Expr(Cat(a, b)), rest), s, i)
  {
    var m :| i <= m <= |s| && Matches(a, s[i..m]) && Accepts(Push(Expr(b), rest), s, m);
    var j :| m <= j <= |s| && Matches(b, s[m..j]) && Accepts(rest, s, j);
    SliceMatchesCat(a, b, s, i, m, j);
  }

  lemma SliceMatchesCat(a: Regex, b: Regex, s: string, i: nat, m: nat, j: nat)
    requires i <= m <= j <= |s| && Matches(a, s[i..m]) && Matches(b, s[m..j])
    ensures Matches(Cat(a, b), s[i..j])
  {
    CatJoins(a, b, s[i..m], s[m..j]);
    assert s[i..j] == s[i..m] + s[m..j];
  }

  lemma CatJoins(a: Regex, b: Regex, x: string, y: string)
    requires Matches(a, x) && Matches(b, y)
    ensures Matches(Cat(a, b), x + y)
  {
  }

  lemma AcceptsCat(a: Regex, b: Regex, rest: Stack, s: string, i: nat)
    requires i <= |s|
    ensures Accepts(Push(Expr(Cat(a, b)), rest), s, i) <==> Accepts(Push(Expr(a), Push(Expr(b), rest)), s, i)
  {
    if Accepts(Push(Expr(Cat(a, b)), rest), s, i) {
      AcceptsCatOnlyIf(a, b, rest, s, i);
    } else if Accepts(Push(Expr(a), Push(Expr(b), rest)), s, i) {
      AcceptsCatIf(a, b, rest, s, i);
    }
  }

  /** A repetition that still needs a round. */
  lemma RepNeeds(body: Regex, min: nat, max: Option<nat>, t: string)
    requires min > 0
    ensures Matches(Rep(body, min, max), t)
       <==> max != Some(0) && Matches(Cat(body, Rep(body, min - 1, OneLess(max))), t)
  {
    if Matches(Rep(body, min, max), t) {
      var ps :| Within(|ps|, min, max) && AllMatch(body, ps) && t == Flatten(ps);
      assert Within(|ps[1..]|, min - 1, OneLess(max)) && AllMatch(body, ps[1..]);
      assert t == ps[0] + Flatten(ps[1..]) && Matches(body, ps[0]);
      assert Matches(Rep(body, min - 1, OneLess(max)), Flatten(ps[1..]));
    }
    if max != Some(0) && Matches(Cat(body, Rep(body, min - 1, OneLess(max))), t) {
      var x, y :| t == x + y && Matches(body, x) && Matches(Rep(body, min - 1, OneLess(max)), y);
      RepPrepend(body, min - 1, max, x, y);
    }
  }

  lemma RepPrepend(body: Regex, min: nat, max: Option<nat>, x: string, y: string)
    requires max != Some(0) && Matches(body, x) && Matches(Rep(body, min, OneLess(max)), y)
    ensures Matches(Rep(body, min + 1, max), x + y)
  {
    var qs :| Within(|qs|, min, OneLess(max)) && AllMatch(body, qs) && y == Flatten(qs);
    var ps := [x] + qs;
    assert ps[1..] == qs && Within(|ps|, min + 1, max) && AllMatch(body, ps) && x + y == Flatten(ps);
  }

  lemma RepWeaken(body: Regex, min: nat, max: Option<nat>, t: string)
    requires Matches(Rep(body, min + 1, max), t)
    ensures Matches(Rep(body, min, max), t)
  {
    var ps :| Within(|ps|, min + 1, max) && AllMatch(body, ps) && t == Flatten(ps);
    assert Within(|ps|, min, max);
  }

  /** A repetition that may stop: either it does, or it has a non-empty next round. */
  lemma {:induction false} FirstRound(body: Regex, max: Option<nat>, ps: seq<string>)
    returns (x: string, y: string)
    requires Within(|ps|, 0, max) && AllMatch(body, ps) && Flatten(ps) != ""
    ensures x != "" && Flatten(ps) == x + y && max != Some(0)
    ensures Matches(body, x) && Matches(Rep(body, 0, OneLess(max)), y)
  {
    if ps[0] == "" {
      assert AllMatch(body, ps[1..]) && Flatten(ps) == Flatten(ps[1..]);
      x, y := FirstRound(body, max, ps[1..]);
    } else {
      x, y := ps[0], Flatten(ps[1..]);
      assert AllMatch(body, ps[1..]) && Within(|ps[1..]|, 0, OneLess(max));
    }
  }

  lemma AcceptsRepOnlyIf(body: Regex, max: Option<nat>, rest: Stack, s: string, i: nat)
    requires i <= |s| && Accepts(Push(Expr(Rep(body, 0, max)), rest), s, i) && !Accepts(rest, s, i)
    ensures max != Some(0) && Accepts(Push(Expr(body), Push(Again(body, 0, OneLess(max), i), rest)), s, i)
  {
    var j :| i <= j <= |s| && Matches(Rep(body, 0, max), s[i..j]) && Accepts(rest, s, j);
    assert s[i..j] != "";
    var x, y := NonEmptyRound(body, max, s[i..j]);
    var m := Slices(s, i, j, x, y);
    assert Accepts(Push(Again(body, 0, OneLess(max), i), rest), s, m);
  }

  lemma NonEmptyRound(body: Regex, max: Option<nat>, t: string) returns (x: string, y: string)
    requires Matches(Rep(body, 0, max), t) && t != ""
    ensures x != "" && t == x + y && max != Some(0)
    ensures Matches(body, x) && Matches(Rep(body, 0, OneLess(max)), y)
  {
    var ps :| Within(|ps|, 0, max) && AllMatch(body, ps) && t == Flatten(ps);
    x, y := FirstRound(body, max, ps);
  }

  lemma AcceptsRepMore(body: Regex, max: Option<nat>, rest: Stack, s: string, i: nat)
    requires i <= |s| && max != Some(0)
    requires Accepts(Push(Expr(body), Push(Again(body, 0, OneLess(max), i), rest)), s, i)
    ensures Accepts(Push(Expr(Rep(body, 0, max)), rest), s, i)
  {
    var m :| i <= m <= |s| && Matches(body, s[i..m]) && Accepts(Push(Again(body, 0, OneLess(max), i), rest), s, m);
    var j :| m <= j <= |s| && Matches(Rep(body, 0, OneLess(max)), s[m..j]) && Accepts(rest, s, j);
    RepMore(body, max, s, i, m, j);
  }

  lemma RepMore(body: Regex, max: Option<nat>, s: string, i: nat, m: nat, j: nat)
    requires i <= m <= j <= |s| && max != Some(0)
    requires Matches(body, s[i..m]) && Matches(Rep(body, 0, OneLess(max)), s[m..j])
    ensures Matches(Rep(body, 0, max), s[i..j])
  {
    RepPrepend(body, 0, max, s[i..m], s[m..j]);
    assert s[i..j] == s[i..m] + s[m..j];
    RepWeaken(body, 0, max, s[i..j]);
  }

  lemma AcceptsRep(body: Regex, max: Option<nat>, rest: Stack, s: string, i: nat)
    requires i <= |s|
    ensures Accepts(Push(Expr(Rep(body, 0, max)), rest), s, i)
       <==> Accepts(rest, s, i)
            || (max != Some(0) && Accepts(Push(Expr(body), Push(Again(body, 0, OneLess(max), i), rest)), s, i))
  {
    if Accepts(rest, s, i) {
      assert Within(0, 0, max) && AllMatch(body, []) && s[i..i] == Flatten([]);
      assert Matches(Rep(body, 0, max), s[i..i]);
    } else if Accepts(Push(Expr(Rep(body, 0, max)), rest), s, i) {
      AcceptsRepOnlyIf(body, max, rest, s, i);
    } else if max != Some(0) && Accepts(Push(Expr(body), Push(Again(body, 0, OneLess(max), i), rest)), s, i) {
      AcceptsRepMore(body, max, rest, s, i);
    }
  }

  lemma AcceptsRepNeeds(body: Regex, min: nat, max: Option<nat>, rest: Stack, s: string, i: nat)
    requires i <= |s| && min > 0
    ensures Accepts(Push(Expr(Rep(body, min, max)), rest), s, i)
       <==> max != Some(0) && Accepts(Push(Expr(body), Push(Expr(Rep(body, min - 1, OneLess(max))), rest)), s, i)
  {
    forall j | i <= j <= |s|
      ensures Matches(Rep(body, min, max), s[i..j])
         <==> max != Some(0) && Matches(Cat(body, Rep(body, min - 1, OneLess(max))), s[i..j])
    {
      RepNeeds(body, min, max, s[i..j]);
    }
    AcceptsCat(body, Rep(body, min - 1, OneLess(max)), rest, s, i);
  }

  lemma AcceptsChr(cls: CharClass, rest: Stack, s: string, i: nat)
    requires i <= |s|
    ensures Accepts(Push(Expr(Chr(cls)), rest), s, i) <==> i < |s| && cls.Has(s[i]) && Accepts(rest, s, i + 1)
  {
    if i < |s| && cls.Has(s[i]) && Accepts(rest, s, i + 1) {
      assert Matches(Chr(cls), s[i..i + 1]);
    }
  }

  lemma AcceptsEmpty(rest: Stack, s: string, i: nat)
    requires i <= |s|
    ensures Accepts(Push(Expr(Empty), rest), s, i) <==> Accepts(rest, s, i)
  {
    assert s[i..i] == "";
  }

  lemma {:induction false} RunAccepts(k: Stack, s: string, i: nat, caps: Captures)
    requires i <= |s|
    ensures Run(k, s, i, caps).Some? <==> Accepts(k, s, i)
    decreases |s| - i, StackCost(k, i)
  {
    match k
    case Done =>
    case Push(Close(n, from), rest) =>
      RunAccepts(rest, s, i, caps[n := if from <= i then s[from..i] else ""]);
    case Push(Again(body, min, max, from), rest) =>
      if from < i { RunAccepts(Push(Expr(Rep(body, min, max)), rest), s, i, caps); }
    case Push(Expr(r), rest) =>
      match r
      case Empty =>
        AcceptsEmpty(rest, s, i);
        RunAccepts(rest, s, i, caps);
      case Chr(cls) =>
        AcceptsChr(cls, rest, s, i);
        if i < |s| { RunAccepts(rest, s, i + 1, caps); }
      case Cat(a, b) =>
        AcceptsCat(a, b, rest, s, i);
        PairCost(Expr(a), Expr(b), rest, i);
        RunAccepts(Push(Expr(a), Push(Expr(b), rest)), s, i, caps);
      case Alt(a, b) =>
        RunAccepts(Push(Expr(a), rest), s, i, caps);
        RunAccepts(Push(Expr(b), rest), s, i, caps);
      case Group(n, body) =>
        PairCost(Expr(body), Close(n, i), rest, i);
        RunAccepts(Push(Expr(body), Push(Close(n, i), rest)), s, i, caps);
        assert forall j | i <= j <= |s| :: Accepts(Push(Close(n, i), rest), s, j) <==> Accepts(rest, s, j);
      case Rep(body, min, max) =>
        if min > 0 {
          AcceptsRepNeeds(body, min, max, rest, s, i);
          if max != Some(0) {
            PairCost(Expr(body), Expr(Rep(body, min - 1, OneLess(max))), rest, i);
            RunAccepts(Push(Expr(body), Push(Expr(Rep(body, min - 1, OneLess(max))), rest)), s, i, caps);
          }
        } else {
          AcceptsRep(body, max, rest, s, i);
          if max != Some(0) {
            PairCost(Expr(body), Again(body, 0, OneLess(max), i), rest, i);
            RunAccepts(Push(Expr(body), Push(Again(body, 0, OneLess(max), i), rest)), s, i, caps);
          }
          RunAccepts(rest, s, i, caps);
        }
  }

  /** The backtracking search succeeds exactly on the strings of the language. */
  lemma MatchIff(r: Regex, s: string)
    ensures Match(r, s).Some? <==> Matches(r, s)
  {
    RunAccepts(Push(Expr(r), Done), s, 0, map[]);
    assert s[0..|s|] == s;
  }

  // ---------- frequent shapes ----------

  /** A literal text. */
  function Lit(t: string): Regex {
    if t == "" then Empty
    else if |t| == 1 then Chr(One(t[0]))
    else Cat(Chr(One(t[0])), Lit(t[1..]))
  }

  lemma {:induction false} LitMatches(t: string, s: string)
    ensures Matches(Lit(t), s) <==> s == t
  {
    if |t| > 1 {
      LitMatches(t[1..], t[1..]);
      assert t == [t[0]] + t[1..];
      CatJoins(Chr(One(t[0])), Lit(t[1..]), [t[0]], t[1..]);
      if Matches(Lit(t), s) {
        var x, y :| s == x + y && Matches(Chr(One(t[0])), x) && Matches(Lit(t[1..]), y);
        LitMatches(t[1..], y);
        assert x == [t[0]];
      }
    } else if |t| == 1 && |s| == 1 {
      assert t == [t[0]] && s == [s[0]];
    }
  }

  lemma RepOf(r: Regex, min: nat, max: Option<nat>, ps: seq<string>)
    requires AllMatch(r, ps) && Within(|ps|, min, max)
    ensures Matches(Rep(r, min, max), Flatten(ps))
  {
  }

  lemma FlattenOne(s: string)
    ensures Flatten([s]) == s
  {
    var ps := [s];
    assert ps[1..] == [];
    assert Flatten(ps) == ps[0] + Flatten(ps[1..]);
  }

  lemma OptionalMatches(r: Regex, s: string)
    ensures Matches(Rep(r, 0, Some(1)), s) <==> s == "" || Matches(r, s)
  {
    if Matches(Rep(r, 0, Some(1)), s) {
      var ps :| Within(|ps|, 0, Some(1)) && AllMatch(r, ps) && s == Flatten(ps);
      if ps != [] { FlattenOne(ps[0]); assert ps == [ps[0]] && Matches(r, ps[0]); }
    }
    RepOf(r, 0, Some(1), []);
    if Matches(r, s) {
      FlattenOne(s);
      var ps := [s];
      assert AllMatch(r, ps);
      RepOf(r, 0, Some(1), ps);
    }
  }

  /** A pattern followed by one character. */
  lemma PairMatches(a: Regex, c: CharClass, s: string)
    ensures Matches(Cat(a, Chr(c)), s) <==> s != "" && c.Has(s[|s| - 1]) && Matches(a, s[..|s| - 1])
  {
    if Matches(Cat(a, Chr(c)), s) {
      var x, y := CatParts(a, Chr(c), s);
      assert s[..|s| - 1] == x;
    } else if s != "" && c.Has(s[|s| - 1]) && Matches(a, s[..|s| - 1]) {
      var x, y := s[..|s| - 1], [s[|s| - 1]];
      assert s == x + y;
      CatJoins(a, Chr(c), x, y);
    }
  }

  lemma ConcatAssociates(x: string, y: string, z: string)
    ensures x + (y + z) == (x + y) + z
  {
  }

  lemma CatToLeft(a: Regex, b: Regex, bc: Regex, c: Regex, s: string)
    requires bc == Cat(b, c) && Matches(Cat(a, bc), s)
    ensures Matches(Cat(Cat(a, b), c), s)
  {
    var x, yz := CatParts(a, bc, s);
    var y, z := CatParts(b, c, yz);
    ConcatAssociates(x, y, z);
    CatJoins(a, b, x, y);
    CatJoins(Cat(a, b), c, x + y, z);
  }

  lemma CatToRight(a: Regex, b: Regex, ab: Regex, c: Regex, s: string)
    requires ab == Cat(a, b) && Matches(Cat(ab, c), s)
    ensures Matches(Cat(a, Cat(b, c)), s)
  {
    var xy, z := CatParts(ab, c, s);
    var x, y := CatParts(a, b, xy);
    ConcatAssociates(x, y, z);
    CatJoins(b, c, y, z);
    CatJoins(a, Cat(b, c), x, y + z);
  }

  lemma CatAssociates(a: Regex, b: Regex, c: Regex, s: string)
    ensures Matches(Cat(a, Cat(b, c)), s) <==> Matches(Cat(Cat(a, b), c), s)
  {
    if Matches(Cat(a, Cat(b, c)), s) {
      CatToLeft(a, b, Cat(b, c), c, s);
    } else if Matches(Cat(Cat(a, b), c), s) {
      CatToRight(a, b, Cat(a, b), c, s);
    }
  }

  lemma CatAlt(a: Regex, b: Regex, c: Regex, s: string)
    ensures Matches(Cat(a, Alt(b, c)), s) <==> Matches(Cat(a, b), s) || Matches(Cat(a, c), s)
  {
    if Matches(Cat(a, Alt(b, c)), s) { var x, y := CatParts(a, Alt(b, c), s); }
    if Matches(Cat(a, b), s) { var x, y := CatParts(a, b, s); CatJoins(a, Alt(b, c), x, y); }
    if Matches(Cat(a, c), s) { var x, y := CatParts(a, c, s); CatJoins(a, Alt(b, c), x, y); }
  }

  lemma CatParts(a: Regex, b: Regex, s: string) returns (x: string, y: string)
    requires Matches(Cat(a, b), s)
    ensures s == x + y && Matches(a, x) && Matches(b, y)
  {
    x, y :| s == x + y && Matches(a, x) && Matches(b, y);
  }

  /** An alternation of several expressions. */
  function AnyOf(rs: seq<Regex>): Regex
    requires rs != []
  {
    if |rs| == 1 then rs[0] else Alt(rs[0], AnyOf(rs[1..]))
  }

  lemma {:induction false} AnyOfMatches(rs: seq<Regex>, s: string)
    requires rs != []
    ensures Matches(AnyOf(rs), s) <==> exists r | r in rs :: Matches(r, s)
  {
    if |rs| > 1 {
      AnyOfMatches(rs[1..], s);
      assert rs == [rs[0]] + rs[1..];
      if r :| r in rs[1..] && Matches(r, s) { assert r in rs; }
      if r :| r in rs && Matches(r, s) { assert r == rs[0] || r in rs[1..]; }
    }
  }

  /** A repeated character class. */
  lemma {:induction false} ChrsMatch(cls: CharClass, min: nat, max: Option<nat>, s: string)
    ensures Matches(Rep(Chr(cls), min, max), s) <==> Within(|s|, min, max) && AllIn(cls, s)
  {
    if Matches(Rep(Chr(cls), min, max), s) {
      var ps :| Within(|ps|, min, max) && AllMatch(Chr(cls), ps) && s == Flatten(ps);
      forall p | p in ps ensures |p| == 1 { assert Matches(Chr(cls), p); }
      SinglesFlatten(cls, ps);
    }
    if Within(|s|, min, max) && AllIn(cls, s) {
      var ps := Singles(s);
      SinglesFlatten(cls, ps);
    }
  }

  function Singles(s: string): (ps: seq<string>)
    ensures |ps| == |s| && Flatten(ps) == s && forall i | 0 <= i < |s| :: ps[i] == [s[i]]
  {
    if s == "" then []
    else
      assert ([[s[0]]] + Singles(s[1..]))[1..] == Singles(s[1..]) && s == [s[0]] + s[1..];
      [[s[0]]] + Singles(s[1..])
  }

  lemma {:induction false} SinglesFlatten(cls: CharClass, ps: seq<string>)
    requires forall p | p in ps :: |p| == 1
    ensures |Flatten(ps)| == |ps|
    ensures AllIn(cls, Flatten(ps)) <==> AllMatch(Chr(cls), ps)
  {
    if ps != [] {
      SinglesFlatten(cls, ps[1..]);
      AllMatchCons(Chr(cls), ps);
      var s := Flatten(ps);
      assert s[0] == ps[0][0] && s[1..] == Flatten(ps[1..]);
      assert AllIn(cls, s) <==> cls.Has(s[0]) && AllIn(cls, s[1..]) by {
        if cls.Has(s[0]) && AllIn(cls, s[1..]) {
          forall i | 0 <= i < |s| ensures cls.Has(s[i]) { if i > 0 { assert s[i] == s[1..][i - 1]; } }
        }
      }
    }
  }

  lemma AllMatchCons(r: Regex, ps: seq<string>)
    requires ps != []
    ensures AllMatch(r, ps) <==> Matches(r, ps[0]) && AllMatch(r, ps[1..])
  {
    assert ps == [ps[0]] + ps[1..];
    if AllMatch(r, ps) {
      forall p | p in ps[1..] ensures Matches(r, p) { assert p in ps; }
    }
  }

  /** Greedy repetition of a character class takes the longest run of such characters (within the maximum),
      as long as the rest can be matched from there. */
  lemma {:induction false} RunGreedy(
    cls: CharClass, min: nat, max: Option<nat>, rest: Stack, s: string, i: nat, caps: Captures, e: nat)
    requires i <= e <= |s| && Within(e - i, min, max)
    requires forall k | i <= k < e :: cls.Has(s[k])
    requires e == |s| || !cls.Has(s[e]) || max == Some(e - i)
    requires Run(rest, s, e, caps).Some?
    ensures Run(Push(Expr(Rep(Chr(cls), min, max)), rest), s, i, caps) == Run(rest, s, e, caps)
    decreases e - i
  {
    if i < e {
      if min > 0 {
        RunGreedy(cls, min - 1, OneLess(max), rest, s, i + 1, caps, e);
      } else {
        RunGreedy(cls, 0, OneLess(max), rest, s, i + 1, caps, e);
        var again := Push(Again(Chr(cls), 0, OneLess(max), i), rest);
        assert Run(again, s, i + 1, caps) == Run(rest, s, e, caps);
        assert Run(Push(Expr(Chr(cls)), again), s, i, caps) == Run(again, s, i + 1, caps);
      }
    } else if max != Some(0) {
      var again := Push(Again(Chr(cls), 0, OneLess(max), i), rest);
      assert Run(Push(Expr(Chr(cls)), again), s, i, caps) == None;
    }
  }

  /** A literal text is stepped over if it is there. */
  lemma {:induction false} RunLit(t: string, rest: Stack, s: string, i: nat, caps: Captures)
    requires i <= |s|
    ensures Run(Push(Expr(Lit(t)), rest), s, i, caps)
         == if i + |t| <= |s| && s[i..i + |t|] == t then Run(rest, s, i + |t|, caps) else None
    decreases |t|
  {
    if |t| == 1 {
      if i < |s| { assert s[i..i + 1] == [s[i]] && t == [t[0]]; }
    } else if t != "" {
      var k := Push(Expr(Lit(t[1..])), rest);
      RunCat(Chr(One(t[0])), Lit(t[1..]), rest, s, i, caps);
      if i < |s| && s[i] == t[0] {
        assert Run(Push(Expr(Chr(One(t[0]))), k), s, i, caps) == Run(k, s, i + 1, caps);
        RunLit(t[1..], rest, s, i + 1, caps);
        if i + |t| <= |s| {
          assert s[i..i + |t|] == [s[i]] + s[i + 1..i + |t|] && t == [t[0]] + t[1..];
        }
      } else {
        assert Run(Push(Expr(Chr(One(t[0]))), k), s, i, caps) == None;
        if i + |t| <= |s| { assert s[i..i + |t|][0] == s[i]; }
      }
    }
  }

  /** A group around a greedy repetition. */
  lemma RunGroupGreedy(
    n: nat, cls: CharClass, min: nat, max: Option<nat>, rest: Stack, s: string, i: nat, caps: Captures, e: nat)
    requires i <= e <= |s| && Within(e - i, min, max)
    requires forall k | i <= k < e :: cls.Has(s[k])
    requires e == |s| || !cls.Has(s[e]) || max == Some(e - i)
    requires Run(rest, s, e, caps[n := s[i..e]]).Some?
    ensures Run(Push(Expr(Group(n, Rep(Chr(cls), min, max))), rest), s, i, caps) == Run(rest, s, e, caps[n := s[i..e]])
  {
    var close := Push(Close(n, i), rest);
    assert Run(close, s, e, caps) == Run(rest, s, e, caps[n := s[i..e]]);
    RunGreedy(cls, min, max, close, s, i, caps, e);
    assert Run(Push(Expr(Group(n, Rep(Chr(cls), min, max))), rest), s, i, caps)
        == Run(Push(Expr(Rep(Chr(cls), min, max)), close), s, i, caps);
  }

  /** Of two alternatives the left one is taken whenever the rest can be matched after it. */
  lemma RunAlternatives(a: Regex, b: Regex, rest: Stack, s: string, i: nat, caps: Captures)
    requires i <= |s|
    ensures Run(Push(Expr(Alt(a, b)), rest), s, i, caps)
         == Run(Push(Expr(if Accepts(Push(Expr(a), rest), s, i) then a else b), rest), s, i, caps)
  {
    RunAccepts(Push(Expr(a), rest), s, i, caps);
  }

  /** `r?` tries `r` first. */
  lemma RunOptional(r: Regex, rest: Stack, s: string, i: nat, caps: Captures)
    requires i <= |s|
    ensures var more := Run(Push(Expr(r), Push(Again(r, 0, Some(0), i), rest)), s, i, caps);
            Run(Push(Expr(Rep(r, 0, Some(1))), rest), s, i, caps) == if more.Some? then more else Run(rest, s, i, caps)
  {
  }

  lemma RunAgain(r: Regex, from: nat, rest: Stack, s: string, i: nat, caps: Captures)
    requires from < i <= |s|
    ensures Run(Push(Again(r, 0, Some(0), from), rest), s, i, caps) == Run(rest, s, i, caps)
  {
    assert Run(Push(Again(r, 0, Some(0), from), rest), s, i, caps)
        == Run(Push(Expr(Rep(r, 0, Some(0))), rest), s, i, caps);
  }

  lemma RunCat(a: Regex, b: Regex, rest: Stack, s: string, i: nat, caps: Captures)
    requires i <= |s|
    ensures Run(Push(Expr(Cat(a, b)), rest), s, i, caps) == Run(Push(Expr(a), Push(Expr(b), rest)), s, i, caps)
  {
  }

  /** Once a round of `r?` has been matched the rest decides. */
  lemma AcceptsAgain(r: Regex, from: nat, rest: Stack, s: string, i: nat)
    requires i <= |s|
    ensures Accepts(Push(Again(r, 0, Some(0), from), rest), s, i) <==> from < i && Accepts(rest, s, i)
  {
    RunAccepts(Push(Again(r, 0, Some(0), from), rest), s, i, map[]);
    if from < i {
      RunAgain(r, from, rest, s, i, map[]);
      RunAccepts(rest, s, i, map[]);
    }
  }

  /** `r?` cannot be taken when the rest does not accept after any of its texts. */
  lemma RoundRefused(r: Regex, rest: Stack, s: string, e: nat)
    requires e <= |s|
    requires forall j: nat | e < j <= |s| && Matches(r, s[e..j]) :: !Accepts(rest, s, j)
    ensures !Accepts(Push(Expr(r), Push(Again(r, 0, Some(0), e), rest)), s, e)
  {
    var again := Push(Again(r, 0, Some(0), e), rest);
    forall j: nat | e <= j <= |s| && Matches(r, s[e..j]) ensures !Accepts(again, s, j) {
      AcceptsAgain(r, e, rest, s, j);
    }
  }

  /** First position at or after `i` where the class no longer holds, at most `limit` characters on. */
  function RunEnd(cls: CharClass, s: string, i: nat, limit: Option<nat>): (e: nat)
    requires i <= |s|
    ensures i <= e <= |s| && Within(e - i, 0, limit)
    ensures forall k | i <= k < e :: cls.Has(s[k])
    ensures e == |s| || !cls.Has(s[e]) || limit == Some(e - i)
    decreases |s| - i
  {
    if i == |s| || !cls.Has(s[i]) || limit == Some(0) then i else RunEnd(cls, s, i + 1, OneLess(limit))
  }

  lemma {:induction false} RunEndFurthest(cls: CharClass, s: string, i: nat, limit: Option<nat>, j: nat)
    requires i <= j <= |s| && Within(j - i, 0, limit)
    requires forall k | i <= k < j :: cls.Has(s[k])
    ensures j <= RunEnd(cls, s, i, limit)
    decreases j - i
  {
    if i < j { RunEndFurthest(cls, s, i + 1, OneLess(limit), j); }
  }

  lemma RunTextEnd(cls: CharClass, s: string, i: nat, j: nat)
    requires i <= j <= |s| && Matches(Rep(Chr(cls), 1, None), s[i..j])
    ensures i < j <= RunEnd(cls, s, i, None)
  {
    ChrsMatch(cls, 1, None, s[i..j]);
    assert forall m | i <= m < j :: s[m] == s[i..j][m - i];
    RunEndFurthest(cls, s, i, None, j);
  }

  /** A captured run of one or more characters, when ending it earlier never helps the rest. */
  lemma RunGroupDecided(n: nat, cls: CharClass, rest: Stack, s: string, i: nat, caps: Captures)
    requires i <= |s|
    requires forall j | i < j < RunEnd(cls, s, i, None) ::
               Accepts(rest, s, j) ==> Accepts(rest, s, RunEnd(cls, s, i, None))
    ensures var e := RunEnd(cls, s, i, None);
            Run(Push(Expr(Group(n, Rep(Chr(cls), 1, None))), rest), s, i, caps)
            == if e > i then Run(rest, s, e, caps[n := s[i..e]]) else None
  {
    var e := RunEnd(cls, s, i, None);
    RunAccepts(rest, s, e, caps[n := s[i..e]]);
    if e > i && Accepts(rest, s, e) {
      RunGroupGreedy(n, cls, 1, None, rest, s, i, caps, e);
    } else {
      RunGroupRefused(n, cls, rest, s, i, caps);
    }
  }

  lemma RunGroupRefused(n: nat, cls: CharClass, rest: Stack, s: string, i: nat, caps: Captures)
    requires i <= |s| && forall j | i < j <= RunEnd(cls, s, i, None) :: !Accepts(rest, s, j)
    ensures Run(Push(Expr(Group(n, Rep(Chr(cls), 1, None))), rest), s, i, caps) == None
  {
    var k := Push(Expr(Group(n, Rep(Chr(cls), 1, None))), rest);
    RunAccepts(k, s, i, caps);
    forall j: nat | i <= j <= |s| && Matches(k.item.r, s[i..j]) ensures !Accepts(rest, s, j) {
      RunTextEnd(cls, s, i, j);
    }
  }
}
