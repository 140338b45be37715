/** Texts made of fields and a separator character. */
module Separated {
  import opened Options
  import opened Regex

  /** Fields with the separator between them. */
  function Joined(fs: seq<string>, sep: char): string {
    if fs == [] then "" else if |fs| == 1 then fs[0] else fs[0] + [sep] + Joined(fs[1..], sep)
  }

  /** Fields with the separator after each. */
  function Trailed(fs: seq<string>, sep: char): string {
    if fs == [] then "" else fs[0] + [sep] + Trailed(fs[1..], sep)
  }

  /** Fields with the separator before each. */
  function Headed(fs: seq<string>, sep: char): string {
    if fs == [] then "" else [sep] + fs[0] + Headed(fs[1..], sep)
  }

  predicate Free(s: string, sep: char) {
    forall i | 0 <= i < |s| :: s[i] != sep
  }

  predicate AllFree(fs: seq<string>, sep: char) {
    forall f | f in fs :: Free(f, sep)
  }

  // ---------- the three forms and each other ----------

  lemma {:induction false} JoinedTrailed(fs: seq<string>, g: string, sep: char)
    ensures Joined(fs + [g], sep) == Trailed(fs, sep) + g
  {
    if fs == [] {
      assert fs + [g] == [g];
    } else {
      assert (fs + [g])[1..] == fs[1..] + [g];
      JoinedTrailed(fs[1..], g, sep);
    }
  }

  lemma {:induction false} TrailedJoined(fs: seq<string>, sep: char)
    requires fs != []
    ensures Trailed(fs, sep) == Joined(fs, sep) + [sep]
  {
    if |fs| > 1 { TrailedJoined(fs[1..], sep); }
  }

  lemma {:induction false} HeadedJoined(fs: seq<string>, sep: char)
    requires fs != []
    ensures Headed(fs, sep) == [sep] + Joined(fs, sep)
  {
    if |fs| > 1 { HeadedJoined(fs[1..], sep); }
  }

  lemma OneField(g: string, sep: char)
    ensures Trailed([g], sep) == g + [sep] && Headed([g], sep) == [sep] + g
  {
    var gs := [g];
    assert gs[1..] == [];
    assert Trailed(gs, sep) == g + [sep] + Trailed(gs[1..], sep);
    assert Headed(gs, sep) == [sep] + g + Headed(gs[1..], sep);
  }

  lemma {:induction false} JoinedAppend(fs: seq<string>, gs: seq<string>, sep: char)
    requires fs != [] && gs != []
    ensures Joined(fs + gs, sep) == Joined(fs, sep) + [sep] + Joined(gs, sep)
  {
    if |fs| == 1 {
      assert (fs + gs)[1..] == gs;
    } else {
      assert (fs + gs)[1..] == fs[1..] + gs;
      JoinedAppend(fs[1..], gs, sep);
    }
  }

  lemma {:induction false} JoinedFree(fs: seq<string>, sep: char, c: char)
    requires c != sep && AllFree(fs, c)
    ensures Free(Joined(fs, sep), c) && Free(Trailed(fs, sep), c)
  {
    if fs != [] {
      assert Free(fs[0], c);
      JoinedFree(fs[1..], sep, c);
    }
  }

  // ---------- fields can be read back ----------

  /** Position of the first separator, or the length of the text. */
  function Find(s: string, sep: char): (k: nat)
    ensures k <= |s| && Free(s[..k], sep) && (k < |s| ==> s[k] == sep)
  {
    if s == "" || s[0] == sep then 0
    else
      assert s[..1 + Find(s[1..], sep)] == [s[0]] + s[1..][..Find(s[1..], sep)];
      1 + Find(s[1..], sep)
  }

  function Split(s: string, sep: char): seq<string>
    decreases |s|
  {
    var k := Find(s, sep);
    if k == |s| then [s] else [s[..k]] + Split(s[k + 1..], sep)
  }

  lemma {:induction false} FindUnique(f: string, rest: string, sep: char)
    requires Free(f, sep) && (rest == "" || rest[0] == sep)
    ensures Find(f + rest, sep) == |f|
  {
    if f == "" {
      assert f + rest == rest;
    } else {
      assert (f + rest)[1..] == f[1..] + rest;
      FindUnique(f[1..], rest, sep);
    }
  }

  lemma {:induction false} SplitJoined(fs: seq<string>, sep: char)
    requires fs != [] && AllFree(fs, sep)
    ensures Split(Joined(fs, sep), sep) == fs
  {
    if |fs| == 1 {
      FindUnique(fs[0], "", sep);
      assert fs[0] + "" == fs[0];
    } else {
      var rest := [sep] + Joined(fs[1..], sep);
      var s := Joined(fs, sep);
      assert s == fs[0] + rest;
      FindUnique(fs[0], rest, sep);
      assert s[..|fs[0]|] == fs[0] && s[|fs[0]| + 1..] == Joined(fs[1..], sep);
      SplitJoined(fs[1..], sep);
    }
  }

  lemma {:induction false} JoinedSplit(s: string, sep: char)
    ensures Split(s, sep) != [] && AllFree(Split(s, sep), sep) && Joined(Split(s, sep), sep) == s
    decreases |s|
  {
    var k := Find(s, sep);
    if k == |s| {
      assert s[..k] == s;
    } else {
      var rest := Split(s[k + 1..], sep);
      JoinedSplit(s[k + 1..], sep);
      assert ([s[..k]] + rest)[1..] == rest;
      assert s == s[..k] + [sep] + s[k + 1..];
    }
  }

  lemma JoinedInjective(fs: seq<string>, gs: seq<string>, sep: char)
    requires fs != [] && gs != [] && AllFree(fs, sep) && AllFree(gs, sep)
    requires Joined(fs, sep) == Joined(gs, sep)
    ensures fs == gs
  {
    SplitJoined(fs, sep);
    SplitJoined(gs, sep);
  }

  // ---------- as regular expressions ----------

  function Sep(sep: char): Regex { Chr(One(sep)) }

  lemma {:induction false} FlattenTrailed(r: Regex, ps: seq<string>, sep: char) returns (fs: seq<string>)
    requires AllMatch(Cat(r, Sep(sep)), ps)
    ensures |fs| == |ps| && AllMatch(r, fs) && Flatten(ps) == Trailed(fs, sep)
  {
    if ps == [] {
      fs := [];
    } else {
      assert Matches(Cat(r, Sep(sep)), ps[0]);
      var x, y :| ps[0] == x + y && Matches(r, x) && Matches(Sep(sep), y);
      assert y == [sep];
      var gs := FlattenTrailed(r, ps[1..], sep);
      fs := [x] + gs;
      assert fs[1..] == gs;
    }
  }

  lemma {:induction false} TrailedFlatten(r: Regex, fs: seq<string>, sep: char) returns (ps: seq<string>)
    requires AllMatch(r, fs)
    ensures |ps| == |fs| && AllMatch(Cat(r, Sep(sep)), ps) && Flatten(ps) == Trailed(fs, sep)
  {
    if fs == [] {
      ps := [];
    } else {
      assert Matches(r, fs[0]);
      CatJoins(r, Sep(sep), fs[0], [sep]);
      var qs := TrailedFlatten(r, fs[1..], sep);
      ps := [fs[0] + [sep]] + qs;
      assert ps[1..] == qs;
    }
  }

  /** `(r sep){min,max}` */
  lemma RepTrailed(r: Regex, sep: char, min: nat, max: Option<nat>, s: string)
    ensures Matches(Rep(Cat(r, Sep(sep)), min, max), s)
       <==> exists fs :: Within(|fs|, min, max) && AllMatch(r, fs) && s == Trailed(fs, sep)
  {
    if Matches(Rep(Cat(r, Sep(sep)), min, max), s) {
      var ps :| Within(|ps|, min, max) && AllMatch(Cat(r, Sep(sep)), ps) && s == Flatten(ps);
      var fs := FlattenTrailed(r, ps, sep);
    }
    if exists fs :: Within(|fs|, min, max) && AllMatch(r, fs) && s == Trailed(fs, sep) {
      var fs :| Within(|fs|, min, max) && AllMatch(r, fs) && s == Trailed(fs, sep);
      var ps := TrailedFlatten(r, fs, sep);
    }
  }

  lemma {:induction false} FlattenHeaded(r: Regex, ps: seq<string>, sep: char) returns (fs: seq<string>)
    requires AllMatch(Cat(Sep(sep), r), ps)
    ensures |fs| == |ps| && AllMatch(r, fs) && Flatten(ps) == Headed(fs, sep)
  {
    if ps == [] {
      fs := [];
    } else {
      assert Matches(Cat(Sep(sep), r), ps[0]);
      var x, y :| ps[0] == x + y && Matches(Sep(sep), x) && Matches(r, y);
      assert x == [sep];
      var gs := FlattenHeaded(r, ps[1..], sep);
      fs := [y] + gs;
      assert fs[1..] == gs;
    }
  }

  lemma {:induction false} HeadedFlatten(r: Regex, fs: seq<string>, sep: char) returns (ps: seq<string>)
    requires AllMatch(r, fs)
    ensures |ps| == |fs| && AllMatch(Cat(Sep(sep), r), ps) && Flatten(ps) == Headed(fs, sep)
  {
    if fs == [] {
      ps := [];
    } else {
      assert Matches(r, fs[0]);
      CatJoins(Sep(sep), r, [sep], fs[0]);
      var qs := HeadedFlatten(r, fs[1..], sep);
      ps := [[sep] + fs[0]] + qs;
      assert ps[1..] == qs;
    }
  }

  /** `(sep r){min,max}` */
  lemma RepHeaded(r: Regex, sep: char, min: nat, max: Option<nat>, s: string)
    ensures Matches(Rep(Cat(Sep(sep), r), min, max), s)
       <==> exists fs :: Within(|fs|, min, max) && AllMatch(r, fs) && s == Headed(fs, sep)
  {
    if Matches(Rep(Cat(Sep(sep), r), min, max), s) {
      var ps :| Within(|ps|, min, max) && AllMatch(Cat(Sep(sep), r), ps) && s == Flatten(ps);
      var fs := FlattenHeaded(r, ps, sep);
    }
    if exists fs :: Within(|fs|, min, max) && AllMatch(r, fs) && s == Headed(fs, sep) {
      var fs :| Within(|fs|, min, max) && AllMatch(r, fs) && s == Headed(fs, sep);
      var ps := HeadedFlatten(r, fs, sep);
    }
  }
}
