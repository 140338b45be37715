/** Dotted decimal addresses (matchIPv4Address). */
module Ipv4 {
  import opened Options
  import opened Decimal
  import opened Regex
  import opened Separated

  // ---------- the pattern ----------

  const DIGITS := Rep(Chr(DIGIT), 0, Some(3))

  /** `(\.[[:digit:]]{0,3})?` with group number `n` */
  function Part(n: nat): Regex {
    Rep(Group(n, Cat(Chr(One('.')), DIGITS)), 0, Some(1))
  }

  /** The last `n` optional parts; the last of all is group 4. */
  function Parts(n: nat): Regex
    requires 1 <= n <= 3
  {
    if n == 1 then Part(4) else Cat(Part(5 - n), Parts(n - 1))
  }

  const PATTERN := Cat(Group(1, DIGITS), Parts(3))

  // ---------- scanning the parts ----------

  function DigitsEnd(s: string, i: nat): (e: nat)
    requires i <= |s|
    ensures i <= e <= |s| && e - i <= 3
  {
    RunEnd(DIGIT, s, i, Some(3))
  }

  /** At most `n` parts, each a dot and up to three digits, up to the end of the text. */
  function ScanParts(s: string, e: nat, n: nat): (r: Option<seq<string>>)
    requires e <= |s|
    ensures r.Some? ==> |r.value| <= n
    decreases n
  {
    if e == |s| then Some([])
    else if n == 0 || s[e] != '.' then None
    else
      var q := DigitsEnd(s, e + 1);
      var r := ScanParts(s, q, n - 1);
      if r.Some? then Some([s[e..q]] + r.value) else None
  }

  function WithParts(caps: Captures, i: nat, r: Option<seq<string>>): (c: Option<Captures>)
    ensures c.Some? <==> r.Some?
    decreases if r.Some? then |r.value| else 0
  {
    if r.None? then None
    else if r.value == [] then Some(caps)
    else WithParts(caps[i := r.value[0]], i + 1, Some(r.value[1..]))
  }

  lemma {:induction false} MorePartsDoNoHarm(s: string, e: nat, n: nat)
    requires e <= |s| && ScanParts(s, e, n).Some?
    ensures ScanParts(s, e, n + 1) == ScanParts(s, e, n)
    decreases n
  {
    if e < |s| { MorePartsDoNoHarm(s, DigitsEnd(s, e + 1), n - 1); }
  }

  /** The part taken when there is a dot: it extends to the end of the digits, since what follows a part is a
      dot or the end. */
  lemma RunPart(n: nat, rest: Stack, s: string, e: nat, caps: Captures)
    requires e < |s| && s[e] == '.'
    requires forall j: nat | j <= |s| && Accepts(rest, s, j) :: j == |s| || s[j] == '.'
    ensures var q := DigitsEnd(s, e + 1);
            Run(Push(Expr(Part(n)), rest), s, e, caps)
            == if Accepts(rest, s, q) then Run(rest, s, q, caps[n := s[e..q]]) else Run(rest, s, e, caps)
  {
    var q := DigitsEnd(s, e + 1);
    var group := Group(n, Cat(Chr(One('.')), DIGITS));
    var again := Push(Again(group, 0, Some(0), e), rest);
    RunOptional(group, rest, s, e, caps);
    if Accepts(rest, s, q) {
      PartTaken(n, again, rest, s, e, caps);
    } else {
      PartRefused(n, again, rest, s, e);
      RunAccepts(Push(Expr(group), again), s, e, caps);
    }
  }

  lemma PartTaken(n: nat, again: Stack, rest: Stack, s: string, e: nat, caps: Captures)
    requires e < |s| && s[e] == '.' && Accepts(rest, s, DigitsEnd(s, e + 1))
    requires again == Push(Again(Group(n, Cat(Chr(One('.')), DIGITS)), 0, Some(0), e), rest)
    ensures var q := DigitsEnd(s, e + 1);
            Run(Push(Expr(Group(n, Cat(Chr(One('.')), DIGITS))), again), s, e, caps)
            == Run(rest, s, q, caps[n := s[e..q]])
            && Run(rest, s, q, caps[n := s[e..q]]).Some?
  {
    var q := DigitsEnd(s, e + 1);
    var close := Push(Close(n, e), again);
    RunAccepts(rest, s, q, caps[n := s[e..q]]);
    RunAgain(Group(n, Cat(Chr(One('.')), DIGITS)), e, rest, s, q, caps[n := s[e..q]]);
    assert Run(close, s, q, caps) == Run(again, s, q, caps[n := s[e..q]]);
    RunGreedy(DIGIT, 0, Some(3), close, s, e + 1, caps, q);
    RunCat(Chr(One('.')), DIGITS, close, s, e, caps);
    assert Run(Push(Expr(Chr(One('.'))), Push(Expr(DIGITS), close)), s, e, caps)
        == Run(Push(Expr(DIGITS), close), s, e + 1, caps);
  }

  lemma DotDigits(t: string)
    requires Matches(Cat(Chr(One('.')), DIGITS), t)
    ensures t != "" && t[0] == '.' && |t| <= 4 && AllIn(DIGIT, t[1..])
  {
    var c, d := CatParts(Chr(One('.')), DIGITS, t);
    ChrsMatch(DIGIT, 0, Some(3), d);
    assert t[1..] == d;
  }

  lemma DigitsUpTo(s: string, i: nat, j: nat)
    requires i <= j <= |s| && j - i <= 3 && AllIn(DIGIT, s[i..j])
    ensures j <= DigitsEnd(s, i) && (j < DigitsEnd(s, i) ==> s[j] != '.')
  {
    assert forall k | i <= k < j :: s[k] == s[i..j][k - i];
    RunEndFurthest(DIGIT, s, i, Some(3), j);
    assert j < DigitsEnd(s, i) ==> DIGIT.Has(s[j]);
  }

  lemma GroupEnd(group: Regex, s: string, e: nat, j: nat)
    requires e <= j <= |s| && group.Group? && group.body == Cat(Chr(One('.')), DIGITS) && Matches(group, s[e..j])
    ensures e < j <= DigitsEnd(s, e + 1) && (j < DigitsEnd(s, e + 1) ==> s[j] != '.')
  {
    DotDigits(s[e..j]);
    assert s[e..j][1..] == s[e + 1..j];
    DigitsUpTo(s, e + 1, j);
  }

  lemma PartRefused(n: nat, again: Stack, rest: Stack, s: string, e: nat)
    requires e < |s| && s[e] == '.' && !Accepts(rest, s, DigitsEnd(s, e + 1))
    requires forall j: nat | j <= |s| && Accepts(rest, s, j) :: j == |s| || s[j] == '.'
    requires again == Push(Again(Group(n, Cat(Chr(One('.')), DIGITS)), 0, Some(0), e), rest)
    ensures !Accepts(Push(Expr(Group(n, Cat(Chr(One('.')), DIGITS))), again), s, e)
  {
    var group := Group(n, Cat(Chr(One('.')), DIGITS));
    var q := DigitsEnd(s, e + 1);
    forall j: nat | e < j <= |s| && Matches(group, s[e..j]) ensures !Accepts(rest, s, j) {
      GroupEnd(group, s, e, j);
      assert j == q || s[j] != '.';
    }
    RoundRefused(group, rest, s, e);
  }

  lemma PartSkipped(n: nat, rest: Stack, s: string, e: nat, caps: Captures)
    requires e <= |s| && (e == |s| || s[e] != '.')
    ensures Run(Push(Expr(Part(n)), rest), s, e, caps) == Run(rest, s, e, caps)
  {
    var group := Group(n, Cat(Chr(One('.')), DIGITS));
    var again := Push(Again(group, 0, Some(0), e), rest);
    RunOptional(group, rest, s, e, caps);
    RunAccepts(Push(Expr(group), again), s, e, caps);
    forall j: nat | e <= j <= |s| && Matches(group, s[e..j]) ensures false {
      DotDigits(s[e..j]);
    }
  }

  lemma {:induction false} PartsAccept(s: string, j: nat, n: nat)
    requires j <= |s| && 1 <= n <= 3
    ensures Accepts(Push(Expr(Parts(n)), Done), s, j) <==> ScanParts(s, j, n).Some?
    decreases n, 1
  {
    RunParts(s, j, n, map[]);
    RunAccepts(Push(Expr(Parts(n)), Done), s, j, map[]);
  }

  lemma {:induction false} RunParts(s: string, e: nat, n: nat, caps: Captures)
    requires e <= |s| && 1 <= n <= 3
    ensures Run(Push(Expr(Parts(n)), Done), s, e, caps) == WithParts(caps, 5 - n, ScanParts(s, e, n))
    decreases n, 0
  {
    if n == 1 {
      RunLastPart(s, e, caps);
    } else {
      var rest := Push(Expr(Parts(n - 1)), Done);
      RunCat(Part(5 - n), Parts(n - 1), Done, s, e, caps);
      RunParts(s, e, n - 1, caps);
      if e < |s| && s[e] == '.' {
        var q := DigitsEnd(s, e + 1);
        forall j: nat | j <= |s| ensures Accepts(rest, s, j) <==> ScanParts(s, j, n - 1).Some? {
          PartsAccept(s, j, n - 1);
        }
        forall j: nat | j <= |s| && Accepts(rest, s, j) ensures j == |s| || s[j] == '.' {
          assert ScanParts(s, j, n - 1).Some?;
        }
        RunPart(5 - n, rest, s, e, caps);
        RunParts(s, q, n - 1, caps[5 - n := s[e..q]]);
        PartsStep(s, e, n, caps);
      } else {
        PartSkipped(5 - n, rest, s, e, caps);
      }
    }
  }

  lemma PartsStep(s: string, e: nat, n: nat, caps: Captures)
    requires e < |s| && s[e] == '.' && 2 <= n <= 3
    ensures var q := DigitsEnd(s, e + 1);
            if ScanParts(s, q, n - 1).Some? then
              WithParts(caps, 5 - n, ScanParts(s, e, n))
              == WithParts(caps[5 - n := s[e..q]], 6 - n, ScanParts(s, q, n - 1))
            else
              ScanParts(s, e, n).None? && ScanParts(s, e, n - 1).None?
  {
    var q := DigitsEnd(s, e + 1);
    var r := ScanParts(s, q, n - 1);
    if r.Some? {
      assert ([s[e..q]] + r.value)[1..] == r.value;
    } else if ScanParts(s, e, n - 1).Some? {
      MorePartsDoNoHarm(s, e, n - 1);
    }
  }

  lemma RunLastPart(s: string, e: nat, caps: Captures)
    requires e <= |s|
    ensures Run(Push(Expr(Part(4)), Done), s, e, caps) == WithParts(caps, 4, ScanParts(s, e, 1))
  {
    if e < |s| && s[e] == '.' {
      var q := DigitsEnd(s, e + 1);
      RunPart(4, Done, s, e, caps);
      assert [s[e..q]] + [] == [s[e..q]] && [s[e..q]][1..] == [];
      assert ScanParts(s, q, 0) == if q == |s| then Some([]) else None;
    } else {
      PartSkipped(4, Done, s, e, caps);
    }
  }

  /** For every string, the captures of the backtracking matcher are the parts found by the scanner. */
  lemma MatchIsScan(s: string)
    ensures var q := DigitsEnd(s, 0);
            Match(PATTERN, s) == WithParts(map[1 := s[0..q]], 2, ScanParts(s, q, 3))
  {
    var q := DigitsEnd(s, 0);
    var rest := Push(Expr(Parts(3)), Done);
    RunCat(Group(1, DIGITS), Parts(3), Done, s, 0, map[]);
    RunParts(s, q, 3, map[][1 := s[0..q]]);
    assert map[][1 := s[0..q]] == map[1 := s[0..q]];
    if ScanParts(s, q, 3).Some? {
      RunGroupGreedy(1, DIGIT, 0, Some(3), rest, s, 0, map[], q);
    } else {
      var k := Push(Expr(Group(1, DIGITS)), rest);
      RunAccepts(k, s, 0, map[]);
      forall j: nat | j <= |s| && Matches(Group(1, DIGITS), s[0..j]) ensures !Accepts(rest, s, j) {
        ChrsMatch(DIGIT, 0, Some(3), s[0..j]);
        DigitsUpTo(s, 0, j);
        RunParts(s, j, 3, map[]);
        RunAccepts(rest, s, j, map[]);
      }
    }
  }

  // ---------- captures and fields ----------

  predicate Digits3(f: string) {
    |f| <= 3 && AllDigits(f)
  }

  predicate AllDigits3(fs: seq<string>) {
    forall f | f in fs :: Digits3(f)
  }

  function Dotted(fs: seq<string>): seq<string> {
    if fs == [] then [] else ["." + fs[0]] + Dotted(fs[1..])
  }

  lemma {:induction false} ScanPartsText(s: string, e: nat, n: nat) returns (fs: seq<string>)
    requires e <= |s| && ScanParts(s, e, n).Some?
    ensures AllDigits3(fs) && |fs| <= n && ScanParts(s, e, n) == Some(Dotted(fs)) && s[e..] == Headed(fs, '.')
    decreases n
  {
    if e == |s| {
      fs := [];
    } else {
      var q := DigitsEnd(s, e + 1);
      var f := s[e + 1..q];
      var rest := ScanPartsText(s, q, n - 1);
      fs := [f] + rest;
      assert fs[1..] == rest && forall i | 0 <= i < |f| :: f[i] == s[e + 1 + i] && DIGIT.Has(f[i]);
      assert s[e..q] == "." + f && s[e..] == s[e..q] + s[q..];
    }
  }

  lemma HeadedFacts(s: string, e: nat, fs: seq<string>) returns (q: nat)
    requires e <= |s| && fs != [] && s[e..] == Headed(fs, '.')
    ensures e < |s| && s[e] == '.' && q == e + 1 + |fs[0]| && q <= |s|
    ensures s[e + 1..q] == fs[0] && s[e..q] == "." + fs[0] && s[q..] == Headed(fs[1..], '.')
    ensures q < |s| ==> s[q] == '.'
  {
    var f, rest := fs[0], Headed(fs[1..], '.');
    var t := s[e..];
    assert t == "." + f + rest;
    q := e + 1 + |f|;
    assert s[e] == t[0];
    assert s[e + 1..q] == t[1..1 + |f|];
    assert s[q..] == t[1 + |f|..];
    assert q < |s| ==> s[q] == rest[0];
  }

  lemma DigitsStop(s: string, i: nat, q: nat)
    requires i <= q <= |s| && Digits3(s[i..q]) && (q < |s| ==> s[q] == '.')
    ensures DigitsEnd(s, i) == q
  {
    forall k | i <= k < q ensures DIGIT.Has(s[k]) { assert s[k] == s[i..q][k - i]; }
    RunEndFurthest(DIGIT, s, i, Some(3), q);
  }

  lemma {:induction false} TextScanParts(s: string, e: nat, n: nat, fs: seq<string>)
    requires e <= |s| && |fs| <= n && AllDigits3(fs) && s[e..] == Headed(fs, '.')
    ensures ScanParts(s, e, n) == Some(Dotted(fs))
    decreases n
  {
    if fs != [] {
      var q := HeadedFacts(s, e, fs);
      assert Digits3(fs[0]);
      DigitsStop(s, e + 1, q);
      TextScanParts(s, q, n - 1, fs[1..]);
    }
  }

  // ---------- the check of the captured groups ----------

  /** Four fields of at most three digits; an empty field is accepted, a number above 255 or a leading zero
      is not. */
  predicate Field(f: string) {
    Digits3(f) && (f == "" || (Canonical(f) && Value(f) <= 255))
  }

  predicate FourFields(fs: seq<string>) {
    |fs| == 4 && forall f | f in fs :: Field(f)
  }

  predicate Ipv4Text(s: string) {
    FourFields(Split(s, '.'))
  }

  /** `stream >> group`: the number read from the digits; an empty text leaves the variable as it was. */
  function Extract(digits: string, group: nat): nat
    requires AllDigits(digits)
  {
    if digits == "" then group else Value(digits)
  }

  lemma DottedAt(fs: seq<string>, i: nat)
    requires i < |fs|
    ensures |Dotted(fs)| == |fs| && Dotted(fs)[i] == "." + fs[i]
  {
    if fs != [] && i > 0 { DottedAt(fs[1..], i - 1); }
    if fs != [] && |fs| > 1 && i == 0 { DottedAt(fs[1..], 0); }
  }

  /** The captures of a matching text: its fields, with their dots from the second on. */
  lemma CapturesAre(s: string) returns (fs: seq<string>)
    requires Match(PATTERN, s).Some?
    ensures 1 <= |fs| <= 4 && AllDigits3(fs) && Split(s, '.') == fs
    ensures forall i | 1 <= i <= 4 :: i in Match(PATTERN, s).value <==> i <= |fs|
    ensures forall i | 1 <= i <= |fs| :: Match(PATTERN, s).value[i] == if i == 1 then fs[0] else "." + fs[i - 1]
  {
    var q := DigitsEnd(s, 0);
    MatchIsScan(s);
    var rest := ScanPartsText(s, q, 3);
    fs := [s[0..q]] + rest;
    WithPartsAt(s[0..q], rest);
    FieldsOf(s, q, rest);
  }

  lemma FieldsOf(s: string, q: nat, rest: seq<string>)
    requires q == DigitsEnd(s, 0) && AllDigits3(rest) && s[q..] == Headed(rest, '.')
    ensures var fs := [s[0..q]] + rest; AllDigits3(fs) && s == Joined(fs, '.') && Split(s, '.') == fs
  {
    var fs := [s[0..q]] + rest;
    assert forall i | 0 <= i < q :: s[0..q][i] == s[i] && DIGIT.Has(s[i]);
    assert s == s[0..q] + s[q..];
    FieldsJoined(s[0..q], rest);
    DigitsFree(fs);
    SplitJoined(fs, '.');
  }

  lemma FieldsJoined(f: string, rest: seq<string>)
    ensures Joined([f] + rest, '.') == f + Headed(rest, '.')
  {
    if rest == [] {
      assert [f] + rest == [f];
    } else {
      assert ([f] + rest)[1..] == rest;
      HeadedJoined(rest, '.');
      assert f + "." + Joined(rest, '.') == f + ("." + Joined(rest, '.'));
    }
  }

  lemma DigitsFree(fs: seq<string>)
    requires AllDigits3(fs)
    ensures AllFree(fs, '.')
  {
    forall f | f in fs ensures Free(f, '.') { assert Digits3(f); }
  }

  lemma {:induction false} WithPartsMap(caps: Captures, i: nat, ps: seq<string>)
    ensures var c := WithParts(caps, i, Some(ps)).value;
            && (forall k: nat :: k in c <==> k in caps || i <= k < i + |ps|)
            && (forall k | k in c :: c[k] == if i <= k < i + |ps| then ps[k - i] else caps[k])
    decreases |ps|
  {
    if ps != [] {
      var next := caps[i := ps[0]];
      var c := WithParts(caps, i, Some(ps)).value;
      WithPartsMap(next, i + 1, ps[1..]);
      assert c == WithParts(next, i + 1, Some(ps[1..])).value;
      forall k: nat
        ensures k in c <==> k in caps || i <= k < i + |ps|
      {
        assert k in c <==> k in next || i + 1 <= k < i + |ps|;
      }
      forall k | k in c ensures c[k] == if i <= k < i + |ps| then ps[k - i] else caps[k] {
        assert c[k] == if i + 1 <= k < i + |ps| then ps[1..][k - i - 1] else next[k];
      }
    }
  }

  lemma WithPartsAt(f: string, fs: seq<string>)
    requires |fs| <= 3
    ensures var c := WithParts(map[1 := f], 2, Some(Dotted(fs))).value;
            && (forall i | 1 <= i <= 4 :: i in c <==> i <= |fs| + 1)
            && (forall i | 1 <= i <= |fs| + 1 :: c[i] == if i == 1 then f else "." + fs[i - 2])
  {
    WithPartsMap(map[1 := f], 2, Dotted(fs));
    forall i | 0 <= i < |fs| ensures |Dotted(fs)| == |fs| && Dotted(fs)[i] == "." + fs[i] { DottedAt(fs, i); }
  }

  /** A text of one to four fields matches. */
  lemma FieldsMatch(s: string, fs: seq<string>)
    requires 1 <= |fs| <= 4 && AllDigits3(fs) && s == Joined(fs, '.')
    ensures Match(PATTERN, s).Some?
  {
    var f, rest := fs[0], fs[1..];
    assert fs == [f] + rest && Digits3(f);
    FieldsJoined(f, rest);
    assert s[0..|f|] == f && s[|f|..] == Headed(rest, '.');
    assert |f| < |s| ==> s[|f|] == Headed(rest, '.')[0] == '.';
    DigitsStop(s, 0, |f|);
    assert forall g | g in rest :: g in fs;
    TextScanParts(s, |f|, 3, rest);
    MatchIsScan(s);
  }

  lemma FieldCheck(f: string)
    requires Digits3(f)
    ensures Field(f) <==> (f != "" ==> Value(f) <= 255) && !(|f| > 1 && f[0] == '0')
  {
  }

  /** The loop over the four captured groups. `fs` are the fields they stand for. */
  method CheckGroups(captures: Captures, ghost fs: seq<string>) returns (ok: bool)
    requires 1 <= |fs| <= 4 && AllDigits3(fs)
    requires forall i | 1 <= i <= 4 :: i in captures <==> i <= |fs|
    requires forall i | 1 <= i <= |fs| :: captures[i] == if i == 1 then fs[0] else "." + fs[i - 1]
    ensures ok <==> FourFields(fs)
  {
    var group := 0;
    var i := 1;
    while i <= 4
      invariant 1 <= i <= 5 && i - 1 <= |fs| && group <= 255
      invariant forall k | 0 <= k < i - 1 :: Field(fs[k])
    {
      if i !in captures {
        return false;
      }
      var digits := captures[i];
      if i > 1 {
        digits := digits[1..];
      }
      assert fs[i - 1] in fs && digits == fs[i - 1];
      FieldCheck(digits);
      group := Extract(digits, group);
      if group > 255 {
        return false;
      }
      if |digits| > 1 && digits[0] == '0' {
        return false;
      }
      i := i + 1;
    }
    return true;
  }

  /** matchIPv4Address: the match, then the check of each captured group. */
  method MatchIpv4(s: string) returns (ok: bool)
    ensures ok <==> Ipv4Text(s)
  {
    var m := Match(PATTERN, s);
    if m.None? {
      NoMatch(s);
      return false;
    }
    ghost var fs := CapturesAre(s);
    ok := CheckGroups(m.value, fs);
  }

  lemma NoMatch(s: string)
    requires Match(PATTERN, s).None?
    ensures !Ipv4Text(s)
  {
    var fs := Split(s, '.');
    JoinedSplit(s, '.');
    if Ipv4Text(s) {
      forall f | f in fs ensures Digits3(f) { assert Field(f); }
      FieldsMatch(s, fs);
    }
  }

  // ---------- canonical addresses ----------

  /** The canonical dotted decimal form of a 32-bit address in host order. */
  function Print4(address: nat): string
    requires address < 0x1_0000_0000
  {
    Joined([Print(address / 0x100_0000), Print(address / 0x1_0000 % 0x100),
            Print(address / 0x100 % 0x100), Print(address % 0x100)], '.')
  }

  function ReadFields(fs: seq<string>): nat
    requires FourFields(fs)
  {
    assert Field(fs[0]) && Field(fs[1]) && Field(fs[2]) && Field(fs[3]);
    ((Value(fs[0]) * 0x100 + Value(fs[1])) * 0x100 + Value(fs[2])) * 0x100 + Value(fs[3])
  }

  /** The address a text denotes. */
  function Read4(s: string): nat
    requires Ipv4Text(s)
  {
    ReadFields(Split(s, '.'))
  }

  lemma PrintField(n: nat)
    requires n <= 255
    ensures Field(Print(n)) && Print(n) != "" && Value(Print(n)) == n && Free(Print(n), '.')
  {
    ValueOfPrint(n);
    PrintCanonical(n);
    if n >= 10 { assert |Print(n / 10)| <= 2; }
  }

  lemma FieldValue(f: string)
    requires Field(f) && f != ""
    ensures Print(Value(f)) == f && Value(f) <= 255
  {
    PrintOfValue(f);
  }

  lemma Bytes(address: nat)
    requires address < 0x1_0000_0000
    ensures address / 0x100_0000 <= 255
    ensures ((address / 0x100_0000 * 0x100 + address / 0x1_0000 % 0x100) * 0x100 + address / 0x100 % 0x100) * 0x100
            + address % 0x100 == address
  {
    var a, b := address / 0x100, address / 0x1_0000;
    assert address == a * 0x100 + address % 0x100;
    assert a / 0x100 == b && a == b * 0x100 + a % 0x100;
    assert b / 0x100 == address / 0x100_0000 && b == b / 0x100 * 0x100 + b % 0x100;
  }

  /** Every printed address is accepted, and read back as the same address. */
  lemma PrintedIsRead(address: nat)
    requires address < 0x1_0000_0000
    ensures Ipv4Text(Print4(address)) && Read4(Print4(address)) == address
    ensures "" !in Split(Print4(address), '.')
  {
    var a, b, c, d := address / 0x100_0000, address / 0x1_0000 % 0x100, address / 0x100 % 0x100, address % 0x100;
    Bytes(address);
    PrintField(a);
    PrintField(b);
    PrintField(c);
    PrintField(d);
    SplitJoined([Print(a), Print(b), Print(c), Print(d)], '.');
  }

  /** The four numbers of a printed address, most significant first. */
  lemma PrintedFields(address: nat)
    requires address < 0x1_0000_0000
    ensures var fs := Split(Print4(address), '.');
      && FourFields(fs)
      && (forall i | 0 <= i < 4 :: Field(fs[i]) && fs[i] != "")
      && Value(fs[0]) == address / 0x100_0000 && Value(fs[1]) == address / 0x1_0000 % 0x100
      && Value(fs[2]) == address / 0x100 % 0x100 && Value(fs[3]) == address % 0x100
  {
    var a, b, c, d := address / 0x100_0000, address / 0x1_0000 % 0x100, address / 0x100 % 0x100, address % 0x100;
    PrintField(a);
    PrintField(b);
    PrintField(c);
    PrintField(d);
    SplitJoined([Print(a), Print(b), Print(c), Print(d)], '.');
  }

  lemma BytesOf(a: nat, b: nat, c: nat, d: nat) returns (n: nat)
    requires a <= 255 && b <= 255 && c <= 255 && d <= 255
    ensures n == ((a * 0x100 + b) * 0x100 + c) * 0x100 + d < 0x1_0000_0000
    ensures n / 0x100_0000 == a && n / 0x1_0000 % 0x100 == b && n / 0x100 % 0x100 == c && n % 0x100 == d
  {
    n := ((a * 0x100 + b) * 0x100 + c) * 0x100 + d;
  }

  lemma PrintOfBytes(a: nat, b: nat, c: nat, d: nat) returns (n: nat)
    requires a <= 255 && b <= 255 && c <= 255 && d <= 255
    ensures n == ((a * 0x100 + b) * 0x100 + c) * 0x100 + d < 0x1_0000_0000
    ensures Print4(n) == Joined([Print(a), Print(b), Print(c), Print(d)], '.')
  {
    n := BytesOf(a, b, c, d);
    Print4Is(n, a, b, c, d);
  }

  lemma Print4Is(n: nat, a: nat, b: nat, c: nat, d: nat)
    requires n < 0x1_0000_0000
    requires n / 0x100_0000 == a && n / 0x1_0000 % 0x100 == b && n / 0x100 % 0x100 == c && n % 0x100 == d
    ensures Print4(n) == Joined([Print(a), Print(b), Print(c), Print(d)], '.')
  {
  }

  lemma FieldNumbers(fs: seq<string>) returns (a: nat, b: nat, c: nat, d: nat)
    requires FourFields(fs) && "" !in fs
    ensures a <= 255 && b <= 255 && c <= 255 && d <= 255
    ensures ReadFields(fs) == ((a * 0x100 + b) * 0x100 + c) * 0x100 + d
    ensures fs == [Print(a), Print(b), Print(c), Print(d)]
  {
    assert Field(fs[0]) && Field(fs[1]) && Field(fs[2]) && Field(fs[3]);
    FieldValue(fs[0]);
    FieldValue(fs[1]);
    FieldValue(fs[2]);
    FieldValue(fs[3]);
    a, b, c, d := Value(fs[0]), Value(fs[1]), Value(fs[2]), Value(fs[3]);
  }

  lemma FieldsArePrinted(fs: seq<string>)
    requires FourFields(fs) && "" !in fs
    ensures ReadFields(fs) < 0x1_0000_0000 && Print4(ReadFields(fs)) == Joined(fs, '.')
  {
    var a, b, c, d := FieldNumbers(fs);
    var n := PrintOfBytes(a, b, c, d);
  }

  /** Every accepted text without empty fields is the printed form of the address it is read as. So accepted
      texts without empty fields and 32-bit addresses correspond one to one. */
  lemma ReadIsPrinted(s: string)
    requires Ipv4Text(s) && "" !in Split(s, '.')
    ensures Read4(s) < 0x1_0000_0000 && Print4(Read4(s)) == s
  {
    JoinedSplit(s, '.');
    FieldsArePrinted(Split(s, '.'));
  }
}
