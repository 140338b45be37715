/** File names of the log directory: "<PREFIX><SUFFIX>" for the log being written and
    "<PREFIX>_<NUMBER><SUFFIX>" for the old ones, the order in which the directory lists them, and the
    scanner that reads a number back out of a name. */
module LogNames {
  import opened Options
  import opened Decimal

  const SUFFIX := ".log"

  /** `numberAt` is where the scanner starts in a name. The source starts |programName| characters in
      (see `Literal`); the naming schema puts the number |prefix| + 1 characters in (see `Schema`). */
  datatype Naming = Naming(programName: string, prefix: string, numberAt: nat, maximum: nat) {
    function Current(): string {
      programName + SUFFIX
    }

    function Slot(n: nat): string {
      prefix + "_" + Print(n) + SUFFIX
    }

    function Top(): nat
      requires maximum >= 1
    {
      maximum - 1
    }

    /** The log being written is listed, is not itself a numbered log, and numbers are looked for where
        the schema puts them. */
    ghost predicate Regular() {
      && maximum >= 1
      && prefix <= programName
      && numberAt == |prefix| + 1
      && forall n {:trigger Slot(n)} :: Slot(n) != Current()
    }
  }

  function Literal(programName: string, prefix: string, maximum: nat): Naming {
    Naming(programName, prefix, |programName|, maximum)
  }

  function Schema(programName: string, prefix: string, maximum: nat): Naming {
    Naming(programName, prefix, |prefix| + 1, maximum)
  }

  predicate IsSpace(c: char) {
    c == ' ' || c == '\t' || c == '\n' || c == '\r' || c as int == 11 || c as int == 12
  }

  function SkipSpace(s: string): string {
    if s == "" || !IsSpace(s[0]) then s else SkipSpace(s[1..])
  }

  const UINT_RANGE := 0x1_0000_0000

  /** `sscanf (s, "%u...")`: the number converted, or None when no digit is found. Text after the digits
      does not undo the conversion. */
  function ScanUnsigned(s: string): (r: Option<nat>)
    ensures r.Some? ==> r.value < UINT_RANGE
  {
    var t := SkipSpace(s);
    var signed := t != "" && (t[0] == '-' || t[0] == '+');
    var u := if signed then t[1..] else t;
    var k := DigitRun(u);
    if k == 0 then None
    else
      var v := Value(u[..k]) % UINT_RANGE;
      if signed && t[0] == '-' then Some((UINT_RANGE - v) % UINT_RANGE) else Some(v)
  }

  function ReadNumber(name: string, at: nat): (r: Option<nat>)
    ensures r.Some? ==> r.value < UINT_RANGE
  {
    if at > |name| then None else ScanUnsigned(name[at..])
  }

  /** `strcmp (a, b) < 0`. */
  predicate StrLess(a: string, b: string) {
    if b == "" then false
    else if a == "" then true
    else if a[0] != b[0] then a[0] < b[0]
    else StrLess(a[1..], b[1..])
  }

  /** What scandir returns: the names that start with the prefix, each once, in ascending order. */
  ghost predicate Listing(entries: seq<string>, names: set<string>, prefix: string) {
    && (forall e :: e in entries <==> e in names && prefix <= e)
    && Ascending(entries)
  }

  ghost predicate Ascending(entries: seq<string>) {
    entries == [] ||
    (var last, init := entries[|entries| - 1], entries[..|entries| - 1];
     (forall e | e in init :: StrLess(e, last)) && Ascending(init))
  }

  // ---------- the name order is a strict total order ----------

  lemma {:induction false} StrLessIrreflexive(a: string)
    ensures !StrLess(a, a)
  {
    if a != "" { StrLessIrreflexive(a[1..]); }
  }

  lemma {:induction false} StrLessTotal(a: string, b: string)
    ensures a == b || StrLess(a, b) || StrLess(b, a)
  {
    if a != "" && b != "" && a[0] == b[0] {
      StrLessTotal(a[1..], b[1..]);
      assert a == [a[0]] + a[1..] && b == [b[0]] + b[1..];
    }
  }

  lemma {:induction false} StrLessTransitive(a: string, b: string, c: string)
    requires StrLess(a, b) && StrLess(b, c)
    ensures StrLess(a, c)
  {
    if a != "" && a[0] == b[0] && b[0] == c[0] { StrLessTransitive(a[1..], b[1..], c[1..]); }
  }

  /** A common beginning does not matter. */
  lemma {:induction false} StrLessCommonPrefix(p: string, a: string, b: string)
    ensures StrLess(p + a, p + b) == StrLess(a, b)
  {
    if p == "" {
      assert p + a == a && p + b == b;
    } else {
      assert (p + a)[1..] == p[1..] + a && (p + b)[1..] == p[1..] + b;
      StrLessCommonPrefix(p[1..], a, b);
    }
  }

  /** A difference in equally long beginnings decides. */
  lemma {:induction false} StrLessDecided(a: string, b: string, x: string, y: string)
    requires |a| == |b| && a != b
    ensures StrLess(a + x, b + y) == StrLess(a, b)
  {
    assert (a + x)[1..] == a[1..] + x && (b + y)[1..] == b[1..] + y;
    if a[0] == b[0] {
      assert a == [a[0]] + a[1..] && b == [b[0]] + b[1..];
      StrLessDecided(a[1..], b[1..], x, y);
    }
  }

  // ---------- order of the numbered names ----------

  /** Equally long numerals are listed in numeric order. */
  lemma {:induction false} NumeralOrder(s: string, t: string)
    requires AllDigits(s) && AllDigits(t) && |s| == |t|
    ensures StrLess(s, t) <==> Value(s) < Value(t)
    ensures s == t <==> Value(s) == Value(t)
  {
    if s != "" {
      var s', t' := s[..|s| - 1], t[..|t| - 1];
      var c, d := s[|s| - 1], t[|t| - 1];
      assert s == s' + [c] && t == t' + [d];
      NumeralOrder(s', t');
      if s' == t' {
        StrLessCommonPrefix(s', [c], [d]);
      } else {
        StrLessDecided(s', t', [c], [d]);
      }
    }
  }

  /** Removing the last `k` digits of `n`. */
  function Lead(n: nat, k: nat): nat {
    if k == 0 then n else Lead(n / 10, k - 1)
  }

  /** `a` does not exceed the number formed by the first |Print(a)| digits of `b`. */
  predicate WithinLead(a: nat, b: nat) {
    |Print(a)| <= |Print(b)| && a <= Lead(b, |Print(b)| - |Print(a)|)
  }

  lemma {:induction false} PrintLead(n: nat, k: nat)
    requires k < |Print(n)|
    ensures Print(n)[..|Print(n)| - k] == Print(Lead(n, k))
  {
    if k == 0 {
      assert Print(n)[..|Print(n)|] == Print(n);
    } else {
      PrintLead(n / 10, k - 1);
      assert Print(n)[..|Print(n)| - k] == Print(n / 10)[..|Print(n / 10)| - (k - 1)];
    }
  }

  lemma SlotSplit(nm: Naming, n: nat, x: string, y: string)
    requires Print(n) == x + y
    ensures nm.Slot(n) == (nm.prefix + "_") + (x + (y + SUFFIX))
  {
  }

  /** When the directory lists one numbered log before another, exactly: the smaller number comes first
      unless it exceeds the leading digits of the longer one (as 9 exceeds the 1 of 10). */
  lemma SlotOrder(nm: Naming, a: nat, b: nat)
    requires |Print(a)| <= |Print(b)| && a != b
    ensures StrLess(nm.Slot(a), nm.Slot(b)) <==> WithinLead(a, b)
  {
    var b' := Lead(b, |Print(b)| - |Print(a)|);
    var u := Print(b)[|Print(a)|..];
    PrintLead(b, |Print(b)| - |Print(a)|);
    if a == b' && u == "" { ValueOfPrint(a); ValueOfPrint(b); }
    SlotSplit(nm, a, Print(a), "");
    SlotSplit(nm, b, Print(b'), u);
    NumeralOrderExtended(a, b', u);
    assert "" + SUFFIX == SUFFIX;
    StrLessCommonPrefix(nm.prefix + "_", Print(a) + SUFFIX, Print(b') + (u + SUFFIX));
  }

  lemma {:induction false} PrintLonger(a: nat, b: nat)
    requires a <= b
    ensures |Print(a)| <= |Print(b)|
  {
    if a >= 10 { PrintLonger(a / 10, b / 10); }
  }

  lemma PairOrder(nm: Naming, a: nat, b: nat)
    requires a < b
    ensures StrLess(nm.Slot(a), nm.Slot(b)) <==> WithinLead(a, b)
  {
    PrintLonger(a, b);
    SlotOrder(nm, a, b);
  }

  lemma NumeralOrderExtended(a: nat, b': nat, u: string)
    requires |Print(a)| == |Print(b')| && AllDigits(u) && (a == b' ==> u != "")
    ensures StrLess(Print(a) + SUFFIX, Print(b') + (u + SUFFIX)) <==> a <= b'
  {
    ValueOfPrint(a);
    ValueOfPrint(b');
    NumeralOrder(Print(a), Print(b'));
    if a == b' {
      StrLessCommonPrefix(Print(a), SUFFIX, u + SUFFIX);
      assert (u + SUFFIX)[0] == u[0];
    } else {
      StrLessDecided(Print(a), Print(b'), SUFFIX, u + SUFFIX);
    }
  }

  /** The names, spelled out: the prefix, an underscore, the number without superfluous zeros, the suffix. */
  lemma NamesSpelled(nm: Naming, n: nat)
    ensures nm.Current() == nm.programName + ".log"
    ensures var s, k := nm.Slot(n), |nm.Slot(n)| - 4;
      && |nm.prefix| + 1 < k && nm.prefix < s && s[|nm.prefix|] == '_' && s[k..] == ".log"
      && Canonical(s[|nm.prefix| + 1..k]) && Value(s[|nm.prefix| + 1..k]) == n
  {
    var s, k := nm.Slot(n), |nm.Slot(n)| - 4;
    assert s[|nm.prefix| + 1..k] == Print(n);
    ValueOfPrint(n);
    PrintCanonical(n);
  }

  lemma SlotInjective(nm: Naming, a: nat, b: nat)
    requires nm.Slot(a) == nm.Slot(b)
    ensures a == b
  {
    var x, y := nm.Slot(a), nm.Slot(b);
    var k := |nm.prefix| + 1;
    assert |Print(a)| == |Print(b)|;
    assert Print(a) == x[k..k + |Print(a)|] && Print(b) == y[k..k + |Print(b)|];
    ValueOfPrint(a); ValueOfPrint(b);
  }

  // ---------- reading the number back ----------

  lemma SmallRemainder(n: nat)
    requires n < UINT_RANGE
    ensures n % UINT_RANGE == n
  {
  }

  lemma ScanReadsNumeral(n: nat, rest: string)
    requires n < UINT_RANGE && (rest == "" || !IsDigit(rest[0]))
    ensures ScanUnsigned(Print(n) + rest) == Some(n)
  {
    var numeral := Print(n);
    var s := numeral + rest;
    assert IsDigit(s[0]);
    assert SkipSpace(s) == s;
    DigitRunStops(numeral, rest);
    assert s[..|numeral|] == numeral;
    ValueOfPrint(n);
    SmallRemainder(n);
  }

  /** White space, a sign or none, digits, and what does not continue them. */
  predicate Numeral(s: string, blanks: string, sign: string, digits: string, rest: string) {
    && s == blanks + (sign + (digits + rest))
    && (forall i | 0 <= i < |blanks| :: blanks[i] == ' ' || 9 <= blanks[i] as int <= 13)
    && (sign == "" || sign == "+" || sign == "-")
    && digits != "" && AllDigits(digits) && (rest == "" || !IsDigit(rest[0]))
  }

  /** The number is taken modulo 2^32, and a minus sign negates it. */
  function Converted(sign: string, digits: string): nat
    requires AllDigits(digits)
  {
    var v := Value(digits) % 0x1_0000_0000;
    if sign == "-" && v > 0 then 0x1_0000_0000 - v else v
  }

  lemma {:induction false} SkipBlanks(blanks: string, u: string)
    requires forall i | 0 <= i < |blanks| :: IsSpace(blanks[i])
    requires u == "" || !IsSpace(u[0])
    ensures SkipSpace(blanks + u) == u
  {
    if blanks == "" {
      assert blanks + u == u;
    } else {
      assert (blanks + u)[1..] == blanks[1..] + u;
      SkipBlanks(blanks[1..], u);
    }
  }

  lemma {:induction false} Blanks(s: string) returns (blanks: string)
    ensures s == blanks + SkipSpace(s) && forall i | 0 <= i < |blanks| :: IsSpace(blanks[i])
  {
    if s == "" || !IsSpace(s[0]) {
      blanks := "";
    } else {
      var more := Blanks(s[1..]);
      blanks := [s[0]] + more;
    }
  }

  lemma NumeralScanned(s: string, blanks: string, sign: string, digits: string, rest: string)
    requires Numeral(s, blanks, sign, digits, rest)
    ensures ScanUnsigned(s) == Some(Converted(sign, digits))
  {
    var t := sign + (digits + rest);
    assert t[0] == if sign == "" then digits[0] else sign[0];
    SkipBlanks(blanks, t);
    DigitRunStops(digits, rest);
    assert (digits + rest)[..|digits|] == digits;
    if sign == "" {
      assert t == digits + rest;
    } else {
      assert t[1..] == digits + rest;
    }
  }

  lemma SignAndDigits(t: string) returns (sign: string, digits: string, rest: string)
    requires t == "" || !IsSpace(t[0])
    requires ScanUnsigned(t).Some?
    ensures Numeral(t, "", sign, digits, rest)
  {
    var u;
    if t[0] == '-' || t[0] == '+' {
      sign, u := [t[0]], t[1..];
    } else {
      sign, u := "", t;
    }
    var k := DigitRun(u);
    digits, rest := u[..k], u[k..];
    NumeralParts(t, sign, u, k);
  }

  lemma NumeralParts(t: string, sign: string, u: string, k: nat)
    requires t == sign + u && k <= |u|
    ensures t == "" + (sign + (u[..k] + u[k..]))
  {
    assert u[..k] + u[k..] == u;
  }

  lemma ScannedNumeral(s: string) returns (blanks: string, sign: string, digits: string, rest: string)
    requires ScanUnsigned(s).Some?
    ensures Numeral(s, blanks, sign, digits, rest)
  {
    var t := SkipSpace(s);
    blanks := Blanks(s);
    NoBlanks(s);
    sign, digits, rest := SignAndDigits(t);
    assert t == sign + (digits + rest);
  }

  lemma {:induction false} NoBlanks(s: string)
    ensures var t := SkipSpace(s); (t == "" || !IsSpace(t[0])) && SkipSpace(t) == t
  {
    if s != "" && IsSpace(s[0]) { NoBlanks(s[1..]); }
  }

  /** What the scanner reads, for every text. */
  lemma ScanIff(s: string, n: nat)
    ensures ScanUnsigned(s) == Some(n)
       <==> exists blanks, sign, digits, rest :: Numeral(s, blanks, sign, digits, rest) && n == Converted(sign, digits)
  {
    if ScanUnsigned(s) == Some(n) {
      var blanks, sign, digits, rest := ScannedNumeral(s);
      NumeralScanned(s, blanks, sign, digits, rest);
    }
    if blanks, sign, digits, rest :| Numeral(s, blanks, sign, digits, rest) && n == Converted(sign, digits) {
      NumeralScanned(s, blanks, sign, digits, rest);
    }
  }

  lemma SchemaReadsBack(nm: Naming, n: nat)
    requires n < UINT_RANGE
    ensures ReadNumber(nm.Slot(n), |nm.prefix| + 1) == Some(n)
  {
    assert nm.Slot(n)[|nm.prefix| + 1..] == Print(n) + SUFFIX;
    ScanReadsNumeral(n, SUFFIX);
  }

  /** Scanning text in front of an underscore does not see what follows the underscore. */
  lemma {:induction false} ScanStopsAtUnderscore(p: string, x: string, y: string)
    ensures ScanUnsigned(p + "_" + x) == ScanUnsigned(p + "_" + y)
  {
    var s, t := p + "_" + x, p + "_" + y;
    if p == "" {
      assert s[0] == '_' && t[0] == '_';
    } else if IsSpace(p[0]) {
      assert s[1..] == p[1..] + "_" + x && t[1..] == p[1..] + "_" + y;
      ScanStopsAtUnderscore(p[1..], x, y);
    } else {
      NoSpaceScan(p, x);
      NoSpaceScan(p, y);
    }
  }

  lemma NoSpaceScan(p: string, x: string)
    requires p != "" && !IsSpace(p[0])
    ensures ScanUnsigned(p + "_" + x) == ScanUnsigned(p)
  {
    var s := p + "_" + x;
    assert SkipSpace(s) == s && SkipSpace(p) == p;
    if p[0] == '-' || p[0] == '+' {
      assert s[1..] == p[1..] + "_" + x;
      RunStopsAtUnderscore(p[1..], x);
    } else {
      RunStopsAtUnderscore(p, x);
    }
  }

  lemma {:induction false} RunStopsAtUnderscore(q: string, x: string)
    ensures DigitRun(q + "_" + x) == DigitRun(q)
    ensures (q + "_" + x)[..DigitRun(q)] == q[..DigitRun(q)]
  {
    if q != "" {
      assert (q + "_" + x)[1..] == q[1..] + "_" + x;
      RunStopsAtUnderscore(q[1..], x);
    }
  }

  /** The scanner reads every number back from its name if and only if it starts right after the
      underscore. The source starts |programName| characters in, so with `programName == prefix` it meets
      the underscore itself. */
  lemma ReadsBackIff(nm: Naming, at: nat)
    ensures (forall n | 1 <= n < UINT_RANGE :: ReadNumber(nm.Slot(n), at) == Some(n)) <==> at == |nm.prefix| + 1
  {
    if at == |nm.prefix| + 1 {
      forall n | 1 <= n < UINT_RANGE ensures ReadNumber(nm.Slot(n), at) == Some(n) { SchemaReadsBack(nm, n); }
    } else if at <= |nm.prefix| {
      var p := nm.prefix[at..];
      assert nm.Slot(1)[at..] == p + "_" + (Print(1) + SUFFIX);
      assert nm.Slot(2)[at..] == p + "_" + (Print(2) + SUFFIX);
      ScanStopsAtUnderscore(p, Print(1) + SUFFIX, Print(2) + SUFFIX);
      assert ReadNumber(nm.Slot(1), at) == ReadNumber(nm.Slot(2), at);
    } else {
      var name := nm.Slot(1);
      assert Print(1) == "1";
      assert name[|nm.prefix| + 1..] == "1.log";
      if at <= |name| {
        assert name[at..] == "1.log"[at - |nm.prefix| - 1..];
        PastTheDigit(at - |nm.prefix| - 1);
      }
      assert ReadNumber(name, at) == None;
    }
  }

  lemma PastTheDigit(k: nat)
    requires 1 <= k <= 5
    ensures ScanUnsigned("1.log"[k..]) == None
  {
    var s := "1.log"[k..];
    assert s == "" || s[0] == "1.log"[k];
  }

  /** What the source as written does with the numbered logs when `programName` is the prefix: it does
      not recognise any of them. */
  lemma LiteralSkipsSlots(nm: Naming, n: nat)
    requires nm.numberAt == |nm.prefix|
    ensures ReadNumber(nm.Slot(n), nm.numberAt) == None
  {
    var s := nm.Slot(n)[nm.numberAt..];
    assert s[0] == '_';
  }

  // ---------- a listing exists ----------

  lemma {:induction false} ListingExists(names: set<string>, prefix: string)
    ensures exists entries :: Listing(entries, names, prefix)
  {
    if names == {} {
      assert Listing([], names, prefix);
    } else {
      var e :| e in names;
      ListingExists(names - {e}, prefix);
      var rest :| Listing(rest, names - {e}, prefix);
      if prefix <= e {
        var entries := Insert(rest, e);
        assert Listing(entries, names, prefix);
      } else {
        assert Listing(rest, names, prefix);
      }
    }
  }

  lemma {:induction false} Insert(s: seq<string>, e: string) returns (r: seq<string>)
    requires Ascending(s) && e !in s
    ensures Ascending(r) && forall x :: x in r <==> x == e || x in s
    decreases |s|
  {
    if s == [] {
      r := [e];
    } else {
      var last, init := s[|s| - 1], s[..|s| - 1];
      assert s == init + [last];
      StrLessTotal(e, last);
      if StrLess(last, e) {
        r := s + [e];
        forall x | x in s ensures StrLess(x, e) {
          if x != last { StrLessTransitive(x, last, e); }
        }
        assert r[..|s|] == s;
      } else {
        var rest := Insert(init, e);
        r := rest + [last];
        assert r[..|rest|] == rest;
      }
    }
  }
}
