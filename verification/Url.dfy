/** Scheme, host and port of a URL (URLToHostName, URLToProtocol). */
module Url {
  import opened Options
  import opened Regex

  // ---------- the pattern ----------

  const HOST_CHAR := Except(Either(One('/'), One(':')))

  const SCHEME := Cat(Group(1, Rep(Chr(ALPHA), 1, None)), Lit("://"))
  const HOST := Group(2, Rep(Chr(HOST_CHAR), 1, None))
  const PORT := Cat(Chr(One(':')), Group(3, Rep(Chr(DIGIT), 1, Some(5))))
  const REST := Rep(Chr(ANY), 1, None)

  const PATTERN := Cat(Rep(SCHEME, 0, Some(1)), Cat(HOST, Cat(Rep(PORT, 0, Some(1)), Rep(REST, 0, Some(1)))))

  // ---------- a scanner that never goes back ----------

  datatype Parts = Parts(scheme: Option<string>, host: string, port: Option<string>)

  /** Where the port ends when the host ends at `e`: a colon and one to five digits, or nothing. */
  function PortEnd(s: string, e: nat): (q: nat)
    requires e <= |s|
    ensures e <= q <= |s|
  {
    if e < |s| && s[e] == ':' && RunEnd(DIGIT, s, e + 1, Some(5)) > e + 1 then RunEnd(DIGIT, s, e + 1, Some(5)) else e
  }

  /** Host and port from position `p` on: the longest run without '/' and ':', then the port, then anything
      without a line terminator. */
  function ScanHost(s: string, p: nat, scheme: Option<string>): Option<Parts>
    requires p <= |s|
  {
    var e := RunEnd(HOST_CHAR, s, p, None);
    var q := PortEnd(s, e);
    if e == p || !OneLine(s[q..]) then None
    else Some(Parts(scheme, s[p..e], if q > e then Some(s[e + 1..q]) else None))
  }

  /** The end of "letters://" at the beginning, if there is one. */
  function SchemeEnd(s: string): (r: Option<nat>)
    ensures r.Some? ==> 3 < r.value <= |s|
  {
    var a := RunEnd(ALPHA, s, 0, None);
    if a > 0 && a + 3 <= |s| && s[a..a + 3] == "://" then Some(a + 3) else None
  }

  function Scan(s: string): Option<Parts> {
    var a := SchemeEnd(s);
    if a.Some? && ScanHost(s, a.value, None).Some? then ScanHost(s, a.value, Some(s[..a.value - 3]))
    else ScanHost(s, 0, None)
  }

  function CapturesOf(parts: Parts): Captures {
    var scheme: Captures := if parts.scheme.Some? then map[1 := parts.scheme.value] else map[];
    var host := scheme[2 := parts.host];
    if parts.port.Some? then host[3 := parts.port.value] else host
  }

  // ---------- the matcher does what the scanner does ----------

  const TAIL := Push(Expr(Rep(PORT, 0, Some(1))), Push(Expr(Rep(REST, 0, Some(1))), Done))

  /** `(?:.+)?` takes all that is left. */
  lemma RunRest(s: string, q: nat, caps: Captures)
    requires q <= |s|
    ensures Run(Push(Expr(Rep(REST, 0, Some(1))), Done), s, q, caps) == if OneLine(s[q..]) then Some(caps) else None
  {
    RunAccepts(Push(Expr(Rep(REST, 0, Some(1))), Done), s, q, caps);
    if OneLine(s[q..]) {
      RunOptional(REST, Done, s, q, caps);
      if q < |s| {
        var again := Push(Again(REST, 0, Some(0), q), Done);
        RunAgain(REST, q, Done, s, |s|, caps);
        forall k | q <= k < |s| ensures ANY.Has(s[k]) { assert s[k] == s[q..][k - q]; }
        RunGreedy(ANY, 1, None, again, s, q, caps, |s|);
      }
    } else {
      RestMatches(s[q..]);
      assert s[q..|s|] == s[q..];
    }
  }

  lemma RestMatches(t: string)
    ensures Matches(Rep(REST, 0, Some(1)), t) <==> OneLine(t)
  {
    OptionalMatches(REST, t);
    ChrsMatch(ANY, 1, None, t);
  }

  /** Whatever the port takes, it ends at `PortEnd` at the latest. */
  lemma PortWithin(s: string, e: nat, j: nat)
    requires e <= j <= |s| && Matches(Rep(PORT, 0, Some(1)), s[e..j])
    ensures j <= PortEnd(s, e)
  {
    OptionalMatches(PORT, s[e..j]);
    if e < j {
      PortText(s[e..j]);
      var t := s[e..j];
      assert t[0] == s[e] && forall k | e + 1 <= k < j :: s[k] == t[1..][k - e - 1];
      RunEndFurthest(DIGIT, s, e + 1, Some(5), j);
    }
  }

  lemma PortText(t: string)
    requires Matches(PORT, t)
    ensures t != "" && t[0] == ':' && 1 <= |t| - 1 <= 5 && AllIn(DIGIT, t[1..])
  {
    var c, d := CatParts(Chr(One(':')), Group(3, Rep(Chr(DIGIT), 1, Some(5))), t);
    ChrsMatch(DIGIT, 1, Some(5), d);
    assert t[1..] == d;
  }

  /** From the end of the host: the port, if any, then the rest. */
  lemma RunTail(s: string, e: nat, caps: Captures)
    requires e <= |s|
    ensures var q := PortEnd(s, e);
            Run(TAIL, s, e, caps)
            == if OneLine(s[q..]) then Some(if q > e then caps[3 := s[e + 1..q]] else caps) else None
  {
    var q := PortEnd(s, e);
    if !OneLine(s[q..]) {
      TailFails(s, e);
      RunAccepts(TAIL, s, e, caps);
    } else if q > e {
      RunPort(s, e, caps);
      RunOptional(PORT, TAIL.rest, s, e, caps);
    } else {
      NoPort(s, e, caps);
      RunOptional(PORT, TAIL.rest, s, e, caps);
      RunRest(s, e, caps);
    }
  }

  lemma TailFails(s: string, e: nat)
    requires e <= |s| && !OneLine(s[PortEnd(s, e)..])
    ensures !Accepts(TAIL, s, e)
  {
    if j :| e <= j <= |s| && Matches(Rep(PORT, 0, Some(1)), s[e..j]) && Accepts(TAIL.rest, s, j) {
      PortWithin(s, e, j);
      RunAccepts(TAIL.rest, s, j, map[]);
      RunRest(s, j, map[]);
      assert false;
    }
  }

  lemma RunPort(s: string, e: nat, caps: Captures)
    requires e <= |s| && PortEnd(s, e) > e && OneLine(s[PortEnd(s, e)..])
    ensures Run(Push(Expr(PORT), Push(Again(PORT, 0, Some(0), e), TAIL.rest)), s, e, caps)
         == Some(caps[3 := s[e + 1..PortEnd(s, e)]])
  {
    var q := PortEnd(s, e);
    var again := Push(Again(PORT, 0, Some(0), e), TAIL.rest);
    var digits := Group(3, Rep(Chr(DIGIT), 1, Some(5)));
    RunRest(s, q, caps[3 := s[e + 1..q]]);
    RunAgain(PORT, e, TAIL.rest, s, q, caps[3 := s[e + 1..q]]);
    RunGroupGreedy(3, DIGIT, 1, Some(5), again, s, e + 1, caps, q);
    RunCat(Chr(One(':')), digits, again, s, e, caps);
    assert Run(Push(Expr(Chr(One(':'))), Push(Expr(digits), again)), s, e, caps)
        == Run(Push(Expr(digits), again), s, e + 1, caps);
  }

  lemma NoPort(s: string, e: nat, caps: Captures)
    requires e <= |s| && PortEnd(s, e) == e
    ensures Run(Push(Expr(PORT), Push(Again(PORT, 0, Some(0), e), TAIL.rest)), s, e, caps) == None
  {
    var k := Push(Expr(PORT), Push(Again(PORT, 0, Some(0), e), TAIL.rest));
    RunAccepts(k, s, e, caps);
    if j :| e <= j <= |s| && Matches(PORT, s[e..j]) && Accepts(k.rest, s, j) {
      OptionalMatches(PORT, s[e..j]);
      PortWithin(s, e, j);
      PortText(s[e..j]);
      assert false;
    }
  }

  const HOST_TAIL := Push(Expr(Cat(Rep(PORT, 0, Some(1)), Rep(REST, 0, Some(1)))), Done)

  lemma RunHostTail(s: string, e: nat, caps: Captures)
    requires e <= |s|
    ensures var q := PortEnd(s, e);
            Run(HOST_TAIL, s, e, caps)
            == if OneLine(s[q..]) then Some(if q > e then caps[3 := s[e + 1..q]] else caps) else None
  {
    RunCat(Rep(PORT, 0, Some(1)), Rep(REST, 0, Some(1)), Done, s, e, caps);
    RunTail(s, e, caps);
  }

  /** From the beginning of the host. */
  lemma RunHost(s: string, p: nat, caps: Captures)
    requires p <= |s|
    ensures var r := ScanHost(s, p, None);
            Run(Push(Expr(HOST), HOST_TAIL), s, p, caps)
            == if r.None? then None
               else if r.value.port.Some? then Some(caps[2 := r.value.host][3 := r.value.port.value])
               else Some(caps[2 := r.value.host])
  {
    var e := RunEnd(HOST_CHAR, s, p, None);
    if ScanHost(s, p, None).Some? {
      RunHostTail(s, e, caps[2 := s[p..e]]);
      RunGroupGreedy(2, HOST_CHAR, 1, None, HOST_TAIL, s, p, caps, e);
    } else {
      HostFails(s, p);
      RunAccepts(Push(Expr(HOST), HOST_TAIL), s, p, caps);
    }
  }

  lemma HostFails(s: string, p: nat)
    requires p <= |s| && ScanHost(s, p, None).None?
    ensures !Accepts(Push(Expr(HOST), HOST_TAIL), s, p)
  {
    if j :| p <= j <= |s| && Matches(HOST, s[p..j]) && Accepts(HOST_TAIL, s, j) {
      var t := s[p..j];
      ChrsMatch(HOST_CHAR, 1, None, t);
      assert forall k | p <= k < j :: s[k] == t[k - p];
      RunEndFurthest(HOST_CHAR, s, p, None, j);
      RunAccepts(HOST_TAIL, s, j, map[]);
      RunHostTail(s, j, map[]);
      EarlierEnd(s, j, RunEnd(HOST_CHAR, s, p, None));
      assert false;
    }
  }

  /** Ending the host earlier only leaves more to the rest. */
  lemma EarlierEnd(s: string, j: nat, e: nat)
    requires j <= e <= |s| && (j < e ==> HOST_CHAR.Has(s[j])) && OneLine(s[PortEnd(s, j)..])
    ensures OneLine(s[PortEnd(s, e)..])
  {
    if j < e {
      assert PortEnd(s, j) == j;
      var q := PortEnd(s, e);
      assert forall i | 0 <= i < |s[q..]| :: s[q..][i] == s[j..][q - j + i];
    }
  }

  // ---------- the scheme ----------

  const WHOLE := Push(Expr(Cat(HOST, Cat(Rep(PORT, 0, Some(1)), Rep(REST, 0, Some(1))))), Done)

  function WithPort(caps: Captures, r: Option<Parts>): Option<Captures> {
    if r.None? then None
    else if r.value.port.Some? then Some(caps[2 := r.value.host][3 := r.value.port.value])
    else Some(caps[2 := r.value.host])
  }

  lemma RunWhole(s: string, p: nat, caps: Captures)
    requires p <= |s|
    ensures Run(WHOLE, s, p, caps) == WithPort(caps, ScanHost(s, p, None))
  {
    RunCat(HOST, Cat(Rep(PORT, 0, Some(1)), Rep(REST, 0, Some(1))), Done, s, p, caps);
    RunHost(s, p, caps);
  }

  const SCHEME_ROUND := Push(Again(SCHEME, 0, Some(0), 0), WHOLE)

  predicate SchemeForm(t: string) {
    |t| > 3 && AllIn(ALPHA, t[..|t| - 3]) && t[|t| - 3..] == "://"
  }

  lemma SchemeLanguage(t: string)
    requires Matches(SCHEME, t)
    ensures SchemeForm(t)
  {
    forall x | Matches(Group(1, Rep(Chr(ALPHA), 1, None)), x) ensures x != "" && AllIn(ALPHA, x) {
      ChrsMatch(ALPHA, 1, None, x);
    }
    forall y | Matches(Lit("://"), y) ensures y == "://" { LitMatches("://", y); }
    SchemeParts(Group(1, Rep(Chr(ALPHA), 1, None)), Lit("://"), t);
  }

  /** The scheme can end in one place only: after the longest run of letters and "://". */
  lemma SchemeText(s: string, j: nat)
    requires j <= |s| && SchemeForm(s[0..j])
    ensures SchemeEnd(s) == Some(j)
  {
    var m := j - 3;
    assert s[..m] == s[0..j][..m] && s[m..m + 3] == s[0..j][m..];
    SchemeEndAt(s, m);
  }

  lemma SchemeParts(letters: Regex, slashes: Regex, t: string)
    requires forall x :: Matches(letters, x) ==> x != "" && AllIn(ALPHA, x)
    requires forall y :: Matches(slashes, y) ==> y == "://"
    requires Matches(Cat(letters, slashes), t)
    ensures SchemeForm(t)
  {
    var x, y := CatParts(letters, slashes, t);
    assert t[..|x|] == x && t[|x|..] == y;
  }

  lemma SchemeEndAt(s: string, m: nat)
    requires 1 <= m && m + 3 <= |s| && AllIn(ALPHA, s[..m]) && s[m..m + 3] == "://"
    ensures SchemeEnd(s) == Some(m + 3)
  {
    assert forall k | 0 <= k < m :: s[k] == s[..m][k];
    assert s[m] == s[m..m + 3][0] == ':';
    RunEndFurthest(ALPHA, s, 0, None, m);
    assert !ALPHA.Has(s[m]);
  }

  lemma RunScheme(s: string, a: nat)
    requires SchemeEnd(s) == Some(a) && ScanHost(s, a, None).Some?
    ensures Run(Push(Expr(SCHEME), SCHEME_ROUND), s, 0, map[]) == WithPort(map[1 := s[0..a - 3]], ScanHost(s, a, None))
  {
    var caps := map[1 := s[0..a - 3]];
    var sep := Push(Expr(Lit("://")), SCHEME_ROUND);
    RunWhole(s, a, caps);
    RunAgain(SCHEME, 0, WHOLE, s, a, caps);
    RunLit("://", SCHEME_ROUND, s, a - 3, caps);
    assert map[][1 := s[0..a - 3]] == caps;
    RunGroupGreedy(1, ALPHA, 1, None, sep, s, 0, map[], a - 3);
    RunCat(Group(1, Rep(Chr(ALPHA), 1, None)), Lit("://"), SCHEME_ROUND, s, 0, map[]);
  }

  lemma NoScheme(s: string)
    requires SchemeEnd(s).None? || ScanHost(s, SchemeEnd(s).value, None).None?
    ensures Run(Push(Expr(SCHEME), SCHEME_ROUND), s, 0, map[]) == None
  {
    RunAccepts(Push(Expr(SCHEME), SCHEME_ROUND), s, 0, map[]);
    if j :| 0 <= j <= |s| && Matches(SCHEME, s[0..j]) && Accepts(SCHEME_ROUND, s, j) {
      SchemeLanguage(s[0..j]);
      SchemeText(s, j);
      AcceptsAgain(SCHEME, 0, WHOLE, s, j);
      RunAccepts(WHOLE, s, j, map[]);
      RunWhole(s, j, map[]);
      assert false;
    }
  }

  lemma SameHost(s: string, p: nat, scheme: Option<string>)
    requires p <= |s|
    ensures ScanHost(s, p, scheme).Some? <==> ScanHost(s, p, None).Some?
    ensures ScanHost(s, p, None).Some? ==> ScanHost(s, p, scheme).value == ScanHost(s, p, None).value.(scheme := scheme)
  {
  }

  /** The matcher first looks for a scheme and then does without. */
  lemma MatchTries(s: string)
    ensures var schemed := Run(Push(Expr(SCHEME), SCHEME_ROUND), s, 0, map[]);
            Match(PATTERN, s) == if schemed.Some? then schemed else Run(WHOLE, s, 0, map[])
  {
    RunCat(Rep(SCHEME, 0, Some(1)), WHOLE.item.r, Done, s, 0, map[]);
    RunOptional(SCHEME, WHOLE, s, 0, map[]);
  }

  /** For every string, the captures of the backtracking matcher are the parts found by the scanner. */
  lemma MatchIsScan(s: string)
    ensures Match(PATTERN, s) == var r := Scan(s); if r.Some? then Some(CapturesOf(r.value)) else None
  {
    MatchTries(s);
    RunWhole(s, 0, map[]);
    var a := SchemeEnd(s);
    if a.Some? && ScanHost(s, a.value, None).Some? {
      RunScheme(s, a.value);
      assert s[0..a.value - 3] == s[..a.value - 3];
      SameHost(s, a.value, Some(s[..a.value - 3]));
    } else {
      NoScheme(s);
    }
  }

  // ---------- what the callers get ----------

  /** The outcome of a call; the source asserts that the scheme was captured when it is asked for. */
  datatype Outcome = Text(text: string) | AssertionFailure

  /** URLToProtocol: the empty string stands for an invalid URL and for a URL without a scheme. */
  function ToProtocol(url: string): string {
    var m := Match(PATTERN, url);
    if m.None? || 1 !in m.value then "" else m.value[1]
  }

  /** URLToHostName */
  function ToHostName(url: string, returnProtocol: bool, returnPort: bool): Outcome {
    var m := Match(PATTERN, url);
    if m.None? || 2 !in m.value then Text("")
    else if returnProtocol && 1 !in m.value then AssertionFailure
    else
      Text((if returnProtocol then m.value[1] + "://" else "")
           + m.value[2]
           + (if returnPort && 3 in m.value then m.value[3] else ""))
  }

  // ---------- reading a URL off its characters ----------

  predicate Letters(s: string) {
    s != "" && forall i | 0 <= i < |s| :: 'a' <= s[i] <= 'z' || 'A' <= s[i] <= 'Z'
  }

  predicate HostText(s: string) {
    s != "" && '/' !in s && ':' !in s
  }

  /** What may follow a host: nothing, or '/' or ':' and more of the same line. */
  predicate TailText(s: string) {
    (s == "" || s[0] == '/' || s[0] == ':') && '\n' !in s && '\r' !in s
  }

  /** "://" and the first character of a host. */
  predicate SchemeFollows(s: string) {
    |s| > 3 && s[..3] == "://" && s[3] != '/' && s[3] != ':'
  }

  /** `s` is scheme, host and tail. A scheme is taken for a host only when no host follows it. */
  predicate Reads(s: string, scheme: Option<string>, host: string, tail: string) {
    && s == (if scheme.Some? then scheme.value + "://" else "") + host + tail
    && (scheme.Some? ==> Letters(scheme.value))
    && HostText(host) && TailText(tail)
    && (scheme.None? && Letters(host) ==> !SchemeFollows(tail))
  }

  predicate DigitText(s: string) {
    forall i | 0 <= i < |s| :: '0' <= s[i] <= '9'
  }

  /** A port is a colon and one to five digits, as many as there are. */
  predicate HasPort(tail: string, port: string, rest: string) {
    && tail == ":" + port + rest && 1 <= |port| <= 5 && DigitText(port)
    && (|port| == 5 || rest == "" || !('0' <= rest[0] <= '9'))
  }

  ghost predicate PortOf(tail: string, port: Option<string>) {
    if port.Some? then exists rest :: HasPort(tail, port.value, rest)
    else !(|tail| > 1 && tail[0] == ':' && '0' <= tail[1] <= '9')
  }

  // ---------- the scanner reads URLs like that ----------

  lemma HostCharIs(c: char)
    ensures HOST_CHAR.Has(c) <==> c != '/' && c != ':'
  {
    assert Either(One('/'), One(':')).Has(c) <==> c == '/' || c == ':';
  }

  lemma LettersIff(s: string)
    ensures Letters(s) <==> s != "" && AllIn(ALPHA, s)
  {
    forall i | 0 <= i < |s| ensures ALPHA.Has(s[i]) <==> 'a' <= s[i] <= 'z' || 'A' <= s[i] <= 'Z' { ClassesAre(s[i]); }
  }

  lemma HostTextIff(s: string)
    ensures HostText(s) <==> s != "" && AllIn(HOST_CHAR, s)
  {
    forall i | 0 <= i < |s| ensures HOST_CHAR.Has(s[i]) <==> s[i] != '/' && s[i] != ':' { HostCharIs(s[i]); }
  }

  lemma DigitTextIff(s: string)
    ensures DigitText(s) <==> AllIn(DIGIT, s)
  {
    forall i | 0 <= i < |s| ensures DIGIT.Has(s[i]) <==> '0' <= s[i] <= '9' { ClassesAre(s[i]); }
  }

  lemma SuffixOneLine(s: string, k: nat)
    requires k <= |s| && OneLine(s)
    ensures OneLine(s[k..])
  {
  }

  lemma LaterOneLine(s: string, k: nat, q: nat)
    requires k <= q <= |s| && OneLine(s[k..])
    ensures OneLine(s[q..])
  {
    SuffixOneLine(s[k..], q - k);
    assert s[q..] == s[k..][q - k..];
  }

  /** A run of a class that is followed by something else ends there. */
  lemma RunEndExact(cls: CharClass, s: string, i: nat, limit: Option<nat>, e: nat)
    requires i <= e <= |s| && Within(e - i, 0, limit)
    requires AllIn(cls, s[i..e])
    requires e == |s| || !cls.Has(s[e]) || limit == Some(e - i)
    ensures RunEnd(cls, s, i, limit) == e
  {
    assert forall k | i <= k < e :: s[k] == s[i..e][k - i];
    RunEndFurthest(cls, s, i, limit, e);
  }

  // ---------- the port ----------

  lemma PortThere(s: string, e: nat, tail: string, port: string, rest: string)
    requires e <= |s| && s[e..] == tail && HasPort(tail, port, rest)
    ensures PortEnd(s, e) == e + 1 + |port| && s[e + 1..e + 1 + |port|] == port && s[e + 1 + |port|..] == rest
  {
    var q := e + 1 + |port|;
    assert s[e] == tail[0] && s[e + 1..q] == tail[1..1 + |port|] && s[q..] == tail[1 + |port|..];
    assert q < |s| ==> s[q] == rest[0];
    DigitTextIff(port);
    if q < |s| { ClassesAre(s[q]); }
    RunEndExact(DIGIT, s, e + 1, Some(5), q);
  }

  lemma PortMissing(s: string, e: nat, tail: string)
    requires e <= |s| && s[e..] == tail
    ensures PortOf(tail, None) <==> PortEnd(s, e) == e
  {
    if |tail| > 1 {
      assert tail[0] == s[e] && tail[1] == s[e + 1];
      ClassesAre(s[e + 1]);
      if DIGIT.Has(s[e + 1]) {
        assert forall k | e + 1 <= k < e + 2 :: DIGIT.Has(s[k]);
        RunEndFurthest(DIGIT, s, e + 1, Some(5), e + 2);
      } else {
        RunEndExact(DIGIT, s, e + 1, Some(5), e + 1);
      }
    } else if |tail| == 1 {
      RunEndExact(DIGIT, s, e + 1, Some(5), e + 1);
    }
  }

  lemma PortRead(s: string, e: nat, tail: string)
    requires e <= |s| && s[e..] == tail && PortEnd(s, e) > e
    ensures HasPort(tail, s[e + 1..PortEnd(s, e)], s[PortEnd(s, e)..])
  {
    var q := PortEnd(s, e);
    var port := s[e + 1..q];
    assert s[e..] == [s[e]] + port + s[q..];
    assert forall i | 0 <= i < |port| :: port[i] == s[e + 1 + i] && DIGIT.Has(port[i]);
    DigitTextIff(port);
    if q < |s| { ClassesAre(s[q]); }
  }

  // ---------- the host ----------

  predicate HostAt(s: string, p: nat, host: string, tail: string) {
    && p + |host| <= |s| && s[p..p + |host|] == host && s[p + |host|..] == tail
    && HostText(host) && TailText(tail)
  }

  lemma HostEnds(s: string, p: nat, host: string, tail: string)
    requires HostAt(s, p, host, tail)
    ensures RunEnd(HOST_CHAR, s, p, None) == p + |host|
  {
    var e := p + |host|;
    HostTextIff(host);
    if e < |s| { assert s[e] == tail[0]; HostCharIs(s[e]); }
    RunEndExact(HOST_CHAR, s, p, None, e);
  }

  lemma TailScanned(s: string, e: nat, tail: string, port: Option<string>)
    requires e <= |s| && s[e..] == tail && OneLine(tail) && PortOf(tail, port)
    ensures var q := PortEnd(s, e);
            OneLine(s[q..]) && (q > e <==> port.Some?) && (port.Some? ==> s[e + 1..q] == port.value)
  {
    if port.Some? {
      var rest :| HasPort(tail, port.value, rest);
      PortThere(s, e, tail, port.value, rest);
      SuffixOneLine(tail, 1 + |port.value|);
      assert tail[1 + |port.value|..] == rest;
    } else {
      PortMissing(s, e, tail);
    }
  }

  lemma ScanHostIs(s: string, p: nat, e: nat, scheme: Option<string>)
    requires p < e <= |s| && RunEnd(HOST_CHAR, s, p, None) == e && OneLine(s[PortEnd(s, e)..])
    ensures var q := PortEnd(s, e);
            ScanHost(s, p, scheme) == Some(Parts(scheme, s[p..e], if q > e then Some(s[e + 1..q]) else None))
  {
  }

  /** Host, port and tail at position `p`, computed from the characters. */
  lemma HostThere(s: string, p: nat, host: string, tail: string, port: Option<string>, scheme: Option<string>)
    requires HostAt(s, p, host, tail) && PortOf(tail, port)
    ensures ScanHost(s, p, scheme) == Some(Parts(scheme, host, port))
  {
    HostEnds(s, p, host, tail);
    OneLineIff(tail);
    TailScanned(s, p + |host|, tail, port);
    ScanHostIs(s, p, p + |host|, scheme);
  }

  lemma HostRead(s: string, p: nat, scheme: Option<string>) returns (tail: string)
    requires p <= |s| && ScanHost(s, p, scheme).Some?
    ensures var r := ScanHost(s, p, scheme).value;
      r.scheme == scheme && HostAt(s, p, r.host, tail) && PortOf(tail, r.port)
  {
    var e := RunEnd(HOST_CHAR, s, p, None);
    var host := s[p..e];
    tail := s[e..];
    assert forall i | 0 <= i < |host| :: host[i] == s[p + i] && HOST_CHAR.Has(host[i]);
    HostTextIff(host);
    PortOneLine(s, e);
    OneLineIff(tail);
    if e < |s| { assert tail[0] == s[e]; HostCharIs(s[e]); }
    if PortEnd(s, e) > e { PortRead(s, e, tail); } else { PortMissing(s, e, tail); }
  }

  lemma PortOneLine(s: string, e: nat)
    requires e <= |s| && OneLine(s[PortEnd(s, e)..])
    ensures OneLine(s[e..])
  {
    var q := PortEnd(s, e);
    forall i | 0 <= i < |s[e..]| ensures ANY.Has(s[e..][i]) {
      assert s[e..][i] == s[e + i];
      if e + i >= q { assert s[e + i] == s[q..][e + i - q]; }
      ClassesAre(s[e + i]);
    }
  }

  lemma NoHostAt(s: string, p: nat, scheme: Option<string>)
    requires p <= |s| && (p == |s| || s[p] == '/' || s[p] == ':')
    ensures ScanHost(s, p, scheme).None?
  {
    if p < |s| { HostCharIs(s[p]); }
    RunEndExact(HOST_CHAR, s, p, None, p);
  }

  // ---------- the scheme ----------

  lemma SchemeThere(s: string, letters: string, rest: string)
    requires Letters(letters) && s == letters + "://" + rest
    ensures SchemeEnd(s) == Some(|letters| + 3) && s[..|letters|] == letters && s[|letters| + 3..] == rest
  {
    LettersIff(letters);
    assert s[..|letters|] == letters && s[|letters|..|letters| + 3] == "://";
    SchemeEndAt(s, |letters|);
  }

  lemma SchemeRead(s: string, a: nat)
    requires SchemeEnd(s) == Some(a)
    ensures Letters(s[..a - 3]) && s == s[..a - 3] + "://" + s[a..]
  {
    assert forall i | 0 <= i < a - 3 :: s[..a - 3][i] == s[i];
    LettersIff(s[..a - 3]);
    assert s == s[..a - 3] + s[a - 3..a] + s[a..];
  }

  /** Letters in front of "://" are the longest host that begins there. */
  lemma LettersThenSlashes(s: string, a: nat, host: string, tail: string)
    requires SchemeEnd(s) == Some(a) && s == host + tail && HostText(host) && TailText(tail)
    ensures host == s[..a - 3] && tail == "://" + s[a..]
  {
    var m := a - 3;
    SchemeRead(s, a);
    assert s[m] == ':' && forall i | 0 <= i < m :: s[i] == s[..m][i];
    assert forall i | 0 <= i < |host| :: s[i] == host[i] && host[i] in host;
    assert |host| <= m;
    assert tail[0] == s[|host|];
    assert host == s[..|host|] && tail == s[|host|..];
  }

  lemma SchemeSlices(s: string, letters: string, host: string, tail: string)
    requires Letters(letters) && s == letters + "://" + host + tail
    ensures var p := |letters| + 3;
      && SchemeEnd(s) == Some(p) && s[..p - 3] == letters
      && p + |host| <= |s| && s[p..p + |host|] == host && s[p + |host|..] == tail
  {
    assert letters + "://" + (host + tail) == letters + "://" + host + tail;
    SchemeThere(s, letters, host + tail);
  }

  lemma ReadsScanScheme(s: string, letters: string, host: string, tail: string, port: Option<string>)
    requires Reads(s, Some(letters), host, tail) && PortOf(tail, port)
    ensures Scan(s) == Some(Parts(Some(letters), host, port))
  {
    SchemeSlices(s, letters, host, tail);
    HostThere(s, |letters| + 3, host, tail, port, None);
    HostThere(s, |letters| + 3, host, tail, port, Some(letters));
  }

  lemma ReadsScanPlain(s: string, host: string, tail: string, port: Option<string>)
    requires Reads(s, None, host, tail) && PortOf(tail, port)
    ensures Scan(s) == Some(Parts(None, host, port))
  {
    assert s == host + tail && s[0..|host|] == host && s[|host|..] == tail;
    HostThere(s, 0, host, tail, port, None);
    if SchemeEnd(s).Some? { NoHostBehind(s, SchemeEnd(s).value, host, tail); }
  }

  lemma NoHostBehind(s: string, a: nat, host: string, tail: string)
    requires SchemeEnd(s) == Some(a) && s == host + tail && HostText(host) && TailText(tail)
    requires Letters(host) ==> !SchemeFollows(tail)
    ensures ScanHost(s, a, None).None?
  {
    LettersThenSlashes(s, a, host, tail);
    SchemeRead(s, a);
    assert a < |s| ==> tail[3] == s[a] && |tail| > 3;
    NoHostAt(s, a, None);
  }

  /** A text that can be read in one way is read in this way. */
  lemma ReadsScan(s: string, scheme: Option<string>, host: string, tail: string, port: Option<string>)
    requires Reads(s, scheme, host, tail) && PortOf(tail, port)
    ensures Scan(s) == Some(Parts(scheme, host, port))
  {
    match scheme
    case Some(letters) => ReadsScanScheme(s, letters, host, tail, port);
    case None => ReadsScanPlain(s, host, tail, port);
  }

  lemma SchemeInFront(s: string, a: nat, letters: string, host: string, tail: string)
    requires SchemeEnd(s) == Some(a) && letters == s[..a - 3] && HostAt(s, a, host, tail)
    ensures Reads(s, Some(letters), host, tail)
  {
    SchemeRead(s, a);
    assert s[a..] == host + tail;
    assert letters + "://" + (host + tail) == letters + "://" + host + tail;
  }

  lemma WithScheme(s: string, a: nat, letters: string) returns (tail: string)
    requires SchemeEnd(s) == Some(a) && letters == s[..a - 3] && ScanHost(s, a, None).Some?
    ensures var r := ScanHost(s, a, Some(letters)).value; Reads(s, r.scheme, r.host, tail) && PortOf(tail, r.port)
  {
    tail := HostRead(s, a, Some(letters));
    SchemeInFront(s, a, letters, ScanHost(s, a, Some(letters)).value.host, tail);
  }

  lemma WithoutScheme(s: string) returns (tail: string)
    requires ScanHost(s, 0, None).Some?
    requires SchemeEnd(s).Some? ==> ScanHost(s, SchemeEnd(s).value, None).None?
    ensures var r := ScanHost(s, 0, None).value; Reads(s, None, r.host, tail) && PortOf(tail, r.port)
  {
    tail := HostRead(s, 0, None);
    var host := ScanHost(s, 0, None).value.host;
    Plain(s, host, tail);
    if Letters(host) && SchemeFollows(tail) { HostMissed(s, host, tail); }
  }

  lemma Plain(s: string, host: string, tail: string)
    requires |host| <= |s| && s[0..|host|] == host && s[|host|..] == tail
    ensures s == host + tail && s == "" + host + tail
  {
  }

  /** Whatever the scanner finds can be read off the text. */
  lemma ScanReads(s: string) returns (tail: string)
    requires Scan(s).Some?
    ensures var r := Scan(s).value; Reads(s, r.scheme, r.host, tail) && PortOf(tail, r.port)
  {
    var a := SchemeEnd(s);
    if a.Some? && ScanHost(s, a.value, None).Some? {
      tail := WithScheme(s, a.value, s[..a.value - 3]);
    } else {
      tail := WithoutScheme(s);
    }
  }

  lemma HostMissed(s: string, host: string, tail: string)
    requires s == host + tail && Letters(host) && SchemeFollows(tail) && TailText(tail)
    ensures SchemeEnd(s).Some? && ScanHost(s, SchemeEnd(s).value, None).Some?
  {
    var a := |host| + 3;
    assert s == host + "://" + tail[3..] && s[a..] == tail[3..] && s[a] == tail[3];
    SchemeThere(s, host, tail[3..]);
    HostCharIs(s[a]);
    var e := RunEnd(HOST_CHAR, s, a, None);
    assert forall k | a <= k < a + 1 :: HOST_CHAR.Has(s[k]);
    RunEndFurthest(HOST_CHAR, s, a, None, a + 1);
    OneLineIff(tail);
    assert s[|host|..] == tail;
    LaterOneLine(s, |host|, PortEnd(s, e));
  }

  /** What the scanner finds, for every text: exactly the reading of its characters. */
  lemma ScanIff(s: string, scheme: Option<string>, host: string, port: Option<string>)
    ensures Scan(s) == Some(Parts(scheme, host, port))
       <==> exists tail :: Reads(s, scheme, host, tail) && PortOf(tail, port)
  {
    if Scan(s) == Some(Parts(scheme, host, port)) {
      var tail := ScanReads(s);
    }
    if tail :| Reads(s, scheme, host, tail) && PortOf(tail, port) {
      ReadsScan(s, scheme, host, tail, port);
    }
  }

  // ---------- what the callers get, in terms of the text ----------

  lemma NothingAdded(x: string)
    ensures "" + x == x && x + "" == x
  {
  }

  /** The calls in terms of the scanner. */
  lemma CallsFollowScan(s: string)
    ensures var r := Scan(s);
            && ToProtocol(s) == (if r.Some? && r.value.scheme.Some? then r.value.scheme.value else "")
            && (r.None? ==> forall protocol, port :: ToHostName(s, protocol, port) == Text(""))
            && (r.Some? && r.value.scheme.None? ==> forall port :: ToHostName(s, true, port) == AssertionFailure)
            && (r.Some? ==> ToHostName(s, false, false) == Text(r.value.host))
            && (r.Some? ==> ToHostName(s, false, true)
                            == Text(r.value.host + (if r.value.port.Some? then r.value.port.value else "")))
            && (r.Some? && r.value.scheme.Some? ==>
                  && ToHostName(s, true, false) == Text(r.value.scheme.value + "://" + r.value.host)
                  && ToHostName(s, true, true) == Text(r.value.scheme.value + "://" + r.value.host
                                                       + (if r.value.port.Some? then r.value.port.value else "")))
  {
    MatchIsScan(s);
    var r := Scan(s);
    if r.Some? {
      NothingAdded(r.value.host);
      if r.value.scheme.Some? { NothingAdded(r.value.scheme.value + "://" + r.value.host); }
    }
  }

  /** Scheme, host and port of a text that can be read come back in all four forms; asking for the scheme fails an
      assertion exactly for those texts that have none. */
  lemma ReadsOutcome(s: string, scheme: Option<string>, host: string, tail: string, port: Option<string>)
    requires Reads(s, scheme, host, tail) && PortOf(tail, port)
    ensures ToProtocol(s) == if scheme.Some? then scheme.value else ""
    ensures ToHostName(s, false, false) == Text(host)
    ensures ToHostName(s, false, true) == Text(host + (if port.Some? then port.value else ""))
    ensures ToHostName(s, true, false)
         == if scheme.Some? then Text(scheme.value + "://" + host) else AssertionFailure
    ensures ToHostName(s, true, true)
         == if scheme.Some? then Text(scheme.value + "://" + host + (if port.Some? then port.value else ""))
            else AssertionFailure
  {
    ReadsScan(s, scheme, host, tail, port);
    CallsFollowScan(s);
  }

  /** A host is returned exactly for the texts that can be read; for all others every call returns "". */
  lemma OutcomeIff(s: string)
    ensures ToHostName(s, false, false) != Text("") <==> exists scheme, host, tail :: Reads(s, scheme, host, tail)
    ensures ToHostName(s, false, false) == Text("") ==>
              ToProtocol(s) == "" && forall protocol, port :: ToHostName(s, protocol, port) == Text("")
    ensures ToHostName(s, true, false) == AssertionFailure <==> exists host, tail :: Reads(s, None, host, tail)
  {
    CallsFollowScan(s);
    if Scan(s).Some? { var tail := ScanReads(s); }
    forall scheme, host, tail | Reads(s, scheme, host, tail)
      ensures Scan(s).Some? && Scan(s).value.scheme == scheme
    {
      var port := PortExists(tail);
      ReadsScan(s, scheme, host, tail, port);
    }
  }

  lemma PortExists(tail: string) returns (port: Option<string>)
    ensures PortOf(tail, port)
  {
    assert tail[0..] == tail;
    if PortEnd(tail, 0) > 0 {
      PortRead(tail, 0, tail);
      port := Some(tail[1..PortEnd(tail, 0)]);
    } else {
      PortMissing(tail, 0, tail);
      port := None;
    }
  }

  // ---------- assembled URLs ----------

  /** A URL made of its parts. */
  datatype Url = Url(scheme: string, host: string, port: Option<string>, rest: string) {
    predicate Valid() {
      && Letters(scheme) && HostText(host)
      && (port.Some? ==> 1 <= |port.value| <= 5 && DigitText(port.value))
      && (rest == "" || rest[0] == '/') && '\n' !in rest && '\r' !in rest
    }

    function Tail(): string {
      (if port.Some? then ":" + port.value else "") + rest
    }

    function Text(): string {
      scheme + "://" + host + Tail()
    }
  }

  /** Scheme and host come back from every assembled URL; with the port asked for, its digits follow the
      host without a colon. */
  lemma UrlRoundTrip(u: Url)
    requires u.Valid()
    ensures ToProtocol(u.Text()) == u.scheme
    ensures ToHostName(u.Text(), true, false) == Text(u.scheme + "://" + u.host)
    ensures ToHostName(u.Text(), false, false) == Text(u.host)
    ensures ToHostName(u.Text(), true, true)
            == Text(u.scheme + "://" + u.host + (if u.port.Some? then u.port.value else ""))
  {
    UrlTail(u);
    ReadsOutcome(u.Text(), Some(u.scheme), u.host, u.Tail(), u.port);
  }

  lemma UrlTail(u: Url)
    requires u.Valid()
    ensures TailText(u.Tail()) && PortOf(u.Tail(), u.port)
  {
    if u.port.Some? {
      assert HasPort(u.Tail(), u.port.value, u.rest);
    } else {
      assert u.Tail() == u.rest;
    }
  }

  /** Asking for scheme and host a second time changes nothing, for every URL that has a scheme. */
  lemma HostNameIdempotent(s: string)
    requires ToHostName(s, true, false).Text? && ToHostName(s, true, false).text != ""
    ensures ToHostName(ToHostName(s, true, false).text, true, false) == ToHostName(s, true, false)
  {
    CallsFollowScan(s);
    var tail := ScanReads(s);
    var u := Url(Scan(s).value.scheme.value, Scan(s).value.host, None, "");
    UrlRoundTrip(u);
    assert u.Text() == u.scheme + "://" + u.host;
  }

  /** Letters and "://": the letters are taken for the host exactly when no host follows, on one line. */
  lemma SchemeTakenForHostIff(letters: string, rest: string)
    requires Letters(letters)
    ensures ToHostName(letters + "://" + rest, false, false) == Text(letters)
            && ToProtocol(letters + "://" + rest) == ""
       <==> (rest == "" || rest[0] == '/' || rest[0] == ':') && '\n' !in rest && '\r' !in rest
  {
    var s, tail := letters + "://" + rest, "://" + rest;
    assert s == letters + tail && tail[..3] == "://" && (rest != "" ==> tail[3] == rest[0]);
    assert HostText(letters);
    if (rest == "" || rest[0] == '/' || rest[0] == ':') && '\n' !in rest && '\r' !in rest {
      assert Reads(s, None, letters, tail) && PortOf(tail, None);
      ReadsOutcome(s, None, letters, tail, None);
    } else {
      OutcomeIff(s);
      CallsFollowScan(s);
      if Scan(s).Some? && Scan(s).value.scheme.None? {
        var t := ScanReads(s);
        assert |Scan(s).value.host| == |letters| ==> t == tail;
      }
    }
  }
}
