/** The default route in the output of "ip route" (getDefaultInterface, getGateway). */
module Route {
  import opened Options
  import opened Regex
  import opened Separated

  // ---------- the pattern and a scanner for it ----------

  const ADDRESS_CHAR := Either(DIGIT, One('.'))

  const TAIL := Rep(Chr(ANY), 0, None)
  const NAMED := Cat(Group(2, Rep(Chr(ALNUM), 1, None)), TAIL)
  const DEVICE := Cat(Lit(" dev "), NAMED)
  const VIA := Cat(Group(1, Rep(Chr(ADDRESS_CHAR), 1, None)), DEVICE)
  const PATTERN := Cat(Lit("default via "), VIA)

  datatype Hop = Hop(address: string, name: string)

  predicate Has(s: string, i: nat, t: string) {
    i + |t| <= |s| && s[i..i + |t|] == t
  }

  /** "default via ADDRESS dev NAME...", reading from left to right. */
  function Scan(s: string): Option<Hop> {
    if Has(s, 0, "default via ") then ScanAddress(s, 12) else None
  }

  function ScanAddress(s: string, p: nat): Option<Hop>
    requires p <= |s|
  {
    var a := RunEnd(ADDRESS_CHAR, s, p, None);
    if a == p || !Has(s, a, " dev ") then None else ScanName(s, a + 5, s[p..a])
  }

  function ScanName(s: string, p: nat, address: string): Option<Hop>
    requires p <= |s|
  {
    var n := RunEnd(ALNUM, s, p, None);
    if n == p || !OneLine(s[n..]) then None else Some(Hop(address, s[p..n]))
  }

  /** The captures as the source reads them. */
  function Found(r: Option<Captures>): Option<Hop> {
    if r.Some? && 1 in r.value && 2 in r.value then Some(Hop(r.value[1], r.value[2])) else None
  }

  function CapturesOf(r: Option<Hop>): Option<Captures> {
    if r.Some? then Some(map[1 := r.value.address, 2 := r.value.name]) else None
  }

  lemma RunAny(s: string, q: nat, caps: Captures)
    requires q <= |s|
    ensures Run(Push(Expr(TAIL), Done), s, q, caps) == if OneLine(s[q..]) then Some(caps) else None
  {
    if OneLine(s[q..]) {
      assert forall k | q <= k < |s| :: s[k] == s[q..][k - q];
      RunGreedy(ANY, 0, None, Done, s, q, caps, |s|);
    } else {
      RunAccepts(Push(Expr(TAIL), Done), s, q, caps);
      ChrsMatch(ANY, 0, None, s[q..]);
      assert s[q..|s|] == s[q..];
    }
  }

  lemma RunNamed(s: string, p: nat, caps: Captures)
    requires p <= |s|
    ensures var n := RunEnd(ALNUM, s, p, None);
            Run(Push(Expr(NAMED), Done), s, p, caps)
            == if n > p && OneLine(s[n..]) then Some(caps[2 := s[p..n]]) else None
  {
    var n := RunEnd(ALNUM, s, p, None);
    var rest := Push(Expr(TAIL), Done);
    forall j | p < j < n && Accepts(rest, s, j) ensures Accepts(rest, s, n) {
      RunAccepts(rest, s, j, map[]);
      RunAny(s, j, map[]);
      assert forall i | 0 <= i < |s[n..]| :: s[n..][i] == s[j..][n - j + i];
      RunAny(s, n, map[]);
      RunAccepts(rest, s, n, map[]);
    }
    RunCat(Group(2, Rep(Chr(ALNUM), 1, None)), TAIL, Done, s, p, caps);
    RunGroupDecided(2, ALNUM, rest, s, p, caps);
    RunAny(s, n, caps[2 := s[p..n]]);
  }

  lemma RunDevice(s: string, a: nat, caps: Captures)
    requires a <= |s|
    ensures Run(Push(Expr(DEVICE), Done), s, a, caps)
         == if Has(s, a, " dev ") then Run(Push(Expr(NAMED), Done), s, a + 5, caps) else None
  {
    RunCat(Lit(" dev "), NAMED, Done, s, a, caps);
    RunLit(" dev ", Push(Expr(NAMED), Done), s, a, caps);
  }

  lemma DeviceStarts(s: string, j: nat)
    requires j <= |s| && Accepts(Push(Expr(DEVICE), Done), s, j)
    ensures Has(s, j, " dev ")
  {
    RunAccepts(Push(Expr(DEVICE), Done), s, j, map[]);
    RunDevice(s, j, map[]);
  }

  lemma BlankFirst(s: string, j: nat)
    requires Has(s, j, " dev ")
    ensures !ADDRESS_CHAR.Has(s[j])
  {
    assert s[j] == s[j..j + 5][0];
  }

  /** The address ends where " dev " begins, that is, at the end of its characters. */
  lemma RunAddress(device: Regex, s: string, p: nat, caps: Captures)
    requires p <= |s|
    requires forall j: nat | j <= |s| && Accepts(Push(Expr(device), Done), s, j) :: Has(s, j, " dev ")
    ensures var a := RunEnd(ADDRESS_CHAR, s, p, None);
            Run(Push(Expr(Cat(Group(1, Rep(Chr(ADDRESS_CHAR), 1, None)), device)), Done), s, p, caps)
            == if a > p then Run(Push(Expr(device), Done), s, a, caps[1 := s[p..a]]) else None
  {
    var a := RunEnd(ADDRESS_CHAR, s, p, None);
    var rest := Push(Expr(device), Done);
    forall j: nat | p < j < a ensures !Accepts(rest, s, j) {
      assert ADDRESS_CHAR.Has(s[j]);
      if Has(s, j, " dev ") { BlankFirst(s, j); }
    }
    RunCat(Group(1, Rep(Chr(ADDRESS_CHAR), 1, None)), device, Done, s, p, caps);
    RunGroupDecided(1, ADDRESS_CHAR, rest, s, p, caps);
  }

  lemma RunVia(s: string, p: nat, caps: Captures)
    requires p <= |s|
    ensures var a := RunEnd(ADDRESS_CHAR, s, p, None);
            Run(Push(Expr(VIA), Done), s, p, caps)
            == if a > p then Run(Push(Expr(DEVICE), Done), s, a, caps[1 := s[p..a]]) else None
  {
    forall j: nat | j <= |s| && Accepts(Push(Expr(DEVICE), Done), s, j)
      ensures Has(s, j, " dev ")
    {
      DeviceStarts(s, j);
    }
    RunAddress(DEVICE, s, p, caps);
  }

  lemma RunPrefix(via: Regex, s: string)
    ensures Match(Cat(Lit("default via "), via), s)
         == if Has(s, 0, "default via ") then Run(Push(Expr(via), Done), s, 12, map[]) else None
  {
    RunCat(Lit("default via "), via, Done, s, 0, map[]);
    RunLit("default via ", Push(Expr(via), Done), s, 0, map[]);
  }

  lemma RunViaScans(s: string, p: nat)
    requires p <= |s|
    ensures Run(Push(Expr(VIA), Done), s, p, map[]) == CapturesOf(ScanAddress(s, p))
  {
    RunVia(s, p, map[]);
    var a := RunEnd(ADDRESS_CHAR, s, p, None);
    var caps: Captures := map[][1 := s[p..a]];
    RunDevice(s, a, caps);
    if Has(s, a, " dev ") { NameScans(s, a + 5, s[p..a]); }
  }

  lemma NameScans(s: string, p: nat, address: string)
    requires p <= |s|
    ensures Run(Push(Expr(NAMED), Done), s, p, map[][1 := address]) == CapturesOf(ScanName(s, p, address))
  {
    RunNamed(s, p, map[][1 := address]);
    var n := RunEnd(ALNUM, s, p, None);
    assert map[][1 := address][2 := s[p..n]] == map[1 := address, 2 := s[p..n]];
  }

  /** For every line, the captures of the backtracking matcher are what the scanner finds. */
  lemma MatchIsScan(s: string)
    ensures Match(PATTERN, s) == CapturesOf(Scan(s))
    ensures Found(Match(PATTERN, s)) == Scan(s)
  {
    RunPrefix(VIA, s);
    if Has(s, 0, "default via ") { RunViaScans(s, 12); }
    FoundCaptures(Scan(s));
  }

  lemma FoundCaptures(r: Option<Hop>)
    ensures Found(CapturesOf(r)) == r
  {
  }

  // ---------- reading lines ----------

  /** The size of the line buffer (BUFSIZ of the GNU C library). */
  const BUFFER_SIZE := 8192

  /** `std::istringstream`, as far as getline uses it. */
  datatype Stream = Stream(rest: string, eof: bool, fail: bool)

  function Open(text: string): Stream {
    Stream(text, false, false)
  }

  /** `getline (buffer, BUFFER_SIZE)`: up to the next newline, which is taken off the stream; a line that does
      not fit is cut off and sets the fail bit, and so does reading at the end. */
  function GetLine(stream: Stream): (string, Stream) {
    if stream.eof || stream.fail then ("", stream.(fail := true))
    else
      var k := Find(stream.rest, '\n');
      if k >= BUFFER_SIZE then
        (stream.rest[..BUFFER_SIZE - 1], Stream(stream.rest[BUFFER_SIZE - 1..], false, true))
      else if k == |stream.rest| then
        (stream.rest, Stream("", true, k == 0))
      else
        (stream.rest[..k], Stream(stream.rest[k + 1..], false, false))
  }

  /** The matcher sees the buffer up to the first NUL character. */
  function CString(s: string): string {
    s[..Find(s, '\0')]
  }

  function Left(stream: Stream): nat {
    if stream.fail then 0 else if stream.eof then 1 else |stream.rest| + 2
  }

  /** The buffers a do-while loop over the stream gets to see. */
  function Buffers(stream: Stream): seq<string>
    decreases Left(stream)
  {
    if stream.fail then []
    else
      var (line, next) := GetLine(stream);
      [CString(line)] + Buffers(next)
  }

  // ---------- the two loops ----------

  predicate Selected(line: string, name: Option<string>) {
    Scan(line).Some? && (name.None? || Scan(line).value.name == name.value)
  }

  /** The first line that is a default route, through the named interface if one is named. */
  function First(lines: seq<string>, name: Option<string>): Option<Hop> {
    if lines == [] then None
    else if Selected(lines[0], name) then Scan(lines[0])
    else First(lines[1..], name)
  }

  function Default(lines: seq<string>): Option<Hop> {
    First(lines, None)
  }

  function Via(lines: seq<string>, name: string): Option<Hop> {
    First(lines, Some(name))
  }

  lemma FirstStep(stream: Stream, name: Option<string>)
    requires !stream.fail
    ensures var (line, next) := GetLine(stream);
            First(Buffers(stream), name)
            == if Selected(CString(line), name) then Scan(CString(line)) else First(Buffers(next), name)
  {
    var (line, next) := GetLine(stream);
    assert Buffers(stream)[1..] == Buffers(next);
  }

  /** getDefaultInterface, for an Ethernet or PPP link: the interface of the first default route, or "". */
  method DefaultInterface(text: string) returns (name: string)
    ensures name == var hop := Default(Buffers(Open(text))); if hop.Some? then hop.value.name else ""
  {
    name := "";
    var stream := Open(text);
    ghost var goal := Default(Buffers(stream));
    while !stream.fail
      invariant name == ""
      invariant Default(Buffers(stream)) == goal
      decreases Left(stream)
    {
      FirstStep(stream, None);
      var (line, next) := GetLine(stream);
      stream := next;
      MatchIsScan(CString(line));
      var found := Found(Match(PATTERN, CString(line)));
      if found.None? {
        continue;
      }
      name := found.value.name;
      break;
    }
  }

  /** getGateway: the address of the first default route through the interface, if there is one. */
  method Gateway(text: string, interfaceName: string) returns (address: Option<string>)
    ensures address == var hop := Via(Buffers(Open(text)), CString(interfaceName));
                       if hop.Some? then Some(hop.value.address) else None
  {
    address := None;
    var wanted := CString(interfaceName);
    var stream := Open(text);
    ghost var goal := Via(Buffers(stream), wanted);
    while !stream.fail
      invariant address == None
      invariant Via(Buffers(stream), wanted) == goal
      decreases Left(stream)
    {
      FirstStep(stream, Some(wanted));
      var (line, next) := GetLine(stream);
      stream := next;
      MatchIsScan(CString(line));
      var found := Found(Match(PATTERN, CString(line)));
      if found.None? {
        continue;
      }
      if found.value.name == wanted {
        address := Some(found.value.address);
        break;
      }
    }
  }

  // ---------- the two loops agree ----------

  /** `First` is the first: its line satisfies what is asked for, and no earlier line does. */
  lemma {:induction false} FirstIsFirst(lines: seq<string>, name: Option<string>)
    ensures if First(lines, name).Some? then
              exists i | 0 <= i < |lines| ::
                && Selected(lines[i], name) && Scan(lines[i]) == First(lines, name)
                && forall j | 0 <= j < i :: !Selected(lines[j], name)
            else
              forall j | 0 <= j < |lines| :: !Selected(lines[j], name)
  {
    if lines != [] && !Selected(lines[0], name) {
      var rest := lines[1..];
      FirstIsFirst(rest, name);
      assert forall k | 0 <= k < |rest| :: rest[k] == lines[k + 1];
      if First(rest, name).Some? {
        var i :| 0 <= i < |rest| && Selected(rest[i], name) && Scan(rest[i]) == First(rest, name)
                 && forall j | 0 <= j < i :: !Selected(rest[j], name);
        assert Selected(lines[i + 1], name);
        forall j | 0 <= j < i + 1 ensures !Selected(lines[j], name) {
          if j > 0 { assert lines[j] == rest[j - 1]; }
        }
      } else {
        forall j | 0 <= j < |lines| ensures !Selected(lines[j], name) {
          if j > 0 { assert lines[j] == rest[j - 1]; }
        }
      }
    }
  }

  /** The gateway of the default interface is the one on the default interface's own line, for every text. */
  lemma {:induction false} GatewayOfDefault(lines: seq<string>)
    ensures Default(lines).Some? ==> Via(lines, Default(lines).value.name) == Default(lines)
    ensures Default(lines).None? ==> forall name :: Via(lines, name).None?
  {
    if lines != [] && Scan(lines[0]).None? {
      GatewayOfDefault(lines[1..]);
      if Default(lines).None? {
        forall name ensures Via(lines, name).None? { assert Via(lines[1..], name).None?; }
      }
    }
  }

  /** Names come out as they are compared: without NUL characters, and never empty. */
  lemma {:induction false} NameIsCString(lines: seq<string>)
    requires Default(lines).Some?
    ensures Default(lines).value.name != "" && CString(Default(lines).value.name) == Default(lines).value.name
  {
    if Scan(lines[0]).Some? {
      ScanNamePlain(lines[0]);
    } else {
      NameIsCString(lines[1..]);
    }
  }

  lemma ScanNamePlain(s: string)
    requires Scan(s).Some?
    ensures var name := Scan(s).value.name; name != "" && CString(name) == name
  {
    var a := RunEnd(ADDRESS_CHAR, s, 12, None);
    var n := RunEnd(ALNUM, s, a + 5, None);
    var name := s[a + 5..n];
    assert forall k | a + 5 <= k < n :: ALNUM.Has(s[k]);
    forall i | 0 <= i < |name| ensures name[i] != '\0' {
      assert name[i] == s[a + 5 + i];
      ClassesAre(name[i]);
    }
    FindUnique(name, "", '\0');
    assert name + "" == name;
  }

  /** The two calls together, on any routing text: if `DefaultInterface` yields a name, `Gateway` of that name
      yields the address on the very line the name was taken from; if it yields none, no interface has a
      gateway. */
  lemma RouteConsistency(text: string)
    ensures var lines := Buffers(Open(text));
            if Default(lines).Some? then
              Default(lines).value.name != "" && Via(lines, CString(Default(lines).value.name)) == Default(lines)
            else
              forall name :: Via(lines, CString(name)).None?
  {
    var lines := Buffers(Open(text));
    GatewayOfDefault(lines);
    if Default(lines).Some? { NameIsCString(lines); }
  }

  // ---------- lines of the text ----------

  /** What the loops see of the lines: each up to the first NUL character; a line that does not fit the buffer is cut
      off, and is the last one seen. */
  function Visible(lines: seq<string>): seq<string> {
    if lines == [] then []
    else if |lines[0]| >= BUFFER_SIZE then [CString(lines[0][..BUFFER_SIZE - 1])]
    else [CString(lines[0])] + Visible(lines[1..])
  }

  /** For every text, the loops see its lines (and at the end of a text without a final newline one more, empty
      buffer, which is no route). */
  lemma {:induction false} BuffersAreLines(text: string, name: Option<string>)
    ensures First(Buffers(Open(text)), name) == First(Visible(Split(text, '\n')), name)
    decreases |text|
  {
    var k := Find(text, '\n');
    var lines := Split(text, '\n');
    FirstStep(Open(text), name);
    assert lines[0] == text[..k];
    if k >= BUFFER_SIZE {
      LongLine(text, name);
    } else if k == |text| {
      assert lines == [text] && lines[1..] == [];
      LastBuffers(text, name);
    } else {
      assert lines[1..] == Split(text[k + 1..], '\n');
      BuffersAreLines(text[k + 1..], name);
      assert Visible(lines)[1..] == Visible(lines[1..]);
    }
  }

  lemma LongLine(text: string, name: Option<string>)
    requires Find(text, '\n') >= BUFFER_SIZE
    ensures First(Buffers(Open(text)), name) == First([CString(text[..Find(text, '\n')][..BUFFER_SIZE - 1])], name)
  {
    FirstStep(Open(text), name);
    var (line, next) := GetLine(Open(text));
    assert text[..Find(text, '\n')][..BUFFER_SIZE - 1] == line;
    assert First(Buffers(next), name) == None && [CString(line)][1..] == [];
  }

  lemma LastBuffers(text: string, name: Option<string>)
    requires Find(text, '\n') == |text| < BUFFER_SIZE
    ensures First(Buffers(Open(text)), name) == First([CString(text)], name)
  {
    FirstStep(Open(text), name);
    var (line, next) := GetLine(Open(text));
    if !next.fail {
      FirstStep(next, name);
      assert CString("") == "" && Scan("").None?;
    }
    assert [CString(text)][1..] == [];
  }

  // ---------- routes in terms of characters ----------

  predicate IsAlnum(c: char) {
    '0' <= c <= '9' || 'a' <= c <= 'z' || 'A' <= c <= 'Z'
  }

  predicate AddressText(a: string) {
    a != "" && forall i | 0 <= i < |a| :: '0' <= a[i] <= '9' || a[i] == '.'
  }

  predicate NameText(n: string) {
    n != "" && forall i | 0 <= i < |n| :: IsAlnum(n[i])
  }

  predicate RouteText(line: string, hop: Hop, rest: string) {
    && line == "default via " + hop.address + " dev " + hop.name + rest
    && AddressText(hop.address) && NameText(hop.name)
    && (rest == "" || !IsAlnum(rest[0])) && '\n' !in rest && '\r' !in rest
  }

  lemma AddressTextIff(a: string)
    ensures AddressText(a) <==> a != "" && AllIn(ADDRESS_CHAR, a)
  {
    forall i | 0 <= i < |a| ensures ADDRESS_CHAR.Has(a[i]) <==> '0' <= a[i] <= '9' || a[i] == '.' { ClassesAre(a[i]); }
  }

  lemma NameTextIff(n: string)
    ensures NameText(n) <==> n != "" && AllIn(ALNUM, n)
  {
    forall i | 0 <= i < |n| ensures ALNUM.Has(n[i]) <==> IsAlnum(n[i]) { ClassesAre(n[i]); }
  }

  /** The positions of the parts of a route. */
  lemma RouteSlices(s: string, address: string, name: string, rest: string)
    requires s == "default via " + address + " dev " + name + rest
    ensures var a := 12 + |address|;
            var n := a + 5 + |name|;
            && n <= |s| && Has(s, 0, "default via ") && Has(s, a, " dev ")
            && s[12..a] == address && s[a + 5..n] == name && s[n..] == rest
  {
    var a := 12 + |address|;
    assert s[a..a + 5] == " dev ";
    assert s[0..12] == "default via ";
  }

  lemma RunIs(cls: CharClass, s: string, p: nat, e: nat)
    requires p <= e <= |s| && AllIn(cls, s[p..e]) && (e < |s| ==> !cls.Has(s[e]))
    ensures RunEnd(cls, s, p, None) == e
  {
    assert forall k | p <= k < e :: s[k] == s[p..e][k - p];
    RunEndFurthest(cls, s, p, None, e);
  }

  lemma RouteScanned(s: string, hop: Hop, rest: string)
    requires RouteText(s, hop, rest)
    ensures Scan(s) == Some(hop)
  {
    RouteSlices(s, hop.address, hop.name, rest);
    var a := 12 + |hop.address|;
    var n := a + 5 + |hop.name|;
    AddressTextIff(hop.address);
    NameTextIff(hop.name);
    BlankFirst(s, a);
    RunIs(ADDRESS_CHAR, s, 12, a);
    if n < |s| { assert s[n] == rest[0]; ClassesAre(s[n]); }
    RunIs(ALNUM, s, a + 5, n);
    OneLineIff(rest);
  }

  lemma ScannedParts(s: string, a: nat, n: nat)
    requires 12 < a && Has(s, 0, "default via ") && Has(s, a, " dev ") && a + 5 < n <= |s|
    ensures s == "default via " + s[12..a] + " dev " + s[a + 5..n] + s[n..]
  {
    assert s[0..12] == "default via " && s[a..a + 5] == " dev ";
    assert s == s[0..12] + s[12..a] + s[a..a + 5] + s[a + 5..n] + s[n..];
  }

  lemma ScannedRoute(s: string) returns (rest: string)
    requires Scan(s).Some?
    ensures RouteText(s, Scan(s).value, rest)
  {
    var a := RunEnd(ADDRESS_CHAR, s, 12, None);
    var n := RunEnd(ALNUM, s, a + 5, None);
    rest := s[n..];
    ScannedParts(s, a, n);
    var address, name := s[12..a], s[a + 5..n];
    assert forall i | 0 <= i < |address| :: address[i] == s[12 + i];
    assert forall i | 0 <= i < |name| :: name[i] == s[a + 5 + i];
    AddressTextIff(address);
    NameTextIff(name);
    if n < |s| { ClassesAre(s[n]); }
    OneLineIff(rest);
  }

  /** The scanner finds a route exactly in the lines that read like one. */
  lemma ScanIff(line: string, hop: Hop)
    ensures Scan(line) == Some(hop) <==> exists rest :: RouteText(line, hop, rest)
  {
    if Scan(line) == Some(hop) { var rest := ScannedRoute(line); }
    if rest :| RouteText(line, hop, rest) { RouteScanned(line, hop, rest); }
  }

  // ---------- the first route of a text ----------

  /** A line is seen up to its first NUL character, and no further than 8191 characters. */
  predicate SeenUpTo(line: string, k: nat) {
    k <= |line| && k <= 8191 && '\0' !in line[..k] && (k == |line| || k == 8191 || line[k] == '\0')
  }

  ghost predicate IsRoute(line: string, hop: Hop) {
    exists k: nat, rest :: SeenUpTo(line, k) && RouteText(line[..k], hop, rest)
  }

  /** A C string ends at the first NUL character. */
  lemma CStringIff(s: string, t: string)
    ensures CString(s) == t <==> t <= s && '\0' !in t && (t == s || s[|t|] == '\0')
  {
    var k := Find(s, '\0');
    assert |t| < k ==> s[..k][|t|] == s[|t|];
    assert k < |t| && t <= s ==> t[k] == s[k];
  }

  predicate Wanted(hop: Hop, name: Option<string>) {
    name.None? || hop.name == name.value
  }

  /** Line `i` is a wanted route, no earlier line is one, and all earlier lines fit the buffer. */
  ghost predicate FoundAt(lines: seq<string>, name: Option<string>, hop: Hop, i: nat) {
    && i < |lines| && IsRoute(lines[i], hop) && Wanted(hop, name)
    && forall j | 0 <= j < i :: |lines[j]| <= 8191 && forall h :: IsRoute(lines[j], h) ==> !Wanted(h, name)
  }

  function Cut(line: string): string {
    if |line| >= BUFFER_SIZE then line[..BUFFER_SIZE - 1] else line
  }

  lemma SeenIs(line: string, k: nat)
    ensures SeenUpTo(line, k) <==> k <= |line| && line[..k] == CString(Cut(line)) && k == |CString(Cut(line))|
  {
    var t := Cut(line);
    var f := Find(t, '\0');
    assert t[..f] == line[..f] && |CString(t)| == f;
    assert f < |t| ==> t[f] == line[f];
    assert f < k <= |line| ==> line[..k][f] == line[f];
    assert k < f ==> t[..f][k] == line[k];
  }

  lemma IsRouteIff(line: string, hop: Hop)
    ensures IsRoute(line, hop) <==> Scan(CString(Cut(line))) == Some(hop)
  {
    var k := |CString(Cut(line))|;
    SeenIs(line, k);
    ScanIff(CString(Cut(line)), hop);
    forall j: nat, rest | SeenUpTo(line, j) && RouteText(line[..j], hop, rest) ensures line[..j] == CString(Cut(line)) {
      SeenIs(line, j);
    }
  }

  lemma FoundFirst(lines: seq<string>, name: Option<string>, hop: Hop)
    requires lines != []
    ensures FoundAt(lines, name, hop, 0) <==> Scan(CString(Cut(lines[0]))) == Some(hop) && Wanted(hop, name)
  {
    IsRouteIff(lines[0], hop);
  }

  lemma FoundLater(lines: seq<string>, name: Option<string>, hop: Hop, i: nat)
    requires lines != []
    ensures FoundAt(lines, name, hop, i + 1)
       <==> && |lines[0]| <= 8191 && !Selected(CString(lines[0]), name) && FoundAt(lines[1..], name, hop, i)
  {
    var rest := lines[1..];
    forall h ensures IsRoute(lines[0], h) <==> Scan(CString(Cut(lines[0]))) == Some(h) { IsRouteIff(lines[0], h); }
    assert forall j | 0 <= j < |rest| :: rest[j] == lines[j + 1];
    if |lines[0]| <= 8191 && Scan(CString(lines[0])).Some? {
      assert IsRoute(lines[0], Scan(CString(lines[0])).value);
    }
    if FoundAt(rest, name, hop, i) && |lines[0]| <= 8191 && !Selected(CString(lines[0]), name) {
      forall j | 0 <= j < i + 1
        ensures |lines[j]| <= 8191 && forall h :: IsRoute(lines[j], h) ==> !Wanted(h, name)
      {
        if j > 0 { assert lines[j] == rest[j - 1]; }
      }
    }
    if FoundAt(lines, name, hop, i + 1) {
      forall j | 0 <= j < i
        ensures |rest[j]| <= 8191 && forall h :: IsRoute(rest[j], h) ==> !Wanted(h, name)
      {
        assert rest[j] == lines[j + 1];
      }
    }
  }

  lemma {:induction false} FirstVisible(lines: seq<string>, name: Option<string>, hop: Hop)
    ensures First(Visible(lines), name) == Some(hop) <==> exists i: nat :: FoundAt(lines, name, hop, i)
  {
    if lines != [] {
      var rest := lines[1..];
      FirstVisible(rest, name, hop);
      FoundFirst(lines, name, hop);
      forall i: nat
        ensures FoundAt(lines, name, hop, i + 1)
           <==> |lines[0]| <= 8191 && !Selected(CString(lines[0]), name) && FoundAt(rest, name, hop, i)
      {
        FoundLater(lines, name, hop, i);
      }
      VisibleStep(lines, name);
      if i: nat :| FoundAt(lines, name, hop, i) {
        if i > 0 { assert FoundAt(rest, name, hop, i - 1); }
      }
      if i: nat :| FoundAt(rest, name, hop, i) {
        assert FoundAt(lines, name, hop, i + 1) <==> |lines[0]| <= 8191 && !Selected(CString(lines[0]), name);
      }
    }
  }

  lemma VisibleStep(lines: seq<string>, name: Option<string>)
    requires lines != []
    ensures First(Visible(lines), name)
         == if Selected(CString(Cut(lines[0])), name) then Scan(CString(Cut(lines[0])))
            else if |lines[0]| >= BUFFER_SIZE then None
            else First(Visible(lines[1..]), name)
  {
    assert |lines[0]| < BUFFER_SIZE ==> Visible(lines)[1..] == Visible(lines[1..]);
  }

  /** What both calls look for, for every text: the first line that is a wanted route, if all lines before it fit
      the buffer. */
  lemma FoundIff(text: string, name: Option<string>, hop: Hop)
    ensures First(Buffers(Open(text)), name) == Some(hop) <==> exists i: nat :: FoundAt(Split(text, '\n'), name, hop, i)
  {
    BuffersAreLines(text, name);
    FirstVisible(Split(text, '\n'), name, hop);
  }
}
