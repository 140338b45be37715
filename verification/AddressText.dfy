/** The edits on address texts around the calls into the socket library: stringToIPAddress adds brackets or
    a port before the text is parsed, IPAddressToString removes brackets and port after it was printed. */
module AddressText {
  import opened Options
  import opened Decimal
  import Hexadecimal
  import opened Regex
  import opened Separated
  import opened Ipv6
  import opened Ipv6Meaning
  import Ipv4

  /** `rfind` and `find_last_of`: the last position of `c`. */
  function FindLast(s: string, c: char): (k: Option<nat>)
    ensures k.None? ==> Free(s, c)
    ensures k.Some? ==> k.value < |s| && s[k.value] == c && Free(s[k.value + 1..], c)
  {
    if s == "" then None
    else if s[|s| - 1] == c then Some(|s| - 1)
    else
      var k := FindLast(s[..|s| - 1], c);
      assert k.Some? ==> s[k.value + 1..] == s[..|s| - 1][k.value + 1..] + [s[|s| - 1]];
      k
  }

  lemma {:induction false} FindLastIs(a: string, c: char, b: string)
    requires Free(b, c)
    ensures FindLast(a + [c] + b, c) == Some(|a|)
  {
    if b != "" {
      var s := a + [c] + b;
      assert s[..|s| - 1] == a + [c] + b[..|b| - 1];
      assert s[|s| - 1] == b[|b| - 1];
      FindLastIs(a, c, b[..|b| - 1]);
    }
  }

  // ---------- what is handed to the library ----------

  /** The text the library is asked to parse. */
  function LibraryText(address: string, port: nat): string {
    if MatchIpv6(address) then "[" + address + "]"
    else if Free(address, ':') then address + ":" + Print(port)
    else address
  }

  /** An accepted IPv6 address in brackets, a text without a colon with the port behind a colon, all others as they
      are. */
  lemma LibraryTextIs(address: string, port: nat)
    ensures var s := LibraryText(address, port);
      && (MatchIpv6(address) ==> |s| == |address| + 2 && s[0] == '[' && s[1..|s| - 1] == address && s[|s| - 1] == ']')
      && (!MatchIpv6(address) && ':' in address ==> s == address)
      && (!MatchIpv6(address) && ':' !in address ==>
            && address < s && s[|address|] == ':'
            && Canonical(s[|address| + 1..]) && Value(s[|address| + 1..]) == port)
  {
    ValueOfPrint(port);
    PrintCanonical(port);
    assert (address + ":" + Print(port))[|address| + 1..] == Print(port);
  }

  lemma InsideBrackets(s: string)
    requires !Free(s, ':')
    ensures !Free("[" + s + "]", ':')
  {
    var i :| 0 <= i < |s| && s[i] == ':';
    assert ("[" + s + "]")[i + 1] == ':';
  }

  /** stringToIPAddress, up to the call of `string_to_addr`. */
  method ToLibraryText(address: string, port: nat) returns (text: string, isIpv4: bool)
    ensures text == LibraryText(address, port)
    ensures isIpv4 <==> !MatchIpv6(address)
  {
    isIpv4 := true;
    text := address;
    var hasPort := false;
    if MatchIpv6(address) {
      text := "[" + text;
      text := text + "]";
      isIpv4 := false;
      AcceptedHasColon(address);
      InsideBrackets(address);
    }
    var position := FindLast(text, ':');
    if position.Some? {
      hasPort := true;
    }
    if !hasPort {
      text := text + ":";
      text := text + Print(port);
    }
  }

  // ---------- what becomes of the text the library prints ----------

  /** IPAddressToString after the call of `addr_to_string`. The library prints a port at all times. */
  method ToText(printed: string, isIpv6: bool, addressOnly: bool) returns (text: string)
    requires !Free(printed, ':')
    ensures text == Shown(printed, isIpv6, addressOnly)
  {
    text := printed;
    if isIpv6 {
      if text != "" && Find(text, '[') == 0 {
        text := text[1..];
      }
      var bracket := FindLast(text, ']');
      if bracket.Some? {
        text := text[..bracket.value] + text[bracket.value + 1..];
      }
    }
    if addressOnly {
      ColonStays(printed);
      var colon := FindLast(text, ':');
      text := text[..colon.value];
    }
  }

  function Unbracketed(printed: string): string {
    var t := if printed != "" && printed[0] == '[' then printed[1..] else printed;
    var k := FindLast(t, ']');
    if k.Some? then t[..k.value] + t[k.value + 1..] else t
  }

  function UpToLastColon(s: string): string
    requires !Free(s, ':')
  {
    s[..FindLast(s, ':').value]
  }

  function Shown(printed: string, isIpv6: bool, addressOnly: bool): string
    requires !Free(printed, ':')
  {
    ColonStays(printed);
    var t := if isIpv6 then Unbracketed(printed) else printed;
    if addressOnly then UpToLastColon(t) else t
  }

  /** `t` is the text without an opening bracket at its beginning and without its last closing bracket. */
  ghost predicate Stripped(printed: string, t: string) {
    var u := if printed != "" && printed[0] == '[' then printed[1..] else printed;
    if ']' in u then exists a, b :: u == a + "]" + b && ']' !in b && t == a + b else t == u
  }

  lemma StrippedIff(printed: string, t: string)
    ensures Unbracketed(printed) == t <==> Stripped(printed, t)
  {
    var u := if printed != "" && printed[0] == '[' then printed[1..] else printed;
    var k := FindLast(u, ']');
    if k.Some? {
      var x, y := u[..k.value], u[k.value + 1..];
      assert u == x + "]" + y && ']' in u && ']' !in y;
      forall a, b | u == a + "]" + b && ']' !in b ensures a == x && b == y {
        assert u == a + [']'] + b;
        FindLastIs(a, ']', b);
      }
      assert Unbracketed(printed) == x + y;
    }
  }

  ghost predicate WithoutPort(s: string, text: string) {
    exists p :: s == text + ":" + p && ':' !in p
  }

  lemma LastColonIff(s: string, text: string)
    requires !Free(s, ':')
    ensures UpToLastColon(s) == text <==> WithoutPort(s, text)
  {
    var k := FindLast(s, ':').value;
    var x, y := s[..k], s[k + 1..];
    assert s == x + ":" + y && ':' !in y;
    forall p | s == text + ":" + p && ':' !in p ensures text == x {
      assert s == text + [':'] + p;
      FindLastIs(text, ':', p);
    }
  }

  /** What becomes of every printed text with a colon: for IPv6 the brackets go; for the address alone, the last colon
      and what follows it. */
  lemma ShownIff(printed: string, isIpv6: bool, addressOnly: bool, text: string)
    requires !Free(printed, ':')
    ensures Shown(printed, isIpv6, addressOnly) == text <==>
            exists t ::
              && (if isIpv6 then Stripped(printed, t) else t == printed)
              && (if addressOnly then WithoutPort(t, text) else t == text)
  {
    ColonStays(printed);
    var u := if isIpv6 then Unbracketed(printed) else printed;
    if addressOnly { LastColonIff(u, text); }
    StrippedIff(printed, u);
    forall t | if isIpv6 then Stripped(printed, t) else t == printed ensures t == u { StrippedIff(printed, t); }
  }

  lemma ColonStays(printed: string)
    requires !Free(printed, ':')
    ensures !Free(Unbracketed(printed), ':')
  {
    var t := if printed != "" && printed[0] == '[' then printed[1..] else printed;
    var i :| 0 <= i < |printed| && printed[i] == ':';
    assert !Free(t, ':') by { assert t[i - (|printed| - |t|)] == ':'; }
    var j :| 0 <= j < |t| && t[j] == ':';
    var k := FindLast(t, ']');
    if k.Some? {
      var u := t[..k.value] + t[k.value + 1..];
      assert u[if j < k.value then j else j - 1] == ':';
    }
  }

  // ---------- brackets and colons in accepted texts ----------

  lemma {:induction false} HeadedFree(gs: seq<string>, c: char)
    requires c != ':' && AllFree(gs, c)
    ensures Free(Headed(gs, ':'), c)
  {
    if gs != [] {
      assert Free(gs[0], c);
      HeadedFree(gs[1..], c);
    }
  }

  lemma WellFormedFree(v: Address, c: char)
    requires v.WellFormed() && !Hexadecimal.IsHex(c) && c != ':' && c != '.'
    ensures Free(v.Text(), c)
  {
    match v
    case Full(gs) =>
      GroupsFree(gs, c);
      JoinedFree(gs, ':', c);
    case Short(l, r) =>
      GroupsFree(l, c);
      GroupsFree(r, c);
      JoinedFree(l, ':', c);
      JoinedFree(r, ':', c);
    case Mixed(l, r, q) =>
      MixedGroups(v);
      GroupsFree(l, c);
      GroupsFree(r, c);
      OctetsFree(q, c);
      JoinedFree(l, ':', c);
      JoinedFree(r, ':', c);
      JoinedFree(q, '.', c);
  }

  lemma WellFormedColon(v: Address)
    requires v.WellFormed()
    ensures !Free(v.Text(), ':')
  {
    match v
    case Full(gs) =>
      assert v.Text()[|gs[0]|] == ':';
    case Short(l, _) =>
      assert v.Text()[|Joined(l, ':')|] == ':';
    case Mixed(l, _, _) =>
      assert v.Text()[|Joined(l, ':')|] == ':';
  }

  /** An accepted text is well-formed or has a zone. */
  lemma AcceptedForms(s: string)
    requires MatchIpv6(s)
    ensures ZoneText(s) || exists v: Address :: v.WellFormed() && v.Text() == s
  {
    PatternMatches(s);
    if v: Address :| v.HexForm() && v.Text() == s { assert v.WellFormed(); }
    if v: Address :| v.MixedForm() && v.Text() == s { assert v.WellFormed(); }
  }

  lemma AcceptedHasColon(s: string)
    requires MatchIpv6(s)
    ensures !Free(s, ':')
  {
    AcceptedForms(s);
    if ZoneText(s) {
      var gs, zone :| ZoneParts(s, gs, zone);
      assert s[4] == ':';
    } else {
      var v: Address :| v.WellFormed() && v.Text() == s;
      WellFormedColon(v);
    }
  }

  lemma AcceptedNoBracket(s: string, c: char)
    requires MatchIpv6(s) && (c == '[' || c == ']')
    ensures Free(s, c)
  {
    AcceptedForms(s);
    if ZoneText(s) {
      ZonedNoBracket(s, c);
    } else {
      var v: Address :| v.WellFormed() && v.Text() == s;
      WellFormedFree(v, c);
    }
  }

  lemma ZonedNoBracket(s: string, c: char)
    requires ZoneText(s) && (c == '[' || c == ']')
    ensures Free(s, c)
  {
    var gs, zone :| ZoneParts(s, gs, zone);
    forall g | g in gs ensures Free(g, c) { assert AtMostFourHex(g); }
    HeadedFree(gs, c);
    ZoneFree(Headed(gs, ':'), zone, c);
  }

  lemma ZoneFree(groups: string, zone: string, c: char)
    requires Free(groups, c) && Free(zone, c) && (c == '[' || c == ']')
    ensures Free("fe80:" + groups + "%" + zone, c)
  {
    var start := "fe80:";
    assert Free(start, c) && Free(start + groups, c) && Free(start + groups + "%", c);
  }

  // ---------- round trips ----------

  lemma PortFree(port: nat)
    ensures Free(Print(port), ':') && Free(Print(port), '[') && Free(Print(port), ']')
  {
  }

  /** The text the library prints for the IPv6 address with text `s`. */
  function Printed6(s: string, port: nat): string {
    "[" + s + "]:" + Print(port)
  }

  function Printed4(s: string, port: nat): string {
    s + ":" + Print(port)
  }

  lemma PrintedColon(s: string, port: nat)
    ensures !Free(Printed6(s, port), ':') && !Free(Printed4(s, port), ':')
  {
    assert Printed6(s, port)[|s| + 2] == ':' && Printed4(s, port)[|s|] == ':';
  }

  /** For every accepted address, zone or not: the brackets go and nothing else; the address alone is the
      accepted text, and the last colon of the full form separates it from the port. */
  lemma BracketRoundTrip(s: string, port: nat)
    requires MatchIpv6(s)
    ensures !Free(Printed6(s, port), ':') && FindLast(s + ":" + Print(port), ':') == Some(|s|)
    ensures Shown(Printed6(s, port), true, false) == s + ":" + Print(port)
    ensures Shown(Printed6(s, port), true, true) == s
    ensures Value(Print(port)) == port
  {
    PrintedColon(s, port);
    PortFree(port);
    AcceptedNoBracket(s, ']');
    BracketsGo(s, Print(port));
    LastColon(s, Print(port));
    ValueOfPrint(port);
  }

  lemma LastBracket(x: string, y: string)
    requires Free(y, ']')
    ensures var u := x + "]" + y; FindLast(u, ']') == Some(|x|) && u[..|x|] == x && u[|x| + 1..] == y
  {
    FindLastIs(x, ']', y);
  }

  lemma BracketsDropped(x: string, y: string)
    requires Free(y, ']')
    ensures Unbracketed("[" + (x + "]" + y)) == x + y
  {
    var u := x + "]" + y;
    LastBracket(x, y);
    assert ("[" + u)[1..] == u;
  }

  lemma BracketsGo(s: string, p: string)
    requires Free(s, ']') && Free(p, ']')
    ensures Unbracketed("[" + s + "]:" + p) == s + ":" + p
  {
    BracketsDropped(s, ":" + p);
    assert "[" + s + "]:" + p == "[" + (s + "]" + (":" + p)) && s + (":" + p) == s + ":" + p;
  }

  lemma LastColon(s: string, p: string)
    requires Free(p, ':')
    ensures FindLast(s + ":" + p, ':') == Some(|s|) && UpToLastColon(s + ":" + p) == s
  {
    assert s + ":" + p == s + [':'] + p;
    FindLastIs(s, ':', p);
    assert (s + ":" + p)[..|s|] == s;
  }

  /** Address-only output undoes the port that was appended, exactly for the texts without a colon. */
  lemma PortUndoneIff(s: string, port: nat)
    requires !MatchIpv6(s)
    ensures !Free(LibraryText(s, port), ':')
    ensures Shown(LibraryText(s, port), false, true) == s <==> Free(s, ':')
  {
    if Free(s, ':') {
      PrintedColon(s, port);
      PortFree(port);
      LastColon(s, Print(port));
    }
  }

  /** So it does for every text that matchIPv4Address accepts. */
  lemma QuadRoundTrip(s: string, port: nat)
    requires Ipv4.Ipv4Text(s)
    ensures !MatchIpv6(s) && LibraryText(s, port) == Printed4(s, port) && !Free(Printed4(s, port), ':')
    ensures Shown(Printed4(s, port), false, true) == s
    ensures forall other: nat :: LibraryText(Shown(Printed4(s, port), false, false), other) == Printed4(s, port)
  {
    var fs := Split(s, '.');
    JoinedSplit(s, '.');
    assert AllFree(fs, ':') by {
      forall f | f in fs ensures Free(f, ':') { assert Ipv4.Field(f); }
    }
    JoinedFree(fs, '.', ':');
    if MatchIpv6(s) { AcceptedHasColon(s); }
    PortUndoneIff(s, port);
    QuadWithPort(s, port);
  }

  lemma QuadWithPort(s: string, port: nat)
    requires Ipv4.Ipv4Text(s) && Free(s, ':')
    ensures !Free(Printed4(s, port), ':') && !MatchIpv6(Printed4(s, port))
  {
    PrintedColon(s, port);
    var t := Printed4(s, port);
    QuadChars(s);
    assert '%' !in t;
    AcceptsIff(t);
    forall v: Address | v.WellFormed() ensures v.Text() != t { TwoFieldsOnly(v, s, port); }
  }

  lemma TwoFieldsOnly(v: Address, s: string, port: nat)
    requires v.WellFormed() && Free(s, ':')
    ensures v.Text() != Printed4(s, port)
  {
    var fs := [s, Print(port)];
    PortFree(port);
    assert fs[1..] == [Print(port)] && Joined(fs, ':') == Printed4(s, port);
    SplitJoined(fs, ':');
    SplitGivesFields(v);
    ThreeFields(v);
  }

  lemma QuadChars(s: string)
    requires Ipv4.Ipv4Text(s)
    ensures Free(s, '%')
  {
    var fs := Split(s, '.');
    JoinedSplit(s, '.');
    forall f | f in fs ensures Free(f, '%') { assert Ipv4.Field(f); }
    JoinedFree(fs, '.', '%');
  }

  lemma ThreeFields(v: Address)
    requires v.WellFormed()
    ensures |Fields(v)| >= 3
  {
  }

  /** IPv4AddressToString: port 0 is cut off again. The source hands address and port to the library as already in
      network order; here both are in host order. The library prints the address in the canonical form. */
  method Ipv4AddressToString(address: nat, port: nat) returns (text: string)
    requires address < 0x1_0000_0000
    ensures port == 0 ==> Ipv4.Ipv4Text(text) && Ipv4.Read4(text) == address && text == Ipv4.Print4(address)
    ensures port != 0 ==> text == Ipv4.Print4(address) + ":" + Print(port)
  {
    text := Printed4(Ipv4.Print4(address), port);
    if port == 0 {
      PortFree(port);
      LastColon(Ipv4.Print4(address), Print(port));
      var colon := FindLast(text, ':');
      text := text[..colon.value];
      Ipv4.PrintedIsRead(address);
    }
  }

  /** What IPAddressToString shows for an IPv6 address and its port, stringToIPAddress never turns back into
      what the library printed: either the brackets are missing, or they enclose the port too. */
  lemma PortNeverReturns(s: string, port: nat, other: nat)
    requires MatchIpv6(s)
    ensures !Free(Printed6(s, port), ':')
    ensures LibraryText(Shown(Printed6(s, port), true, true), other) == "[" + s + "]"
    ensures LibraryText(Shown(Printed6(s, port), true, false), other) != Printed6(s, port)
  {
    BracketRoundTrip(s, port);
    var t := s + ":" + Print(port);
    assert !Free(t, ':') by { assert t[|s|] == ':'; }
    var r := LibraryText(t, other);
    assert |Printed6(s, port)| == |t| + 2;
    if MatchIpv6(t) {
      assert r[|s| + 1] == ':' && Printed6(s, port)[|s| + 1] == ']';
    } else {
      assert |r| == |t|;
    }
  }

  // ---------- when the port is taken for a group ----------

  lemma PortGroup(port: nat)
    ensures HexGroup(Print(port)) <==> port < 10000
    ensures Print(port) != "" && AllDigits(Print(port)) && Free(Print(port), '.') && Free(Print(port), ':')
  {
    if port >= 10 {
      assert port / 10 >= 10 ==> |Print(port / 10)| == |Print(port / 10 / 10)| + 1;
      assert port / 10 / 10 >= 10 ==> |Print(port / 10 / 10)| == |Print(port / 10 / 10 / 10)| + 1;
      assert port / 10 / 10 / 10 >= 10 ==> |Print(port / 10 / 10 / 10)| >= 2;
    }
  }

  /** An address shown with its port is again an accepted address exactly when it was shortened, does not end
      in "::", has room for one more group, and the port has at most four digits. */
  lemma PortTakenForGroupIff(v: Address, port: nat)
    requires v.WellFormed()
    ensures MatchIpv6(v.Text() + ":" + Print(port))
       <==> v.Short? && v.right != [] && |v.left| + |v.right| <= 6 && port < 10000
  {
    var t := v.Text() + ":" + Print(port);
    NoPercent(v);
    AcceptsIff(t);
    if w: Address :| w.WellFormed() && w.Text() == t {
      WithPort(v, w, port);
    }
    if v.Short? && v.right != [] && |v.left| + |v.right| <= 6 && port < 10000 {
      var w := OneMoreGroup(v, port);
    }
  }

  lemma OneMoreGroup(v: Address, port: nat) returns (w: Address)
    requires v.WellFormed() && v.Short? && v.right != [] && |v.left| + |v.right| <= 6 && port < 10000
    ensures w.WellFormed() && w.Text() == v.Text() + ":" + Print(port)
  {
    var p := Print(port);
    w := Short(v.left, v.right + [p]);
    PortGroup(port);
    JoinedAppend(v.right, [p], ':');
    assert Joined([p], ':') == p;
    assert Joined(v.left, ':') + "::" + (Joined(v.right, ':') + ":" + p) == v.Text() + ":" + p;
  }

  lemma WithPortFields(v: Address, w: Address, port: nat)
    requires v.WellFormed() && w.WellFormed() && w.Text() == v.Text() + ":" + Print(port)
    ensures Fields(w) == Fields(v) + [Print(port)]
  {
    var fs := Fields(v) + [Print(port)];
    TextIsFields(v);
    FieldsFree(v);
    PortGroup(port);
    JoinedAppend(Fields(v), [Print(port)], ':');
    SplitGivesFields(w);
    SplitJoined(fs, ':');
  }

  /** The fields after the "::". */
  function RightFields(v: Address): seq<string> {
    match v
    case Full(gs) => []
    case Short(_, r) => Side(r)
    case Mixed(_, r, q) => r + [Joined(q, '.')]
  }

  lemma FieldsAround(v: Address)
    requires v.WellFormed() && !v.Full?
    ensures Fields(v) == Side(v.left) + [""] + RightFields(v) && HexGroups(v.left)
    ensures RightFields(v) != [] && RightFields(v)[|RightFields(v)| - 1] == Fields(v)[|Fields(v)| - 1]
  {
    if v.Mixed? { MixedGroups(v); }
  }

  lemma SameKind(v: Address, w: Address, port: nat)
    requires v.WellFormed() && w.WellFormed() && Fields(w) == Fields(v) + [Print(port)]
    ensures !v.Full? && w.Short?
  {
    PortGroup(port);
    EmptyField(v);
    EmptyField(w);
    assert Fields(w)[|Fields(w)| - 1] == Print(port);
    assert "" in Fields(w) <==> "" in Fields(v);
    if !w.Full? { LastHasDot(w); }
  }

  lemma WithPort(v: Address, w: Address, port: nat)
    requires v.WellFormed() && w.WellFormed() && w.Text() == v.Text() + ":" + Print(port)
    ensures v.Short? && v.right != [] && |v.left| + |v.right| <= 6 && port < 10000
  {
    var p := Print(port);
    WithPortFields(v, w, port);
    SameKind(v, w, port);
    FieldsAround(v);
    FieldsAround(w);
    var right := RightFields(v);
    assert Fields(v) + [p] == Side(v.left) + [""] + (right + [p]);
    LeftUnique(w.left, Side(w.right), v.left, right + [p]);
    RightGroups(v, w, p);
    PortGroup(port);
  }

  lemma RightGroups(v: Address, w: Address, p: string)
    requires v.WellFormed() && !v.Full? && w.WellFormed() && w.Short?
    requires w.left == v.left && Side(w.right) == RightFields(v) + [p]
    ensures v.Short? && v.right != [] && |v.left| + |v.right| <= 6 && HexGroup(p)
  {
    FieldsAround(v);
    var right := RightFields(v);
    var last := right[|right| - 1];
    assert |Side(w.right)| >= 2 && w.right == right + [p];
    assert w.right[|right| - 1] == last && w.right[|right|] == p;
    assert HexGroup(last) && HexGroup(p);
    LastHasDot(v);
  }
}
