/** IPv6 address texts (matchIPv6Address): the pattern, the grammar it amounts to, and the address each
    accepted text denotes. */
module Ipv6 {
  import opened Options
  import opened Decimal
  import Hexadecimal
  import opened Regex
  import opened Separated

  // ---------- the pattern; its groups are not used and left out ----------

  const HEX := Either(DIGIT, Either(Range('a', 'f'), Range('A', 'F')))

  const H4 := Rep(Chr(HEX), 1, Some(4))

  /** `(h:){min,max}` and `(:h){min,max}` */
  function HC(min: nat, max: nat): Regex { Rep(Cat(H4, Sep(':')), min, Some(max)) }
  function CH(min: nat, max: nat): Regex { Rep(Cat(Sep(':'), H4), min, Some(max)) }

  /** `(h:){1,l}(:h){1,r}` */
  function Around(l: nat, r: nat): Regex { Cat(HC(1, l), CH(1, r)) }

  const HEX_FORMS := [
    Cat(HC(7, 7), H4),
    Cat(HC(1, 7), Sep(':')),
    Cat(HC(1, 6), Cat(Sep(':'), H4)),
    Around(5, 2),
    Around(4, 3),
    Around(3, 4),
    Around(2, 5),
    Cat(H4, Cat(Sep(':'), CH(1, 6))),
    Cat(Sep(':'), Alt(CH(1, 7), Sep(':')))
  ]

  const ZONED :=
    Cat(Lit("fe80:"), Cat(Rep(Cat(Sep(':'), Rep(Chr(HEX), 0, Some(4))), 0, Some(4)),
                          Cat(Chr(One('%')), Rep(Chr(ALNUM), 1, None))))

  const TENS := Alt(Cat(Chr(One('2')), Chr(Range('0', '4'))), Cat(Rep(Chr(One('1')), 0, Some(1)), Chr(DIGIT)))
  const OCTET := Alt(Cat(Lit("25"), Chr(Range('0', '5'))), Cat(Rep(TENS, 0, Some(1)), Chr(DIGIT)))
  const QUAD := Cat(Rep(Cat(OCTET, Sep('.')), 3, Some(3)), OCTET)

  const ZEROS := Rep(Cat(Sep(':'), Rep(Chr(One('0')), 1, Some(4))), 0, Some(1))
  const MAPPED := Rep(Cat(Lit("ffff"), Cat(ZEROS, Sep(':'))), 0, Some(1))
  const QUAD_FORMS := [
    Cat(Lit("::"), Cat(MAPPED, QUAD)),
    Cat(HC(1, 4), Cat(Sep(':'), QUAD))
  ]

  const PATTERN := AnyOf(HEX_FORMS + [ZONED] + QUAD_FORMS)

  /** matchIPv6Address */
  predicate MatchIpv6(s: string) {
    Match(PATTERN, s).Some?
  }

  // ---------- the grammar ----------

  predicate HexGroup(g: string) {
    1 <= |g| <= 4 && forall i | 0 <= i < |g| :: Hexadecimal.IsHex(g[i])
  }

  predicate HexGroups(gs: seq<string>) {
    forall g | g in gs :: HexGroup(g)
  }

  /** One to three digits, at most 255; a leading zero is possible in two digits only. */
  predicate Octet(o: string) {
    1 <= |o| <= 3 && AllDigits(o) && Value(o) <= 255 && (|o| == 3 ==> Value(o) >= 100)
  }

  predicate Octets(q: seq<string>) {
    |q| == 4 && forall o | o in q :: Octet(o)
  }

  predicate ZeroGroup(g: string) {
    1 <= |g| <= 4 && forall i | 0 <= i < |g| :: g[i] == '0'
  }

  /** `Full`: eight groups. `Short`: groups, "::", groups. `Mixed`: groups, "::", groups, a dotted quad. */
  datatype Address =
    | Full(groups: seq<string>)
    | Short(left: seq<string>, right: seq<string>)
    | Mixed(left: seq<string>, right: seq<string>, quad: seq<string>)
  {
    predicate HexForm() {
      match this
      case Full(gs) => |gs| == 8 && HexGroups(gs)
      case Short(l, r) => |l| + |r| <= 7 && HexGroups(l) && HexGroups(r)
      case Mixed(_, _, _) => false
    }

    /** In front of the quad: "::", "::ffff:", "::ffff:0:" (one to four zeros), or one to four groups and "::". */
    predicate MixedForm() {
      && Mixed?
      && Octets(quad)
      && if left == [] then
           right == [] || right == ["ffff"] || (|right| == 2 && right[0] == "ffff" && ZeroGroup(right[1]))
         else |left| <= 4 && HexGroups(left) && right == []
    }

    predicate WellFormed() {
      HexForm() || MixedForm()
    }

    function Text(): string {
      match this
      case Full(gs) => Joined(gs, ':')
      case Short(l, r) => Joined(l, ':') + "::" + Joined(r, ':')
      case Mixed(l, r, q) => Joined(l, ':') + "::" + Trailed(r, ':') + Joined(q, '.')
    }
  }

  // ---------- groups and octets ----------

  lemma HexHas(c: char)
    ensures HEX.Has(c) <==> Hexadecimal.IsHex(c)
  {
    assert Either(Range('a', 'f'), Range('A', 'F')).Has(c) <==> 'a' <= c <= 'f' || 'A' <= c <= 'F';
  }

  lemma H4Matches(g: string)
    ensures Matches(H4, g) <==> HexGroup(g)
  {
    ChrsMatch(HEX, 1, Some(4), g);
    forall c ensures HEX.Has(c) <==> Hexadecimal.IsHex(c) { HexHas(c); }
  }

  lemma H4AllMatch(gs: seq<string>)
    ensures AllMatch(H4, gs) <==> HexGroups(gs)
  {
    forall g | g in gs ensures Matches(H4, g) <==> HexGroup(g) { H4Matches(g); }
    if AllMatch(H4, gs) { forall g | g in gs ensures HexGroup(g) { assert Matches(H4, g); } }
    if HexGroups(gs) { forall g | g in gs ensures Matches(H4, g) {} }
  }

  /** Groups each followed by a colon; groups each preceded by a colon. */
  ghost predicate LeftPart(x: string, min: nat, max: nat) {
    exists gs :: min <= |gs| <= max && HexGroups(gs) && x == Trailed(gs, ':')
  }

  ghost predicate RightPart(y: string, min: nat, max: nat) {
    exists gs :: min <= |gs| <= max && HexGroups(gs) && y == Headed(gs, ':')
  }

  lemma HCMatches(min: nat, max: nat, s: string)
    ensures Matches(HC(min, max), s) <==> LeftPart(s, min, max)
  {
    RepTrailed(H4, ':', min, Some(max), s);
    if Matches(HC(min, max), s) {
      var gs :| Within(|gs|, min, Some(max)) && AllMatch(H4, gs) && s == Trailed(gs, ':');
      H4AllMatch(gs);
    }
    if LeftPart(s, min, max) {
      var gs :| min <= |gs| <= max && HexGroups(gs) && s == Trailed(gs, ':');
      H4AllMatch(gs);
      assert Within(|gs|, min, Some(max));
    }
  }

  lemma CHMatches(min: nat, max: nat, s: string)
    ensures Matches(CH(min, max), s) <==> RightPart(s, min, max)
  {
    RepHeaded(H4, ':', min, Some(max), s);
    if Matches(CH(min, max), s) {
      var gs :| Within(|gs|, min, Some(max)) && AllMatch(H4, gs) && s == Headed(gs, ':');
      H4AllMatch(gs);
    }
    if RightPart(s, min, max) {
      var gs :| min <= |gs| <= max && HexGroups(gs) && s == Headed(gs, ':');
      H4AllMatch(gs);
      assert Within(|gs|, min, Some(max));
    }
  }

  lemma OneTrailed(h: Regex, s: string)
    requires forall g :: Matches(h, g) <==> HexGroup(g)
    ensures Matches(Cat(h, Sep(':')), s) <==> LeftPart(s, 1, 1)
  {
    if Matches(Cat(h, Sep(':')), s) {
      var g, c := CatParts(h, Sep(':'), s);
      OneField(g, ':');
      assert HexGroups([g]);
    }
    if LeftPart(s, 1, 1) {
      var gs :| 1 <= |gs| <= 1 && HexGroups(gs) && s == Trailed(gs, ':');
      assert gs == [gs[0]] && Matches(h, gs[0]);
      OneField(gs[0], ':');
      CatJoins(h, Sep(':'), gs[0], ":");
    }
  }

  lemma OneHeaded(h: Regex, s: string)
    requires forall g :: Matches(h, g) <==> HexGroup(g)
    ensures Matches(Cat(Sep(':'), h), s) <==> RightPart(s, 1, 1)
  {
    if Matches(Cat(Sep(':'), h), s) {
      var c, g := CatParts(Sep(':'), h, s);
      OneField(g, ':');
      assert HexGroups([g]);
    }
    if RightPart(s, 1, 1) {
      var gs :| 1 <= |gs| <= 1 && HexGroups(gs) && s == Headed(gs, ':');
      assert gs == [gs[0]] && Matches(h, gs[0]);
      OneField(gs[0], ':');
      CatJoins(Sep(':'), h, ":", gs[0]);
    }
  }

  predicate Tens(t: string) {
    AllDigits(t) && (|t| == 1 || (|t| == 2 && (t[0] == '1' || (t[0] == '2' && t[1] <= '4'))))
  }

  // The following lemmas name the parts of a pattern by variables, so that only the outermost operators of the
  // pattern matter to their proofs.

  lemma TensShape(two: Regex, one: Regex, t: string)
    requires t != "" ==> var u := t[..|t| - 1]; (Matches(two, u) <==> u == "2") && (Matches(one, u) <==> u == "1")
    ensures Matches(Alt(Cat(two, Chr(Range('0', '4'))), Cat(Rep(one, 0, Some(1)), Chr(DIGIT))), t) <==> TensSplit(t)
  {
    PairMatches(two, Range('0', '4'), t);
    PairMatches(Rep(one, 0, Some(1)), DIGIT, t);
    if t != "" { OptionalMatches(one, t[..|t| - 1]); }
  }

  predicate TensSplit(t: string) {
    t != "" &&
    var u, c := t[..|t| - 1], t[|t| - 1];
    (u == "2" && '0' <= c <= '4') || ((u == "" || u == "1") && IsDigit(c))
  }

  lemma TensMatches(t: string)
    ensures Matches(TENS, t) <==> Tens(t)
  {
    if t != "" {
      var u := t[..|t| - 1];
      LitMatches("2", u);
      LitMatches("1", u);
      if |t| == 2 { assert u == [t[0]]; }
    }
    TensShape(Chr(One('2')), Chr(One('1')), t);
  }

  lemma OctetShape(twoFive: Regex, tens: Regex, o: string)
    requires o != "" ==> var t := o[..|o| - 1]; (Matches(twoFive, t) <==> t == "25") && (Matches(tens, t) <==> Tens(t))
    ensures Matches(Alt(Cat(twoFive, Chr(Range('0', '5'))), Cat(Rep(tens, 0, Some(1)), Chr(DIGIT))), o)
       <==> OctetSplit(o)
  {
    PairMatches(twoFive, Range('0', '5'), o);
    PairMatches(Rep(tens, 0, Some(1)), DIGIT, o);
    if o != "" { OptionalMatches(tens, o[..|o| - 1]); }
  }

  predicate OctetSplit(o: string) {
    o != "" &&
    var t, c := o[..|o| - 1], o[|o| - 1];
    (t == "25" && '0' <= c <= '5') || ((t == "" || Tens(t)) && IsDigit(c))
  }

  lemma OctetSplitValue(o: string)
    ensures OctetSplit(o) <==> Octet(o)
  {
    if o != "" {
      var t := o[..|o| - 1];
      assert o == t + [o[|o| - 1]];
      if |t| == 2 { assert t == [o[0], o[1]]; }
      if AllDigits(o) && |o| <= 3 { SmallValue(o); }
    }
  }

  lemma OctetMatches(o: string)
    ensures Matches(OCTET, o) <==> Octet(o)
  {
    if o != "" {
      LitMatches("25", o[..|o| - 1]);
      TensMatches(o[..|o| - 1]);
    }
    OctetShape(Lit("25"), TENS, o);
    OctetSplitValue(o);
  }

  lemma SmallValue(o: string)
    requires 1 <= |o| <= 3 && AllDigits(o)
    ensures Value(o) == if |o| == 1 then DigitOf(o[0])
                        else if |o| == 2 then 10 * DigitOf(o[0]) + DigitOf(o[1])
                        else 100 * DigitOf(o[0]) + 10 * DigitOf(o[1]) + DigitOf(o[2])
  {
    var p := o[..|o| - 1];
    if |p| > 0 {
      var q := p[..|p| - 1];
      if |q| > 0 { assert Value(q[..|q| - 1]) == 0; }
    }
  }

  lemma QuadParts(octet: Regex, three: Regex, s: string) returns (q: seq<string>)
    requires three == Rep(Cat(octet, Sep('.')), 3, Some(3)) && Matches(Cat(three, octet), s)
    ensures |q| == 4 && AllMatch(octet, q) && s == Joined(q, '.')
  {
    var x, y :| s == x + y && Matches(three, x) && Matches(octet, y);
    RepTrailed(octet, '.', 3, Some(3), x);
    var fs :| Within(|fs|, 3, Some(3)) && AllMatch(octet, fs) && x == Trailed(fs, '.');
    JoinedTrailed(fs, y, '.');
    q := fs + [y];
  }

  lemma QuadBuilt(octet: Regex, three: Regex, q: seq<string>)
    requires three == Rep(Cat(octet, Sep('.')), 3, Some(3)) && |q| == 4 && AllMatch(octet, q)
    ensures Matches(Cat(three, octet), Joined(q, '.'))
  {
    var fs, y := q[..3], q[3];
    assert q == fs + [y];
    JoinedTrailed(fs, y, '.');
    RepTrailed(octet, '.', 3, Some(3), Trailed(fs, '.'));
    assert AllMatch(octet, fs) && Within(|fs|, 3, Some(3));
    CatJoins(three, octet, Trailed(fs, '.'), y);
  }

  lemma QuadMatches(s: string)
    ensures Matches(QUAD, s) <==> exists q :: Octets(q) && s == Joined(q, '.')
  {
    var three := Rep(Cat(OCTET, Sep('.')), 3, Some(3));
    if Matches(QUAD, s) {
      var q := QuadParts(OCTET, three, s);
      OctetsAllMatch(q);
    }
    if exists q :: Octets(q) && s == Joined(q, '.') {
      var q :| Octets(q) && s == Joined(q, '.');
      OctetsAllMatch(q);
      QuadBuilt(OCTET, three, q);
    }
  }

  lemma OctetsAllMatch(q: seq<string>)
    ensures AllMatch(OCTET, q) <==> forall o | o in q :: Octet(o)
  {
    forall o | o in q ensures Matches(OCTET, o) <==> Octet(o) { OctetMatches(o); }
    if AllMatch(OCTET, q) { forall o | o in q ensures Octet(o) { assert Matches(OCTET, o); } }
  }

  // ---------- the hexadecimal forms ----------

  lemma FullParts(hc: Regex, h: Regex, s: string) returns (gs: seq<string>)
    requires forall x :: Matches(hc, x) ==> LeftPart(x, 7, 7)
    requires forall g :: Matches(h, g) ==> HexGroup(g)
    requires Matches(Cat(hc, h), s)
    ensures Full(gs).HexForm() && s == Joined(gs, ':')
  {
    var x, y := CatParts(hc, h, s);
    var init :| 7 <= |init| <= 7 && HexGroups(init) && x == Trailed(init, ':');
    JoinedTrailed(init, y, ':');
    gs := init + [y];
  }

  lemma FullBuilt(hc: Regex, h: Regex, gs: seq<string>)
    requires forall x :: LeftPart(x, 7, 7) ==> Matches(hc, x)
    requires forall g :: HexGroup(g) ==> Matches(h, g)
    requires Full(gs).HexForm()
    ensures Matches(Cat(hc, h), Joined(gs, ':'))
  {
    var init, last := gs[..7], gs[7];
    assert gs == init + [last] && HexGroup(last) && HexGroups(init);
    JoinedTrailed(init, last, ':');
    assert LeftPart(Trailed(init, ':'), 7, 7);
    CatJoins(hc, h, Trailed(init, ':'), last);
  }

  lemma FullMatches(hc: Regex, h: Regex, s: string)
    requires forall x :: Matches(hc, x) <==> LeftPart(x, 7, 7)
    requires forall g :: Matches(h, g) <==> HexGroup(g)
    ensures Matches(Cat(hc, h), s) <==> exists gs :: Full(gs).HexForm() && s == Joined(gs, ':')
  {
    if Matches(Cat(hc, h), s) {
      var gs := FullParts(hc, h, s);
    } else if gs :| Full(gs).HexForm() && s == Joined(gs, ':') {
      FullBuilt(hc, h, gs);
    }
  }

  /** A text with left groups and right groups in the given numbers. */
  ghost predicate Shortened(s: string, lmin: nat, lmax: nat, rmin: nat, rmax: nat) {
    exists l, r :: lmin <= |l| <= lmax && rmin <= |r| <= rmax && HexGroups(l) && HexGroups(r) && s == Short(l, r).Text()
  }

  lemma TextAround(l: seq<string>, r: seq<string>)
    requires l != [] && r != []
    ensures Trailed(l, ':') + Headed(r, ':') == Short(l, r).Text()
  {
    TrailedJoined(l, ':');
    HeadedJoined(r, ':');
    assert Joined(l, ':') + ":" + (":" + Joined(r, ':')) == Joined(l, ':') + "::" + Joined(r, ':');
  }

  lemma TextLeft(l: seq<string>)
    requires l != []
    ensures Trailed(l, ':') + ":" == Short(l, []).Text()
  {
    TrailedJoined(l, ':');
    assert Joined(l, ':') + ":" + ":" == Joined(l, ':') + "::" + "";
  }

  lemma TextRight(r: seq<string>)
    requires r != []
    ensures ":" + Headed(r, ':') == Short([], r).Text()
  {
    HeadedJoined(r, ':');
    assert ":" + (":" + Joined(r, ':')) == "" + "::" + Joined(r, ':');
  }

  lemma AroundMatches(hc: Regex, ch: Regex, lmax: nat, rmax: nat, s: string)
    requires forall x :: Matches(hc, x) <==> LeftPart(x, 1, lmax)
    requires forall y :: Matches(ch, y) <==> RightPart(y, 1, rmax)
    ensures Matches(Cat(hc, ch), s) <==> Shortened(s, 1, lmax, 1, rmax)
  {
    if Matches(Cat(hc, ch), s) {
      var x, y := CatParts(hc, ch, s);
      var l :| 1 <= |l| <= lmax && HexGroups(l) && x == Trailed(l, ':');
      var r :| 1 <= |r| <= rmax && HexGroups(r) && y == Headed(r, ':');
      TextAround(l, r);
    }
    if Shortened(s, 1, lmax, 1, rmax) {
      var l, r :| 1 <= |l| <= lmax && 1 <= |r| <= rmax && HexGroups(l) && HexGroups(r) && s == Short(l, r).Text();
      TextAround(l, r);
      assert LeftPart(Trailed(l, ':'), 1, lmax) && RightPart(Headed(r, ':'), 1, rmax);
      CatJoins(hc, ch, Trailed(l, ':'), Headed(r, ':'));
    }
  }

  lemma LeftMatches(hc: Regex, s: string)
    requires forall x :: Matches(hc, x) <==> LeftPart(x, 1, 7)
    ensures Matches(Cat(hc, Sep(':')), s) <==> Shortened(s, 1, 7, 0, 0)
  {
    if Matches(Cat(hc, Sep(':')), s) {
      LeftParts(hc, s);
    } else if Shortened(s, 1, 7, 0, 0) {
      LeftBuilt(hc, s);
    }
  }

  lemma LeftParts(hc: Regex, s: string)
    requires forall x :: Matches(hc, x) ==> LeftPart(x, 1, 7)
    requires Matches(Cat(hc, Sep(':')), s)
    ensures Shortened(s, 1, 7, 0, 0)
  {
    var x, y := CatParts(hc, Sep(':'), s);
    assert LeftPart(x, 1, 7) && y == ":";
    LeftPartShortened(x, 1, 7);
  }

  lemma LeftPartShortened(x: string, min: nat, max: nat)
    requires min >= 1 && LeftPart(x, min, max)
    ensures Shortened(x + ":", min, max, 0, 0)
  {
    var l :| min <= |l| <= max && HexGroups(l) && x == Trailed(l, ':');
    TextLeft(l);
    assert x + ":" == Short(l, []).Text();
  }

  lemma LeftBuilt(hc: Regex, s: string)
    requires forall x :: LeftPart(x, 1, 7) ==> Matches(hc, x)
    requires Shortened(s, 1, 7, 0, 0)
    ensures Matches(Cat(hc, Sep(':')), s)
  {
    var l, r :| 1 <= |l| <= 7 && 0 <= |r| <= 0 && HexGroups(l) && HexGroups(r) && s == Short(l, r).Text();
    TextLeft(l);
    assert r == [];
    assert LeftPart(Trailed(l, ':'), 1, 7);
    CatJoins(hc, Sep(':'), Trailed(l, ':'), ":");
  }

  lemma RightMatches(ch: Regex, s: string)
    requires forall y :: Matches(ch, y) <==> RightPart(y, 1, 7)
    ensures Matches(Cat(Sep(':'), ch), s) <==> Shortened(s, 0, 0, 1, 7)
  {
    if Matches(Cat(Sep(':'), ch), s) {
      var x, y := CatParts(Sep(':'), ch, s);
      var r :| 1 <= |r| <= 7 && HexGroups(r) && y == Headed(r, ':');
      TextRight(r);
      assert x == ":" && s == Short([], r).Text();
    }
    if Shortened(s, 0, 0, 1, 7) {
      var l, r :| 0 <= |l| <= 0 && 1 <= |r| <= 7 && HexGroups(l) && HexGroups(r) && s == Short(l, r).Text();
      TextRight(r);
      assert RightPart(Headed(r, ':'), 1, 7) && l == [];
      CatJoins(Sep(':'), ch, ":", Headed(r, ':'));
    }
  }

  lemma ColonColon(s: string)
    ensures Matches(Cat(Sep(':'), Sep(':')), s) <==> s == "::"
    ensures s == "::" <==> Shortened(s, 0, 0, 0, 0)
  {
    PairMatches(Sep(':'), One(':'), s);
    if s == "::" { assert s[..1] == ":" && s == Short([], []).Text(); }
    if |s| == 2 { assert s == [s[0], s[1]]; }
    if Shortened(s, 0, 0, 0, 0) {
      var l, r :| 0 <= |l| <= 0 && 0 <= |r| <= 0 && HexGroups(l) && HexGroups(r) && s == Short(l, r).Text();
      assert l == [] && r == [];
    }
  }

  /** The nine hexadecimal alternatives accept exactly forms 1 and 2 of section 2.2 of RFC 4291. */
  ghost predicate HexText(s: string) {
    exists v: Address :: v.HexForm() && v.Text() == s
  }

  lemma ShortenedIsHexText(s: string, lmin: nat, lmax: nat, rmin: nat, rmax: nat)
    requires Shortened(s, lmin, lmax, rmin, rmax) && lmax + rmax <= 7
    ensures HexText(s)
  {
    var l, r :| lmin <= |l| <= lmax && rmin <= |r| <= rmax && HexGroups(l) && HexGroups(r) && s == Short(l, r).Text();
    assert Short(l, r).HexForm();
  }

  /** Which alternative a text of form 2 belongs to. */
  ghost predicate AnyShortened(s: string) {
    || Shortened(s, 1, 7, 0, 0)
    || Shortened(s, 1, 6, 1, 1)
    || Shortened(s, 1, 5, 1, 2)
    || Shortened(s, 1, 4, 1, 3)
    || Shortened(s, 1, 3, 1, 4)
    || Shortened(s, 1, 2, 1, 5)
    || Shortened(s, 1, 1, 1, 6)
    || Shortened(s, 0, 0, 1, 7)
    || Shortened(s, 0, 0, 0, 0)
  }

  lemma HexTextCases(s: string)
    ensures HexText(s) <==> AnyShortened(s) || exists gs :: Full(gs).HexForm() && s == Joined(gs, ':')
  {
    if v: Address :| v.HexForm() && v.Text() == s {
      match v
      case Full(gs) =>
        assert Full(gs).HexForm() && s == Joined(gs, ':');
      case Short(l, r) =>
        ShortCases(l, r);
      case Mixed(_, _, _) =>
    }
    if AnyShortened(s) {
      if Shortened(s, 1, 7, 0, 0) { ShortenedIsHexText(s, 1, 7, 0, 0); }
      if Shortened(s, 1, 6, 1, 1) { ShortenedIsHexText(s, 1, 6, 1, 1); }
      if Shortened(s, 1, 5, 1, 2) { ShortenedIsHexText(s, 1, 5, 1, 2); }
      if Shortened(s, 1, 4, 1, 3) { ShortenedIsHexText(s, 1, 4, 1, 3); }
      if Shortened(s, 1, 3, 1, 4) { ShortenedIsHexText(s, 1, 3, 1, 4); }
      if Shortened(s, 1, 2, 1, 5) { ShortenedIsHexText(s, 1, 2, 1, 5); }
      if Shortened(s, 1, 1, 1, 6) { ShortenedIsHexText(s, 1, 1, 1, 6); }
      if Shortened(s, 0, 0, 1, 7) { ShortenedIsHexText(s, 0, 0, 1, 7); }
      if Shortened(s, 0, 0, 0, 0) { ShortenedIsHexText(s, 0, 0, 0, 0); }
    }
    if gs :| Full(gs).HexForm() && s == Joined(gs, ':') {
      assert Full(gs).Text() == s;
    }
  }

  lemma ShortCases(l: seq<string>, r: seq<string>)
    requires Short(l, r).HexForm()
    ensures AnyShortened(Short(l, r).Text())
  {
    var s := Short(l, r).Text();
    if l == [] || r == [] {
      assert Shortened(s, |l|, |l|, |r|, |r|);
    }
  }

  lemma FormFull(s: string)
    ensures Matches(Cat(HC(7, 7), H4), s) <==> exists gs :: Full(gs).HexForm() && s == Joined(gs, ':')
  {
    forall x ensures Matches(HC(7, 7), x) <==> LeftPart(x, 7, 7) { HCMatches(7, 7, x); }
    forall g ensures Matches(H4, g) <==> HexGroup(g) { H4Matches(g); }
    FullMatches(HC(7, 7), H4, s);
  }

  lemma FormLeft(s: string)
    ensures Matches(Cat(HC(1, 7), Sep(':')), s) <==> Shortened(s, 1, 7, 0, 0)
  {
    forall x ensures Matches(HC(1, 7), x) <==> LeftPart(x, 1, 7) { HCMatches(1, 7, x); }
    LeftMatches(HC(1, 7), s);
  }

  lemma FormOneRight(s: string)
    ensures Matches(Cat(HC(1, 6), Cat(Sep(':'), H4)), s) <==> Shortened(s, 1, 6, 1, 1)
  {
    forall g ensures Matches(H4, g) <==> HexGroup(g) { H4Matches(g); }
    forall x ensures Matches(HC(1, 6), x) <==> LeftPart(x, 1, 6) { HCMatches(1, 6, x); }
    forall y ensures Matches(Cat(Sep(':'), H4), y) <==> RightPart(y, 1, 1) { OneHeaded(H4, y); }
    AroundMatches(HC(1, 6), Cat(Sep(':'), H4), 6, 1, s);
  }

  lemma FormAround(a: nat, b: nat, s: string)
    ensures Matches(Around(a, b), s) <==> Shortened(s, 1, a, 1, b)
  {
    forall x ensures Matches(HC(1, a), x) <==> LeftPart(x, 1, a) { HCMatches(1, a, x); }
    forall y ensures Matches(CH(1, b), y) <==> RightPart(y, 1, b) { CHMatches(1, b, y); }
    AroundMatches(HC(1, a), CH(1, b), a, b, s);
  }

  lemma FormOneLeft(s: string)
    ensures Matches(Cat(H4, Cat(Sep(':'), CH(1, 6))), s) <==> Shortened(s, 1, 1, 1, 6)
  {
    forall g ensures Matches(H4, g) <==> HexGroup(g) { H4Matches(g); }
    forall x ensures Matches(Cat(H4, Sep(':')), x) <==> LeftPart(x, 1, 1) { OneTrailed(H4, x); }
    forall y ensures Matches(CH(1, 6), y) <==> RightPart(y, 1, 6) { CHMatches(1, 6, y); }
    CatAssociates(H4, Sep(':'), CH(1, 6), s);
    AroundMatches(Cat(H4, Sep(':')), CH(1, 6), 1, 6, s);
  }

  lemma FormRight(s: string)
    ensures Matches(Cat(Sep(':'), Alt(CH(1, 7), Sep(':'))), s) <==> Shortened(s, 0, 0, 1, 7) || Shortened(s, 0, 0, 0, 0)
  {
    forall y ensures Matches(CH(1, 7), y) <==> RightPart(y, 1, 7) { CHMatches(1, 7, y); }
    RightMatches(CH(1, 7), s);
    ColonColon(s);
    CatAlt(Sep(':'), CH(1, 7), Sep(':'), s);
  }

  /** The language of the nine hexadecimal alternatives. */
  lemma HexFormsMatch(s: string)
    ensures (exists r | r in HEX_FORMS :: Matches(r, s)) <==> HexText(s)
  {
    FormFull(s);
    FormLeft(s);
    FormOneRight(s);
    FormAround(5, 2, s);
    FormAround(4, 3, s);
    FormAround(3, 4, s);
    FormAround(2, 5, s);
    FormOneLeft(s);
    FormRight(s);
    HexTextCases(s);
    NineOf(HEX_FORMS, s);
  }

  lemma NineOf(rs: seq<Regex>, s: string)
    requires |rs| == 9
    ensures (exists r | r in rs :: Matches(r, s)) <==>
            (Matches(rs[0], s) || Matches(rs[1], s) || Matches(rs[2], s) || Matches(rs[3], s) || Matches(rs[4], s)
             || Matches(rs[5], s) || Matches(rs[6], s) || Matches(rs[7], s) || Matches(rs[8], s))
  {
    if r :| r in rs && Matches(r, s) {
      var i :| 0 <= i < |rs| && rs[i] == r;
    }
  }

  // ---------- the forms with an embedded dotted quad ----------

  ghost predicate QuadPart(y: string) {
    exists q :: Octets(q) && y == Joined(q, '.')
  }

  ghost predicate MixedText(s: string) {
    exists v: Address :: v.MixedForm() && v.Text() == s
  }

  predicate MappedGroups(r: seq<string>) {
    r == [] || r == ["ffff"] || (|r| == 2 && r[0] == "ffff" && ZeroGroup(r[1]))
  }

  ghost predicate MappedPart(m: string) {
    exists r :: MappedGroups(r) && m == Trailed(r, ':')
  }

  lemma ZerosMatch(z: string)
    ensures Matches(ZEROS, z) <==> z == "" || (z[0] == ':' && ZeroGroup(z[1..]))
  {
    var zeros := Rep(Chr(One('0')), 1, Some(4));
    OptionalMatches(Cat(Sep(':'), zeros), z);
    if z != "" {
      ChrsMatch(One('0'), 1, Some(4), z[1..]);
      ColonThen(zeros, z);
    }
  }

  lemma ColonThen(r: Regex, z: string)
    requires z != ""
    ensures Matches(Cat(Sep(':'), r), z) <==> z[0] == ':' && Matches(r, z[1..])
  {
    if Matches(Cat(Sep(':'), r), z) {
      var c, g := CatParts(Sep(':'), r, z);
      assert z[1..] == g;
    }
    if z[0] == ':' && Matches(r, z[1..]) {
      CatJoins(Sep(':'), r, ":", z[1..]);
      assert z == ":" + z[1..];
    }
  }

  lemma TrailedPair(a: string, b: string)
    ensures Trailed([a, b], ':') == a + ":" + (b + ":")
  {
    assert [a, b][1..] == [b];
    OneField(b, ':');
  }

  /** One round of the optional "ffff:" or "ffff:0:" part. */
  lemma MappedRound(ffff: Regex, zeros: Regex, m: string)
    requires forall x :: Matches(ffff, x) <==> x == "ffff"
    requires forall z :: Matches(zeros, z) <==> z == "" || (z[0] == ':' && ZeroGroup(z[1..]))
    ensures Matches(Cat(ffff, Cat(zeros, Sep(':'))), m)
       <==> exists r :: MappedGroups(r) && r != [] && m == Trailed(r, ':')
  {
    if Matches(Cat(ffff, Cat(zeros, Sep(':'))), m) {
      var x, y := CatParts(ffff, Cat(zeros, Sep(':')), m);
      var z, c := CatParts(zeros, Sep(':'), y);
      MappedPieces(z, m);
    }
    if r :| MappedGroups(r) && r != [] && m == Trailed(r, ':') {
      MappedBuilt(ffff, zeros, r);
    }
  }

  lemma MappedBuilt(ffff: Regex, zeros: Regex, r: seq<string>)
    requires Matches(ffff, "ffff") && MappedGroups(r) && r != []
    requires forall z :: z == "" || (z[0] == ':' && ZeroGroup(z[1..])) ==> Matches(zeros, z)
    ensures Matches(Cat(ffff, Cat(zeros, Sep(':'))), Trailed(r, ':'))
  {
    var z := if |r| == 1 then "" else ":" + r[1];
    MappedSpelled(r, z);
    assert z != "" ==> z[1..] == r[1];
    CatJoins(zeros, Sep(':'), z, ":");
    CatJoins(ffff, Cat(zeros, Sep(':')), "ffff", z + ":");
  }

  lemma MappedSpelled(r: seq<string>, z: string)
    requires MappedGroups(r) && r != [] && z == if |r| == 1 then "" else ":" + r[1]
    ensures Trailed(r, ':') == "ffff" + (z + ":")
  {
    if |r| == 1 {
      OneField("ffff", ':');
      assert z + ":" == ":";
    } else {
      assert r == ["ffff", r[1]];
      TrailedPair("ffff", r[1]);
      assert "ffff" + (":" + r[1] + ":") == "ffff" + ":" + (r[1] + ":");
    }
  }

  lemma MappedPieces(z: string, m: string)
    requires z == "" || (z[0] == ':' && ZeroGroup(z[1..]))
    requires m == "ffff" + (z + ":")
    ensures exists r :: MappedGroups(r) && r != [] && m == Trailed(r, ':')
  {
    var r := if z == "" then ["ffff"] else ["ffff", z[1..]];
    assert z != "" ==> z == ":" + z[1..];
    MappedSpelled(r, z);
    assert MappedGroups(r);
  }

  lemma MappedMatches(m: string)
    ensures Matches(MAPPED, m) <==> MappedPart(m)
  {
    forall x ensures Matches(Lit("ffff"), x) <==> x == "ffff" { LitMatches("ffff", x); }
    forall z ensures Matches(ZEROS, z) <==> z == "" || (z[0] == ':' && ZeroGroup(z[1..])) { ZerosMatch(z); }
    MappedRound(Lit("ffff"), ZEROS, m);
    OptionalMatches(Cat(Lit("ffff"), Cat(ZEROS, Sep(':'))), m);
    assert Trailed([], ':') == "";
  }

  lemma MixedTextRight(r: seq<string>, q: seq<string>)
    ensures "::" + (Trailed(r, ':') + Joined(q, '.')) == Mixed([], r, q).Text()
  {
    assert "" + "::" + Trailed(r, ':') + Joined(q, '.') == "::" + (Trailed(r, ':') + Joined(q, '.'));
  }

  lemma MixedTextLeft(l: seq<string>, q: seq<string>)
    requires l != []
    ensures Trailed(l, ':') + (":" + Joined(q, '.')) == Mixed(l, [], q).Text()
  {
    TrailedJoined(l, ':');
    assert Joined(l, ':') + ":" + (":" + Joined(q, '.')) == Joined(l, ':') + "::" + "" + Joined(q, '.');
  }

  lemma QuadRightParts(colons: Regex, mapped: Regex, quad: Regex, s: string) returns (r: seq<string>, q: seq<string>)
    requires forall x :: Matches(colons, x) ==> x == "::"
    requires forall m :: Matches(mapped, m) ==> MappedPart(m)
    requires forall y :: Matches(quad, y) ==> QuadPart(y)
    requires Matches(Cat(colons, Cat(mapped, quad)), s)
    ensures Mixed([], r, q).MixedForm() && Mixed([], r, q).Text() == s
  {
    var x, my := CatParts(colons, Cat(mapped, quad), s);
    var m, y := CatParts(mapped, quad, my);
    assert MappedPart(m) && QuadPart(y);
    r :| MappedGroups(r) && m == Trailed(r, ':');
    q :| Octets(q) && y == Joined(q, '.');
    MixedTextRight(r, q);
  }

  lemma QuadRight(colons: Regex, mapped: Regex, quad: Regex, s: string)
    requires forall x :: Matches(colons, x) <==> x == "::"
    requires forall m :: Matches(mapped, m) <==> MappedPart(m)
    requires forall y :: Matches(quad, y) <==> QuadPart(y)
    ensures Matches(Cat(colons, Cat(mapped, quad)), s)
       <==> exists r, q :: Mixed([], r, q).MixedForm() && Mixed([], r, q).Text() == s
  {
    if Matches(Cat(colons, Cat(mapped, quad)), s) {
      var r, q := QuadRightParts(colons, mapped, quad, s);
    } else if r, q :| Mixed([], r, q).MixedForm() && Mixed([], r, q).Text() == s {
      MixedTextRight(r, q);
      assert MappedGroups(r) && MappedPart(Trailed(r, ':')) && QuadPart(Joined(q, '.'));
      CatJoins(mapped, quad, Trailed(r, ':'), Joined(q, '.'));
      CatJoins(colons, Cat(mapped, quad), "::", Trailed(r, ':') + Joined(q, '.'));
    }
  }

  ghost predicate ColonQuad(z: string) {
    exists q :: Octets(q) && z == ":" + Joined(q, '.')
  }

  lemma QuadTail(quad: Regex, z: string)
    requires forall y :: Matches(quad, y) <==> QuadPart(y)
    ensures Matches(Cat(Sep(':'), quad), z) <==> ColonQuad(z)
  {
    if Matches(Cat(Sep(':'), quad), z) {
      var c, y := CatParts(Sep(':'), quad, z);
      var q :| Octets(q) && y == Joined(q, '.');
      assert c == ":" && z == ":" + Joined(q, '.');
    } else if q :| Octets(q) && z == ":" + Joined(q, '.') {
      assert QuadPart(Joined(q, '.'));
      CatJoins(Sep(':'), quad, ":", Joined(q, '.'));
    }
  }

  lemma QuadLeft(hc: Regex, tail: Regex, s: string)
    requires forall x :: Matches(hc, x) <==> LeftPart(x, 1, 4)
    requires forall z :: Matches(tail, z) <==> ColonQuad(z)
    ensures Matches(Cat(hc, tail), s)
       <==> exists l, q :: l != [] && Mixed(l, [], q).MixedForm() && Mixed(l, [], q).Text() == s
  {
    if Matches(Cat(hc, tail), s) {
      var x, z := CatParts(hc, tail, s);
      var l :| 1 <= |l| <= 4 && HexGroups(l) && x == Trailed(l, ':');
      var q :| Octets(q) && z == ":" + Joined(q, '.');
      MixedTextLeft(l, q);
      assert Mixed(l, [], q).MixedForm();
    } else if l, q :| l != [] && Mixed(l, [], q).MixedForm() && Mixed(l, [], q).Text() == s {
      MixedTextLeft(l, q);
      assert LeftPart(Trailed(l, ':'), 1, 4) && ColonQuad(":" + Joined(q, '.'));
      CatJoins(hc, tail, Trailed(l, ':'), ":" + Joined(q, '.'));
    }
  }

  lemma QuadFormsMatch(s: string)
    ensures (exists r | r in QUAD_FORMS :: Matches(r, s)) <==> MixedText(s)
  {
    forall x ensures Matches(Lit("::"), x) <==> x == "::" { LitMatches("::", x); }
    forall m ensures Matches(MAPPED, m) <==> MappedPart(m) { MappedMatches(m); }
    forall y ensures Matches(QUAD, y) <==> QuadPart(y) { QuadMatches(y); }
    forall x ensures Matches(HC(1, 4), x) <==> LeftPart(x, 1, 4) { HCMatches(1, 4, x); }
    QuadRight(Lit("::"), MAPPED, QUAD, s);
    forall z ensures Matches(Cat(Sep(':'), QUAD), z) <==> ColonQuad(z) { QuadTail(QUAD, z); }
    QuadLeft(HC(1, 4), Cat(Sep(':'), QUAD), s);
    MixedCases(s);
    TwoOf(QUAD_FORMS, s);
  }

  lemma MixedCases(s: string)
    ensures MixedText(s) <==>
            (exists r, q :: Mixed([], r, q).MixedForm() && Mixed([], r, q).Text() == s)
            || (exists l, q :: l != [] && Mixed(l, [], q).MixedForm() && Mixed(l, [], q).Text() == s)
  {
    if v: Address :| v.MixedForm() && v.Text() == s {
      if v.left == [] {
        assert v == Mixed([], v.right, v.quad);
      } else {
        assert v == Mixed(v.left, [], v.quad);
      }
    }
  }

  lemma TwoOf(rs: seq<Regex>, s: string)
    requires |rs| == 2
    ensures (exists r | r in rs :: Matches(r, s)) <==> Matches(rs[0], s) || Matches(rs[1], s)
  {
    if r :| r in rs && Matches(r, s) {
      var i :| 0 <= i < |rs| && rs[i] == r;
    }
  }

  // ---------- what matchIPv6Address accepts ----------

  /** "fe80:", up to four groups that may be empty, each behind a colon, and a zone of letters and digits. */
  predicate ZoneParts(s: string, gs: seq<string>, zone: string) {
    && |gs| <= 4 && (forall g | g in gs :: AtMostFourHex(g))
    && ZoneName(zone)
    && s == "fe80:" + Headed(gs, ':') + "%" + zone
  }

  predicate ZoneName(y: string) {
    y != "" && forall i | 0 <= i < |y| :: '0' <= y[i] <= '9' || 'a' <= y[i] <= 'z' || 'A' <= y[i] <= 'Z'
  }

  predicate AtMostFourHex(g: string) {
    |g| <= 4 && forall i | 0 <= i < |g| :: Hexadecimal.IsHex(g[i])
  }

  ghost predicate ZoneText(s: string) {
    exists gs, zone :: ZoneParts(s, gs, zone)
  }

  ghost predicate ZoneGroups(x: string) {
    exists gs: seq<string> :: |gs| <= 4 && (forall g | g in gs :: AtMostFourHex(g)) && x == Headed(gs, ':')
  }

  lemma ZoneGroupsMatch(x: string)
    ensures Matches(Rep(Cat(Sep(':'), Rep(Chr(HEX), 0, Some(4))), 0, Some(4)), x) <==> ZoneGroups(x)
  {
    var h := Rep(Chr(HEX), 0, Some(4));
    RepHeaded(h, ':', 0, Some(4), x);
    forall g ensures Matches(h, g) <==> AtMostFourHex(g) {
      ChrsMatch(HEX, 0, Some(4), g);
      forall c ensures HEX.Has(c) <==> Hexadecimal.IsHex(c) { HexHas(c); }
    }
    forall gs: seq<string> ensures AllMatch(h, gs) <==> forall g | g in gs :: AtMostFourHex(g) {
      if AllMatch(h, gs) { forall g | g in gs ensures AtMostFourHex(g) { assert Matches(h, g); } }
    }
  }

  lemma ZoneNameMatches(y: string)
    ensures Matches(Rep(Chr(ALNUM), 1, None), y) <==> ZoneName(y)
  {
    ChrsMatch(ALNUM, 1, None, y);
    forall i | 0 <= i < |y|
      ensures ALNUM.Has(y[i]) <==> '0' <= y[i] <= '9' || 'a' <= y[i] <= 'z' || 'A' <= y[i] <= 'Z'
    {
      ClassesAre(y[i]);
    }
  }

  lemma ZoneSplit(start: Regex, groups: Regex, percent: Regex, name: Regex, s: string) returns (x: string, y: string)
    requires forall t :: Matches(start, t) <==> t == "fe80:"
    requires forall t :: Matches(percent, t) <==> t == "%"
    requires Matches(Cat(start, Cat(groups, Cat(percent, name))), s)
    ensures Matches(groups, x) && Matches(name, y) && s == "fe80:" + x + "%" + y
  {
    var p, u := CatParts(start, Cat(groups, Cat(percent, name)), s);
    var v, q;
    x, v := CatParts(groups, Cat(percent, name), u);
    q, y := CatParts(percent, name, v);
    assert "fe80:" + (x + ("%" + y)) == "fe80:" + x + "%" + y;
  }

  lemma ZoneBuilt(start: Regex, groups: Regex, percent: Regex, name: Regex, x: string, y: string)
    requires Matches(start, "fe80:") && Matches(groups, x) && Matches(percent, "%") && Matches(name, y)
    ensures Matches(Cat(start, Cat(groups, Cat(percent, name))), "fe80:" + x + "%" + y)
  {
    CatJoins(percent, name, "%", y);
    CatJoins(groups, Cat(percent, name), x, "%" + y);
    CatJoins(start, Cat(groups, Cat(percent, name)), "fe80:", x + ("%" + y));
    assert "fe80:" + (x + ("%" + y)) == "fe80:" + x + "%" + y;
  }

  lemma ZoneShape(start: Regex, groups: Regex, percent: Regex, name: Regex, s: string)
    requires forall t :: Matches(start, t) <==> t == "fe80:"
    requires forall x :: Matches(groups, x) <==> ZoneGroups(x)
    requires forall t :: Matches(percent, t) <==> t == "%"
    requires forall y :: Matches(name, y) <==> ZoneName(y)
    ensures Matches(Cat(start, Cat(groups, Cat(percent, name))), s) <==> ZoneText(s)
  {
    if Matches(Cat(start, Cat(groups, Cat(percent, name))), s) {
      var x, y := ZoneSplit(start, groups, percent, name, s);
      var gs: seq<string> :| |gs| <= 4 && (forall g | g in gs :: AtMostFourHex(g)) && x == Headed(gs, ':');
      assert ZoneParts(s, gs, y);
    }
    if gs, zone :| ZoneParts(s, gs, zone) {
      assert ZoneGroups(Headed(gs, ':'));
      ZoneBuilt(start, groups, percent, name, Headed(gs, ':'), zone);
    }
  }

  lemma ZonedMatches(s: string)
    ensures Matches(ZONED, s) <==> ZoneText(s)
  {
    var groups := Rep(Cat(Sep(':'), Rep(Chr(HEX), 0, Some(4))), 0, Some(4));
    forall t ensures Matches(Lit("fe80:"), t) <==> t == "fe80:" { LitMatches("fe80:", t); }
    forall x ensures Matches(groups, x) <==> ZoneGroups(x) { ZoneGroupsMatch(x); }
    forall y ensures Matches(Rep(Chr(ALNUM), 1, None), y) <==> ZoneName(y) { ZoneNameMatches(y); }
    ZoneShape(Lit("fe80:"), groups, Chr(One('%')), Rep(Chr(ALNUM), 1, None), s);
  }

  lemma ZonedHasPercent(s: string)
    requires ZoneText(s)
    ensures '%' in s
  {
    var gs, zone :| ZoneParts(s, gs, zone);
    assert s[|"fe80:" + Headed(gs, ':')|] == '%';
  }

  lemma PatternMatches(s: string)
    ensures MatchIpv6(s) <==> HexText(s) || MixedText(s) || ZoneText(s)
  {
    MatchIff(PATTERN, s);
    AnyOfMatches(HEX_FORMS + [ZONED] + QUAD_FORMS, s);
    HexFormsMatch(s);
    QuadFormsMatch(s);
    ZonedMatches(s);
    InThreeParts(HEX_FORMS, ZONED, QUAD_FORMS, s);
  }

  lemma InThreeParts(a: seq<Regex>, z: Regex, b: seq<Regex>, s: string)
    ensures (exists r | r in a + [z] + b :: Matches(r, s)) <==>
            (exists r | r in a :: Matches(r, s)) || Matches(z, s) || (exists r | r in b :: Matches(r, s))
  {
    if r :| r in a && Matches(r, s) { assert r in a + [z] + b; }
    if Matches(z, s) { assert z in a + [z] + b; }
    if r :| r in b && Matches(r, s) { assert r in a + [z] + b; }
  }

  /** Without a zone, the texts accepted are exactly the well-formed address texts. */
  lemma AcceptsIff(s: string)
    requires '%' !in s
    ensures MatchIpv6(s) <==> exists v: Address :: v.WellFormed() && v.Text() == s
  {
    PatternMatches(s);
    if ZoneText(s) { ZonedHasPercent(s); }
    if v: Address :| v.HexForm() && v.Text() == s { assert v.WellFormed(); }
    if v: Address :| v.MixedForm() && v.Text() == s { assert v.WellFormed(); }
  }

  /** No well-formed text has a zone. */
  lemma NoPercent(v: Address)
    requires v.WellFormed()
    ensures '%' !in v.Text()
  {
    match v
    case Full(gs) =>
      GroupsFree(gs, '%');
      JoinedFree(gs, ':', '%');
    case Short(l, r) =>
      GroupsFree(l, '%');
      GroupsFree(r, '%');
      JoinedFree(l, ':', '%');
      JoinedFree(r, ':', '%');
    case Mixed(l, r, q) =>
      MixedGroups(v);
      GroupsFree(l, '%');
      GroupsFree(r, '%');
      OctetsFree(q, '%');
      JoinedFree(l, ':', '%');
      JoinedFree(r, ':', '%');
      JoinedFree(q, '.', '%');
  }

  /** With a percent sign, the texts accepted are exactly those with a zone. */
  lemma ZoneAcceptsIff(s: string)
    requires '%' in s
    ensures MatchIpv6(s) <==> exists gs, zone :: ZoneParts(s, gs, zone)
  {
    PatternMatches(s);
    if v: Address :| v.HexForm() && v.Text() == s { NoPercent(v); }
    if v: Address :| v.MixedForm() && v.Text() == s { NoPercent(v); }
  }

  lemma GroupsFree(gs: seq<string>, c: char)
    requires HexGroups(gs) && !Hexadecimal.IsHex(c)
    ensures AllFree(gs, c)
  {
    forall g | g in gs ensures Free(g, c) { assert HexGroup(g); }
  }

  lemma OctetsFree(q: seq<string>, c: char)
    requires Octets(q) && !IsDigit(c)
    ensures AllFree(q, c)
  {
    forall o | o in q ensures Free(o, c) { assert Octet(o); }
  }

  lemma MixedGroups(v: Address)
    requires v.MixedForm()
    ensures HexGroups(v.left) && HexGroups(v.right) && |v.left| + |v.right| + 2 <= 7
  {
    if v.right != [] {
      assert Hexadecimal.IsHex('f') && HexGroup("ffff");
      if |v.right| == 2 { assert HexGroup(v.right[1]) && v.right == ["ffff", v.right[1]]; }
    }
  }
}
