/** Time-based UUIDs (makeUUID): the field packing and the text. */
module Uuid {
  import opened Hexadecimal
  import Regex
  import Separated
  import opened Words

  const VERSION: nat := 1
  const VARIANT: nat := 2

  datatype Fields = Fields(
    timeLow: nat,
    timeMid: nat,
    timeHiAndVersion: nat,
    clockSeqHiAndReserved: nat,
    clockSeqLow: nat,
    node: seq<nat>)

  /** Assignment to a bit field at the low end of a unit: the value is cut to the field, the other bits of the
      unit stay. `range` is two to the width of the field. */
  function SetLow(unit: nat, range: nat, value: nat): nat
    requires range > 0
  {
    unit / range * range + value % range
  }

  /** `time_hi` and `version` are members of one union, and so are `clock_seq_hi` and `variant`. On a
      little-endian machine all of them start at the lowest bit of their unit, so that the second assignment
      goes over the first. The units are not initialised: `unit` and `byte` are what the memory held. */
  function Pack(time: nat, clock: nat, node: seq<nat>, unit: nat, byte: nat): Fields {
    Fields(
      And(time, 0xFFFF_FFFF),
      And(Shr(time, 32), 0xFFFF),
      SetLow(SetLow(unit, 0x1000, And(Shr(time, 48), 0xFFFF)), 0x10, VERSION),
      SetLow(SetLow(byte, 0x40, And(Shr(clock, 8), 0xFF)), 0x4, VARIANT),
      And(clock, 0xFF),
      node)
  }

  /** The time and the clock sequence that section 4.1 of RFC 4122 reads from the fields. */
  function TimeOf(f: Fields): nat {
    f.timeLow + f.timeMid * 0x1_0000_0000 + f.timeHiAndVersion % 0x1000 * 0x1_0000_0000_0000
  }

  function ClockOf(f: Fields): nat {
    f.clockSeqHiAndReserved % 0x40 * 0x100 + f.clockSeqLow
  }

  lemma Powers()
    ensures Pow2(8) == 0x100 && Pow2(16) == 0x1_0000 && Pow2(32) == 0x1_0000_0000
  {
    assert Pow2(4) == 16 && Pow2(8) == 0x100;
    PowersAdd(8, 8);
    PowersAdd(16, 16);
  }

  lemma LowBits(x: nat, n: nat, p: nat)
    requires p == Pow2(n)
    ensures And(x, p - 1) < p && x == Shr(x, n) * p + And(x, p - 1)
  {
    AndRemainder(x, n);
    ShlTimes(Shr(x, n), n);
  }

  /** The masks and shifts of the assignments as remainders and quotients. */
  lemma TimeFields(time: nat)
    ensures And(time, 0xFFFF_FFFF) + And(Shr(time, 32), 0xFFFF) * 0x1_0000_0000 == time % 0x1_0000_0000_0000
    ensures And(time, 0xFFFF_FFFF) < 0x1_0000_0000 && And(Shr(time, 32), 0xFFFF) < 0x1_0000
    ensures And(Shr(time, 48), 0xFFFF) == time / 0x1_0000_0000_0000 % 0x1_0000
  {
    Powers();
    LowBits(time, 32, 0x1_0000_0000);
    LowBits(Shr(time, 32), 16, 0x1_0000);
    LowBits(Shr(time, 48), 16, 0x1_0000);
    ShrAgain(time, 32, 16);
    Quotients(time, And(time, 0xFFFF_FFFF) + And(Shr(time, 32), 0xFFFF) * 0x1_0000_0000, Shr(time, 48));
    RemainderIs(Shr(time, 48), Shr(Shr(time, 48), 16), And(Shr(time, 48), 0xFFFF));
  }

  lemma Quotients(time: nat, low: nat, rest: nat)
    requires low < 0x1_0000_0000_0000 && time == low + rest * 0x1_0000_0000_0000
    ensures low == time % 0x1_0000_0000_0000 && rest == time / 0x1_0000_0000_0000
  {
  }

  lemma RemainderIs(x: nat, q: nat, v: nat)
    ensures x == q * 0x1_0000 + v && v < 0x1_0000 ==> v == x % 0x1_0000
    ensures x == q * 0x100 + v && v < 0x100 ==> v == x % 0x100 && q == x / 0x100
  {
  }

  lemma ClockFields(clock: nat)
    ensures And(clock, 0xFF) == clock % 0x100 && And(Shr(clock, 8), 0xFF) == clock / 0x100 % 0x100
  {
    Powers();
    LowBits(clock, 8, 0x100);
    LowBits(Shr(clock, 8), 8, 0x100);
    RemainderIs(clock, Shr(clock, 8), And(clock, 0xFF));
    RemainderIs(Shr(clock, 8), Shr(Shr(clock, 8), 8), And(Shr(clock, 8), 0xFF));
  }

  /** The two assignments to each union: the upper part of the first field is kept, its lower part is gone. */
  lemma TimeUnit(unit: nat, value: nat)
    ensures var u := SetLow(SetLow(unit, 0x1000, value), 0x10, VERSION);
            && u == unit / 0x1000 * 0x1000 + (value % 0x1000 / 0x10 * 0x10 + VERSION)
            && u / 0x1000 == unit / 0x1000 && u % 0x1000 == value % 0x1000 / 0x10 * 0x10 + VERSION
            && u % 0x10 == VERSION
  {
    var a, r := unit / 0x1000, value % 0x1000;
    assert (a * 0x1000 + r) / 0x10 == a * 0x100 + r / 0x10;
    TimeUnitParts(a, r / 0x10);
  }

  lemma TimeUnitParts(a: nat, s: nat)
    requires s < 0x100
    ensures var u := (a * 0x100 + s) * 0x10 + VERSION;
            && u == a * 0x1000 + (s * 0x10 + VERSION)
            && u / 0x1000 == a && u % 0x1000 == s * 0x10 + VERSION && u % 0x10 == VERSION
  {
  }

  lemma ClockUnit(byte: nat, value: nat)
    ensures var u := SetLow(SetLow(byte, 0x40, value), 0x4, VARIANT);
            && u == byte / 0x40 * 0x40 + (value % 0x40 / 0x4 * 0x4 + VARIANT)
            && u / 0x40 == byte / 0x40 && u % 0x40 == value % 0x40 / 0x4 * 0x4 + VARIANT
            && u % 0x4 == VARIANT
  {
    var a, r := byte / 0x40, value % 0x40;
    assert (a * 0x40 + r) / 0x4 == a * 0x10 + r / 0x4;
    ClockUnitParts(a, r / 0x4);
  }

  lemma ClockUnitParts(a: nat, s: nat)
    requires s < 0x10
    ensures var u := (a * 0x10 + s) * 0x4 + VARIANT;
            u == a * 0x40 + (s * 0x4 + VARIANT) && u / 0x40 == a && u % 0x40 == s * 0x4 + VARIANT && u % 0x4 == VARIANT
  {
    var u := (a * 0x10 + s) * 0x4 + VARIANT;
    SixBitParts(u, a, s * 0x4 + VARIANT);
  }

  lemma SixBitParts(u: nat, a: nat, w: nat)
    requires u == a * 0x40 + w && w < 0x40
    ensures u / 0x40 == a && u % 0x40 == w
  {
  }

  /** The version and variant that section 4.1 of RFC 4122 asks for are not stored where it looks for them:
      they are there exactly when the memory happened to hold them. */
  lemma VersionAndVariantIff(time: nat, clock: nat, node: seq<nat>, unit: nat, byte: nat)
    ensures var f := Pack(time, clock, node, unit, byte);
            && (f.timeHiAndVersion / 0x1000 == VERSION <==> unit / 0x1000 == VERSION)
            && (f.clockSeqHiAndReserved / 0x40 == VARIANT <==> byte / 0x40 == VARIANT)
            && f.timeHiAndVersion % 0x10 == VERSION && f.clockSeqHiAndReserved % 0x4 == VARIANT
  {
    TimeUnit(unit, And(Shr(time, 48), 0xFFFF));
    ClockUnit(byte, And(Shr(clock, 8), 0xFF));
  }

  /** What is read from the time fields: bits 48 to 51 are always the version. */
  lemma TimeRead(time: nat, clock: nat, node: seq<nat>, unit: nat, byte: nat)
    ensures TimeOf(Pack(time, clock, node, unit, byte))
         == time % 0x1_0000_0000_0000
            + (time / 0x1_0000_0000_0000 % 0x1000 / 0x10 * 0x10 + VERSION) * 0x1_0000_0000_0000
  {
    TimeFields(time);
    TimeUnit(unit, And(Shr(time, 48), 0xFFFF));
    NestedRemainder(time / 0x1_0000_0000_0000);
  }

  lemma NestedRemainder(n: nat)
    ensures n % 0x1_0000 % 0x1000 == n % 0x1000 && n % 0x100 % 0x40 == n % 0x40
  {
    var q, v := n / 0x1_0000, n % 0x1_0000;
    TwelveBitParts(n, q * 0x10 + v / 0x1000, v % 0x1000);
    var q', v' := n / 0x100, n % 0x100;
    SixBitParts(n, q' * 0x4 + v' / 0x40, v' % 0x40);
  }

  lemma TwelveBitParts(u: nat, a: nat, w: nat)
    requires u == a * 0x1000 + w && w < 0x1000
    ensures u / 0x1000 == a && u % 0x1000 == w
  {
  }

  /** The time is recovered if and only if it is below 2^60 and has the version in its bits 48 to 51. */
  lemma TimeRecoveredIff(time: nat, clock: nat, node: seq<nat>, unit: nat, byte: nat)
    ensures TimeOf(Pack(time, clock, node, unit, byte)) == time
       <==> time < 0x1000_0000_0000_0000 && time / 0x1_0000_0000_0000 % 0x10 == VERSION
  {
    TimeRead(time, clock, node, unit, byte);
    var low, rest := time % 0x1_0000_0000_0000, time / 0x1_0000_0000_0000;
    assert time == low + rest * 0x1_0000_0000_0000;
    NibbleReplaced(rest);
  }

  lemma NibbleReplaced(rest: nat)
    ensures rest % 0x1000 / 0x10 * 0x10 + VERSION == rest <==> rest < 0x1000 && rest % 0x10 == VERSION
  {
  }

  /** In particular no time below 2^48 is recovered: the time read is larger by 2^48. */
  lemma SmallTimeShifted(time: nat, clock: nat, node: seq<nat>, unit: nat, byte: nat)
    requires time < 0x1_0000_0000_0000
    ensures TimeOf(Pack(time, clock, node, unit, byte)) == time + 0x1_0000_0000_0000
  {
    TimeRead(time, clock, node, unit, byte);
    SmallTime(time);
  }

  lemma SmallTime(time: nat)
    requires time < 0x1_0000_0000_0000
    ensures time % 0x1_0000_0000_0000 == time && time / 0x1_0000_0000_0000 % 0x1000 / 0x10 * 0x10 == 0
  {
  }

  /** The low 14 bits of the clock sequence are recovered if and only if its bits 8 and 9 are the variant. */
  lemma ClockRecoveredIff(time: nat, clock: nat, node: seq<nat>, unit: nat, byte: nat)
    ensures ClockOf(Pack(time, clock, node, unit, byte)) == clock % 0x4000 <==> clock / 0x100 % 0x4 == VARIANT
  {
    ClockFields(clock);
    ClockUnit(byte, And(Shr(clock, 8), 0xFF));
    NestedRemainder(clock / 0x100);
    ClockParts(clock);
  }

  lemma ClockParts(clock: nat)
    ensures var r := clock / 0x100 % 0x40;
            && clock % 0x4000 == r * 0x100 + clock % 0x100
            && (r / 0x4 * 0x4 + VARIANT == r <==> clock / 0x100 % 0x4 == VARIANT)
  {
    var hi, low := clock / 0x100, clock % 0x100;
    ClockRemainder(clock, low, hi);
    PairReplaced(hi);
  }

  lemma ClockRemainder(clock: nat, low: nat, hi: nat)
    requires low < 0x100 && clock == low + hi * 0x100
    ensures clock % 0x4000 == hi % 0x40 * 0x100 + low
  {
    var q, r := hi / 0x40, hi % 0x40;
    assert clock == q * 0x4000 + (r * 0x100 + low);
  }

  lemma PairReplaced(hi: nat)
    ensures hi % 0x40 / 0x4 * 0x4 + VARIANT == hi % 0x40 <==> hi % 0x4 == VARIANT
  {
    var q, r := hi / 0x40, hi % 0x40;
    assert hi == (q * 0x10 + r / 0x4) * 0x4 + r % 0x4;
  }

  /** What of time and clock sequence reaches the fields. */
  predicate SameKept(time: nat, clock: nat, time': nat, clock': nat) {
    && time % 0x1_0000_0000_0000 == time' % 0x1_0000_0000_0000
    && time / 0x1_0000_0000_0000 % 0x1000 / 0x10 == time' / 0x1_0000_0000_0000 % 0x1000 / 0x10
    && clock % 0x100 == clock' % 0x100
    && clock / 0x100 % 0x40 / 0x4 == clock' / 0x100 % 0x40 / 0x4
  }

  /** Times and clock sequences are told apart if and only if they differ in bits 0 to 47 or 52 to 59 of the
      time, or in bits 0 to 7 or 10 to 13 of the clock sequence. */
  lemma PackedAlikeIff(time: nat, clock: nat, time': nat, clock': nat, node: seq<nat>, unit: nat, byte: nat)
    ensures Pack(time, clock, node, unit, byte) == Pack(time', clock', node, unit, byte)
       <==> SameKept(time, clock, time', clock')
  {
    PackedParts(time, clock, node, unit, byte);
    PackedParts(time', clock', node, unit, byte);
    if SameKept(time, clock, time', clock') {
      SameLow(And(time, 0xFFFF_FFFF), And(Shr(time, 32), 0xFFFF), And(time', 0xFFFF_FFFF), And(Shr(time', 32), 0xFFFF));
    }
  }

  lemma SameLow(a: nat, b: nat, a': nat, b': nat)
    requires a < 0x1_0000_0000 && a' < 0x1_0000_0000
    ensures a + b * 0x1_0000_0000 == a' + b' * 0x1_0000_0000 ==> a == a' && b == b'
  {
  }

  lemma PackedParts(time: nat, clock: nat, node: seq<nat>, unit: nat, byte: nat)
    ensures var f := Pack(time, clock, node, unit, byte);
      && f.timeLow == And(time, 0xFFFF_FFFF) < 0x1_0000_0000
      && f.timeMid == And(Shr(time, 32), 0xFFFF) < 0x1_0000
      && f.timeLow + f.timeMid * 0x1_0000_0000 == time % 0x1_0000_0000_0000
      && f.timeHiAndVersion == unit / 0x1000 * 0x1000 + (time / 0x1_0000_0000_0000 % 0x1000 / 0x10 * 0x10 + VERSION)
      && f.timeHiAndVersion % 0x1000 == time / 0x1_0000_0000_0000 % 0x1000 / 0x10 * 0x10 + VERSION
      && f.clockSeqLow == clock % 0x100
      && f.clockSeqHiAndReserved == byte / 0x40 * 0x40 + (clock / 0x100 % 0x40 / 0x4 * 0x4 + VARIANT)
      && f.clockSeqHiAndReserved % 0x40 == clock / 0x100 % 0x40 / 0x4 * 0x4 + VARIANT
      && f.node == node
  {
    TimeFields(time);
    TimeUnit(unit, And(Shr(time, 48), 0xFFFF));
    NestedRemainder(time / 0x1_0000_0000_0000);
    ClockFields(clock);
    ClockUnit(byte, And(Shr(clock, 8), 0xFF));
    NestedRemainder(clock / 0x100);
  }

  /** Every field fits its width. */
  predicate InRange(f: Fields) {
    && f.timeLow < 0x1_0000_0000
    && f.timeMid < 0x1_0000
    && f.timeHiAndVersion < 0x1_0000
    && f.clockSeqHiAndReserved < 0x100
    && f.clockSeqLow < 0x100
  }

  lemma PackedInRange(time: nat, clock: nat, node: seq<nat>, unit: nat, byte: nat)
    requires unit < 0x1_0000 && byte < 0x100
    ensures InRange(Pack(time, clock, node, unit, byte))
  {
    PackedParts(time, clock, node, unit, byte);
    UnitBound(unit, byte);
  }

  lemma UnitBound(unit: nat, byte: nat)
    requires unit < 0x1_0000 && byte < 0x100
    ensures unit / 0x1000 * 0x1000 + 0x1000 <= 0x1_0000 && byte / 0x40 * 0x40 + 0x40 <= 0x100
  {
  }

  // ---------- the text ----------

  function NodeText(node: seq<nat>): string {
    if node == [] then "" else PrintHex(node[0]) + NodeText(node[1..])
  }

  function Text(f: Fields): string {
    Padded(f.timeLow, 8) + "-" + Padded(f.timeMid, 4) + "-" + Padded(f.timeHiAndVersion, 4) + "-"
    + Padded(f.clockSeqHiAndReserved, 2) + PrintHex(f.clockSeqLow) + "-" + NodeText(f.node)
  }

  predicate Denotes(s: string, n: nat) {
    AllHex(s) && HexValue(s) == n
  }

  lemma HeadSlices(a: string, b: string, c: string, d: string, rest: string)
    requires |a| == 8 && |b| == 4 && |c| == 4 && |d| == 2
    ensures var s := a + "-" + b + "-" + c + "-" + d + rest;
            |s| >= 21 && s[..8] == a && s[9..13] == b && s[14..18] == c && s[19..21] == d && s[21..] == rest
  {
  }

  lemma Widths()
    ensures Pow16(2) == 0x100 && Pow16(4) == 0x1_0000 && Pow16(8) == 0x1_0000_0000
  {
    assert Pow16(2) == 0x100 && Pow16(4) == 0x1_0000 && Pow16(6) == 0x100_0000;
  }

  /** The first 21 characters hold the time fields and the high part of the clock sequence, each at a fixed
      place; the low part ends at the next dash. */
  lemma TextReads(f: Fields)
    requires InRange(f)
    ensures var s := Text(f);
      && |s| >= 21
      && Denotes(s[..8], f.timeLow) && Denotes(s[9..13], f.timeMid) && Denotes(s[14..18], f.timeHiAndVersion)
      && Denotes(s[19..21], f.clockSeqHiAndReserved)
      && Denotes(s[21..][..Separated.Find(s[21..], '-')], f.clockSeqLow)
  {
    Widths();
    PaddedReads(f.timeLow, 8);
    PaddedReads(f.timeMid, 4);
    PaddedReads(f.timeHiAndVersion, 4);
    PaddedReads(f.clockSeqHiAndReserved, 2);
    TextParts(f, Padded(f.timeLow, 8), Padded(f.timeMid, 4), Padded(f.timeHiAndVersion, 4),
              Padded(f.clockSeqHiAndReserved, 2));
  }

  lemma TextParts(f: Fields, a: string, b: string, c: string, d: string)
    requires |a| == 8 && |b| == 4 && |c| == 4 && |d| == 2
    requires a == Padded(f.timeLow, 8) && b == Padded(f.timeMid, 4)
    requires c == Padded(f.timeHiAndVersion, 4) && d == Padded(f.clockSeqHiAndReserved, 2)
    ensures var s := Text(f);
      && |s| >= 21 && s[..8] == a && s[9..13] == b && s[14..18] == c && s[19..21] == d
      && Denotes(s[21..][..Separated.Find(s[21..], '-')], f.clockSeqLow)
  {
    var low := PrintHex(f.clockSeqLow);
    var rest := low + ("-" + NodeText(f.node));
    assert Text(f) == a + "-" + b + "-" + c + "-" + d + rest;
    HeadSlices(a, b, c, d, rest);
    ValueOfPrintHex(f.clockSeqLow);
    Separated.FindUnique(low, "-" + NodeText(f.node), '-');
    assert rest[..|low|] == low;
  }

  /** The digits of an octet without padding. */
  function OctetDigits(n: nat): string
    requires n < 0x100
  {
    if n < 16 then [HexChar(n)] else [HexChar(n / 16), HexChar(n % 16)]
  }

  /** The digits of a number, the most significant one first. */
  predicate DigitsOf(t: string, n: nat) {
    forall i | 0 <= i < |t| :: t[i] == HexChar(Nibble(n, |t| - 1 - i))
  }

  /** The numerals of the octets, one after the other. */
  predicate Numerals(ps: seq<string>, node: seq<nat>)
    requires Octets(node)
  {
    |ps| == |node| && forall i | 0 <= i < |node| :: ps[i] == OctetDigits(node[i])
  }

  lemma {:induction false} NodeNumerals(node: seq<nat>) returns (ps: seq<string>)
    requires Octets(node)
    ensures NodeText(node) == Regex.Flatten(ps) && Numerals(ps, node)
  {
    if node == [] {
      ps := [];
    } else {
      OctetsTail(node);
      OctetText(node[0]);
      var rest := NodeNumerals(node[1..]);
      ps := [PrintHex(node[0])] + rest;
      assert ps[1..] == rest;
      forall i | 0 <= i < |node| ensures ps[i] == OctetDigits(node[i]) { assert i > 0 ==> node[i] == node[1..][i - 1]; }
    }
  }

  lemma PaddedIs(n: nat, width: nat)
    requires width >= 1 && n < Pow16(width)
    ensures |Padded(n, width)| == width && DigitsOf(Padded(n, width), n)
  {
    PaddedReads(n, width);
    forall i | 0 <= i < width ensures Padded(n, width)[i] == HexChar(Nibble(n, width - 1 - i)) {
      PaddedDigits(n, width, i);
    }
  }

  /** The whole text, character by character: padded fields between dashes, then the digits of the clock sequence
      and, behind a dash, those of each octet of the node, without padding. */
  lemma TextSpelled(f: Fields) returns (ps: seq<string>)
    requires InRange(f) && Octets(f.node)
    ensures var s, low := Text(f), OctetDigits(f.clockSeqLow);
      && Numerals(ps, f.node)
      && |s| == 22 + |low| + |Regex.Flatten(ps)|
      && DigitsOf(s[..8], f.timeLow) && s[8] == '-' && DigitsOf(s[9..13], f.timeMid) && s[13] == '-'
      && DigitsOf(s[14..18], f.timeHiAndVersion) && s[18] == '-' && DigitsOf(s[19..21], f.clockSeqHiAndReserved)
      && s[21..21 + |low|] == low && s[21 + |low|] == '-' && s[22 + |low|..] == Regex.Flatten(ps)
  {
    ps := NodeNumerals(f.node);
    Widths();
    PaddedIs(f.timeLow, 8);
    PaddedIs(f.timeMid, 4);
    PaddedIs(f.timeHiAndVersion, 4);
    PaddedIs(f.clockSeqHiAndReserved, 2);
    OctetText(f.clockSeqLow);
    Assembled(Padded(f.timeLow, 8), Padded(f.timeMid, 4), Padded(f.timeHiAndVersion, 4),
              Padded(f.clockSeqHiAndReserved, 2), OctetDigits(f.clockSeqLow), Regex.Flatten(ps));
  }

  lemma Assembled(a: string, b: string, c: string, d: string, low: string, rest: string)
    requires |a| == 8 && |b| == 4 && |c| == 4 && |d| == 2
    ensures var s := a + "-" + b + "-" + c + "-" + d + low + "-" + rest;
      && |s| == 22 + |low| + |rest|
      && s[..8] == a && s[8] == '-' && s[9..13] == b && s[13] == '-' && s[14..18] == c && s[18] == '-' && s[19..21] == d
      && s[21..21 + |low|] == low && s[21 + |low|] == '-' && s[22 + |low|..] == rest
  {
  }

  /** The numbers that are printed, in terms of what the UUID is made of. */
  lemma FieldsAre(time: nat, clock: nat, node: seq<nat>, unit: nat, byte: nat)
    ensures var f := Pack(time, clock, node, unit, byte);
      && f.timeLow == time % 0x1_0000_0000 && f.timeMid == time / 0x1_0000_0000 % 0x1_0000
      && f.timeHiAndVersion == unit / 0x1000 * 0x1000 + time / 0x10_0000_0000_0000 % 0x100 * 0x10 + 1
      && f.clockSeqHiAndReserved == byte / 0x40 * 0x40 + clock / 0x400 % 0x10 * 0x4 + 2
      && f.clockSeqLow == clock % 0x100 && f.node == node
  {
    var f := Pack(time, clock, node, unit, byte);
    PackedParts(time, clock, node, unit, byte);
    LowAndMid(time, f.timeLow, f.timeMid);
    HighBits(time, clock);
  }

  lemma LowAndMid(time: nat, low: nat, mid: nat)
    requires low < 0x1_0000_0000 && mid < 0x1_0000 && low + mid * 0x1_0000_0000 == time % 0x1_0000_0000_0000
    ensures low == time % 0x1_0000_0000 && mid == time / 0x1_0000_0000 % 0x1_0000
  {
    var q := time / 0x1_0000_0000_0000;
    assert time == (q * 0x1_0000 + mid) * 0x1_0000_0000 + low;
    assert time / 0x1_0000_0000 == q * 0x1_0000 + mid;
  }

  lemma HighBits(time: nat, clock: nat)
    ensures time / 0x1_0000_0000_0000 % 0x1000 / 0x10 == time / 0x10_0000_0000_0000 % 0x100
    ensures clock / 0x100 % 0x40 / 0x4 == clock / 0x400 % 0x10
  {
    NibbleOff(time / 0x1_0000_0000_0000);
    PairOff(clock / 0x100);
    assert time / 0x1_0000_0000_0000 / 0x10 == time / 0x10_0000_0000_0000 && clock / 0x100 / 0x4 == clock / 0x400;
  }

  lemma NibbleOff(n: nat)
    ensures n % 0x1000 / 0x10 == n / 0x10 % 0x100
  {
    var q, r := n / 0x1000, n % 0x1000;
    assert n / 0x10 == q * 0x100 + r / 0x10;
  }

  lemma PairOff(n: nat)
    ensures n % 0x40 / 0x4 == n / 0x4 % 0x10
  {
    var q, r := n / 0x40, n % 0x40;
    assert n / 0x4 == q * 0x10 + r / 0x4;
  }

  /** Two UUIDs with the same text agree in everything that reaches the fields, whatever the nodes and the
      uninitialised bits. */
  lemma TextDetermines(time: nat, clock: nat, node: seq<nat>, unit: nat, byte: nat,
                       time': nat, clock': nat, node': seq<nat>, unit': nat, byte': nat)
    requires unit < 0x1_0000 && byte < 0x100 && unit' < 0x1_0000 && byte' < 0x100
    requires Text(Pack(time, clock, node, unit, byte)) == Text(Pack(time', clock', node', unit', byte'))
    ensures SameKept(time, clock, time', clock')
  {
    PackedParts(time, clock, node, unit, byte);
    PackedParts(time', clock', node', unit', byte');
    PackedInRange(time, clock, node, unit, byte);
    PackedInRange(time', clock', node', unit', byte');
    SameHead(Pack(time, clock, node, unit, byte), Pack(time', clock', node', unit', byte'));
  }

  lemma SameHead(f: Fields, f': Fields)
    requires InRange(f) && InRange(f') && Text(f) == Text(f')
    ensures f.(node := f'.node) == f'
  {
    TextReads(f);
    TextReads(f');
  }

  // ---------- the node ----------

  predicate Octets(node: seq<nat>) {
    forall i | 0 <= i < |node| :: node[i] < 0x100
  }

  /** The octets are printed without padding: the text has two digits for each of them exactly when all are at
      least 16. */
  lemma {:induction false} NodeLengthIff(node: seq<nat>)
    requires Octets(node)
    ensures |NodeText(node)| <= 2 * |node|
    ensures |NodeText(node)| == 2 * |node| <==> forall i | 0 <= i < |node| :: node[i] >= 16
  {
    if node != [] {
      NodeLengthIff(node[1..]);
      assert Pow16(1) == 16 && Pow16(2) == 0x100;
      PrintHexLength(node[0], 1);
      PrintHexLength(node[0], 2);
      assert forall i | 1 <= i < |node| :: node[i] == node[1..][i - 1];
    }
  }

  // ---------- when the node can be read back ----------

  /** Octets from which another node with the same text can be made: a single digit that can be joined with the
      next, with two digits further on that can be split; two digits that can be split, of which the second can be
      joined with the next; or two digits that can be split in front of two single digits that can be joined. */
  predicate Movable(node: seq<nat>, i: nat, j: nat)
    requires i < j < |node|
  {
    || 1 <= node[i] < 16 <= node[j]
    || (node[i] >= 16 && node[i] % 16 != 0 && j == i + 1 && node[j] < 16)
    || (node[i] >= 16 && j >= i + 2 && 1 <= node[j - 1] < 16 && node[j] < 16)
  }

  ghost predicate Loose(node: seq<nat>) {
    exists i: nat, j: nat | i < j < |node| :: Movable(node, i, j)
  }

  lemma LooseTail(node: seq<nat>)
    requires node != [] && Loose(node[1..])
    ensures Loose(node)
  {
    var i: nat, j: nat :| i < j < |node[1..]| && Movable(node[1..], i, j);
    assert Movable(node, i + 1, j + 1);
  }

  /** How the text of an octet begins. */
  lemma OctetText(n: nat)
    requires n < 0x100
    ensures PrintHex(n) == if n < 16 then [HexChar(n)] else [HexChar(n / 16), HexChar(n % 16)]
  {
    if n >= 16 { assert PrintHex(n / 16) == [HexChar(n / 16)]; }
  }

  lemma HexCharInjective(a: nat, b: nat)
    requires a < 16 && b < 16 && HexChar(a) == HexChar(b)
    ensures a == b
  {
    assert HexDigit(HexChar(a)) == a && HexDigit(HexChar(b)) == b;
  }

  lemma HeadsAgree(a: nat, s: string, b: nat, t: string)
    requires a < 16 && b < 16 && [HexChar(a)] + s == [HexChar(b)] + t
    ensures a == b && s == t
  {
    assert ([HexChar(a)] + s)[0] == HexChar(a) && ([HexChar(b)] + t)[0] == HexChar(b);
    assert ([HexChar(a)] + s)[1..] == s && ([HexChar(b)] + t)[1..] == t;
    HexCharInjective(a, b);
  }

  lemma OctetsTail(node: seq<nat>)
    requires Octets(node) && node != []
    ensures Octets(node[1..])
  {
    assert forall i | 1 <= i < |node| :: node[i] == node[1..][i - 1];
  }

  /** The text of a node that begins with one digit, and of one that begins with two. */
  lemma TextBegins(node: seq<nat>)
    requires Octets(node) && node != []
    ensures NodeText(node) == if node[0] < 16 then [HexChar(node[0])] + NodeText(node[1..])
                              else [HexChar(node[0] / 16)] + ([HexChar(node[0] % 16)] + NodeText(node[1..]))
  {
    OctetText(node[0]);
    if node[0] >= 16 { PairInFront(node[0] / 16, node[0] % 16, NodeText(node[1..])); }
  }

  lemma PairInFront(d: nat, e: nat, rest: string)
    requires d < 16 && e < 16
    ensures [HexChar(d), HexChar(e)] + rest == [HexChar(d)] + ([HexChar(e)] + rest)
  {
  }

  /** A text that begins with digit `d` belongs to a node that begins with `d`, or with two digits of which `d` is
      the first and not 0. */
  lemma FirstOctet(node: seq<nat>, d: nat, t: string)
    requires Octets(node) && d < 16 && NodeText(node) == [HexChar(d)] + t
    ensures node != [] && Octets(node[1..])
    ensures if node[0] < 16 then node[0] == d && NodeText(node[1..]) == t
            else d != 0 && node[0] / 16 == d && [HexChar(node[0] % 16)] + NodeText(node[1..]) == t
  {
    var n, rest := node[0], NodeText(node[1..]);
    OctetsTail(node);
    TextBegins(node);
    if n < 16 {
      HeadsAgree(n, rest, d, t);
    } else {
      HeadsAgree(n / 16, [HexChar(n % 16)] + rest, d, t);
    }
  }

  // ---------- a node that is not loose ----------

  /** No octet of one digit, other than 0, is followed by another one. */
  ghost predicate Dense(node: seq<nat>) {
    !Loose(node) && forall j | 1 <= j < |node| :: 1 <= node[j - 1] < 16 ==> node[j] >= 16
  }

  lemma TightTail(node: seq<nat>)
    requires node != [] && !Loose(node)
    ensures !Loose(node[1..]) && (Dense(node) ==> Dense(node[1..]))
    ensures node[0] >= 16 ==> Dense(node[1..]) && (node[0] % 16 != 0 && |node| > 1 ==> node[1] >= 16)
  {
    var rest := node[1..];
    if Loose(rest) { LooseTail(node); }
    assert forall j | 0 <= j < |rest| :: rest[j] == node[j + 1];
    if node[0] >= 16 {
      if |node| > 1 { assert !Movable(node, 0, 1); }
      forall j: nat | 1 <= j < |rest| && 1 <= rest[j - 1] < 16 ensures rest[j] >= 16 {
        assert !Movable(node, 0, j + 1);
      }
    }
  }

  /** Two octets of two digits in front of the same text are the same. */
  lemma SameSecond(other: seq<nat>, node: seq<nat>)
    requires Octets(node) && Octets(other) && node != [] && other != [] && NodeText(other) == NodeText(node)
    requires node[0] >= 16 && other[0] >= 16
    ensures other[0] == node[0] && NodeText(other[1..]) == NodeText(node[1..])
  {
    var a, b := other[0], node[0];
    var s, t := NodeText(other[1..]), NodeText(node[1..]);
    TextBegins(other);
    TextBegins(node);
    HeadsAgree(a / 16, [HexChar(a % 16)] + s, b / 16, [HexChar(b % 16)] + t);
    HeadsAgree(a % 16, s, b % 16, t);
  }

  /** Two nodes with the same text, the first one beginning with one digit. */
  lemma DigitFirst(node: seq<nat>, other: seq<nat>)
    requires Octets(node) && Octets(other) && node != [] && node[0] < 16 && NodeText(other) == NodeText(node)
    ensures other != [] && (other[0] >= 16 ==> node[0] != 0)
    ensures other[0] < 16 ==> other[0] == node[0] && NodeText(other[1..]) == NodeText(node[1..])
  {
    TextBegins(node);
    FirstOctet(other, node[0], NodeText(node[1..]));
  }

  /** Two nodes with the same text, the first one beginning with two digits. */
  lemma PairFirst(node: seq<nat>, other: seq<nat>)
    requires Octets(node) && Octets(other) && node != [] && node[0] >= 16 && NodeText(other) == NodeText(node)
    ensures other != []
    ensures other[0] >= 16 ==> other[0] == node[0] && NodeText(other[1..]) == NodeText(node[1..])
    ensures other[0] < 16 ==> NodeText(other[1..]) == [HexChar(node[0] % 16)] + NodeText(node[1..])
  {
    var n, rest := node[0], NodeText(node[1..]);
    TextBegins(node);
    FirstOctet(other, n / 16, [HexChar(n % 16)] + rest);
    if other[0] >= 16 { SameSecond(other, node); }
  }

  /** A dense node cannot be packed more tightly. */
  lemma {:induction false} NoneShorter(node: seq<nat>, other: seq<nat>)
    requires Octets(node) && Octets(other) && Dense(node) && NodeText(other) == NodeText(node)
    ensures |other| >= |node|
    decreases |node|, 0
  {
    if node != [] {
      TightTail(node);
      if node[0] >= 16 {
        PairFirst(node, other);
        if other[0] >= 16 {
          NoneShorter(node[1..], other[1..]);
        } else {
          OneMore(node[0] % 16, node[1..], other[1..]);
        }
      } else {
        DigitFirst(node, other);
        if node[0] == 0 {
          NoneShorter(node[1..], other[1..]);
        } else if |node| > 1 {
          assert Movable(node, 0, 1);
        }
      }
    }
  }

  /** Nor can it together with the second digit of the octet in front of it. */
  lemma {:induction false} OneMore(x: nat, node: seq<nat>, other: seq<nat>)
    requires Octets(node) && Octets(other) && x < 16 && NodeText(other) == [HexChar(x)] + NodeText(node)
    requires Dense(node) && (x != 0 && node != [] ==> node[0] >= 16)
    ensures |other| >= |node| + 1
    decreases |node|, 1
  {
    FirstOctet(other, x, NodeText(node));
    if other[0] < 16 {
      NoneShorter(node, other[1..]);
    } else if node != [] {
      var n := node[0];
      TextBegins(node);
      TightTail(node);
      var y := other[0] % 16;
      HeadsAgree(y, NodeText(other[1..]), n / 16, [HexChar(n % 16)] + NodeText(node[1..]));
      OneMore(n % 16, node[1..], other[1..]);
    }
  }

  lemma {:induction false} TextLength(node: seq<nat>)
    requires Octets(node)
    ensures |NodeText(node)| >= |node|
    ensures (forall i | 0 <= i < |node| :: node[i] < 16) ==> |NodeText(node)| == |node|
    ensures node != [] && node[0] >= 16 ==> |NodeText(node)| > |node|
  {
    if node != [] {
      TextLength(node[1..]);
      OctetText(node[0]);
      assert forall i | 0 <= i < |node[1..]| :: node[1..][i] == node[i + 1];
    }
  }

  /** No other node has the text of a node that is not loose. */
  lemma {:induction false} NodeInjective(node: seq<nat>, other: seq<nat>)
    requires Octets(node) && Octets(other) && |node| == |other| && NodeText(node) == NodeText(other)
    requires !Loose(node)
    ensures node == other
  {
    if node != [] {
      TightTail(node);
      if node[0] >= 16 {
        PairFirst(node, other);
        if other[0] < 16 { OneMore(node[0] % 16, node[1..], other[1..]); }
      } else {
        DigitFirst(node, other);
        if other[0] >= 16 { NonzeroFirst(node, other); }
      }
      NodeInjective(node[1..], other[1..]);
      assert node == [node[0]] + node[1..] && other == [other[0]] + other[1..];
    }
  }

  lemma NonzeroFirst(node: seq<nat>, other: seq<nat>)
    requires Octets(node) && Octets(other) && |node| == |other| > 0 && !Loose(node) && 1 <= node[0] < 16
    ensures other[0] >= 16 ==> NodeText(node) != NodeText(other)
  {
    forall j: nat | 1 <= j < |node| ensures node[j] < 16 { assert !Movable(node, 0, j); }
    TextLength(node);
    TextLength(other);
  }

  // ---------- a loose node ----------

  lemma {:induction false} TextAppend(a: seq<nat>, b: seq<nat>)
    ensures NodeText(a + b) == NodeText(a) + NodeText(b)
  {
    if a == [] {
      assert a + b == b;
    } else {
      assert (a + b)[1..] == a[1..] + b;
      TextAppend(a[1..], b);
      assert PrintHex(a[0]) + (NodeText(a[1..]) + NodeText(b)) == NodeText(a) + NodeText(b);
    }
  }

  /** Two digits as two octets. */
  function SplitAt(node: seq<nat>, j: nat): seq<nat>
    requires j < |node|
  {
    node[..j] + [node[j] / 16, node[j] % 16] + node[j + 1..]
  }

  /** Two octets as two digits of one. */
  function JoinAt(node: seq<nat>, i: nat): seq<nat>
    requires i + 1 < |node|
  {
    node[..i] + [16 * node[i] + node[i + 1]] + node[i + 2..]
  }

  lemma OctetsAround(node: seq<nat>, j: nat)
    requires Octets(node) && j < |node|
    ensures Octets(node[..j]) && Octets(node[j + 1..])
  {
    assert forall k | j + 1 <= k < |node| :: node[k] == node[j + 1..][k - j - 1];
  }

  lemma OctetsJoined(front: seq<nat>, d: nat, e: nat, rest: seq<nat>)
    requires Octets(front) && d < 0x100 && e < 0x100 && Octets(rest)
    ensures Octets(front + [d, e] + rest)
  {
  }

  lemma SplitInside(front: seq<nat>, p: nat, d: nat, e: nat, rest: seq<nat>)
    requires 16 <= p < 0x100 && d == p / 16 && e == p % 16
    ensures NodeText(front + [d, e] + rest) == NodeText(front + [p] + rest)
  {
    PairText(p, d, e, rest);
    PairInside(front, [p] + rest, [d, e] + rest);
    assert front + [p] + rest == front + ([p] + rest) && front + [d, e] + rest == front + ([d, e] + rest);
  }

  lemma SplitText(node: seq<nat>, j: nat)
    requires Octets(node) && j < |node| && node[j] >= 16
    ensures Octets(SplitAt(node, j)) && NodeText(SplitAt(node, j)) == NodeText(node)
  {
    OctetsAround(node, j);
    OctetsJoined(node[..j], node[j] / 16, node[j] % 16, node[j + 1..]);
    SplitInside(node[..j], node[j], node[j] / 16, node[j] % 16, node[j + 1..]);
    assert node == node[..j] + [node[j]] + node[j + 1..];
  }

  lemma PairInside(front: seq<nat>, a: seq<nat>, b: seq<nat>)
    requires NodeText(a) == NodeText(b)
    ensures NodeText(front + a) == NodeText(front + b)
  {
    TextAppend(front, a);
    TextAppend(front, b);
  }

  lemma PairText(p: nat, d: nat, e: nat, rest: seq<nat>)
    requires 16 <= p < 0x100 && d == p / 16 && e == p % 16
    ensures NodeText([d, e] + rest) == NodeText([p] + rest)
  {
    OctetText(p);
    OctetText(d);
    OctetText(e);
    assert ([d, e] + rest)[1..] == [e] + rest && ([e] + rest)[1..] == rest && ([p] + rest)[1..] == rest;
    assert [HexChar(d)] + ([HexChar(e)] + NodeText(rest)) == [HexChar(d), HexChar(e)] + NodeText(rest);
  }

  lemma JoinThenSplit(node: seq<nat>, i: nat)
    requires i + 1 < |node| && 1 <= node[i] < 16 && node[i + 1] < 16
    ensures 16 <= JoinAt(node, i)[i] < 0x100 && SplitAt(JoinAt(node, i), i) == node
  {
    var joined := JoinAt(node, i);
    assert joined[i] / 16 == node[i] && joined[i] % 16 == node[i + 1];
    assert joined[..i] == node[..i] && joined[i + 1..] == node[i + 2..];
  }

  lemma JoinOctets(node: seq<nat>, i: nat)
    requires Octets(node) && i + 1 < |node| && 16 * node[i] + node[i + 1] < 0x100
    ensures Octets(JoinAt(node, i))
  {
    assert forall k | i < k < |node| - 1 :: JoinAt(node, i)[k] == node[k + 1];
  }

  lemma JoinText(node: seq<nat>, i: nat)
    requires Octets(node) && i + 1 < |node| && 1 <= node[i] < 16 && node[i + 1] < 16
    ensures Octets(JoinAt(node, i)) && NodeText(JoinAt(node, i)) == NodeText(node) && JoinAt(node, i)[i] >= 16
  {
    JoinThenSplit(node, i);
    JoinOctets(node, i);
    SplitText(JoinAt(node, i), i);
  }

  /** A loose node shares its text: two digits are split, and two others are joined. */
  lemma AnotherNode(node: seq<nat>, i: nat, j: nat) returns (other: seq<nat>)
    requires Octets(node) && i < j < |node| && Movable(node, i, j)
    ensures Octets(other) && |other| == |node| && NodeText(other) == NodeText(node) && other != node
  {
    if node[i] < 16 {
      other := JoinedBefore(node, i, if node[i + 1] >= 16 then i + 1 else j);
    } else {
      other := JoinedBehind(node, i, if node[i] % 16 != 0 && node[i + 1] < 16 then i + 1 else j);
    }
  }

  lemma JoinedBefore(node: seq<nat>, i: nat, j: nat) returns (other: seq<nat>)
    requires Octets(node) && i < j < |node| && 1 <= node[i] < 16 <= node[j] && (j == i + 1 || node[i + 1] < 16)
    ensures Octets(other) && |other| == |node| && NodeText(other) == NodeText(node) && other != node
  {
    var s := SplitAt(node, j);
    SplitText(node, j);
    assert s[i] == node[i] && s[i + 1] < 16;
    JoinText(s, i);
    other := JoinAt(s, i);
  }

  lemma JoinedBehind(node: seq<nat>, i: nat, j: nat) returns (other: seq<nat>)
    requires Octets(node) && i < j < |node| && node[i] >= 16 && node[j] < 16
    requires if j == i + 1 then node[i] % 16 != 0 else 1 <= node[j - 1] < 16
    ensures Octets(other) && |other| == |node| && NodeText(other) == NodeText(node) && other != node
  {
    var s := SplitAt(node, i);
    SplitText(node, i);
    assert s[j + 1] == node[j] && s[j] == if j == i + 1 then node[i] % 16 else node[j - 1];
    JoinText(s, j);
    other := JoinAt(s, j);
    assert other[i] == s[i] == node[i] / 16;
  }

  lemma SharedNodeText(node: seq<nat>)
    requires Octets(node)
    ensures (exists other :: Octets(other) && |other| == |node| && NodeText(other) == NodeText(node) && other != node)
       <==> exists i: nat, j: nat | i < j < |node| :: Movable(node, i, j)
  {
    if i: nat, j: nat :| i < j < |node| && Movable(node, i, j) {
      var other := AnotherNode(node, i, j);
    } else {
      forall other | Octets(other) && |other| == |node| && NodeText(other) == NodeText(node) ensures other == node {
        NodeInjective(node, other);
      }
    }
  }

  lemma SameNodeText(f: Fields, other: seq<nat>)
    ensures Text(f.(node := other)) == Text(f) <==> NodeText(other) == NodeText(f.node)
  {
    var front := Padded(f.timeLow, 8) + "-" + Padded(f.timeMid, 4) + "-" + Padded(f.timeHiAndVersion, 4) + "-"
                 + Padded(f.clockSeqHiAndReserved, 2) + PrintHex(f.clockSeqLow) + "-";
    var x, y := NodeText(other), NodeText(f.node);
    assert Text(f.(node := other)) == front + x && Text(f) == front + y;
    assert (front + x)[|front|..] == x && (front + y)[|front|..] == y;
  }

  /** Another node of the same length gives the same UUID text exactly when two octets of the node are movable. */
  lemma SharedTextIff(f: Fields)
    requires Octets(f.node)
    ensures (exists other ::
               Octets(other) && |other| == |f.node| && other != f.node && Text(f.(node := other)) == Text(f))
       <==> exists i: nat, j: nat | i < j < |f.node| :: Movable(f.node, i, j)
  {
    SharedNodeText(f.node);
    if other :| Octets(other) && |other| == |f.node| && NodeText(other) == NodeText(f.node) && other != f.node {
      SameNodeText(f, other);
    }
    forall other | Octets(other) && |other| == |f.node| && other != f.node && Text(f.(node := other)) == Text(f)
      ensures NodeText(other) == NodeText(f.node)
    {
      SameNodeText(f, other);
    }
  }
}
