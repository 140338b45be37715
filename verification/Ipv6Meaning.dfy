/** The address an accepted IPv6 text denotes: the text splits in one way only, and the parts make up 128 bits. */
module Ipv6Meaning {
  import Decimal
  import opened Hexadecimal
  import opened Separated
  import opened Ipv6

  /** The fields between the colons; an empty side of "::" is one empty field. */
  function Side(gs: seq<string>): seq<string> {
    if gs == [] then [""] else gs
  }

  function Fields(v: Address): seq<string> {
    match v
    case Full(gs) => gs
    case Short(l, r) => Side(l) + [""] + Side(r)
    case Mixed(l, r, q) => Side(l) + [""] + (r + [Joined(q, '.')])
  }

  lemma SideJoined(gs: seq<string>)
    ensures Joined(Side(gs), ':') == Joined(gs, ':')
  {
  }

  lemma AroundEmpty(a: seq<string>, b: seq<string>)
    requires a != [] && b != []
    ensures Joined(a + [""] + b, ':') == Joined(a, ':') + "::" + Joined(b, ':')
  {
    assert a + [""] + b == a + ([""] + b);
    JoinedAppend(a, [""] + b, ':');
    JoinedAppend([""], b, ':');
    assert Joined([""], ':') == "";
    assert Joined(a, ':') + ":" + ("" + ":" + Joined(b, ':')) == Joined(a, ':') + "::" + Joined(b, ':');
  }

  lemma TextIsFields(v: Address)
    requires v.WellFormed()
    ensures v.Text() == Joined(Fields(v), ':')
  {
    match v
    case Full(gs) =>
    case Short(l, r) =>
      AroundEmpty(Side(l), Side(r));
      SideJoined(l);
      SideJoined(r);
    case Mixed(l, r, q) =>
      AroundEmpty(Side(l), r + [Joined(q, '.')]);
      SideJoined(l);
      JoinedTrailed(r, Joined(q, '.'), ':');
      assert Joined(l, ':') + "::" + (Trailed(r, ':') + Joined(q, '.')) == v.Text();
  }

  lemma SideFree(gs: seq<string>)
    requires HexGroups(gs)
    ensures AllFree(Side(gs), ':')
  {
    GroupsFree(gs, ':');
  }

  lemma FieldsFree(v: Address)
    requires v.WellFormed()
    ensures Fields(v) != [] && AllFree(Fields(v), ':')
  {
    match v
    case Full(gs) =>
      GroupsFree(gs, ':');
    case Short(l, r) =>
      SideFree(l);
      SideFree(r);
    case Mixed(l, r, q) =>
      MixedGroups(v);
      SideFree(l);
      GroupsFree(r, ':');
      OctetsFree(q, ':');
      JoinedFree(q, '.', ':');
  }

  /** Splitting the text at its colons gives the fields back. */
  lemma SplitGivesFields(v: Address)
    requires v.WellFormed()
    ensures Split(v.Text(), ':') == Fields(v)
  {
    TextIsFields(v);
    FieldsFree(v);
    SplitJoined(Fields(v), ':');
  }

  // ---------- the fields determine the address ----------

  /** The first empty field marks the "::". */
  lemma LeftUnique(l: seq<string>, a: seq<string>, l': seq<string>, a': seq<string>)
    requires HexGroups(l) && HexGroups(l') && Side(l) + [""] + a == Side(l') + [""] + a'
    ensures l == l' && a == a'
  {
    var fs, fs' := Side(l) + [""] + a, Side(l') + [""] + a';
    NoneEmpty(l);
    NoneEmpty(l');
    assert fs[0] == Side(l)[0] && fs'[0] == Side(l')[0];
    assert fs[|Side(l)|] == "" && fs'[|Side(l')|] == "";
    assert forall k | 0 <= k < |l| :: fs[k] == l[k];
    assert forall k | 0 <= k < |l'| :: fs'[k] == l'[k];
    assert |Side(l)| == |Side(l')|;
    assert Side(l) == fs[..|Side(l)|] && Side(l') == fs'[..|Side(l')|];
    assert a == fs[|Side(l)| + 1..] && a' == fs'[|Side(l')| + 1..];
  }

  lemma NoneEmpty(gs: seq<string>)
    requires HexGroups(gs)
    ensures "" !in gs && forall i | 0 <= i < |gs| :: gs[i] != ""
  {
    forall g | g in gs ensures g != "" { assert HexGroup(g); }
  }

  lemma SideInjective(r: seq<string>, r': seq<string>)
    requires HexGroups(r) && HexGroups(r') && Side(r) == Side(r')
    ensures r == r'
  {
    NoneEmpty(r);
    NoneEmpty(r');
  }

  lemma EmptyField(v: Address)
    requires v.WellFormed()
    ensures "" in Fields(v) <==> !v.Full?
  {
    match v
    case Full(gs) =>
      NoneEmpty(gs);
    case Short(l, r) =>
      assert Fields(v)[|Side(l)|] == "";
    case Mixed(l, r, q) =>
      assert Fields(v)[|Side(l)|] == "";
  }

  lemma LastHasDot(v: Address)
    requires v.WellFormed() && !v.Full?
    ensures '.' in Fields(v)[|Fields(v)| - 1] <==> v.Mixed?
  {
    match v
    case Short(l, r) =>
      var last := Fields(v)[|Fields(v)| - 1];
      assert last == Side(r)[|Side(r)| - 1];
      if r != [] { assert HexGroup(last); }
    case Mixed(l, r, q) =>
      assert Fields(v)[|Fields(v)| - 1] == Joined(q, '.');
      assert Joined(q, '.')[|q[0]|] == '.';
  }

  /** An accepted text is the text of one address only. */
  lemma TextInjective(v: Address, w: Address)
    requires v.WellFormed() && w.WellFormed() && v.Text() == w.Text()
    ensures v == w
  {
    SplitGivesFields(v);
    SplitGivesFields(w);
    EmptyField(v);
    EmptyField(w);
    if !v.Full? {
      LastHasDot(v);
      LastHasDot(w);
      if v.Short? {
        LeftUnique(v.left, Side(v.right), w.left, Side(w.right));
        SideInjective(v.right, w.right);
      } else {
        MixedGroups(v);
        MixedGroups(w);
        LeftUnique(v.left, v.right + [Joined(v.quad, '.')], w.left, w.right + [Joined(w.quad, '.')]);
        MixedUnique(v, w);
      }
    }
  }

  lemma MixedUnique(v: Address, w: Address)
    requires v.MixedForm() && w.MixedForm() && v.left == w.left
    requires v.right + [Joined(v.quad, '.')] == w.right + [Joined(w.quad, '.')]
    ensures v == w
  {
    var fs, gs := v.right + [Joined(v.quad, '.')], w.right + [Joined(w.quad, '.')];
    assert v.right == fs[..|fs| - 1] && w.right == gs[..|gs| - 1];
    assert fs[|fs| - 1] == Joined(v.quad, '.') && gs[|gs| - 1] == Joined(w.quad, '.');
    OctetsFree(v.quad, '.');
    OctetsFree(w.quad, '.');
    JoinedInjective(v.quad, w.quad, '.');
  }

  // ---------- 128 bits ----------

  lemma GroupBound(g: string)
    requires HexGroup(g)
    ensures HexValue(g) < 0x1_0000
  {
    HexBound(g);
    assert Pow16(1) == 16 && Pow16(2) == 256 && Pow16(3) == 4096 && Pow16(4) == 0x1_0000;
  }

  function GroupValues(gs: seq<string>): (ns: seq<nat>)
    requires HexGroups(gs)
    ensures |ns| == |gs|
  {
    if gs == [] then [] else assert HexGroup(gs[0]); [HexValue(gs[0])] + GroupValues(gs[1..])
  }

  lemma {:induction false} GroupValuesBound(gs: seq<string>)
    requires HexGroups(gs)
    ensures forall n | n in GroupValues(gs) :: n < 0x1_0000
  {
    if gs != [] {
      assert HexGroup(gs[0]);
      GroupBound(gs[0]);
      GroupValuesBound(gs[1..]);
    }
  }

  function Zeros(n: nat): (ns: seq<nat>)
    ensures |ns| == n && forall i | 0 <= i < n :: ns[i] == 0
  {
    if n == 0 then [] else [0] + Zeros(n - 1)
  }

  /** The eight 16-bit groups. "::" stands for as many zero groups as are missing; a dotted quad counts as
      two groups. */
  function Groups(v: Address): (ns: seq<nat>)
    requires v.WellFormed()
  {
    match v
    case Full(gs) => GroupValues(gs)
    case Short(l, r) => GroupValues(l) + Zeros(8 - |l| - |r|) + GroupValues(r)
    case Mixed(l, r, q) =>
      MixedGroups(v);
      GroupValues(l) + Zeros(6 - |l| - |r|) + GroupValues(r) + QuadGroups(q)
  }

  function QuadGroups(q: seq<string>): (ns: seq<nat>)
    requires Octets(q)
    ensures |ns| == 2 && ns[0] < 0x1_0000 && ns[1] < 0x1_0000
  {
    assert Octet(q[0]) && Octet(q[1]) && Octet(q[2]) && Octet(q[3]);
    [256 * Decimal.Value(q[0]) + Decimal.Value(q[1]), 256 * Decimal.Value(q[2]) + Decimal.Value(q[3])]
  }

  /** The groups as one number, most significant group first. */
  function Number(ns: seq<nat>): nat {
    if ns == [] then 0 else 0x1_0000 * Number(ns[..|ns| - 1]) + ns[|ns| - 1]
  }

  function Pow64k(k: nat): nat {
    if k == 0 then 1 else 0x1_0000 * Pow64k(k - 1)
  }

  lemma {:induction false} NumberBound(ns: seq<nat>)
    requires forall n | n in ns :: n < 0x1_0000
    ensures Number(ns) < Pow64k(|ns|)
  {
    if ns != [] {
      var a := ns[..|ns| - 1];
      assert ns == a + [ns[|ns| - 1]];
      assert ns[|ns| - 1] in ns && forall n | n in a :: n in ns;
      NumberBound(a);
    }
  }

  /** No two different group sequences make the same number. */
  lemma {:induction false} NumberInjective(ns: seq<nat>, ms: seq<nat>)
    requires |ns| == |ms| && Number(ns) == Number(ms)
    requires (forall n | n in ns :: n < 0x1_0000) && forall m | m in ms :: m < 0x1_0000
    ensures ns == ms
  {
    if ns != [] {
      var a, b := ns[..|ns| - 1], ms[..|ms| - 1];
      assert ns == a + [ns[|ns| - 1]] && ms == b + [ms[|ms| - 1]];
      assert ns[|ns| - 1] in ns && ms[|ms| - 1] in ms && (forall n | n in a :: n in ns) && forall m | m in b :: m in ms;
      assert Number(a) == Number(b);
      NumberInjective(a, b);
    }
  }

  lemma GroupsBound(v: Address)
    requires v.WellFormed()
    ensures |Groups(v)| == 8 && forall n | n in Groups(v) :: n < 0x1_0000
  {
    match v
    case Full(gs) =>
      GroupValuesBound(gs);
    case Short(l, r) =>
      GroupValuesBound(l);
      GroupValuesBound(r);
    case Mixed(l, r, q) =>
      MixedGroups(v);
      GroupValuesBound(l);
      GroupValuesBound(r);
  }

  lemma {:induction false} GroupValueAt(gs: seq<string>, i: nat)
    requires HexGroups(gs) && i < |gs|
    ensures HexGroup(gs[i]) && GroupValues(gs)[i] == HexValue(gs[i])
  {
    assert HexGroup(gs[0]);
    if i > 0 { GroupValueAt(gs[1..], i - 1); }
  }

  /** Group `i` of `count` groups that are written as `left`, zeros and `right`. */
  predicate PlacedAt(n: nat, left: seq<string>, right: seq<string>, count: nat, i: nat)
    requires i < count && |left| + |right| <= count
  {
    if i < |left| then HexGroup(left[i]) && n == HexValue(left[i])
    else if i < count - |right| then n == 0
    else HexGroup(right[i - (count - |right|)]) && n == HexValue(right[i - (count - |right|)])
  }

  lemma SidesAt(l: seq<string>, r: seq<string>, count: nat, i: nat)
    requires HexGroups(l) && HexGroups(r) && |l| + |r| <= count && i < count
    ensures var ns := GroupValues(l) + Zeros(count - |l| - |r|) + GroupValues(r);
            |ns| == count && PlacedAt(ns[i], l, r, count, i)
  {
    if i < |l| { GroupValueAt(l, i); }
    if i >= count - |r| { GroupValueAt(r, i - (count - |r|)); }
  }

  /** The groups in their order: those in front of "::" from the left, those behind it from the right, zeros in
      between, and the four octets of a dotted quad as the last two groups. */
  lemma GroupAt(v: Address, i: nat)
    requires v.WellFormed() && i < 8
    ensures |Groups(v)| == 8
    ensures v.Full? ==> PlacedAt(Groups(v)[i], v.groups, [], 8, i)
    ensures v.Short? ==> PlacedAt(Groups(v)[i], v.left, v.right, 8, i)
    ensures v.Mixed? && i < 6 ==> |v.left| + |v.right| <= 6 && PlacedAt(Groups(v)[i], v.left, v.right, 6, i)
    ensures v.Mixed? && i >= 6 ==> QuadAt(Groups(v)[i], v.quad, 2 * (i - 6))
  {
    match v
    case Full(gs) => GroupValueAt(gs, i);
    case Short(l, r) => SidesAt(l, r, 8, i);
    case Mixed(l, r, q) =>
      MixedGroups(v);
      if i < 6 { SidesAt(l, r, 6, i); } else { QuadGroupAt(q, i - 6); }
  }

  predicate QuadAt(n: nat, q: seq<string>, k: nat) {
    k + 1 < |q| && Octet(q[k]) && Octet(q[k + 1]) && n == 256 * Decimal.Value(q[k]) + Decimal.Value(q[k + 1])
  }

  lemma QuadGroupAt(q: seq<string>, j: nat)
    requires Octets(q) && j < 2
    ensures QuadAt(QuadGroups(q)[j], q, 2 * j)
  {
    assert Octet(q[0]) && Octet(q[1]) && Octet(q[2]) && Octet(q[3]);
  }

  /** The 16 bits of a number that come after `k` times 16 others. */
  function Bits16(n: nat, k: nat): nat {
    if k == 0 then n % 0x1_0000 else Bits16(n / 0x1_0000, k - 1)
  }

  /** Each group is found at its place in the number. */
  lemma {:induction false} NumberAt(ns: seq<nat>, i: nat)
    requires i < |ns| && forall n | n in ns :: n < 0x1_0000
    ensures Bits16(Number(ns), |ns| - 1 - i) == ns[i]
  {
    var a, last := ns[..|ns| - 1], ns[|ns| - 1];
    assert last in ns && Number(ns) / 0x1_0000 == Number(a);
    if i < |a| {
      assert forall n | n in a :: n in ns;
      NumberAt(a, i);
    }
  }

  /** Every accepted text without a zone is the text of exactly one address, and that address has 128 bits. */
  lemma AcceptedDenotes(s: string) returns (v: Address)
    requires MatchIpv6(s) && '%' !in s
    ensures v.WellFormed() && v.Text() == s
    ensures forall w: Address :: w.WellFormed() && w.Text() == s ==> w == v
    ensures |Groups(v)| == 8 && Number(Groups(v)) < 0x1_0000_0000_0000_0000_0000_0000_0000_0000
  {
    AcceptsIff(s);
    v :| v.WellFormed() && v.Text() == s;
    forall w: Address | w.WellFormed() && w.Text() == s ensures w == v { TextInjective(v, w); }
    GroupsBound(v);
    NumberBound(Groups(v));
    EightGroups();
  }

  lemma EightGroups()
    ensures Pow64k(8) == 0x1_0000_0000_0000_0000_0000_0000_0000_0000
  {
    assert Pow64k(2) == 0x1_0000_0000;
    assert Pow64k(4) == 0x1_0000_0000_0000_0000;
    assert Pow64k(6) == 0x1_0000_0000_0000_0000_0000_0000;
  }

  /** The pattern does not accept form 3 of section 2.2 of RFC 4291 in its uncompressed spelling: six groups
      in front of a dotted quad. */
  lemma SixGroupsAndQuadRejected(gs: seq<string>, q: seq<string>)
    requires |gs| == 6 && HexGroups(gs) && Octets(q)
    ensures !MatchIpv6(Trailed(gs, ':') + Joined(q, '.'))
  {
    var s := Trailed(gs, ':') + Joined(q, '.');
    var fs := gs + [Joined(q, '.')];
    JoinedTrailed(gs, Joined(q, '.'), ':');
    GroupsFree(gs, ':');
    OctetsFree(q, ':');
    JoinedFree(q, '.', ':');
    SplitJoined(fs, ':');
    GroupsFree(gs, '%');
    OctetsFree(q, '%');
    JoinedFree(gs, ':', '%');
    JoinedFree(q, '.', '%');
    AcceptsIff(s);
    if v: Address :| v.WellFormed() && v.Text() == s {
      SplitGivesFields(v);
      EmptyField(v);
      NotEmptyField(gs, q);
      assert false;
    }
  }

  lemma NotEmptyField(gs: seq<string>, q: seq<string>)
    requires HexGroups(gs) && Octets(q)
    ensures "" !in gs + [Joined(q, '.')]
  {
    NoneEmpty(gs);
    assert Octet(q[0]) && Joined(q, '.')[0] == q[0][0];
  }
}
