/** The search for the interface whose subnet holds an address (IPAddressToInterface), on both platforms. */
module Subnet {
  import opened Words

  // ---------- the two tests ----------

  predicate IsPrefix(prefix: nat) {
    1 <= prefix <= 32
  }

  /** The mask with the `prefix` leading bits set: `~((1 << (32 - prefix)) - 1)`. */
  function Mask(prefix: nat): Word
    requires IsPrefix(prefix)
  {
    MaskFits(prefix);
    Not(Shl(1, 32 - prefix) - 1)
  }

  lemma {:induction false} OneShifted(k: nat)
    ensures Shl(1, k) == Pow2(k)
  {
    if k > 0 { OneShifted(k - 1); }
  }

  lemma MaskFits(prefix: nat)
    requires IsPrefix(prefix)
    ensures 1 <= Shl(1, 32 - prefix) == Pow2(32 - prefix) <= SIZE
  {
    OneShifted(32 - prefix);
    LeadingOnes(prefix, 32 - prefix);
    WordSize();
  }

  /** The Windows branch on a little-endian machine; both addresses are in network order. */
  predicate SwapTest(a: Word, b: Word, prefix: nat)
    requires IsPrefix(prefix)
  {
    And(Swap(a), Mask(prefix)) == And(Swap(b), Mask(prefix))
  }

  /** The Linux branch; addresses and mask are in network order. */
  predicate MaskTest(a: Word, b: Word, mask: Word) {
    And(a, mask) == And(b, mask)
  }

  /** The network of an address in network order: its `prefix` leading bits in host order. */
  function Network(a: Word, prefix: nat): nat
    requires IsPrefix(prefix)
  {
    Shr(Swap(a), 32 - prefix)
  }

  /** The Windows test compares the networks. */
  lemma SwapTestIff(a: Word, b: Word, prefix: nat)
    requires IsPrefix(prefix)
    ensures SwapTest(a, b, prefix) <==> Network(a, prefix) == Network(b, prefix)
  {
    MaskFits(prefix);
    SameLeading(Swap(a), Swap(b), prefix);
  }

  lemma SwapMasked(a: Word, m: Word)
    ensures Swap(And(Swap(a), m)) == And(a, Swap(m))
  {
    SwapAnd(Swap(a), m);
    SwapTwice(a);
  }

  lemma SwapInjective(a: Word, b: Word)
    ensures Swap(a) == Swap(b) <==> a == b
  {
    SwapTwice(a);
    SwapTwice(b);
  }

  /** For every two addresses and every prefix, the Linux test with the same mask in network order is the same
      test. */
  lemma TestsAgree(a: Word, b: Word, prefix: nat)
    requires IsPrefix(prefix)
    ensures MaskTest(a, b, Swap(Mask(prefix))) <==> SwapTest(a, b, prefix)
    ensures MaskTest(a, b, Swap(Mask(prefix))) <==> Network(a, prefix) == Network(b, prefix)
  {
    var m := Mask(prefix);
    SwapMasked(a, m);
    SwapMasked(b, m);
    SwapInjective(And(Swap(a), m), And(Swap(b), m));
    SwapTestIff(a, b, prefix);
  }

  // ---------- the Linux search ----------

  /** What getifaddrs lists; `ifa_addr` may be missing, and the address may be of another family. */
  datatype IfAddress = NoAddress | OtherFamily | Ipv4(address: Word, mask: Word)

  datatype Entry = Entry(name: string, addr: IfAddress)

  predicate Holds(e: Entry, a: Word) {
    e.addr.Ipv4? && MaskTest(e.addr.address, a, e.addr.mask)
  }

  function LinuxFirst(entries: seq<Entry>, a: Word): string {
    if entries == [] then "" else if Holds(entries[0], a) then entries[0].name else LinuxFirst(entries[1..], a)
  }

  /** An entry without an address, of another family, or on another network. */
  predicate Missed(addr: IfAddress, a: Word) {
    match addr
    case NoAddress => true
    case OtherFamily => true
    case Ipv4(x, m) => And(x, m) != And(a, m)
  }

  /** The name found is that of the first entry with an IPv4 address on the network of `a`; without one it is
      empty. */
  lemma {:induction false} LinuxFirstIs(entries: seq<Entry>, a: Word, i: nat)
    requires i <= |entries| && forall j | 0 <= j < i :: Missed(entries[j].addr, a)
    ensures i == |entries| ==> LinuxFirst(entries, a) == ""
    ensures i < |entries| && entries[i].addr.Ipv4?
            && And(entries[i].addr.address, entries[i].addr.mask) == And(a, entries[i].addr.mask) ==>
              LinuxFirst(entries, a) == entries[i].name
  {
    if i > 0 {
      assert forall j | 0 <= j < i - 1 :: entries[1..][j] == entries[j + 1];
      assert Missed(entries[0].addr, a);
      LinuxFirstIs(entries[1..], a, i - 1);
    }
  }

  method LinuxSearch(entries: seq<Entry>, a: Word) returns (result: string)
    ensures result == LinuxFirst(entries, a)
  {
    result := "";
    var i := 0;
    while i < |entries|
      invariant 0 <= i <= |entries| && result == ""
      invariant LinuxFirst(entries, a) == LinuxFirst(entries[i..], a)
    {
      var entry := entries[i];
      assert entries[i..][1..] == entries[i + 1..];
      i := i + 1;
      if entry.addr.NoAddress? || entry.addr.OtherFamily? {
        continue;
      }
      var network := And(entry.addr.address, entry.addr.mask);
      if network != And(a, entry.addr.mask) {
        continue;
      }
      result := entry.name;
      break;
    }
  }

  // ---------- the Windows search ----------

  datatype Unicast = Other | Inet(address: Word, prefix: nat)

  datatype Adapter = Adapter(index: nat, unicast: seq<Unicast>)

  /** What the asserts in the search demand of an adapter; a prefix of 0 would shift by the word size. */
  predicate Sound(d: Adapter) {
    d.unicast != [] && forall i | 0 <= i < |d.unicast| :: d.unicast[i].Inet? ==> IsPrefix(d.unicast[i].prefix)
  }

  predicate AllSound(ds: seq<Adapter>) {
    forall i | 0 <= i < |ds| :: Sound(ds[i])
  }

  /** The first IPv4 address of an adapter. */
  function FirstInet(us: seq<Unicast>): (u: Unicast)
    ensures u.Inet? ==> u in us
  {
    if us == [] then Other else if us[0].Inet? then us[0] else FirstInet(us[1..])
  }

  predicate AdapterHolds(d: Adapter, a: Word)
    requires Sound(d)
  {
    var u := FirstInet(d.unicast);
    u.Inet? && SwapTest(u.address, a, u.prefix)
  }

  function WindowsFirst(ds: seq<Adapter>, a: Word, nameOf: nat -> string): string
    requires AllSound(ds)
  {
    if ds == [] then "" else if AdapterHolds(ds[0], a) then nameOf(ds[0].index) else WindowsFirst(ds[1..], a, nameOf)
  }

  /** The first IPv4 address of an adapter is at position `k`. */
  predicate FirstInetAt(us: seq<Unicast>, k: nat) {
    k < |us| && us[k].Inet? && forall l | 0 <= l < k :: us[l] == Other
  }

  lemma {:induction false} FirstInetIs(us: seq<Unicast>)
    ensures (forall l | 0 <= l < |us| :: us[l] == Other) ==> FirstInet(us) == Other
    ensures forall k: nat | FirstInetAt(us, k) :: FirstInet(us) == us[k]
  {
    if us != [] {
      FirstInetIs(us[1..]);
      assert forall l | 0 <= l < |us[1..]| :: us[1..][l] == us[l + 1];
      forall k: nat | FirstInetAt(us, k) ensures FirstInet(us) == us[k] {
        if k > 0 { assert us[0] == Other && FirstInetAt(us[1..], k - 1); }
      }
    }
  }

  /** An adapter without an IPv4 address, or with its first one on another network. */
  ghost predicate AdapterMissed(us: seq<Unicast>, a: Word)
    requires forall i | 0 <= i < |us| :: us[i].Inet? ==> IsPrefix(us[i].prefix)
  {
    || (forall l | 0 <= l < |us| :: us[l] == Other)
    || exists k: nat :: FirstInetAt(us, k) && Network(us[k].address, us[k].prefix) != Network(a, us[k].prefix)
  }

  lemma AdapterHoldsIs(d: Adapter, a: Word)
    requires Sound(d)
    ensures AdapterMissed(d.unicast, a) ==> !AdapterHolds(d, a)
    ensures forall k: nat | FirstInetAt(d.unicast, k) ::
              AdapterHolds(d, a)
              <==> Network(d.unicast[k].address, d.unicast[k].prefix) == Network(a, d.unicast[k].prefix)
  {
    var us := d.unicast;
    FirstInetIs(us);
    forall k: nat | FirstInetAt(us, k)
      ensures AdapterHolds(d, a) <==> Network(us[k].address, us[k].prefix) == Network(a, us[k].prefix)
    {
      SwapTestIff(us[k].address, a, us[k].prefix);
    }
  }

  /** The name found is that of the first adapter whose first IPv4 address is on the network of `a`; without one it
      is empty. */
  lemma {:induction false} WindowsFirstIs(ds: seq<Adapter>, a: Word, nameOf: nat -> string, i: nat, k: nat)
    requires AllSound(ds) && i <= |ds|
    requires forall j | 0 <= j < i :: AdapterMissed(ds[j].unicast, a)
    ensures i == |ds| ==> WindowsFirst(ds, a, nameOf) == ""
    ensures i < |ds| && FirstInetAt(ds[i].unicast, k)
            && Network(ds[i].unicast[k].address, ds[i].unicast[k].prefix) == Network(a, ds[i].unicast[k].prefix) ==>
              WindowsFirst(ds, a, nameOf) == nameOf(ds[i].index)
  {
    if ds != [] { AdapterHoldsIs(ds[0], a); }
    if i > 0 {
      assert forall j | 0 <= j < |ds| - 1 :: ds[1..][j] == ds[j + 1];
      WindowsFirstIs(ds[1..], a, nameOf, i - 1, k);
    }
  }

  method WindowsSearch(ds: seq<Adapter>, a: Word, nameOf: nat -> string) returns (result: string)
    requires ds != [] && AllSound(ds)
    ensures result == WindowsFirst(ds, a, nameOf)
  {
    result := "";
    var i := 0;
    while i < |ds|
      invariant 0 <= i <= |ds| && result == ""
      invariant WindowsFirst(ds, a, nameOf) == WindowsFirst(ds[i..], a, nameOf)
    {
      var us := ds[i].unicast;
      var k := 0;
      while k < |us| && !us[k].Inet?
        invariant 0 <= k <= |us| && FirstInet(us) == FirstInet(us[k..])
      {
        assert us[k..][1..] == us[k + 1..];
        k := k + 1;
      }
      assert ds[i..][1..] == ds[i + 1..];
      if k < |us| {
        var mask := Mask(us[k].prefix);
        if And(Swap(us[k].address), mask) == And(Swap(a), mask) {
          result := nameOf(ds[i].index);
          break;
        }
      }
      i := i + 1;
    }
  }

  // ---------- the two searches ----------

  /** The entries Linux would list for the addresses of one adapter. */
  function EntriesOf(name: string, us: seq<Unicast>): seq<Entry>
    requires forall i | 0 <= i < |us| :: us[i].Inet? ==> IsPrefix(us[i].prefix)
  {
    if us == [] then []
    else
      [Entry(name, if us[0].Inet? then Ipv4(us[0].address, Swap(Mask(us[0].prefix))) else OtherFamily)]
      + EntriesOf(name, us[1..])
  }

  function Listing(ds: seq<Adapter>, nameOf: nat -> string): seq<Entry>
    requires AllSound(ds)
  {
    if ds == [] then [] else EntriesOf(nameOf(ds[0].index), ds[0].unicast) + Listing(ds[1..], nameOf)
  }

  /** Some address, not just the first one, is on the same network. */
  predicate Reaches(us: seq<Unicast>, a: Word)
    requires forall i | 0 <= i < |us| :: us[i].Inet? ==> IsPrefix(us[i].prefix)
  {
    us != [] && ((us[0].Inet? && SwapTest(us[0].address, a, us[0].prefix)) || Reaches(us[1..], a))
  }

  lemma {:induction false} AdapterEntries(name: string, us: seq<Unicast>, fs: seq<Entry>, a: Word)
    requires forall i | 0 <= i < |us| :: us[i].Inet? ==> IsPrefix(us[i].prefix)
    ensures LinuxFirst(EntriesOf(name, us) + fs, a) == if Reaches(us, a) then name else LinuxFirst(fs, a)
  {
    var es := EntriesOf(name, us);
    if us == [] {
      assert es + fs == fs;
    } else {
      assert (es + fs)[1..] == EntriesOf(name, us[1..]) + fs;
      AdapterEntries(name, us[1..], fs, a);
      if us[0].Inet? { TestsAgree(us[0].address, a, us[0].prefix); }
    }
  }

  lemma {:induction false} FirstReaches(us: seq<Unicast>, a: Word)
    requires forall i | 0 <= i < |us| :: us[i].Inet? ==> IsPrefix(us[i].prefix)
    ensures var u := FirstInet(us); u.Inet? && SwapTest(u.address, a, u.prefix) ==> Reaches(us, a)
  {
    if us != [] && us[0].Other? { FirstReaches(us[1..], a); }
  }

  /** Of the adapters with an address on the network of `a`, the first one has it as its first IPv4 address. */
  predicate FirstReached(ds: seq<Adapter>, a: Word)
    requires AllSound(ds)
  {
    ds == [] || if Reaches(ds[0].unicast, a) then AdapterHolds(ds[0], a) else FirstReached(ds[1..], a)
  }

  /** Every adapter has a name of its own. */
  predicate Named(ds: seq<Adapter>, nameOf: nat -> string) {
    ds == [] ||
    (&& nameOf(ds[0].index) != ""
     && (forall i | 0 <= i < |ds[1..]| :: nameOf(ds[1..][i].index) != nameOf(ds[0].index))
     && Named(ds[1..], nameOf))
  }

  lemma {:induction false} WindowsNames(ds: seq<Adapter>, a: Word, nameOf: nat -> string)
    requires AllSound(ds)
    ensures WindowsFirst(ds, a, nameOf) != "" ==>
              exists i | 0 <= i < |ds| :: nameOf(ds[i].index) == WindowsFirst(ds, a, nameOf)
  {
    if ds != [] && !AdapterHolds(ds[0], a) {
      var rest := ds[1..];
      WindowsNames(rest, a, nameOf);
      if i :| 0 <= i < |rest| && nameOf(rest[i].index) == WindowsFirst(rest, a, nameOf) {
        assert ds[i + 1] == rest[i];
      }
    }
  }

  /** The searches find the same interface exactly when the first adapter that is reached at all is reached at its
      first IPv4 address, which is the only one that the Windows search looks at. */
  lemma {:induction false} SearchesAgreeIff(ds: seq<Adapter>, a: Word, nameOf: nat -> string)
    requires AllSound(ds) && Named(ds, nameOf)
    ensures WindowsFirst(ds, a, nameOf) == LinuxFirst(Listing(ds, nameOf), a) <==> FirstReached(ds, a)
  {
    if ds != [] {
      var name := nameOf(ds[0].index);
      AdapterEntries(name, ds[0].unicast, Listing(ds[1..], nameOf), a);
      FirstReaches(ds[0].unicast, a);
      SearchesAgreeIff(ds[1..], a, nameOf);
      WindowsNames(ds[1..], a, nameOf);
    }
  }

  predicate OneInet(us: seq<Unicast>) {
    us == [] || if us[0].Inet? then NoInet(us[1..]) else OneInet(us[1..])
  }

  predicate NoInet(us: seq<Unicast>) {
    forall i | 0 <= i < |us| :: us[i].Other?
  }

  lemma {:induction false} NoInetReaches(us: seq<Unicast>, a: Word)
    requires NoInet(us)
    ensures !Reaches(us, a)
  {
    if us != [] { NoInetReaches(us[1..], a); }
  }

  lemma {:induction false} OneInetReaches(us: seq<Unicast>, a: Word)
    requires OneInet(us) && forall i | 0 <= i < |us| :: us[i].Inet? ==> IsPrefix(us[i].prefix)
    ensures var u := FirstInet(us); Reaches(us, a) <==> u.Inet? && SwapTest(u.address, a, u.prefix)
  {
    if us != [] {
      if us[0].Inet? { NoInetReaches(us[1..], a); } else { OneInetReaches(us[1..], a); }
    }
  }

  /** Where no adapter has a second IPv4 address, both searches find the same interface, whatever the names. */
  lemma {:induction false} SearchesAgree(ds: seq<Adapter>, a: Word, nameOf: nat -> string)
    requires AllSound(ds) && forall i | 0 <= i < |ds| :: OneInet(ds[i].unicast)
    ensures WindowsFirst(ds, a, nameOf) == LinuxFirst(Listing(ds, nameOf), a)
  {
    if ds != [] {
      SearchesAgree(ds[1..], a, nameOf);
      OneInetReaches(ds[0].unicast, a);
      AdapterEntries(nameOf(ds[0].index), ds[0].unicast, Listing(ds[1..], nameOf), a);
    }
  }
}
