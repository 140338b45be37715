/** Ethernet addresses as text (LinkLayerAddressToString). */
module LinkLayer {
  import opened Hexadecimal
  import Separated

  const ALEN: nat := 6
  const STRING_SIZE: nat := ALEN * 2 + (ALEN - 1) + 1

  predicate Octets(os: seq<nat>) {
    forall i | 0 <= i < |os| :: os[i] < 0x100
  }

  function Pairs(os: seq<nat>): (fs: seq<string>)
    ensures |fs| == |os|
  {
    if os == [] then [] else [Padded(os[0], 2)] + Pairs(os[1..])
  }

  /** `snprintf` keeps what fits in front of the terminator. */
  function Truncated(s: string, size: nat): string
    requires size > 0
  {
    if |s| < size then s else s[..size - 1]
  }

  function Text(os: seq<nat>): string
    requires |os| == ALEN && Octets(os)
  {
    Truncated(Separated.Joined(Pairs(os), ':'), STRING_SIZE)
  }

  function ReadPairs(fs: seq<string>): seq<nat>
    requires forall f | f in fs :: AllHex(f)
  {
    if fs == [] then [] else [HexValue(fs[0])] + ReadPairs(fs[1..])
  }

  lemma {:induction false} PairsRead(os: seq<nat>)
    requires Octets(os)
    ensures Separated.AllFree(Pairs(os), ':') && (forall f | f in Pairs(os) :: AllHex(f) && |f| == 2)
    ensures ReadPairs(Pairs(os)) == os
    ensures |Separated.Joined(Pairs(os), ':')| == if os == [] then 0 else 3 * |os| - 1
  {
    if os != [] {
      PairsRead(os[1..]);
      PaddedReads(os[0], 2);
      assert Pow16(2) == 0x100;
      assert Pairs(os)[1..] == Pairs(os[1..]);
      assert forall i | 0 <= i < |Padded(os[0], 2)| :: IsHex(Padded(os[0], 2)[i]);
    }
  }

  /** The text is not cut off, and its fields are the octets. */
  lemma TextReads(os: seq<nat>)
    requires |os| == ALEN && Octets(os)
    ensures |Text(os)| == 17 && |Text(os)| + 1 == STRING_SIZE
    ensures var fs := Separated.Split(Text(os), ':');
            |fs| == ALEN && (forall f | f in fs :: AllHex(f)) && ReadPairs(fs) == os
  {
    PairsRead(os);
    Separated.SplitJoined(Pairs(os), ':');
  }

  /** Every third character is a colon; in between are the two digits of an octet, in lower case. */
  predicate Spelled(s: string, os: seq<nat>)
    requires |s| == 3 * |os| - 1 && Octets(os)
  {
    forall i | 0 <= i < |os| ::
      && s[3 * i] == HexChar(os[i] / 16) && s[3 * i + 1] == HexChar(os[i] % 16)
      && (i + 1 < |os| ==> s[3 * i + 2] == ':')
  }

  lemma PairDigits(n: nat)
    requires n < 0x100
    ensures Padded(n, 2) == [HexChar(n / 16), HexChar(n % 16)]
  {
    assert Pow16(2) == 0x100;
    PaddedDigits(n, 2, 0);
    PaddedDigits(n, 2, 1);
    assert Nibble(n, 1) == n / 16 % 16 && Nibble(n, 0) == n % 16;
  }

  lemma {:induction false} PairsSpelled(os: seq<nat>)
    requires Octets(os) && os != []
    ensures |Separated.Joined(Pairs(os), ':')| == 3 * |os| - 1 && Spelled(Separated.Joined(Pairs(os), ':'), os)
  {
    PairsRead(os);
    PairDigits(os[0]);
    if |os| > 1 {
      PairsSpelled(os[1..]);
      assert Pairs(os)[1..] == Pairs(os[1..]);
      SpelledCons(os, Separated.Joined(Pairs(os[1..]), ':'));
    }
  }

  lemma SpelledCons(os: seq<nat>, t: string)
    requires Octets(os) && |os| > 1 && |t| == 3 * |os[1..]| - 1 && Spelled(t, os[1..])
    ensures Spelled([HexChar(os[0] / 16), HexChar(os[0] % 16)] + ":" + t, os)
  {
    var s := [HexChar(os[0] / 16), HexChar(os[0] % 16)] + ":" + t;
    forall i | 0 <= i < |os|
      ensures s[3 * i] == HexChar(os[i] / 16) && s[3 * i + 1] == HexChar(os[i] % 16)
      ensures i + 1 < |os| ==> s[3 * i + 2] == ':'
    {
      if i > 0 {
        assert os[1..][i - 1] == os[i] && s[3 * i] == t[3 * (i - 1)] && s[3 * i + 1] == t[3 * (i - 1) + 1];
        if i + 1 < |os| { assert s[3 * i + 2] == t[3 * (i - 1) + 2]; }
      }
    }
  }

  /** The whole text, character by character. */
  lemma TextSpelled(os: seq<nat>)
    requires |os| == ALEN && Octets(os)
    ensures |Text(os)| == 17 && Spelled(Text(os), os)
  {
    PairsSpelled(os);
  }
}
