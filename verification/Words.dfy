/** 32-bit words as numbers: bitwise and, complement, byte order. */
module Words {

  const SIZE: nat := 0x1_0000_0000

  type Word = w: nat | w < SIZE

  function Pow2(k: nat): (p: nat)
    ensures p >= 1
  {
    if k == 0 then 1 else 2 * Pow2(k - 1)
  }

  /** The lowest bit of the bitwise and. */
  function Bit(a: nat, b: nat): nat {
    if a % 2 == 1 && b % 2 == 1 then 1 else 0
  }

  /** Bitwise and, bit by bit. */
  function And(a: nat, b: nat): (c: nat)
    ensures c <= a
  {
    if a == 0 then 0 else 2 * And(a / 2, b / 2) + Bit(a, b)
  }

  /** `~a` */
  function Not(a: Word): Word {
    SIZE - 1 - a
  }

  lemma {:induction false} PowersAdd(j: nat, k: nat)
    ensures Pow2(j + k) == Pow2(j) * Pow2(k)
  {
    if j > 0 {
      PowersAdd(j - 1, k);
      assert 2 * Pow2(j - 1) * Pow2(k) == 2 * (Pow2(j - 1) * Pow2(k));
    }
  }

  lemma WordSize()
    ensures Pow2(8) == 0x100 && Pow2(32) == SIZE
  {
    assert Pow2(4) == 16 && Pow2(8) == 0x100;
    PowersAdd(8, 8);
    PowersAdd(16, 16);
  }

  lemma AndHalves(a: nat, b: nat)
    ensures And(a, b) == 2 * And(a / 2, b / 2) + Bit(a, b)
  {
  }

  lemma Doubled(n: nat, h: nat, m: nat, b: nat)
    ensures n * (2 * h) + (2 * m + b) == 2 * (n * h + m) + b
  {
    assert n * (2 * h) == 2 * (n * h);
  }

  lemma Halved(a: nat, c: nat, h: nat)
    ensures (a * (2 * h) + c) / 2 == a * h + c / 2 && (a * (2 * h) + c) % 2 == c % 2
  {
    Doubled(a, h, c / 2, c % 2);
  }

  lemma AndDoubled(a: nat, b: nat, c: nat, d: nat, h: nat)
    ensures And(a * (2 * h) + c, b * (2 * h) + d) == 2 * And(a * h + c / 2, b * h + d / 2) + Bit(c, d)
  {
    Halved(a, c, h);
    Halved(b, d, h);
    AndHalves(a * (2 * h) + c, b * (2 * h) + d);
  }

  /** Bits from `k` on and bits below `k` do not meet. */
  lemma {:induction false} AndParts(a: nat, b: nat, c: nat, d: nat, k: nat)
    requires c < Pow2(k) && d < Pow2(k)
    ensures And(a * Pow2(k) + c, b * Pow2(k) + d) == And(a, b) * Pow2(k) + And(c, d)
  {
    if k > 0 {
      var h := Pow2(k - 1);
      AndParts(a, b, c / 2, d / 2, k - 1);
      AndDoubled(a, b, c, d, h);
      AndHalves(c, d);
      Doubled(And(a, b), h, And(c / 2, d / 2), Bit(c, d));
    }
  }

  lemma {:induction false} AndOnes(q: nat, n: nat)
    requires q < Pow2(n)
    ensures And(q, Pow2(n) - 1) == q
  {
    if n > 0 {
      AndOnes(q / 2, n - 1);
      AndHalves(q, Pow2(n) - 1);
    }
  }

  lemma AndZero(a: nat)
    ensures And(a, 0) == 0
  {
    if a > 0 { AndZero(a / 2); }
  }

  lemma AndByte(x: nat, c: nat, y: nat, d: nat)
    requires c < 0x100 && d < 0x100
    ensures And(x * 0x100 + c, y * 0x100 + d) == And(x, y) * 0x100 + And(c, d)
  {
    WordSize();
    AndParts(x, y, c, d, 8);
  }

  // ---------- byte order ----------

  /** The number whose bytes are given, most significant byte first. */
  function FromBytes(bs: seq<nat>): nat {
    if bs == [] then 0 else FromBytes(bs[..|bs| - 1]) * 0x100 + bs[|bs| - 1]
  }

  function ToBytes(a: Word): (bs: seq<nat>)
    ensures |bs| == 4 && AreBytes(bs)
  {
    [a / 0x100_0000, a / 0x1_0000 % 0x100, a / 0x100 % 0x100, a % 0x100]
  }

  predicate AreBytes(bs: seq<nat>) {
    forall i | 0 <= i < |bs| :: bs[i] < 0x100
  }

  function Reversed(bs: seq<nat>): (rs: seq<nat>)
    ensures |rs| == |bs| && forall i | 0 <= i < |bs| :: rs[i] == bs[|bs| - 1 - i]
  {
    if bs == [] then [] else [bs[|bs| - 1]] + Reversed(bs[..|bs| - 1])
  }

  lemma Nested(bs: seq<nat>)
    requires |bs| == 4
    ensures FromBytes(bs) == ((bs[0] * 0x100 + bs[1]) * 0x100 + bs[2]) * 0x100 + bs[3]
  {
    var three, two, one := bs[..3], bs[..2], bs[..1];
    assert three[..2] == two && two[..1] == one && one[..0] == [];
    assert FromBytes(one) == bs[0];
    assert FromBytes(two) == bs[0] * 0x100 + bs[1];
    assert FromBytes(three) == (bs[0] * 0x100 + bs[1]) * 0x100 + bs[2];
  }

  lemma Digits(b3: nat, b2: nat, b1: nat, b0: nat) returns (a: Word)
    requires b3 < 0x100 && b2 < 0x100 && b1 < 0x100 && b0 < 0x100
    ensures a == ((b3 * 0x100 + b2) * 0x100 + b1) * 0x100 + b0
    ensures a / 0x100_0000 == b3 && a / 0x1_0000 % 0x100 == b2 && a / 0x100 % 0x100 == b1 && a % 0x100 == b0
  {
    a := ((b3 * 0x100 + b2) * 0x100 + b1) * 0x100 + b0;
  }

  lemma FourBytes(bs: seq<nat>)
    requires |bs| == 4 && AreBytes(bs)
    ensures FromBytes(bs) < SIZE && ToBytes(FromBytes(bs)) == bs
  {
    Nested(bs);
    var a := Digits(bs[0], bs[1], bs[2], bs[3]);
  }

  lemma BytesOfWord(a: Word)
    ensures FromBytes(ToBytes(a)) == a
  {
    Nested(ToBytes(a));
    var m, n := a / 0x100, a / 0x1_0000;
    assert a == m * 0x100 + a % 0x100;
    assert m / 0x100 == n && m == n * 0x100 + m % 0x100;
    assert n / 0x100 == a / 0x100_0000 && n == n / 0x100 * 0x100 + n % 0x100;
  }

  /** The word whose bytes come in the opposite order. */
  function Swap(a: Word): Word {
    FourBytes(Reversed(ToBytes(a)));
    FromBytes(Reversed(ToBytes(a)))
  }

  lemma SwapBytes(a: Word)
    ensures ToBytes(Swap(a)) == Reversed(ToBytes(a))
  {
    FourBytes(Reversed(ToBytes(a)));
  }

  /** Byte for byte. */
  lemma SwapIs(a: Word)
    ensures Swap(a) == a % 0x100 * 0x100_0000 + a / 0x100 % 0x100 * 0x1_0000 + a / 0x1_0000 % 0x100 * 0x100
                       + a / 0x100_0000
  {
    Nested(Reversed(ToBytes(a)));
  }

  lemma SwapTwice(a: Word)
    ensures Swap(Swap(a)) == a
  {
    SwapBytes(a);
    assert Reversed(Reversed(ToBytes(a))) == ToBytes(a);
    BytesOfWord(a);
  }

  function AndEach(bs: seq<nat>, cs: seq<nat>): (ds: seq<nat>)
    requires |bs| == |cs|
    ensures |ds| == |bs| && forall i | 0 <= i < |bs| :: ds[i] == And(bs[i], cs[i])
  {
    seq(|bs|, i requires 0 <= i < |bs| => And(bs[i], cs[i]))
  }

  lemma {:induction false} AndBytes(bs: seq<nat>, cs: seq<nat>)
    requires |bs| == |cs| && AreBytes(bs) && AreBytes(cs)
    ensures And(FromBytes(bs), FromBytes(cs)) == FromBytes(AndEach(bs, cs))
  {
    if bs != [] {
      var n := |bs| - 1;
      AndBytes(bs[..n], cs[..n]);
      var ds := AndEach(bs, cs);
      assert ds[..n] == AndEach(bs[..n], cs[..n]);
      AndByte(FromBytes(bs[..n]), bs[n], FromBytes(cs[..n]), cs[n]);
    }
  }

  /** Swapping bytes and masking commute. */
  lemma SwapAnd(a: Word, b: Word)
    ensures Swap(And(a, b)) == And(Swap(a), Swap(b))
  {
    var s, t := ToBytes(a), ToBytes(b);
    BytesOfWord(a);
    BytesOfWord(b);
    AndBytes(s, t);
    AndBytes(Reversed(s), Reversed(t));
    FourBytes(AndEach(s, t));
    assert Reversed(AndEach(s, t)) == AndEach(Reversed(s), Reversed(t));
  }

  // ---------- masks ----------

  /** `a >> k` */
  function Shr(a: nat, k: nat): nat {
    if k == 0 then a else Shr(a / 2, k - 1)
  }

  /** `a << k` without a limit on the width. */
  function Shl(a: nat, k: nat): nat {
    if k == 0 then a else 2 * Shl(a, k - 1)
  }

  lemma {:induction false} ShlInjective(a: nat, b: nat, k: nat)
    ensures Shl(a, k) == Shl(b, k) <==> a == b
  {
    if k > 0 { ShlInjective(a, b, k - 1); }
  }

  /** `n` ones followed by `k` zeros. */
  lemma {:induction false} LeadingOnes(n: nat, k: nat)
    ensures Shl(Pow2(n) - 1, k) == Pow2(n + k) - Pow2(k) && Pow2(k) <= Pow2(n + k)
  {
    if k > 0 { LeadingOnes(n, k - 1); }
  }

  /** Masking with them clears the `k` lowest bits. */
  lemma {:induction false} AndLeading(x: nat, n: nat, k: nat)
    requires x < Pow2(n + k)
    ensures And(x, Shl(Pow2(n) - 1, k)) == Shl(Shr(x, k), k)
  {
    if k == 0 {
      AndOnes(x, n);
    } else {
      AndLeading(x / 2, n, k - 1);
      AndHalves(x, Shl(Pow2(n) - 1, k));
    }
  }

  /** Two masked words are equal just when their leading bits are. */
  lemma SameLeading(x: Word, y: Word, n: nat)
    requires n <= 32
    ensures Pow2(32 - n) <= SIZE
    ensures And(x, SIZE - Pow2(32 - n)) == And(y, SIZE - Pow2(32 - n)) <==> Shr(x, 32 - n) == Shr(y, 32 - n)
  {
    var k := 32 - n;
    WordSize();
    LeadingOnes(n, k);
    AndLeading(x, n, k);
    AndLeading(y, n, k);
    ShlInjective(Shr(x, k), Shr(y, k), k);
  }

  /** Shifting right is the quotient by a power of two. */
  lemma {:induction false} ShrIs(a: nat, k: nat, q: nat)
    ensures Shr(a, k) == q <==> Shl(q, k) <= a < Shl(q, k) + Pow2(k)
  {
    if k > 0 { ShrIs(a / 2, k - 1, q); }
  }

  /** Masking with `n` ones gives the remainder. */
  lemma {:induction false} AndRemainder(x: nat, n: nat)
    ensures x == Shl(Shr(x, n), n) + And(x, Pow2(n) - 1) && And(x, Pow2(n) - 1) < Pow2(n)
  {
    if n == 0 {
      AndZero(x);
    } else {
      AndRemainder(x / 2, n - 1);
      AndHalves(x, Pow2(n) - 1);
    }
  }

  /** Bitwise and, seen from each bit. */
  lemma {:induction false} AndAt(a: nat, b: nat, k: nat)
    ensures Shr(And(a, b), k) % 2 == 1 <==> Shr(a, k) % 2 == 1 && Shr(b, k) % 2 == 1
  {
    AndHalves(a, b);
    if k > 0 { AndAt(a / 2, b / 2, k - 1); }
  }

  lemma {:induction false} ShrAgain(a: nat, j: nat, k: nat)
    ensures Shr(Shr(a, j), k) == Shr(a, j + k)
  {
    if j > 0 { ShrAgain(a / 2, j - 1, k); }
  }

  lemma {:induction false} ShlTimes(a: nat, k: nat)
    ensures Shl(a, k) == a * Pow2(k)
  {
    if k > 0 { ShlTimes(a, k - 1); }
  }
}
