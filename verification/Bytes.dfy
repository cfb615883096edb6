/** Bytes, and numbers stored in them most significant byte first. */
module Bytes {

  type byte = x: int | 0 <= x < 0x100

  /** The store of an unsigned number into a byte: its low eight bits. */
  function ByteOf(n: nat): byte {
    n % 0x100
  }

  function Power256(k: nat): (p: nat)
    ensures p >= 1
  {
    if k == 0 then 1 else 0x100 * Power256(k - 1)
  }

  /** The low k bytes of n in network byte order. */
  function BigEndian(n: nat, k: nat): (s: seq<byte>)
    ensures |s| == k
  {
    if k == 0 then [] else BigEndian(n / 0x100, k - 1) + [ByteOf(n)]
  }

  function FromBigEndian(s: seq<byte>): nat {
    if s == [] then 0 else FromBigEndian(s[..|s| - 1]) * 0x100 + s[|s| - 1]
  }

  lemma {:induction false} BigEndianValue(n: nat, k: nat)
    requires n < Power256(k)
    ensures FromBigEndian(BigEndian(n, k)) == n
  {
    if k > 0 {
      var s := BigEndian(n, k);
      assert s[..k - 1] == BigEndian(n / 0x100, k - 1);
      assert Power256(k) == 0x100 * Power256(k - 1);
      BigEndianValue(n / 0x100, k - 1);
      assert FromBigEndian(s) == FromBigEndian(s[..k - 1]) * 0x100 + s[k - 1];
    }
  }

  lemma {:induction false} BigEndianInverse(s: seq<byte>)
    ensures FromBigEndian(s) < Power256(|s|)
    ensures BigEndian(FromBigEndian(s), |s|) == s
  {
    if s != [] {
      BigEndianInverse(s[..|s| - 1]);
      assert FromBigEndian(s) % 0x100 == s[|s| - 1];
    }
  }

  lemma Powers()
    ensures Power256(1) == 0x100 && Power256(2) == 0x1_0000 && Power256(4) == 0x1_0000_0000
    ensures Power256(8) == 0x1_0000_0000_0000_0000
  {
    assert Power256(8) == 0x100 * (0x100 * (0x100 * (0x100 * Power256(4))));
  }

  /** Four stores of a 32-bit word, shifted by 24, 16, 8 and 0. */
  lemma BigEndian4(n: nat)
    ensures BigEndian(n, 4) == [ByteOf(n / 0x100_0000), ByteOf(n / 0x1_0000), ByteOf(n / 0x100), ByteOf(n)]
  {
    assert BigEndian(n, 4) == BigEndian(n / 0x100, 3) + [ByteOf(n)];
    assert BigEndian(n / 0x100, 3) == BigEndian(n / 0x100 / 0x100, 2) + [ByteOf(n / 0x100)];
    assert BigEndian(n / 0x100 / 0x100, 2)
        == BigEndian(n / 0x100 / 0x100 / 0x100, 1) + [ByteOf(n / 0x100 / 0x100)];
    assert n / 0x100 / 0x100 == n / 0x1_0000 && n / 0x1_0000 / 0x100 == n / 0x100_0000;
  }

  /** A number kept in two halves is stored half by half. */
  lemma {:induction false} BigEndianHalves(high: nat, low: nat, k: nat, j: nat)
    requires low < Power256(j)
    ensures BigEndian(high * Power256(j) + low, k + j) == BigEndian(high, k) + BigEndian(low, j)
  {
    if j > 0 {
      var x := high * Power256(j - 1);
      ShiftByte(high, Power256(j - 1));
      DropByte(x, low);
      BigEndianHalves(high, low / 0x100, k, j - 1);
    }
  }

  lemma ShiftByte(high: nat, p: nat)
    ensures high * (0x100 * p) == 0x100 * (high * p)
  {
  }

  lemma DropByte(x: nat, low: nat)
    ensures (0x100 * x + low) / 0x100 == x + low / 0x100
    ensures ByteOf(0x100 * x + low) == ByteOf(low)
  {
  }

  /** The low k bytes of n as a little-endian host stores them. */
  function LittleEndian(n: nat, k: nat): (s: seq<byte>)
    ensures |s| == k
  {
    if k == 0 then [] else [ByteOf(n)] + LittleEndian(n / 0x100, k - 1)
  }

  function FromLittleEndian(s: seq<byte>): nat {
    if s == [] then 0 else s[0] + 0x100 * FromLittleEndian(s[1..])
  }

  lemma {:induction false} FromLittleEndianBound(s: seq<byte>)
    ensures FromLittleEndian(s) < Power256(|s|)
    ensures LittleEndian(FromLittleEndian(s), |s|) == s
  {
    if s != [] {
      FromLittleEndianBound(s[1..]);
      assert FromLittleEndian(s) % 0x100 == s[0] && FromLittleEndian(s) / 0x100 == FromLittleEndian(s[1..]);
    }
  }

  /** The two orders are each other's reversal. */
  lemma {:induction false} LittleIsReversedBig(n: nat, k: nat, i: nat)
    requires i < k
    ensures LittleEndian(n, k)[i] == BigEndian(n, k)[k - 1 - i]
  {
    if i > 0 {
      LittleIsReversedBig(n / 0x100, k - 1, i - 1);
    }
  }

  // ------------------------------------------------------- operations on bits

  function PowerOf2(k: nat): (p: nat)
    ensures p >= 1
  {
    if k == 0 then 1 else 2 * PowerOf2(k - 1)
  }

  /** The exclusive or of the low k bits. */
  function XorBits(a: nat, b: nat, k: nat): nat
    decreases k
  {
    if k == 0 then 0 else 2 * XorBits(a / 2, b / 2, k - 1) + if a % 2 == b % 2 then 0 else 1
  }

  /** The low k bits that a and b have in common. */
  function AndBits(a: nat, b: nat, k: nat): nat
    decreases k
  {
    if k == 0 then 0 else 2 * AndBits(a / 2, b / 2, k - 1) + if a % 2 == b % 2 == 1 then 1 else 0
  }

  /** The low k bits that a or b has. */
  function OrBits(a: nat, b: nat, k: nat): nat
    decreases k
  {
    if k == 0 then 0 else 2 * OrBits(a / 2, b / 2, k - 1) + if a % 2 == b % 2 == 0 then 0 else 1
  }

  lemma {:induction false} XorBitsTwice(a: nat, b: nat, k: nat, p: nat)
    requires a < p && p == PowerOf2(k)
    ensures XorBits(a, b, k) < p && XorBits(XorBits(a, b, k), b, k) == a
    decreases k
  {
    if k > 0 {
      XorBitsTwice(a / 2, b / 2, k - 1, PowerOf2(k - 1));
      assert XorBits(a, b, k) / 2 == XorBits(a / 2, b / 2, k - 1);
    }
  }

  /** Bit i of an exclusive or is the sum, without carry, of the two bits. */
  lemma {:induction false} XorBitsAt(a: nat, b: nat, k: nat, i: nat)
    requires i < k
    ensures BitAt(XorBits(a, b, k), i) == (BitAt(a, i) + BitAt(b, i)) % 2
    decreases k
  {
    hide BitAt;
    var rest := XorBits(a / 2, b / 2, k - 1);
    if i == 0 {
      LowestBit(a);
      LowestBit(b);
      LowestBit(XorBits(a, b, k));
    } else {
      XorBitsAt(a / 2, b / 2, k - 1, i - 1);
      HigherBit(a, i);
      HigherBit(b, i);
      HigherBit(XorBits(a, b, k), i);
      assert XorBits(a, b, k) / 2 == rest;
    }
  }

  function BitAt(n: nat, i: nat): nat {
    n / PowerOf2(i) % 2
  }

  lemma LowestBit(n: nat)
    ensures BitAt(n, 0) == n % 2
  {
  }

  lemma HigherBit(n: nat, i: nat)
    requires i > 0
    ensures BitAt(n, i) == BitAt(n / 2, i - 1)
  {
    var p := PowerOf2(i - 1);
    var q, r := n / 2 / p, n / 2 % p;
    assert n / 2 == p * q + r;
    Quotient(n, 2 * p, q, 2 * r + n % 2);
  }

  lemma Quotient(a: nat, m: nat, q: nat, r: nat)
    requires r < m && a == m * q + r
    ensures a / m == q
  {
    var d := a / m - q;
    assert m * d == r - a % m;
    Multiple(m, d);
  }

  /** What is left of a below p. */
  function Below(a: nat, p: nat): nat
    requires p > 0
  {
    a % p
  }

  /** A mask of j low bits is a remainder. */
  lemma {:induction false} AndLowBits(a: nat, j: nat, k: nat)
    requires j <= k
    ensures AndBits(a, PowerOf2(j) - 1, k) == Below(a, PowerOf2(j))
    decreases j
  {
    hide AndBits, Below;
    if j == 0 {
      AndNothing(a, k);
      BelowOne(a);
    } else {
      var p := PowerOf2(j - 1);
      AndLowBits(a / 2, j - 1, k - 1);
      AndStep(a, p, k);
      ModDouble(a, p);
    }
  }

  lemma AndStep(a: nat, p: nat, k: nat)
    requires k > 0 && p > 0
    ensures AndBits(a, 2 * p - 1, k) == 2 * AndBits(a / 2, p - 1, k - 1) + a % 2
  {
    assert (2 * p - 1) / 2 == p - 1 && (2 * p - 1) % 2 == 1;
  }

  lemma BelowOne(a: nat)
    ensures Below(a, 1) == 0
  {
  }

  lemma {:induction false} AndNothing(a: nat, k: nat)
    ensures AndBits(a, 0, k) == 0
    decreases k
  {
    if k > 0 {
      AndNothing(a / 2, k - 1);
    }
  }

  lemma ModDouble(a: nat, p: nat)
    requires p >= 1
    ensures Below(a, 2 * p) == 2 * Below(a / 2, p) + a % 2
  {
    var q, r := a / 2 / p, a / 2 % p;
    assert a / 2 == p * q + r;
    Remainder(a, 2 * p, q, 2 * r + a % 2);
  }

  lemma Remainder(a: nat, m: nat, q: nat, r: nat)
    requires r < m && a == m * q + r
    ensures a % m == r
  {
    var d := a / m - q;
    assert m * d == r - a % m;
    Multiple(m, d);
  }

  lemma Multiple(m: nat, d: int)
    ensures d >= 1 ==> m * d >= m
    ensures d <= -1 ==> m * d + m <= 0
  {
  }

  /** Shifting both arguments shifts what they have in common. */
  lemma {:induction false} AndShifted(a: nat, b: nat, j: nat, k: nat)
    ensures AndBits(PowerOf2(j) * a, PowerOf2(j) * b, k + j) == PowerOf2(j) * AndBits(a, b, k)
    decreases j
  {
    if j > 0 {
      var p := PowerOf2(j - 1);
      Halved(p, a);
      Halved(p, b);
      AndShifted(a, b, j - 1, k);
      Halved(p, AndBits(a, b, k));
    }
  }

  lemma Halved(p: nat, a: nat)
    ensures 2 * p * a == 2 * (p * a) && 2 * p * a / 2 == p * a && 2 * p * a % 2 == 0
  {
  }

  /** Numbers with no bit in common add up. */
  lemma {:induction false} OrApart(x: nat, y: nat, j: nat, k: nat)
    requires j <= k && PowerOf2(j) * x < PowerOf2(k) && y < PowerOf2(j)
    ensures OrBits(PowerOf2(j) * x, y, k) == PowerOf2(j) * x + y
    decreases j
  {
    if j == 0 {
      OrNothing(x, k);
    } else {
      var p := PowerOf2(j - 1);
      Halved(p, x);
      OrApart(x, y / 2, j - 1, k - 1);
    }
  }

  lemma {:induction false} OrNothing(x: nat, k: nat)
    requires x < PowerOf2(k)
    ensures OrBits(x, 0, k) == x
    decreases k
  {
    if k > 0 {
      OrNothing(x / 2, k - 1);
    }
  }

  function XorByte(a: byte, b: byte): byte {
    XorBitsTwice(a, b, 8, 0x100);
    XorBits(a, b, 8)
  }

  lemma XorByteAt(a: byte, b: byte, i: nat)
    requires i < 8
    ensures BitAt(XorByte(a, b), i) == (BitAt(a, i) + BitAt(b, i)) % 2
  {
    hide BitAt, XorBits;
    XorBitsAt(a, b, 8, i);
  }

  lemma XorTwice(a: byte, b: byte)
    ensures XorByte(XorByte(a, b), b) == a
  {
    XorBitsTwice(a, b, 8, 0x100);
  }
}
