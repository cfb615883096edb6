/** base64_encode, and the encoding of section 4 of RFC 4648 it is to produce. */
module Base64 {
  import opened Bytes

  // ------------------------------------------------------------ reference

  /** Table 1: the character of a 6-bit group. */
  function Char(v: nat): char
    requires v < 64
  {
    if v < 26 then ('A' as int + v) as char
    else if v < 52 then ('a' as int + (v - 26)) as char
    else if v < 62 then ('0' as int + (v - 52)) as char
    else if v == 62 then '+'
    else '/'
  }

  /** Table 1 read backwards. */
  function Index(c: char): (v: nat)
    ensures v < 64
  {
    if 'A' <= c <= 'Z' then c as int - 'A' as int
    else if 'a' <= c <= 'z' then c as int - 'a' as int + 26
    else if '0' <= c <= '9' then c as int - '0' as int + 52
    else if c == '+' then 62
    else 63
  }

  lemma IndexChar(v: nat)
    requires v < 64
    ensures Index(Char(v)) == v && Char(v) != '='
  {
  }

  /** Three octets as one 24-bit group. */
  function Bits(a: byte, b: byte, c: byte): (v: nat)
    ensures v < 0x100_0000
  {
    0x1_0000 * a as int + 0x100 * b as int + c
  }

  /** A 24-bit group as four 6-bit ones, most significant first. */
  function Group(v: nat): (t: string)
    requires v < 0x100_0000
    ensures |t| == 4
  {
    [Char(v / 64 / 64 / 64), Char(v / 64 / 64 % 64), Char(v / 64 % 64), Char(v % 64)]
  }

  /** Section 4: 24-bit groups; a short last group is completed with zero bits, and with '=' in the output. */
  function Encode(s: seq<byte>): string {
    if |s| == 0 then ""
    else if |s| == 1 then Group(Bits(s[0], 0, 0))[..2] + "=="
    else if |s| == 2 then Group(Bits(s[0], s[1], 0))[..3] + "="
    else Group(Bits(s[0], s[1], s[2])) + Encode(s[3..])
  }

  /** The 24 bits held by four characters, '=' standing for zero bits. */
  function Value(t: string): (v: nat)
    requires |t| == 4
    ensures v < 0x100_0000
  {
    64 * (64 * (64 * Index(t[0]) + Index(t[1])) + if t[2] == '=' then 0 else Index(t[2]))
    + if t[3] == '=' then 0 else Index(t[3])
  }

  /** Rebuilds the octets, four characters at a time. */
  function Decode(t: string): seq<byte> {
    if |t| < 4 then
      []
    else
      var v := Value(t[..4]);
      if t[2] == '=' then [v / 0x1_0000]
      else if t[3] == '=' then [v / 0x1_0000, v / 0x100 % 0x100]
      else [v / 0x1_0000, v / 0x100 % 0x100, v % 0x100] + Decode(t[4..])
  }

  // ----------------------------------------------------------- arithmetic

  /** Appending a base-64 digit, and taking it off again. */
  lemma Digit(q: nat, r: nat)
    requires r < 64
    ensures (64 * q + r) / 64 == q && (64 * q + r) % 64 == r
  {
  }

  /** The four 6-bit fields of three octets, given by the bit fields they are cut from. */
  lemma Fields(a: byte, b: byte, c: byte)
    ensures var v := Bits(a, b, c);
            v / 64 / 64 / 64 == a as int / 4 && v / 64 / 64 % 64 == 16 * (a as int % 4) + b as int / 16
            && v / 64 % 64 == 4 * (b as int % 16) + c as int / 64 && v % 64 == c as int % 64
  {
    var a1, a0, b1, b0, c1, c0 := a as int / 4, a as int % 4, b as int / 16, b as int % 16, c as int / 64, c as int % 64;
    var q := 64 * a1 + (16 * a0 + b1);
    var p := 64 * q + (4 * b0 + c1);
    assert Bits(a, b, c) == 64 * p + c0;
    Digit(p, c0);
    Digit(q, 4 * b0 + c1);
    Digit(a1, 16 * a0 + b1);
  }

  lemma ValueGroup(v: nat)
    requires v < 0x100_0000
    ensures Value(Group(v)) == v && '=' !in Group(v)
  {
    hide Char, Index;
    IndexChar(v / 64 / 64 / 64);
    IndexChar(v / 64 / 64 % 64);
    IndexChar(v / 64 % 64);
    IndexChar(v % 64);
  }

  lemma Octets(a: byte, b: byte, c: byte)
    ensures var v := Bits(a, b, c);
            v / 0x1_0000 == a && v / 0x100 % 0x100 == b && v % 0x100 == c
  {
    assert Bits(a, b, c) / 0x100 == 0x100 * a as int + b;
  }

  /** The characters a short group drops stand for zero bits. */
  lemma ShortValues(a: byte, b: byte)
    ensures Value(Group(Bits(a, 0, 0))[..2] + "==") == Bits(a, 0, 0)
    ensures Value(Group(Bits(a, b, 0))[..3] + "=") == Bits(a, b, 0)
  {
    hide Char, Index, Bits;
    Fields(a, 0, 0);
    Fields(a, b, 0);
    var v, w := Bits(a, 0, 0), Bits(a, b, 0);
    IndexChar(v / 64 / 64 / 64);
    IndexChar(v / 64 / 64 % 64);
    IndexChar(w / 64 / 64 / 64);
    IndexChar(w / 64 / 64 % 64);
    IndexChar(w / 64 % 64);
  }

  /** The decoder undoes the encoder. */
  lemma {:induction false} DecodeEncode(s: seq<byte>)
    ensures Decode(Encode(s)) == s
  {
    hide Group, Value, Bits;
    var t := Encode(s);
    if |s| == 1 {
      ShortValues(s[0], 0);
      Octets(s[0], 0, 0);
      assert s == [s[0]] && t[..4] == t;
    } else if |s| == 2 {
      ShortValues(s[0], s[1]);
      Octets(s[0], s[1], 0);
      ValueGroup(Bits(s[0], s[1], 0));
      assert s == [s[0], s[1]] && t[..4] == t;
    } else if |s| > 2 {
      var v := Bits(s[0], s[1], s[2]);
      Octets(s[0], s[1], s[2]);
      ValueGroup(v);
      assert t[..4] == Group(v) && t[4..] == Encode(s[3..]);
      DecodeEncode(s[3..]);
    }
  }

  lemma {:induction false} EncodeAppend(a: seq<byte>, b: seq<byte>)
    requires |a| % 3 == 0
    ensures Encode(a + b) == Encode(a) + Encode(b)
  {
    hide Group, Bits;
    if a == [] {
      assert a + b == b;
    } else {
      assert (a + b)[3..] == a[3..] + b;
      EncodeAppend(a[3..], b);
    }
  }

  /** The test vectors of section 10 that use every kind of group. */
  lemma TestVectors()
    ensures Encode([0x66]) == "Zg==" && Encode([0x66, 0x6f]) == "Zm8=" && Encode([0x66, 0x6f, 0x6f]) == "Zm9v"
    ensures Encode([0x66, 0x6f, 0x6f, 0x62, 0x61, 0x72]) == "Zm9vYmFy"
  {
    hide Encode;
    ShortGroups(0x66, 0x6f);
    FullGroup(0x66, 0x6f, 0x6f);
    FullGroup(0x62, 0x61, 0x72);
    EncodeAppend([0x66, 0x6f, 0x6f], [0x62, 0x61, 0x72]);
    assert [0x66, 0x6f, 0x6f] + [0x62, 0x61, 0x72] == [0x66, 0x6f, 0x6f, 0x62, 0x61, 0x72];
  }

  // ----------------------------------------------------------------- code

  const B64: string :=
    "ABCDEFGH" + "IJKLMNOP" + "QRSTUVWX" + "YZabcdef" + "ghijklmn" + "opqrstuv" + "wxyz0123" + "456789+/"

  /** A look-up in the table. */
  function B64At(v: nat): (c: char)
    requires v < 64
    ensures c == Char(v)
  {
    TableAt(v);
    B64[v]
  }

  lemma TableAt(v: nat)
    requires v < 64
    ensures |B64| == 64 && B64[v] == Char(v)
  {
    var row, col := v / 8, v % 8;
    assert row == 0 || row == 1 || row == 2 || row == 3 || row == 4 || row == 5 || row == 6 || row == 7;
    assert col == 0 || col == 1 || col == 2 || col == 3 || col == 4 || col == 5 || col == 6 || col == 7;
  }

  // The source's shifts and masks of a byte, and the bit fields they cut out.

  lemma BitPowers()
    ensures PowerOf2(2) == 4 && PowerOf2(4) == 16 && PowerOf2(6) == 64 && PowerOf2(8) == 256
  {
    assert PowerOf2(4) == 2 * (2 * PowerOf2(2)) && PowerOf2(6) == 2 * (2 * PowerOf2(4));
    assert PowerOf2(8) == 2 * (2 * PowerOf2(6));
  }

  /** A shift to the left behind a mask that starts there. */
  lemma AndLeft(b: byte, j: nat, n: nat)
    requires j + n <= 8
    ensures AndBits(PowerOf2(j) * b, PowerOf2(j) * (PowerOf2(n) - 1), 8) == PowerOf2(j) * Below(b, PowerOf2(n))
  {
    hide AndBits, Below;
    AndShifted(b, PowerOf2(n) - 1, j, 8 - j);
    AndLowBits(b, n, 8 - j);
  }

  /** (b >> 2) & 0x3F */
  function Top6(b: byte): (n: byte)
    ensures n == b / 4 % 64
  {
    hide AndBits, PowerOf2;
    BitPowers();
    AndLowBits(b / 4, 6, 8);
    AndBits(b / 4, 0x3F, 8)
  }

  /** (b << 4) & 0x30 */
  function Low2(b: byte): (n: byte)
    ensures n == b % 4 * 16
  {
    hide AndBits, PowerOf2;
    BitPowers();
    AndLeft(b, 4, 2);
    AndBits(16 * b, 0x30, 8)
  }

  /** (b >> 4) & 0x0F */
  function Top4(b: byte): (n: byte)
    ensures n == b / 16 % 16
  {
    hide AndBits, PowerOf2;
    BitPowers();
    AndLowBits(b / 16, 4, 8);
    AndBits(b / 16, 0x0F, 8)
  }

  /** (b << 2) & 0x3C */
  function Low4(b: byte): (n: byte)
    ensures n == b % 16 * 4
  {
    hide AndBits, PowerOf2;
    BitPowers();
    AndLeft(b, 2, 4);
    AndBits(4 * b, 0x3C, 8)
  }

  /** (b >> 6) & 0x03 */
  function Top2(b: byte): (n: byte)
    ensures n == b / 64 % 4
  {
    hide AndBits, PowerOf2;
    BitPowers();
    AndLowBits(b / 64, 2, 8);
    AndBits(b / 64, 0x03, 8)
  }

  /** (b >> 0) & 0x3F */
  function Low6(b: byte): (n: byte)
    ensures n == b % 64
  {
    hide AndBits, PowerOf2;
    BitPowers();
    AndLowBits(b, 6, 8);
    AndBits(b, 0x3F, 8)
  }

  /** x |= y */
  function OrInto(x: byte, y: byte): (n: nat)
    ensures x % 16 == 0 && y < 16 ==> n == x + y
    ensures x % 4 == 0 && y < 4 ==> n == x + y
  {
    OrFields(x, y);
    OrBits(x, y, 8)
  }

  lemma OrFields(x: byte, y: byte)
    ensures x % 16 == 0 && y < 16 ==> OrBits(x, y, 8) == x + y
    ensures x % 4 == 0 && y < 4 ==> OrBits(x, y, 8) == x + y
  {
    hide OrBits, PowerOf2;
    BitPowers();
    if x % 16 == 0 && y < 16 {
      OrApart(x / 16, y, 4, 8);
    }
    if x % 4 == 0 && y < 4 {
      OrApart(x / 4, y, 2, 8);
    }
  }

  lemma FullGroup(a: byte, b: byte, c: byte)
    ensures Encode([a, b, c])
         == [Char(a / 4), Char(a % 4 * 16 + b / 16), Char(b % 16 * 4 + c / 64), Char(c % 64)]
  {
    hide Char, Bits;
    Fields(a, b, c);
    assert [a, b, c][3..] == [];
  }

  lemma ShortGroups(a: byte, b: byte)
    ensures Encode([a]) == [Char(a / 4), Char(a % 4 * 16), '=', '=']
    ensures Encode([a, b]) == [Char(a / 4), Char(a % 4 * 16 + b / 16), Char(b % 16 * 4), '=']
  {
    hide Char, Bits;
    Fields(a, 0, 0);
    Fields(a, b, 0);
  }

  /** The space for the padded text and its terminator. */
  function Needed(n: nat): (space: nat)
    ensures space <= 2 * n + 5
  {
    (n + 2) / 3 * 4 + 1
  }

  lemma {:induction false} EncodeLength(s: seq<byte>)
    ensures |Encode(s)| + 1 == Needed(|s|)
  {
    hide Bits, Group;
    if |s| > 2 {
      EncodeLength(s[3..]);
      assert |s| + 2 == 3 + (|s| - 3 + 2);
    }
  }

  /** The source computes it with one division and a correction. */
  lemma NeededByRounding(n: nat)
    ensures var space, over := n * 4 / 3, n * 4 / 3 % 4;
            Needed(n) == (if over != 0 then space + 4 - over else space) + 1
  {
    var q, r := n / 3, n % 3;
    assert n * 4 == 3 * (4 * q) + 4 * r;
    Thirds(4 * q, 4 * r);
  }

  lemma Thirds(q: nat, r: nat)
    ensures (3 * q + r) / 3 == q + r / 3
  {
  }

  /** A C int compared as size_t: a negative one turns into a huge number. */
  function AsSize(n: int): int {
    if n < 0 then n + 0x1_0000_0000_0000_0000 else n
  }

  method NeededSpace(len: nat) returns (needed: nat)
    ensures needed == Needed(len)
  {
    needed := len * 4 / 3;
    var pad := needed % 4;
    NeededByRounding(len);
    if pad != 0 {
      needed := needed + 4 - pad;
    }
    needed := needed + 1;
  }

  method Base64Encode(src: array?<byte>, ssize: nat, dst: array?<char>, dsize: int) returns (r: int)
    requires ssize < 0x8000_0000 && -0x8000_0000 <= dsize < 0x8000_0000
    requires src != null ==> ssize <= src.Length
    requires dst != null ==> dsize <= dst.Length && (dsize < 0 ==> Needed(ssize) <= dst.Length)
    requires src == null || dst == null || src as object != dst
    modifies dst
    ensures r == 0 || r == -1 || r == -2
    ensures r == -1 <==> src == null || dst == null
    ensures r == -2 <==> src != null && dst != null && 0 <= dsize < Needed(ssize)
    ensures r != 0 && dst != null ==> dst[..] == old(dst[..])
    ensures r == 0 ==> dst[..] == Encode(src[..ssize]) + [0 as char] + old(dst[Needed(ssize)..])
  {
    hide Encode, Needed;
    if src == null || dst == null {
      return -1;
    }
    var len := ssize;
    var needed := NeededSpace(len);
    if AsSize(dsize) < needed {
      return -2;
    }
    var pad := len % 3;
    if pad != 0 {
      len := len - pad;
      pad := 3 - pad;
    }
    EncodeLength(src[..ssize]);
    EncodeAll(src, len, ssize, pad, dst);
    return 0;
  }

  /** Groups, tail and terminator. */
  method EncodeAll(src: array<byte>, len: nat, ssize: nat, pad: nat, dst: array<char>)
    requires len <= ssize <= src.Length && src as object != dst && len % 3 == 0
    requires pad <= 2 && ssize - len == if pad == 0 then 0 else 3 - pad
    requires |Encode(src[..ssize])| < dst.Length
    modifies dst
    ensures dst[..] == Encode(src[..ssize]) + [0 as char] + old(dst[|Encode(src[..ssize])| + 1..])
  {
    hide Encode;
    ghost var s := src[..ssize];
    assert src[..len] == s[..len] && src[len..ssize] == s[len..];
    WholeAndTail(s, len);
    var at := EncodeGroups(src, len, dst);
    assert dst[..at] == Encode(s[..len]);
    at := EncodeTail(src, len, ssize, pad, dst, at);
    assert dst[..] == Encode(s) + old(dst[at..]);
    dst[at] := 0 as char;
  }

  lemma WholeAndTail(s: seq<byte>, len: nat)
    requires len <= |s| && len % 3 == 0
    ensures Encode(s) == Encode(s[..len]) + Encode(s[len..])
  {
    hide Encode;
    assert s == s[..len] + s[len..];
    EncodeAppend(s[..len], s[len..]);
  }

  /** The block loop: len, a multiple of three, source bytes. */
  method EncodeGroups(src: array<byte>, len: nat, dst: array<char>) returns (at: nat)
    requires len <= src.Length && len % 3 == 0 && |Encode(src[..len])| <= dst.Length && src as object != dst
    modifies dst
    ensures at == |Encode(src[..len])| <= dst.Length
    ensures dst[..] == Encode(src[..len]) + old(dst[at..])
  {
    hide Encode, Char;
    ghost var s, code := src[..len], Encode(src[..len]);
    ghost var g: nat := 0;
    var i: nat := 0;
    at := 0;
    while i < len
      invariant i == 3 * g <= len && at == 4 * g <= |code|
      invariant forall k :: 0 <= k < at ==> dst[k] == code[k]
      invariant forall k :: at <= k < dst.Length ==> dst[k] == old(dst[k])
    {
      GroupCode(s, g);
      assert src[i] == s[i] && src[i + 1] == s[i + 1] && src[i + 2] == s[i + 2];
      EncodeGroup(src, i, dst, at);
      i, at, g := i + 3, at + 4, g + 1;
    }
    EncodeLength(s);
  }

  /** One pass of that loop. */
  method EncodeGroup(src: array<byte>, i: nat, dst: array<char>, at: nat)
    requires i + 3 <= src.Length && at + 4 <= dst.Length && src as object != dst
    modifies dst
    ensures dst[at] == Char(src[i] / 4) && dst[at + 1] == Char(src[i] % 4 * 16 + src[i + 1] / 16)
    ensures dst[at + 2] == Char(src[i + 1] % 16 * 4 + src[i + 2] / 64) && dst[at + 3] == Char(src[i + 2] % 64)
    ensures forall k :: 0 <= k < at || at + 4 <= k < dst.Length ==> dst[k] == old(dst[k])
  {
    hide Char, B64At, Top6, Low2, Top4, Low4, Top2, Low6, OrInto;
    var x := Top6(src[i]);
    dst[at] := B64At(x);
    x := Low2(src[i]);
    x := OrInto(x, Top4(src[i + 1]));
    dst[at + 1] := B64At(x);
    x := Low4(src[i + 1]);
    x := OrInto(x, Top2(src[i + 2]));
    dst[at + 2] := B64At(x);
    x := Low6(src[i + 2]);
    dst[at + 3] := B64At(x);
  }

  /** The code of group number g, and where it stands. */
  lemma {:induction false} GroupCode(s: seq<byte>, g: nat)
    requires 3 * g + 3 <= |s|
    ensures 4 * g + 4 <= |Encode(s)|
    ensures Encode(s)[4 * g] == Char(s[3 * g] / 4)
    ensures Encode(s)[4 * g + 1] == Char(s[3 * g] % 4 * 16 + s[3 * g + 1] / 16)
    ensures Encode(s)[4 * g + 2] == Char(s[3 * g + 1] % 16 * 4 + s[3 * g + 2] / 64)
    ensures Encode(s)[4 * g + 3] == Char(s[3 * g + 2] % 64)
  {
    hide Bits, Group, Char;
    if g == 0 {
      FullGroup(s[0], s[1], s[2]);
      assert [s[0], s[1], s[2]][3..] == [];
      assert Encode(s)[..4] == Group(Bits(s[0], s[1], s[2])) == Encode([s[0], s[1], s[2]]);
    } else {
      GroupCode(s[3..], g - 1);
    }
  }

  /** The padded tail: the last one or two bytes, if any. */
  method EncodeTail(src: array<byte>, len: nat, ssize: nat, pad: nat, dst: array<char>, start: nat) returns (at: nat)
    requires len <= ssize <= src.Length && src as object != dst
    requires ssize - len == if pad == 0 then 0 else 3 - pad
    requires pad <= 2 && start + |Encode(src[len..ssize])| <= dst.Length
    modifies dst
    ensures at == start + |Encode(src[len..ssize])|
    ensures dst[..] == old(dst[..start]) + Encode(src[len..ssize]) + old(dst[at..])
  {
    hide Encode, Char, B64At, Top6, Low2, Top4, Low4, OrInto;
    ghost var tail := src[len..ssize];
    ghost var code := Encode(tail);
    TailCode(tail);
    var x: byte := 0;
    at := start;
    if pad != 0 {
      x := Top6(src[len]);
      dst[at] := B64At(x);
      at := at + 1;
      x := Low2(src[len]);
    }
    if pad == 1 {
      x := OrInto(x, Top4(src[len + 1]));
      dst[at] := B64At(x);
      at := at + 1;
      x := Low4(src[len + 1]);
    }
    if pad != 0 {
      dst[at] := B64At(x);
      at := at + 1;
    }
    at := PadTail(dst, at, pad);
  }

  method PadTail(dst: array<char>, start: nat, pad: nat) returns (at: nat)
    requires start + pad <= dst.Length
    modifies dst
    ensures at == start + pad
    ensures forall k :: start <= k < at ==> dst[k] == '='
    ensures forall k :: 0 <= k < start || at <= k < dst.Length ==> dst[k] == old(dst[k])
  {
    at := start;
    var i: nat := 0;
    while i < pad
      invariant i <= pad && at == start + i
      invariant forall k :: start <= k < at ==> dst[k] == '='
      invariant forall k :: 0 <= k < start || at <= k < dst.Length ==> dst[k] == old(dst[k])
    {
      dst[at] := '=';
      at := at + 1;
      i := i + 1;
    }
  }

  /** The encoding of zero, one or two left-over bytes. */
  lemma TailCode(tail: seq<byte>)
    requires |tail| < 3
    ensures |tail| == 0 ==> Encode(tail) == ""
    ensures |tail| == 1 ==> Encode(tail) == [Char(tail[0] / 4), Char(tail[0] % 4 * 16), '=', '=']
    ensures |tail| == 2 ==> Encode(tail) == [Char(tail[0] / 4), Char(tail[0] % 4 * 16 + tail[1] / 16),
                                             Char(tail[1] % 16 * 4), '=']
  {
    hide Char;
    if |tail| == 1 {
      ShortGroups(tail[0], 0);
      assert tail == [tail[0]];
    } else if |tail| == 2 {
      ShortGroups(tail[0], tail[1]);
      assert tail == [tail[0], tail[1]];
    }
  }
}
