/**
 The digest on the first sample of FIPS PUB 180-1: the schedule and the rounds
 of the block, eight words and eight rounds at a time.
 */
module Sha1Vectors {
  import opened Bytes
  import opened Sha1Spec

  // -------------------------------------------------------- eight at a time

  datatype Eight = Eight(a: Word, b: Word, c: Word, d: Word, e: Word, f: Word, g: Word, h: Word)

  function Nth(w: Eight, i: nat): Word {
    if i == 0 then w.a else if i == 1 then w.b else if i == 2 then w.c else if i == 3 then w.d
    else if i == 4 then w.e else if i == 5 then w.f else if i == 6 then w.g else w.h
  }

  /** Words t to t + 7 of a block's schedule. */
  ghost predicate EightAre(block: seq<byte>, t: nat, w: Eight)
    requires |block| == BLOCK && t <= 72
  {
    forall u :: t <= u < t + 8 ==> Schedule(block, u) == Nth(w, u - t)
  }

  function Load(a: byte, b: byte, c: byte, d: byte): Word {
    Or(Or(Or(Left24(ToWord(a)), Left16(ToWord(b))), Left8(ToWord(c))), ToWord(d))
  }

  /** Four words straight from 16 bytes. */
  ghost predicate FourAre(block: seq<byte>, t: nat, w: Word, x: Word, y: Word, z: Word)
    requires |block| == BLOCK && t <= 76
  {
    forall u :: t <= u < t + 4 ==>
      Schedule(block, u) == if u == t then w else if u == t + 1 then x else if u == t + 2 then y else z
  }

  lemma Loaded(block: seq<byte>, t: nat, at: nat,
               a: byte, b: byte, c: byte, d: byte, e: byte, f: byte, g: byte, h: byte,
               i: byte, j: byte, k: byte, l: byte, m: byte, n: byte, o: byte, p: byte)
    requires |block| == BLOCK && t <= 12 && at == 4 * t
    requires block[at..at + 16] == [a, b, c, d, e, f, g, h, i, j, k, l, m, n, o, p]
    ensures FourAre(block, t, Load(a, b, c, d), Load(e, f, g, h), Load(i, j, k, l), Load(m, n, o, p))
  {
    hide Schedule, Load;
    var s := block[at..at + 16];
    Sixteen(s, a, b, c, d, e, f, g, h, i, j, k, l, m, n, o, p);
    FourBytes(block, at, s, 0);
    FourBytes(block, at, s, 4);
    FourBytes(block, at, s, 8);
    FourBytes(block, at, s, 12);
    OneLoad(block, t, at, a, b, c, d);
    OneLoad(block, t + 1, at + 4, e, f, g, h);
    OneLoad(block, t + 2, at + 8, i, j, k, l);
    OneLoad(block, t + 3, at + 12, m, n, o, p);
  }

  lemma Sixteen(s: seq<byte>,
                a: byte, b: byte, c: byte, d: byte, e: byte, f: byte, g: byte, h: byte,
                i: byte, j: byte, k: byte, l: byte, m: byte, n: byte, o: byte, p: byte)
    requires s == [a, b, c, d, e, f, g, h, i, j, k, l, m, n, o, p]
    ensures |s| == 16 && s[0] == a && s[1] == b && s[2] == c && s[3] == d && s[4] == e && s[5] == f && s[6] == g && s[7] == h
    ensures s[8] == i && s[9] == j && s[10] == k && s[11] == l && s[12] == m && s[13] == n && s[14] == o && s[15] == p
  {
  }

  lemma FourBytes(block: seq<byte>, at: nat, s: seq<byte>, k: nat)
    requires |s| == 16 && at + 16 <= |block| && s == block[at..at + 16] && k <= 12
    ensures block[at + k] == s[k] && block[at + k + 1] == s[k + 1] && block[at + k + 2] == s[k + 2] && block[at + k + 3] == s[k + 3]
  {
  }

  lemma OneLoad(block: seq<byte>, t: nat, at: nat, a: byte, b: byte, c: byte, d: byte)
    requires |block| == BLOCK && t < 16 && at == 4 * t
    requires block[at] == a && block[at + 1] == b && block[at + 2] == c && block[at + 3] == d
    ensures Schedule(block, t) == Load(a, b, c, d)
  {
    hide Or, Left8, Left16, Left24, ToWord;
  }

  lemma TwoFours(block: seq<byte>, t: nat, w: Eight)
    requires |block| == BLOCK && t <= 72
    requires FourAre(block, t, w.a, w.b, w.c, w.d) && FourAre(block, t + 4, w.e, w.f, w.g, w.h)
    ensures EightAre(block, t, w)
  {
    hide Schedule;
  }

  function Mixed(x: Word, y: Word, z: Word, u: Word): Word {
    Rotate1(Xor(Xor(Xor(x, y), z), u))
  }

  /** The eight words that follow sixteen others in a schedule. */
  function MixedEight(v: Eight, w: Eight): Eight {
    var a, b, c := Mixed(w.f, w.a, v.c, v.a), Mixed(w.g, w.b, v.d, v.b), Mixed(w.h, w.c, v.e, v.c);
    var d, e, f := Mixed(a, w.d, v.f, v.d), Mixed(b, w.e, v.g, v.e), Mixed(c, w.f, v.h, v.f);
    Eight(a, b, c, d, e, f, Mixed(d, w.g, w.a, v.g), Mixed(e, w.h, w.b, v.h))
  }

  lemma OneWord(block: seq<byte>, t: nat, x: Word, y: Word, z: Word, u: Word)
    requires |block| == BLOCK && 16 <= t < 80
    requires Schedule(block, t - 3) == x && Schedule(block, t - 8) == y
    requires Schedule(block, t - 14) == z && Schedule(block, t - 16) == u
    ensures Schedule(block, t) == Mixed(x, y, z, u)
  {
    hide Xor, Rotate1;
  }

  lemma NextEight(block: seq<byte>, t: nat, v: Eight, w: Eight)
    requires |block| == BLOCK && 16 <= t <= 72 && EightAre(block, t - 16, v) && EightAre(block, t - 8, w)
    ensures EightAre(block, t, MixedEight(v, w))
  {
    hide Schedule, Mixed, EightAre, MixedEight;
    var n := MixedEight(v, w);
    MixedParts(v, w);
    Each(block, t - 16, v);
    Each(block, t - 8, w);
    OneWord(block, t, w.f, w.a, v.c, v.a);
    OneWord(block, t + 1, w.g, w.b, v.d, v.b);
    OneWord(block, t + 2, w.h, w.c, v.e, v.c);
    OneWord(block, t + 3, n.a, w.d, v.f, v.d);
    OneWord(block, t + 4, n.b, w.e, v.g, v.e);
    OneWord(block, t + 5, n.c, w.f, v.h, v.f);
    OneWord(block, t + 6, n.d, w.g, w.a, v.g);
    OneWord(block, t + 7, n.e, w.h, w.b, v.h);
    All(block, t, n);
  }

  lemma MixedParts(v: Eight, w: Eight)
    ensures var n := MixedEight(v, w);
            && n.a == Mixed(w.f, w.a, v.c, v.a) && n.b == Mixed(w.g, w.b, v.d, v.b) && n.c == Mixed(w.h, w.c, v.e, v.c)
            && n.d == Mixed(n.a, w.d, v.f, v.d) && n.e == Mixed(n.b, w.e, v.g, v.e) && n.f == Mixed(n.c, w.f, v.h, v.f)
            && n.g == Mixed(n.d, w.g, w.a, v.g) && n.h == Mixed(n.e, w.h, w.b, v.h)
  {
    hide Mixed;
  }

  lemma Each(block: seq<byte>, t: nat, w: Eight)
    requires |block| == BLOCK && t <= 72 && EightAre(block, t, w)
    ensures Schedule(block, t) == w.a && Schedule(block, t + 1) == w.b && Schedule(block, t + 2) == w.c
    ensures Schedule(block, t + 3) == w.d && Schedule(block, t + 4) == w.e && Schedule(block, t + 5) == w.f
    ensures Schedule(block, t + 6) == w.g && Schedule(block, t + 7) == w.h
  {
    hide Schedule;
  }

  lemma All(block: seq<byte>, t: nat, w: Eight)
    requires |block| == BLOCK && t <= 72
    requires Schedule(block, t) == w.a && Schedule(block, t + 1) == w.b && Schedule(block, t + 2) == w.c
    requires Schedule(block, t + 3) == w.d && Schedule(block, t + 4) == w.e && Schedule(block, t + 5) == w.f
    requires Schedule(block, t + 6) == w.g && Schedule(block, t + 7) == w.h
    ensures EightAre(block, t, w)
  {
    hide Schedule;
  }

  function EightRounds(s: Hash, t: nat, w: Eight): Hash {
    var s1 := Step(Step(Step(Step(s, t, w.a), t + 1, w.b), t + 2, w.c), t + 3, w.d);
    Step(Step(Step(Step(s1, t + 4, w.e), t + 5, w.f), t + 6, w.g), t + 7, w.h)
  }

  lemma NextRounds(block: seq<byte>, start: Hash, t: nat, s: Hash, w: Eight)
    requires |block| == BLOCK && t <= 72 && EightAre(block, t, w) && Rounds(start, Words(block)[..t]) == s
    ensures Rounds(start, Words(block)[..t + 8]) == EightRounds(s, t, w)
  {
    hide Step, Schedule, Rounds;
    var words := Words(block);
    RoundsNext(start, words, t);
    RoundsNext(start, words, t + 1);
    RoundsNext(start, words, t + 2);
    RoundsNext(start, words, t + 3);
    RoundsNext(start, words, t + 4);
    RoundsNext(start, words, t + 5);
    RoundsNext(start, words, t + 6);
    RoundsNext(start, words, t + 7);
  }

  lemma ChainOfNothing()
    ensures Chain([]) == INITIAL
  {
  }

  function HashBytes(h: Hash): seq<byte> {
    WordBytes(h.a) + WordBytes(h.b) + WordBytes(h.c) + WordBytes(h.d) + WordBytes(h.e)
  }

  lemma DigestIs(m: seq<byte>, h: Hash)
    requires h == Chain(Pad(m))
    ensures Digest(m) == HashBytes(h)
  {
    hide Chain, Pad, WordBytes, WordsBytes;
    FiveWords(h.a, h.b, h.c, h.d, h.e);
  }

  lemma FiveWords(a: Word, b: Word, c: Word, d: Word, e: Word)
    ensures WordsBytes([a, b, c, d, e]) == WordBytes(a) + WordBytes(b) + WordBytes(c) + WordBytes(d) + WordBytes(e)
  {
    hide WordBytes, WordsBytes;
    ThreeWords(a, b, c);
    BytesOfMore([a, b, c], d);
    BytesOfMore([a, b, c, d], e);
    assert [a, b, c] + [d] == [a, b, c, d] && [a, b, c, d] + [e] == [a, b, c, d, e];
  }

  lemma ThreeWords(a: Word, b: Word, c: Word)
    ensures WordsBytes([a, b, c]) == WordBytes(a) + WordBytes(b) + WordBytes(c)
  {
    hide WordBytes, WordsBytes;
    BytesOfNothing();
    BytesOfMore([], a);
    BytesOfMore([a], b);
    BytesOfMore([a, b], c);
    assert [] + [a] == [a] && [a] + [b] == [a, b] && [a, b] + [c] == [a, b, c];
    assert [] + WordBytes(a) == WordBytes(a);
  }

  lemma BytesOfNothing()
    ensures WordsBytes([]) == []
  {
  }

  lemma BytesOfMore(w: seq<Word>, x: Word)
    ensures WordsBytes(w + [x]) == WordsBytes(w) + WordBytes(x)
  {
    hide WordBytes;
    assert (w + [x])[..|w|] == w;
  }

  lemma ShortLength(n: nat)
    requires n < 0x1_0000
    ensures BigEndian(n, 8) == [0, 0, 0, 0, 0, 0, n / 0x100, n % 0x100]
  {
    Powers();
    BigEndianHalves(0, n, 4, 4);
    BigEndian4(0);
    BigEndian4(n);
  }

  // The block "abc" is padded to.

  function AbcRow0(): (r: seq<byte>) ensures |r| == 16 { [0x61, 0x62, 0x63, 0x80, 0x00, 0x00, 0x00, 0x00, 0x00, 0x00, 0x00, 0x00, 0x00, 0x00, 0x00, 0x00] }
  function AbcRow1(): (r: seq<byte>) ensures |r| == 16 { [0x00, 0x00, 0x00, 0x00, 0x00, 0x00, 0x00, 0x00, 0x00, 0x00, 0x00, 0x00, 0x00, 0x00, 0x00, 0x00] }
  function AbcRow2(): (r: seq<byte>) ensures |r| == 16 { [0x00, 0x00, 0x00, 0x00, 0x00, 0x00, 0x00, 0x00, 0x00, 0x00, 0x00, 0x00, 0x00, 0x00, 0x00, 0x00] }
  function AbcRow3(): (r: seq<byte>) ensures |r| == 16 { [0x00, 0x00, 0x00, 0x00, 0x00, 0x00, 0x00, 0x00, 0x00, 0x00, 0x00, 0x00, 0x00, 0x00, 0x00, 0x18] }

  function AbcBlock(): (b: seq<byte>)
    ensures |b| == BLOCK
  {
    AbcRow0() + AbcRow1() + AbcRow2() + AbcRow3()
  }

  function AbcW0(): Eight { Eight(0x61626380, 0x00000000, 0x00000000, 0x00000000, 0x00000000, 0x00000000, 0x00000000, 0x00000000) }
  function AbcW1(): Eight { Eight(0x00000000, 0x00000000, 0x00000000, 0x00000000, 0x00000000, 0x00000000, 0x00000000, 0x00000018) }
  function AbcW2(): Eight { Eight(0xC2C4C700, 0x00000000, 0x00000030, 0x85898E01, 0x00000000, 0x00000060, 0x0B131C03, 0x00000030) }
  function AbcW3(): Eight { Eight(0x85898EC1, 0x16263806, 0x00000000, 0x00000180, 0x2C4C700C, 0x000000F0, 0x93AFB507, 0x5898E048) }
  function AbcW4(): Eight { Eight(0x8E9A9202, 0x00000600, 0xB131C0F0, 0x16263BC6, 0x4EBED41E, 0x626380A1, 0x16263806, 0x000018C0) }
  function AbcW5(): Eight { Eight(0xD2E138C4, 0x00000F00, 0x3AFB5079, 0x898E04E5, 0xE2BA3C2B, 0x000060C0, 0x053A37CD, 0x74458547) }
  function AbcW6(): Eight { Eight(0xDA9415ED, 0x26380A16, 0x626383A1, 0x4EBF54DE, 0x3835B44B, 0x0000F600, 0x1E84C7A3, 0x98E04D98) }
  function AbcW7(): Eight { Eight(0x651D16A0, 0x62658CA1, 0x458544D6, 0x44584CB7, 0x7BA06619, 0x6380AEA2, 0x0AE55269, 0x627B49A1) }
  function AbcW8(): Eight { Eight(0x7CD45C9D, 0x000F0000, 0xFB50753A, 0xEC6765E8, 0xBA3C2BE2, 0x0060C000, 0x3A37CD05, 0x458546F4) }
  function AbcW9(): Eight { Eight(0xB8599DD6, 0x380A1A26, 0x01E02203, 0xE7CC3456, 0xE6E60B69, 0x00F60A00, 0x5795EF4F, 0x822E0879) }

  function AbcS0(): Hash { Hash(0x67452301, 0xEFCDAB89, 0x98BADCFE, 0x10325476, 0xC3D2E1F0) }
  function AbcS1(): Hash { Hash(0x9E8C07D4, 0x993E30C1, 0x0FF1F290, 0xB3F52677, 0xF3763846) }
  function AbcS2(): Hash { Hash(0x20BDD62F, 0x196BEE77, 0x644A3DA5, 0x1181ED99, 0x18C623F9) }
  function AbcS3(): Hash { Hash(0xD541F12D, 0x21283486, 0x0CE88EFF, 0x868DEC32, 0x7F67875F) }
  function AbcS4(): Hash { Hash(0x3B845D33, 0x1267B407, 0x717EEBD7, 0xA0DC2D4B, 0xD2AA1365) }
  function AbcS5(): Hash { Hash(0x32DE1CBA, 0x4C986405, 0xF718E5CF, 0x03D447F6, 0xF72EEC32) }
  function AbcS6(): Hash { Hash(0xBEAD02CA, 0xA01B846C, 0x8714787C, 0x503CA382, 0xFB86C6AB) }
  function AbcS7(): Hash { Hash(0x5E6456AF, 0x7B71F76D, 0x09FA7C76, 0x792410DB, 0x8E11EB59) }
  function AbcS8(): Hash { Hash(0x6B61C9E1, 0xB66C020B, 0x9523272C, 0xF5D5B051, 0x8FD4B796) }
  function AbcS9(): Hash { Hash(0x39859DE7, 0xC199F8C7, 0x8FC96230, 0x125C24F0, 0xDE37534A) }
  function AbcS10(): Hash { Hash(0x42541B35, 0x5738D5E1, 0x21834873, 0x681E6DF6, 0xD8FDF6AD) }

  lemma AbcLoads()
    ensures Load(0x61, 0x62, 0x63, 0x80) == 0x61626380
    ensures Load(0x00, 0x00, 0x00, 0x00) == 0x00000000
    ensures Load(0x00, 0x00, 0x00, 0x00) == 0x00000000
    ensures Load(0x00, 0x00, 0x00, 0x00) == 0x00000000
    ensures Load(0x00, 0x00, 0x00, 0x00) == 0x00000000
    ensures Load(0x00, 0x00, 0x00, 0x00) == 0x00000000
    ensures Load(0x00, 0x00, 0x00, 0x00) == 0x00000000
    ensures Load(0x00, 0x00, 0x00, 0x00) == 0x00000000
    ensures Load(0x00, 0x00, 0x00, 0x00) == 0x00000000
    ensures Load(0x00, 0x00, 0x00, 0x00) == 0x00000000
    ensures Load(0x00, 0x00, 0x00, 0x00) == 0x00000000
    ensures Load(0x00, 0x00, 0x00, 0x00) == 0x00000000
    ensures Load(0x00, 0x00, 0x00, 0x00) == 0x00000000
    ensures Load(0x00, 0x00, 0x00, 0x00) == 0x00000000
    ensures Load(0x00, 0x00, 0x00, 0x00) == 0x00000000
    ensures Load(0x00, 0x00, 0x00, 0x18) == 0x00000018
  {
  }

  lemma AbcWords1()
    ensures EightAre(AbcBlock(), 0, AbcW0()) && EightAre(AbcBlock(), 8, AbcW1())
  {
    hide EightAre, FourAre, Load;
    AbcLoads();
    Loaded(AbcBlock(), 0, 0,
           0x61, 0x62, 0x63, 0x80, 0x00, 0x00, 0x00, 0x00, 0x00, 0x00, 0x00, 0x00, 0x00, 0x00, 0x00, 0x00);
    Loaded(AbcBlock(), 4, 16,
           0x00, 0x00, 0x00, 0x00, 0x00, 0x00, 0x00, 0x00, 0x00, 0x00, 0x00, 0x00, 0x00, 0x00, 0x00, 0x00);
    Loaded(AbcBlock(), 8, 32,
           0x00, 0x00, 0x00, 0x00, 0x00, 0x00, 0x00, 0x00, 0x00, 0x00, 0x00, 0x00, 0x00, 0x00, 0x00, 0x00);
    Loaded(AbcBlock(), 12, 48,
           0x00, 0x00, 0x00, 0x00, 0x00, 0x00, 0x00, 0x00, 0x00, 0x00, 0x00, 0x00, 0x00, 0x00, 0x00, 0x18);
    TwoFours(AbcBlock(), 0, AbcW0());
    TwoFours(AbcBlock(), 8, AbcW1());
  }

  lemma AbcWords2()
    ensures EightAre(AbcBlock(), 16, AbcW2()) && EightAre(AbcBlock(), 24, AbcW3())
  {
    hide EightAre, AbcBlock;
    AbcWords1();
    NextEight(AbcBlock(), 16, AbcW0(), AbcW1());
    NextEight(AbcBlock(), 24, AbcW1(), AbcW2());
  }

  lemma AbcWords3()
    ensures EightAre(AbcBlock(), 32, AbcW4()) && EightAre(AbcBlock(), 40, AbcW5())
  {
    hide EightAre, AbcBlock;
    AbcWords2();
    NextEight(AbcBlock(), 32, AbcW2(), AbcW3());
    NextEight(AbcBlock(), 40, AbcW3(), AbcW4());
  }

  lemma AbcWords4()
    ensures EightAre(AbcBlock(), 48, AbcW6()) && EightAre(AbcBlock(), 56, AbcW7())
  {
    hide EightAre, AbcBlock;
    AbcWords3();
    NextEight(AbcBlock(), 48, AbcW4(), AbcW5());
    NextEight(AbcBlock(), 56, AbcW5(), AbcW6());
  }

  lemma AbcWords5()
    ensures EightAre(AbcBlock(), 64, AbcW8()) && EightAre(AbcBlock(), 72, AbcW9())
  {
    hide EightAre, AbcBlock;
    AbcWords4();
    NextEight(AbcBlock(), 64, AbcW6(), AbcW7());
    NextEight(AbcBlock(), 72, AbcW7(), AbcW8());
  }

  lemma AbcRounds1()
    ensures Rounds(AbcS0(), Words(AbcBlock())[..8]) == AbcS1()
  {
    hide Rounds, Words, EightAre, AbcBlock;
    RoundsNone(AbcS0(), Words(AbcBlock()));
    AbcWords1();
    NextRounds(AbcBlock(), AbcS0(), 0, AbcS0(), AbcW0());
  }

  lemma AbcRounds2()
    ensures Rounds(AbcS0(), Words(AbcBlock())[..16]) == AbcS2()
  {
    hide Rounds, Words, EightAre, AbcBlock;
    AbcRounds1();
    AbcWords1();
    NextRounds(AbcBlock(), AbcS0(), 8, AbcS1(), AbcW1());
  }

  lemma AbcRounds3()
    ensures Rounds(AbcS0(), Words(AbcBlock())[..24]) == AbcS3()
  {
    hide Rounds, Words, EightAre, AbcBlock;
    AbcRounds2();
    AbcWords2();
    NextRounds(AbcBlock(), AbcS0(), 16, AbcS2(), AbcW2());
  }

  lemma AbcRounds4()
    ensures Rounds(AbcS0(), Words(AbcBlock())[..32]) == AbcS4()
  {
    hide Rounds, Words, EightAre, AbcBlock;
    AbcRounds3();
    AbcWords2();
    NextRounds(AbcBlock(), AbcS0(), 24, AbcS3(), AbcW3());
  }

  lemma AbcRounds5()
    ensures Rounds(AbcS0(), Words(AbcBlock())[..40]) == AbcS5()
  {
    hide Rounds, Words, EightAre, AbcBlock;
    AbcRounds4();
    AbcWords3();
    NextRounds(AbcBlock(), AbcS0(), 32, AbcS4(), AbcW4());
  }

  lemma AbcRounds6()
    ensures Rounds(AbcS0(), Words(AbcBlock())[..48]) == AbcS6()
  {
    hide Rounds, Words, EightAre, AbcBlock;
    AbcRounds5();
    AbcWords3();
    NextRounds(AbcBlock(), AbcS0(), 40, AbcS5(), AbcW5());
  }

  lemma AbcRounds7()
    ensures Rounds(AbcS0(), Words(AbcBlock())[..56]) == AbcS7()
  {
    hide Rounds, Words, EightAre, AbcBlock;
    AbcRounds6();
    AbcWords4();
    NextRounds(AbcBlock(), AbcS0(), 48, AbcS6(), AbcW6());
  }

  lemma AbcRounds8()
    ensures Rounds(AbcS0(), Words(AbcBlock())[..64]) == AbcS8()
  {
    hide Rounds, Words, EightAre, AbcBlock;
    AbcRounds7();
    AbcWords4();
    NextRounds(AbcBlock(), AbcS0(), 56, AbcS7(), AbcW7());
  }

  lemma AbcRounds9()
    ensures Rounds(AbcS0(), Words(AbcBlock())[..72]) == AbcS9()
  {
    hide Rounds, Words, EightAre, AbcBlock;
    AbcRounds8();
    AbcWords5();
    NextRounds(AbcBlock(), AbcS0(), 64, AbcS8(), AbcW8());
  }

  lemma AbcRounds10()
    ensures Rounds(AbcS0(), Words(AbcBlock())[..80]) == AbcS10()
  {
    hide Rounds, Words, EightAre, AbcBlock;
    AbcRounds9();
    AbcWords5();
    NextRounds(AbcBlock(), AbcS0(), 72, AbcS9(), AbcW9());
  }

  lemma AbcCompressed()
    ensures Compress(AbcS0(), AbcBlock()) == Hash(0xA9993E36, 0x4706816A, 0xBA3E2571, 0x7850C26C, 0x9CD0D89D)
  {
    hide Rounds, AbcBlock;
    AbcRounds10();
    assert Words(AbcBlock())[..80] == Words(AbcBlock());
  }

  /** The first sample of FIPS PUB 180-1, appendix A. */
  lemma DigestOfAbc()
    ensures Digest([0x61, 0x62, 0x63])
         == [0xa9, 0x99, 0x3e, 0x36, 0x47, 0x06, 0x81, 0x6a, 0xba, 0x3e, 0x25, 0x71, 0x78, 0x50, 0xc2, 0x6c, 0x9c, 0xd0, 0xd8, 0x9d]
  {
    hide Pad, Chain, Compress, WordsBytes, Digest;
    var m: seq<byte> := [0x61, 0x62, 0x63];
    PadOneBlock([], m);
    assert [] + m == m;
    AbcPadded();
    ChainOfNothing();
    AbcCompressed();
    assert Chain(Pad(m)) == Hash(0xA9993E36, 0x4706816A, 0xBA3E2571, 0x7850C26C, 0x9CD0D89D);
    DigestIs(m, Chain(Pad(m)));
    AbcBytes();
  }

  lemma AbcPadded()
    ensures [0x61, 0x62, 0x63] + [0x80] + Zeros(52) + BigEndian(24, 8) == AbcBlock()
  {
    ShortLength(24);
  }

  lemma AbcBytes()
    ensures HashBytes(Hash(0xA9993E36, 0x4706816A, 0xBA3E2571, 0x7850C26C, 0x9CD0D89D))
         == [0xa9, 0x99, 0x3e, 0x36, 0x47, 0x06, 0x81, 0x6a, 0xba, 0x3e, 0x25, 0x71, 0x78, 0x50, 0xc2, 0x6c, 0x9c, 0xd0, 0xd8, 0x9d]
  {
  }
}
