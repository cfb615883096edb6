/**
 The one-shot digest of FIPS PUB 180-1 (the same function as RFC 3174), stated
 over a whole message held as a byte sequence.  Nothing here streams, keeps a
 buffer or updates a word in place.
 */
module Sha1Spec {
  import opened Bytes

  type Word = bv32

  const BLOCK: nat := 64

  /** The five chaining words. */
  datatype Hash = Hash(a: Word, b: Word, c: Word, d: Word, e: Word)

  const INITIAL := Hash(0x67452301, 0xEFCDAB89, 0x98BADCFE, 0x10325476, 0xC3D2E1F0)

  /** Messages this long, or longer, have a bit length that does not fit 64 bits. */
  const TOO_LONG: nat := 0x2000_0000_0000_0000

  // -------------------------------------------------------------- padding

  function Zeros(n: nat): (s: seq<byte>)
    ensures |s| == n
  {
    seq(n, _ => 0)
  }

  /** The number of zero bytes that brings the length field to the end of a block. */
  function FillLength(n: nat): (k: nat)
    ensures k < BLOCK
  {
    (119 - n % BLOCK) % BLOCK
  }

  lemma PaddedLength(n: nat)
    ensures (n + 9 + FillLength(n)) % BLOCK == 0
  {
    var q, r := n / BLOCK, n % BLOCK;
    assert n + 9 + FillLength(n) == BLOCK * (q + if r < 56 then 1 else 2);
  }

  /** Section 4: a one bit, zero bits, and the bit length in two words. */
  function Pad(m: seq<byte>): (p: seq<byte>)
    ensures |p| % BLOCK == 0 && |m| + 9 <= |p| < |m| + 9 + BLOCK
  {
    PaddedLength(|m|);
    m + [0x80] + Zeros(FillLength(|m|)) + BigEndian(8 * |m|, 8)
  }

  /** Reads the length field back and cuts the message out of its padded form. */
  function Unpad(p: seq<byte>): seq<byte> {
    if |p| < 8 then [] else
    var n := FromBigEndian(p[|p| - 8..]) / 8;
    if n <= |p| then p[..n] else []
  }

  // ---------------------------------------------------------- compression

  // Operations on words.  They are kept as named functions so that proofs about
  // loops and heaps can treat them as unknowns.

  function Plus(x: Word, y: Word): Word { x + y }

  function Or(x: Word, y: Word): Word { x | y }

  function Xor(x: Word, y: Word): Word { x ^ y }

  function ToWord(b: byte): Word { b as Word }

  function Left8(w: Word): Word { w << 8 }

  function Left16(w: Word): Word { w << 16 }

  function Left24(w: Word): Word { w << 24 }

  // Section 3's circular left shift, for the three amounts the standard uses.

  function Rotate1(w: Word): Word { w.RotateLeft(1) }

  function Rotate5(w: Word): Word { w.RotateLeft(5) }

  function Rotate30(w: Word): Word { w.RotateLeft(30) }

  // Section 5's logical functions and constants.

  function Choose(b: Word, c: Word, d: Word): Word { (b & c) | (!b & d) }

  function Parity(b: Word, c: Word, d: Word): Word { b ^ c ^ d }

  function Majority(b: Word, c: Word, d: Word): Word { (b & c) | (b & d) | (c & d) }

  function F(t: nat, b: Word, c: Word, d: Word): Word {
    if t < 20 then Choose(b, c, d)
    else if t < 40 then Parity(b, c, d)
    else if t < 60 then Majority(b, c, d)
    else Parity(b, c, d)
  }

  function K(t: nat): Word {
    if t < 20 then 0x5A827999
    else if t < 40 then 0x6ED9EBA1
    else if t < 60 then 0x8F1BBCDC
    else 0xCA62C1D6
  }

  /** Word t of the 80-word schedule of one block. */
  function Schedule(block: seq<byte>, t: nat): Word
    requires |block| == BLOCK && t < 80
  {
    if t < 16 then
      Or(Or(Or(Left24(ToWord(block[4 * t])), Left16(ToWord(block[4 * t + 1]))),
            Left8(ToWord(block[4 * t + 2]))), ToWord(block[4 * t + 3]))
    else
      Rotate1(Xor(Xor(Xor(Schedule(block, t - 3), Schedule(block, t - 8)), Schedule(block, t - 14)),
                  Schedule(block, t - 16)))
  }

  function Words(block: seq<byte>): (w: seq<Word>)
    requires |block| == BLOCK
    ensures |w| == 80
  {
    seq(80, t requires 0 <= t < 80 => Schedule(block, t))
  }

  /** Step (d) of section 7, for round t with schedule word w. */
  function Step(h: Hash, t: nat, w: Word): Hash {
    Hash(Plus(Plus(Plus(Plus(Rotate5(h.a), F(t, h.b, h.c, h.d)), h.e), w), K(t)), h.a, Rotate30(h.b), h.c, h.d)
  }

  /** One round for each word of w, in order. */
  function Rounds(h: Hash, w: seq<Word>): Hash {
    if w == [] then h else Step(Rounds(h, w[..|w| - 1]), |w| - 1, w[|w| - 1])
  }

  lemma RoundsNone(h: Hash, w: seq<Word>)
    ensures Rounds(h, w[..0]) == h
  {
  }

  lemma RoundsNext(h: Hash, w: seq<Word>, t: nat)
    requires t < |w|
    ensures Rounds(h, w[..t + 1]) == Step(Rounds(h, w[..t]), t, w[t])
  {
    assert w[..t + 1][..t] == w[..t];
  }

  function Add(h: Hash, k: Hash): Hash {
    Hash(Plus(h.a, k.a), Plus(h.b, k.b), Plus(h.c, k.c), Plus(h.d, k.d), Plus(h.e, k.e))
  }

  function Compress(h: Hash, block: seq<byte>): Hash
    requires |block| == BLOCK
  {
    Add(h, Rounds(h, Words(block)))
  }

  /** The chaining value after all blocks of data, taken in order. */
  function Chain(data: seq<byte>): Hash
    requires |data| % BLOCK == 0
  {
    if data == [] then INITIAL
    else Compress(Chain(data[..|data| - BLOCK]), data[|data| - BLOCK..])
  }

  // --------------------------------------------------------------- digest

  /** w shifted right by whole bytes. */
  function Right(w: Word, bytes: nat): Word
    requires bytes < 4
  {
    if bytes == 0 then w else if bytes == 1 then w >> 8 else if bytes == 2 then w >> 16 else w >> 24
  }

  function LowByte(w: Word): byte {
    (w & 0xFF) as int
  }

  function WordBytes(w: Word): (s: seq<byte>)
    ensures |s| == 4
  {
    [LowByte(Right(w, 3)), LowByte(Right(w, 2)), LowByte(Right(w, 1)), LowByte(Right(w, 0))]
  }

  function WordsBytes(w: seq<Word>): (s: seq<byte>)
    ensures |s| == 4 * |w|
  {
    if w == [] then [] else WordsBytes(w[..|w| - 1]) + WordBytes(w[|w| - 1])
  }

  function ChainWords(h: Hash): (w: seq<Word>)
    ensures |w| == 5
  {
    [h.a, h.b, h.c, h.d, h.e]
  }

  /** The message digest. */
  function Digest(m: seq<byte>): (s: seq<byte>)
    ensures |s| == 20
  {
    WordsBytes(ChainWords(Chain(Pad(m))))
  }

  // --------------------------------------------------- facts about blocks

  /** Chaining is block by block, from the left. */
  lemma ChainAppend(x: seq<byte>, block: seq<byte>)
    requires |x| % BLOCK == 0 && |block| == BLOCK
    ensures |x + block| % BLOCK == 0
    ensures Chain(x + block) == Compress(Chain(x), block)
  {
    var y := x + block;
    assert y[..|y| - BLOCK] == x && y[|y| - BLOCK..] == block;
  }

  lemma WholeBlocks(whole: seq<byte>, tail: seq<byte>)
    requires |whole| % BLOCK == 0 && |tail| < BLOCK
    ensures |whole + tail| % BLOCK == |tail|
    ensures FillLength(|whole + tail|) == if |tail| < 56 then 55 - |tail| else 119 - |tail|
  {
    var q := |whole| / BLOCK;
    assert |whole + tail| == BLOCK * q + |tail|;
    assert |whole + tail| / BLOCK == q;
  }

  /** A last partial block with room for the length is completed into one block. */
  lemma PadOneBlock(whole: seq<byte>, tail: seq<byte>)
    requires |whole| % BLOCK == 0 && |tail| < 56
    ensures var d := whole + tail;
            Chain(Pad(d)) == Compress(Chain(whole), tail + [0x80] + Zeros(55 - |tail|) + BigEndian(8 * |d|, 8))
  {
    hide Compress, Chain, BigEndian;
    var d := whole + tail;
    WholeBlocks(whole, tail);
    var last := tail + [0x80] + Zeros(55 - |tail|) + BigEndian(8 * |d|, 8);
    assert Pad(d) == whole + last;
    ChainAppend(whole, last);
  }

  /** One without room is filled up, and the length goes to the end of a second block. */
  lemma PadTwoBlocks(whole: seq<byte>, tail: seq<byte>)
    requires |whole| % BLOCK == 0 && 56 <= |tail| < BLOCK
    ensures var d := whole + tail;
            Chain(Pad(d)) == Compress(Compress(Chain(whole), tail + [0x80] + Zeros(63 - |tail|)),
                                      Zeros(56) + BigEndian(8 * |d|, 8))
  {
    hide Compress, Chain, BigEndian;
    var d := whole + tail;
    WholeBlocks(whole, tail);
    var first, second := tail + [0x80] + Zeros(63 - |tail|), Zeros(56) + BigEndian(8 * |d|, 8);
    assert Pad(d) == whole + first + second;
    ChainAppend(whole, first);
    ChainAppend(whole + first, second);
  }

  /** Byte r of word q of the digest, counted from the most significant one. */
  lemma {:induction false} DigestByteAt(w: seq<Word>, q: nat, r: nat)
    requires q < |w| && r < 4
    ensures WordsBytes(w)[4 * q + r] == LowByte(Right(w[q], 3 - r))
  {
    hide WordBytes;
    var n := |w| - 1;
    assert WordsBytes(w) == WordsBytes(w[..n]) + WordBytes(w[n]);
    if q < n {
      DigestByteAt(w[..n], q, r);
      assert 4 * q + r < 4 * n;
    } else {
      WordByteAt(w[n], r);
    }
  }

  lemma WordByteAt(w: Word, r: nat)
    requires r < 4
    ensures WordBytes(w)[r] == LowByte(Right(w, 3 - r))
  {
    hide Right, LowByte;
  }

  // ---------------------------------------------------- facts about padding

  /** The message comes back out of its padded form. */
  lemma UnpadPad(m: seq<byte>)
    requires |m| < TOO_LONG
    ensures Unpad(Pad(m)) == m
  {
    var p := Pad(m);
    assert p[|p| - 8..] == BigEndian(8 * |m|, 8);
    Powers();
    BigEndianValue(8 * |m|, 8);
  }

  /** Padding is injective, and adds exactly one or two final blocks: two when fewer than nine bytes are free. */
  lemma PadInjective(m: seq<byte>, m': seq<byte>)
    requires |m| < TOO_LONG && |m'| < TOO_LONG
    ensures Pad(m) == Pad(m') ==> m == m'
    ensures |Pad(m)| / BLOCK == |m| / BLOCK + if |m| % BLOCK < 56 then 1 else 2
  {
    UnpadPad(m);
    UnpadPad(m');
  }
}
