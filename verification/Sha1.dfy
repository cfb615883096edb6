/**
 The streaming hash of sha1.c: a context that is fed in pieces, updated in
 place, and asked for its digest.  Every method is tied to a three-phase machine
 (Open, Closed, Broken); what a whole sequence of calls computes is proved about
 that machine in Sha1Runs.
 */
module Sha1 {
  import opened Bytes
  import opened Sha1Spec

  type uint32 = x: int | 0 <= x < 0x1_0000_0000

  const SHA_SUCCESS := 0
  const SHA_NULL := 1
  const SHA_STATE_ERROR := 3
  /** What the overflow branch stores; the source writes the literal 1, not its own "input too long" code 2. */
  const OVERFLOWED := 1

  /** What a context stands for between calls. */
  datatype Phase =
    | Open(data: seq<byte>)      // bytes absorbed since the last reset
    | Closed(data: seq<byte>)    // digest computed for these bytes
    | Broken(code: int)          // sticky error

  // The shift-and-or macro, expanded at its three uses.

  function CircularShift1(w: Word): (r: Word)
    ensures r == Rotate1(w)
  {
    (w << 1) | (w >> 31)
  }

  function CircularShift5(w: Word): (r: Word)
    ensures r == Rotate5(w)
  {
    (w << 5) | (w >> 27)
  }

  function CircularShift30(w: Word): (r: Word)
    ensures r == Rotate30(w)
  {
    (w << 30) | (w >> 2)
  }

  /** What SHA1Input leaves behind. */
  function AfterInput(p: Phase, m: seq<byte>): Phase {
    if m == [] then p else
    match p
    case Open(d) => if |d| + |m| < TOO_LONG then Open(d + m) else Broken(OVERFLOWED)
    case Closed(_) => Broken(SHA_STATE_ERROR)
    case Broken(_) => p
  }

  /** What SHA1Input answers: the call that overflows still reports success. */
  function InputReply(p: Phase, m: seq<byte>): int {
    if m == [] then SHA_SUCCESS else
    match p
    case Open(_) => SHA_SUCCESS
    case Closed(_) => SHA_STATE_ERROR
    case Broken(code) => code
  }

  function AfterResult(p: Phase): Phase {
    if p.Open? then Closed(p.data) else p
  }

  /** Pieces add up: only the concatenation of what was fed in matters. */
  lemma AfterInputAppend(p: Phase, m: seq<byte>, m': seq<byte>)
    ensures AfterInput(AfterInput(p, m), m') == AfterInput(p, m + m')
  {
    if p.Open? {
      assert p.data + m + m' == p.data + (m + m');
    }
    if m' == [] {
      assert m + m' == m;
    }
  }

  /** The split counter after one more byte; it wraps to zero exactly at 2^64 bits. */
  lemma CountByte(high: uint32, low: uint32, n: nat)
    requires high * 0x1_0000_0000 + low == 8 * n
    ensures var low' := (low + 8) % 0x1_0000_0000;
            var high' := if low' == 0 then (high + 1) % 0x1_0000_0000 else high;
            if n + 1 < TOO_LONG then high' * 0x1_0000_0000 + low' == 8 * (n + 1) && (low' != 0 || high' != 0)
            else low' == high' == 0
  {
    assert low % 8 == 0 by { assert low == 8 * (n - high * 0x2000_0000); }
  }

  /** The bit length in network order, from the two halves. */
  lemma LengthBytes(high: uint32, low: uint32, n: nat)
    requires high * 0x1_0000_0000 + low == 8 * n
    ensures BigEndian(8 * n, 8)
         == [ByteOf(high / 0x100_0000), ByteOf(high / 0x1_0000), ByteOf(high / 0x100), ByteOf(high),
             ByteOf(low / 0x100_0000), ByteOf(low / 0x1_0000), ByteOf(low / 0x100), ByteOf(low)]
  {
    hide BigEndian, ByteOf;
    Powers();
    BigEndianHalves(high, low, 4, 4);
    BigEndian4(high);
    BigEndian4(low);
  }

  class Context {
    var intermediateHash: array<Word>
    var lengthLow: uint32
    var lengthHigh: uint32
    var blockIndex: nat
    var messageBlock: array<byte>
    var computed: bool
    var corrupted: int
    ghost var phase: Phase

    ghost predicate Shape()
      reads this`intermediateHash, this`messageBlock
    {
      intermediateHash.Length == 5 && messageBlock.Length == BLOCK
    }

    ghost function HashWords(): Hash
      requires Shape()
      reads this`intermediateHash, this`messageBlock, intermediateHash
    {
      Hash(intermediateHash[0], intermediateHash[1], intermediateHash[2], intermediateHash[3], intermediateHash[4])
    }

    /** The buffer and chaining words hold d, all whole blocks of it compressed. */
    ghost predicate Absorbed(d: seq<byte>)
      requires Shape()
      reads this`blockIndex, this`intermediateHash, this`messageBlock, intermediateHash, messageBlock
    {
      && blockIndex == |d| % BLOCK
      && messageBlock[..blockIndex] == d[|d| - blockIndex..]
      && HashWords() == Chain(d[..|d| - blockIndex])
    }

    /** The split counter stands for the bit length of n bytes. */
    ghost predicate Counts(n: nat)
      reads this`lengthLow, this`lengthHigh
    {
      lengthHigh * 0x1_0000_0000 + lengthLow == 8 * n
    }

    ghost predicate Valid()
      reads this, intermediateHash, messageBlock
    {
      && Shape()
      && blockIndex < BLOCK
      && match phase
         case Open(d) =>
           && !computed && corrupted == SHA_SUCCESS && |d| < TOO_LONG
           && Counts(|d|) && Absorbed(d)
         case Closed(d) =>
           && computed && corrupted == SHA_SUCCESS && |d| < TOO_LONG && HashWords() == Chain(Pad(d))
           && messageBlock[..] == Zeros(BLOCK) && lengthLow == lengthHigh == 0
         case Broken(code) =>
           && corrupted == code && code == if computed then SHA_STATE_ERROR else OVERFLOWED
    }

    /** A zeroed context; it means nothing before Reset. */
    constructor ()
      ensures Shape() && fresh(intermediateHash) && fresh(messageBlock)
    {
      intermediateHash := new Word[5](_ => 0);
      messageBlock := new byte[64](_ => 0);
      lengthLow, lengthHigh, blockIndex := 0, 0, 0;
      computed, corrupted := false, 0;
      phase := Broken(0);
    }

    method Reset() returns (r: int)
      requires Shape()
      modifies this, intermediateHash
      ensures Valid() && phase == Open([]) && r == SHA_SUCCESS
      ensures intermediateHash == old(intermediateHash) && messageBlock == old(messageBlock)
    {
      hide Pad, Compress;
      lengthLow := 0;
      lengthHigh := 0;
      blockIndex := 0;
      intermediateHash[0] := 0x67452301;
      intermediateHash[1] := 0xEFCDAB89;
      intermediateHash[2] := 0x98BADCFE;
      intermediateHash[3] := 0x10325476;
      intermediateHash[4] := 0xC3D2E1F0;
      computed := false;
      corrupted := 0;
      phase := Open([]);
      return SHA_SUCCESS;
    }

    /** The word sequence of the buffered block: the first two loops of SHA1ProcessMessageBlock. */
    method ExpandBlock() returns (w: array<Word>)
      requires Shape()
      ensures fresh(w) && w.Length == 80
      ensures w[..] == Words(messageBlock[..])
    {
      hide Or, Xor, ToWord, Left8, Left16, Left24, Rotate1, CircularShift1;
      ghost var block := messageBlock[..];
      w := new Word[80];
      var t := 0;
      while t < 16
        invariant 0 <= t <= 16
        invariant forall j :: 0 <= j < t ==> w[j] == Schedule(block, j)
      {
        LoadWord(w, t);
        t := t + 1;
      }
      while t < 80
        invariant 16 <= t <= 80
        invariant forall j :: 0 <= j < t ==> w[j] == Schedule(block, j)
      {
        w[t] := CircularShift1(Xor(Xor(Xor(w[t - 3], w[t - 8]), w[t - 14]), w[t - 16]));
        t := t + 1;
      }
    }

    /** The four stores that make up word t. */
    method LoadWord(w: array<Word>, t: nat)
      requires Shape() && w.Length == 80 && t < 16
      modifies w
      ensures w[t] == Schedule(messageBlock[..], t)
      ensures forall j :: 0 <= j < 80 && j != t ==> w[j] == old(w[j])
    {
      hide Or, ToWord, Left8, Left16, Left24;
      w[t] := Left24(ToWord(messageBlock[t * 4]));
      w[t] := Or(w[t], Left16(ToWord(messageBlock[t * 4 + 1])));
      w[t] := Or(w[t], Left8(ToWord(messageBlock[t * 4 + 2])));
      w[t] := Or(w[t], ToWord(messageBlock[t * 4 + 3]));
    }

    /** The 80 rounds on the word buffers A to E: its four 20-step loops. */
    method Mix(w: array<Word>) returns (a: Word, b: Word, c: Word, d: Word, e: Word)
      requires Shape()
      requires w.Length == 80
      ensures Hash(a, b, c, d, e) == Rounds(HashWords(), w[..])
    {
      hide Rounds, Plus, Choose, Parity, Majority, Rotate5, Rotate30, CircularShift5, CircularShift30;
      var k := [0x5A827999 as Word, 0x6ED9EBA1, 0x8F1BBCDC, 0xCA62C1D6];
      ghost var words, h := w[..], HashWords();
      a := intermediateHash[0];
      b := intermediateHash[1];
      c := intermediateHash[2];
      d := intermediateHash[3];
      e := intermediateHash[4];
      var t := 0;
      RoundsNone(h, words);
      while t < 20
        invariant 0 <= t <= 20
        invariant Hash(a, b, c, d, e) == Rounds(h, words[..t])
      {
        RoundsNext(h, words, t);
        var temp := Plus(Plus(Plus(Plus(CircularShift5(a), Choose(b, c, d)), e), w[t]), k[0]);
        e := d;
        d := c;
        c := CircularShift30(b);
        b := a;
        a := temp;
        t := t + 1;
      }
      while t < 40
        invariant 20 <= t <= 40
        invariant Hash(a, b, c, d, e) == Rounds(h, words[..t])
      {
        RoundsNext(h, words, t);
        var temp := Plus(Plus(Plus(Plus(CircularShift5(a), Parity(b, c, d)), e), w[t]), k[1]);
        e := d;
        d := c;
        c := CircularShift30(b);
        b := a;
        a := temp;
        t := t + 1;
      }
      while t < 60
        invariant 40 <= t <= 60
        invariant Hash(a, b, c, d, e) == Rounds(h, words[..t])
      {
        RoundsNext(h, words, t);
        var temp := Plus(Plus(Plus(Plus(CircularShift5(a), Majority(b, c, d)), e), w[t]), k[2]);
        e := d;
        d := c;
        c := CircularShift30(b);
        b := a;
        a := temp;
        t := t + 1;
      }
      while t < 80
        invariant 60 <= t <= 80
        invariant Hash(a, b, c, d, e) == Rounds(h, words[..t])
      {
        RoundsNext(h, words, t);
        var temp := Plus(Plus(Plus(Plus(CircularShift5(a), Parity(b, c, d)), e), w[t]), k[3]);
        e := d;
        d := c;
        c := CircularShift30(b);
        b := a;
        a := temp;
        t := t + 1;
      }
      assert words[..t] == words;
    }

    /** Compresses the block buffer into the chaining words. */
    method ProcessMessageBlock()
      requires Shape()
      modifies this`blockIndex, intermediateHash
      ensures HashWords() == Compress(old(HashWords()), messageBlock[..])
      ensures blockIndex == 0
    {
      hide Plus, Rounds, Words;
      var w := ExpandBlock();
      var a, b, c, d, e := Mix(w);
      intermediateHash[0] := Plus(intermediateHash[0], a);
      intermediateHash[1] := Plus(intermediateHash[1], b);
      intermediateHash[2] := Plus(intermediateHash[2], c);
      intermediateHash[3] := Plus(intermediateHash[3], d);
      intermediateHash[4] := Plus(intermediateHash[4], e);
      blockIndex := 0;
    }

    /** The three "rest of the block is zero" loops of SHA1PadMessage. */
    method ZeroUpTo(limit: nat)
      requires Shape() && blockIndex <= limit <= BLOCK
      modifies this`blockIndex, messageBlock
      ensures blockIndex == limit
      ensures messageBlock[..limit] == old(messageBlock[..blockIndex]) + Zeros(limit - old(blockIndex))
    {
      ghost var n, kept := blockIndex, messageBlock[..blockIndex];
      while blockIndex < limit
        invariant n <= blockIndex <= limit
        invariant messageBlock[..blockIndex] == kept + Zeros(blockIndex - n)
      {
        messageBlock[blockIndex] := 0;
        blockIndex := blockIndex + 1;
      }
    }

    /** Completes the buffered tail with padding and compresses the final one or two blocks. */
    method PadMessage()
      requires Valid() && phase.Open?
      modifies this`blockIndex, intermediateHash, messageBlock
      ensures HashWords() == Chain(Pad(phase.data)) && blockIndex == 0
    {
      hide Compress, Chain, Pad, BigEndian, Counts, Absorbed, HashWords;
      ghost var d, n := phase.data, blockIndex;
      AbsorbedParts(d);
      ghost var whole, tail := d[..|d| - n], d[|d| - n..];
      assert d == whole + tail;
      if blockIndex > 55 {
        PadTwoBlocks(whole, tail);
        PutByte(0x80);
        FillAndProcess(tail + [0x80]);
        ZeroUpTo(56);
        assert messageBlock[..56] == Zeros(56);
      } else {
        PadOneBlock(whole, tail);
        PutByte(0x80);
        ZeroUpTo(56);
        assert messageBlock[..56] == tail + [0x80] + Zeros(55 - n);
      }
      StoreLength(|d|);
      ProcessMessageBlock();
    }

    /** The rest of the block is zero, and it is compressed. */
    method FillAndProcess(ghost start: seq<byte>)
      requires Shape() && blockIndex <= BLOCK && messageBlock[..blockIndex] == start
      modifies this`blockIndex, intermediateHash, messageBlock
      ensures |start| <= BLOCK && blockIndex == 0
      ensures HashWords() == Compress(old(HashWords()), start + Zeros(BLOCK - |start|))
    {
      hide Compress, HashWords;
      ZeroUpTo(64);
      assert messageBlock[..] == messageBlock[..64];
      ProcessMessageBlock();
    }

    /** The message length as the last eight octets of the block. */
    method StoreLength(ghost n: nat)
      requires Shape() && Counts(n)
      modifies messageBlock
      ensures messageBlock[..] == old(messageBlock[..56]) + BigEndian(8 * n, 8)
    {
      hide BigEndian, ByteOf;
      LengthBytes(lengthHigh, lengthLow, n);
      messageBlock[56] := ByteOf(lengthHigh / 0x100_0000);
      messageBlock[57] := ByteOf(lengthHigh / 0x1_0000);
      messageBlock[58] := ByteOf(lengthHigh / 0x100);
      messageBlock[59] := ByteOf(lengthHigh);
      messageBlock[60] := ByteOf(lengthLow / 0x100_0000);
      messageBlock[61] := ByteOf(lengthLow / 0x1_0000);
      messageBlock[62] := ByteOf(lengthLow / 0x100);
      messageBlock[63] := ByteOf(lengthLow);
    }

    /** The first-time branch of SHA1Result: pad, then clear the block and the length. */
    method Finish()
      requires Valid() && phase.Open?
      modifies this, intermediateHash, messageBlock
      ensures Valid() && phase == Closed(old(phase).data)
      ensures intermediateHash == old(intermediateHash) && messageBlock == old(messageBlock)
    {
      hide Pad, Compress, Chain, HashWords, Absorbed;
      PadMessage();
      var i := 0;
      while i < 64
        invariant 0 <= i <= 64
        invariant forall k :: 0 <= k < i ==> messageBlock[k] == 0
        modifies messageBlock
      {
        messageBlock[i] := 0;
        i := i + 1;
      }
      assert messageBlock[..] == Zeros(64);
      lengthLow := 0;
      lengthHigh := 0;
      computed := true;
      phase := Closed(phase.data);
    }

    method Result(digest: array?<byte>) returns (r: int)
      requires Valid()
      requires digest != null ==> digest != messageBlock && digest.Length >= 20
      modifies this, intermediateHash, messageBlock, digest
      ensures Valid() && intermediateHash == old(intermediateHash) && messageBlock == old(messageBlock)
      ensures digest == null ==> r == SHA_NULL && phase == old(phase)
      ensures digest != null ==> phase == AfterResult(old(phase))
      ensures digest != null && old(phase).Broken? ==> r == old(phase).code && digest[..] == old(digest[..])
      ensures digest != null && !old(phase).Broken? ==>
                r == SHA_SUCCESS && digest[..] == Digest(old(phase).data) + old(digest[20..])
    {
      hide Pad, Compress, Chain, WordsBytes;
      if digest == null {
        return SHA_NULL;
      }
      if corrupted != 0 {
        return corrupted;
      }
      if !computed {
        Finish();
      }
      CopyDigest(digest);
      return SHA_SUCCESS;
    }

    /** The loop that takes the digest out of the chaining words, byte by byte. */
    method CopyDigest(digest: array<byte>)
      requires Shape() && digest.Length >= 20 && digest != messageBlock
      modifies digest
      ensures digest[..] == WordsBytes(ChainWords(HashWords())) + old(digest[20..])
    {
      hide Right, LowByte, WordBytes, WordsBytes, ChainWords;
      ghost var w := ChainWords(HashWords());
      assert w == intermediateHash[..] by { ChainArray(); }
      var i := 0;
      while i < 20
        invariant 0 <= i <= 20
        invariant forall k :: 0 <= k < i ==> digest[k] == WordsBytes(w)[k]
        invariant forall k :: 20 <= k < digest.Length ==> digest[k] == old(digest[k])
      {
        DigestByteAt(w, i / 4, i % 4);
        var octet := LowByte(Right(intermediateHash[i / 4], 3 - i % 4));
        assert octet == WordsBytes(w)[i];
        digest[i] := octet;
        i := i + 1;
      }
    }

    lemma ChainArray()
      requires Shape()
      ensures ChainWords(HashWords()) == intermediateHash[..]
    {
    }

    /** The block buffer holds what follows whole, and is compressed once it is full. */
    method ProcessIfFull(ghost whole: seq<byte>)
      requires Shape() && blockIndex <= BLOCK && |whole| % BLOCK == 0 && HashWords() == Chain(whole)
      modifies this`blockIndex, intermediateHash
      ensures blockIndex < BLOCK && Absorbed(whole + old(messageBlock[..blockIndex]))
    {
      hide Compress, Chain;
      ghost var d := whole + messageBlock[..blockIndex];
      if blockIndex == 64 {
        assert messageBlock[..64] == messageBlock[..];
        ChainAppend(whole, messageBlock[..]);
        ProcessMessageBlock();
        assert d[..|d| - 0] == d;
      } else {
        WholeBlocks(whole, messageBlock[..blockIndex]);
        assert d[..|d| - blockIndex] == whole;
      }
    }

    /** Counts one more byte; the counter wraps to zero exactly at 2^64 bits. */
    method CountBits(ghost n: nat)
      requires Counts(n) && n < TOO_LONG
      modifies this`lengthLow, this`lengthHigh, this`corrupted
      ensures n + 1 < TOO_LONG ==> Counts(n + 1) && corrupted == old(corrupted)
      ensures n + 1 == TOO_LONG ==> corrupted == OVERFLOWED
    {
      CountByte(lengthHigh, lengthLow, n);
      lengthLow := (lengthLow + 8) % 0x1_0000_0000;
      if lengthLow == 0 {
        lengthHigh := (lengthHigh + 1) % 0x1_0000_0000;
        if lengthHigh == 0 {
          corrupted := OVERFLOWED;
        }
      }
    }

    /** The buffer and the chaining words, by what has been absorbed. */
    lemma AbsorbedParts(d: seq<byte>)
      requires Shape() && Absorbed(d)
      ensures blockIndex <= |d| && (|d| - blockIndex) % BLOCK == 0
      ensures messageBlock[..blockIndex] == d[|d| - blockIndex..] && HashWords() == Chain(d[..|d| - blockIndex])
    {
      hide Chain;
    }

    /** One more byte in the block buffer. */
    method PutByte(b: byte)
      requires Shape() && blockIndex < BLOCK
      modifies this`blockIndex, messageBlock
      ensures blockIndex == old(blockIndex) + 1
      ensures messageBlock[..blockIndex] == old(messageBlock[..blockIndex]) + [b]
    {
      messageBlock[blockIndex] := b;
      blockIndex := blockIndex + 1;
    }

    /** One pass of the SHA1Input loop. */
    method AbsorbByte(b: byte)
      requires Valid() && phase.Open?
      modifies this, intermediateHash, messageBlock
      ensures Valid() && phase == AfterInput(old(phase), [b])
      ensures intermediateHash == old(intermediateHash) && messageBlock == old(messageBlock)
    {
      hide Pad, Compress, Chain, Counts, Absorbed, HashWords;
      ghost var d, n := phase.data, blockIndex;
      AbsorbedParts(d);
      ghost var whole := d[..|d| - n];
      assert d + [b] == whole + (d[|d| - n..] + [b]);
      PutByte(b);
      CountBits(|d|);
      ProcessIfFull(whole);
      phase := AfterInput(phase, [b]);
    }

    method Input(message: array?<byte>, length: nat) returns (r: int)
      requires Valid()
      requires message != null ==> length <= message.Length
      requires message != messageBlock && message as object? != intermediateHash
      modifies this, intermediateHash, messageBlock
      ensures Valid() && intermediateHash == old(intermediateHash) && messageBlock == old(messageBlock)
      ensures message == null ==> phase == old(phase) && r == if length == 0 then SHA_SUCCESS else SHA_NULL
      ensures message != null ==> phase == AfterInput(old(phase), message[..length])
      ensures message != null ==> r == InputReply(old(phase), message[..length])
    {
      hide Pad, Compress, Chain, Counts, Absorbed;
      if length == 0 {
        return SHA_SUCCESS;
      }
      if message == null {
        return SHA_NULL;
      }
      if computed {
        corrupted := SHA_STATE_ERROR;
        phase := Broken(SHA_STATE_ERROR);
        return SHA_STATE_ERROR;
      }
      if corrupted != 0 {
        return corrupted;
      }
      ghost var m := message[..length];
      var left, at := length, 0;
      while left > 0 && corrupted == 0
        invariant Valid() && intermediateHash == old(intermediateHash) && messageBlock == old(messageBlock)
        invariant at + left == length
        invariant message[..length] == m && phase == AfterInput(old(phase), m[..at])
        invariant corrupted != 0 ==> phase == AfterInput(old(phase), m)
        decreases left
      {
        left := left - 1;
        assert message[at] == m[at];
        assert m[..at + 1] == m[..at] + [m[at]];
        AfterInputAppend(old(phase), m[..at], [m[at]]);
        AbsorbByte(message[at]);
        at := at + 1;
        AfterInputAppend(old(phase), m[..at], m[at..]);
        assert m[..at] + m[at..] == m;
      }
      assert m[..length] == m;
      return SHA_SUCCESS;
    }
  }
}
