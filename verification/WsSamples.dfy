/** The examples of RFC 6455, section 5.7, and what receiving them leads to. */
module WsSamples {
  import opened Basics
  import opened Bytes
  import opened States
  import opened WsHeader
  import opened WsFraming

  const HELLO: seq<byte> := [0x48, 0x65, 0x6c, 0x6c, 0x6f]
  const KEY: Mask := [0x37, 0xfa, 0x21, 0x3d]

  /** "Hello" under the key of the examples. */
  lemma MaskedHello()
    ensures Masked(KEY, HELLO) == [0x7f, 0x9f, 0x4d, 0x51, 0x58]
  {
    hide XorByte;
    HelloByte0();
    HelloByte1();
    HelloByte2();
    HelloByte3();
    HelloByte4();
    assert Masked(KEY, HELLO)[0] == XorByte(0x48, 0x37) && Masked(KEY, HELLO)[1] == XorByte(0x65, 0xfa);
    assert Masked(KEY, HELLO)[2] == XorByte(0x6c, 0x21) && Masked(KEY, HELLO)[3] == XorByte(0x6c, 0x3d);
    assert Masked(KEY, HELLO)[4] == XorByte(0x6f, 0x37);
  }

  predicate IsXor(a: nat, b: nat, c: nat, k: nat) {
    XorBits(a, b, k) == c
  }

  lemma NoDigits()
    ensures IsXor(0, 0, 0, 0)
  {
  }

  /** One more binary digit at the end of each. */
  lemma Append(a: nat, b: nat, c: nat, k: nat, a': nat, b': nat, c': nat)
    requires IsXor(a, b, c, k)
    requires 0 <= a' - 2 * a <= 1 && 0 <= b' - 2 * b <= 1 && c' == 2 * c + if a' - 2 * a == b' - 2 * b then 0 else 1
    ensures IsXor(a', b', c', k + 1)
  {
  }

  lemma XorByteIs(a: byte, b: byte, c: byte)
    requires IsXor(a, b, c, 8)
    ensures XorByte(a, b) == c
  {
  }

  lemma HelloByte0()
    ensures XorByte(0x48, 0x37) == 0x7f
  {
    hide IsXor;
    NoDigits();
    Append(0, 0, 0, 0, 0, 0, 0);
    Append(0, 0, 0, 1, 1, 0, 1);
    Append(1, 0, 1, 2, 2, 1, 3);
    Append(2, 1, 3, 3, 4, 3, 7);
    Append(4, 3, 7, 4, 9, 6, 15);
    Append(9, 6, 15, 5, 18, 13, 31);
    Append(18, 13, 31, 6, 36, 27, 63);
    Append(36, 27, 63, 7, 72, 55, 127);
    XorByteIs(72, 55, 127);
  }

  lemma HelloByte1()
    ensures XorByte(0x65, 0xfa) == 0x9f
  {
    hide IsXor;
    NoDigits();
    Append(0, 0, 0, 0, 0, 1, 1);
    Append(0, 1, 1, 1, 1, 3, 2);
    Append(1, 3, 2, 2, 3, 7, 4);
    Append(3, 7, 4, 3, 6, 15, 9);
    Append(6, 15, 9, 4, 12, 31, 19);
    Append(12, 31, 19, 5, 25, 62, 39);
    Append(25, 62, 39, 6, 50, 125, 79);
    Append(50, 125, 79, 7, 101, 250, 159);
    XorByteIs(101, 250, 159);
  }

  lemma HelloByte2()
    ensures XorByte(0x6c, 0x21) == 0x4d
  {
    hide IsXor;
    NoDigits();
    Append(0, 0, 0, 0, 0, 0, 0);
    Append(0, 0, 0, 1, 1, 0, 1);
    Append(1, 0, 1, 2, 3, 1, 2);
    Append(3, 1, 2, 3, 6, 2, 4);
    Append(6, 2, 4, 4, 13, 4, 9);
    Append(13, 4, 9, 5, 27, 8, 19);
    Append(27, 8, 19, 6, 54, 16, 38);
    Append(54, 16, 38, 7, 108, 33, 77);
    XorByteIs(108, 33, 77);
  }

  lemma HelloByte3()
    ensures XorByte(0x6c, 0x3d) == 0x51
  {
    hide IsXor;
    NoDigits();
    Append(0, 0, 0, 0, 0, 0, 0);
    Append(0, 0, 0, 1, 1, 0, 1);
    Append(1, 0, 1, 2, 3, 1, 2);
    Append(3, 1, 2, 3, 6, 3, 5);
    Append(6, 3, 5, 4, 13, 7, 10);
    Append(13, 7, 10, 5, 27, 15, 20);
    Append(27, 15, 20, 6, 54, 30, 40);
    Append(54, 30, 40, 7, 108, 61, 81);
    XorByteIs(108, 61, 81);
  }

  lemma HelloByte4()
    ensures XorByte(0x6f, 0x37) == 0x58
  {
    hide IsXor;
    NoDigits();
    Append(0, 0, 0, 0, 0, 0, 0);
    Append(0, 0, 0, 1, 1, 0, 1);
    Append(1, 0, 1, 2, 3, 1, 2);
    Append(3, 1, 2, 3, 6, 3, 5);
    Append(6, 3, 5, 4, 13, 6, 11);
    Append(13, 6, 11, 5, 27, 13, 22);
    Append(27, 13, 22, 6, 55, 27, 44);
    Append(55, 27, 44, 7, 111, 55, 88);
    XorByteIs(111, 55, 88);
  }

  /** The text frames a server and a client send. */
  lemma TextFrames()
    ensures Frame(FIN_TEXT, None, HELLO) == [0x81, 0x05, 0x48, 0x65, 0x6c, 0x6c, 0x6f]
    ensures Frame(FIN_TEXT, Some(KEY), HELLO) == [0x81, 0x85, 0x37, 0xfa, 0x21, 0x3d, 0x7f, 0x9f, 0x4d, 0x51, 0x58]
  {
    hide Masked;
    MaskedHello();
  }

  /** The headers of a message of 256 bytes and of one of 64 kibibytes. */
  lemma LongHeaders()
    ensures Encoded(0x82, 256, None) == [0x82, 0x7e, 0x01, 0x00]
    ensures Encoded(0x82, 65536, None) == [0x82, 0x7f, 0x00, 0x00, 0x00, 0x00, 0x00, 0x01, 0x00, 0x00]
  {
    hide BigEndian;
    LengthBytes(256);
    LengthBytes(65536);
  }

  lemma LengthBytes(n: nat)
    requires n < 0x1_0000_0000
    ensures BigEndian(n, 2) == [ByteOf(n / 0x100), ByteOf(n)]
    ensures BigEndian(n, 8)
         == [0, 0, 0, 0, ByteOf(n / 0x100_0000), ByteOf(n / 0x1_0000), ByteOf(n / 0x100), ByteOf(n)]
  {
    Powers();
    BigEndianHalves(0, n, 4, 4);
    BigEndian4(0);
    BigEndian4(n);
  }

  /** A ping is answered with a pong frame with its payload, masked by a client; close and text are what they are. */
  lemma Answers(isClient: bool, p: seq<byte>, state: State, count: int, ptr: seq<byte>, closing: bool, sent: seq<byte>)
    ensures Reports(isClient, KEY, Arrived(0x89, HELLO), state, count, ptr, closing, sent) ==>
              state == PROTOCOL
              && sent == if isClient then [0x8a, 0x85, 0x37, 0xfa, 0x21, 0x3d, 0x7f, 0x9f, 0x4d, 0x51, 0x58]
                         else [0x8a, 0x05, 0x48, 0x65, 0x6c, 0x6c, 0x6f]
    ensures Reports(isClient, KEY, Arrived(0x88, p), state, count, ptr, closing, sent) ==>
              state == ECONNCLOSED && closing && sent == []
    ensures Reports(isClient, KEY, Arrived(0x81, p), state, count, ptr, closing, sent) ==> state == OK && sent == []
    ensures Reports(isClient, KEY, Arrived(0x82, p), state, count, ptr, closing, sent) ==> state == ENOIMPL && sent == []
  {
    hide Masked;
    MaskedHello();
  }
}
