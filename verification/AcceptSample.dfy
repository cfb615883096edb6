/** The handshake answer on the sample of RFC 6455: two blocks, computed like the one of Sha1Vectors. */
module AcceptSample {
  import opened Bytes
  import opened Sha1Spec
  import opened Sha1Vectors
  import Base64
  import AcceptKey

  // The first block of the key of RFC 6455, section 1.3, and the GUID.

  function KeyRow0(): (r: seq<byte>) ensures |r| == 16 { [0x64, 0x47, 0x68, 0x6c, 0x49, 0x48, 0x4e, 0x68, 0x62, 0x58, 0x42, 0x73, 0x5a, 0x53, 0x42, 0x75] }
  function KeyRow1(): (r: seq<byte>) ensures |r| == 16 { [0x62, 0x32, 0x35, 0x6a, 0x5a, 0x51, 0x3d, 0x3d, 0x32, 0x35, 0x38, 0x45, 0x41, 0x46, 0x41, 0x35] }
  function KeyRow2(): (r: seq<byte>) ensures |r| == 16 { [0x2d, 0x45, 0x39, 0x31, 0x34, 0x2d, 0x34, 0x37, 0x44, 0x41, 0x2d, 0x39, 0x35, 0x43, 0x41, 0x2d] }
  function KeyRow3(): (r: seq<byte>) ensures |r| == 16 { [0x43, 0x35, 0x41, 0x42, 0x30, 0x44, 0x43, 0x38, 0x35, 0x42, 0x31, 0x31, 0x80, 0x00, 0x00, 0x00] }

  function KeyBlock(): (b: seq<byte>)
    ensures |b| == BLOCK
  {
    KeyRow0() + KeyRow1() + KeyRow2() + KeyRow3()
  }

  function KeyW0(): Eight { Eight(0x6447686C, 0x49484E68, 0x62584273, 0x5A534275, 0x6232356A, 0x5A513D3D, 0x32353845, 0x41464135) }
  function KeyW1(): Eight { Eight(0x2D453931, 0x342D3437, 0x44412D39, 0x3543412D, 0x43354142, 0x30444338, 0x35423131, 0x80000000) }
  function KeyW2(): Eight { Eight(0x363CA02C, 0x24E81236, 0x8856B441, 0x06FB3C92, 0x6FB4BCB6, 0x460B16E3, 0x599219AE, 0x35BF9369) }
  function KeyW3(): Eight { Eight(0x3267458E, 0xF828FD04, 0x753A96A7, 0x6336F612, 0xC3D66383, 0x06EB86F9, 0x73B4FD42, 0xA503C5B8) }
  function KeyW4(): Eight { Eight(0x15CDAE35, 0x531E5DC5, 0x6FB6B7D0, 0x6C16E4AC, 0x4DDD36BD, 0x35D36946, 0xE8AE8B9C, 0x4A933AD0) }
  function KeyW5(): Eight { Eight(0xCE8628B4, 0x415DBA9E, 0x2792F049, 0x8E9B79E7, 0x79C425C5, 0x6353B49D, 0x00994218, 0x8A950ED1) }
  function KeyW6(): Eight { Eight(0xAF5D0B99, 0xFD9883DE, 0x1ED8FFEB, 0xF007FF28, 0x425E3674, 0x059631C0, 0xAD6C3C31, 0x860B71D7) }
  function KeyW7(): Eight { Eight(0x87BFC548, 0x3E64F92D, 0x8D0AB761, 0x34E1EE35, 0x0ACF5108, 0xC2B479DA, 0x6C93370A, 0xF7935BA1) }
  function KeyW8(): Eight { Eight(0xE91C91C1, 0xBED165A2, 0x4C3E4ABE, 0x50D96238, 0xB6587DDE, 0x1A2EE6E6, 0x2D335896, 0xF3495D0B) }
  function KeyW9(): Eight { Eight(0xF30E0A1D, 0x32CE5459, 0x7165E3B8, 0xAB05FF94, 0xC5949F0B, 0xBCD84E4A, 0x07720392, 0xFF3FF806) }

  function KeyS0(): Hash { Hash(0x67452301, 0xEFCDAB89, 0x98BADCFE, 0x10325476, 0xC3D2E1F0) }
  function KeyS1(): Hash { Hash(0x2E0CE601, 0x73553E84, 0x5CC82E5A, 0xB7631F04, 0x14F80E6B) }
  function KeyS2(): Hash { Hash(0xA004C468, 0xE922CC9D, 0xAB86825B, 0xD86F6CAF, 0x8D33AE61) }
  function KeyS3(): Hash { Hash(0x250E26EF, 0xBEAFD554, 0xB44BC2D5, 0xD4611C28, 0x0246AE5F) }
  function KeyS4(): Hash { Hash(0xA6680A1F, 0xB7DABC8B, 0x4206D8F9, 0xC6AEC70D, 0x95C7DF60) }
  function KeyS5(): Hash { Hash(0x2BA2C83E, 0xD0869081, 0x1A1D8209, 0xD3334889, 0x2779E4F2) }
  function KeyS6(): Hash { Hash(0xABE1748A, 0xDEE4B7A8, 0x5CBFCCD3, 0x97D7CD14, 0xDB71A8F5) }
  function KeyS7(): Hash { Hash(0x7E1242F2, 0x50C9104C, 0x131822B1, 0x49B1A4E5, 0x4439FD9C) }
  function KeyS8(): Hash { Hash(0x685E2FF6, 0x840054D3, 0xE43C0363, 0x3350802E, 0x921CB616) }
  function KeyS9(): Hash { Hash(0x7E65E044, 0x80D59773, 0x81CE06DF, 0xA59B8126, 0x33E1963B) }
  function KeyS10(): Hash { Hash(0xF48A5426, 0x835995E1, 0x25C11EFB, 0x4A45C402, 0x9A73C2F2) }

  lemma KeyLoads()
    ensures Load(0x64, 0x47, 0x68, 0x6c) == 0x6447686C
    ensures Load(0x49, 0x48, 0x4e, 0x68) == 0x49484E68
    ensures Load(0x62, 0x58, 0x42, 0x73) == 0x62584273
    ensures Load(0x5a, 0x53, 0x42, 0x75) == 0x5A534275
    ensures Load(0x62, 0x32, 0x35, 0x6a) == 0x6232356A
    ensures Load(0x5a, 0x51, 0x3d, 0x3d) == 0x5A513D3D
    ensures Load(0x32, 0x35, 0x38, 0x45) == 0x32353845
    ensures Load(0x41, 0x46, 0x41, 0x35) == 0x41464135
    ensures Load(0x2d, 0x45, 0x39, 0x31) == 0x2D453931
    ensures Load(0x34, 0x2d, 0x34, 0x37) == 0x342D3437
    ensures Load(0x44, 0x41, 0x2d, 0x39) == 0x44412D39
    ensures Load(0x35, 0x43, 0x41, 0x2d) == 0x3543412D
    ensures Load(0x43, 0x35, 0x41, 0x42) == 0x43354142
    ensures Load(0x30, 0x44, 0x43, 0x38) == 0x30444338
    ensures Load(0x35, 0x42, 0x31, 0x31) == 0x35423131
    ensures Load(0x80, 0x00, 0x00, 0x00) == 0x80000000
  {
  }

  lemma KeyWords1()
    ensures EightAre(KeyBlock(), 0, KeyW0()) && EightAre(KeyBlock(), 8, KeyW1())
  {
    hide EightAre, FourAre, Load;
    KeyLoads();
    Loaded(KeyBlock(), 0, 0,
           0x64, 0x47, 0x68, 0x6c, 0x49, 0x48, 0x4e, 0x68, 0x62, 0x58, 0x42, 0x73, 0x5a, 0x53, 0x42, 0x75);
    Loaded(KeyBlock(), 4, 16,
           0x62, 0x32, 0x35, 0x6a, 0x5a, 0x51, 0x3d, 0x3d, 0x32, 0x35, 0x38, 0x45, 0x41, 0x46, 0x41, 0x35);
    Loaded(KeyBlock(), 8, 32,
           0x2d, 0x45, 0x39, 0x31, 0x34, 0x2d, 0x34, 0x37, 0x44, 0x41, 0x2d, 0x39, 0x35, 0x43, 0x41, 0x2d);
    Loaded(KeyBlock(), 12, 48,
           0x43, 0x35, 0x41, 0x42, 0x30, 0x44, 0x43, 0x38, 0x35, 0x42, 0x31, 0x31, 0x80, 0x00, 0x00, 0x00);
    TwoFours(KeyBlock(), 0, KeyW0());
    TwoFours(KeyBlock(), 8, KeyW1());
  }

  lemma KeyWords2()
    ensures EightAre(KeyBlock(), 16, KeyW2()) && EightAre(KeyBlock(), 24, KeyW3())
  {
    hide EightAre, KeyBlock;
    KeyWords1();
    NextEight(KeyBlock(), 16, KeyW0(), KeyW1());
    NextEight(KeyBlock(), 24, KeyW1(), KeyW2());
  }

  lemma KeyWords3()
    ensures EightAre(KeyBlock(), 32, KeyW4()) && EightAre(KeyBlock(), 40, KeyW5())
  {
    hide EightAre, KeyBlock;
    KeyWords2();
    NextEight(KeyBlock(), 32, KeyW2(), KeyW3());
    NextEight(KeyBlock(), 40, KeyW3(), KeyW4());
  }

  lemma KeyWords4()
    ensures EightAre(KeyBlock(), 48, KeyW6()) && EightAre(KeyBlock(), 56, KeyW7())
  {
    hide EightAre, KeyBlock;
    KeyWords3();
    NextEight(KeyBlock(), 48, KeyW4(), KeyW5());
    NextEight(KeyBlock(), 56, KeyW5(), KeyW6());
  }

  lemma KeyWords5()
    ensures EightAre(KeyBlock(), 64, KeyW8()) && EightAre(KeyBlock(), 72, KeyW9())
  {
    hide EightAre, KeyBlock;
    KeyWords4();
    NextEight(KeyBlock(), 64, KeyW6(), KeyW7());
    NextEight(KeyBlock(), 72, KeyW7(), KeyW8());
  }

  lemma KeyRounds1()
    ensures Rounds(KeyS0(), Words(KeyBlock())[..8]) == KeyS1()
  {
    hide Rounds, Words, EightAre, KeyBlock;
    RoundsNone(KeyS0(), Words(KeyBlock()));
    KeyWords1();
    NextRounds(KeyBlock(), KeyS0(), 0, KeyS0(), KeyW0());
  }

  lemma KeyRounds2()
    ensures Rounds(KeyS0(), Words(KeyBlock())[..16]) == KeyS2()
  {
    hide Rounds, Words, EightAre, KeyBlock;
    KeyRounds1();
    KeyWords1();
    NextRounds(KeyBlock(), KeyS0(), 8, KeyS1(), KeyW1());
  }

  lemma KeyRounds3()
    ensures Rounds(KeyS0(), Words(KeyBlock())[..24]) == KeyS3()
  {
    hide Rounds, Words, EightAre, KeyBlock;
    KeyRounds2();
    KeyWords2();
    NextRounds(KeyBlock(), KeyS0(), 16, KeyS2(), KeyW2());
  }

  lemma KeyRounds4()
    ensures Rounds(KeyS0(), Words(KeyBlock())[..32]) == KeyS4()
  {
    hide Rounds, Words, EightAre, KeyBlock;
    KeyRounds3();
    KeyWords2();
    NextRounds(KeyBlock(), KeyS0(), 24, KeyS3(), KeyW3());
  }

  lemma KeyRounds5()
    ensures Rounds(KeyS0(), Words(KeyBlock())[..40]) == KeyS5()
  {
    hide Rounds, Words, EightAre, KeyBlock;
    KeyRounds4();
    KeyWords3();
    NextRounds(KeyBlock(), KeyS0(), 32, KeyS4(), KeyW4());
  }

  lemma KeyRounds6()
    ensures Rounds(KeyS0(), Words(KeyBlock())[..48]) == KeyS6()
  {
    hide Rounds, Words, EightAre, KeyBlock;
    KeyRounds5();
    KeyWords3();
    NextRounds(KeyBlock(), KeyS0(), 40, KeyS5(), KeyW5());
  }

  lemma KeyRounds7()
    ensures Rounds(KeyS0(), Words(KeyBlock())[..56]) == KeyS7()
  {
    hide Rounds, Words, EightAre, KeyBlock;
    KeyRounds6();
    KeyWords4();
    NextRounds(KeyBlock(), KeyS0(), 48, KeyS6(), KeyW6());
  }

  lemma KeyRounds8()
    ensures Rounds(KeyS0(), Words(KeyBlock())[..64]) == KeyS8()
  {
    hide Rounds, Words, EightAre, KeyBlock;
    KeyRounds7();
    KeyWords4();
    NextRounds(KeyBlock(), KeyS0(), 56, KeyS7(), KeyW7());
  }

  lemma KeyRounds9()
    ensures Rounds(KeyS0(), Words(KeyBlock())[..72]) == KeyS9()
  {
    hide Rounds, Words, EightAre, KeyBlock;
    KeyRounds8();
    KeyWords5();
    NextRounds(KeyBlock(), KeyS0(), 64, KeyS8(), KeyW8());
  }

  lemma KeyRounds10()
    ensures Rounds(KeyS0(), Words(KeyBlock())[..80]) == KeyS10()
  {
    hide Rounds, Words, EightAre, KeyBlock;
    KeyRounds9();
    KeyWords5();
    NextRounds(KeyBlock(), KeyS0(), 72, KeyS9(), KeyW9());
  }

  lemma KeyCompressed()
    ensures Compress(KeyS0(), KeyBlock()) == Hash(0x5BCF7727, 0x7327416A, 0xBE7BFBF9, 0x5A781878, 0x5E46A4E2)
  {
    hide Rounds, KeyBlock;
    KeyRounds10();
    assert Words(KeyBlock())[..80] == Words(KeyBlock());
  }

  // The second block: nothing but the length.

  function EndRow0(): (r: seq<byte>) ensures |r| == 16 { [0x00, 0x00, 0x00, 0x00, 0x00, 0x00, 0x00, 0x00, 0x00, 0x00, 0x00, 0x00, 0x00, 0x00, 0x00, 0x00] }
  function EndRow1(): (r: seq<byte>) ensures |r| == 16 { [0x00, 0x00, 0x00, 0x00, 0x00, 0x00, 0x00, 0x00, 0x00, 0x00, 0x00, 0x00, 0x00, 0x00, 0x00, 0x00] }
  function EndRow2(): (r: seq<byte>) ensures |r| == 16 { [0x00, 0x00, 0x00, 0x00, 0x00, 0x00, 0x00, 0x00, 0x00, 0x00, 0x00, 0x00, 0x00, 0x00, 0x00, 0x00] }
  function EndRow3(): (r: seq<byte>) ensures |r| == 16 { [0x00, 0x00, 0x00, 0x00, 0x00, 0x00, 0x00, 0x00, 0x00, 0x00, 0x00, 0x00, 0x00, 0x00, 0x01, 0xe0] }

  function EndBlock(): (b: seq<byte>)
    ensures |b| == BLOCK
  {
    EndRow0() + EndRow1() + EndRow2() + EndRow3()
  }

  function EndW0(): Eight { Eight(0x00000000, 0x00000000, 0x00000000, 0x00000000, 0x00000000, 0x00000000, 0x00000000, 0x00000000) }
  function EndW1(): Eight { Eight(0x00000000, 0x00000000, 0x00000000, 0x00000000, 0x00000000, 0x00000000, 0x00000000, 0x000001E0) }
  function EndW2(): Eight { Eight(0x00000000, 0x00000000, 0x000003C0, 0x00000000, 0x00000000, 0x00000780, 0x00000000, 0x000003C0) }
  function EndW3(): Eight { Eight(0x00000F00, 0x00000000, 0x00000000, 0x00001E00, 0x00000000, 0x00000CC0, 0x00003C00, 0x00000440) }
  function EndW4(): Eight { Eight(0x00000000, 0x00007800, 0x00000F00, 0x00003300, 0x0000F000, 0x00000F00, 0x00000000, 0x0001EF00) }
  function EndW5(): Eight { Eight(0x00000000, 0x0000CC00, 0x0003C000, 0x00004380, 0x00000000, 0x00078F00, 0x0000FF00, 0x00032680) }
  function EndW6(): Eight { Eight(0x000F0000, 0x0000F000, 0x00003300, 0x001EFF00, 0x00000000, 0x000CB800, 0x003C0000, 0x00040B00) }
  function EndW7(): Eight { Eight(0x0000F000, 0x0078FF00, 0x000FF000, 0x00338700, 0x00F00000, 0x000FC300, 0x0000F000, 0x01EFBB00) }
  function EndW8(): Eight { Eight(0x00000000, 0x00CC0000, 0x03C0F000, 0x00438000, 0x00000000, 0x078F0000, 0x00FF0000, 0x03269E00) }
  function EndW9(): Eight { Eight(0x0F000000, 0x00F0F000, 0x00333C00, 0x1EFF8800, 0x00000000, 0x0CB88800, 0x3C00F000, 0x040A4A00) }

  function EndS0(): Hash { Hash(0x5BCF7727, 0x7327416A, 0xBE7BFBF9, 0x5A781878, 0x5E46A4E2) }
  function EndS1(): Hash { Hash(0x25C018BE, 0xB3BBCAFE, 0xE4E97BEE, 0xB90F74BC, 0xC5615548) }
  function EndS2(): Hash { Hash(0x986DF268, 0x990B7BE7, 0xAB50FCE7, 0x195DB4B7, 0x4941806B) }
  function EndS3(): Hash { Hash(0x53C73650, 0x3E5179E7, 0x103EF3E6, 0xC48C56CA, 0x4A8022D4) }
  function EndS4(): Hash { Hash(0x3CF6EB58, 0xF4DDD7B7, 0xC90FB815, 0xBD5F2D4F, 0xE4C9F7DB) }
  function EndS5(): Hash { Hash(0x6F698F1A, 0xC6FF0CD3, 0xDE5AB7BC, 0x5F6F3CBB, 0x1DA48A85) }
  function EndS6(): Hash { Hash(0xA3EF857E, 0xC8CDA3DA, 0xCEF6480E, 0xFF1EF4D7, 0xC7A4D2B3) }
  function EndS7(): Hash { Hash(0xA1B68141, 0x660DD0B1, 0x0B1CEF5E, 0xE795018D, 0xD7F8A8F6) }
  function EndS8(): Hash { Hash(0xA5937450, 0xD5EF1ED7, 0xC444CBE3, 0xDDD22788, 0x558467C6) }
  function EndS9(): Hash { Hash(0xC90888CA, 0xF6D1AFEE, 0x6FCE9FE5, 0x538D8F6E, 0x025E9447) }
  function EndS10(): Hash { Hash(0x57AAD805, 0x4D3B0DAC, 0xD27A4A0D, 0x74C040CD, 0x54782008) }

  lemma EndLoads()
    ensures Load(0x00, 0x00, 0x00, 0x00) == 0x00000000
    ensures Load(0x00, 0x00, 0x00, 0x00) == 0x00000000
    ensures Load(0x00, 0x00, 0x00, 0x00) == 0x00000000
    ensures Load(0x00, 0x00, 0x00, 0x00) == 0x00000000
    ensures Load(0x00, 0x00, 0x00, 0x00) == 0x00000000
    ensures Load(0x00, 0x00, 0x00, 0x00) == 0x00000000
    ensures Load(0x00, 0x00, 0x00, 0x00) == 0x00000000
    ensures Load(0x00, 0x00, 0x00, 0x00) == 0x00000000
    ensures Load(0x00, 0x00, 0x00, 0x00) == 0x00000000
    ensures Load(0x00, 0x00, 0x00, 0x00) == 0x00000000
    ensures Load(0x00, 0x00, 0x00, 0x00) == 0x00000000
    ensures Load(0x00, 0x00, 0x00, 0x00) == 0x00000000
    ensures Load(0x00, 0x00, 0x00, 0x00) == 0x00000000
    ensures Load(0x00, 0x00, 0x00, 0x00) == 0x00000000
    ensures Load(0x00, 0x00, 0x00, 0x00) == 0x00000000
    ensures Load(0x00, 0x00, 0x01, 0xe0) == 0x000001E0
  {
  }

  lemma EndWords1()
    ensures EightAre(EndBlock(), 0, EndW0()) && EightAre(EndBlock(), 8, EndW1())
  {
    hide EightAre, FourAre, Load;
    EndLoads();
    Loaded(EndBlock(), 0, 0,
           0x00, 0x00, 0x00, 0x00, 0x00, 0x00, 0x00, 0x00, 0x00, 0x00, 0x00, 0x00, 0x00, 0x00, 0x00, 0x00);
    Loaded(EndBlock(), 4, 16,
           0x00, 0x00, 0x00, 0x00, 0x00, 0x00, 0x00, 0x00, 0x00, 0x00, 0x00, 0x00, 0x00, 0x00, 0x00, 0x00);
    Loaded(EndBlock(), 8, 32,
           0x00, 0x00, 0x00, 0x00, 0x00, 0x00, 0x00, 0x00, 0x00, 0x00, 0x00, 0x00, 0x00, 0x00, 0x00, 0x00);
    Loaded(EndBlock(), 12, 48,
           0x00, 0x00, 0x00, 0x00, 0x00, 0x00, 0x00, 0x00, 0x00, 0x00, 0x00, 0x00, 0x00, 0x00, 0x01, 0xe0);
    TwoFours(EndBlock(), 0, EndW0());
    TwoFours(EndBlock(), 8, EndW1());
  }

  lemma EndWords2()
    ensures EightAre(EndBlock(), 16, EndW2()) && EightAre(EndBlock(), 24, EndW3())
  {
    hide EightAre, EndBlock;
    EndWords1();
    NextEight(EndBlock(), 16, EndW0(), EndW1());
    NextEight(EndBlock(), 24, EndW1(), EndW2());
  }

  lemma EndWords3()
    ensures EightAre(EndBlock(), 32, EndW4()) && EightAre(EndBlock(), 40, EndW5())
  {
    hide EightAre, EndBlock;
    EndWords2();
    NextEight(EndBlock(), 32, EndW2(), EndW3());
    NextEight(EndBlock(), 40, EndW3(), EndW4());
  }

  lemma EndWords4()
    ensures EightAre(EndBlock(), 48, EndW6()) && EightAre(EndBlock(), 56, EndW7())
  {
    hide EightAre, EndBlock;
    EndWords3();
    NextEight(EndBlock(), 48, EndW4(), EndW5());
    NextEight(EndBlock(), 56, EndW5(), EndW6());
  }

  lemma EndWords5()
    ensures EightAre(EndBlock(), 64, EndW8()) && EightAre(EndBlock(), 72, EndW9())
  {
    hide EightAre, EndBlock;
    EndWords4();
    NextEight(EndBlock(), 64, EndW6(), EndW7());
    NextEight(EndBlock(), 72, EndW7(), EndW8());
  }

  lemma EndRounds1()
    ensures Rounds(EndS0(), Words(EndBlock())[..8]) == EndS1()
  {
    hide Rounds, Words, EightAre, EndBlock;
    RoundsNone(EndS0(), Words(EndBlock()));
    EndWords1();
    NextRounds(EndBlock(), EndS0(), 0, EndS0(), EndW0());
  }

  lemma EndRounds2()
    ensures Rounds(EndS0(), Words(EndBlock())[..16]) == EndS2()
  {
    hide Rounds, Words, EightAre, EndBlock;
    EndRounds1();
    EndWords1();
    NextRounds(EndBlock(), EndS0(), 8, EndS1(), EndW1());
  }

  lemma EndRounds3()
    ensures Rounds(EndS0(), Words(EndBlock())[..24]) == EndS3()
  {
    hide Rounds, Words, EightAre, EndBlock;
    EndRounds2();
    EndWords2();
    NextRounds(EndBlock(), EndS0(), 16, EndS2(), EndW2());
  }

  lemma EndRounds4()
    ensures Rounds(EndS0(), Words(EndBlock())[..32]) == EndS4()
  {
    hide Rounds, Words, EightAre, EndBlock;
    EndRounds3();
    EndWords2();
    NextRounds(EndBlock(), EndS0(), 24, EndS3(), EndW3());
  }

  lemma EndRounds5()
    ensures Rounds(EndS0(), Words(EndBlock())[..40]) == EndS5()
  {
    hide Rounds, Words, EightAre, EndBlock;
    EndRounds4();
    EndWords3();
    NextRounds(EndBlock(), EndS0(), 32, EndS4(), EndW4());
  }

  lemma EndRounds6()
    ensures Rounds(EndS0(), Words(EndBlock())[..48]) == EndS6()
  {
    hide Rounds, Words, EightAre, EndBlock;
    EndRounds5();
    EndWords3();
    NextRounds(EndBlock(), EndS0(), 40, EndS5(), EndW5());
  }

  lemma EndRounds7()
    ensures Rounds(EndS0(), Words(EndBlock())[..56]) == EndS7()
  {
    hide Rounds, Words, EightAre, EndBlock;
    EndRounds6();
    EndWords4();
    NextRounds(EndBlock(), EndS0(), 48, EndS6(), EndW6());
  }

  lemma EndRounds8()
    ensures Rounds(EndS0(), Words(EndBlock())[..64]) == EndS8()
  {
    hide Rounds, Words, EightAre, EndBlock;
    EndRounds7();
    EndWords4();
    NextRounds(EndBlock(), EndS0(), 56, EndS7(), EndW7());
  }

  lemma EndRounds9()
    ensures Rounds(EndS0(), Words(EndBlock())[..72]) == EndS9()
  {
    hide Rounds, Words, EightAre, EndBlock;
    EndRounds8();
    EndWords5();
    NextRounds(EndBlock(), EndS0(), 64, EndS8(), EndW8());
  }

  lemma EndRounds10()
    ensures Rounds(EndS0(), Words(EndBlock())[..80]) == EndS10()
  {
    hide Rounds, Words, EightAre, EndBlock;
    EndRounds9();
    EndWords5();
    NextRounds(EndBlock(), EndS0(), 72, EndS9(), EndW9());
  }

  lemma EndCompressed()
    ensures Compress(EndS0(), EndBlock()) == Hash(0xB37A4F2C, 0xC0624F16, 0x90F64606, 0xCF385945, 0xB2BEC4EA)
  {
    hide Rounds, EndBlock;
    EndRounds10();
    assert Words(EndBlock())[..80] == Words(EndBlock());
  }

  const SAMPLE_KEY: string := "dGhlIHNhbXBsZSBu" + "b25jZQ=="

  function KeyText(): (m: seq<byte>)
    ensures |m| == 60
  {
    [0x64, 0x47, 0x68, 0x6c, 0x49, 0x48, 0x4e, 0x68, 0x62, 0x58, 0x42, 0x73, 0x5a, 0x53, 0x42, 0x75]
    + [0x62, 0x32, 0x35, 0x6a, 0x5a, 0x51, 0x3d, 0x3d]
    + [0x32, 0x35, 0x38, 0x45, 0x41, 0x46, 0x41, 0x35, 0x2d, 0x45, 0x39, 0x31, 0x34, 0x2d, 0x34, 0x37, 0x44, 0x41, 0x2d]
    + [0x39, 0x35, 0x43, 0x41, 0x2d, 0x43, 0x35, 0x41, 0x42, 0x30, 0x44, 0x43, 0x38, 0x35, 0x42, 0x31, 0x31]
  }

  lemma KeyPadded()
    ensures KeyText() + [0x80] + Zeros(3) == KeyBlock()
  {
  }

  lemma EndPadded()
    ensures Zeros(56) + BigEndian(480, 8) == EndBlock()
  {
    ShortLength(480);
  }

  lemma DigestOfKey()
    ensures Digest(KeyText())
         == [0xb3, 0x7a, 0x4f, 0x2c, 0xc0, 0x62, 0x4f, 0x16, 0x90, 0xf6, 0x46, 0x06, 0xcf, 0x38, 0x59, 0x45, 0xb2, 0xbe, 0xc4, 0xea]
  {
    hide Pad, Chain, Compress, WordsBytes, Digest, KeyText, KeyBlock, EndBlock;
    var m := KeyText();
    PadTwoBlocks([], m);
    assert [] + m == m;
    KeyPadded();
    EndPadded();
    ChainOfNothing();
    KeyCompressed();
    EndCompressed();
    DigestIs(m, Chain(Pad(m)));
    KeyBytes();
  }

  lemma KeyBytes()
    ensures HashBytes(Hash(0xB37A4F2C, 0xC0624F16, 0x90F64606, 0xCF385945, 0xB2BEC4EA))
         == [0xb3, 0x7a, 0x4f, 0x2c, 0xc0, 0x62, 0x4f, 0x16, 0x90, 0xf6, 0x46, 0x06, 0xcf, 0x38, 0x59, 0x45, 0xb2, 0xbe, 0xc4, 0xea]
  {
  }

  lemma KeyIsText()
    ensures AcceptKey.IsBytes(SAMPLE_KEY) && AcceptKey.IsBytes(SAMPLE_KEY + AcceptKey.WS_GUID)
    ensures AcceptKey.ToBytes(SAMPLE_KEY + AcceptKey.WS_GUID) == KeyText()
  {
    hide AcceptKey.IsBytes, AcceptKey.ToBytes;
    KeyPiece1();
    KeyPiece2();
    KeyPiece3();
    KeyPiece4();
    BytesOfBoth("dGhlIHNhbXBsZSBu", "b25jZQ==");
    BytesOfBoth("258EAFA5-E914-47DA-", "95CA-C5AB0DC85B11");
    BytesOfBoth(SAMPLE_KEY, AcceptKey.WS_GUID);
  }

  lemma KeyPiece1()
    ensures AcceptKey.IsBytes("dGhlIHNhbXBsZSBu")
    ensures AcceptKey.ToBytes("dGhlIHNhbXBsZSBu") == [0x64, 0x47, 0x68, 0x6c, 0x49, 0x48, 0x4e, 0x68, 0x62, 0x58, 0x42, 0x73, 0x5a, 0x53, 0x42, 0x75]
  {
  }

  lemma KeyPiece2()
    ensures AcceptKey.IsBytes("b25jZQ==")
    ensures AcceptKey.ToBytes("b25jZQ==") == [0x62, 0x32, 0x35, 0x6a, 0x5a, 0x51, 0x3d, 0x3d]
  {
  }

  lemma KeyPiece3()
    ensures AcceptKey.IsBytes("258EAFA5-E914-47DA-")
    ensures AcceptKey.ToBytes("258EAFA5-E914-47DA-") == [0x32, 0x35, 0x38, 0x45, 0x41, 0x46, 0x41, 0x35, 0x2d, 0x45, 0x39, 0x31, 0x34, 0x2d, 0x34, 0x37, 0x44, 0x41, 0x2d]
  {
  }

  lemma KeyPiece4()
    ensures AcceptKey.IsBytes("95CA-C5AB0DC85B11")
    ensures AcceptKey.ToBytes("95CA-C5AB0DC85B11") == [0x39, 0x35, 0x43, 0x41, 0x2d, 0x43, 0x35, 0x41, 0x42, 0x30, 0x44, 0x43, 0x38, 0x35, 0x42, 0x31, 0x31]
  {
  }

  lemma BytesOfBoth(s: string, t: string)
    requires AcceptKey.IsBytes(s) && AcceptKey.IsBytes(t)
    ensures AcceptKey.IsBytes(s + t) && AcceptKey.ToBytes(s + t) == AcceptKey.ToBytes(s) + AcceptKey.ToBytes(t)
  {
  }

  /** The sample of RFC 6455, section 1.3. */
  lemma AcceptOfSample()
    ensures AcceptKey.IsBytes(SAMPLE_KEY) && AcceptKey.Accept(SAMPLE_KEY) == "s3pPLMBiTxaQ9kYG" + "zzhZRbK+xOo="
  {
    hide Digest, Base64.Encode, KeyText;
    KeyIsText();
    DigestOfKey();
    SampleEncoded();
  }

  lemma SampleEncoded()
    ensures Base64.Encode([0xb3, 0x7a, 0x4f, 0x2c, 0xc0, 0x62, 0x4f, 0x16, 0x90, 0xf6, 0x46, 0x06, 0xcf, 0x38, 0x59, 0x45, 0xb2, 0xbe, 0xc4, 0xea])
         == "s3pPLMBiTxaQ9kYG" + "zzhZRbK+xOo="
  {
    hide Base64.Encode;
    SampleFirst();
    SampleLast();
    Base64.EncodeAppend([0xb3, 0x7a, 0x4f, 0x2c, 0xc0, 0x62, 0x4f, 0x16, 0x90], [0xf6, 0x46, 0x06, 0xcf, 0x38, 0x59, 0x45, 0xb2, 0xbe, 0xc4, 0xea]);
    assert [0xb3, 0x7a, 0x4f, 0x2c, 0xc0, 0x62, 0x4f, 0x16, 0x90] + [0xf6, 0x46, 0x06, 0xcf, 0x38, 0x59, 0x45, 0xb2, 0xbe, 0xc4, 0xea]
        == [0xb3, 0x7a, 0x4f, 0x2c, 0xc0, 0x62, 0x4f, 0x16, 0x90, 0xf6, 0x46, 0x06, 0xcf, 0x38, 0x59, 0x45, 0xb2, 0xbe, 0xc4, 0xea];
  }

  lemma SampleFirst()
    ensures Base64.Encode([0xb3, 0x7a, 0x4f, 0x2c, 0xc0, 0x62, 0x4f, 0x16, 0x90]) == "s3pPLMBiTxaQ"
  {
    hide Base64.Encode;
    Base64.FullGroup(0xb3, 0x7a, 0x4f);
    Base64.FullGroup(0x2c, 0xc0, 0x62);
    Base64.FullGroup(0x4f, 0x16, 0x90);
    Base64.EncodeAppend([0x2c, 0xc0, 0x62], [0x4f, 0x16, 0x90]);
    assert [0x2c, 0xc0, 0x62] + [0x4f, 0x16, 0x90] == [0x2c, 0xc0, 0x62, 0x4f, 0x16, 0x90];
    Base64.EncodeAppend([0xb3, 0x7a, 0x4f], [0x2c, 0xc0, 0x62, 0x4f, 0x16, 0x90]);
    assert [0xb3, 0x7a, 0x4f] + [0x2c, 0xc0, 0x62, 0x4f, 0x16, 0x90] == [0xb3, 0x7a, 0x4f, 0x2c, 0xc0, 0x62, 0x4f, 0x16, 0x90];
  }

  lemma SampleLast()
    ensures Base64.Encode([0xf6, 0x46, 0x06, 0xcf, 0x38, 0x59, 0x45, 0xb2, 0xbe, 0xc4, 0xea]) == "9kYGzzhZRbK+xOo="
  {
    hide Base64.Encode;
    Base64.FullGroup(0xf6, 0x46, 0x06);
    Base64.FullGroup(0xcf, 0x38, 0x59);
    Base64.FullGroup(0x45, 0xb2, 0xbe);
    Base64.ShortGroups(0xc4, 0xea);
    Base64.EncodeAppend([0x45, 0xb2, 0xbe], [0xc4, 0xea]);
    assert [0x45, 0xb2, 0xbe] + [0xc4, 0xea] == [0x45, 0xb2, 0xbe, 0xc4, 0xea];
    Base64.EncodeAppend([0xcf, 0x38, 0x59], [0x45, 0xb2, 0xbe, 0xc4, 0xea]);
    assert [0xcf, 0x38, 0x59] + [0x45, 0xb2, 0xbe, 0xc4, 0xea] == [0xcf, 0x38, 0x59, 0x45, 0xb2, 0xbe, 0xc4, 0xea];
    Base64.EncodeAppend([0xf6, 0x46, 0x06], [0xcf, 0x38, 0x59, 0x45, 0xb2, 0xbe, 0xc4, 0xea]);
    assert [0xf6, 0x46, 0x06] + [0xcf, 0x38, 0x59, 0x45, 0xb2, 0xbe, 0xc4, 0xea] == [0xf6, 0x46, 0x06, 0xcf, 0x38, 0x59, 0x45, 0xb2, 0xbe, 0xc4, 0xea];
  }
}
