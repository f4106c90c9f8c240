/**
 * The unit tests of src/chunk_type.rs and src/chunk.rs, stated as lemmas
 * about the model: the chunk type "RuSt" and the 42-byte message
 * "This is where your secret message will be!".
 */
module ChunkExamples {
  import opened Results
  import opened Bytes
  import Crc32
  import Utf8
  import opened ChunkTypes
  import opened Chunks

  /** The test message, in pieces of six characters. */
  const Text0: string := "This i"
  const Bytes0: seq<u8> := [84, 104, 105, 115, 32, 105]
  const Text1: string := "s wher"
  const Bytes1: seq<u8> := [115, 32, 119, 104, 101, 114]
  const Text2: string := "e your"
  const Bytes2: seq<u8> := [101, 32, 121, 111, 117, 114]
  const Text3: string := " secre"
  const Bytes3: seq<u8> := [32, 115, 101, 99, 114, 101]
  const Text4: string := "t mess"
  const Bytes4: seq<u8> := [116, 32, 109, 101, 115, 115]
  const Text5: string := "age wi"
  const Bytes5: seq<u8> := [97, 103, 101, 32, 119, 105]
  const Text6: string := "ll be!"
  const Bytes6: seq<u8> := [108, 108, 32, 98, 101, 33]

  /** The test message, "This is where your secret message will be!". */
  const MessageText: string := Text0 + Text1 + Text2 + Text3 + Text4 + Text5 + Text6

  /** Its UTF-8 bytes (all ASCII). */
  const MessageBytes: seq<u8> := Bytes0 + Bytes1 + Bytes2 + Bytes3 + Bytes4 + Bytes5 + Bytes6

  /** The bytes of "RuSt". */
  const RuStBytes: TypeBytes := [82, 117, 83, 116]

  /** The bytes the CRC of the test chunk covers. */
  const CovBytes: seq<u8> := RuStBytes + MessageBytes

  /** The test chunk as the tests assemble it, with a given CRC field. */
  function TestChunkBytes(crc: u32): (r: seq<u8>)
    ensures |r| == 54
  {
    ToBigEndian(42) + RuStBytes + MessageBytes + ToBigEndian(crc)
  }

  // ---------------------------------------------------------------------
  // The message's bytes, one character at a time

  lemma PieceEncoding0()
    ensures Utf8.Encode(Text0) == Bytes0
  {
  }

  lemma PieceEncoding1()
    ensures Utf8.Encode(Text1) == Bytes1
  {
  }

  lemma PieceEncoding2()
    ensures Utf8.Encode(Text2) == Bytes2
  {
  }

  lemma PieceEncoding3()
    ensures Utf8.Encode(Text3) == Bytes3
  {
  }

  lemma PieceEncoding4()
    ensures Utf8.Encode(Text4) == Bytes4
  {
  }

  lemma PieceEncoding5()
    ensures Utf8.Encode(Text5) == Bytes5
  {
  }

  lemma PieceEncoding6()
    ensures Utf8.Encode(Text6) == Bytes6
  {
  }

  /** "This is where your secret message will be!".as_bytes() */
  lemma MessageEncoding()
    ensures Utf8.Encode(MessageText) == MessageBytes
    ensures |MessageBytes| == 42
  {
    PieceEncoding0();
    PieceEncoding1();
    PieceEncoding2();
    PieceEncoding3();
    PieceEncoding4();
    PieceEncoding5();
    PieceEncoding6();
    Utf8.EncodeAppend(Text0, Text1);
    Utf8.EncodeAppend(Text0 + Text1, Text2);
    Utf8.EncodeAppend(Text0 + Text1 + Text2, Text3);
    Utf8.EncodeAppend(Text0 + Text1 + Text2 + Text3, Text4);
    Utf8.EncodeAppend(Text0 + Text1 + Text2 + Text3 + Text4, Text5);
    Utf8.EncodeAppend(Text0 + Text1 + Text2 + Text3 + Text4 + Text5, Text6);
  }

  // ---------------------------------------------------------------------
  // The CRC of "RuSt" and the message, one byte at a time
  //
  // Each `CovStep` lemma feeds one byte of "RuSt" ++ message into the CRC
  // register, naming the register value before and after it (the hex
  // constants); `CovRegister` chains the 46 steps and `TestCrc` finishes
  // the CRC.  The CRC-32 function itself is confirmed independently by
  // `Crc32.CheckValue`, against the published check value.

  lemma CovStep0()
    ensures Crc32.Update(0xFFFFFFFF, CovBytes[0..]) == Crc32.Update(0xA89820AA, CovBytes[1..])
  {
    assert CovBytes[0] == 82;
    assert Crc32.Widen(82) == 0x52;
    assert Crc32.Nibble(0xFFFFFFAD) == 0x892C2D2E;
  }

  lemma CovStep1()
    ensures Crc32.Update(0xA89820AA, CovBytes[1..]) == Crc32.Update(0x16C45765, CovBytes[2..])
  {
    assert CovBytes[1] == 117;
    assert Crc32.Widen(117) == 0x75;
    assert Crc32.Nibble(0xA89820DF) == 0xB7347011;
  }

  lemma CovStep2()
    ensures Crc32.Update(0x16C45765, CovBytes[2..]) == Crc32.Update(0xCFAC51CE, CovBytes[3..])
  {
    assert CovBytes[2] == 83;
    assert Crc32.Widen(83) == 0x53;
    assert Crc32.Nibble(0x16C45736) == 0x4CDE242B;
  }

  lemma CovStep3()
    ensures Crc32.Update(0xCFAC51CE, CovBytes[3..]) == Crc32.Update(0x2B7BF6C3, CovBytes[4..])
  {
    assert CovBytes[3] == 116;
    assert Crc32.Widen(116) == 0x74;
    assert Crc32.Nibble(0xCFAC51BA) == 0xDA2C66F3;
  }

  lemma CovStep4()
    ensures Crc32.Update(0x2B7BF6C3, CovBytes[4..]) == Crc32.Update(0x6E407D11, CovBytes[5..])
  {
    assert CovBytes[4] == 84;
    assert Crc32.Widen(84) == 0x54;
    assert Crc32.Nibble(0x2B7BF697) == 0x52B2CE55;
  }

  lemma CovStep5()
    ensures Crc32.Update(0x6E407D11, CovBytes[5..]) == Crc32.Update(0x29B789E5, CovBytes[6..])
  {
    assert CovBytes[5] == 104;
    assert Crc32.Widen(104) == 0x68;
    assert Crc32.Nibble(0x6E407D79) == 0xF6EB9493;
  }

  lemma CovStep6()
    ensures Crc32.Update(0x29B789E5, CovBytes[6..]) == Crc32.Update(0xE4277882, CovBytes[7..])
  {
    assert CovBytes[6] == 105;
    assert Crc32.Widen(105) == 0x69;
    assert Crc32.Nibble(0x29B7898C) == 0x99FFBA28;
  }

  lemma CovStep7()
    ensures Crc32.Update(0xE4277882, CovBytes[7..]) == Crc32.Update(0xCA5EE5F2, CovBytes[8..])
  {
    assert CovBytes[7] == 115;
    assert Crc32.Widen(115) == 0x73;
    assert Crc32.Nibble(0xE42778F1) == 0x13F567EB;
  }

  lemma CovStep8()
    ensures Crc32.Update(0xCA5EE5F2, CovBytes[8..]) == Crc32.Update(0x6817ED1D, CovBytes[9..])
  {
    assert CovBytes[8] == 32;
    assert Crc32.Widen(32) == 0x20;
    assert Crc32.Nibble(0xCA5EE5D2) == 0x37CBCE95;
  }

  lemma CovStep9()
    ensures Crc32.Update(0x6817ED1D, CovBytes[9..]) == Crc32.Update(0x5700A2C8, CovBytes[10..])
  {
    assert CovBytes[9] == 105;
    assert Crc32.Widen(105) == 0x69;
    assert Crc32.Nibble(0x6817ED74) == 0x705D3F47;
  }

  lemma CovStep10()
    ensures Crc32.Update(0x5700A2C8, CovBytes[10..]) == Crc32.Update(0x5CE46AA6, CovBytes[11..])
  {
    assert CovBytes[10] == 115;
    assert Crc32.Widen(115) == 0x73;
    assert Crc32.Nibble(0x5700A2BB) == 0xCE11B9A7;
  }

  lemma CovStep11()
    ensures Crc32.Update(0x5CE46AA6, CovBytes[11..]) == Crc32.Update(0x0487C27F, CovBytes[12..])
  {
    assert CovBytes[11] == 32;
    assert Crc32.Widen(32) == 0x20;
    assert Crc32.Nibble(0x5CE46A86) == 0x487C27F0;
  }

  lemma CovStep12()
    ensures Crc32.Update(0x0487C27F, CovBytes[12..]) == Crc32.Update(0x0EDF0FF0, CovBytes[13..])
  {
    assert CovBytes[12] == 119;
    assert Crc32.Widen(119) == 0x77;
    assert Crc32.Nibble(0x0487C208) == 0xEDF0FF00;
  }

  lemma CovStep13()
    ensures Crc32.Update(0x0EDF0FF0, CovBytes[13..]) == Crc32.Update(0xFEDAC479, CovBytes[14..])
  {
    assert CovBytes[13] == 104;
    assert Crc32.Widen(104) == 0x68;
    assert Crc32.Nibble(0x0EDF0F98) == 0xED5573D9;
  }

  lemma CovStep14()
    ensures Crc32.Update(0xFEDAC479, CovBytes[14..]) == Crc32.Update(0x14FF868B, CovBytes[15..])
  {
    assert CovBytes[14] == 101;
    assert Crc32.Widen(101) == 0x65;
    assert Crc32.Nibble(0xFEDAC41C) == 0x94896EF1;
  }

  lemma CovStep15()
    ensures Crc32.Update(0x14FF868B, CovBytes[15..]) == Crc32.Update(0xC475B53E, CovBytes[16..])
  {
    assert CovBytes[15] == 114;
    assert Crc32.Widen(114) == 0x72;
    assert Crc32.Nibble(0x14FF86F9) == 0xF1406B2B;
  }

  lemma CovStep16()
    ensures Crc32.Update(0xC475B53E, CovBytes[16..]) == Crc32.Update(0xFC7DFDC9, CovBytes[17..])
  {
    assert CovBytes[16] == 101;
    assert Crc32.Widen(101) == 0x65;
    assert Crc32.Nibble(0xC475B55B) == 0xC726E8D9;
  }

  lemma CovStep17()
    ensures Crc32.Update(0xFC7DFDC9, CovBytes[17..]) == Crc32.Update(0xD92A2721, CovBytes[18..])
  {
    assert CovBytes[17] == 32;
    assert Crc32.Widen(32) == 0x20;
    assert Crc32.Nibble(0xFC7DFDE9) == 0xFFC84C9A;
  }

  lemma CovStep18()
    ensures Crc32.Update(0xD92A2721, CovBytes[18..]) == Crc32.Update(0x6569F3E1, CovBytes[19..])
  {
    assert CovBytes[18] == 121;
    assert Crc32.Widen(121) == 0x79;
    assert Crc32.Nibble(0xD92A2758) == 0xE02A2155;
  }

  lemma CovStep19()
    ensures Crc32.Update(0x6569F3E1, CovBytes[19..]) == Crc32.Update(0x0A65C7D4, CovBytes[20..])
  {
    assert CovBytes[19] == 111;
    assert Crc32.Widen(111) == 0x6F;
    assert Crc32.Nibble(0x6569F38E) == 0xA65C7D40;
  }

  lemma CovStep20()
    ensures Crc32.Update(0x0A65C7D4, CovBytes[20..]) == Crc32.Update(0xA1DBF6B9, CovBytes[21..])
  {
    assert CovBytes[20] == 117;
    assert Crc32.Widen(117) == 0x75;
    assert Crc32.Nibble(0x0A65C7A1) == 0x1D114C1E;
  }

  lemma CovStep21()
    ensures Crc32.Update(0xA1DBF6B9, CovBytes[21..]) == Crc32.Update(0x0C17C0CE, CovBytes[22..])
  {
    assert CovBytes[21] == 114;
    assert Crc32.Widen(114) == 0x72;
    assert Crc32.Nibble(0xA1DBF6CB) == 0xC17C0CE0;
  }

  lemma CovStep22()
    ensures Crc32.Update(0x0C17C0CE, CovBytes[22..]) == Crc32.Update(0x47BED8BF, CovBytes[23..])
  {
    assert CovBytes[22] == 32;
    assert Crc32.Widen(32) == 0x20;
    assert Crc32.Nibble(0x0C17C0EE) == 0xA0CB9E76;
  }

  lemma CovStep23()
    ensures Crc32.Update(0x47BED8BF, CovBytes[23..]) == Crc32.Update(0x92953043, CovBytes[24..])
  {
    assert CovBytes[23] == 115;
    assert Crc32.Widen(115) == 0x73;
    assert Crc32.Nibble(0x47BED8CC) == 0x9F1F2F3C;
  }

  lemma CovStep24()
    ensures Crc32.Update(0x92953043, CovBytes[24..]) == Crc32.Update(0xD29F10CD, CovBytes[25..])
  {
    assert CovBytes[24] == 101;
    assert Crc32.Widen(101) == 0x65;
    assert Crc32.Nibble(0x92953026) == 0x449B325A;
  }

  lemma CovStep25()
    ensures Crc32.Update(0xD29F10CD, CovBytes[25..]) == Crc32.Update(0x31BC11FF, CovBytes[26..])
  {
    assert CovBytes[25] == 99;
    assert Crc32.Widen(99) == 0x63;
    assert Crc32.Nibble(0xD29F10AE) == 0xAD231372;
  }

  lemma CovStep26()
    ensures Crc32.Update(0x31BC11FF, CovBytes[26..]) == Crc32.Update(0x9338438C, CovBytes[27..])
  {
    assert CovBytes[26] == 114;
    assert Crc32.Widen(114) == 0x72;
    assert Crc32.Nibble(0x31BC118D) == 0x85C813CC;
  }

  lemma CovStep27()
    ensures Crc32.Update(0x9338438C, CovBytes[27..]) == Crc32.Update(0xD945629F, CovBytes[28..])
  {
    assert CovBytes[27] == 101;
    assert Crc32.Widen(101) == 0x65;
    assert Crc32.Nibble(0x933843E9) == 0xF93C177A;
  }

  lemma CovStep28()
    ensures Crc32.Update(0xD945629F, CovBytes[28..]) == Crc32.Update(0x37017E92, CovBytes[29..])
  {
    assert CovBytes[28] == 116;
    assert Crc32.Widen(116) == 0x74;
    assert Crc32.Nibble(0xD94562EB) == 0xC6F5E5A2;
  }

  lemma CovStep29()
    ensures Crc32.Update(0x37017E92, CovBytes[29..]) == Crc32.Update(0x2558D3DE, CovBytes[30..])
  {
    assert CovBytes[29] == 32;
    assert Crc32.Widen(32) == 0x20;
    assert Crc32.Nibble(0x37017EB2) == 0x381E3723;
  }

  lemma CovStep30()
    ensures Crc32.Update(0x2558D3DE, CovBytes[30..]) == Crc32.Update(0x524DBAE5, CovBytes[31..])
  {
    assert CovBytes[30] == 109;
    assert Crc32.Widen(109) == 0x6D;
    assert Crc32.Nibble(0x2558D3B3) == 0x248CBD97;
  }

  lemma CovStep31()
    ensures Crc32.Update(0x524DBAE5, CovBytes[31..]) == Crc32.Update(0xEDEACE9A, CovBytes[32..])
  {
    assert CovBytes[31] == 101;
    assert Crc32.Widen(101) == 0x65;
    assert Crc32.Nibble(0x524DBA80) == 0x0524DBA8;
  }

  lemma CovStep32()
    ensures Crc32.Update(0xEDEACE9A, CovBytes[32..]) == Crc32.Update(0xD93BB012, CovBytes[33..])
  {
    assert CovBytes[32] == 115;
    assert Crc32.Widen(115) == 0x73;
    assert Crc32.Nibble(0xEDEACEE9) == 0xFED13FAA;
  }

  lemma CovStep33()
    ensures Crc32.Update(0xD93BB012, CovBytes[33..]) == Crc32.Update(0x3A6C6A7E, CovBytes[34..])
  {
    assert CovBytes[33] == 115;
    assert Crc32.Widen(115) == 0x73;
    assert Crc32.Nibble(0xD93BB061) == 0x1024AB62;
  }

  lemma CovStep34()
    ensures Crc32.Update(0x3A6C6A7E, CovBytes[34..]) == Crc32.Update(0x8D32619F, CovBytes[35..])
  {
    assert CovBytes[34] == 97;
    assert Crc32.Widen(97) == 0x61;
    assert Crc32.Nibble(0x3A6C6A1F) == 0xBE1B34BD;
  }

  lemma CovStep35()
    ensures Crc32.Update(0x8D32619F, CovBytes[35..]) == Crc32.Update(0xB3EB484F, CovBytes[36..])
  {
    assert CovBytes[35] == 103;
    assert Crc32.Widen(103) == 0x67;
    assert Crc32.Nibble(0x8D3261F8) == 0xE56BA53F;
  }

  lemma CovStep36()
    ensures Crc32.Update(0xB3EB484F, CovBytes[36..]) == Crc32.Update(0xDB08229E, CovBytes[37..])
  {
    assert CovBytes[36] == 101;
    assert Crc32.Widen(101) == 0x65;
    assert Crc32.Nibble(0xB3EB482A) == 0xDDE8176A;
  }

  lemma CovStep37()
    ensures Crc32.Update(0xDB08229E, CovBytes[37..]) == Crc32.Update(0x2C0296A9, CovBytes[38..])
  {
    assert CovBytes[37] == 32;
    assert Crc32.Widen(32) == 0x20;
    assert Crc32.Nibble(0xDB0822BE) == 0xADBA6053;
  }

  lemma CovStep38()
    ensures Crc32.Update(0x2C0296A9, CovBytes[38..]) == Crc32.Update(0x6147FD45, CovBytes[39..])
  {
    assert CovBytes[38] == 119;
    assert Crc32.Widen(119) == 0x77;
    assert Crc32.Nibble(0x2C0296DE) == 0xA2CACB15;
  }

  lemma CovStep39()
    ensures Crc32.Update(0x6147FD45, CovBytes[39..]) == Crc32.Update(0x32B92B1E, CovBytes[40..])
  {
    assert CovBytes[39] == 105;
    assert Crc32.Widen(105) == 0x69;
    assert Crc32.Nibble(0x6147FD2C) == 0x9D70BD62;
  }

  lemma CovStep40()
    ensures Crc32.Update(0x32B92B1E, CovBytes[40..]) == Crc32.Update(0xBE39A93B, CovBytes[41..])
  {
    assert CovBytes[40] == 108;
    assert Crc32.Widen(108) == 0x6C;
    assert Crc32.Nibble(0x32B92B72) == 0x3845B27F;
  }

  lemma CovStep41()
    ensures Crc32.Update(0xBE39A93B, CovBytes[41..]) == Crc32.Update(0xF5B1FDFE, CovBytes[42..])
  {
    assert CovBytes[41] == 108;
    assert Crc32.Widen(108) == 0x6C;
    assert Crc32.Nibble(0xBE39A957) == 0x5BE6EBA9;
  }

  lemma CovStep42()
    ensures Crc32.Update(0xF5B1FDFE, CovBytes[42..]) == Crc32.Update(0x619E4E2E, CovBytes[43..])
  {
    assert CovBytes[42] == 32;
    assert Crc32.Widen(32) == 0x20;
    assert Crc32.Nibble(0xF5B1FDDE) == 0xAF51FDA5;
  }

  lemma CovStep43()
    ensures Crc32.Update(0x619E4E2E, CovBytes[43..]) == Crc32.Update(0x7F0B93F5, CovBytes[44..])
  {
    assert CovBytes[43] == 98;
    assert Crc32.Widen(98) == 0x62;
    assert Crc32.Nibble(0x619E4E4C) == 0x9D7D2654;
  }

  lemma CovStep44()
    ensures Crc32.Update(0x7F0B93F5, CovBytes[44..]) == Crc32.Update(0xF07098D7, CovBytes[45..])
  {
    assert CovBytes[44] == 101;
    assert Crc32.Widen(101) == 0x65;
    assert Crc32.Nibble(0x7F0B9390) == 0x07F0B939;
  }

  lemma CovStep45()
    ensures Crc32.Update(0xF07098D7, CovBytes[45..]) == Crc32.Update(0x542E27B1, CovBytes[46..])
  {
    assert CovBytes[45] == 33;
    assert Crc32.Widen(33) == 0x21;
    assert Crc32.Nibble(0xF07098F6) == 0x42B568D7;
  }

  lemma CovRegister()
    ensures Crc32.Update(0xFFFF_FFFF, CovBytes[0..]) == 0x542E27B1
  {
    CovStep0();
    CovStep1();
    CovStep2();
    CovStep3();
    CovStep4();
    CovStep5();
    CovStep6();
    CovStep7();
    CovStep8();
    CovStep9();
    CovStep10();
    CovStep11();
    CovStep12();
    CovStep13();
    CovStep14();
    CovStep15();
    CovStep16();
    CovStep17();
    CovStep18();
    CovStep19();
    CovStep20();
    CovStep21();
    CovStep22();
    CovStep23();
    CovStep24();
    CovStep25();
    CovStep26();
    CovStep27();
    CovStep28();
    CovStep29();
    CovStep30();
    CovStep31();
    CovStep32();
    CovStep33();
    CovStep34();
    CovStep35();
    CovStep36();
    CovStep37();
    CovStep38();
    CovStep39();
    CovStep40();
    CovStep41();
    CovStep42();
    CovStep43();
    CovStep44();
    CovStep45();
  }

  lemma CovFinish()
    ensures Crc32.ToU32(0x542E27B1 ^ Crc32.AllOnes) == 2882656334
  {
  }

  /** The CRC the tests expect: 2882656334. */
  lemma TestCrc()
    ensures Crc32.Hash(RuStBytes + MessageBytes) == 2882656334
  {
    assert CovBytes[0..] == RuStBytes + MessageBytes;
    CovRegister();
    CovFinish();
  }

  // ---------------------------------------------------------------------
  // src/chunk_type.rs tests

  /** test_chunk_type_from_bytes: the bytes come back unchanged. */
  lemma TypeFromBytesTest()
    ensures TryFromBytes(RuStBytes) == Ok(ChunkType(RuStBytes))
  {
  }

  /** test_chunk_type_from_str: "RuSt" gives the same type as its bytes. */
  lemma TypeFromStrTest()
    ensures FromStr("RuSt") == TryFromBytes(RuStBytes) == Ok(ChunkType(RuStBytes))
  {
    assert Utf8.Encode("RuSt") == RuStBytes;
  }

  lemma FromStrRuSt()
    ensures FromStr("RuSt") == Ok(ChunkType([82, 117, 83, 116]))
  {
    assert Utf8.Encode("RuSt") == [82, 117, 83, 116];
  }

  lemma FromStrRuSt2()
    ensures FromStr("ruSt") == Ok(ChunkType([114, 117, 83, 116]))
  {
    assert Utf8.Encode("ruSt") == [114, 117, 83, 116];
  }

  lemma FromStrRUSt()
    ensures FromStr("RUSt") == Ok(ChunkType([82, 85, 83, 116]))
  {
    assert Utf8.Encode("RUSt") == [82, 85, 83, 116];
  }

  lemma FromStrRust()
    ensures FromStr("Rust") == Ok(ChunkType([82, 117, 115, 116]))
  {
    assert Utf8.Encode("Rust") == [82, 117, 115, 116];
  }

  lemma FromStrRuST()
    ensures FromStr("RuST") == Ok(ChunkType([82, 117, 83, 84]))
  {
    assert Utf8.Encode("RuST") == [82, 117, 83, 84];
  }

  /** The eight case tests: critical, public, reserved bit, safe to copy. */
  lemma CaseTests()
    ensures FromStr("RuSt").Ok? && FromStr("ruSt").Ok? && FromStr("RUSt").Ok?
    ensures FromStr("Rust").Ok? && FromStr("RuST").Ok?
    ensures IsCritical(FromStr("RuSt").value) && !IsCritical(FromStr("ruSt").value)
    ensures IsPublic(FromStr("RUSt").value) && !IsPublic(FromStr("RuSt").value)
    ensures IsReservedBitValid(FromStr("RuSt").value) && !IsReservedBitValid(FromStr("Rust").value)
    ensures IsSafeToCopy(FromStr("RuSt").value) && !IsSafeToCopy(FromStr("RuST").value)
  {
    FromStrRuSt();
    FromStrRuSt2();
    FromStrRUSt();
    FromStrRust();
    FromStrRuST();
  }

  lemma FromStrRu1t()
    ensures FromStr("Ru1t") == Err(ByteConversionError)
  {
    assert Utf8.Encode("Ru1t") == [82, 117, 49, 116];
  }

  /** test_valid_chunk_is_valid, test_invalid_chunk_is_valid. */
  lemma ValidityTests()
    ensures FromStr("RuSt").Ok? && IsValid(FromStr("RuSt").value)
    ensures FromStr("Rust").Ok? && !IsValid(FromStr("Rust").value)
    ensures FromStr("Ru1t") == Err(ByteConversionError)
  {
    FromStrRuSt();
    FromStrRust();
    FromStrRu1t();
  }

  /**
   * The length check counts bytes: "Rué" has three characters but four
   * bytes, so it passes the length check and fails the letter check.
   */
  lemma ByteLengthExample()
    ensures FromStr("Rué") == Err(ByteConversionError)
    ensures FromStr("RuS") == Err(StringConversionError)
  {
    assert Utf8.Encode("Rué") == [82, 117, 0xC3, 0xA9];
    assert Utf8.Encode("RuS") == [82, 117, 83];
  }

  /** test_chunk_type_string: the text of "RuSt" is "RuSt". */
  lemma TypeStringTest()
    ensures FromStr("RuSt").Ok? && Utf8.Decode(FromStr("RuSt").value.bytes).Some?
    ensures AsString(FromStr("RuSt").value) == "RuSt"
  {
    TypeFromStrTest();
    AsStringFromStr("RuSt");
  }

  /**
   * The type bytes of "R1St", which `FromStr` rejects, are accepted by the
   * parser (`Chunks.ParseAcceptsAnyTypeBytes`), and `IsValid` accepts them
   * too, since it looks at the third byte only.
   */
  lemma UncheckedTypeExample(t: ChunkType)
    requires t.bytes == [82, 49, 83, 116]
    ensures IsValid(t) && !HasLetters(t)
  {
    assert !IsValidByte(t.bytes[1]);
  }

  /** "R1St" is rejected by `FromStr`. */
  lemma FromStrR1St()
    ensures FromStr("R1St") == Err(ByteConversionError)
  {
    assert Utf8.Encode("R1St") == [82, 49, 83, 116];
  }

  // ---------------------------------------------------------------------
  // src/chunk.rs tests

  /** test_new_chunk: length 42 and CRC 2882656334. */
  lemma NewChunkTest()
    ensures New(ChunkType(RuStBytes), MessageBytes).length == 42
    ensures New(ChunkType(RuStBytes), MessageBytes).crc == 2882656334
  {
    MessageEncoding();
    TestCrc();
  }

  /** The chunk the tests expect to parse. */
  const TestChunk: Chunk := Chunk(42, ChunkType(RuStBytes), MessageBytes, 2882656334)

  /** The assembled test bytes parse to the expected chunk. */
  lemma TestChunkParses()
    ensures TryFrom(TestChunkBytes(2882656334)) == Ok(TestChunk)
  {
    TestCrc();
    assert TestChunkBytes(2882656334) == AsBytes(TestChunk);
    SerializeThenParse(TestChunk);
  }

  /** The test chunk's data reads back as the message. */
  lemma TestChunkText()
    ensures DataAsString(TestChunk) == Ok(MessageText)
  {
    MessageEncoding();
    Utf8.EncodeInjective(DataAsString(TestChunk).value, MessageText);
  }

  /**
   * testing_chunk, test_valid_chunk_from_bytes and the accessor tests: the
   * assembled bytes parse to length 42, type "RuSt", the message, and CRC
   * 2882656334.
   */
  lemma ValidChunkFromBytesTest()
    ensures TryFrom(TestChunkBytes(2882656334)).Ok?
    ensures var c := TryFrom(TestChunkBytes(2882656334)).value;
      && c.length == 42
      && c.crc == 2882656334
      && Utf8.Decode(c.chunkType.bytes).Some? && AsString(c.chunkType) == "RuSt"
      && DataAsString(c) == Ok(MessageText)
  {
    TestChunkParses();
    TypeStringTest();
    TypeFromStrTest();
    TestChunkText();
  }

  /** test_invalid_chunk_from_bytes: a CRC field of 2882656333 is rejected. */
  lemma InvalidChunkFromBytesTest()
    ensures TryFrom(TestChunkBytes(2882656333)) == Err(ChunkError)
  {
    var bad := TestChunk.(crc := 2882656333);
    TestCrc();
    assert TestChunkBytes(2882656333) == AsBytes(bad);
    SerializeThenParse(bad);
  }
}
