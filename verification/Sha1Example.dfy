/** The worked example of FIPS 180-4: the digest of "abc", computed by the specification step by step. */
module Sha1Example {
  import opened Sha1

  const ABC: seq<bv8> := [0x61, 0x62, 0x63]

  /** Its only block: the text, a one bit, and the length of 24 bits. */
  const BLOCK: seq<bv8> := [0x61, 0x62, 0x63, 0x80] + Zeros(59) + [0x18]

  lemma HighByte(weight: nat)
    requires weight > 24
    ensures ByteOf(24, weight) == 0
  {
    assert 24 / weight == 0;
  }

  lemma LengthIs()
    ensures LengthBytes(Counter(3)) == [0, 0, 0, 0, 0, 0, 0, 0x18]
  {
    hide ByteOf;
    assert Counter(3) == 24;
    HighByte(0x100_0000_0000_0000);
    HighByte(0x1_0000_0000_0000);
    HighByte(0x100_0000_0000);
    HighByte(0x1_0000_0000);
    HighByte(0x100_0000);
    HighByte(0x1_0000);
    HighByte(0x100);
    LowByte();
  }

  lemma LowByte()
    ensures ByteOf(24, 1) == 0x18
  {
  }

  lemma BlockIs()
    ensures ABC + Padding(3) == BLOCK && |BLOCK| == 64
  {
    hide LengthBytes;
    LengthIs();
    ZerosAdd(52, 7);
    assert Zeros(7) == [0, 0, 0, 0, 0, 0, 0];
    assert Zeros(7) + [0x18] == [0, 0, 0, 0, 0, 0, 0, 0x18];
    assert ABC + [0x80] == [0x61, 0x62, 0x63, 0x80];
    assert Padding(3) == [0x80] + Zeros(52) + (Zeros(7) + [0x18]);
  }

  lemma Words0()
    ensures Schedule(BLOCK, 0) == 0x61626380 && Schedule(BLOCK, 15) == 0x00000018
    ensures forall t :: 1 <= t < 15 ==> Schedule(BLOCK, t) == 0
  {
    hide Schedule;
    forall t | 0 <= t < 16
      ensures Schedule(BLOCK, t) == if t == 0 then 0x61626380 else if t == 15 then 0x00000018 else 0
    {
      ScheduleStart(BLOCK, t);
    }
  }

  /** One word of the schedule from the four it depends on. */
  lemma Word(t: nat, p: bv32, q: bv32, r: bv32, s: bv32, word: bv32)
    requires 16 <= t < 80 && RotLeft1(Mix(p, q, r, s)) == word
    requires Schedule(BLOCK, t - 3) == p && Schedule(BLOCK, t - 8) == q
    requires Schedule(BLOCK, t - 14) == r && Schedule(BLOCK, t - 16) == s
    ensures Schedule(BLOCK, t) == word
  {
    hide Schedule;
    ScheduleStep(BLOCK, t);
  }

  lemma Words16()
    ensures Schedule(BLOCK, 16) == 0xC2C4C700 && Schedule(BLOCK, 17) == 0x00000000 && Schedule(BLOCK, 18) == 0x00000030 && Schedule(BLOCK, 19) == 0x85898E01
    ensures Schedule(BLOCK, 20) == 0x00000000 && Schedule(BLOCK, 21) == 0x00000060 && Schedule(BLOCK, 22) == 0x0B131C03 && Schedule(BLOCK, 23) == 0x00000030
    ensures Schedule(BLOCK, 24) == 0x85898EC1 && Schedule(BLOCK, 25) == 0x16263806 && Schedule(BLOCK, 26) == 0x00000000 && Schedule(BLOCK, 27) == 0x00000180
    ensures Schedule(BLOCK, 28) == 0x2C4C700C && Schedule(BLOCK, 29) == 0x000000F0 && Schedule(BLOCK, 30) == 0x93AFB507 && Schedule(BLOCK, 31) == 0x5898E048
  {
    hide Schedule;
    Words0();
    Word(16, 0x00000000, 0x00000000, 0x00000000, 0x61626380, 0xC2C4C700);
    Word(17, 0x00000000, 0x00000000, 0x00000000, 0x00000000, 0x00000000);
    Word(18, 0x00000018, 0x00000000, 0x00000000, 0x00000000, 0x00000030);
    Word(19, 0xC2C4C700, 0x00000000, 0x00000000, 0x00000000, 0x85898E01);
    Word(20, 0x00000000, 0x00000000, 0x00000000, 0x00000000, 0x00000000);
    Word(21, 0x00000030, 0x00000000, 0x00000000, 0x00000000, 0x00000060);
    Word(22, 0x85898E01, 0x00000000, 0x00000000, 0x00000000, 0x0B131C03);
    Word(23, 0x00000000, 0x00000018, 0x00000000, 0x00000000, 0x00000030);
    Word(24, 0x00000060, 0xC2C4C700, 0x00000000, 0x00000000, 0x85898EC1);
    Word(25, 0x0B131C03, 0x00000000, 0x00000000, 0x00000000, 0x16263806);
    Word(26, 0x00000030, 0x00000030, 0x00000000, 0x00000000, 0x00000000);
    Word(27, 0x85898EC1, 0x85898E01, 0x00000000, 0x00000000, 0x00000180);
    Word(28, 0x16263806, 0x00000000, 0x00000000, 0x00000000, 0x2C4C700C);
    Word(29, 0x00000000, 0x00000060, 0x00000018, 0x00000000, 0x000000F0);
    Word(30, 0x00000180, 0x0B131C03, 0xC2C4C700, 0x00000000, 0x93AFB507);
    Word(31, 0x2C4C700C, 0x00000030, 0x00000000, 0x00000018, 0x5898E048);
  }

  lemma Words32()
    ensures Schedule(BLOCK, 32) == 0x8E9A9202 && Schedule(BLOCK, 33) == 0x00000600 && Schedule(BLOCK, 34) == 0xB131C0F0 && Schedule(BLOCK, 35) == 0x16263BC6
    ensures Schedule(BLOCK, 36) == 0x4EBED41E && Schedule(BLOCK, 37) == 0x626380A1 && Schedule(BLOCK, 38) == 0x16263806 && Schedule(BLOCK, 39) == 0x000018C0
    ensures Schedule(BLOCK, 40) == 0xD2E138C4 && Schedule(BLOCK, 41) == 0x00000F00 && Schedule(BLOCK, 42) == 0x3AFB5079 && Schedule(BLOCK, 43) == 0x898E04E5
    ensures Schedule(BLOCK, 44) == 0xE2BA3C2B && Schedule(BLOCK, 45) == 0x000060C0 && Schedule(BLOCK, 46) == 0x053A37CD && Schedule(BLOCK, 47) == 0x74458547
  {
    hide Schedule;
    Words16();
    Word(32, 0x000000F0, 0x85898EC1, 0x00000030, 0xC2C4C700, 0x8E9A9202);
    Word(33, 0x93AFB507, 0x16263806, 0x85898E01, 0x00000000, 0x00000600);
    Word(34, 0x5898E048, 0x00000000, 0x00000000, 0x00000030, 0xB131C0F0);
    Word(35, 0x8E9A9202, 0x00000180, 0x00000060, 0x85898E01, 0x16263BC6);
    Word(36, 0x00000600, 0x2C4C700C, 0x0B131C03, 0x00000000, 0x4EBED41E);
    Word(37, 0xB131C0F0, 0x000000F0, 0x00000030, 0x00000060, 0x626380A1);
    Word(38, 0x16263BC6, 0x93AFB507, 0x85898EC1, 0x0B131C03, 0x16263806);
    Word(39, 0x4EBED41E, 0x5898E048, 0x16263806, 0x00000030, 0x000018C0);
    Word(40, 0x626380A1, 0x8E9A9202, 0x00000000, 0x85898EC1, 0xD2E138C4);
    Word(41, 0x16263806, 0x00000600, 0x00000180, 0x16263806, 0x00000F00);
    Word(42, 0x000018C0, 0xB131C0F0, 0x2C4C700C, 0x00000000, 0x3AFB5079);
    Word(43, 0xD2E138C4, 0x16263BC6, 0x000000F0, 0x00000180, 0x898E04E5);
    Word(44, 0x00000F00, 0x4EBED41E, 0x93AFB507, 0x2C4C700C, 0xE2BA3C2B);
    Word(45, 0x3AFB5079, 0x626380A1, 0x5898E048, 0x000000F0, 0x000060C0);
    Word(46, 0x898E04E5, 0x16263806, 0x8E9A9202, 0x93AFB507, 0x053A37CD);
    Word(47, 0xE2BA3C2B, 0x000018C0, 0x00000600, 0x5898E048, 0x74458547);
  }

  lemma Words48()
    ensures Schedule(BLOCK, 48) == 0xDA9415ED && Schedule(BLOCK, 49) == 0x26380A16 && Schedule(BLOCK, 50) == 0x626383A1 && Schedule(BLOCK, 51) == 0x4EBF54DE
    ensures Schedule(BLOCK, 52) == 0x3835B44B && Schedule(BLOCK, 53) == 0x0000F600 && Schedule(BLOCK, 54) == 0x1E84C7A3 && Schedule(BLOCK, 55) == 0x98E04D98
    ensures Schedule(BLOCK, 56) == 0x651D16A0 && Schedule(BLOCK, 57) == 0x62658CA1 && Schedule(BLOCK, 58) == 0x458544D6 && Schedule(BLOCK, 59) == 0x44584CB7
    ensures Schedule(BLOCK, 60) == 0x7BA06619 && Schedule(BLOCK, 61) == 0x6380AEA2 && Schedule(BLOCK, 62) == 0x0AE55269 && Schedule(BLOCK, 63) == 0x627B49A1
  {
    hide Schedule;
    Words32();
    Word(48, 0x000060C0, 0xD2E138C4, 0xB131C0F0, 0x8E9A9202, 0xDA9415ED);
    Word(49, 0x053A37CD, 0x00000F00, 0x16263BC6, 0x00000600, 0x26380A16);
    Word(50, 0x74458547, 0x3AFB5079, 0x4EBED41E, 0xB131C0F0, 0x626383A1);
    Word(51, 0xDA9415ED, 0x898E04E5, 0x626380A1, 0x16263BC6, 0x4EBF54DE);
    Word(52, 0x26380A16, 0xE2BA3C2B, 0x16263806, 0x4EBED41E, 0x3835B44B);
    Word(53, 0x626383A1, 0x000060C0, 0x000018C0, 0x626380A1, 0x0000F600);
    Word(54, 0x4EBF54DE, 0x053A37CD, 0xD2E138C4, 0x16263806, 0x1E84C7A3);
    Word(55, 0x3835B44B, 0x74458547, 0x00000F00, 0x000018C0, 0x98E04D98);
    Word(56, 0x0000F600, 0xDA9415ED, 0x3AFB5079, 0xD2E138C4, 0x651D16A0);
    Word(57, 0x1E84C7A3, 0x26380A16, 0x898E04E5, 0x00000F00, 0x62658CA1);
    Word(58, 0x98E04D98, 0x626383A1, 0xE2BA3C2B, 0x3AFB5079, 0x458544D6);
    Word(59, 0x651D16A0, 0x4EBF54DE, 0x000060C0, 0x898E04E5, 0x44584CB7);
    Word(60, 0x62658CA1, 0x3835B44B, 0x053A37CD, 0xE2BA3C2B, 0x7BA06619);
    Word(61, 0x458544D6, 0x0000F600, 0x74458547, 0x000060C0, 0x6380AEA2);
    Word(62, 0x44584CB7, 0x1E84C7A3, 0xDA9415ED, 0x053A37CD, 0x0AE55269);
    Word(63, 0x7BA06619, 0x98E04D98, 0x26380A16, 0x74458547, 0x627B49A1);
  }

  lemma Words64()
    ensures Schedule(BLOCK, 64) == 0x7CD45C9D && Schedule(BLOCK, 65) == 0x000F0000 && Schedule(BLOCK, 66) == 0xFB50753A && Schedule(BLOCK, 67) == 0xEC6765E8
    ensures Schedule(BLOCK, 68) == 0xBA3C2BE2 && Schedule(BLOCK, 69) == 0x0060C000 && Schedule(BLOCK, 70) == 0x3A37CD05 && Schedule(BLOCK, 71) == 0x458546F4
    ensures Schedule(BLOCK, 72) == 0xB8599DD6 && Schedule(BLOCK, 73) == 0x380A1A26 && Schedule(BLOCK, 74) == 0x01E02203 && Schedule(BLOCK, 75) == 0xE7CC3456
    ensures Schedule(BLOCK, 76) == 0xE6E60B69 && Schedule(BLOCK, 77) == 0x00F60A00 && Schedule(BLOCK, 78) == 0x5795EF4F && Schedule(BLOCK, 79) == 0x822E0879
  {
    hide Schedule;
    Words48();
    Word(64, 0x6380AEA2, 0x651D16A0, 0x626383A1, 0xDA9415ED, 0x7CD45C9D);
    Word(65, 0x0AE55269, 0x62658CA1, 0x4EBF54DE, 0x26380A16, 0x000F0000);
    Word(66, 0x627B49A1, 0x458544D6, 0x3835B44B, 0x626383A1, 0xFB50753A);
    Word(67, 0x7CD45C9D, 0x44584CB7, 0x0000F600, 0x4EBF54DE, 0xEC6765E8);
    Word(68, 0x000F0000, 0x7BA06619, 0x1E84C7A3, 0x3835B44B, 0xBA3C2BE2);
    Word(69, 0xFB50753A, 0x6380AEA2, 0x98E04D98, 0x0000F600, 0x0060C000);
    Word(70, 0xEC6765E8, 0x0AE55269, 0x651D16A0, 0x1E84C7A3, 0x3A37CD05);
    Word(71, 0xBA3C2BE2, 0x627B49A1, 0x62658CA1, 0x98E04D98, 0x458546F4);
    Word(72, 0x0060C000, 0x7CD45C9D, 0x458544D6, 0x651D16A0, 0xB8599DD6);
    Word(73, 0x3A37CD05, 0x000F0000, 0x44584CB7, 0x62658CA1, 0x380A1A26);
    Word(74, 0x458546F4, 0xFB50753A, 0x7BA06619, 0x458544D6, 0x01E02203);
    Word(75, 0xB8599DD6, 0xEC6765E8, 0x6380AEA2, 0x44584CB7, 0xE7CC3456);
    Word(76, 0x380A1A26, 0xBA3C2BE2, 0x0AE55269, 0x7BA06619, 0xE6E60B69);
    Word(77, 0x01E02203, 0x0060C000, 0x627B49A1, 0x6380AEA2, 0x00F60A00);
    Word(78, 0xE7CC3456, 0x3A37CD05, 0x7CD45C9D, 0x0AE55269, 0x5795EF4F);
    Word(79, 0xE6E60B69, 0x458546F4, 0x000F0000, 0x627B49A1, 0x822E0879);
  }

  /** One round from known words. */
  lemma Round(t: nat, s: Words, word: bv32, a: bv32)
    requires t < 80 && Rounds(INITIAL, BLOCK, t) == s && Schedule(BLOCK, t) == word
    requires RoundWord(t, s.a, s.b, s.c, s.d, s.e, word) == a
    ensures Rounds(INITIAL, BLOCK, t + 1) == Words(a, s.a, RotLeft30(s.b), s.c, s.d)
  {
    hide Rounds;
    hide Schedule;
    hide RoundWord;
    hide RotLeft30;
    RoundsStep(INITIAL, BLOCK, t);
  }

  lemma Rounds10()
    ensures Rounds(INITIAL, BLOCK, 10) == Words(0x8351F929, 0x4B6AE328, 0x27A301F5, 0x664F8C30, 0x0FF1F290)
  {
    hide Rounds;
    hide Schedule;
    RoundsNone(INITIAL, BLOCK);
    Words0();
    Round(0, Words(0x67452301, 0xEFCDAB89, 0x98BADCFE, 0x10325476, 0xC3D2E1F0), 0x61626380, 0x0116FC33);
    Round(1, Words(0x0116FC33, 0x67452301, 0x7BF36AE2, 0x98BADCFE, 0x10325476), 0x00000000, 0x8990536D);
    Round(2, Words(0x8990536D, 0x0116FC33, 0x59D148C0, 0x7BF36AE2, 0x98BADCFE), 0x00000000, 0xA1390F08);
    Round(3, Words(0xA1390F08, 0x8990536D, 0xC045BF0C, 0x59D148C0, 0x7BF36AE2), 0x00000000, 0xCDD8E11B);
    Round(4, Words(0xCDD8E11B, 0xA1390F08, 0x626414DB, 0xC045BF0C, 0x59D148C0), 0x00000000, 0xCFD499DE);
    Round(5, Words(0xCFD499DE, 0xCDD8E11B, 0x284E43C2, 0x626414DB, 0xC045BF0C), 0x00000000, 0x3FC7CA40);
    Round(6, Words(0x3FC7CA40, 0xCFD499DE, 0xF3763846, 0x284E43C2, 0x626414DB), 0x00000000, 0x993E30C1);
    Round(7, Words(0x993E30C1, 0x3FC7CA40, 0xB3F52677, 0xF3763846, 0x284E43C2), 0x00000000, 0x9E8C07D4);
    Round(8, Words(0x9E8C07D4, 0x993E30C1, 0x0FF1F290, 0xB3F52677, 0xF3763846), 0x00000000, 0x4B6AE328);
    Round(9, Words(0x4B6AE328, 0x9E8C07D4, 0x664F8C30, 0x0FF1F290, 0xB3F52677), 0x00000000, 0x8351F929);
  }

  lemma Rounds20()
    ensures Rounds(INITIAL, BLOCK, 20) == Words(0xFD9E1D7D, 0xDC64901D, 0x20AA99CA, 0xD3A49608, 0xC82F758B)
  {
    hide Rounds;
    hide Schedule;
    Rounds10();
    Words0();
    Words16();
    Round(10, Words(0x8351F929, 0x4B6AE328, 0x27A301F5, 0x664F8C30, 0x0FF1F290), 0x00000000, 0xFBDA9E89);
    Round(11, Words(0xFBDA9E89, 0x8351F929, 0x12DAB8CA, 0x27A301F5, 0x664F8C30), 0x00000000, 0x63188FE4);
    Round(12, Words(0x63188FE4, 0xFBDA9E89, 0x60D47E4A, 0x12DAB8CA, 0x27A301F5), 0x00000000, 0x4607B664);
    Round(13, Words(0x4607B664, 0x63188FE4, 0x7EF6A7A2, 0x60D47E4A, 0x12DAB8CA), 0x00000000, 0x9128F695);
    Round(14, Words(0x9128F695, 0x4607B664, 0x18C623F9, 0x7EF6A7A2, 0x60D47E4A), 0x00000000, 0x196BEE77);
    Round(15, Words(0x196BEE77, 0x9128F695, 0x1181ED99, 0x18C623F9, 0x7EF6A7A2), 0x00000018, 0x20BDD62F);
    Round(16, Words(0x20BDD62F, 0x196BEE77, 0x644A3DA5, 0x1181ED99, 0x18C623F9), 0xC2C4C700, 0x4E925823);
    Round(17, Words(0x4E925823, 0x20BDD62F, 0xC65AFB9D, 0x644A3DA5, 0x1181ED99), 0x00000000, 0x82AA6728);
    Round(18, Words(0x82AA6728, 0x4E925823, 0xC82F758B, 0xC65AFB9D, 0x644A3DA5), 0x00000030, 0xDC64901D);
    Round(19, Words(0xDC64901D, 0x82AA6728, 0xD3A49608, 0xC82F758B, 0xC65AFB9D), 0x85898E01, 0xFD9E1D7D);
  }

  lemma Rounds30()
    ensures Rounds(INITIAL, BLOCK, 30) == Words(0xC5FBAF5D, 0x8370B52E, 0xD2AA1365, 0x6F8D7EF5, 0x12104EE9)
  {
    hide Rounds;
    hide Schedule;
    Rounds20();
    Words16();
    Round(20, Words(0xFD9E1D7D, 0xDC64901D, 0x20AA99CA, 0xD3A49608, 0xC82F758B), 0x00000000, 0x1A37B0CA);
    Round(21, Words(0x1A37B0CA, 0xFD9E1D7D, 0x77192407, 0x20AA99CA, 0xD3A49608), 0x00000060, 0x33A23BFC);
    Round(22, Words(0x33A23BFC, 0x1A37B0CA, 0x7F67875F, 0x77192407, 0x20AA99CA), 0x0B131C03, 0x21283486);
    Round(23, Words(0x21283486, 0x33A23BFC, 0x868DEC32, 0x7F67875F, 0x77192407), 0x00000030, 0xD541F12D);
    Round(24, Words(0xD541F12D, 0x21283486, 0x0CE88EFF, 0x868DEC32, 0x7F67875F), 0x85898EC1, 0xC7567DC6);
    Round(25, Words(0xC7567DC6, 0xD541F12D, 0x884A0D21, 0x0CE88EFF, 0x868DEC32), 0x16263806, 0x48413BA4);
    Round(26, Words(0x48413BA4, 0xC7567DC6, 0x75507C4B, 0x884A0D21, 0x0CE88EFF), 0x00000000, 0xBE35FBD5);
    Round(27, Words(0xBE35FBD5, 0x48413BA4, 0xB1D59F71, 0x75507C4B, 0x884A0D21), 0x00000180, 0x4AA84D97);
    Round(28, Words(0x4AA84D97, 0xBE35FBD5, 0x12104EE9, 0xB1D59F71, 0x75507C4B), 0x2C4C700C, 0x8370B52E);
    Round(29, Words(0x8370B52E, 0x4AA84D97, 0x6F8D7EF5, 0x12104EE9, 0xB1D59F71), 0x000000F0, 0xC5FBAF5D);
  }

  lemma Rounds40()
    ensures Rounds(INITIAL, BLOCK, 40) == Words(0x32DE1CBA, 0x4C986405, 0xF718E5CF, 0x03D447F6, 0xF72EEC32)
  {
    hide Rounds;
    hide Schedule;
    Rounds30();
    Words16();
    Words32();
    Round(30, Words(0xC5FBAF5D, 0x8370B52E, 0xD2AA1365, 0x6F8D7EF5, 0x12104EE9), 0x93AFB507, 0x1267B407);
    Round(31, Words(0x1267B407, 0xC5FBAF5D, 0xA0DC2D4B, 0xD2AA1365, 0x6F8D7EF5), 0x5898E048, 0x3B845D33);
    Round(32, Words(0x3B845D33, 0x1267B407, 0x717EEBD7, 0xA0DC2D4B, 0xD2AA1365), 0x8E9A9202, 0x046FAA0A);
    Round(33, Words(0x046FAA0A, 0x3B845D33, 0xC499ED01, 0x717EEBD7, 0xA0DC2D4B), 0x00000600, 0x2C0EBC11);
    Round(34, Words(0x2C0EBC11, 0x046FAA0A, 0xCEE1174C, 0xC499ED01, 0x717EEBD7), 0xB131C0F0, 0x21796AD4);
    Round(35, Words(0x21796AD4, 0x2C0EBC11, 0x811BEA82, 0xCEE1174C, 0xC499ED01), 0x16263BC6, 0xDCBBB0CB);
    Round(36, Words(0xDCBBB0CB, 0x21796AD4, 0x4B03AF04, 0x811BEA82, 0xCEE1174C), 0x4EBED41E, 0x0F511FD8);
    Round(37, Words(0x0F511FD8, 0xDCBBB0CB, 0x085E5AB5, 0x4B03AF04, 0x811BEA82), 0x626380A1, 0xDC63973F);
    Round(38, Words(0xDC63973F, 0x0F511FD8, 0xF72EEC32, 0x085E5AB5, 0x4B03AF04), 0x16263806, 0x4C986405);
    Round(39, Words(0x4C986405, 0xDC63973F, 0x03D447F6, 0xF72EEC32, 0x085E5AB5), 0x000018C0, 0x32DE1CBA);
  }

  lemma Rounds50()
    ensures Rounds(INITIAL, BLOCK, 50) == Words(0x120731C5, 0xBAF39337, 0xAFAB40B2, 0x2806E11B, 0x8714787C)
  {
    hide Rounds;
    hide Schedule;
    Rounds40();
    Words32();
    Words48();
    Round(40, Words(0x32DE1CBA, 0x4C986405, 0xF718E5CF, 0x03D447F6, 0xF72EEC32), 0xD2E138C4, 0xFC87DEDF);
    Round(41, Words(0xFC87DEDF, 0x32DE1CBA, 0x53261901, 0xF718E5CF, 0x03D447F6), 0x00000F00, 0x970A0D5C);
    Round(42, Words(0x970A0D5C, 0xFC87DEDF, 0x8CB7872E, 0x53261901, 0xF718E5CF), 0x3AFB5079, 0x7F193DC5);
    Round(43, Words(0x7F193DC5, 0x970A0D5C, 0xFF21F7B7, 0x8CB7872E, 0x53261901), 0x898E04E5, 0xEE1B1AAF);
    Round(44, Words(0xEE1B1AAF, 0x7F193DC5, 0x25C28357, 0xFF21F7B7, 0x8CB7872E), 0xE2BA3C2B, 0x40F28E09);
    Round(45, Words(0x40F28E09, 0xEE1B1AAF, 0x5FC64F71, 0x25C28357, 0xFF21F7B7), 0x000060C0, 0x1C51E1F2);
    Round(46, Words(0x1C51E1F2, 0x40F28E09, 0xFB86C6AB, 0x5FC64F71, 0x25C28357), 0x053A37CD, 0xA01B846C);
    Round(47, Words(0xA01B846C, 0x1C51E1F2, 0x503CA382, 0xFB86C6AB, 0x5FC64F71), 0x74458547, 0xBEAD02CA);
    Round(48, Words(0xBEAD02CA, 0xA01B846C, 0x8714787C, 0x503CA382, 0xFB86C6AB), 0xDA9415ED, 0xBAF39337);
    Round(49, Words(0xBAF39337, 0xBEAD02CA, 0x2806E11B, 0x8714787C, 0x503CA382), 0x26380A16, 0x120731C5);
  }

  lemma Rounds60()
    ensures Rounds(INITIAL, BLOCK, 60) == Words(0x3F52DE5A, 0x09D785FD, 0x3498BFD4, 0xF211824F, 0xD79915AB)
  {
    hide Rounds;
    hide Schedule;
    Rounds50();
    Words48();
    Round(50, Words(0x120731C5, 0xBAF39337, 0xAFAB40B2, 0x2806E11B, 0x8714787C), 0x626383A1, 0x641DB2CE);
    Round(51, Words(0x641DB2CE, 0x120731C5, 0xEEBCE4CD, 0xAFAB40B2, 0x2806E11B), 0x4EBF54DE, 0x3847AD66);
    Round(52, Words(0x3847AD66, 0x641DB2CE, 0x4481CC71, 0xEEBCE4CD, 0xAFAB40B2), 0x3835B44B, 0xE490436D);
    Round(53, Words(0xE490436D, 0x3847AD66, 0x99076CB3, 0x4481CC71, 0xEEBCE4CD), 0x0000F600, 0x27E9F1D8);
    Round(54, Words(0x27E9F1D8, 0xE490436D, 0x8E11EB59, 0x99076CB3, 0x4481CC71), 0x1E84C7A3, 0x7B71F76D);
    Round(55, Words(0x7B71F76D, 0x27E9F1D8, 0x792410DB, 0x8E11EB59, 0x99076CB3), 0x98E04D98, 0x5E6456AF);
    Round(56, Words(0x5E6456AF, 0x7B71F76D, 0x09FA7C76, 0x792410DB, 0x8E11EB59), 0x651D16A0, 0xC846093F);
    Round(57, Words(0xC846093F, 0x5E6456AF, 0x5EDC7DDB, 0x09FA7C76, 0x792410DB), 0x62658CA1, 0xD262FF50);
    Round(58, Words(0xD262FF50, 0xC846093F, 0xD79915AB, 0x5EDC7DDB, 0x09FA7C76), 0x458544D6, 0x09D785FD);
    Round(59, Words(0x09D785FD, 0xD262FF50, 0xF211824F, 0xD79915AB, 0x5EDC7DDB), 0x44584CB7, 0x3F52DE5A);
  }

  lemma Rounds70()
    ensures Rounds(INITIAL, BLOCK, 70) == Words(0x3F2588C2, 0x497093C0, 0xDE37534A, 0x030F7CAD, 0x4405957E)
  {
    hide Rounds;
    hide Schedule;
    Rounds60();
    Words48();
    Words64();
    Round(60, Words(0x3F52DE5A, 0x09D785FD, 0x3498BFD4, 0xF211824F, 0xD79915AB), 0x7BA06619, 0xD756C147);
    Round(61, Words(0xD756C147, 0x3F52DE5A, 0x4275E17F, 0x3498BFD4, 0xF211824F), 0x6380AEA2, 0x548C9CB2);
    Round(62, Words(0x548C9CB2, 0xD756C147, 0x8FD4B796, 0x4275E17F, 0x3498BFD4), 0x0AE55269, 0xB66C020B);
    Round(63, Words(0xB66C020B, 0x548C9CB2, 0xF5D5B051, 0x8FD4B796, 0x4275E17F), 0x627B49A1, 0x6B61C9E1);
    Round(64, Words(0x6B61C9E1, 0xB66C020B, 0x9523272C, 0xF5D5B051, 0x8FD4B796), 0x7CD45C9D, 0x19DFA7AC);
    Round(65, Words(0x19DFA7AC, 0x6B61C9E1, 0xED9B0082, 0x9523272C, 0xF5D5B051), 0x000F0000, 0x101655F9);
    Round(66, Words(0x101655F9, 0x19DFA7AC, 0x5AD87278, 0xED9B0082, 0x9523272C), 0xFB50753A, 0x0C3DF2B4);
    Round(67, Words(0x0C3DF2B4, 0x101655F9, 0x0677E9EB, 0x5AD87278, 0xED9B0082), 0xEC6765E8, 0x78DD4D2B);
    Round(68, Words(0x78DD4D2B, 0x0C3DF2B4, 0x4405957E, 0x0677E9EB, 0x5AD87278), 0xBA3C2BE2, 0x497093C0);
    Round(69, Words(0x497093C0, 0x78DD4D2B, 0x030F7CAD, 0x4405957E, 0x0677E9EB), 0x0060C000, 0x3F2588C2);
  }

  lemma Rounds80()
    ensures Rounds(INITIAL, BLOCK, 80) == Words(0x42541B35, 0x5738D5E1, 0x21834873, 0x681E6DF6, 0xD8FDF6AD)
  {
    hide Rounds;
    hide Schedule;
    Rounds70();
    Words64();
    Round(70, Words(0x3F2588C2, 0x497093C0, 0xDE37534A, 0x030F7CAD, 0x4405957E), 0x3A37CD05, 0xC199F8C7);
    Round(71, Words(0xC199F8C7, 0x3F2588C2, 0x125C24F0, 0xDE37534A, 0x030F7CAD), 0x458546F4, 0x39859DE7);
    Round(72, Words(0x39859DE7, 0xC199F8C7, 0x8FC96230, 0x125C24F0, 0xDE37534A), 0xB8599DD6, 0xEDB42DE4);
    Round(73, Words(0xEDB42DE4, 0x39859DE7, 0xF0667E31, 0x8FC96230, 0x125C24F0), 0x380A1A26, 0x11793F6F);
    Round(74, Words(0x11793F6F, 0xEDB42DE4, 0xCE616779, 0xF0667E31, 0x8FC96230), 0x01E02203, 0x5EE76897);
    Round(75, Words(0x5EE76897, 0x11793F6F, 0x3B6D0B79, 0xCE616779, 0xF0667E31), 0xE7CC3456, 0x63F7DAB7);
    Round(76, Words(0x63F7DAB7, 0x5EE76897, 0xC45E4FDB, 0x3B6D0B79, 0xCE616779), 0xE6E60B69, 0xA079B7D9);
    Round(77, Words(0xA079B7D9, 0x63F7DAB7, 0xD7B9DA25, 0xC45E4FDB, 0x3B6D0B79), 0x00F60A00, 0x860D21CC);
    Round(78, Words(0x860D21CC, 0xA079B7D9, 0xD8FDF6AD, 0xD7B9DA25, 0xC45E4FDB), 0x5795EF4F, 0x5738D5E1);
    Round(79, Words(0x5738D5E1, 0x860D21CC, 0x681E6DF6, 0xD8FDF6AD, 0xD7B9DA25), 0x822E0879, 0x42541B35);
  }

  /** "abc" hashes to a9993e36 4706816a ba3e2571 7850c26c 9cd0d89d. */
  lemma AbcDigest()
    ensures Hash(ABC) == [
      0xA9, 0x99, 0x3E, 0x36, 0x47, 0x06, 0x81, 0x6A, 0xBA, 0x3E,
      0x25, 0x71, 0x78, 0x50, 0xC2, 0x6C, 0x9C, 0xD0, 0xD8, 0x9D]
  {
    hide Rounds;
    hide Schedule;
    hide Padding;
    Rounds80();
    BlockIs();
    FoldBlock(INITIAL, [], BLOCK);
    assert [] + BLOCK == BLOCK && Fold(INITIAL, []) == INITIAL;
    assert Fold(INITIAL, BLOCK) == Words(0xA9993E36, 0x4706816A, 0xBA3E2571, 0x7850C26C, 0x9CD0D89D);
  }
}
