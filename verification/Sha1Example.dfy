/** The digest of "abc", which section 7.3 of RFC 3174 lists, worked out word by word. */
module Sha1Examples {
  import opened Sha1Spec

  const ABC: seq<Byte> := [0x61, 0x62, 0x63]

  // ----------------------------------------------------------------- single steps

  lemma Rotations(x: bv32)
    ensures Rotl(x, 1) == (x << 1) | (x >> 31)
    ensures Rotl(x, 5) == (x << 5) | (x >> 27)
    ensures Rotl(x, 30) == (x << 30) | (x >> 2)
  {}

  /** The words that enter into a word of the schedule. */
  function Mixed(block: seq<Byte>, t: nat): bv32
    requires |block| == 64 && 16 <= t < 80
  {
    Schedule(block, t - 3) ^ Schedule(block, t - 8) ^ Schedule(block, t - 14) ^ Schedule(block, t - 16)
  }

  lemma Extend(block: seq<Byte>, t: nat)
    requires |block| == 64 && 16 <= t < 80
    ensures Schedule(block, t) == (Mixed(block, t) << 1) | (Mixed(block, t) >> 31)
  {
    hide Rotl, Word;
    Rotations(Mixed(block, t));
  }

  lemma RoundIs(r: Words, t: nat, w: bv32)
    ensures Round(r, t, w).a == Sum((r.a << 5) | (r.a >> 27), F(t, r.b, r.c, r.d), r.e, w, K(t))
    ensures Round(r, t, w).b == r.a && Round(r, t, w).c == (r.b << 30) | (r.b >> 2)
    ensures Round(r, t, w).d == r.c && Round(r, t, w).e == r.d
  {
    hide Rotl, F, K, Sum;
    Rotations(r.a);
    Rotations(r.b);
  }

  lemma Turn(block: seq<Byte>, t: nat)
    requires |block| == 64 && t < 80
    ensures var r, w := Rounds(INITIAL, block, t), Schedule(block, t);
            && Rounds(INITIAL, block, t + 1) == Round(r, t, w)
            && Round(r, t, w).a == Sum((r.a << 5) | (r.a >> 27), F(t, r.b, r.c, r.d), r.e, w, K(t))
            && Round(r, t, w).b == r.a && Round(r, t, w).c == (r.b << 30) | (r.b >> 2)
            && Round(r, t, w).d == r.c && Round(r, t, w).e == r.d
  {
    RoundIs(Rounds(INITIAL, block, t), t, Schedule(block, t));
    hide Round, Schedule, F, K, Sum;
  }

  // ------------------------------------------------------------------ the schedule

  /** Ten words of the schedule, from word `first` on. */
  ghost predicate ScheduleIs(block: seq<Byte>, first: nat, ws: seq<bv32>)
    requires |block| == 64 && |ws| == 10 && first + 10 <= 80
  {
    && Schedule(block, first + 0) == ws[0] && Schedule(block, first + 1) == ws[1] && Schedule(block, first + 2) == ws[2]
    && Schedule(block, first + 3) == ws[3] && Schedule(block, first + 4) == ws[4] && Schedule(block, first + 5) == ws[5]
    && Schedule(block, first + 6) == ws[6] && Schedule(block, first + 7) == ws[7] && Schedule(block, first + 8) == ws[8]
    && Schedule(block, first + 9) == ws[9]
  }

  const WORDS_0: seq<bv32> := [
    0x61626380, 0x00000000, 0x00000000, 0x00000000, 0x00000000,
    0x00000000, 0x00000000, 0x00000000, 0x00000000, 0x00000000]
  const WORDS_1: seq<bv32> := [
    0x00000000, 0x00000000, 0x00000000, 0x00000000, 0x00000000,
    0x00000018, 0xC2C4C700, 0x00000000, 0x00000030, 0x85898E01]
  const WORDS_2: seq<bv32> := [
    0x00000000, 0x00000060, 0x0B131C03, 0x00000030, 0x85898EC1,
    0x16263806, 0x00000000, 0x00000180, 0x2C4C700C, 0x000000F0]
  const WORDS_3: seq<bv32> := [
    0x93AFB507, 0x5898E048, 0x8E9A9202, 0x00000600, 0xB131C0F0,
    0x16263BC6, 0x4EBED41E, 0x626380A1, 0x16263806, 0x000018C0]
  const WORDS_4: seq<bv32> := [
    0xD2E138C4, 0x00000F00, 0x3AFB5079, 0x898E04E5, 0xE2BA3C2B,
    0x000060C0, 0x053A37CD, 0x74458547, 0xDA9415ED, 0x26380A16]
  const WORDS_5: seq<bv32> := [
    0x626383A1, 0x4EBF54DE, 0x3835B44B, 0x0000F600, 0x1E84C7A3,
    0x98E04D98, 0x651D16A0, 0x62658CA1, 0x458544D6, 0x44584CB7]
  const WORDS_6: seq<bv32> := [
    0x7BA06619, 0x6380AEA2, 0x0AE55269, 0x627B49A1, 0x7CD45C9D,
    0x000F0000, 0xFB50753A, 0xEC6765E8, 0xBA3C2BE2, 0x0060C000]
  const WORDS_7: seq<bv32> := [
    0x3A37CD05, 0x458546F4, 0xB8599DD6, 0x380A1A26, 0x01E02203,
    0xE7CC3456, 0xE6E60B69, 0x00F60A00, 0x5795EF4F, 0x822E0879]

  /** The padded message is one block. */
  lemma PaddedAbc()
    ensures |Padded(ABC)| == 64
    ensures Padded(ABC)[0] == 0x61 && Padded(ABC)[1] == 0x62 && Padded(ABC)[2] == 0x63 && Padded(ABC)[3] == 0x80
    ensures forall i :: 4 <= i < 63 ==> Padded(ABC)[i] == 0
    ensures Padded(ABC)[63] == 24
  {
    assert PaddingZeros(3) == 52;
    LengthOfAbc();
    hide PaddingZeros, BigEndian, Zeros;
  }

  lemma LengthOfAbc()
    ensures BigEndian(24, 8)[7] == 24 && forall i :: 0 <= i < 7 ==> BigEndian(24, 8)[i] == 0
  {
    BigEndianStep(24, 8);
    NoBytes(7);
    hide BigEndian;
  }

  lemma {:induction false} NoBytes(k: nat)
    ensures BigEndian(0, k) == Zeros(k)
  {
    if k > 0 {
      NoBytes(k - 1);
    }
  }

  /** Words 0 to 15 are the block itself. */
  lemma MessageWord(t: nat)
    requires t < 16
    ensures |Padded(ABC)| == 64
    ensures Schedule(Padded(ABC), t) == if t == 0 then 0x61626380 else if t == 15 then 0x18 else 0
  {
    PaddedAbc();
    var b := Padded(ABC);
    assert Schedule(b, t) == Word(b[4 * t], b[4 * t + 1], b[4 * t + 2], b[4 * t + 3]);
    hide Schedule, Padded, Word;
    LiteralWords();
  }

  lemma LiteralWords()
    ensures Word(0x61, 0x62, 0x63, 0x80) == 0x61626380 && Word(0, 0, 0, 24) == 0x18 && Word(0, 0, 0, 0) == 0
  {}

  lemma Schedule0()
    requires |Padded(ABC)| == 64
    ensures ScheduleIs(Padded(ABC), 0, WORDS_0)
  {
    hide Schedule, Padded;
    MessageWord(0);
    MessageWord(1);
    MessageWord(2);
    MessageWord(3);
    MessageWord(4);
    MessageWord(5);
    MessageWord(6);
    MessageWord(7);
    MessageWord(8);
    MessageWord(9);
  }

  lemma Schedule1()
    requires |Padded(ABC)| == 64
    requires ScheduleIs(Padded(ABC), 0, WORDS_0)
    ensures ScheduleIs(Padded(ABC), 10, WORDS_1)
  {
    hide Schedule, Padded;
    MessageWord(10);
    MessageWord(11);
    MessageWord(12);
    MessageWord(13);
    MessageWord(14);
    MessageWord(15);
    Extend(Padded(ABC), 16);
    Extend(Padded(ABC), 17);
    Extend(Padded(ABC), 18);
    Extend(Padded(ABC), 19);
  }

  lemma Schedule2()
    requires |Padded(ABC)| == 64
    requires ScheduleIs(Padded(ABC), 0, WORDS_0) && ScheduleIs(Padded(ABC), 10, WORDS_1)
    ensures ScheduleIs(Padded(ABC), 20, WORDS_2)
  {
    hide Schedule, Padded;
    Extend(Padded(ABC), 20);
    Extend(Padded(ABC), 21);
    Extend(Padded(ABC), 22);
    Extend(Padded(ABC), 23);
    Extend(Padded(ABC), 24);
    Extend(Padded(ABC), 25);
    Extend(Padded(ABC), 26);
    Extend(Padded(ABC), 27);
    Extend(Padded(ABC), 28);
    Extend(Padded(ABC), 29);
  }

  lemma Schedule3()
    requires |Padded(ABC)| == 64
    requires ScheduleIs(Padded(ABC), 10, WORDS_1) && ScheduleIs(Padded(ABC), 20, WORDS_2)
    ensures ScheduleIs(Padded(ABC), 30, WORDS_3)
  {
    hide Schedule, Padded;
    Extend(Padded(ABC), 30);
    Extend(Padded(ABC), 31);
    Extend(Padded(ABC), 32);
    Extend(Padded(ABC), 33);
    Extend(Padded(ABC), 34);
    Extend(Padded(ABC), 35);
    Extend(Padded(ABC), 36);
    Extend(Padded(ABC), 37);
    Extend(Padded(ABC), 38);
    Extend(Padded(ABC), 39);
  }

  lemma Schedule4()
    requires |Padded(ABC)| == 64
    requires ScheduleIs(Padded(ABC), 20, WORDS_2) && ScheduleIs(Padded(ABC), 30, WORDS_3)
    ensures ScheduleIs(Padded(ABC), 40, WORDS_4)
  {
    hide Schedule, Padded;
    Extend(Padded(ABC), 40);
    Extend(Padded(ABC), 41);
    Extend(Padded(ABC), 42);
    Extend(Padded(ABC), 43);
    Extend(Padded(ABC), 44);
    Extend(Padded(ABC), 45);
    Extend(Padded(ABC), 46);
    Extend(Padded(ABC), 47);
    Extend(Padded(ABC), 48);
    Extend(Padded(ABC), 49);
  }

  lemma Schedule5()
    requires |Padded(ABC)| == 64
    requires ScheduleIs(Padded(ABC), 30, WORDS_3) && ScheduleIs(Padded(ABC), 40, WORDS_4)
    ensures ScheduleIs(Padded(ABC), 50, WORDS_5)
  {
    hide Schedule, Padded;
    Extend(Padded(ABC), 50);
    Extend(Padded(ABC), 51);
    Extend(Padded(ABC), 52);
    Extend(Padded(ABC), 53);
    Extend(Padded(ABC), 54);
    Extend(Padded(ABC), 55);
    Extend(Padded(ABC), 56);
    Extend(Padded(ABC), 57);
    Extend(Padded(ABC), 58);
    Extend(Padded(ABC), 59);
  }

  lemma Schedule6()
    requires |Padded(ABC)| == 64
    requires ScheduleIs(Padded(ABC), 40, WORDS_4) && ScheduleIs(Padded(ABC), 50, WORDS_5)
    ensures ScheduleIs(Padded(ABC), 60, WORDS_6)
  {
    hide Schedule, Padded;
    Extend(Padded(ABC), 60);
    Extend(Padded(ABC), 61);
    Extend(Padded(ABC), 62);
    Extend(Padded(ABC), 63);
    Extend(Padded(ABC), 64);
    Extend(Padded(ABC), 65);
    Extend(Padded(ABC), 66);
    Extend(Padded(ABC), 67);
    Extend(Padded(ABC), 68);
    Extend(Padded(ABC), 69);
  }

  lemma Schedule7()
    requires |Padded(ABC)| == 64
    requires ScheduleIs(Padded(ABC), 50, WORDS_5) && ScheduleIs(Padded(ABC), 60, WORDS_6)
    ensures ScheduleIs(Padded(ABC), 70, WORDS_7)
  {
    hide Schedule, Padded;
    Extend(Padded(ABC), 70);
    Extend(Padded(ABC), 71);
    Extend(Padded(ABC), 72);
    Extend(Padded(ABC), 73);
    Extend(Padded(ABC), 74);
    Extend(Padded(ABC), 75);
    Extend(Padded(ABC), 76);
    Extend(Padded(ABC), 77);
    Extend(Padded(ABC), 78);
    Extend(Padded(ABC), 79);
  }

  // -------------------------------------------------------------------- the rounds

  lemma Rounds0To10(block: seq<Byte>)
    requires |block| == 64 && ScheduleIs(block, 0, WORDS_0)
    ensures Rounds(INITIAL, block, 10) == Words(0x8351F929, 0x4B6AE328, 0x27A301F5, 0x664F8C30, 0x0FF1F290)
  {
    assert Rounds(INITIAL, block, 0) == INITIAL;
    hide Schedule, Rounds, Round;
    Turn(block, 0);
    Turn(block, 1);
    Turn(block, 2);
    Turn(block, 3);
    Turn(block, 4);
    Turn(block, 5);
    Turn(block, 6);
    Turn(block, 7);
    Turn(block, 8);
    Turn(block, 9);
  }

  lemma Rounds10To20(block: seq<Byte>)
    requires |block| == 64 && ScheduleIs(block, 10, WORDS_1)
    requires Rounds(INITIAL, block, 10) == Words(0x8351F929, 0x4B6AE328, 0x27A301F5, 0x664F8C30, 0x0FF1F290)
    ensures Rounds(INITIAL, block, 20) == Words(0xFD9E1D7D, 0xDC64901D, 0x20AA99CA, 0xD3A49608, 0xC82F758B)
  {
    hide Schedule, Rounds, Round;
    Turn(block, 10);
    Turn(block, 11);
    Turn(block, 12);
    Turn(block, 13);
    Turn(block, 14);
    Turn(block, 15);
    Turn(block, 16);
    Turn(block, 17);
    Turn(block, 18);
    Turn(block, 19);
  }

  lemma Rounds20To30(block: seq<Byte>)
    requires |block| == 64 && ScheduleIs(block, 20, WORDS_2)
    requires Rounds(INITIAL, block, 20) == Words(0xFD9E1D7D, 0xDC64901D, 0x20AA99CA, 0xD3A49608, 0xC82F758B)
    ensures Rounds(INITIAL, block, 30) == Words(0xC5FBAF5D, 0x8370B52E, 0xD2AA1365, 0x6F8D7EF5, 0x12104EE9)
  {
    hide Schedule, Rounds, Round;
    Turn(block, 20);
    Turn(block, 21);
    Turn(block, 22);
    Turn(block, 23);
    Turn(block, 24);
    Turn(block, 25);
    Turn(block, 26);
    Turn(block, 27);
    Turn(block, 28);
    Turn(block, 29);
  }

  lemma Rounds30To40(block: seq<Byte>)
    requires |block| == 64 && ScheduleIs(block, 30, WORDS_3)
    requires Rounds(INITIAL, block, 30) == Words(0xC5FBAF5D, 0x8370B52E, 0xD2AA1365, 0x6F8D7EF5, 0x12104EE9)
    ensures Rounds(INITIAL, block, 40) == Words(0x32DE1CBA, 0x4C986405, 0xF718E5CF, 0x03D447F6, 0xF72EEC32)
  {
    hide Schedule, Rounds, Round;
    Turn(block, 30);
    Turn(block, 31);
    Turn(block, 32);
    Turn(block, 33);
    Turn(block, 34);
    Turn(block, 35);
    Turn(block, 36);
    Turn(block, 37);
    Turn(block, 38);
    Turn(block, 39);
  }

  lemma Rounds40To50(block: seq<Byte>)
    requires |block| == 64 && ScheduleIs(block, 40, WORDS_4)
    requires Rounds(INITIAL, block, 40) == Words(0x32DE1CBA, 0x4C986405, 0xF718E5CF, 0x03D447F6, 0xF72EEC32)
    ensures Rounds(INITIAL, block, 50) == Words(0x120731C5, 0xBAF39337, 0xAFAB40B2, 0x2806E11B, 0x8714787C)
  {
    hide Schedule, Rounds, Round;
    Turn(block, 40);
    Turn(block, 41);
    Turn(block, 42);
    Turn(block, 43);
    Turn(block, 44);
    Turn(block, 45);
    Turn(block, 46);
    Turn(block, 47);
    Turn(block, 48);
    Turn(block, 49);
  }

  lemma Rounds50To60(block: seq<Byte>)
    requires |block| == 64 && ScheduleIs(block, 50, WORDS_5)
    requires Rounds(INITIAL, block, 50) == Words(0x120731C5, 0xBAF39337, 0xAFAB40B2, 0x2806E11B, 0x8714787C)
    ensures Rounds(INITIAL, block, 60) == Words(0x3F52DE5A, 0x09D785FD, 0x3498BFD4, 0xF211824F, 0xD79915AB)
  {
    hide Schedule, Rounds, Round;
    Turn(block, 50);
    Turn(block, 51);
    Turn(block, 52);
    Turn(block, 53);
    Turn(block, 54);
    Turn(block, 55);
    Turn(block, 56);
    Turn(block, 57);
    Turn(block, 58);
    Turn(block, 59);
  }

  lemma Rounds60To70(block: seq<Byte>)
    requires |block| == 64 && ScheduleIs(block, 60, WORDS_6)
    requires Rounds(INITIAL, block, 60) == Words(0x3F52DE5A, 0x09D785FD, 0x3498BFD4, 0xF211824F, 0xD79915AB)
    ensures Rounds(INITIAL, block, 70) == Words(0x3F2588C2, 0x497093C0, 0xDE37534A, 0x030F7CAD, 0x4405957E)
  {
    hide Schedule, Rounds, Round;
    Turn(block, 60);
    Turn(block, 61);
    Turn(block, 62);
    Turn(block, 63);
    Turn(block, 64);
    Turn(block, 65);
    Turn(block, 66);
    Turn(block, 67);
    Turn(block, 68);
    Turn(block, 69);
  }

  lemma Rounds70To80(block: seq<Byte>)
    requires |block| == 64 && ScheduleIs(block, 70, WORDS_7)
    requires Rounds(INITIAL, block, 70) == Words(0x3F2588C2, 0x497093C0, 0xDE37534A, 0x030F7CAD, 0x4405957E)
    ensures Rounds(INITIAL, block, 80) == Words(0x42541B35, 0x5738D5E1, 0x21834873, 0x681E6DF6, 0xD8FDF6AD)
  {
    hide Schedule, Rounds, Round;
    Turn(block, 70);
    Turn(block, 71);
    Turn(block, 72);
    Turn(block, 73);
    Turn(block, 74);
    Turn(block, 75);
    Turn(block, 76);
    Turn(block, 77);
    Turn(block, 78);
    Turn(block, 79);
  }

  lemma AbcRounds()
    ensures |Padded(ABC)| == 64
    ensures Rounds(INITIAL, Padded(ABC), 80) == Words(0x42541B35, 0x5738D5E1, 0x21834873, 0x681E6DF6, 0xD8FDF6AD)
  {
    PaddedAbc();
    hide Padded, Schedule, Rounds, ScheduleIs;
    Schedule0();
    Rounds0To10(Padded(ABC));
    Schedule1();
    Rounds10To20(Padded(ABC));
    Schedule2();
    Rounds20To30(Padded(ABC));
    Schedule3();
    Rounds30To40(Padded(ABC));
    Schedule4();
    Rounds40To50(Padded(ABC));
    Schedule5();
    Rounds50To60(Padded(ABC));
    Schedule6();
    Rounds60To70(Padded(ABC));
    Schedule7();
    Rounds70To80(Padded(ABC));
  }

  lemma AbcChain()
    ensures |Padded(ABC)| == 64
    ensures Chain(Padded(ABC), 1) == Words(0xA9993E36, 0x4706816A, 0xBA3E2571, 0x7850C26C, 0x9CD0D89D)
  {
    AbcRounds();
    assert Padded(ABC)[0..64] == Padded(ABC);
    assert Chain(Padded(ABC), 0) == INITIAL;
    hide Padded, Rounds;
  }

  /** A9993E36 4706816A BA3E2571 7850C26C 9CD0D89D. */
  lemma DigestOfAbc()
    ensures Digest(ABC) == [0xA9, 0x99, 0x3E, 0x36, 0x47, 0x06, 0x81, 0x6A, 0xBA, 0x3E,
                            0x25, 0x71, 0x78, 0x50, 0xC2, 0x6C, 0x9C, 0xD0, 0xD8, 0x9D]
  {
    AbcChain();
    hide Padded, Chain, WordBytes;
    DigestBytes();
  }

  lemma DigestBytes()
    ensures WordBytes(0xA9993E36) == [0xA9, 0x99, 0x3E, 0x36]
    ensures WordBytes(0x4706816A) == [0x47, 0x06, 0x81, 0x6A]
    ensures WordBytes(0xBA3E2571) == [0xBA, 0x3E, 0x25, 0x71]
    ensures WordBytes(0x7850C26C) == [0x78, 0x50, 0xC2, 0x6C]
    ensures WordBytes(0x9CD0D89D) == [0x9C, 0xD0, 0xD8, 0x9D]
  {}
}
