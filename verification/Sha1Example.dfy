/**
 The published digest of "abc" as a theorem about `Sha1`, so that no constant, shift or order in its
 definition goes by its own wording only.
 */
module Sha1Example {
  import opened Sha1Spec

  const ABC: seq<Octet> := [0x61, 0x62, 0x63]

  lemma AbcLength()
    ensures Length64(24) == [0, 0, 0, 0, 0, 0, 0, 24]
  {
  }

  /** The one block of the padded message. */
  lemma AbcOctet(i: nat)
    requires i < 64
    ensures |Padded(ABC, 24)| == 64
    ensures Padded(ABC, 24)[i] == if i < 3 then ABC[i] else if i == 3 then 0x80 else if i == 63 then 24 else 0
  {
    hide Length64, Padded;
    PaddedSize(ABC, 24);
    if i < 56 {
      PaddedLayout(ABC, 24, i);
    } else {
      AbcLength();
      assert Padded(ABC, 24)[i] == Padded(ABC, 24)[56..][i - 56];
    }
  }

  lemma AbcWord(b: seq<Octet>, t: nat)
    requires b == Padded(ABC, 24) && t < 16
    ensures |b| == 64 && W(b, t) == if t == 0 then 0x61626380 else if t == 15 then 24 else 0
  {
    hide Padded;
    AbcOctet(4 * t);
    AbcOctet(4 * t + 1);
    AbcOctet(4 * t + 2);
    AbcOctet(4 * t + 3);
  }

  ghost predicate Words(b: seq<Octet>, t: nat, w0: Word, w1: Word, w2: Word, w3: Word,
                        w4: Word, w5: Word, w6: Word, w7: Word)
  {
    && |b| == 64 && t + 8 <= 80
    && W(b, t) == w0 && W(b, t + 1) == w1 && W(b, t + 2) == w2 && W(b, t + 3) == w3
    && W(b, t + 4) == w4 && W(b, t + 5) == w5 && W(b, t + 6) == w6 && W(b, t + 7) == w7
  }

  lemma AbcWords(b: seq<Octet>)
    requires b == Padded(ABC, 24)
    ensures Words(b, 0, 0x61626380, 0, 0, 0, 0, 0, 0, 0) && Words(b, 8, 0, 0, 0, 0, 0, 0, 0, 24)
  {
    hide Padded, W;
    AbcWord(b, 0);
    forall t | 0 <= t < 16 ensures W(b, t) == if t == 0 then 0x61626380 else if t == 15 then 24 else 0 {
      AbcWord(b, t);
    }
  }

  /** Eight more words of the schedule. */
  lemma NextWords(b: seq<Octet>, t: nat, w0: Word, w1: Word, w2: Word, w3: Word,
                  w4: Word, w5: Word, w6: Word, w7: Word)
    requires |b| == 64 && 16 <= t <= 72
    requires Mix(W(b, t - 3), W(b, t - 8), W(b, t - 14), W(b, t - 16)) == w0
    requires Mix(W(b, t - 2), W(b, t - 7), W(b, t - 13), W(b, t - 15)) == w1
    requires Mix(W(b, t - 1), W(b, t - 6), W(b, t - 12), W(b, t - 14)) == w2
    requires Mix(w0, W(b, t - 5), W(b, t - 11), W(b, t - 13)) == w3
    requires Mix(w1, W(b, t - 4), W(b, t - 10), W(b, t - 12)) == w4
    requires Mix(w2, W(b, t - 3), W(b, t - 9), W(b, t - 11)) == w5
    requires Mix(w3, W(b, t - 2), W(b, t - 8), W(b, t - 10)) == w6
    requires Mix(w4, W(b, t - 1), W(b, t - 7), W(b, t - 9)) == w7
    ensures Words(b, t, w0, w1, w2, w3, w4, w5, w6, w7)
  {
    hide Mix, W;
    ScheduleStep(b, t);
    ScheduleStep(b, t + 1);
    ScheduleStep(b, t + 2);
    ScheduleStep(b, t + 3);
    ScheduleStep(b, t + 4);
    ScheduleStep(b, t + 5);
    ScheduleStep(b, t + 6);
    ScheduleStep(b, t + 7);
  }

  function NewA(r: Regs, t: nat, w: Word): Word
    requires t < 80
  {
    Sum5(Rotl(r.a, 5), F(t, r.b, r.c, r.d), r.e, K(t), w)
  }

  /** Four more steps, by the value that each gives `a`. */
  lemma Steps(b: seq<Octet>, t: nat, r: Regs, a1: Word, a2: Word, a3: Word, a4: Word) returns (r': Regs)
    requires |b| == 64 && t <= 76 && Rounds(INITIAL, b, t) == r
    requires NewA(r, t, W(b, t)) == a1
    requires NewA(Regs(a1, r.a, Rotl(r.b, 30), r.c, r.d), t + 1, W(b, t + 1)) == a2
    requires NewA(Regs(a2, a1, Rotl(r.a, 30), Rotl(r.b, 30), r.c), t + 2, W(b, t + 2)) == a3
    requires NewA(Regs(a3, a2, Rotl(a1, 30), Rotl(r.a, 30), Rotl(r.b, 30)), t + 3, W(b, t + 3)) == a4
    ensures r' == Regs(a4, a3, Rotl(a2, 30), Rotl(a1, 30), Rotl(r.a, 30)) && Rounds(INITIAL, b, t + 4) == r'
  {
    hide Rotl, F, K, Sum5, W, Rounds;
    RoundsStep(INITIAL, b, t);
    RoundsStep(INITIAL, b, t + 1);
    RoundsStep(INITIAL, b, t + 2);
    RoundsStep(INITIAL, b, t + 3);
    r' := Rounds(INITIAL, b, t + 4);
  }

  lemma AbcTo16(b: seq<Octet>)
    requires b == Padded(ABC, 24)
    ensures |b| == 64
    ensures Rounds(INITIAL, b, 16)
         == Regs(0x20BDD62F, 0x196BEE77, 0x644A3DA5, 0x1181ED99, 0x18C623F9)
    ensures Words(b, 0, 0x61626380, 0x00000000, 0x00000000, 0x00000000,
                     0x00000000, 0x00000000, 0x00000000, 0x00000000)
    ensures Words(b, 8, 0x00000000, 0x00000000, 0x00000000, 0x00000000,
                     0x00000000, 0x00000000, 0x00000000, 0x00000018)
  {
    hide Padded, W, Rounds;
    AbcWords(b);
    NoSteps(b);
    var r := INITIAL;
    r := Steps(b, 0, r, 0x0116FC33, 0x8990536D, 0xA1390F08, 0xCDD8E11B);
    r := Steps(b, 4, r, 0xCFD499DE, 0x3FC7CA40, 0x993E30C1, 0x9E8C07D4);
    r := Steps(b, 8, r, 0x4B6AE328, 0x8351F929, 0xFBDA9E89, 0x63188FE4);
    r := Steps(b, 12, r, 0x4607B664, 0x9128F695, 0x196BEE77, 0x20BDD62F);
  }

  lemma AbcTo32(b: seq<Octet>)
    requires b == Padded(ABC, 24)
    ensures |b| == 64
    ensures Rounds(INITIAL, b, 32)
         == Regs(0x3B845D33, 0x1267B407, 0x717EEBD7, 0xA0DC2D4B, 0xD2AA1365)
    ensures Words(b, 16, 0xC2C4C700, 0x00000000, 0x00000030, 0x85898E01,
                     0x00000000, 0x00000060, 0x0B131C03, 0x00000030)
    ensures Words(b, 24, 0x85898EC1, 0x16263806, 0x00000000, 0x00000180,
                     0x2C4C700C, 0x000000F0, 0x93AFB507, 0x5898E048)
  {
    hide Padded, W, Rounds;
    AbcTo16(b);
    NextWords(b, 16, 0xC2C4C700, 0x00000000, 0x00000030, 0x85898E01, 0x00000000, 0x00000060, 0x0B131C03, 0x00000030);
    NextWords(b, 24, 0x85898EC1, 0x16263806, 0x00000000, 0x00000180, 0x2C4C700C, 0x000000F0, 0x93AFB507, 0x5898E048);
    var r := Rounds(INITIAL, b, 16);
    r := Steps(b, 16, r, 0x4E925823, 0x82AA6728, 0xDC64901D, 0xFD9E1D7D);
    r := Steps(b, 20, r, 0x1A37B0CA, 0x33A23BFC, 0x21283486, 0xD541F12D);
    r := Steps(b, 24, r, 0xC7567DC6, 0x48413BA4, 0xBE35FBD5, 0x4AA84D97);
    r := Steps(b, 28, r, 0x8370B52E, 0xC5FBAF5D, 0x1267B407, 0x3B845D33);
  }

  lemma AbcTo48(b: seq<Octet>)
    requires b == Padded(ABC, 24)
    ensures |b| == 64
    ensures Rounds(INITIAL, b, 48)
         == Regs(0xBEAD02CA, 0xA01B846C, 0x8714787C, 0x503CA382, 0xFB86C6AB)
    ensures Words(b, 32, 0x8E9A9202, 0x00000600, 0xB131C0F0, 0x16263BC6,
                     0x4EBED41E, 0x626380A1, 0x16263806, 0x000018C0)
    ensures Words(b, 40, 0xD2E138C4, 0x00000F00, 0x3AFB5079, 0x898E04E5,
                     0xE2BA3C2B, 0x000060C0, 0x053A37CD, 0x74458547)
  {
    hide Padded, W, Rounds;
    AbcTo32(b);
    NextWords(b, 32, 0x8E9A9202, 0x00000600, 0xB131C0F0, 0x16263BC6, 0x4EBED41E, 0x626380A1, 0x16263806, 0x000018C0);
    NextWords(b, 40, 0xD2E138C4, 0x00000F00, 0x3AFB5079, 0x898E04E5, 0xE2BA3C2B, 0x000060C0, 0x053A37CD, 0x74458547);
    var r := Rounds(INITIAL, b, 32);
    r := Steps(b, 32, r, 0x046FAA0A, 0x2C0EBC11, 0x21796AD4, 0xDCBBB0CB);
    r := Steps(b, 36, r, 0x0F511FD8, 0xDC63973F, 0x4C986405, 0x32DE1CBA);
    r := Steps(b, 40, r, 0xFC87DEDF, 0x970A0D5C, 0x7F193DC5, 0xEE1B1AAF);
    r := Steps(b, 44, r, 0x40F28E09, 0x1C51E1F2, 0xA01B846C, 0xBEAD02CA);
  }

  lemma AbcTo64(b: seq<Octet>)
    requires b == Padded(ABC, 24)
    ensures |b| == 64
    ensures Rounds(INITIAL, b, 64)
         == Regs(0x6B61C9E1, 0xB66C020B, 0x9523272C, 0xF5D5B051, 0x8FD4B796)
    ensures Words(b, 48, 0xDA9415ED, 0x26380A16, 0x626383A1, 0x4EBF54DE,
                     0x3835B44B, 0x0000F600, 0x1E84C7A3, 0x98E04D98)
    ensures Words(b, 56, 0x651D16A0, 0x62658CA1, 0x458544D6, 0x44584CB7,
                     0x7BA06619, 0x6380AEA2, 0x0AE55269, 0x627B49A1)
  {
    hide Padded, W, Rounds;
    AbcTo48(b);
    NextWords(b, 48, 0xDA9415ED, 0x26380A16, 0x626383A1, 0x4EBF54DE, 0x3835B44B, 0x0000F600, 0x1E84C7A3, 0x98E04D98);
    NextWords(b, 56, 0x651D16A0, 0x62658CA1, 0x458544D6, 0x44584CB7, 0x7BA06619, 0x6380AEA2, 0x0AE55269, 0x627B49A1);
    var r := Rounds(INITIAL, b, 48);
    r := Steps(b, 48, r, 0xBAF39337, 0x120731C5, 0x641DB2CE, 0x3847AD66);
    r := Steps(b, 52, r, 0xE490436D, 0x27E9F1D8, 0x7B71F76D, 0x5E6456AF);
    r := Steps(b, 56, r, 0xC846093F, 0xD262FF50, 0x09D785FD, 0x3F52DE5A);
    r := Steps(b, 60, r, 0xD756C147, 0x548C9CB2, 0xB66C020B, 0x6B61C9E1);
  }

  lemma AbcTo80(b: seq<Octet>)
    requires b == Padded(ABC, 24)
    ensures |b| == 64
    ensures Rounds(INITIAL, b, 80)
         == Regs(0x42541B35, 0x5738D5E1, 0x21834873, 0x681E6DF6, 0xD8FDF6AD)
  {
    hide Padded, W, Rounds;
    AbcTo64(b);
    NextWords(b, 64, 0x7CD45C9D, 0x000F0000, 0xFB50753A, 0xEC6765E8, 0xBA3C2BE2, 0x0060C000, 0x3A37CD05, 0x458546F4);
    NextWords(b, 72, 0xB8599DD6, 0x380A1A26, 0x01E02203, 0xE7CC3456, 0xE6E60B69, 0x00F60A00, 0x5795EF4F, 0x822E0879);
    var r := Rounds(INITIAL, b, 64);
    r := Steps(b, 64, r, 0x19DFA7AC, 0x101655F9, 0x0C3DF2B4, 0x78DD4D2B);
    r := Steps(b, 68, r, 0x497093C0, 0x3F2588C2, 0xC199F8C7, 0x39859DE7);
    r := Steps(b, 72, r, 0xEDB42DE4, 0x11793F6F, 0x5EE76897, 0x63F7DAB7);
    r := Steps(b, 76, r, 0xA079B7D9, 0x860D21CC, 0x5738D5E1, 0x42541B35);
  }

  lemma NoSteps(b: seq<Octet>)
    requires |b| == 64
    ensures Rounds(INITIAL, b, 0) == INITIAL
  {
  }

  lemma OneBlock(b: seq<Octet>)
    requires |b| == 64
    ensures HashBlocks(INITIAL, b) == Compress(INITIAL, b)
  {
    hide Compress;
    assert b[..0] == [] && b[0..] == b;
  }

  /** SHA-1 of "abc". */
  lemma AbcDigest()
    ensures Sha1(ABC) == [0xA9, 0x99, 0x3E, 0x36, 0x47, 0x06, 0x81, 0x6A, 0xBA, 0x3E,
                          0x25, 0x71, 0x78, 0x50, 0xC2, 0x6C, 0x9C, 0xD0, 0xD8, 0x9D]
  {
    hide Padded, Rounds, HashBlocks, OctetsOf;
    var b := Padded(ABC, 24);
    AbcTo80(b);
    OneBlock(b);
    AbcOctets();
  }

  lemma AbcOctets()

    ensures OctetsOf(0xA9993E36) == [0xA9, 0x99, 0x3E, 0x36]
    ensures OctetsOf(0x4706816A) == [0x47, 0x06, 0x81, 0x6A]
    ensures OctetsOf(0xBA3E2571) == [0xBA, 0x3E, 0x25, 0x71]
    ensures OctetsOf(0x7850C26C) == [0x78, 0x50, 0xC2, 0x6C]
    ensures OctetsOf(0x9CD0D89D) == [0x9C, 0xD0, 0xD8, 0x9D]
  {
  }
}
