/** The example of FIPS 180-2, appendix A.1, computed with the definition: the message
    "abc" of one block. */
module Sha1Vector {
  import opened Sha1Spec

  /** The message schedule of the example. */
  function Sched(t: nat): bv32 {
    match t
    case 0 => 0x61626380 case 1 => 0x00000000 case 2 => 0x00000000 case 3 => 0x00000000
    case 4 => 0x00000000 case 5 => 0x00000000 case 6 => 0x00000000 case 7 => 0x00000000
    case 8 => 0x00000000 case 9 => 0x00000000 case 10 => 0x00000000 case 11 => 0x00000000
    case 12 => 0x00000000 case 13 => 0x00000000 case 14 => 0x00000000 case 15 => 0x00000018
    case 16 => 0xC2C4C700 case 17 => 0x00000000 case 18 => 0x00000030 case 19 => 0x85898E01
    case 20 => 0x00000000 case 21 => 0x00000060 case 22 => 0x0B131C03 case 23 => 0x00000030
    case 24 => 0x85898EC1 case 25 => 0x16263806 case 26 => 0x00000000 case 27 => 0x00000180
    case 28 => 0x2C4C700C case 29 => 0x000000F0 case 30 => 0x93AFB507 case 31 => 0x5898E048
    case 32 => 0x8E9A9202 case 33 => 0x00000600 case 34 => 0xB131C0F0 case 35 => 0x16263BC6
    case 36 => 0x4EBED41E case 37 => 0x626380A1 case 38 => 0x16263806 case 39 => 0x000018C0
    case 40 => 0xD2E138C4 case 41 => 0x00000F00 case 42 => 0x3AFB5079 case 43 => 0x898E04E5
    case 44 => 0xE2BA3C2B case 45 => 0x000060C0 case 46 => 0x053A37CD case 47 => 0x74458547
    case 48 => 0xDA9415ED case 49 => 0x26380A16 case 50 => 0x626383A1 case 51 => 0x4EBF54DE
    case 52 => 0x3835B44B case 53 => 0x0000F600 case 54 => 0x1E84C7A3 case 55 => 0x98E04D98
    case 56 => 0x651D16A0 case 57 => 0x62658CA1 case 58 => 0x458544D6 case 59 => 0x44584CB7
    case 60 => 0x7BA06619 case 61 => 0x6380AEA2 case 62 => 0x0AE55269 case 63 => 0x627B49A1
    case 64 => 0x7CD45C9D case 65 => 0x000F0000 case 66 => 0xFB50753A case 67 => 0xEC6765E8
    case 68 => 0xBA3C2BE2 case 69 => 0x0060C000 case 70 => 0x3A37CD05 case 71 => 0x458546F4
    case 72 => 0xB8599DD6 case 73 => 0x380A1A26 case 74 => 0x01E02203 case 75 => 0xE7CC3456
    case 76 => 0xE6E60B69 case 77 => 0x00F60A00 case 78 => 0x5795EF4F case 79 => 0x822E0879
    case _ => 0
  }

  /** The values of the register a: four before the first round, for the other registers,
      then the initial one, then one after each round. */
  function A(t: nat): bv32 {
    match t
    case 0 => 0x0F4B87C3 case 1 => 0x40C951D8 case 2 => 0x62EB73FA case 3 => 0xEFCDAB89
    case 4 => 0x67452301 case 5 => 0x0116FC33 case 6 => 0x8990536D case 7 => 0xA1390F08
    case 8 => 0xCDD8E11B case 9 => 0xCFD499DE case 10 => 0x3FC7CA40 case 11 => 0x993E30C1
    case 12 => 0x9E8C07D4 case 13 => 0x4B6AE328 case 14 => 0x8351F929 case 15 => 0xFBDA9E89
    case 16 => 0x63188FE4 case 17 => 0x4607B664 case 18 => 0x9128F695 case 19 => 0x196BEE77
    case 20 => 0x20BDD62F case 21 => 0x4E925823 case 22 => 0x82AA6728 case 23 => 0xDC64901D
    case 24 => 0xFD9E1D7D case 25 => 0x1A37B0CA case 26 => 0x33A23BFC case 27 => 0x21283486
    case 28 => 0xD541F12D case 29 => 0xC7567DC6 case 30 => 0x48413BA4 case 31 => 0xBE35FBD5
    case 32 => 0x4AA84D97 case 33 => 0x8370B52E case 34 => 0xC5FBAF5D case 35 => 0x1267B407
    case 36 => 0x3B845D33 case 37 => 0x046FAA0A case 38 => 0x2C0EBC11 case 39 => 0x21796AD4
    case 40 => 0xDCBBB0CB case 41 => 0x0F511FD8 case 42 => 0xDC63973F case 43 => 0x4C986405
    case 44 => 0x32DE1CBA case 45 => 0xFC87DEDF case 46 => 0x970A0D5C case 47 => 0x7F193DC5
    case 48 => 0xEE1B1AAF case 49 => 0x40F28E09 case 50 => 0x1C51E1F2 case 51 => 0xA01B846C
    case 52 => 0xBEAD02CA case 53 => 0xBAF39337 case 54 => 0x120731C5 case 55 => 0x641DB2CE
    case 56 => 0x3847AD66 case 57 => 0xE490436D case 58 => 0x27E9F1D8 case 59 => 0x7B71F76D
    case 60 => 0x5E6456AF case 61 => 0xC846093F case 62 => 0xD262FF50 case 63 => 0x09D785FD
    case 64 => 0x3F52DE5A case 65 => 0xD756C147 case 66 => 0x548C9CB2 case 67 => 0xB66C020B
    case 68 => 0x6B61C9E1 case 69 => 0x19DFA7AC case 70 => 0x101655F9 case 71 => 0x0C3DF2B4
    case 72 => 0x78DD4D2B case 73 => 0x497093C0 case 74 => 0x3F2588C2 case 75 => 0xC199F8C7
    case 76 => 0x39859DE7 case 77 => 0xEDB42DE4 case 78 => 0x11793F6F case 79 => 0x5EE76897
    case 80 => 0x63F7DAB7 case 81 => 0xA079B7D9 case 82 => 0x860D21CC case 83 => 0x5738D5E1
    case 84 => 0x42541B35
    case _ => 0
  }

  /** The registers before round `t`. */
  function State(t: nat): Regs {
    Regs(Word(A(t + 4)), Word(A(t + 3)), Rol30(Word(A(t + 2))), Rol30(Word(A(t + 1))), Rol30(Word(A(t))))
  }

  predicate SchedOk(t: nat)
    requires t >= 16
  {
    Rol1(Xor(Xor(Xor(Word(Sched(t - 3)), Word(Sched(t - 8))), Word(Sched(t - 14))), Word(Sched(t - 16)))) ==
    Word(Sched(t))
  }

  predicate RoundOk(t: nat) {
    Round(State(t), t, Word(Sched(t))) == State(t + 1)
  }

  predicate FourSched(t: nat)
    requires t >= 16
  {
    SchedOk(t) && SchedOk(t + 1) && SchedOk(t + 2) && SchedOk(t + 3)
  }

  predicate FourRounds(t: nat) {
    RoundOk(t) && RoundOk(t + 1) && RoundOk(t + 2) && RoundOk(t + 3)
  }

  lemma Sched16()
    ensures FourSched(16)
  {
  }

  lemma Sched20()
    ensures FourSched(20)
  {
  }

  lemma Sched24()
    ensures FourSched(24)
  {
  }

  lemma Sched28()
    ensures FourSched(28)
  {
  }

  lemma Sched32()
    ensures FourSched(32)
  {
  }

  lemma Sched36()
    ensures FourSched(36)
  {
  }

  lemma Sched40()
    ensures FourSched(40)
  {
  }

  lemma Sched44()
    ensures FourSched(44)
  {
  }

  lemma Sched48()
    ensures FourSched(48)
  {
  }

  lemma Sched52()
    ensures FourSched(52)
  {
  }

  lemma Sched56()
    ensures FourSched(56)
  {
  }

  lemma Sched60()
    ensures FourSched(60)
  {
  }

  lemma Sched64()
    ensures FourSched(64)
  {
  }

  lemma Sched68()
    ensures FourSched(68)
  {
  }

  lemma Sched72()
    ensures FourSched(72)
  {
  }

  lemma Sched76()
    ensures FourSched(76)
  {
  }

  lemma Rounds0()
    ensures FourRounds(0)
  {
  }

  lemma Rounds4()
    ensures FourRounds(4)
  {
  }

  lemma Rounds8()
    ensures FourRounds(8)
  {
  }

  lemma Rounds12()
    ensures FourRounds(12)
  {
  }

  lemma Rounds16()
    ensures FourRounds(16)
  {
  }

  lemma Rounds20()
    ensures FourRounds(20)
  {
  }

  lemma Rounds24()
    ensures FourRounds(24)
  {
  }

  lemma Rounds28()
    ensures FourRounds(28)
  {
  }

  lemma Rounds32()
    ensures FourRounds(32)
  {
  }

  lemma Rounds36()
    ensures FourRounds(36)
  {
  }

  lemma Rounds40()
    ensures FourRounds(40)
  {
  }

  lemma Rounds44()
    ensures FourRounds(44)
  {
  }

  lemma Rounds48()
    ensures FourRounds(48)
  {
  }

  lemma Rounds52()
    ensures FourRounds(52)
  {
  }

  lemma Rounds56()
    ensures FourRounds(56)
  {
  }

  lemma Rounds60()
    ensures FourRounds(60)
  {
  }

  lemma Rounds64()
    ensures FourRounds(64)
  {
  }

  lemma Rounds68()
    ensures FourRounds(68)
  {
  }

  lemma Rounds72()
    ensures FourRounds(72)
  {
  }

  lemma Rounds76()
    ensures FourRounds(76)
  {
  }

  lemma SchedAt(t: nat)
    requires 16 <= t < 80
    ensures SchedOk(t)
  {
    hide SchedOk;
    if t < 20 {
      Sched16();
    } else if t < 24 {
      Sched20();
    } else if t < 28 {
      Sched24();
    } else if t < 32 {
      Sched28();
    } else if t < 36 {
      Sched32();
    } else if t < 40 {
      Sched36();
    } else if t < 44 {
      Sched40();
    } else if t < 48 {
      Sched44();
    } else if t < 52 {
      Sched48();
    } else if t < 56 {
      Sched52();
    } else if t < 60 {
      Sched56();
    } else if t < 64 {
      Sched60();
    } else if t < 68 {
      Sched64();
    } else if t < 72 {
      Sched68();
    } else if t < 76 {
      Sched72();
    } else {
      Sched76();
    }
  }

  lemma RoundAt(t: nat)
    requires 0 <= t < 80
    ensures RoundOk(t)
  {
    hide RoundOk;
    if t < 4 {
      Rounds0();
    } else if t < 8 {
      Rounds4();
    } else if t < 12 {
      Rounds8();
    } else if t < 16 {
      Rounds12();
    } else if t < 20 {
      Rounds16();
    } else if t < 24 {
      Rounds20();
    } else if t < 28 {
      Rounds24();
    } else if t < 32 {
      Rounds28();
    } else if t < 36 {
      Rounds32();
    } else if t < 40 {
      Rounds36();
    } else if t < 44 {
      Rounds40();
    } else if t < 48 {
      Rounds44();
    } else if t < 52 {
      Rounds48();
    } else if t < 56 {
      Rounds52();
    } else if t < 60 {
      Rounds56();
    } else if t < 64 {
      Rounds60();
    } else if t < 68 {
      Rounds64();
    } else if t < 72 {
      Rounds68();
    } else if t < 76 {
      Rounds72();
    } else {
      Rounds76();
    }
  }

  const ABC: seq<Octet> := [Octet(0x61), Octet(0x62), Octet(0x63)]

  /** What the example gives: a9993e36 4706816a ba3e2571 7850c26c 9cd0d89d. */
  const EXPECTED: Regs :=
    Regs(Word(0xA9993E36), Word(0x4706816A), Word(0xBA3E2571), Word(0x7850C26C), Word(0x9CD0D89D))

  const EXPECTED_BYTES: seq<Octet> := [
    Octet(0xA9), Octet(0x99), Octet(0x3E), Octet(0x36), Octet(0x47),
    Octet(0x06), Octet(0x81), Octet(0x6A), Octet(0xBA), Octet(0x3E),
    Octet(0x25), Octet(0x71), Octet(0x78), Octet(0x50), Octet(0xC2),
    Octet(0x6C), Octet(0x9C), Octet(0xD0), Octet(0xD8), Octet(0x9D)]

  /** The one block of the padded message. */
  lemma PaddedWords(m: seq<Word>, t: nat)
    requires |Pad(ABC)| == 64 && m == WordsOf(Pad(ABC)) && t < 16
    ensures m[t] == Word(Sched(t))
  {
    var p := Pad(ABC);
    assert p == ABC + ([ONE_BIT] + Zeros(52) + LengthBytes(24));
    assert LengthBytes(24) == [ZERO, ZERO, ZERO, ZERO, ZERO, ZERO, ZERO, Octet(24)];
    assert p[0] == Octet(0x61) && p[1] == Octet(0x62) && p[2] == Octet(0x63) && p[3] == ONE_BIT;
    assert forall i :: 4 <= i < 63 ==> p[i] == ZERO;
    assert p[63] == Octet(24);
    if t == 0 {
      assert BigEndian(p[0], p[1], p[2], p[3]) == Word(0x61626380);
    } else if t == 15 {
      assert BigEndian(p[60], p[61], p[62], p[63]) == Word(24);
    } else {
      assert BigEndian(ZERO, ZERO, ZERO, ZERO) == Word(0);
    }
  }

  lemma {:induction false} Schedule(m: seq<Word>, t: nat)
    requires |Pad(ABC)| == 64 && m == WordsOf(Pad(ABC)) && t < 80
    ensures W(m, t) == Word(Sched(t))
    decreases t
  {
    hide Sched, Rol1, Xor, Pad, WordsOf;
    if t < 16 {
      PaddedWords(m, t);
    } else {
      Schedule(m, t - 3);
      Schedule(m, t - 8);
      Schedule(m, t - 14);
      Schedule(m, t - 16);
      SchedAt(t);
    }
  }

  lemma {:induction false} Registers(m: seq<Word>, t: nat)
    requires |Pad(ABC)| == 64 && m == WordsOf(Pad(ABC)) && t <= 80
    ensures Rounds(m, H0, t) == State(t)
    decreases t
  {
    hide Sched, A, Round, W, Pad, WordsOf, State;
    if t == 0 {
      FirstState();
    } else {
      Registers(m, t - 1);
      Schedule(m, t - 1);
      RoundAt(t - 1);
    }
  }

  lemma FirstState()
    ensures State(0) == H0
  {
  }

  lemma LastState()
    ensures State(80) == Regs(Word(A(84)), Word(A(83)), Rol30(Word(A(82))), Rol30(Word(A(81))), Rol30(Word(A(80))))
  {
    hide A, Rol30;
  }

  lemma LastA()
    ensures Add(H0.a, Word(A(84))) == EXPECTED.a
  {
  }

  lemma LastB()
    ensures Add(H0.b, Word(A(83))) == EXPECTED.b
  {
  }

  lemma LastC()
    ensures Add(H0.c, Rol30(Word(A(82)))) == EXPECTED.c
  {
  }

  lemma LastD()
    ensures Add(H0.d, Rol30(Word(A(81)))) == EXPECTED.d
  {
  }

  lemma LastE()
    ensures Add(H0.e, Rol30(Word(A(80)))) == EXPECTED.e
  {
  }

  lemma ExpectedBytes()
    ensures Digest(EXPECTED) == EXPECTED_BYTES
  {
  }

  /** The digest of "abc". */
  lemma {:induction false} DigestOfAbc()
    ensures Sha1(ABC) == EXPECTED_BYTES
  {
    hide State, W, Sched, A, Round, Rounds, Add, Digest, Rol30;
    var p := Pad(ABC);
    assert |p| == 64 && p[..0] == [] && p[0..] == p;
    Registers(WordsOf(p), 80);
    LastState();
    LastA();
    LastB();
    LastC();
    LastD();
    LastE();
    ExpectedBytes();
    assert Hash([]) == H0;
  }
}
