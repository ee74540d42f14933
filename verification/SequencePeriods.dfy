/** The periods of the two shift registers from the values they start with: 511 bits for the idle sequence and 255
    bytes for the randomizer. The registers are followed eight shifts at a time. */
module SequencePeriods {

  import Pn9
  import FrameBlock

  // ---- The nine-bit register ----

  function NineTurn(s: bv16): bv16 {
    Pn9.Shift(Pn9.Shift(Pn9.Shift(Pn9.Shift(Pn9.Shift(Pn9.Shift(Pn9.Shift(Pn9.Shift(s))))))))
  }

  lemma NineUnfolds(s: bv16)
    ensures Pn9.State(s, 8) == NineTurn(s)
  {
    hide Pn9.Shift;
    Pn9.EightStates(s);
    assert Pn9.State(s, 8) == Pn9.Shift(Pn9.State(s, 7));
  }

  /** Eight shifts on from a known value. */
  lemma NineGoes(n: nat, a: bv16, b: bv16)
    requires Pn9.State(Pn9.ONES, n) == a && NineTurn(a) == b
    ensures Pn9.State(Pn9.ONES, n + 8) == b
  {
    hide Pn9.Shift, Pn9.State, NineTurn;
    Pn9.StatesCompose(Pn9.ONES, n, 8);
    NineUnfolds(a);
  }

  lemma NineStarts()
    ensures Pn9.State(Pn9.ONES, 0) == 0x1FF
  {
  }

  lemma NineWalk0()
    ensures Pn9.State(Pn9.ONES, 64) == 0x1CF
  {
    hide Pn9.State;
    NineStarts();
    NineGoes(0, 0x1FF, 0x107);
    NineGoes(8, 0x107, 0x1BE);
    NineGoes(16, 0x1BE, 0x02E);
    NineGoes(24, 0x02E, 0x064);
    NineGoes(32, 0x064, 0x012);
    NineGoes(40, 0x012, 0x09D);
    NineGoes(48, 0x09D, 0x1A3);
    NineGoes(56, 0x1A3, 0x1CF);
  }

  lemma NineWalk1()
    requires Pn9.State(Pn9.ONES, 64) == 0x1CF
    ensures Pn9.State(Pn9.ONES, 128) == 0x080
  {
    hide Pn9.State;
    NineGoes(64, 0x1CF, 0x19B);
    NineGoes(72, 0x19B, 0x115);
    NineGoes(80, 0x115, 0x123);
    NineGoes(88, 0x123, 0x18D);
    NineGoes(96, 0x18D, 0x1AB);
    NineGoes(104, 0x1AB, 0x189);
    NineGoes(112, 0x189, 0x188);
    NineGoes(120, 0x188, 0x080);
  }

  lemma NineWalk2()
    requires Pn9.State(Pn9.ONES, 128) == 0x080
    ensures Pn9.State(Pn9.ONES, 192) == 0x114
  {
    hide Pn9.State;
    NineGoes(128, 0x080, 0x042);
    NineGoes(136, 0x042, 0x030);
    NineGoes(144, 0x030, 0x09C);
    NineGoes(152, 0x09C, 0x0AB);
    NineGoes(160, 0x0AB, 0x10D);
    NineGoes(168, 0x10D, 0x1E9);
    NineGoes(176, 0x1E9, 0x1B9);
    NineGoes(184, 0x1B9, 0x114);
  }

  lemma NineWalk3()
    requires Pn9.State(Pn9.ONES, 192) == 0x114
    ensures Pn9.State(Pn9.ONES, 256) == 0x060
  {
    hide Pn9.State;
    NineGoes(192, 0x114, 0x02B);
    NineGoes(200, 0x02B, 0x14F);
    NineGoes(208, 0x14F, 0x1D9);
    NineGoes(216, 0x1D9, 0x125);
    NineGoes(224, 0x125, 0x1BF);
    NineGoes(232, 0x1BF, 0x126);
    NineGoes(240, 0x126, 0x0A6);
    NineGoes(248, 0x0A6, 0x060);
  }

  lemma NineWalk4()
    requires Pn9.State(Pn9.ONES, 256) == 0x060
    ensures Pn9.State(Pn9.ONES, 320) == 0x0CF
  {
    hide Pn9.State;
    NineGoes(256, 0x060, 0x031);
    NineGoes(264, 0x031, 0x194);
    NineGoes(272, 0x194, 0x069);
    NineGoes(280, 0x069, 0x17F);
    NineGoes(288, 0x17F, 0x145);
    NineGoes(296, 0x145, 0x18E);
    NineGoes(304, 0x18E, 0x0B2);
    NineGoes(312, 0x0B2, 0x0CF);
  }

  lemma NineWalk5()
    requires Pn9.State(Pn9.ONES, 320) == 0x0CF
    ensures Pn9.State(Pn9.ONES, 384) == 0x0A8
  {
    hide Pn9.State;
    NineGoes(320, 0x0CF, 0x11F);
    NineGoes(328, 0x11F, 0x174);
    NineGoes(336, 0x174, 0x01A);
    NineGoes(344, 0x01A, 0x0DB);
    NineGoes(352, 0x0DB, 0x1B0);
    NineGoes(360, 0x1B0, 0x05A);
    NineGoes(368, 0x05A, 0x0FA);
    NineGoes(376, 0x0FA, 0x0A8);
  }

  lemma NineWalk6()
    requires Pn9.State(Pn9.ONES, 384) == 0x0A8
    ensures Pn9.State(Pn9.ONES, 448) == 0x1D4
  {
    hide Pn9.State;
    NineGoes(384, 0x0A8, 0x014);
    NineGoes(392, 0x014, 0x0AF);
    NineGoes(400, 0x0AF, 0x12E);
    NineGoes(408, 0x12E, 0x0E0);
    NineGoes(416, 0x0E0, 0x073);
    NineGoes(424, 0x073, 0x1A4);
    NineGoes(432, 0x1A4, 0x0F5);
    NineGoes(440, 0x0F5, 0x1D4);
  }

  lemma NineWalk7()
    requires Pn9.State(Pn9.ONES, 448) == 0x1D4
    ensures Pn9.State(Pn9.ONES, 504) == 0x1C3
  {
    hide Pn9.State;
    NineGoes(448, 0x1D4, 0x048);
    NineGoes(456, 0x048, 0x067);
    NineGoes(464, 0x067, 0x10B);
    NineGoes(472, 0x10B, 0x1DB);
    NineGoes(480, 0x1DB, 0x134);
    NineGoes(488, 0x134, 0x03B);
    NineGoes(496, 0x03B, 0x1C3);
  }

  lemma NineCloses()
    ensures Pn9.Shift(Pn9.Shift(Pn9.Shift(Pn9.Shift(Pn9.Shift(Pn9.Shift(Pn9.Shift(0x1C3))))))) == Pn9.ONES
  {
  }

  /** The idle sequence repeats after 511 bits. */
  lemma {:induction false} IdleSequencePeriod(n: nat)
    ensures Pn9.State(Pn9.ONES, n + 511) == Pn9.State(Pn9.ONES, n)
  {
    hide Pn9.Shift, Pn9.State;
    NineWalk0();
    NineWalk1();
    NineWalk2();
    NineWalk3();
    NineWalk4();
    NineWalk5();
    NineWalk6();
    NineWalk7();
    Pn9.StatesCompose(Pn9.ONES, 504, 7);
    Pn9.EightStates(0x1C3);
    NineCloses();
    Pn9.StatesCompose(Pn9.ONES, 511, n);
  }

  // ---- The eight-bit register ----

  function EightTurn(s: bv8): bv8 {
    FrameBlock.Shift(FrameBlock.Shift(FrameBlock.Shift(FrameBlock.Shift(
      FrameBlock.Shift(FrameBlock.Shift(FrameBlock.Shift(FrameBlock.Shift(s))))))))
  }

  lemma {:induction false} ShiftsCompose(s: bv8, m: nat, n: nat)
    ensures FrameBlock.Shifted(s, m + n) == FrameBlock.Shifted(FrameBlock.Shifted(s, m), n)
  {
    hide FrameBlock.Shift;
    if n > 0 { ShiftsCompose(s, m, n - 1); }
  }

  lemma EightGoes(n: nat, a: bv8, b: bv8)
    requires FrameBlock.Shifted(0xFF, n) == a && EightTurn(a) == b
    ensures FrameBlock.Shifted(0xFF, n + 8) == b
  {
    hide FrameBlock.Shift, FrameBlock.Shifted;
    ShiftsCompose(0xFF, n, 8);
    FrameBlock.EightShifts(a);
  }

  lemma EightStarts()
    ensures FrameBlock.Shifted(0xFF, 0) == 0xFF
  {
  }

  lemma EightWalk0()
    ensures FrameBlock.Shifted(0xFF, 64) == 0x8E
  {
    hide FrameBlock.Shifted;
    EightStarts();
    EightGoes(0, 0xFF, 0x48);
    EightGoes(8, 0x48, 0x0E);
    EightGoes(16, 0x0E, 0xC0);
    EightGoes(24, 0xC0, 0x9A);
    EightGoes(32, 0x9A, 0x0D);
    EightGoes(40, 0x0D, 0x70);
    EightGoes(48, 0x70, 0xBC);
    EightGoes(56, 0xBC, 0x8E);
  }

  lemma EightWalk1()
    requires FrameBlock.Shifted(0xFF, 64) == 0x8E
    ensures FrameBlock.Shifted(0xFF, 128) == 0x5A
  {
    hide FrameBlock.Shifted;
    EightGoes(64, 0x8E, 0x2C);
    EightGoes(72, 0x2C, 0x93);
    EightGoes(80, 0x93, 0xAD);
    EightGoes(88, 0xAD, 0xA7);
    EightGoes(96, 0xA7, 0xB7);
    EightGoes(104, 0xB7, 0x46);
    EightGoes(112, 0x46, 0xCE);
    EightGoes(120, 0xCE, 0x5A);
  }

  lemma EightWalk2()
    requires FrameBlock.Shifted(0xFF, 128) == 0x5A
    ensures FrameBlock.Shifted(0xFF, 192) == 0x0A
  {
    hide FrameBlock.Shifted;
    EightGoes(128, 0x5A, 0x97);
    EightGoes(136, 0x97, 0x7D);
    EightGoes(144, 0x7D, 0xCC);
    EightGoes(152, 0xCC, 0x32);
    EightGoes(160, 0x32, 0xA2);
    EightGoes(168, 0xA2, 0xBF);
    EightGoes(176, 0xBF, 0x3E);
    EightGoes(184, 0x3E, 0x0A);
  }

  lemma EightWalk3()
    requires FrameBlock.Shifted(0xFF, 192) == 0x0A
    ensures FrameBlock.Shifted(0xFF, 248) == 0xB1
  {
    hide FrameBlock.Shifted;
    EightGoes(192, 0x0A, 0x10);
    EightGoes(200, 0x10, 0xF1);
    EightGoes(208, 0xF1, 0x88);
    EightGoes(216, 0x88, 0x94);
    EightGoes(224, 0x94, 0xCD);
    EightGoes(232, 0xCD, 0xEA);
    EightGoes(240, 0xEA, 0xB1);
  }

  lemma SevenShifts(s: bv8)
    ensures FrameBlock.Shifted(s, 7) ==
            FrameBlock.Shift(FrameBlock.Shift(FrameBlock.Shift(FrameBlock.Shift(
              FrameBlock.Shift(FrameBlock.Shift(FrameBlock.Shift(s)))))))
  {
    hide FrameBlock.Shift;
    assert FrameBlock.Shifted(s, 1) == FrameBlock.Shift(s);
    assert FrameBlock.Shifted(s, 3) == FrameBlock.Shift(FrameBlock.Shift(FrameBlock.Shifted(s, 1)));
    assert FrameBlock.Shifted(s, 5) == FrameBlock.Shift(FrameBlock.Shift(FrameBlock.Shifted(s, 3)));
  }

  lemma EightCloses()
    ensures FrameBlock.Shift(FrameBlock.Shift(FrameBlock.Shift(FrameBlock.Shift(
              FrameBlock.Shift(FrameBlock.Shift(FrameBlock.Shift(0xB1))))))) == 0xFF
  {
  }

  /** 255 shifts bring the register back to the seed. */
  lemma ComesBack()
    ensures FrameBlock.Shifted(0xFF, 255) == 0xFF
  {
    hide FrameBlock.Shift, FrameBlock.Shifted;
    EightWalk0();
    EightWalk1();
    EightWalk2();
    EightWalk3();
    ShiftsCompose(0xFF, 248, 7);
    SevenShifts(0xB1);
    EightCloses();
  }

  lemma {:induction false} ComesBackAgain(turns: nat)
    ensures FrameBlock.Shifted(0xFF, 255 * turns) == 0xFF
  {
    hide FrameBlock.Shift, FrameBlock.Shifted;
    if turns == 0 {
      EightStarts();
    } else {
      ComesBackAgain(turns - 1);
      ComesBack();
      ShiftsCompose(0xFF, 255 * (turns - 1), 255);
    }
  }

  lemma {:induction false} BytesAreEightShifts(s: bv8, n: nat)
    ensures FrameBlock.StateAt(s, n) == FrameBlock.Shifted(s, 8 * n)
  {
    hide FrameBlock.Shift;
    if n > 0 {
      BytesAreEightShifts(s, n - 1);
      ShiftsCompose(s, 8 * (n - 1), 8);
    }
  }

  /** The randomizer's sequence repeats after 255 bytes. */
  lemma {:induction false} RandomizerPeriod(n: nat)
    ensures FrameBlock.StateAt(FrameBlock.SEED, n + 255) == FrameBlock.StateAt(FrameBlock.SEED, n)
  {
    hide FrameBlock.Shifted;
    FrameBlock.StatesCompose(FrameBlock.SEED, 255, n);
    BytesAreEightShifts(FrameBlock.SEED, 255);
    ComesBackAgain(8);
  }
}
