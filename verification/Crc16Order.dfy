/**
  How long the CRC register takes to come back: stepping the word 1, it is not 1 again within
  2048 steps. That is longer than any RTU frame has bits, so two flipped bits never cancel.
 */
module Crc16Order {
  import opened Words
  import opened Crc16

  function Sixteen(x: bv16): bv16 {
    Eight(Eight(x))
  }

  lemma SixteenSteps(x: bv16)
    ensures Steps(MODBUS_POLY, x, 16) == Sixteen(x)
  {
    hide Eight;
    StepsAdd(MODBUS_POLY, x, 8, 8);
    StepsIsEight(x);
    StepsIsEight(Eight(x));
  }

  /** The first sixteen words after 1. */
  predicate Early(x: bv16) {
    || x == 0xA001 || x == 0xF001 || x == 0xD801 || x == 0xCC01
    || x == 0xC601 || x == 0xC301 || x == 0xC181 || x == 0xC0C1
    || x == 0xC061 || x == 0xC031 || x == 0xC019 || x == 0xC00D
    || x == 0xC007 || x == 0xC002 || x == 0x6001 || x == 0x9001
  }

  lemma EarlySteps()
    ensures Steps(MODBUS_POLY, 1, 1) == 0xA001 && Steps(MODBUS_POLY, 1, 2) == 0xF001
    ensures Steps(MODBUS_POLY, 1, 3) == 0xD801 && Steps(MODBUS_POLY, 1, 4) == 0xCC01
    ensures Steps(MODBUS_POLY, 1, 5) == 0xC601 && Steps(MODBUS_POLY, 1, 6) == 0xC301
    ensures Steps(MODBUS_POLY, 1, 7) == 0xC181 && Steps(MODBUS_POLY, 1, 8) == 0xC0C1
    ensures Steps(MODBUS_POLY, 1, 9) == 0xC061 && Steps(MODBUS_POLY, 1, 10) == 0xC031
    ensures Steps(MODBUS_POLY, 1, 11) == 0xC019 && Steps(MODBUS_POLY, 1, 12) == 0xC00D
    ensures Steps(MODBUS_POLY, 1, 13) == 0xC007 && Steps(MODBUS_POLY, 1, 14) == 0xC002
    ensures Steps(MODBUS_POLY, 1, 15) == 0x6001 && Steps(MODBUS_POLY, 1, 16) == 0x9001
  {
    assert Steps(MODBUS_POLY, 1, 1) == 0xA001;
    assert Steps(MODBUS_POLY, 1, 2) == 0xF001;
    assert Steps(MODBUS_POLY, 1, 3) == 0xD801;
    assert Steps(MODBUS_POLY, 1, 4) == 0xCC01;
    assert Steps(MODBUS_POLY, 1, 5) == 0xC601;
    assert Steps(MODBUS_POLY, 1, 6) == 0xC301;
    assert Steps(MODBUS_POLY, 1, 7) == 0xC181;
    assert Steps(MODBUS_POLY, 1, 8) == 0xC0C1;
    assert Steps(MODBUS_POLY, 1, 9) == 0xC061;
    assert Steps(MODBUS_POLY, 1, 10) == 0xC031;
    assert Steps(MODBUS_POLY, 1, 11) == 0xC019;
    assert Steps(MODBUS_POLY, 1, 12) == 0xC00D;
    assert Steps(MODBUS_POLY, 1, 13) == 0xC007;
    assert Steps(MODBUS_POLY, 1, 14) == 0xC002;
    assert Steps(MODBUS_POLY, 1, 15) == 0x6001;
    assert Steps(MODBUS_POLY, 1, 16) == 0x9001;
  }

  lemma EarlyIs(n: nat)
    requires 1 <= n <= 16
    ensures Early(Steps(MODBUS_POLY, 1, n))
  {
    hide Steps;
    EarlySteps();
  }

  /** The word 1 does not come up in fewer than `n` steps. */
  ghost predicate Clear(c: bv16, n: nat) {
    forall j: nat :: j < n ==> Steps(MODBUS_POLY, c, j) != 1
  }

  /** If 1 came up on a stretch of sixteen steps, the stretch would end among its first successors. */
  lemma Stretch(c: bv16, next: bv16)
    requires Sixteen(c) == next && !Early(next)
    ensures Clear(c, 16) && Steps(MODBUS_POLY, c, 16) == next
  {
    hide Steps, Early, Sixteen;
    SixteenSteps(c);
    forall j: nat | j < 16 ensures Steps(MODBUS_POLY, c, j) != 1 {
      if Steps(MODBUS_POLY, c, j) == 1 {
        StepsAdd(MODBUS_POLY, c, j, 16 - j);
        EarlyIs(16 - j);
      }
    }
  }

  lemma ClearOn(c: bv16, m: nat, n: nat)
    requires Clear(c, m) && Clear(Steps(MODBUS_POLY, c, m), n)
    ensures Clear(c, m + n)
  {
    hide Steps;
    forall j: nat | j < m + n ensures Steps(MODBUS_POLY, c, j) != 1 {
      if j >= m {
        StepsAdd(MODBUS_POLY, c, m, j - m);
      }
    }
  }

  /** From `c` the word 1 does not come up in `n` steps, which lead to `x`. */
  ghost predicate At(c: bv16, n: nat, x: bv16) {
    Clear(c, n) && Steps(MODBUS_POLY, c, n) == x
  }

  /** A stretch of sixteen steps more. */
  lemma Onwards(c: bv16, n: nat, x: bv16, next: bv16)
    requires At(c, n, x) && Sixteen(x) == next && !Early(next)
    ensures At(c, n + 16, next)
  {
    hide Steps, Early, Sixteen, Clear;
    Stretch(x, next);
    ClearOn(c, n, 16);
    StepsAdd(MODBUS_POLY, c, n, 16);
  }

  lemma Leg0(c: bv16, n: nat)
    requires At(c, n, 0xA001)
    ensures At(c, n + 128, 0xE861)
  {
    hide At;
    Onwards(c, n, 0xA001, 0xE801);
    Onwards(c, n + 16, 0xE801, 0xDE01);
    Onwards(c, n + 32, 0xDE01, 0xC881);
    Onwards(c, n + 48, 0xC881, 0xC661);
    Onwards(c, n + 64, 0xC661, 0xC2A9);
    Onwards(c, n + 80, 0xC2A9, 0xC1FF);
    Onwards(c, n + 96, 0xC1FF, 0x6080);
    Onwards(c, n + 112, 0x6080, 0xE861);
  }

  lemma Leg1(c: bv16, n: nat)
    requires At(c, n, 0xE861)
    ensures At(c, n + 128, 0xF601)
  {
    hide At;
    Onwards(c, n, 0xE861, 0xDE29);
    Onwards(c, n + 16, 0xDE29, 0xC89F);
    Onwards(c, n + 32, 0xC89F, 0x6668);
    Onwards(c, n + 48, 0x6668, 0xEAAF);
    Onwards(c, n + 64, 0xEAAF, 0x7FFC);
    Onwards(c, n + 80, 0x7FFC, 0xE000);
    Onwards(c, n + 96, 0xE000, 0x8801);
    Onwards(c, n + 112, 0x8801, 0xF601);
  }

  lemma Leg2(c: bv16, n: nat)
    requires At(c, n, 0xF601)
    ensures At(c, n + 128, 0xD6B7)
  {
    hide At;
    Onwards(c, n, 0xF601, 0xD681);
    Onwards(c, n + 16, 0xD681, 0xCEE1);
    Onwards(c, n + 32, 0xCEE1, 0xC4C9);
    Onwards(c, n + 48, 0xC4C9, 0xC357);
    Onwards(c, n + 64, 0xC357, 0x617E);
    Onwards(c, n + 80, 0x617E, 0x48E0);
    Onwards(c, n + 96, 0x48E0, 0xF649);
    Onwards(c, n + 112, 0xF649, 0xD6B7);
  }

  lemma Leg3(c: bv16, n: nat)
    requires At(c, n, 0xD6B7)
    ensures At(c, n + 128, 0xD861)
  {
    hide At;
    Onwards(c, n, 0xD6B7, 0x6EF6);
    Onwards(c, n + 16, 0x6EF6, 0x4CC6);
    Onwards(c, n + 32, 0x4CC6, 0x5552);
    Onwards(c, n + 48, 0x5552, 0x5FFD);
    Onwards(c, n + 64, 0x5FFD, 0xA800);
    Onwards(c, n + 80, 0xA800, 0xBE01);
    Onwards(c, n + 96, 0xBE01, 0xE081);
    Onwards(c, n + 112, 0xE081, 0xD861);
  }

  lemma Leg4(c: bv16, n: nat)
    requires At(c, n, 0xD861)
    ensures At(c, n + 128, 0xE231)
  {
    hide At;
    Onwards(c, n, 0xD861, 0xCA29);
    Onwards(c, n + 16, 0xCA29, 0xC79F);
    Onwards(c, n + 32, 0xC79F, 0x6228);
    Onwards(c, n + 48, 0x6228, 0xE99F);
    Onwards(c, n + 64, 0xE99F, 0x7EA8);
    Onwards(c, n + 80, 0x7EA8, 0xE0FF);
    Onwards(c, n + 96, 0xE0FF, 0x7840);
    Onwards(c, n + 112, 0x7840, 0xE231);
  }

  lemma Leg5(c: bv16, n: nat)
    requires At(c, n, 0xE231)
    ensures At(c, n + 128, 0xCDB7)
  {
    hide At;
    Onwards(c, n, 0xE231, 0xD995);
    Onwards(c, n + 16, 0xD995, 0xCAAE);
    Onwards(c, n + 32, 0xCAAE, 0x37FC);
    Onwards(c, n + 48, 0x37FC, 0xD600);
    Onwards(c, n + 64, 0xD600, 0x9E81);
    Onwards(c, n + 80, 0x9E81, 0xF8E1);
    Onwards(c, n + 96, 0xF8E1, 0xD249);
    Onwards(c, n + 112, 0xD249, 0xCDB7);
  }

  lemma Leg6(c: bv16, n: nat)
    requires At(c, n, 0xCDB7)
    ensures At(c, n + 128, 0xD33A)
  {
    hide At;
    Onwards(c, n, 0xCDB7, 0x65B6);
    Onwards(c, n + 16, 0x65B6, 0x4BB6);
    Onwards(c, n + 32, 0x4BB6, 0x5736);
    Onwards(c, n + 48, 0x5736, 0x5E56);
    Onwards(c, n + 64, 0x5E56, 0x58BE);
    Onwards(c, n + 80, 0x58BE, 0x5A70);
    Onwards(c, n + 96, 0x5A70, 0xFBA5);
    Onwards(c, n + 112, 0xFBA5, 0xD33A);
  }

  lemma Leg7(c: bv16, n: nat)
    requires At(c, n, 0xD33A)
    ensures At(c, n + 128, 0xEE01)
  {
    hide At;
    Onwards(c, n, 0xD33A, 0x3D53);
    Onwards(c, n + 16, 0x3D53, 0x21FD);
    Onwards(c, n + 32, 0x21FD, 0x8880);
    Onwards(c, n + 48, 0x8880, 0xA661);
    Onwards(c, n + 64, 0xA661, 0xEAA9);
    Onwards(c, n + 80, 0xEAA9, 0xDFFF);
    Onwards(c, n + 96, 0xDFFF, 0x6800);
    Onwards(c, n + 112, 0x6800, 0xEE01);
  }

  lemma Leg8(c: bv16, n: nat)
    requires At(c, n, 0xEE01)
    ensures At(c, n + 128, 0xDCAF)
  {
    hide At;
    Onwards(c, n, 0xEE01, 0xDC81);
    Onwards(c, n + 16, 0xDC81, 0xC961);
    Onwards(c, n + 32, 0xC961, 0xC6E9);
    Onwards(c, n + 48, 0xC6E9, 0xC2CF);
    Onwards(c, n + 64, 0xC2CF, 0x61D4);
    Onwards(c, n + 80, 0x61D4, 0xE89E);
    Onwards(c, n + 96, 0xE89E, 0x2E68);
    Onwards(c, n + 112, 0x2E68, 0xDCAF);
  }

  lemma Leg9(c: bv16, n: nat)
    requires At(c, n, 0xDCAF)
    ensures At(c, n + 128, 0xD5E1)
  {
    hide At;
    Onwards(c, n, 0xDCAF, 0x697C);
    Onwards(c, n + 16, 0x697C, 0xEEE0);
    Onwards(c, n + 32, 0xEEE0, 0x8CC9);
    Onwards(c, n + 48, 0x8CC9, 0xF557);
    Onwards(c, n + 64, 0xF557, 0x77FE);
    Onwards(c, n + 80, 0x77FE, 0x4600);
    Onwards(c, n + 96, 0x4600, 0xF281);
    Onwards(c, n + 112, 0xF281, 0xD5E1);
  }

  lemma Leg10(c: bv16, n: nat)
    requires At(c, n, 0xD5E1)
    ensures At(c, n + 128, 0x479D)
  {
    hide At;
    Onwards(c, n, 0xD5E1, 0xCF89);
    Onwards(c, n + 16, 0xCF89, 0xC427);
    Onwards(c, n + 32, 0xC427, 0x631A);
    Onwards(c, n + 48, 0x631A, 0x494B);
    Onwards(c, n + 64, 0x494B, 0x06F7);
    Onwards(c, n + 80, 0x06F7, 0x32C6);
    Onwards(c, n + 96, 0x32C6, 0x75D2);
    Onwards(c, n + 112, 0x75D2, 0x479D);
  }

  lemma Leg11(c: bv16, n: nat)
    requires At(c, n, 0x479D)
    ensures At(c, n + 128, 0xCBAF)
  {
    hide At;
    Onwards(c, n, 0x479D, 0xA228);
    Onwards(c, n + 16, 0xA228, 0xB99F);
    Onwards(c, n + 32, 0xB99F, 0x42A8);
    Onwards(c, n + 48, 0x42A8, 0xF1FF);
    Onwards(c, n + 64, 0xF1FF, 0x7480);
    Onwards(c, n + 80, 0x7480, 0xE761);
    Onwards(c, n + 96, 0xE761, 0xDA69);
    Onwards(c, n + 112, 0xDA69, 0xCBAF);
  }

  lemma Leg12(c: bv16, n: nat)
    requires At(c, n, 0xCBAF)
    ensures At(c, n + 128, 0xDBB6)
  {
    hide At;
    Onwards(c, n, 0xCBAF, 0x673C);
    Onwards(c, n + 16, 0x673C, 0xEA50);
    Onwards(c, n + 32, 0xEA50, 0x8FBD);
    Onwards(c, n + 48, 0x8FBD, 0xF430);
    Onwards(c, n + 64, 0xF430, 0x8715);
    Onwards(c, n + 80, 0x8715, 0xF24E);
    Onwards(c, n + 96, 0xF24E, 0x25B4);
    Onwards(c, n + 112, 0x25B4, 0xDBB6);
  }

  lemma Leg13(c: bv16, n: nat)
    requires At(c, n, 0xDBB6)
    ensures At(c, n + 128, 0x4D6D)
  {
    hide At;
    Onwards(c, n, 0xDBB6, 0x3B36);
    Onwards(c, n + 16, 0x3B36, 0x7356);
    Onwards(c, n + 32, 0x7356, 0x457E);
    Onwards(c, n + 48, 0x457E, 0x53E0);
    Onwards(c, n + 64, 0x53E0, 0xFD09);
    Onwards(c, n + 80, 0xFD09, 0xD1C7);
    Onwards(c, n + 96, 0xD1C7, 0x6C92);
    Onwards(c, n + 112, 0x6C92, 0x4D6D);
  }

  lemma Leg14(c: bv16, n: nat)
    requires At(c, n, 0x4D6D)
    ensures At(c, n + 128, 0x8861)
  {
    hide At;
    Onwards(c, n, 0x4D6D, 0xA5EC);
    Onwards(c, n + 16, 0xA5EC, 0xBB8C);
    Onwards(c, n + 32, 0xBB8C, 0xB324);
    Onwards(c, n + 48, 0xB324, 0xB55A);
    Onwards(c, n + 64, 0xB55A, 0x17FB);
    Onwards(c, n + 80, 0x17FB, 0x3E03);
    Onwards(c, n + 96, 0x3E03, 0x2081);
    Onwards(c, n + 112, 0x2081, 0x8861);
  }

  lemma Leg15(c: bv16, n: nat)
    requires At(c, n, 0x8861)
    ensures At(c, n + 128, 0xDE61)
  {
    hide At;
    Onwards(c, n, 0x8861, 0xF629);
    Onwards(c, n + 16, 0xF629, 0xD69F);
    Onwards(c, n + 32, 0xD69F, 0x6EE8);
    Onwards(c, n + 48, 0x6EE8, 0xECCF);
    Onwards(c, n + 64, 0xECCF, 0x7D54);
    Onwards(c, n + 80, 0x7D54, 0xE1FE);
    Onwards(c, n + 96, 0xE1FE, 0x2880);
    Onwards(c, n + 112, 0x2880, 0xDE61);
  }

  /** The word 1 is not reached again within 2048 steps. */
  lemma NoReturn(n: nat)
    requires 1 <= n <= 2048
    ensures Steps(MODBUS_POLY, 1, n) != 1
  {
    hide Steps, Step;
    var c: bv16 := 0xA001;
    FirstStep();
    Leg0(c, 0);
    Leg1(c, 128);
    Leg2(c, 256);
    Leg3(c, 384);
    Leg4(c, 512);
    Leg5(c, 640);
    Leg6(c, 768);
    Leg7(c, 896);
    Leg8(c, 1024);
    Leg9(c, 1152);
    Leg10(c, 1280);
    Leg11(c, 1408);
    Leg12(c, 1536);
    Leg13(c, 1664);
    Leg14(c, 1792);
    Leg15(c, 1920);
    StepsFromFront(MODBUS_POLY, 1, n);
  }

  lemma FirstStep()
    ensures Step(MODBUS_POLY, 1) == 0xA001 && At(0xA001, 0, 0xA001)
  {
  }
}
