/**
 The checksum by value. Exclusive or and shifts on 32-bit vectors agree with those on numbers, so the
 states of the checksum can be followed: the residue of every checksummed string and the check value
 that the catalogue of CRC algorithms lists for CRC-32/ISO-HDLC.
*/
module CrcValues {
  import opened Common
  import opened Bits
  import opened Config

  // ----- numbers as vectors

  function Low(b: bv32): nat { if b & 1 == 1 then 1 else 0 }

  function Num(b: bv32): nat {
    if b == 0 then 0 else Low(b) + 2 * Num(b >> 1)
  }

  lemma Halves(b: bv32)
    ensures Num(b) == Low(b) + 2 * Num(b >> 1)
  {}

  lemma VectorXor(a: bv32, b: bv32)
    ensures (a ^ b) >> 1 == (a >> 1) ^ (b >> 1) && Low(a ^ b) == (Low(a) + Low(b)) % 2
  {}

  lemma XorOfHalves(a: nat, x: nat, b: nat, y: nat)
    requires a < 2 && b < 2
    ensures Xor(a + 2 * x, b + 2 * y) == (a + b) % 2 + 2 * Xor(x, y)
  {
    var r := Xor(a + 2 * x, b + 2 * y);
    assert r % 2 == (a + b) % 2 && r / 2 == Xor(x, y) by {
      XorBits(a + 2 * x, b + 2 * y);
      Digit(a, x);
      Digit(b, y);
      Even(a + b, x + y);
      assert a + 2 * x + (b + 2 * y) == a + b + 2 * (x + y);
    }
  }

  lemma {:induction false} XorOfNum(a: bv32, b: bv32)
    ensures Xor(Num(a), Num(b)) == Num(a ^ b)
    decreases a, b
  {
    if a != 0 || b != 0 {
      XorOfNum(a >> 1, b >> 1);
      Halves(a);
      Halves(b);
      Halves(a ^ b);
      VectorXor(a, b);
      XorOfHalves(Low(a), Num(a >> 1), Low(b), Num(b >> 1));
    }
  }

  /** No vector within a mask of ones is a larger number. */
  lemma {:induction false} NumBound(b: bv32, m: bv32)
    requires b <= m && m & (m + 1) == 0
    ensures Num(b) <= Num(m)
    decreases m
  {
    if m != 0 {
      MaskHalves(b, m);
      NumBound(b >> 1, m >> 1);
      Halves(b);
      Halves(m);
    }
  }

  lemma MaskHalves(b: bv32, m: bv32)
    requires b <= m && m & (m + 1) == 0 && m != 0
    ensures b >> 1 <= m >> 1 && (m >> 1) & ((m >> 1) + 1) == 0 && Low(m) == 1 && m >> 1 < m
  {}

  lemma Quarter(b: bv32)
    ensures Num(b) == Low(b) + 2 * Low(b >> 1) + 4 * Num(b >> 2)
  {
    Halves(b);
    Halves(b >> 1);
    assert (b >> 1) >> 1 == b >> 2;
  }

  lemma OnesNum()
    ensures Num(0xffff_ffff) == 0xffff_ffff
  {
    Quarter(0x0000_0003); Quarter(0x0000_000f); Quarter(0x0000_003f); Quarter(0x0000_00ff);
    Quarter(0x0000_03ff); Quarter(0x0000_0fff); Quarter(0x0000_3fff); Quarter(0x0000_ffff);
    Quarter(0x0003_ffff); Quarter(0x000f_ffff); Quarter(0x003f_ffff); Quarter(0x00ff_ffff);
    Quarter(0x03ff_ffff); Quarter(0x0fff_ffff); Quarter(0x3fff_ffff); Quarter(0xffff_ffff);
  }

  lemma PolynomialNum()
    ensures Num(0xedb8_8320) == 0xedb8_8320
  {
    Quarter(0x0000_0003); Quarter(0x0000_000e); Quarter(0x0000_003b); Quarter(0x0000_00ed);
    Quarter(0x0000_03b6); Quarter(0x0000_0edb); Quarter(0x0000_3b6e); Quarter(0x0000_edb8);
    Quarter(0x0003_b6e2); Quarter(0x000e_db88); Quarter(0x003b_6e20); Quarter(0x00ed_b883);
    Quarter(0x03b6_e20c); Quarter(0x0edb_8832); Quarter(0x3b6e_20c8); Quarter(0xedb8_8320);
  }

  lemma ResidueNum()
    ensures Num(0xdebb_20e3) == 0xdebb_20e3
  {
    Quarter(0x0000_0003); Quarter(0x0000_000d); Quarter(0x0000_0037); Quarter(0x0000_00de);
    Quarter(0x0000_037a); Quarter(0x0000_0deb); Quarter(0x0000_37ae); Quarter(0x0000_debb);
    Quarter(0x0003_7aec); Quarter(0x000d_ebb2); Quarter(0x0037_aec8); Quarter(0x00de_bb20);
    Quarter(0x037a_ec83); Quarter(0x0deb_b20e); Quarter(0x37ae_c838); Quarter(0xdebb_20e3);
  }

  lemma CheckNum()
    ensures Num(0x340b_c6d9) == 0x340b_c6d9
  {
    Quarter(0x0000_0000); Quarter(0x0000_0003); Quarter(0x0000_000d); Quarter(0x0000_0034);
    Quarter(0x0000_00d0); Quarter(0x0000_0340); Quarter(0x0000_0d02); Quarter(0x0000_340b);
    Quarter(0x0000_d02f); Quarter(0x0003_40bc); Quarter(0x000d_02f1); Quarter(0x0034_0bc6);
    Quarter(0x00d0_2f1b); Quarter(0x0340_bc6d); Quarter(0x0d02_f1b6); Quarter(0x340b_c6d9);
  }

  lemma LowDigitsNum()
    ensures Num(0x3433_3231) == 0x3433_3231
  {
    Quarter(0x0000_0000); Quarter(0x0000_0003); Quarter(0x0000_000d); Quarter(0x0000_0034);
    Quarter(0x0000_00d0); Quarter(0x0000_0343); Quarter(0x0000_0d0c); Quarter(0x0000_3433);
    Quarter(0x0000_d0cc); Quarter(0x0003_4333); Quarter(0x000d_0ccc); Quarter(0x0034_3332);
    Quarter(0x00d0_ccc8); Quarter(0x0343_3323); Quarter(0x0d0c_cc8c); Quarter(0x3433_3231);
  }

  lemma HighDigitsNum()
    ensures Num(0x3837_3635) == 0x3837_3635
  {
    Quarter(0x0000_0000); Quarter(0x0000_0003); Quarter(0x0000_000e); Quarter(0x0000_0038);
    Quarter(0x0000_00e0); Quarter(0x0000_0383); Quarter(0x0000_0e0d); Quarter(0x0000_3837);
    Quarter(0x0000_e0dc); Quarter(0x0003_8373); Quarter(0x000e_0dcd); Quarter(0x0038_3736);
    Quarter(0x00e0_dcd8); Quarter(0x0383_7363); Quarter(0x0e0d_cd8d); Quarter(0x3837_3635);
  }

  lemma NineNum()
    ensures Num(0x0000_0039) == 0x0000_0039
  {
    Quarter(0x0000_0003); Quarter(0x0000_000e); Quarter(0x0000_0039);
  }

  lemma IsWord(b: bv32)
    ensures Num(b) < WORD32
  {
    OnesNum();
    NumBound(b, 0xffff_ffff);
  }

  // ----- the states of the checksum

  function Shift(v: bv32): bv32 {
    if v & 1 == 1 then (v >> 1) ^ 0xedb8_8320 else v >> 1
  }

  function Iterate(f: bv32 -> bv32, v: bv32, n: nat): bv32 {
    if n == 0 then v else f(Iterate(f, v, n - 1))
  }

  function Eight(f: bv32 -> bv32, v: bv32): bv32 { f(f(f(f(f(f(f(f(v)))))))) }

  lemma EightTimes(f: bv32 -> bv32, v: bv32)
    ensures Iterate(f, v, 8) == Eight(f, v)
  {
    assert Iterate(f, v, 1) == f(v);
    assert Iterate(f, v, 2) == f(f(v));
    assert Iterate(f, v, 3) == f(f(f(v)));
    assert Iterate(f, v, 4) == f(f(f(f(v))));
    assert Iterate(f, v, 5) == f(f(f(f(f(v)))));
    assert Iterate(f, v, 6) == f(f(f(f(f(f(v))))));
    assert Iterate(f, v, 7) == f(f(f(f(f(f(f(v)))))));
  }

  function Shift8(v: bv32): bv32 { Shift(Shift(Shift(Shift(Shift(Shift(Shift(Shift(v)))))))) }

  lemma ShiftIsBitStep(v: bv32)
    ensures Num(v) < WORD32 && BitStep(Num(v)) == Num(Shift(v))
  {
    IsWord(v);
    Halves(v);
    PolynomialNum();
    XorOfNum(v >> 1, 0xedb8_8320);
    Digit(Low(v), Num(v >> 1));
  }

  lemma {:induction false} ShiftsAreSteps(v: bv32, n: nat)
    ensures Num(v) < WORD32 && Steps(Num(v), n) == Num(Iterate(Shift, v, n))
  {
    IsWord(v);
    if n > 0 {
      ShiftsAreSteps(v, n - 1);
      ShiftIsBitStep(Iterate(Shift, v, n - 1));
    }
  }

  lemma Shift8IsSteps(v: bv32)
    ensures Num(v) < WORD32 && Steps(Num(v), 8) == Num(Shift8(v))
  {
    ShiftsAreSteps(v, 8);
    EightTimes(Shift, v);
  }

  lemma Step8(v: bv32, w: bv32)
    requires Shift8(v) == w
    ensures Num(v) < WORD32 && Steps(Num(v), 8) == Num(w)
  {
    Shift8IsSteps(v);
  }

  lemma StepsChain(v: Word, w: Word, x: Word, m: nat, n: nat)
    requires Steps(v, m) == w && Steps(w, n) == x
    ensures Steps(v, m + n) == x
  {
    StepsAdd(v, m, n);
  }

  lemma FourTimes(v: Word, a: Word, b: Word, c: Word, d: Word, n: nat)
    requires Steps(v, n) == a && Steps(a, n) == b && Steps(b, n) == c && Steps(c, n) == d
    ensures Steps(v, n + n + n + n) == d
  {
    StepsChain(v, a, b, n, n);
    StepsChain(v, b, c, n + n, n);
    StepsChain(v, c, d, n + n + n, n);
  }

  lemma FourEights(v: bv32, a: bv32, b: bv32, c: bv32, d: bv32, n: nat)
    requires Num(v) < WORD32 && Num(a) < WORD32 && Num(b) < WORD32 && Num(c) < WORD32
    requires Steps(Num(v), n) == Num(a) && Steps(Num(a), n) == Num(b)
    requires Steps(Num(b), n) == Num(c) && Steps(Num(c), n) == Num(d)
    ensures Steps(Num(v), n + n + n + n) == Num(d)
  {
    FourTimes(Num(v), Num(a), Num(b), Num(c), Num(d), n);
  }

  lemma OnesShifted()
    ensures Num(0xffff_ffff) < WORD32 && Steps(Num(0xffff_ffff), 32) == Num(0xdebb_20e3)
  {
    Step8(0xffff_ffff, 0x2dfd_1072);
    Step8(0x2dfd_1072, 0xbe26_ed00);
    Step8(0xbe26_ed00, 0x00be_26ed);
    Step8(0x00be_26ed, 0xdebb_20e3);
    FourEights(0xffff_ffff, 0x2dfd_1072, 0xbe26_ed00, 0x00be_26ed, 0xdebb_20e3, 8);
  }

  lemma LowDigitsShifted()
    ensures Num(0xcbcc_cdce) < WORD32 && Steps(Num(0xcbcc_cdce), 32) == Num(0x641c_1f5c)
  {
    Step8(0xcbcc_cdce, 0x7c17_237a);
    Step8(0x7c17_237a, 0xb0ac_8f01);
    Step8(0xb0ac_8f01, 0x77b7_9c19);
    Step8(0x77b7_9c19, 0x641c_1f5c);
    FourEights(0xcbcc_cdce, 0x7c17_237a, 0xb0ac_8f01, 0x77b7_9c19, 0x641c_1f5c, 8);
  }

  lemma HighDigitsShifted()
    ensures Num(0x5c2b_2969) < WORD32 && Steps(Num(0x5c2b_2969), 32) == Num(0x651f_2550)
  {
    Step8(0x5c2b_2969, 0x3432_f2d5);
    Step8(0x3432_f2d5, 0xf68d_14a9);
    Step8(0xf68d_14a9, 0xaffc_9658);
    Step8(0xaffc_9658, 0x651f_2550);
    FourEights(0x5c2b_2969, 0x3432_f2d5, 0xf68d_14a9, 0xaffc_9658, 0x651f_2550, 8);
  }

  lemma {:induction false} XorComplement(v: nat, n: nat)
    requires v < Pow2(n)
    ensures Xor(v, Pow2(n) - 1 - v) == Pow2(n) - 1
    decreases n
  {
    if n > 0 {
      var w := Pow2(n) - 1 - v;
      XorComplement(v / 2, n - 1);
      assert w == 1 - v % 2 + 2 * (Pow2(n - 1) - 1 - v / 2);
      XorOfHalves(v % 2, v / 2, 1 - v % 2, Pow2(n - 1) - 1 - v / 2);
    }
  }

  lemma OnesStepped()
    ensures Steps(ALL_ONES, 32) == 0xdebb_20e3
  {
    OnesNum();
    OnesShifted();
    ResidueNum();
  }

  /** Reading a state's complement leaves the same state whatever it was. */
  lemma ReadComplement(v: Word)
    ensures Fold(v, Put32(ALL_ONES - v)) == Steps(ALL_ONES, 32)
  {
    FourBytesAreAWord(v, Put32(ALL_ONES - v));
    Get32InvertsPut32(ALL_ONES - v);
    PowersOfTwo();
    XorComplement(v, 32);
  }

  /** Any string followed by its checksum has the same checksum, the residue of this polynomial. */
  lemma CrcResidue(p: Bytes)
    ensures Crc(p + Put32(Crc(p))) == 0x2144_df1c
  {
    var v := Fold(ALL_ONES, p);
    FoldConcat(ALL_ONES, p, Put32(ALL_ONES - v));
    ReadComplement(v);
    OnesStepped();
  }

  lemma ReadWord(v: bv32, b: bv32, p: Bytes)
    requires |p| == 4 && Num(b) == Get32(p)
    ensures Num(v) < WORD32 && Num(v ^ b) < WORD32 && Fold(Num(v), p) == Steps(Num(v ^ b), 32)
  {
    IsWord(v);
    IsWord(v ^ b);
    FourBytesAreAWord(Num(v), p);
    XorOfNum(v, b);
  }

  lemma ReadByte(v: bv32, b: bv32, n: Byte)
    requires Num(b) == n
    ensures Num(v) < WORD32 && Fold(Num(v), [n]) == Num(Shift8(v ^ b))
  {
    IsWord(v);
    assert [n][..0] == [] && Fold(Num(v), []) == Num(v);
    XorOfNum(v, b);
    Shift8IsSteps(v ^ b);
  }

  /** The check value of CRC-32/ISO-HDLC: the checksum of the digits 1 to 9. */
  lemma CheckValue()
    ensures Crc([0x31, 0x32, 0x33, 0x34, 0x35, 0x36, 0x37, 0x38, 0x39]) == 0xcbf4_3926
  {
    var a: Bytes, b: Bytes, c: Bytes := [0x31, 0x32, 0x33, 0x34], [0x35, 0x36, 0x37, 0x38], [0x39];
    assert [0x31, 0x32, 0x33, 0x34, 0x35, 0x36, 0x37, 0x38, 0x39] == a + b + c;
    FoldConcat(ALL_ONES, a + b, c);
    FoldConcat(ALL_ONES, a, b);
    OnesNum();
    LowDigitsNum();
    ReadWord(0xffff_ffff, 0x3433_3231, a);
    LowDigitsShifted();
    HighDigitsNum();
    ReadWord(0x641c_1f5c, 0x3837_3635, b);
    HighDigitsShifted();
    NineNum();
    ReadByte(0x651f_2550, 0x0000_0039, 0x39);
    assert Shift8(0x651f_2569) == 0x340b_c6d9;
    CheckNum();
  }
}
