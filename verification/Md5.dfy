/** The streaming MD5 of md5_append and md5_finish. */
module Md5 {
  import opened Md5Spec
  import opened Md5Vector
  import opened Powers

  const T_MASK: word := 0xffffffff
  const T1: word := T_MASK ^ 0x28955b87
  const T2: word := T_MASK ^ 0x173848a9
  const T3: word := 0x242070db
  const T4: word := T_MASK ^ 0x3e423111
  const T5: word := T_MASK ^ 0x0a83f050
  const T6: word := 0x4787c62a
  const T7: word := T_MASK ^ 0x57cfb9ec
  const T8: word := T_MASK ^ 0x02b96afe
  const T9: word := 0x698098d8
  const T10: word := T_MASK ^ 0x74bb0850
  const T11: word := T_MASK ^ 0x0000a44e
  const T12: word := T_MASK ^ 0x76a32841
  const T13: word := 0x6b901122
  const T14: word := T_MASK ^ 0x02678e6c
  const T15: word := T_MASK ^ 0x5986bc71
  const T16: word := 0x49b40821
  const T17: word := T_MASK ^ 0x09e1da9d
  const T18: word := T_MASK ^ 0x3fbf4cbf
  const T19: word := 0x265e5a51
  const T20: word := T_MASK ^ 0x16493855
  const T21: word := T_MASK ^ 0x29d0efa2
  const T22: word := 0x02441453
  const T23: word := T_MASK ^ 0x275e197e
  const T24: word := T_MASK ^ 0x182c0437
  const T25: word := 0x21e1cde6
  const T26: word := T_MASK ^ 0x3cc8f829
  const T27: word := T_MASK ^ 0x0b2af278
  const T28: word := 0x455a14ed
  const T29: word := T_MASK ^ 0x561c16fa
  const T30: word := T_MASK ^ 0x03105c07
  const T31: word := 0x676f02d9
  const T32: word := T_MASK ^ 0x72d5b375
  const T33: word := T_MASK ^ 0x0005c6bd
  const T34: word := T_MASK ^ 0x788e097e
  const T35: word := 0x6d9d6122
  const T36: word := T_MASK ^ 0x021ac7f3
  const T37: word := T_MASK ^ 0x5b4115bb
  const T38: word := 0x4bdecfa9
  const T39: word := T_MASK ^ 0x0944b49f
  const T40: word := T_MASK ^ 0x4140438f
  const T41: word := 0x289b7ec6
  const T42: word := T_MASK ^ 0x155ed805
  const T43: word := T_MASK ^ 0x2b10cf7a
  const T44: word := 0x04881d05
  const T45: word := T_MASK ^ 0x262b2fc6
  const T46: word := T_MASK ^ 0x1924661a
  const T47: word := 0x1fa27cf8
  const T48: word := T_MASK ^ 0x3b53a99a
  const T49: word := T_MASK ^ 0x0bd6ddbb
  const T50: word := 0x432aff97
  const T51: word := T_MASK ^ 0x546bdc58
  const T52: word := T_MASK ^ 0x036c5fc6
  const T53: word := 0x655b59c3
  const T54: word := T_MASK ^ 0x70f3336d
  const T55: word := T_MASK ^ 0x00100b82
  const T56: word := T_MASK ^ 0x7a7ba22e
  const T57: word := 0x6fa87e4f
  const T58: word := T_MASK ^ 0x01d3191f
  const T59: word := T_MASK ^ 0x5cfebceb
  const T60: word := 0x4e0811a1
  const T61: word := T_MASK ^ 0x08ac817d
  const T62: word := T_MASK ^ 0x42c50dca
  const T63: word := 0x2ad7d2bb
  const T64: word := T_MASK ^ 0x14792c6e

  function SetF(a: word, b: word, c: word, d: word, x: word, s: nat, t: word): word
    requires 0 < s < 32
  {
    Add(RotateLeft(Sum4(a, F(b, c, d), x, t), s), b)
  }

  lemma SetFIs(i: nat, r: Regs, x: word, s: nat, t: word)
    requires 0 <= i < 16 && S(i) == s && T(i) == t
    ensures SetF(r.a, r.b, r.c, r.d, x, s, t) == Op(i, r, x)
  {
    hide RotateLeft, F, G, H, I, Add, Sum4, S, T;
    AddCommutes(RotateLeft(Sum4(r.a, F(r.b, r.c, r.d), x, t), s), r.b);
  }

  function SetG(a: word, b: word, c: word, d: word, x: word, s: nat, t: word): word
    requires 0 < s < 32
  {
    Add(RotateLeft(Sum4(a, G(b, c, d), x, t), s), b)
  }

  lemma SetGIs(i: nat, r: Regs, x: word, s: nat, t: word)
    requires 16 <= i < 32 && S(i) == s && T(i) == t
    ensures SetG(r.a, r.b, r.c, r.d, x, s, t) == Op(i, r, x)
  {
    hide RotateLeft, F, G, H, I, Add, Sum4, S, T;
    AddCommutes(RotateLeft(Sum4(r.a, G(r.b, r.c, r.d), x, t), s), r.b);
  }

  function SetH(a: word, b: word, c: word, d: word, x: word, s: nat, t: word): word
    requires 0 < s < 32
  {
    Add(RotateLeft(Sum4(a, H(b, c, d), x, t), s), b)
  }

  lemma SetHIs(i: nat, r: Regs, x: word, s: nat, t: word)
    requires 32 <= i < 48 && S(i) == s && T(i) == t
    ensures SetH(r.a, r.b, r.c, r.d, x, s, t) == Op(i, r, x)
  {
    hide RotateLeft, F, G, H, I, Add, Sum4, S, T;
    AddCommutes(RotateLeft(Sum4(r.a, H(r.b, r.c, r.d), x, t), s), r.b);
  }

  function SetI(a: word, b: word, c: word, d: word, x: word, s: nat, t: word): word
    requires 0 < s < 32
  {
    Add(RotateLeft(Sum4(a, I(b, c, d), x, t), s), b)
  }

  lemma SetIIs(i: nat, r: Regs, x: word, s: nat, t: word)
    requires 48 <= i < 64 && S(i) == s && T(i) == t
    ensures SetI(r.a, r.b, r.c, r.d, x, s, t) == Op(i, r, x)
  {
    hide RotateLeft, F, G, H, I, Add, Sum4, S, T;
    AddCommutes(RotateLeft(Sum4(r.a, I(r.b, r.c, r.d), x, t), s), r.b);
  }

  lemma FourSetF(r: Regs, x: seq<word>, i: nat, k0: nat, k1: nat, k2: nat, k3: nat,
                 t0: word, t1: word, t2: word, t3: word)
    requires |x| == 16 && 0 <= i < 16 && i % 4 == 0 && Row(i, k0, k1, k2, k3, t0, t1, t2, t3)
    ensures k0 < 16 && k1 < 16 && k2 < 16 && k3 < 16
    ensures
      var a := SetF(r.a, r.b, r.c, r.d, x[k0], 7, t0);
      var d := SetF(r.d, a, r.b, r.c, x[k1], 12, t1);
      var c := SetF(r.c, d, a, r.b, x[k2], 17, t2);
      var b := SetF(r.b, c, d, a, x[k3], 22, t3);
      Four(r, x, i) == Regs(a, b, c, d)
  {
    hide SetF, Op, T, K;
    var a := SetF(r.a, r.b, r.c, r.d, x[k0], 7, t0);
    var d := SetF(r.d, a, r.b, r.c, x[k1], 12, t1);
    var c := SetF(r.c, d, a, r.b, x[k2], 17, t2);
    SetFIs(i, r, x[k0], 7, t0);
    SetFIs(i + 1, Regs(r.d, a, r.b, r.c), x[k1], 12, t1);
    SetFIs(i + 2, Regs(r.c, d, a, r.b), x[k2], 17, t2);
    SetFIs(i + 3, Regs(r.b, c, d, a), x[k3], 22, t3);
  }

  lemma FourSetG(r: Regs, x: seq<word>, i: nat, k0: nat, k1: nat, k2: nat, k3: nat,
                 t0: word, t1: word, t2: word, t3: word)
    requires |x| == 16 && 16 <= i < 32 && i % 4 == 0 && Row(i, k0, k1, k2, k3, t0, t1, t2, t3)
    ensures k0 < 16 && k1 < 16 && k2 < 16 && k3 < 16
    ensures
      var a := SetG(r.a, r.b, r.c, r.d, x[k0], 5, t0);
      var d := SetG(r.d, a, r.b, r.c, x[k1], 9, t1);
      var c := SetG(r.c, d, a, r.b, x[k2], 14, t2);
      var b := SetG(r.b, c, d, a, x[k3], 20, t3);
      Four(r, x, i) == Regs(a, b, c, d)
  {
    hide SetG, Op, T, K;
    var a := SetG(r.a, r.b, r.c, r.d, x[k0], 5, t0);
    var d := SetG(r.d, a, r.b, r.c, x[k1], 9, t1);
    var c := SetG(r.c, d, a, r.b, x[k2], 14, t2);
    SetGIs(i, r, x[k0], 5, t0);
    SetGIs(i + 1, Regs(r.d, a, r.b, r.c), x[k1], 9, t1);
    SetGIs(i + 2, Regs(r.c, d, a, r.b), x[k2], 14, t2);
    SetGIs(i + 3, Regs(r.b, c, d, a), x[k3], 20, t3);
  }

  lemma FourSetH(r: Regs, x: seq<word>, i: nat, k0: nat, k1: nat, k2: nat, k3: nat,
                 t0: word, t1: word, t2: word, t3: word)
    requires |x| == 16 && 32 <= i < 48 && i % 4 == 0 && Row(i, k0, k1, k2, k3, t0, t1, t2, t3)
    ensures k0 < 16 && k1 < 16 && k2 < 16 && k3 < 16
    ensures
      var a := SetH(r.a, r.b, r.c, r.d, x[k0], 4, t0);
      var d := SetH(r.d, a, r.b, r.c, x[k1], 11, t1);
      var c := SetH(r.c, d, a, r.b, x[k2], 16, t2);
      var b := SetH(r.b, c, d, a, x[k3], 23, t3);
      Four(r, x, i) == Regs(a, b, c, d)
  {
    hide SetH, Op, T, K;
    var a := SetH(r.a, r.b, r.c, r.d, x[k0], 4, t0);
    var d := SetH(r.d, a, r.b, r.c, x[k1], 11, t1);
    var c := SetH(r.c, d, a, r.b, x[k2], 16, t2);
    SetHIs(i, r, x[k0], 4, t0);
    SetHIs(i + 1, Regs(r.d, a, r.b, r.c), x[k1], 11, t1);
    SetHIs(i + 2, Regs(r.c, d, a, r.b), x[k2], 16, t2);
    SetHIs(i + 3, Regs(r.b, c, d, a), x[k3], 23, t3);
  }

  lemma FourSetI(r: Regs, x: seq<word>, i: nat, k0: nat, k1: nat, k2: nat, k3: nat,
                 t0: word, t1: word, t2: word, t3: word)
    requires |x| == 16 && 48 <= i < 64 && i % 4 == 0 && Row(i, k0, k1, k2, k3, t0, t1, t2, t3)
    ensures k0 < 16 && k1 < 16 && k2 < 16 && k3 < 16
    ensures
      var a := SetI(r.a, r.b, r.c, r.d, x[k0], 6, t0);
      var d := SetI(r.d, a, r.b, r.c, x[k1], 10, t1);
      var c := SetI(r.c, d, a, r.b, x[k2], 15, t2);
      var b := SetI(r.b, c, d, a, x[k3], 21, t3);
      Four(r, x, i) == Regs(a, b, c, d)
  {
    hide SetI, Op, T, K;
    var a := SetI(r.a, r.b, r.c, r.d, x[k0], 6, t0);
    var d := SetI(r.d, a, r.b, r.c, x[k1], 10, t1);
    var c := SetI(r.c, d, a, r.b, x[k2], 15, t2);
    SetIIs(i, r, x[k0], 6, t0);
    SetIIs(i + 1, Regs(r.d, a, r.b, r.c), x[k1], 10, t1);
    SetIIs(i + 2, Regs(r.c, d, a, r.b), x[k2], 15, t2);
    SetIIs(i + 3, Regs(r.b, c, d, a), x[k3], 21, t3);
  }

  // The words and constants of round 1 are those of RFC 1321, section 3.4.
  lemma Rows1()
    ensures Row(0, 0, 1, 2, 3, T1, T2, T3, T4)
    ensures Row(4, 4, 5, 6, 7, T5, T6, T7, T8)
    ensures Row(8, 8, 9, 10, 11, T9, T10, T11, T12)
    ensures Row(12, 12, 13, 14, 15, T13, T14, T15, T16)
  {
  }

  // The words and constants of round 2 are those of RFC 1321, section 3.4.
  lemma Rows2()
    ensures Row(16, 1, 6, 11, 0, T17, T18, T19, T20)
    ensures Row(20, 5, 10, 15, 4, T21, T22, T23, T24)
    ensures Row(24, 9, 14, 3, 8, T25, T26, T27, T28)
    ensures Row(28, 13, 2, 7, 12, T29, T30, T31, T32)
  {
  }

  // The words and constants of round 3 are those of RFC 1321, section 3.4.
  lemma Rows3()
    ensures Row(32, 5, 8, 11, 14, T33, T34, T35, T36)
    ensures Row(36, 1, 4, 7, 10, T37, T38, T39, T40)
    ensures Row(40, 13, 0, 3, 6, T41, T42, T43, T44)
    ensures Row(44, 9, 12, 15, 2, T45, T46, T47, T48)
  {
  }

  // The words and constants of round 4 are those of RFC 1321, section 3.4.
  lemma Rows4()
    ensures Row(48, 0, 7, 14, 5, T49, T50, T51, T52)
    ensures Row(52, 12, 3, 10, 1, T53, T54, T55, T56)
    ensures Row(56, 8, 15, 6, 13, T57, T58, T59, T60)
    ensures Row(60, 4, 11, 2, 9, T61, T62, T63, T64)
  {
  }

  method Round1(r: Regs, x: seq<word>) returns (q: Regs)
    requires |x| == 16
    ensures q == Steps(r, x, 0, 16)
  {
    hide *;
    Rows1();
    var (a, b, c, d) := (r.a, r.b, r.c, r.d);
    ghost var r0 := Regs(a, b, c, d);
    a := SetF(a, b, c, d, x[0], 7, T1);
    d := SetF(d, a, b, c, x[1], 12, T2);
    c := SetF(c, d, a, b, x[2], 17, T3);
    b := SetF(b, c, d, a, x[3], 22, T4);
    FourSetF(r0, x, 0, 0, 1, 2, 3, T1, T2, T3, T4);
    StepsByFour(r0, x, 0, 16);
    ghost var r1 := Regs(a, b, c, d);
    a := SetF(a, b, c, d, x[4], 7, T5);
    d := SetF(d, a, b, c, x[5], 12, T6);
    c := SetF(c, d, a, b, x[6], 17, T7);
    b := SetF(b, c, d, a, x[7], 22, T8);
    FourSetF(r1, x, 4, 4, 5, 6, 7, T5, T6, T7, T8);
    StepsByFour(r1, x, 4, 12);
    ghost var r2 := Regs(a, b, c, d);
    a := SetF(a, b, c, d, x[8], 7, T9);
    d := SetF(d, a, b, c, x[9], 12, T10);
    c := SetF(c, d, a, b, x[10], 17, T11);
    b := SetF(b, c, d, a, x[11], 22, T12);
    FourSetF(r2, x, 8, 8, 9, 10, 11, T9, T10, T11, T12);
    StepsByFour(r2, x, 8, 8);
    ghost var r3 := Regs(a, b, c, d);
    a := SetF(a, b, c, d, x[12], 7, T13);
    d := SetF(d, a, b, c, x[13], 12, T14);
    c := SetF(c, d, a, b, x[14], 17, T15);
    b := SetF(b, c, d, a, x[15], 22, T16);
    FourSetF(r3, x, 12, 12, 13, 14, 15, T13, T14, T15, T16);
    StepsByFour(r3, x, 12, 4);
    q := Regs(a, b, c, d);
    NoSteps(q, x, 16);
  }

  method Round2(r: Regs, x: seq<word>) returns (q: Regs)
    requires |x| == 16
    ensures q == Steps(r, x, 16, 16)
  {
    hide *;
    Rows2();
    var (a, b, c, d) := (r.a, r.b, r.c, r.d);
    ghost var r0 := Regs(a, b, c, d);
    a := SetG(a, b, c, d, x[1], 5, T17);
    d := SetG(d, a, b, c, x[6], 9, T18);
    c := SetG(c, d, a, b, x[11], 14, T19);
    b := SetG(b, c, d, a, x[0], 20, T20);
    FourSetG(r0, x, 16, 1, 6, 11, 0, T17, T18, T19, T20);
    StepsByFour(r0, x, 16, 16);
    ghost var r1 := Regs(a, b, c, d);
    a := SetG(a, b, c, d, x[5], 5, T21);
    d := SetG(d, a, b, c, x[10], 9, T22);
    c := SetG(c, d, a, b, x[15], 14, T23);
    b := SetG(b, c, d, a, x[4], 20, T24);
    FourSetG(r1, x, 20, 5, 10, 15, 4, T21, T22, T23, T24);
    StepsByFour(r1, x, 20, 12);
    ghost var r2 := Regs(a, b, c, d);
    a := SetG(a, b, c, d, x[9], 5, T25);
    d := SetG(d, a, b, c, x[14], 9, T26);
    c := SetG(c, d, a, b, x[3], 14, T27);
    b := SetG(b, c, d, a, x[8], 20, T28);
    FourSetG(r2, x, 24, 9, 14, 3, 8, T25, T26, T27, T28);
    StepsByFour(r2, x, 24, 8);
    ghost var r3 := Regs(a, b, c, d);
    a := SetG(a, b, c, d, x[13], 5, T29);
    d := SetG(d, a, b, c, x[2], 9, T30);
    c := SetG(c, d, a, b, x[7], 14, T31);
    b := SetG(b, c, d, a, x[12], 20, T32);
    FourSetG(r3, x, 28, 13, 2, 7, 12, T29, T30, T31, T32);
    StepsByFour(r3, x, 28, 4);
    q := Regs(a, b, c, d);
    NoSteps(q, x, 32);
  }

  method Round3(r: Regs, x: seq<word>) returns (q: Regs)
    requires |x| == 16
    ensures q == Steps(r, x, 32, 16)
  {
    hide *;
    Rows3();
    var (a, b, c, d) := (r.a, r.b, r.c, r.d);
    ghost var r0 := Regs(a, b, c, d);
    a := SetH(a, b, c, d, x[5], 4, T33);
    d := SetH(d, a, b, c, x[8], 11, T34);
    c := SetH(c, d, a, b, x[11], 16, T35);
    b := SetH(b, c, d, a, x[14], 23, T36);
    FourSetH(r0, x, 32, 5, 8, 11, 14, T33, T34, T35, T36);
    StepsByFour(r0, x, 32, 16);
    ghost var r1 := Regs(a, b, c, d);
    a := SetH(a, b, c, d, x[1], 4, T37);
    d := SetH(d, a, b, c, x[4], 11, T38);
    c := SetH(c, d, a, b, x[7], 16, T39);
    b := SetH(b, c, d, a, x[10], 23, T40);
    FourSetH(r1, x, 36, 1, 4, 7, 10, T37, T38, T39, T40);
    StepsByFour(r1, x, 36, 12);
    ghost var r2 := Regs(a, b, c, d);
    a := SetH(a, b, c, d, x[13], 4, T41);
    d := SetH(d, a, b, c, x[0], 11, T42);
    c := SetH(c, d, a, b, x[3], 16, T43);
    b := SetH(b, c, d, a, x[6], 23, T44);
    FourSetH(r2, x, 40, 13, 0, 3, 6, T41, T42, T43, T44);
    StepsByFour(r2, x, 40, 8);
    ghost var r3 := Regs(a, b, c, d);
    a := SetH(a, b, c, d, x[9], 4, T45);
    d := SetH(d, a, b, c, x[12], 11, T46);
    c := SetH(c, d, a, b, x[15], 16, T47);
    b := SetH(b, c, d, a, x[2], 23, T48);
    FourSetH(r3, x, 44, 9, 12, 15, 2, T45, T46, T47, T48);
    StepsByFour(r3, x, 44, 4);
    q := Regs(a, b, c, d);
    NoSteps(q, x, 48);
  }

  method Round4(r: Regs, x: seq<word>) returns (q: Regs)
    requires |x| == 16
    ensures q == Steps(r, x, 48, 16)
  {
    hide *;
    Rows4();
    var (a, b, c, d) := (r.a, r.b, r.c, r.d);
    ghost var r0 := Regs(a, b, c, d);
    a := SetI(a, b, c, d, x[0], 6, T49);
    d := SetI(d, a, b, c, x[7], 10, T50);
    c := SetI(c, d, a, b, x[14], 15, T51);
    b := SetI(b, c, d, a, x[5], 21, T52);
    FourSetI(r0, x, 48, 0, 7, 14, 5, T49, T50, T51, T52);
    StepsByFour(r0, x, 48, 16);
    ghost var r1 := Regs(a, b, c, d);
    a := SetI(a, b, c, d, x[12], 6, T53);
    d := SetI(d, a, b, c, x[3], 10, T54);
    c := SetI(c, d, a, b, x[10], 15, T55);
    b := SetI(b, c, d, a, x[1], 21, T56);
    FourSetI(r1, x, 52, 12, 3, 10, 1, T53, T54, T55, T56);
    StepsByFour(r1, x, 52, 12);
    ghost var r2 := Regs(a, b, c, d);
    a := SetI(a, b, c, d, x[8], 6, T57);
    d := SetI(d, a, b, c, x[15], 10, T58);
    c := SetI(c, d, a, b, x[6], 15, T59);
    b := SetI(b, c, d, a, x[13], 21, T60);
    FourSetI(r2, x, 56, 8, 15, 6, 13, T57, T58, T59, T60);
    StepsByFour(r2, x, 56, 8);
    ghost var r3 := Regs(a, b, c, d);
    a := SetI(a, b, c, d, x[4], 6, T61);
    d := SetI(d, a, b, c, x[11], 10, T62);
    c := SetI(c, d, a, b, x[2], 15, T63);
    b := SetI(b, c, d, a, x[9], 21, T64);
    FourSetI(r3, x, 60, 4, 11, 2, 9, T61, T62, T63, T64);
    StepsByFour(r3, x, 60, 4);
    q := Regs(a, b, c, d);
    NoSteps(q, x, 64);
  }

  method Decode(data: octets) returns (x: seq<word>)
    requires |data| == 64
    ensures x == Words(data)
  {
    x := [];
    var i, xp := 0, 0;
    while i < 16
      invariant 0 <= i <= 16 && xp == 4 * i && |x| == i && forall j :: 0 <= j < i ==> x[j] == Word(data[4 * j..4 * j + 4])
    {
      ghost var s := data[xp..xp + 4];
      SumIsWord(data[xp], data[xp + 1], data[xp + 2], data[xp + 3]);
      assert s == [data[xp], data[xp + 1], data[xp + 2], data[xp + 3]];
      x := x + [(data[xp] as word) + ((data[xp + 1] as word) << 8) + ((data[xp + 2] as word) << 16) + ((data[xp + 3] as word) << 24)];
      i, xp := i + 1, xp + 4;
    }
  }

  lemma SumIsWord(a: octet, b: octet, c: octet, d: octet)
    ensures (a as word) + ((b as word) << 8) + ((c as word) << 16) + ((d as word) << 24) == Word([a, b, c, d])
  {
  }

  method Process(r: Regs, data: octets) returns (q: Regs)
    requires |data| == 64
    ensures q == Block(r, data)
  {
    hide Steps, Add;
    var x := Decode(data);
    var s := Round1(r, x);
    StepsSplit(r, x, 0, 16, 48);
    ghost var s1 := s;
    s := Round2(s, x);
    StepsSplit(s1, x, 16, 16, 32);
    ghost var s2 := s;
    s := Round3(s, x);
    StepsSplit(s2, x, 32, 16, 16);
    s := Round4(s, x);
    q := Regs(Add(r.a, s.a), Add(r.b, s.b), Add(r.c, s.c), Add(r.d, s.d));
  }

  class State {
    var count0: nat
    var count1: nat
    var abcd: Regs
    const buf: array<octet>
    ghost var message: octets   // everything appended so far

    ghost predicate Valid()
      reads this, buf
    {
      && buf.Length == 64
      && Counts(count0, count1, |message|)
      && abcd == Fold(INIT, Blocks(message))
      && buf[..|message| % 64] == Rest(message)
    }

    constructor ()
      ensures Valid() && message == [] && fresh(buf)
    {
      count0, count1 := 0, 0;
      abcd := Regs(0x67452301, T_MASK ^ 0x10325476, T_MASK ^ 0x67452301, 0x10325476);
      buf := new octet[64];
      message := [];
    }

    method UpdateCount(nbytes: nat)
      requires Counts(count0, count1, |message|)
      modifies `count0, `count1
      ensures Counts(count0, count1, |message| + nbytes)
    {
      CountMore(count0, count1, |message|, nbytes);
      WrapTwice(count1, nbytes / 0x2000_0000, 1);
      var nbits := 8 * nbytes % TWO32;
      count1 := (count1 + nbytes / 0x2000_0000) % TWO32;
      count0 := (count0 + nbits) % TWO32;
      if count0 < nbits {
        count1 := (count1 + 1) % TWO32;
      }
    }

    // Copies bytes of data to the end of the partial block rest.
    method Fill(offset: nat, data: octets, from: nat, copy: nat, ghost rest: octets)
      requires from + copy <= |data| && offset + copy <= buf.Length && offset == |rest| && buf[..offset] == rest
      modifies buf
      ensures buf[..offset + copy] == rest + data[from..from + copy]
    {
      forall i | 0 <= i < copy {
        buf[offset + i] := data[from + i];
      }
    }

    // Takes in the whole blocks of data from position from on, after what is done.
    method ProcessBlocks(data: octets, from: nat, nbytes: nat, ghost done: octets) returns (at: nat)
      requires from <= nbytes <= |data| && |done| % 64 == 0 && abcd == Fold(INIT, done)
      modifies `abcd
      ensures from <= at <= nbytes && nbytes - at < 64
      ensures |done + data[from..at]| % 64 == 0 && abcd == Fold(INIT, done + data[from..at])
    {
      hide Fold, Block;
      at := from;
      ghost var x := done;
      assert x == done + data[from..at];
      while nbytes - at >= 64
        invariant from <= at <= nbytes && |x| % 64 == 0 && x == done + data[from..at] && abcd == Fold(INIT, x)
      {
        PushBlock(INIT, x, data[at..at + 64]);
        abcd := Process(abcd, data[at..at + 64]);
        assert data[from..at] + data[at..at + 64] == data[from..at + 64];
        x := x + data[at..at + 64];
        at := at + 64;
      }
    }

    // Completes the partial block with the first bytes of data, and takes it in once it is full.
    method FillBlock(data: octets, nbytes: nat, offset: nat, ghost done: octets, ghost rest: octets) returns (at: nat)
      requires buf.Length == 64 && 0 < nbytes <= |data| && |done| % 64 == 0
      requires 0 < offset == |rest| < 64 && buf[..offset] == rest && abcd == Fold(INIT, done)
      modifies `abcd, buf
      ensures at == if offset + nbytes > 64 then 64 - offset else nbytes
      ensures offset + at < 64 ==> abcd == old(abcd) && buf[..offset + at] == rest + data[..at]
      ensures offset + at == 64 ==> |done + (rest + data[..at])| % 64 == 0 && abcd == Fold(INIT, done + (rest + data[..at]))
    {
      hide Fold, Block;
      at := if offset + nbytes > 64 then 64 - offset else nbytes;
      Fill(offset, data, 0, at, rest);
      ghost var block := rest + data[..at];
      assert data[0..0 + at] == data[..at];
      if offset + at < 64 {
        return;
      }
      assert buf[..] == block;
      PushBlock(INIT, done, block);
      abcd := Process(abcd, buf[..]);
    }

    // The rest of the data after the partial block is gone.
    method AppendBlocks(data: octets, from: nat, nbytes: nat, ghost done: octets)
      requires buf.Length == 64 && from <= nbytes <= |data| && |done| % 64 == 0 && abcd == Fold(INIT, done)
      modifies `abcd, buf
      ensures abcd == Fold(INIT, Blocks(done + data[from..nbytes]))
      ensures buf[..|done + data[from..nbytes]| % 64] == Rest(done + data[from..nbytes])
    {
      hide Fold, Block, Blocks, Rest;
      var at := ProcessBlocks(data, from, nbytes, done);
      ghost var (x, last) := (done + data[from..at], data[at..nbytes]);
      if nbytes - at > 0 {
        Fill(0, data, at, nbytes - at, []);
        assert data[at..at + (nbytes - at)] == last;
      }
      BlocksAndRest(x, last);
      assert data[from..nbytes] == data[from..at] + last;
      assert done + data[from..nbytes] == x + last;
      assert buf[..|last|] == last && |x + last| % 64 == |last|;
    }

    method Append(data: octets, nbytes: int)
      requires Valid() && nbytes <= |data| && nbytes < 0x8000_0000
      requires |message| % 64 != 0 ==> |message| % 64 + nbytes < 0x8000_0000
      modifies this, buf
      ensures Valid()
      ensures message == old(message) + if nbytes <= 0 then [] else data[..nbytes]
    {
      hide Fold, Block, Counts, Blocks, Rest;
      if nbytes <= 0 {
        return;
      }
      ghost var (done, rest, p) := (Blocks(message), Rest(message), data[..nbytes]);
      Splits(message);
      Offset(count0, count1, |message|);
      var offset := count0 / 8 % 64;
      UpdateCount(nbytes);
      message := message + p;
      if offset > 0 {
        var at := FillBlock(data, nbytes, offset, done, rest);
        Regroup(done, rest, data, at, nbytes);
        if offset + at < 64 {
          BlocksAndRest(done, rest + p);
          return;
        }
        AppendBlocks(data, at, nbytes, done + (rest + data[..at]));
      } else {
        Regroup(done, rest, data, 0, nbytes);
        AppendBlocks(data, 0, nbytes, done);
      }
    }

    method PaddingLength(ghost m: octets) returns (padlen: nat)
      requires Counts(count0, count1, |m|)
      ensures padlen == 1 + (55 - |m|) % 64
    {
      PadLength(count0, count1, m);
      padlen := (55 - count0 / 8) % 64 + 1;
    }

    // Appends the padding: a one bit, zeros, and the length before padding.
    method AppendPadding()
      requires Valid()
      modifies this, buf
      ensures Valid() && message == Pad(old(message))
    {
      hide Fold, WordBytes, Counts, LengthBytes, AllBytes, Blocks, Rest, Zeros, Pad;
      ghost var m := message;
      LengthIs(count0, count1, |m|);
      var data := LittleEndian([count0 as word, count1 as word]);
      var padlen := PaddingLength(m);
      ghost var k := (55 - |m|) % 64;
      var pad := [0x80] + Zeros(63);
      ZerosPrefix(k);
      Append(pad, padlen);
      Append(data, 8);
      assert data[..8] == data;
      PadIs(m, m + ([0x80] + Zeros(k)) + data);
    }

    // The digest of everything appended.
    method Finish() returns (digest: octets)
      requires Valid()
      modifies this, buf
      ensures digest == Digest(old(message))
    {
      hide Fold, Pad, AllBytes;
      AppendPadding();
      WholeBlocks(message);
      digest := LittleEndian([abcd.a, abcd.b, abcd.c, abcd.d]);
      OutputIs(abcd);
    }
  }

  // The bytes of the words, each picked by a shift.
  method LittleEndian(ws: seq<word>) returns (s: octets)
    ensures s == AllBytes(ws)
  {
    s := [];
    var i := 0;
    while i < 4 * |ws|
      invariant 0 <= i <= 4 * |ws| && |s| == i
      invariant forall k :: 0 <= k < i ==> s[k] == ByteAt(ws[k / 4], k % 4)
    {
      s := s + [ByteAt(ws[i / 4], i % 4)];
      i := i + 1;
    }
    BytesAt(ws, s);
  }

  // ---------------------------------------------------------------- keys of the ring

  // The default hash of the consistent-hash ring: the sum of the four registers.
  function KeyOf(r: Regs): (key: int)
    ensures 0 <= key < 4 * TWO32
  {
    r.a as int + r.b as int + r.c as int + r.d as int
  }

  // The key of "abc".
  lemma AbcKey()
    ensures KeyOf(Fold(INIT, Pad(ABC))) == 9535704010
  {
    hide Fold, Pad;
    AbcFold();
  }

  // The words of the digest are the registers.
  lemma DigestWords(r: Regs)
    ensures var s := Output(r);
      WordSum(s, 4) == KeyOf(r)
  {
    hide WordBytes, Word;
    var s := Output(r);
    assert s[0..4] == WordBytes(r.a) && s[4..8] == WordBytes(r.b);
    assert s[8..12] == WordBytes(r.c) && s[12..16] == WordBytes(r.d);
    WordOfBytes(r.a);
    WordOfBytes(r.b);
    WordOfBytes(r.c);
    WordOfBytes(r.d);
    assert WordSum(s, 1) == WordAt(s, 0);
    assert WordSum(s, 2) == WordAt(s, 0) + WordAt(s, 1);
    assert WordSum(s, 3) == WordAt(s, 0) + WordAt(s, 1) + WordAt(s, 2);
  }

  method HashDef(instr: octets) returns (hash: int)
    requires |instr| < 0x8000_0000 - 64
    ensures hash == KeyOf(Fold(INIT, Pad(instr)))
  {
    hide Fold, Pad, WordSum, KeyOf, Output;
    var state := new State();
    state.Append(instr, |instr|);
    assert state.message == instr;
    var digest := state.Finish();
    DigestWords(Fold(INIT, Pad(instr)));
    hash := SumWords(digest);
  }

  method SumWords(digest: octets) returns (hash: int)
    requires |digest| == 16
    ensures hash == WordSum(digest, 4)
  {
    hide WordAt;
    hash := 0;
    var i := 0;
    while i < 4
      invariant 0 <= i <= 4 && hash == WordSum(digest, i)
    {
      hash := hash + WordAt(digest, i);
      i := i + 1;
    }
  }

  function WordAt(s: octets, k: nat): int
    requires 4 * k + 4 <= |s|
  {
    Word(s[4 * k..4 * k + 4]) as int
  }

  // The sum of the first n words.
  function WordSum(s: octets, n: nat): int
    requires 4 * n <= |s|
  {
    if n == 0 then 0 else WordSum(s, n - 1) + WordAt(s, n - 1)
  }
}
