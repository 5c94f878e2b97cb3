/** The test digest of "abc" in RFC 1321, section A.5, operation by operation. */
module Md5Vector {
  import opened Md5Spec
  import opened Powers

  const ABC: octets := [97, 98, 99]

  // The words of the padded message.
  const WORDS: seq<word> := [0x80636261, 0, 0, 0, 0, 0, 0, 0, 0, 0, 0, 0, 0, 0, 24, 0]

  lemma OpIs(i: nat, r: Regs, m: word, u: word, v: word, w: word)
    requires Mix(i, r.b, r.c, r.d) == m && Sum4(r.a, m, WORDS[K(i)], T(i)) == u && RotateLeft(u, S(i)) == v && Add(r.b, v) == w
    ensures Op(i, r, WORDS[K(i)]) == w
  {
    hide Mix, Sum4, T, S, RotateLeft, Add, K;
  }

  lemma Four0()
    ensures Four(Regs(0x67452301, 0xefcdab89, 0x98badcfe, 0x10325476), WORDS, 0) == Regs(0xd6d117b4, 0x7ad956f2, 0x2f6fbd72, 0x344a8432)
  {
    hide Op;
    OpIs(0, Regs(0x67452301, 0xefcdab89, 0x98badcfe, 0x10325476), 0x98badcfe, 0x57ce06d8, 0xe7036c2b, 0xd6d117b4);
    OpIs(1, Regs(0x10325476, 0xd6d117b4, 0xefcdab89, 0x98badcfe), 0xceebcbca, 0xc7e5d796, 0x5d796c7e, 0x344a8432);
    OpIs(2, Regs(0x98badcfe, 0x344a8432, 0xd6d117b4, 0xefcdab89), 0xdfc52fb9, 0x9ca07d92, 0xfb253940, 0x2f6fbd72);
    OpIs(3, Regs(0xefcdab89, 0x2f6fbd72, 0x344a8432, 0xd6d117b4), 0xf4da86b6, 0xa666012d, 0x4b699980, 0x7ad956f2);
  }

  lemma Four1()
    ensures Four(Regs(0xd6d117b4, 0x7ad956f2, 0x2f6fbd72, 0x344a8432), WORDS, 4) == Regs(0xc73741ef, 0x928d99f6, 0x207dc67b, 0x8bac3051)
  {
    hide Op;
    OpIs(4, Regs(0xd6d117b4, 0x7ad956f2, 0x2f6fbd72, 0x344a8432), 0x2e4b9472, 0xfa98bbd5, 0x4c5deafd, 0xc73741ef);
    OpIs(5, Regs(0x344a8432, 0xc73741ef, 0x7ad956f2, 0x2f6fbd72), 0x6a59fcf2, 0xe62c474e, 0xc474ee62, 0x8bac3051);
    OpIs(6, Regs(0x2f6fbd72, 0x8bac3051, 0xc73741ef, 0x7ad956f2), 0xf37546e3, 0xcb154a68, 0x94d1962a, 0x207dc67b);
    OpIs(7, Regs(0x7ad956f2, 0x207dc67b, 0x8bac3051, 0xc73741ef), 0xc72e01d5, 0x3f4dedc8, 0x720fd37b, 0x928d99f6);
  }

  lemma Four2()
    ensures Four(Regs(0xc73741ef, 0x928d99f6, 0x207dc67b, 0x8bac3051), WORDS, 8) == Regs(0x854b3712, 0x5ed49596, 0x3020401c, 0x74e2f284)
  {
    hide Op;
    OpIs(8, Regs(0xc73741ef, 0x928d99f6, 0x207dc67b, 0x8bac3051), 0x092da073, 0x39e57b3a, 0xf2bd9d1c, 0x854b3712);
    OpIs(9, Regs(0x8bac3051, 0x854b3712, 0x928d99f6, 0x207dc67b), 0xa03dd17b, 0xb72ef97b, 0xef97bb72, 0x74e2f284);
    OpIs(10, Regs(0x207dc67b, 0x74e2f284, 0x854b3712, 0x928d99f6), 0x864f3b72, 0xa6cc5d9e, 0xbb3d4d98, 0x3020401c);
    OpIs(11, Regs(0x928d99f6, 0x3020401c, 0x74e2f284, 0x854b3712), 0xb56b7706, 0xd155e8ba, 0x2eb4557a, 0x5ed49596);
  }

  lemma Four3()
    ensures Four(Regs(0x854b3712, 0x5ed49596, 0x3020401c, 0x74e2f284), WORDS, 12) == Regs(0xdda9b9a6, 0x72aff2e0, 0xe396856b, 0xa1051895)
  {
    hide Op;
    OpIs(12, Regs(0x854b3712, 0x5ed49596, 0x3020401c, 0x74e2f284), 0x30226214, 0x20fdaa48, 0x7ed52410, 0xdda9b9a6);
    OpIs(13, Regs(0x74e2f284, 0xdda9b9a6, 0x5ed49596, 0x3020401c), 0x7c80d19e, 0xeefc35b5, 0xc35b5eef, 0xa1051895);
    OpIs(14, Regs(0x3020401c, 0xa1051895, 0xdda9b9a6, 0x5ed49596), 0xdfd19d86, 0xb66b2148, 0x42916cd6, 0xe396856b);
    OpIs(15, Regs(0x5ed49596, 0xe396856b, 0xa1051895, 0xdda9b9a6), 0xbd2d3885, 0x65b5d63c, 0x8f196d75, 0x72aff2e0);
  }

  lemma Four4()
    ensures Four(Regs(0xdda9b9a6, 0x72aff2e0, 0xe396856b, 0xa1051895), WORDS, 16) == Regs(0x3e9e9126, 0xb5b204e4, 0xe25e1652, 0x4a1d804e)
  {
    hide Op;
    OpIs(16, Regs(0xdda9b9a6, 0x72aff2e0, 0xe396856b, 0xa1051895), 0x629795ea, 0x365f74f2, 0xcbee9e46, 0x3e9e9126);
    OpIs(17, Regs(0xa1051895, 0x3e9e9126, 0x72aff2e0, 0xe396856b), 0x32bff3a2, 0x9405bf77, 0x0b7eef28, 0x4a1d804e);
    OpIs(18, Regs(0xe396856b, 0x4a1d804e, 0x3e9e9126, 0x72aff2e0), 0x4e1d8146, 0x58126102, 0x98409604, 0xe25e1652);
    OpIs(19, Regs(0x72aff2e0, 0xe25e1652, 0x4a1d804e, 0x3e9e9126), 0x621f104a, 0x3ee92d35, 0xd353ee92, 0xb5b204e4);
  }

  lemma Four5()
    ensures Four(Regs(0x3e9e9126, 0xb5b204e4, 0xe25e1652, 0x4a1d804e), WORDS, 20) == Regs(0x59a8ffda, 0x47092c07, 0xabfc7920, 0x6d002f1e)
  {
    hide Op;
    OpIs(20, Regs(0x3e9e9126, 0xb5b204e4, 0xe25e1652, 0x4a1d804e), 0xa0521654, 0xb51fb7d7, 0xa3f6faf6, 0x59a8ffda);
    OpIs(21, Regs(0x4a1d804e, 0x59a8ffda, 0xb5b204e4, 0xe25e1652), 0x55a816f6, 0xa209ab97, 0x13572f44, 0x6d002f1e);
    OpIs(22, Regs(0xe25e1652, 0x6d002f1e, 0x59a8ffda, 0xb5b204e4), 0x6d08ff1e, 0x2808fbf1, 0x3efc4a02, 0xabfc7920);
    OpIs(23, Regs(0xb5b204e4, 0xabfc7920, 0x6d002f1e, 0x59a8ffda), 0x2da87904, 0xcb2e79b0, 0x9b0cb2e7, 0x47092c07);
  }

  lemma Four6()
    ensures Four(Regs(0x59a8ffda, 0x47092c07, 0xabfc7920, 0x6d002f1e), WORDS, 24) == Regs(0xb7f268cf, 0x786acb8f, 0xfe1623b1, 0x09388eff)
  {
    hide Op;
    OpIs(24, Regs(0x59a8ffda, 0x47092c07, 0xabfc7920, 0x6d002f1e), 0xc7fc7c26, 0x438749e6, 0x70e93cc8, 0xb7f268cf);
    OpIs(25, Regs(0x6d002f1e, 0xb7f268cf, 0x47092c07, 0xabfc7920), 0xe7f16c07, 0x1828a313, 0x51462630, 0x09388eff);
    OpIs(26, Regs(0xabfc7920, 0x09388eff, 0xb7f268cf, 0x47092c07), 0xb1fa4ccf, 0x52cbd376, 0xf4dd94b2, 0xfe1623b1);
    OpIs(27, Regs(0x47092c07, 0xfe1623b1, 0x09388eff, 0xb7f268cf), 0xbe1aa6b1, 0x4a7de7a5, 0x7a54a7de, 0x786acb8f);
  }

  lemma Four7()
    ensures Four(Regs(0xb7f268cf, 0x786acb8f, 0xfe1623b1, 0x09388eff), WORDS, 28) == Regs(0x790a77fb, 0x726342d3, 0xa62884aa, 0x9f47e4f8)
  {
    hide Op;
    OpIs(28, Regs(0xb7f268cf, 0x786acb8f, 0xfe1623b1, 0x09388eff), 0xfe2eab8f, 0x6004fd63, 0x009fac6c, 0x790a77fb);
    OpIs(29, Regs(0x09388eff, 0x790a77fb, 0x786acb8f, 0xfe1623b1), 0x786aebbf, 0x7e931eb6, 0x263d6cfd, 0x9f47e4f8);
    OpIs(30, Regs(0xfe1623b1, 0x9f47e4f8, 0x790a77fb, 0x786acb8f), 0x1942f4f8, 0x7ec81b82, 0x06e09fb2, 0xa62884aa);
    OpIs(31, Regs(0x786acb8f, 0xa62884aa, 0x9f47e4f8, 0x790a77fb), 0xa64d84aa, 0xabe29cc3, 0xcc3abe29, 0x726342d3);
  }

  lemma Four8()
    ensures Four(Regs(0x790a77fb, 0x726342d3, 0xa62884aa, 0x9f47e4f8), WORDS, 32) == Regs(0xb3707ebf, 0x3b0875c7, 0x8d212ff5, 0x60127b2e)
  {
    hide Op;
    OpIs(32, Regs(0x790a77fb, 0x726342d3, 0xa62884aa, 0x9f47e4f8), 0x4b0c2281, 0xc410d3be, 0x410d3bec, 0xb3707ebf);
    OpIs(33, Regs(0x9f47e4f8, 0xb3707ebf, 0x726342d3, 0xa62884aa), 0x673bb8c6, 0x8df5943f, 0xaca1fc6f, 0x60127b2e);
    OpIs(34, Regs(0xa62884aa, 0x60127b2e, 0xb3707ebf, 0x726342d3), 0xa1014742, 0xb4c72d0e, 0x2d0eb4c7, 0x8d212ff5);
    OpIs(35, Regs(0x726342d3, 0x8d212ff5, 0x60127b2e, 0xb3707ebf), 0x5e432a64, 0xce8ba55b, 0xade745d2, 0x3b0875c7);
  }

  lemma Four9()
    ensures Four(Regs(0xb3707ebf, 0x3b0875c7, 0x8d212ff5, 0x60127b2e), WORDS, 36) == Regs(0x21b117b9, 0x5a2f5ea5, 0x3575227e, 0x6e7429d5)
  {
    hide Op;
    OpIs(36, Regs(0xb3707ebf, 0x3b0875c7, 0x8d212ff5, 0x60127b2e), 0xd63b211c, 0x2e6a8a1f, 0xe6a8a1f2, 0x21b117b9);
    OpIs(37, Regs(0x60127b2e, 0x21b117b9, 0x3b0875c7, 0x8d212ff5), 0x97984d8b, 0x43899862, 0x4cc3121c, 0x6e7429d5);
    OpIs(38, Regs(0x8d212ff5, 0x6e7429d5, 0x21b117b9, 0x3b0875c7), 0x74cd4bab, 0xf8a9c700, 0xc700f8a9, 0x3575227e);
    OpIs(39, Regs(0x3b0875c7, 0x3575227e, 0x6e7429d5, 0x21b117b9), 0x7ab01c12, 0x74784e49, 0x24ba3c27, 0x5a2f5ea5);
  }

  lemma Four10()
    ensures Four(Regs(0x21b117b9, 0x5a2f5ea5, 0x3575227e, 0x6e7429d5), WORDS, 40) == Regs(0x11de1779, 0x4c6124f4, 0x31c465ca, 0xfadcaa38)
  {
    hide Op;
    OpIs(40, Regs(0x21b117b9, 0x5a2f5ea5, 0x3575227e, 0x6e7429d5), 0x012e550e, 0x4b7aeb8d, 0xb7aeb8d4, 0x11de1779);
    OpIs(41, Regs(0x6e7429d5, 0x11de1779, 0x5a2f5ea5, 0x3575227e), 0x7e846ba2, 0x57fd1fd2, 0xe8fe92bf, 0xfadcaa38);
    OpIs(42, Regs(0x3575227e, 0xfadcaa38, 0x11de1779, 0x5a2f5ea5), 0xb12de3e4, 0xbb9236e7, 0x36e7bb92, 0x31c465ca);
    OpIs(43, Regs(0x5a2f5ea5, 0x31c465ca, 0xfadcaa38, 0x11de1779), 0xdac6d88b, 0x397e5435, 0x1a9cbf2a, 0x4c6124f4);
  }

  lemma Four11()
    ensures Four(Regs(0x11de1779, 0x4c6124f4, 0x31c465ca, 0xfadcaa38), WORDS, 44) == Regs(0x7f2e507b, 0x7beb9700, 0x8fae6399, 0x99d9679d)
  {
    hide Op;
    OpIs(44, Regs(0x11de1779, 0x4c6124f4, 0x31c465ca, 0xfadcaa38), 0x8779eb06, 0x732cd2b8, 0x32cd2b87, 0x7f2e507b);
    OpIs(45, Regs(0xfadcaa38, 0x7f2e507b, 0x4c6124f4, 0x31c465ca), 0x028b1145, 0xe4435562, 0x1aab1722, 0x99d9679d);
    OpIs(46, Regs(0x31c465ca, 0x99d9679d, 0x7f2e507b, 0x4c6124f4), 0xaa961312, 0xfbfcf5d4, 0xf5d4fbfc, 0x8fae6399);
    OpIs(47, Regs(0x4c6124f4, 0x8fae6399, 0x99d9679d, 0x7f2e507b), 0x6959547f, 0x7a66cfd8, 0xec3d3367, 0x7beb9700);
  }

  lemma Four12()
    ensures Four(Regs(0x7f2e507b, 0x7beb9700, 0x8fae6399, 0x99d9679d), WORDS, 48) == Regs(0x7b201df8, 0x8bf025c4, 0xb298cefd, 0xf4e8e96e)
  {
    hide Op;
    OpIs(48, Regs(0x7f2e507b, 0x7beb9700, 0x8fae6399, 0x99d9679d), 0xf041fcfb, 0xe3fcd21b, 0xff3486f8, 0x7b201df8);
    OpIs(49, Regs(0x99d9679d, 0x7b201df8, 0x7beb9700, 0x8fae6399), 0x009a0afe, 0xdd9e7232, 0x79c8cb76, 0xf4e8e96e);
    OpIs(50, Regs(0x8fae6399, 0xf4e8e96e, 0x7b201df8, 0x7beb9700), 0x8fdcf407, 0xcb1f7b5f, 0xbdafe58f, 0xb298cefd);
    OpIs(51, Regs(0x7beb9700, 0xb298cefd, 0xf4e8e96e, 0x7b201df8), 0x42370791, 0xbab63eca, 0xd95756c7, 0x8bf025c4);
  }

  lemma Four13()
    ensures Four(Regs(0x7b201df8, 0x8bf025c4, 0xb298cefd, 0xf4e8e96e), WORDS, 52) == Regs(0x06cc5e8a, 0x3bfa2c27, 0x7d632dd0, 0x5b0d97aa)
  {
    hide Op;
    OpIs(52, Regs(0x7b201df8, 0x8bf025c4, 0xb298cefd, 0xf4e8e96e), 0x396ff928, 0x19eb70e3, 0x7adc38c6, 0x06cc5e8a);
    OpIs(53, Regs(0xf4e8e96e, 0x06cc5e8a, 0x8bf025c4, 0xb298cefd), 0xc41f5a4e, 0x4815104e, 0x54413920, 0x5b0d97aa);
    OpIs(54, Regs(0xb298cefd, 0x5b0d97aa, 0x06cc5e8a, 0x8bf025c4), 0x79c38131, 0x2c4c44ab, 0x22559626, 0x7d632dd0);
    OpIs(55, Regs(0x8bf025c4, 0x7d632dd0, 0x5b0d97aa, 0x06cc5e8a), 0xa67e3a5f, 0xb7f2bdf4, 0xbe96fe57, 0x3bfa2c27);
  }

  lemma Four14()
    ensures Four(Regs(0x06cc5e8a, 0x3bfa2c27, 0x7d632dd0, 0x5b0d97aa), WORDS, 56) == Regs(0x7f81cc35, 0x7327d604, 0x4f9dbe3f, 0x094454ab)
  {
    hide Op;
    OpIs(56, Regs(0x06cc5e8a, 0x3bfa2c27, 0x7d632dd0, 0x5b0d97aa), 0xc29941a7, 0x390e1e80, 0x4387a00e, 0x7f81cc35);
    OpIs(57, Regs(0x5b0d97aa, 0x7f81cc35, 0x3bfa2c27, 0x7d632dd0), 0xc467f218, 0x1da270a2, 0x89c28876, 0x094454ab);
    OpIs(58, Regs(0x7d632dd0, 0x094454ab, 0x7f81cc35, 0x3bfa2c27), 0xb2c41bce, 0xd3288cb2, 0x46596994, 0x4f9dbe3f);
    OpIs(59, Regs(0x3bfa2c27, 0x4f9dbe3f, 0x094454ab, 0x7f81cc35), 0xc6bbeb54, 0x50be291c, 0x238a17c5, 0x7327d604);
  }

  lemma Four15()
    ensures Four(Regs(0x7f81cc35, 0x7327d604, 0x4f9dbe3f, 0x094454ab), WORDS, 60) == Regs(0x310ade8f, 0xc08226b3, 0xe484b9d8, 0x624d8cb2)
  {
    hide Op;
    OpIs(60, Regs(0x7f81cc35, 0x7327d604, 0x4f9dbe3f, 0x094454ab), 0xb822416b, 0x2ef78c22, 0xbde3088b, 0x310ade8f);
    OpIs(61, Regs(0x094454ab, 0x310ade8f, 0x7327d604, 0x4f9dbe3f), 0xc24d09cb, 0x88cc50ab, 0x3142ae23, 0x624d8cb2);
    OpIs(62, Regs(0x4f9dbe3f, 0x624d8cb2, 0x310ade8f, 0x7327d604), 0xdfd77374, 0x5a4d046e, 0x82372d26, 0xe484b9d8);
    OpIs(63, Regs(0x7327d604, 0xe484b9d8, 0x624d8cb2, 0x310ade8f), 0x8cb8354a, 0xeb66dedf, 0xdbfd6cdb, 0xc08226b3);
  }

  lemma AllSteps()
    ensures Steps(INIT, WORDS, 0, 64) == Regs(0x310ade8f, 0xc08226b3, 0xe484b9d8, 0x624d8cb2)
  {
    hide *;
    SixteenWords();
    Four0();
    StepsByFour(Regs(0x67452301, 0xefcdab89, 0x98badcfe, 0x10325476), WORDS, 0, 64);
    Four1();
    StepsByFour(Regs(0xd6d117b4, 0x7ad956f2, 0x2f6fbd72, 0x344a8432), WORDS, 4, 60);
    Four2();
    StepsByFour(Regs(0xc73741ef, 0x928d99f6, 0x207dc67b, 0x8bac3051), WORDS, 8, 56);
    Four3();
    StepsByFour(Regs(0x854b3712, 0x5ed49596, 0x3020401c, 0x74e2f284), WORDS, 12, 52);
    Four4();
    StepsByFour(Regs(0xdda9b9a6, 0x72aff2e0, 0xe396856b, 0xa1051895), WORDS, 16, 48);
    Four5();
    StepsByFour(Regs(0x3e9e9126, 0xb5b204e4, 0xe25e1652, 0x4a1d804e), WORDS, 20, 44);
    Four6();
    StepsByFour(Regs(0x59a8ffda, 0x47092c07, 0xabfc7920, 0x6d002f1e), WORDS, 24, 40);
    Four7();
    StepsByFour(Regs(0xb7f268cf, 0x786acb8f, 0xfe1623b1, 0x09388eff), WORDS, 28, 36);
    Four8();
    StepsByFour(Regs(0x790a77fb, 0x726342d3, 0xa62884aa, 0x9f47e4f8), WORDS, 32, 32);
    Four9();
    StepsByFour(Regs(0xb3707ebf, 0x3b0875c7, 0x8d212ff5, 0x60127b2e), WORDS, 36, 28);
    Four10();
    StepsByFour(Regs(0x21b117b9, 0x5a2f5ea5, 0x3575227e, 0x6e7429d5), WORDS, 40, 24);
    Four11();
    StepsByFour(Regs(0x11de1779, 0x4c6124f4, 0x31c465ca, 0xfadcaa38), WORDS, 44, 20);
    Four12();
    StepsByFour(Regs(0x7f2e507b, 0x7beb9700, 0x8fae6399, 0x99d9679d), WORDS, 48, 16);
    Four13();
    StepsByFour(Regs(0x7b201df8, 0x8bf025c4, 0xb298cefd, 0xf4e8e96e), WORDS, 52, 12);
    Four14();
    StepsByFour(Regs(0x06cc5e8a, 0x3bfa2c27, 0x7d632dd0, 0x5b0d97aa), WORDS, 56, 8);
    Four15();
    StepsByFour(Regs(0x7f81cc35, 0x7327d604, 0x4f9dbe3f, 0x094454ab), WORDS, 60, 4);
    NoSteps(Regs(0x310ade8f, 0xc08226b3, 0xe484b9d8, 0x624d8cb2), WORDS, 64);
    InitIs();
  }

  lemma SixteenWords()
    ensures |WORDS| == 16
  {
  }

  lemma InitIs()
    ensures INIT == Regs(0x67452301, 0xefcdab89, 0x98badcfe, 0x10325476)
  {
  }

  lemma PaddedWords()
    ensures |Pad(ABC)| == 64 && Words(Pad(ABC)) == WORDS
  {
    hide Word;
    var p := Pad(ABC);
    LengthOfAbc();
    assert p == ABC + [0x80] + Zeros(52) + [24, 0, 0, 0, 0, 0, 0, 0];
    FirstWord();
    forall i | 0 <= i < 16 ensures Word(p[4 * i..4 * i + 4]) == WORDS[i] {
      if i == 0 {
        assert p[0..4] == [97, 98, 99, 0x80];
      } else if i == 14 {
        assert p[56..60] == [24, 0, 0, 0];
      } else {
        assert p[4 * i..4 * i + 4] == [0, 0, 0, 0];
      }
    }
  }

  lemma LengthOfAbc()
    ensures LengthBytes(8 * |ABC|) == [24, 0, 0, 0, 0, 0, 0, 0]
  {
    hide WordBytes;
    SmallWordBytes();
    assert 8 * |ABC| % TWO32 == 24 && 8 * |ABC| / TWO32 % TWO32 == 0;
  }

  lemma SmallWordBytes()
    ensures WordBytes(24) == [24, 0, 0, 0] && WordBytes(0) == [0, 0, 0, 0]
  {
  }

  lemma FirstWord()
    ensures Word([97, 98, 99, 0x80]) == 0x80636261 && Word([24, 0, 0, 0]) == 24 && Word([0, 0, 0, 0]) == 0
  {
  }

  // The registers in the end.
  lemma AbcFold()
    ensures Fold(INIT, Pad(ABC)) == Regs(0x98500190, 0xb04fd23c, 0x7d3f96d6, 0x727fe128)
  {
    hide Steps, Words, Pad, WordBytes;
    PaddedWords();
    AllSteps();
    FoldOne(INIT, Pad(ABC));
    var r := Regs(0x98500190, 0xb04fd23c, 0x7d3f96d6, 0x727fe128);
    assert Sum(INIT, Regs(0x310ade8f, 0xc08226b3, 0xe484b9d8, 0x624d8cb2)) == r by { InitIs(); }
  }

  // The digest of "abc".
  lemma AbcDigest()
    ensures Digest(ABC) == [0x90, 0x01, 0x50, 0x98, 0x3c, 0xd2, 0x4f, 0xb0, 0xd6, 0x96, 0x3f, 0x7d, 0x28, 0xe1, 0x7f, 0x72]
  {
    hide Fold, Pad, Output;
    AbcFold();
    OutputOfAbc();
  }

  lemma OutputOfAbc()
    ensures Output(Regs(0x98500190, 0xb04fd23c, 0x7d3f96d6, 0x727fe128))
      == [0x90, 0x01, 0x50, 0x98, 0x3c, 0xd2, 0x4f, 0xb0, 0xd6, 0x96, 0x3f, 0x7d, 0x28, 0xe1, 0x7f, 0x72]
  {
    assert WordBytes(0x98500190) == [0x90, 0x01, 0x50, 0x98];
    assert WordBytes(0xb04fd23c) == [0x3c, 0xd2, 0x4f, 0xb0];
    assert WordBytes(0x7d3f96d6) == [0xd6, 0x96, 0x3f, 0x7d];
    assert WordBytes(0x727fe128) == [0x28, 0xe1, 0x7f, 0x72];
  }
}
