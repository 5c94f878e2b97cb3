/** The streaming MD5 of MD5Update and MD5Final, and the placement hash built on it. */
module MyHash {
  import opened Bytes
  import opened Md5Spec
  import opened Md5Vector
  import opened Powers

  // A sum of four words whose last three are added to each other before the first.
  function Grouped(a: word, m: word, x: word, t: word): word { a + (m + x + t) }

  lemma GroupedIsSum4(a: word, m: word, x: word, t: word)
    ensures Grouped(a, m, x, t) == Sum4(a, m, x, t)
  {
  }

  function FF(a: word, b: word, c: word, d: word, x: word, s: nat, t: word): word
    requires 0 < s < 32
  {
    Add(RotateLeft(Grouped(a, F(b, c, d), x, t), s), b)
  }

  lemma FFIs(i: nat, r: Regs, x: word, s: nat, t: word)
    requires 0 <= i < 16 && S(i) == s && T(i) == t
    ensures FF(r.a, r.b, r.c, r.d, x, s, t) == Op(i, r, x)
  {
    hide RotateLeft, F, G, H, I, Add, Sum4, Grouped, S, T;
    GroupedIsSum4(r.a, F(r.b, r.c, r.d), x, t);
    AddCommutes(RotateLeft(Sum4(r.a, F(r.b, r.c, r.d), x, t), s), r.b);
  }

  function GG(a: word, b: word, c: word, d: word, x: word, s: nat, t: word): word
    requires 0 < s < 32
  {
    Add(RotateLeft(Grouped(a, G(b, c, d), x, t), s), b)
  }

  lemma GGIs(i: nat, r: Regs, x: word, s: nat, t: word)
    requires 16 <= i < 32 && S(i) == s && T(i) == t
    ensures GG(r.a, r.b, r.c, r.d, x, s, t) == Op(i, r, x)
  {
    hide RotateLeft, F, G, H, I, Add, Sum4, Grouped, S, T;
    GroupedIsSum4(r.a, G(r.b, r.c, r.d), x, t);
    AddCommutes(RotateLeft(Sum4(r.a, G(r.b, r.c, r.d), x, t), s), r.b);
  }

  function HH(a: word, b: word, c: word, d: word, x: word, s: nat, t: word): word
    requires 0 < s < 32
  {
    Add(RotateLeft(Grouped(a, H(b, c, d), x, t), s), b)
  }

  lemma HHIs(i: nat, r: Regs, x: word, s: nat, t: word)
    requires 32 <= i < 48 && S(i) == s && T(i) == t
    ensures HH(r.a, r.b, r.c, r.d, x, s, t) == Op(i, r, x)
  {
    hide RotateLeft, F, G, H, I, Add, Sum4, Grouped, S, T;
    GroupedIsSum4(r.a, H(r.b, r.c, r.d), x, t);
    AddCommutes(RotateLeft(Sum4(r.a, H(r.b, r.c, r.d), x, t), s), r.b);
  }

  function II(a: word, b: word, c: word, d: word, x: word, s: nat, t: word): word
    requires 0 < s < 32
  {
    Add(RotateLeft(Grouped(a, I(b, c, d), x, t), s), b)
  }

  lemma IIIs(i: nat, r: Regs, x: word, s: nat, t: word)
    requires 48 <= i < 64 && S(i) == s && T(i) == t
    ensures II(r.a, r.b, r.c, r.d, x, s, t) == Op(i, r, x)
  {
    hide RotateLeft, F, G, H, I, Add, Sum4, Grouped, S, T;
    GroupedIsSum4(r.a, I(r.b, r.c, r.d), x, t);
    AddCommutes(RotateLeft(Sum4(r.a, I(r.b, r.c, r.d), x, t), s), r.b);
  }

  lemma FourFF(r: Regs, x: seq<word>, i: nat, k0: nat, k1: nat, k2: nat, k3: nat,
                 t0: word, t1: word, t2: word, t3: word)
    requires |x| == 16 && 0 <= i < 16 && i % 4 == 0 && Row(i, k0, k1, k2, k3, t0, t1, t2, t3)
    ensures k0 < 16 && k1 < 16 && k2 < 16 && k3 < 16
    ensures
      var a := FF(r.a, r.b, r.c, r.d, x[k0], 7, t0);
      var d := FF(r.d, a, r.b, r.c, x[k1], 12, t1);
      var c := FF(r.c, d, a, r.b, x[k2], 17, t2);
      var b := FF(r.b, c, d, a, x[k3], 22, t3);
      Four(r, x, i) == Regs(a, b, c, d)
  {
    hide FF, Op, T, K;
    var a := FF(r.a, r.b, r.c, r.d, x[k0], 7, t0);
    var d := FF(r.d, a, r.b, r.c, x[k1], 12, t1);
    var c := FF(r.c, d, a, r.b, x[k2], 17, t2);
    FFIs(i, r, x[k0], 7, t0);
    FFIs(i + 1, Regs(r.d, a, r.b, r.c), x[k1], 12, t1);
    FFIs(i + 2, Regs(r.c, d, a, r.b), x[k2], 17, t2);
    FFIs(i + 3, Regs(r.b, c, d, a), x[k3], 22, t3);
  }

  lemma FourGG(r: Regs, x: seq<word>, i: nat, k0: nat, k1: nat, k2: nat, k3: nat,
                 t0: word, t1: word, t2: word, t3: word)
    requires |x| == 16 && 16 <= i < 32 && i % 4 == 0 && Row(i, k0, k1, k2, k3, t0, t1, t2, t3)
    ensures k0 < 16 && k1 < 16 && k2 < 16 && k3 < 16
    ensures
      var a := GG(r.a, r.b, r.c, r.d, x[k0], 5, t0);
      var d := GG(r.d, a, r.b, r.c, x[k1], 9, t1);
      var c := GG(r.c, d, a, r.b, x[k2], 14, t2);
      var b := GG(r.b, c, d, a, x[k3], 20, t3);
      Four(r, x, i) == Regs(a, b, c, d)
  {
    hide GG, Op, T, K;
    var a := GG(r.a, r.b, r.c, r.d, x[k0], 5, t0);
    var d := GG(r.d, a, r.b, r.c, x[k1], 9, t1);
    var c := GG(r.c, d, a, r.b, x[k2], 14, t2);
    GGIs(i, r, x[k0], 5, t0);
    GGIs(i + 1, Regs(r.d, a, r.b, r.c), x[k1], 9, t1);
    GGIs(i + 2, Regs(r.c, d, a, r.b), x[k2], 14, t2);
    GGIs(i + 3, Regs(r.b, c, d, a), x[k3], 20, t3);
  }

  lemma FourHH(r: Regs, x: seq<word>, i: nat, k0: nat, k1: nat, k2: nat, k3: nat,
                 t0: word, t1: word, t2: word, t3: word)
    requires |x| == 16 && 32 <= i < 48 && i % 4 == 0 && Row(i, k0, k1, k2, k3, t0, t1, t2, t3)
    ensures k0 < 16 && k1 < 16 && k2 < 16 && k3 < 16
    ensures
      var a := HH(r.a, r.b, r.c, r.d, x[k0], 4, t0);
      var d := HH(r.d, a, r.b, r.c, x[k1], 11, t1);
      var c := HH(r.c, d, a, r.b, x[k2], 16, t2);
      var b := HH(r.b, c, d, a, x[k3], 23, t3);
      Four(r, x, i) == Regs(a, b, c, d)
  {
    hide HH, Op, T, K;
    var a := HH(r.a, r.b, r.c, r.d, x[k0], 4, t0);
    var d := HH(r.d, a, r.b, r.c, x[k1], 11, t1);
    var c := HH(r.c, d, a, r.b, x[k2], 16, t2);
    HHIs(i, r, x[k0], 4, t0);
    HHIs(i + 1, Regs(r.d, a, r.b, r.c), x[k1], 11, t1);
    HHIs(i + 2, Regs(r.c, d, a, r.b), x[k2], 16, t2);
    HHIs(i + 3, Regs(r.b, c, d, a), x[k3], 23, t3);
  }

  lemma FourII(r: Regs, x: seq<word>, i: nat, k0: nat, k1: nat, k2: nat, k3: nat,
                 t0: word, t1: word, t2: word, t3: word)
    requires |x| == 16 && 48 <= i < 64 && i % 4 == 0 && Row(i, k0, k1, k2, k3, t0, t1, t2, t3)
    ensures k0 < 16 && k1 < 16 && k2 < 16 && k3 < 16
    ensures
      var a := II(r.a, r.b, r.c, r.d, x[k0], 6, t0);
      var d := II(r.d, a, r.b, r.c, x[k1], 10, t1);
      var c := II(r.c, d, a, r.b, x[k2], 15, t2);
      var b := II(r.b, c, d, a, x[k3], 21, t3);
      Four(r, x, i) == Regs(a, b, c, d)
  {
    hide II, Op, T, K;
    var a := II(r.a, r.b, r.c, r.d, x[k0], 6, t0);
    var d := II(r.d, a, r.b, r.c, x[k1], 10, t1);
    var c := II(r.c, d, a, r.b, x[k2], 15, t2);
    IIIs(i, r, x[k0], 6, t0);
    IIIs(i + 1, Regs(r.d, a, r.b, r.c), x[k1], 10, t1);
    IIIs(i + 2, Regs(r.c, d, a, r.b), x[k2], 15, t2);
    IIIs(i + 3, Regs(r.b, c, d, a), x[k3], 21, t3);
  }

  // The words and constants of round 1 are those of RFC 1321, section 3.4.
  lemma Rows1()
    ensures Row(0, 0, 1, 2, 3, 0xd76aa478, 0xe8c7b756, 0x242070db, 0xc1bdceee)
    ensures Row(4, 4, 5, 6, 7, 0xf57c0faf, 0x4787c62a, 0xa8304613, 0xfd469501)
    ensures Row(8, 8, 9, 10, 11, 0x698098d8, 0x8b44f7af, 0xffff5bb1, 0x895cd7be)
    ensures Row(12, 12, 13, 14, 15, 0x6b901122, 0xfd987193, 0xa679438e, 0x49b40821)
  {
  }

  // The words and constants of round 2 are those of RFC 1321, section 3.4.
  lemma Rows2()
    ensures Row(16, 1, 6, 11, 0, 0xf61e2562, 0xc040b340, 0x265e5a51, 0xe9b6c7aa)
    ensures Row(20, 5, 10, 15, 4, 0xd62f105d, 0x02441453, 0xd8a1e681, 0xe7d3fbc8)
    ensures Row(24, 9, 14, 3, 8, 0x21e1cde6, 0xc33707d6, 0xf4d50d87, 0x455a14ed)
    ensures Row(28, 13, 2, 7, 12, 0xa9e3e905, 0xfcefa3f8, 0x676f02d9, 0x8d2a4c8a)
  {
  }

  // The words and constants of round 3 are those of RFC 1321, section 3.4.
  lemma Rows3()
    ensures Row(32, 5, 8, 11, 14, 0xfffa3942, 0x8771f681, 0x6d9d6122, 0xfde5380c)
    ensures Row(36, 1, 4, 7, 10, 0xa4beea44, 0x4bdecfa9, 0xf6bb4b60, 0xbebfbc70)
    ensures Row(40, 13, 0, 3, 6, 0x289b7ec6, 0xeaa127fa, 0xd4ef3085, 0x04881d05)
    ensures Row(44, 9, 12, 15, 2, 0xd9d4d039, 0xe6db99e5, 0x1fa27cf8, 0xc4ac5665)
  {
  }

  // The words and constants of round 4 are those of RFC 1321, section 3.4.
  lemma Rows4()
    ensures Row(48, 0, 7, 14, 5, 0xf4292244, 0x432aff97, 0xab9423a7, 0xfc93a039)
    ensures Row(52, 12, 3, 10, 1, 0x655b59c3, 0x8f0ccc92, 0xffeff47d, 0x85845dd1)
    ensures Row(56, 8, 15, 6, 13, 0x6fa87e4f, 0xfe2ce6e0, 0xa3014314, 0x4e0811a1)
    ensures Row(60, 4, 11, 2, 9, 0xf7537e82, 0xbd3af235, 0x2ad7d2bb, 0xeb86d391)
  {
  }

  method Round1(r: Regs, x: seq<word>) returns (q: Regs)
    requires |x| == 16
    ensures q == Steps(r, x, 0, 16)
  {
    hide *;
    Rows1();
    var (a, b, c, d) := (r.a, r.b, r.c, r.d);
    ghost var r0 := Regs(a, b, c, d);
    a := FF(a, b, c, d, x[0], 7, 0xd76aa478);
    d := FF(d, a, b, c, x[1], 12, 0xe8c7b756);
    c := FF(c, d, a, b, x[2], 17, 0x242070db);
    b := FF(b, c, d, a, x[3], 22, 0xc1bdceee);
    FourFF(r0, x, 0, 0, 1, 2, 3, 0xd76aa478, 0xe8c7b756, 0x242070db, 0xc1bdceee);
    StepsByFour(r0, x, 0, 16);
    ghost var r1 := Regs(a, b, c, d);
    a := FF(a, b, c, d, x[4], 7, 0xf57c0faf);
    d := FF(d, a, b, c, x[5], 12, 0x4787c62a);
    c := FF(c, d, a, b, x[6], 17, 0xa8304613);
    b := FF(b, c, d, a, x[7], 22, 0xfd469501);
    FourFF(r1, x, 4, 4, 5, 6, 7, 0xf57c0faf, 0x4787c62a, 0xa8304613, 0xfd469501);
    StepsByFour(r1, x, 4, 12);
    ghost var r2 := Regs(a, b, c, d);
    a := FF(a, b, c, d, x[8], 7, 0x698098d8);
    d := FF(d, a, b, c, x[9], 12, 0x8b44f7af);
    c := FF(c, d, a, b, x[10], 17, 0xffff5bb1);
    b := FF(b, c, d, a, x[11], 22, 0x895cd7be);
    FourFF(r2, x, 8, 8, 9, 10, 11, 0x698098d8, 0x8b44f7af, 0xffff5bb1, 0x895cd7be);
    StepsByFour(r2, x, 8, 8);
    ghost var r3 := Regs(a, b, c, d);
    a := FF(a, b, c, d, x[12], 7, 0x6b901122);
    d := FF(d, a, b, c, x[13], 12, 0xfd987193);
    c := FF(c, d, a, b, x[14], 17, 0xa679438e);
    b := FF(b, c, d, a, x[15], 22, 0x49b40821);
    FourFF(r3, x, 12, 12, 13, 14, 15, 0x6b901122, 0xfd987193, 0xa679438e, 0x49b40821);
    StepsByFour(r3, x, 12, 4);
    q := Regs(a, b, c, d);
    NoSteps(q, x, 16);
  }

  method Round2(r: Regs, x: seq<word>) returns (q: Regs)
    requires |x| == 16
    ensures q == Steps(r, x, 16, 16)
  {
    hide *;
    Rows2();
    var (a, b, c, d) := (r.a, r.b, r.c, r.d);
    ghost var r0 := Regs(a, b, c, d);
    a := GG(a, b, c, d, x[1], 5, 0xf61e2562);
    d := GG(d, a, b, c, x[6], 9, 0xc040b340);
    c := GG(c, d, a, b, x[11], 14, 0x265e5a51);
    b := GG(b, c, d, a, x[0], 20, 0xe9b6c7aa);
    FourGG(r0, x, 16, 1, 6, 11, 0, 0xf61e2562, 0xc040b340, 0x265e5a51, 0xe9b6c7aa);
    StepsByFour(r0, x, 16, 16);
    ghost var r1 := Regs(a, b, c, d);
    a := GG(a, b, c, d, x[5], 5, 0xd62f105d);
    d := GG(d, a, b, c, x[10], 9, 0x02441453);
    c := GG(c, d, a, b, x[15], 14, 0xd8a1e681);
    b := GG(b, c, d, a, x[4], 20, 0xe7d3fbc8);
    FourGG(r1, x, 20, 5, 10, 15, 4, 0xd62f105d, 0x02441453, 0xd8a1e681, 0xe7d3fbc8);
    StepsByFour(r1, x, 20, 12);
    ghost var r2 := Regs(a, b, c, d);
    a := GG(a, b, c, d, x[9], 5, 0x21e1cde6);
    d := GG(d, a, b, c, x[14], 9, 0xc33707d6);
    c := GG(c, d, a, b, x[3], 14, 0xf4d50d87);
    b := GG(b, c, d, a, x[8], 20, 0x455a14ed);
    FourGG(r2, x, 24, 9, 14, 3, 8, 0x21e1cde6, 0xc33707d6, 0xf4d50d87, 0x455a14ed);
    StepsByFour(r2, x, 24, 8);
    ghost var r3 := Regs(a, b, c, d);
    a := GG(a, b, c, d, x[13], 5, 0xa9e3e905);
    d := GG(d, a, b, c, x[2], 9, 0xfcefa3f8);
    c := GG(c, d, a, b, x[7], 14, 0x676f02d9);
    b := GG(b, c, d, a, x[12], 20, 0x8d2a4c8a);
    FourGG(r3, x, 28, 13, 2, 7, 12, 0xa9e3e905, 0xfcefa3f8, 0x676f02d9, 0x8d2a4c8a);
    StepsByFour(r3, x, 28, 4);
    q := Regs(a, b, c, d);
    NoSteps(q, x, 32);
  }

  method Round3(r: Regs, x: seq<word>) returns (q: Regs)
    requires |x| == 16
    ensures q == Steps(r, x, 32, 16)
  {
    hide *;
    Rows3();
    var (a, b, c, d) := (r.a, r.b, r.c, r.d);
    ghost var r0 := Regs(a, b, c, d);
    a := HH(a, b, c, d, x[5], 4, 0xfffa3942);
    d := HH(d, a, b, c, x[8], 11, 0x8771f681);
    c := HH(c, d, a, b, x[11], 16, 0x6d9d6122);
    b := HH(b, c, d, a, x[14], 23, 0xfde5380c);
    FourHH(r0, x, 32, 5, 8, 11, 14, 0xfffa3942, 0x8771f681, 0x6d9d6122, 0xfde5380c);
    StepsByFour(r0, x, 32, 16);
    ghost var r1 := Regs(a, b, c, d);
    a := HH(a, b, c, d, x[1], 4, 0xa4beea44);
    d := HH(d, a, b, c, x[4], 11, 0x4bdecfa9);
    c := HH(c, d, a, b, x[7], 16, 0xf6bb4b60);
    b := HH(b, c, d, a, x[10], 23, 0xbebfbc70);
    FourHH(r1, x, 36, 1, 4, 7, 10, 0xa4beea44, 0x4bdecfa9, 0xf6bb4b60, 0xbebfbc70);
    StepsByFour(r1, x, 36, 12);
    ghost var r2 := Regs(a, b, c, d);
    a := HH(a, b, c, d, x[13], 4, 0x289b7ec6);
    d := HH(d, a, b, c, x[0], 11, 0xeaa127fa);
    c := HH(c, d, a, b, x[3], 16, 0xd4ef3085);
    b := HH(b, c, d, a, x[6], 23, 0x04881d05);
    FourHH(r2, x, 40, 13, 0, 3, 6, 0x289b7ec6, 0xeaa127fa, 0xd4ef3085, 0x04881d05);
    StepsByFour(r2, x, 40, 8);
    ghost var r3 := Regs(a, b, c, d);
    a := HH(a, b, c, d, x[9], 4, 0xd9d4d039);
    d := HH(d, a, b, c, x[12], 11, 0xe6db99e5);
    c := HH(c, d, a, b, x[15], 16, 0x1fa27cf8);
    b := HH(b, c, d, a, x[2], 23, 0xc4ac5665);
    FourHH(r3, x, 44, 9, 12, 15, 2, 0xd9d4d039, 0xe6db99e5, 0x1fa27cf8, 0xc4ac5665);
    StepsByFour(r3, x, 44, 4);
    q := Regs(a, b, c, d);
    NoSteps(q, x, 48);
  }

  method Round4(r: Regs, x: seq<word>) returns (q: Regs)
    requires |x| == 16
    ensures q == Steps(r, x, 48, 16)
  {
    hide *;
    Rows4();
    var (a, b, c, d) := (r.a, r.b, r.c, r.d);
    ghost var r0 := Regs(a, b, c, d);
    a := II(a, b, c, d, x[0], 6, 0xf4292244);
    d := II(d, a, b, c, x[7], 10, 0x432aff97);
    c := II(c, d, a, b, x[14], 15, 0xab9423a7);
    b := II(b, c, d, a, x[5], 21, 0xfc93a039);
    FourII(r0, x, 48, 0, 7, 14, 5, 0xf4292244, 0x432aff97, 0xab9423a7, 0xfc93a039);
    StepsByFour(r0, x, 48, 16);
    ghost var r1 := Regs(a, b, c, d);
    a := II(a, b, c, d, x[12], 6, 0x655b59c3);
    d := II(d, a, b, c, x[3], 10, 0x8f0ccc92);
    c := II(c, d, a, b, x[10], 15, 0xffeff47d);
    b := II(b, c, d, a, x[1], 21, 0x85845dd1);
    FourII(r1, x, 52, 12, 3, 10, 1, 0x655b59c3, 0x8f0ccc92, 0xffeff47d, 0x85845dd1);
    StepsByFour(r1, x, 52, 12);
    ghost var r2 := Regs(a, b, c, d);
    a := II(a, b, c, d, x[8], 6, 0x6fa87e4f);
    d := II(d, a, b, c, x[15], 10, 0xfe2ce6e0);
    c := II(c, d, a, b, x[6], 15, 0xa3014314);
    b := II(b, c, d, a, x[13], 21, 0x4e0811a1);
    FourII(r2, x, 56, 8, 15, 6, 13, 0x6fa87e4f, 0xfe2ce6e0, 0xa3014314, 0x4e0811a1);
    StepsByFour(r2, x, 56, 8);
    ghost var r3 := Regs(a, b, c, d);
    a := II(a, b, c, d, x[4], 6, 0xf7537e82);
    d := II(d, a, b, c, x[11], 10, 0xbd3af235);
    c := II(c, d, a, b, x[2], 15, 0x2ad7d2bb);
    b := II(b, c, d, a, x[9], 21, 0xeb86d391);
    FourII(r3, x, 60, 4, 11, 2, 9, 0xf7537e82, 0xbd3af235, 0x2ad7d2bb, 0xeb86d391);
    StepsByFour(r3, x, 60, 4);
    q := Regs(a, b, c, d);
    NoSteps(q, x, 64);
  }

  method FromBytes(block: octets, j: nat) returns (w: word)
    requires j + 4 <= |block|
    ensures w == Word(block[j..j + 4])
  {
    w := (block[j] as word) | ((block[j + 1] as word) << 8) | ((block[j + 2] as word) << 16) | ((block[j + 3] as word) << 24);
  }

  method Decode(block: octets) returns (x: seq<word>)
    requires |block| % 4 == 0
    ensures x == Words(block)
  {
    hide Word;
    x := [];
    var i, j := 0, 0;
    while j < |block|
      invariant 0 <= i && j == 4 * i <= |block| && |x| == i
      invariant forall k :: 0 <= k < i ==> x[k] == Word(block[4 * k..4 * k + 4])
    {
      var w := FromBytes(block, j);
      x := x + [w];
      i, j := i + 1, j + 4;
    }
  }

  method Encode(input: seq<word>) returns (output: octets)
    ensures output == AllBytes(input)
  {
    hide WordBytes;
    output := [];
    var i := 0;
    assert input[0..] == input;
    while i < |input|
      invariant 0 <= i <= |input| && output + AllBytes(input[i..]) == AllBytes(input)
    {
      assert input[i..][1..] == input[i + 1..];
      var four := FourBytes(input[i]);
      assert output + (four + AllBytes(input[i + 1..])) == (output + four) + AllBytes(input[i + 1..]);
      output := output + four;
      i := i + 1;
    }
    assert input[i..] == [];
  }

  method FourBytes(w: word) returns (s: octets)
    ensures s == WordBytes(w)
  {
    s := [(w & 0xff) as octet, ((w >> 8) & 0xff) as octet, ((w >> 16) & 0xff) as octet, ((w >> 24) & 0xff) as octet];
  }

  method Transform(r: Regs, block: octets) returns (q: Regs)
    requires |block| == 64
    ensures q == Block(r, block)
  {
    hide Steps, Add;
    var x := Decode(block);
    var s := Round1(r, x);
    StepsSplit(r, x, 0, 16, 48);
    ghost var s1 := s;
    s := Round2(s, x);
    StepsSplit(s1, x, 16, 16, 32);
    ghost var s2 := s;
    s := Round3(s, x);
    StepsSplit(s2, x, 32, 16, 16);
    s := Round4(s, x);
    q := Regs(Add(r.a, s.a), Add(r.b, s.b), Add(r.c, s.c), Add(r.d, s.d));
  }

  // The loop over the full blocks of n bytes starts at partlen and takes i in steps of 64.
  predicate Visited(i: nat, partlen: nat, n: nat) {
    partlen <= i <= n && i % 64 == partlen % 64
  }

  // The sum i + 64 in the loop's guard stays an unsigned 32-bit number exactly for these lengths.
  lemma WrapIff(partlen: nat, n: nat)
    requires 0 < partlen <= 64
    ensures (forall i: nat :: Visited(i, partlen, n) ==> i + 64 < TWO32) <==> n < TWO32 - 64 + partlen % 64
  {
    if n >= TWO32 - 64 + partlen % 64 {
      assert Visited(TWO32 - 64 + partlen % 64, partlen, n);
    }
  }

  function Next(i: nat): nat {
    (i + 64) % TWO32
  }

  // The index after k rounds of that loop, which goes on while the next index is at most n.
  function Index(partlen: nat, k: nat): nat {
    if k == 0 then partlen else Next(Index(partlen, k - 1))
  }

  lemma NextClass(i: nat, r: nat)
    requires i % 64 == r < 64
    ensures Next(i) < TWO32 && Next(i) % 64 == r && Next(i) <= TWO32 - 64 + r
  {
    assert TWO32 % 64 == 0;
  }

  lemma {:induction false} IndexClass(partlen: nat, k: nat)
    requires 0 < partlen <= 64
    ensures Index(partlen, k) < TWO32 && Index(partlen, k) % 64 == partlen % 64
    ensures Index(partlen, k) <= TWO32 - 64 + partlen % 64
  {
    hide Next;
    if k > 0 {
      IndexClass(partlen, k - 1);
      NextClass(Index(partlen, k - 1), partlen % 64);
    }
  }

  lemma {:induction false} IndexSmall(partlen: nat, k: nat)
    requires 0 < partlen <= 64 && partlen + 64 * k < TWO32
    ensures Index(partlen, k) == partlen + 64 * k
  {
    if k > 0 { IndexSmall(partlen, k - 1); }
  }

  // For exactly the same lengths the loop ends; for the others it goes round for ever.
  lemma EndsIff(partlen: nat, n: nat)
    requires 0 < partlen <= 64 && partlen <= n < TWO32
    ensures (exists k: nat :: Next(Index(partlen, k)) > n) <==> n < TWO32 - 64 + partlen % 64
  {
    if n < TWO32 - 64 + partlen % 64 {
      var k := (n - partlen) / 64;
      IndexSmall(partlen, k);
      assert Next(Index(partlen, k)) == partlen + 64 * k + 64 > n;
    } else {
      forall k: nat ensures Next(Index(partlen, k)) <= n {
        IndexClass(partlen, k + 1);
      }
    }
  }

  lemma NextVisited(i: nat, partlen: nat, n: nat)
    requires 0 < partlen <= 64 && n < TWO32 - 64 + partlen % 64 && Visited(i, partlen, n)
    ensures Next(i) == i + 64 && (Next(i) <= n ==> Visited(Next(i), partlen, n))
  {
    WrapIff(partlen, n);
  }

  lemma FirstVisited(partlen: nat, n: nat)
    requires partlen <= n
    ensures Visited(partlen, partlen, n)
  {
  }

  lemma Advance(done: octets, rest: octets, input: octets, i: nat)
    requires i + 64 <= |input|
    ensures done + (rest + input[..i]) + input[i..i + 64] == done + (rest + input[..i + 64])
  {
    assert input[..i] + input[i..i + 64] == input[..i + 64];
    assert done + (rest + input[..i]) + input[i..i + 64] == done + (rest + (input[..i] + input[i..i + 64]));
  }

  lemma AfterBlocks(done: octets, rest: octets, input: octets, i: nat)
    requires i <= |input|
    ensures done + rest + input == done + (rest + input[..i]) + ([] + input[i..])
  {
    assert input == input[..i] + input[i..];
  }

  lemma NoBlocks(done: octets, rest: octets, input: octets)
    ensures done + rest + input == done + (rest + input[0..])
  {
    assert input[0..] == input;
  }

  class Context {
    var count0: nat
    var count1: nat
    var state: Regs
    const buffer: array<octet>
    ghost var message: octets   // everything put in so far

    ghost predicate Valid()
      reads this, buffer
    {
      && buffer.Length == 64
      && Counts(count0, count1, |message|)
      && state == Fold(INIT, Blocks(message))
      && buffer[..|message| % 64] == Rest(message)
    }

    constructor ()
      ensures Valid() && message == [] && fresh(buffer)
    {
      count0, count1 := 0, 0;
      state := Regs(0x67452301, 0xEFCDAB89, 0x98BADCFE, 0x10325476);
      buffer := new octet[64];
      message := [];
    }

    method UpdateCount(inputlen: nat)
      requires Counts(count0, count1, |message|)
      modifies `count0, `count1
      ensures Counts(count0, count1, |message| + inputlen)
    {
      CountMore(count0, count1, |message|, inputlen);
      WrapTwice(count1, 1, inputlen / 0x2000_0000);
      var nbits := 8 * inputlen % TWO32;
      count0 := (count0 + nbits) % TWO32;
      if count0 < nbits {
        count1 := (count1 + 1) % TWO32;
      }
      count1 := (count1 + inputlen / 0x2000_0000) % TWO32;
    }

    // Copies bytes of the input to position index, after the bytes of rest.
    method Copy(index: nat, input: octets, i: nat, n: nat, ghost rest: octets)
      requires i + n <= |input| && index + n <= buffer.Length && index == |rest| && buffer[..index] == rest
      modifies buffer
      ensures buffer[..index + n] == rest + input[i..i + n]
    {
      forall k | 0 <= k < n {
        buffer[index + k] := input[i + k];
      }
    }

    // What is left of the input is kept for the next block.
    method KeepRest(index: nat, input: octets, i: nat, ghost done: octets, ghost rest: octets)
      requires i <= |input| && index + (|input| - i) < 64 == buffer.Length
      requires index == |rest| && buffer[..index] == rest && |done| % 64 == 0
      modifies buffer
      ensures var m := done + (rest + input[i..]);
        Blocks(m) == done && buffer[..|m| % 64] == Rest(m)
    {
      Copy(index, input, i, |input| - i, rest);
      assert input[i..i + (|input| - i)] == input[i..];
      BlocksAndRest(done, rest + input[i..]);
    }

    // The full blocks of an input long enough to complete the partial block.
    method TransformBlocks(index: nat, input: octets, ghost done: octets, ghost rest: octets) returns (i: nat)
      requires buffer.Length == 64 && |done| % 64 == 0 && state == Fold(INIT, done)
      requires index == |rest| < 64 && buffer[..index] == rest && |input| >= 64 - index
      requires |input| < TWO32 - 64 + (64 - index) % 64
      modifies `state, buffer
      ensures i <= |input| && |input| - i < 64
      ensures |done + (rest + input[..i])| % 64 == 0 && state == Fold(INIT, done + (rest + input[..i]))
    {
      hide Fold, Block, Visited, Next;
      var partlen := 64 - index;
      Copy(index, input, 0, partlen, rest);
      assert input[0..0 + partlen] == input[..partlen];
      ghost var x := done + (rest + input[..partlen]);
      assert buffer[..] == rest + input[..partlen];
      PushBlock(INIT, done, rest + input[..partlen]);
      state := Transform(state, buffer[..]);
      i := partlen;
      FirstVisited(partlen, |input|);
      while Next(i) <= |input|
        invariant i <= |input| && Visited(i, partlen, |input|)
        invariant |x| % 64 == 0 && x == done + (rest + input[..i]) && state == Fold(INIT, x)
        decreases |input| - i
      {
        NextVisited(i, partlen, |input|);
        PushBlock(INIT, x, input[i..i + 64]);
        state := Transform(state, input[i..i + 64]);
        Advance(done, rest, input, i);
        x := x + input[i..i + 64];
        i := Next(i);
      }
      NextVisited(i, partlen, |input|);
    }

    // The loop index is an unsigned 32-bit number; the lengths for which it does not wrap depend on how full the
    // partial block is.
    method Update(input: octets)
      requires Valid() && |input| < TWO32 - 64 + (64 - |message| % 64) % 64
      modifies this, buffer
      ensures Valid() && message == old(message) + input
    {
      hide Fold, Block, Counts, Blocks, Rest, Next, Visited;
      ghost var (done, rest) := (Blocks(message), Rest(message));
      Splits(message);
      Offset(count0, count1, |message|);
      var i, index := 0, count0 / 8 % 64;
      var partlen := 64 - index;
      UpdateCount(|input|);
      message := message + input;
      if |input| >= partlen {
        i := TransformBlocks(index, input, done, rest);
        AfterBlocks(done, rest, input, i);
        done, rest := done + (rest + input[..i]), [];
        index := 0;
      } else {
        i := 0;
        NoBlocks(done, rest, input);
      }
      KeepRest(index, input, i, done, rest);
    }

    method PaddingLength(ghost m: octets) returns (padlen: nat)
      requires Counts(count0, count1, |m|)
      ensures padlen == 1 + (55 - |m|) % 64
    {
      PadLength(count0, count1, m);
      var index := count0 / 8 % 64;
      padlen := if index < 56 then 56 - index else 120 - index;
    }

    // The length so far in bits, modulo 2^64.
    method CountBytes() returns (bits: octets)
      requires Counts(count0, count1, |message|)
      ensures |bits| == 8 && bits == LengthBytes(8 * |message|)
    {
      hide Counts, LengthBytes, WordBytes;
      LengthIs(count0, count1, |message|);
      bits := Encode([count0 as word, count1 as word]);
    }

    method AppendPadding()
      requires Valid()
      modifies this, buffer
      ensures Valid() && message == Pad(old(message))
    {
      hide Fold, WordBytes, Counts, LengthBytes, AllBytes, Blocks, Rest, Zeros, Pad;
      ghost var m := message;
      var padlen := PaddingLength(m);
      var bits := CountBytes();
      ghost var k := (55 - |m|) % 64;
      var padding := [0x80] + Zeros(63);
      ZerosPrefix(k);
      Update(padding[..padlen]);
      Update(bits);
      PadIs(m, m + ([0x80] + Zeros(k)) + bits);
    }

    // The digest of everything put in.
    method Final() returns (digest: octets)
      requires Valid()
      modifies this, buffer
      ensures digest == Digest(old(message))
    {
      hide Fold, Pad, AllBytes;
      AppendPadding();
      WholeBlocks(message);
      digest := Encode([state.a, state.b, state.c, state.d]);
      OutputIs(state);
    }
  }

  // ---------------------------------------------------------------- placement

  function Octets(s: bytes): (o: octets)
    ensures |o| == |s|
  {
    seq(|s|, i requires 0 <= i < |s| => s[i] as octet)
  }

  function Total(s: octets): nat {
    if s == [] then 0 else Total(s[..|s| - 1]) + s[|s| - 1] as nat
  }

  lemma {:induction false} TotalTwo(a: octets, b: octets)
    ensures Total(a + b) == Total(a) + Total(b)
    decreases |b|
  {
    if b == [] {
      assert a + b == a;
    } else {
      var init := b[..|b| - 1];
      assert (a + b)[..|a + b| - 1] == a + init;
      TotalTwo(a, init);
    }
  }

  lemma TotalOne(x: octet)
    ensures Total([x]) == x as nat
  {
    assert [x][..0] == [];
    assert Total([x]) == Total([]) + x as nat;
  }

  // The slot of a key: the sum of the bytes of its digest, modulo the number of slots.
  function SlotOf(key: bytes, slot: nat): (k: nat)
    requires slot > 0
    ensures k < slot
  {
    Total(Digest(Octets(Text(key)))) % slot
  }

  // The key "abc" among a thousand slots.
  lemma AbcSlot()
    ensures SlotOf([97, 98, 99], 1000) == 960
  {
    hide Digest;
    var key: bytes := [97, 98, 99];
    assert Text(key) == key by { TextWhole(key); }
    assert Octets(key) == ABC;
    AbcDigest();
    AbcTotal();
  }

  lemma AbcTotal()
    ensures Total([0x90, 0x01, 0x50, 0x98, 0x3c, 0xd2, 0x4f, 0xb0, 0xd6, 0x96, 0x3f, 0x7d, 0x28, 0xe1, 0x7f, 0x72]) == 1960
  {
    hide Total;
    FourTotal(0x90, 0x01, 0x50, 0x98);
    FourTotal(0x3c, 0xd2, 0x4f, 0xb0);
    FourTotal(0xd6, 0x96, 0x3f, 0x7d);
    FourTotal(0x28, 0xe1, 0x7f, 0x72);
    var a: octets, b: octets := [0x90, 0x01, 0x50, 0x98], [0x3c, 0xd2, 0x4f, 0xb0];
    var c: octets, d: octets := [0xd6, 0x96, 0x3f, 0x7d], [0x28, 0xe1, 0x7f, 0x72];
    TotalTwo(a, b);
    TotalTwo(c, d);
    TotalTwo(a + b, c + d);
    assert (a + b) + (c + d)
      == [0x90, 0x01, 0x50, 0x98, 0x3c, 0xd2, 0x4f, 0xb0, 0xd6, 0x96, 0x3f, 0x7d, 0x28, 0xe1, 0x7f, 0x72];
  }

  lemma FourTotal(a: octet, b: octet, c: octet, d: octet)
    ensures Total([a, b, c, d]) == a as nat + b as nat + c as nat + d as nat
  {
    hide Total;
    TotalOne(a);
    TotalOne(b);
    TotalOne(c);
    TotalOne(d);
    TotalTwo([a], [b]);
    TotalTwo([c], [d]);
    TotalTwo([a, b], [c, d]);
    assert [a] + [b] == [a, b] && [c] + [d] == [c, d] && [a, b] + [c, d] == [a, b, c, d];
  }

  method SumOf(decrypt: octets) returns (total: nat)
    requires |decrypt| == 16
    ensures total == Total(decrypt)
  {
    total := 0;
    var i := 0;
    while i < 16
      invariant 0 <= i <= 16 && total == Total(decrypt[..i])
    {
      assert decrypt[..i + 1][..i] == decrypt[..i];
      total := total + decrypt[i] as nat;
      i := i + 1;
    }
    assert decrypt[..16] == decrypt;
  }

  // src is a C string.
  method Hash(src: bytes, slot: nat) returns (num: nat)
    requires slot > 0 && |src| < TWO32 - 64
    ensures num == SlotOf(src, slot)
  {
    hide Digest, Octets, Text, Total;
    var md5 := new Context();
    TextShort(src);
    var text := Octets(Text(src));
    md5.Update(text);
    assert [] + text == text;
    var decrypt := md5.Final();
    var total := SumOf(decrypt);
    num := total % slot;
  }
}
