/** The MD5 message digest as RFC 1321 defines it, sections 3.1 to 3.5. */
module Md5Spec {
  import opened Powers

  type octet = bv8
  type octets = seq<bv8>
  type word = bv32

  // The four registers.
  datatype Regs = Regs(a: word, b: word, c: word, d: word)

  const INIT := Regs(0x67452301, 0xefcdab89, 0x98badcfe, 0x10325476)

  function Add(x: word, y: word): word { x + y }
  function Sum4(a: word, m: word, x: word, t: word): word { a + m + x + t }

  lemma AddCommutes(x: word, y: word)
    ensures Add(x, y) == Add(y, x)
  {
  }

  function F(x: word, y: word, z: word): word { (x & y) | (!x & z) }
  function G(x: word, y: word, z: word): word { (x & z) | (y & !z) }
  function H(x: word, y: word, z: word): word { x ^ y ^ z }
  function I(x: word, y: word, z: word): word { y ^ (x | !z) }

  function RotateLeft(x: word, n: nat): word
    requires 0 < n < 32
  {
    (x << n) | (x >> (32 - n))
  }

  // Where x has a one bit F takes the bit of y, elsewhere that of z.
  lemma FChooses(x: word, y: word, z: word)
    ensures F(x, y, z) & x == y & x && F(x, y, z) & !x == z & !x
  {
  }

  // Where z has a one bit G takes the bit of x, elsewhere that of y.
  lemma GChooses(x: word, y: word, z: word)
    ensures G(x, y, z) & z == x & z && G(x, y, z) & !z == y & !z
  {
  }

  // H is the parity of the three bits.
  lemma HIsParity(x: word, y: word, z: word)
    ensures H(x, y, z) ^ x == y ^ z && H(x, y, z) == H(z, x, y) && H(x, x, z) == z
  {
  }

  // I turns the bits of y where x has a one bit or z has none.
  lemma ITurns(x: word, y: word, z: word)
    ensures I(x, y, z) & (x | !z) == !y & (x | !z) && I(x, y, z) & (!x & z) == y & (!x & z)
  {
  }


  function Sine1(j: nat): word {
    match j
    case 0 => 0xd76aa478
    case 1 => 0xe8c7b756
    case 2 => 0x242070db
    case 3 => 0xc1bdceee
    case 4 => 0xf57c0faf
    case 5 => 0x4787c62a
    case 6 => 0xa8304613
    case 7 => 0xfd469501
    case 8 => 0x698098d8
    case 9 => 0x8b44f7af
    case 10 => 0xffff5bb1
    case 11 => 0x895cd7be
    case 12 => 0x6b901122
    case 13 => 0xfd987193
    case 14 => 0xa679438e
    case 15 => 0x49b40821
    case _ => 0
  }

  function Sine2(j: nat): word {
    match j
    case 0 => 0xf61e2562
    case 1 => 0xc040b340
    case 2 => 0x265e5a51
    case 3 => 0xe9b6c7aa
    case 4 => 0xd62f105d
    case 5 => 0x02441453
    case 6 => 0xd8a1e681
    case 7 => 0xe7d3fbc8
    case 8 => 0x21e1cde6
    case 9 => 0xc33707d6
    case 10 => 0xf4d50d87
    case 11 => 0x455a14ed
    case 12 => 0xa9e3e905
    case 13 => 0xfcefa3f8
    case 14 => 0x676f02d9
    case 15 => 0x8d2a4c8a
    case _ => 0
  }

  function Sine3(j: nat): word {
    match j
    case 0 => 0xfffa3942
    case 1 => 0x8771f681
    case 2 => 0x6d9d6122
    case 3 => 0xfde5380c
    case 4 => 0xa4beea44
    case 5 => 0x4bdecfa9
    case 6 => 0xf6bb4b60
    case 7 => 0xbebfbc70
    case 8 => 0x289b7ec6
    case 9 => 0xeaa127fa
    case 10 => 0xd4ef3085
    case 11 => 0x04881d05
    case 12 => 0xd9d4d039
    case 13 => 0xe6db99e5
    case 14 => 0x1fa27cf8
    case 15 => 0xc4ac5665
    case _ => 0
  }

  function Sine4(j: nat): word {
    match j
    case 0 => 0xf4292244
    case 1 => 0x432aff97
    case 2 => 0xab9423a7
    case 3 => 0xfc93a039
    case 4 => 0x655b59c3
    case 5 => 0x8f0ccc92
    case 6 => 0xffeff47d
    case 7 => 0x85845dd1
    case 8 => 0x6fa87e4f
    case 9 => 0xfe2ce6e0
    case 10 => 0xa3014314
    case 11 => 0x4e0811a1
    case 12 => 0xf7537e82
    case 13 => 0xbd3af235
    case 14 => 0x2ad7d2bb
    case 15 => 0xeb86d391
    case _ => 0
  }

  function Order1(j: nat): (k: nat)
    ensures k < 16
  {
    match j
    case 0 => 0
    case 1 => 1
    case 2 => 2
    case 3 => 3
    case 4 => 4
    case 5 => 5
    case 6 => 6
    case 7 => 7
    case 8 => 8
    case 9 => 9
    case 10 => 10
    case 11 => 11
    case 12 => 12
    case 13 => 13
    case 14 => 14
    case 15 => 15
    case _ => 0
  }

  function Order2(j: nat): (k: nat)
    ensures k < 16
  {
    match j
    case 0 => 1
    case 1 => 6
    case 2 => 11
    case 3 => 0
    case 4 => 5
    case 5 => 10
    case 6 => 15
    case 7 => 4
    case 8 => 9
    case 9 => 14
    case 10 => 3
    case 11 => 8
    case 12 => 13
    case 13 => 2
    case 14 => 7
    case 15 => 12
    case _ => 0
  }

  function Order3(j: nat): (k: nat)
    ensures k < 16
  {
    match j
    case 0 => 5
    case 1 => 8
    case 2 => 11
    case 3 => 14
    case 4 => 1
    case 5 => 4
    case 6 => 7
    case 7 => 10
    case 8 => 13
    case 9 => 0
    case 10 => 3
    case 11 => 6
    case 12 => 9
    case 13 => 12
    case 14 => 15
    case 15 => 2
    case _ => 0
  }

  function Order4(j: nat): (k: nat)
    ensures k < 16
  {
    match j
    case 0 => 0
    case 1 => 7
    case 2 => 14
    case 3 => 5
    case 4 => 12
    case 5 => 3
    case 6 => 10
    case 7 => 1
    case 8 => 8
    case 9 => 15
    case 10 => 6
    case 11 => 13
    case 12 => 4
    case 13 => 11
    case 14 => 2
    case 15 => 9
    case _ => 0
  }

  // T[i + 1]: the integer part of 4294967296 times abs(sin(i + 1)).
  function T(i: nat): word {
    if i < 16 then Sine1(i) else if i < 32 then Sine2(i - 16) else if i < 48 then Sine3(i - 32) else Sine4(i - 48)
  }

  // Which word of the block operation i takes.
  function K(i: nat): (k: nat)
    ensures k < 16
  {
    if i < 16 then Order1(i) else if i < 32 then Order2(i - 16) else if i < 48 then Order3(i - 32) else Order4(i - 48)
  }

  // How far operation i rotates.
  function S(i: nat): (s: nat)
    ensures 0 < s < 32
  {
    var (r, j) := (i / 16, i % 4);
    if r == 0 then (if j == 0 then 7 else if j == 1 then 12 else if j == 2 then 17 else 22)
    else if r == 1 then (if j == 0 then 5 else if j == 1 then 9 else if j == 2 then 14 else 20)
    else if r == 2 then (if j == 0 then 4 else if j == 1 then 11 else if j == 2 then 16 else 23)
    else (if j == 0 then 6 else if j == 1 then 10 else if j == 2 then 15 else 21)
  }

  // RotateLeft turns all the bits of a word, by each of the distances of the four rounds.
  lemma Rotates1(x: word)
    ensures RotateLeft(x, 7) == x.RotateLeft(7) && RotateLeft(x, 12) == x.RotateLeft(12)
    ensures RotateLeft(x, 17) == x.RotateLeft(17) && RotateLeft(x, 22) == x.RotateLeft(22)
  {
    assert RotateLeft(x, 7) == (x << 7) | (x >> 25) == x.RotateLeft(7);
    assert RotateLeft(x, 12) == (x << 12) | (x >> 20) == x.RotateLeft(12);
    assert RotateLeft(x, 17) == (x << 17) | (x >> 15) == x.RotateLeft(17);
    assert RotateLeft(x, 22) == (x << 22) | (x >> 10) == x.RotateLeft(22);
  }

  lemma Rotates2(x: word)
    ensures RotateLeft(x, 5) == x.RotateLeft(5) && RotateLeft(x, 9) == x.RotateLeft(9)
    ensures RotateLeft(x, 14) == x.RotateLeft(14) && RotateLeft(x, 20) == x.RotateLeft(20)
  {
    assert RotateLeft(x, 5) == (x << 5) | (x >> 27) == x.RotateLeft(5);
    assert RotateLeft(x, 9) == (x << 9) | (x >> 23) == x.RotateLeft(9);
    assert RotateLeft(x, 14) == (x << 14) | (x >> 18) == x.RotateLeft(14);
    assert RotateLeft(x, 20) == (x << 20) | (x >> 12) == x.RotateLeft(20);
  }

  lemma Rotates3(x: word)
    ensures RotateLeft(x, 4) == x.RotateLeft(4) && RotateLeft(x, 11) == x.RotateLeft(11)
    ensures RotateLeft(x, 16) == x.RotateLeft(16) && RotateLeft(x, 23) == x.RotateLeft(23)
  {
    assert RotateLeft(x, 4) == (x << 4) | (x >> 28) == x.RotateLeft(4);
    assert RotateLeft(x, 11) == (x << 11) | (x >> 21) == x.RotateLeft(11);
    assert RotateLeft(x, 16) == (x << 16) | (x >> 16) == x.RotateLeft(16);
    assert RotateLeft(x, 23) == (x << 23) | (x >> 9) == x.RotateLeft(23);
  }

  lemma Rotates4(x: word)
    ensures RotateLeft(x, 6) == x.RotateLeft(6) && RotateLeft(x, 10) == x.RotateLeft(10)
    ensures RotateLeft(x, 15) == x.RotateLeft(15) && RotateLeft(x, 21) == x.RotateLeft(21)
  {
    assert RotateLeft(x, 6) == (x << 6) | (x >> 26) == x.RotateLeft(6);
    assert RotateLeft(x, 10) == (x << 10) | (x >> 22) == x.RotateLeft(10);
    assert RotateLeft(x, 15) == (x << 15) | (x >> 17) == x.RotateLeft(15);
    assert RotateLeft(x, 21) == (x << 21) | (x >> 11) == x.RotateLeft(21);
  }

  function Mix(i: nat, x: word, y: word, z: word): word {
    if i < 16 then F(x, y, z) else if i < 32 then G(x, y, z) else if i < 48 then H(x, y, z) else I(x, y, z)
  }

  // The value [abcd k s i] gives its first register.
  function Op(i: nat, r: Regs, x: word): word {
    Add(r.b, RotateLeft(Sum4(r.a, Mix(i, r.b, r.c, r.d), x, T(i)), S(i)))
  }

  // Operation i, after which the registers take each other's places.
  function Step(r: Regs, x: seq<word>, i: nat): Regs
    requires |x| == 16
  {
    Regs(r.d, Op(i, r, x[K(i)]), r.b, r.c)
  }

  // Operations i to i + n - 1.
  function Steps(r: Regs, x: seq<word>, i: nat, n: nat): Regs
    requires |x| == 16
    decreases n
  {
    if n == 0 then r else Steps(Step(r, x, i), x, i + 1, n - 1)
  }

  function Sum(r: Regs, q: Regs): Regs {
    Regs(Add(r.a, q.a), Add(r.b, q.b), Add(r.c, q.c), Add(r.d, q.d))
  }

  // A word is four bytes, low-order byte first.
  function Word(s: octets): word
    requires |s| == 4
  {
    (s[0] as word) | ((s[1] as word) << 8) | ((s[2] as word) << 16) | ((s[3] as word) << 24)
  }

  function Words(s: octets): (x: seq<word>)
    requires |s| % 4 == 0
    ensures |x| == |s| / 4
  {
    seq(|s| / 4, i requires 0 <= i < |s| / 4 => Word(s[4 * i..4 * i + 4]))
  }

  function Block(r: Regs, s: octets): Regs
    requires |s| == 64
  {
    Sum(r, Steps(r, Words(s), 0, 64))
  }

  // The registers after all the blocks of s.
  function Fold(r: Regs, s: octets): Regs
    requires |s| % 64 == 0
    decreases |s|
  {
    if |s| == 0 then r
    else
      assert |s| >= 64 && |s[64..]| % 64 == 0 by { Whole(|s|); }
      Fold(Block(r, s[..64]), s[64..])
  }

  lemma Whole(n: nat)
    requires n % 64 == 0 && n > 0
    ensures n >= 64 && (n - 64) % 64 == 0
  {
  }

  function WordBytes(w: word): (s: octets)
    ensures |s| == 4
  {
    [(w & 0xff) as octet, ((w >> 8) & 0xff) as octet, ((w >> 16) & 0xff) as octet, ((w >> 24) & 0xff) as octet]
  }


  function LengthBytes(n: nat): (s: octets)
    ensures |s| == 8
  {
    WordBytes((n % TWO32) as word) + WordBytes((n / TWO32 % TWO32) as word)
  }

  lemma WordOfBytes(w: word)
    ensures Word(WordBytes(w)) == w
  {
  }

  // The length reads back as two words, the low-order one first; they make up the number modulo 2^64.
  lemma LengthReads(n: nat)
    ensures var s := LengthBytes(n); Word(s[..4]) == (n % TWO32) as word && Word(s[4..]) == (n / TWO32 % TWO32) as word
    ensures n % TWO32 + TWO32 * (n / TWO32 % TWO32) == n % TWO64
  {
    hide Word, WordBytes;
    TwoWords(n);
    var low: word, high: word := (n % TWO32) as word, (n / TWO32 % TWO32) as word;
    WordOfBytes(low);
    WordOfBytes(high);
    Halves(WordBytes(low), WordBytes(high));
  }

  lemma Halves(a: octets, b: octets)
    requires |a| == 4 && |b| == 4
    ensures (a + b)[..4] == a && (a + b)[4..] == b
  {
  }

  lemma TwoWords(n: nat)
    ensures n % TWO32 + TWO32 * (n / TWO32 % TWO32) == n % TWO64
  {
    var q := n / TWO32;
    assert n == TWO64 * (q / TWO32) + (TWO32 * (q % TWO32) + n % TWO32);
  }

  function Zeros(n: nat): (s: octets)
    ensures |s| == n
  {
    seq(n, _ => 0)
  }

  // A one bit, zeros up to 56 bytes modulo 64, and the length in bits as two words.
  function Pad(m: octets): (p: octets)
    ensures |p| % 64 == 0
  {
    hide LengthBytes, Zeros;
    PadWhole(|m|);
    m + [0x80] + Zeros((55 - |m|) % 64) + LengthBytes(8 * |m|)
  }

  function Output(r: Regs): (s: octets)
    ensures |s| == 16
  {
    WordBytes(r.a) + WordBytes(r.b) + WordBytes(r.c) + WordBytes(r.d)
  }

  function Digest(m: octets): (s: octets)
    ensures |s| == 16
  {
    Output(Fold(INIT, Pad(m)))
  }

  // ---------------------------------------------------------------- four operations at a time

  function Four(r: Regs, x: seq<word>, i: nat): Regs
    requires |x| == 16
  {
    var a := Op(i, r, x[K(i)]);
    var d := Op(i + 1, Regs(r.d, a, r.b, r.c), x[K(i + 1)]);
    var c := Op(i + 2, Regs(r.c, d, a, r.b), x[K(i + 2)]);
    var b := Op(i + 3, Regs(r.b, c, d, a), x[K(i + 3)]);
    Regs(a, b, c, d)
  }

  lemma StepsByFour(r: Regs, x: seq<word>, i: nat, n: nat)
    requires |x| == 16 && n >= 4
    ensures Steps(r, x, i, n) == Steps(Four(r, x, i), x, i + 4, n - 4)
  {
    hide Op;
    var r1 := Step(r, x, i);
    var r2 := Step(r1, x, i + 1);
    var r3 := Step(r2, x, i + 2);
    assert Steps(r, x, i, n) == Steps(r2, x, i + 2, n - 2);
  }

  // The words and constants of operations i to i + 3.
  predicate Row(i: nat, k0: nat, k1: nat, k2: nat, k3: nat, t0: word, t1: word, t2: word, t3: word) {
    && K(i) == k0 && K(i + 1) == k1 && K(i + 2) == k2 && K(i + 3) == k3
    && T(i) == t0 && T(i + 1) == t1 && T(i + 2) == t2 && T(i + 3) == t3
  }

  lemma NoSteps(r: Regs, x: seq<word>, i: nat)
    requires |x| == 16
    ensures Steps(r, x, i, 0) == r
  {
  }

  lemma {:induction false} StepsSplit(r: Regs, x: seq<word>, i: nat, n: nat, k: nat)
    requires |x| == 16
    ensures Steps(r, x, i, n + k) == Steps(Steps(r, x, i, n), x, i + n, k)
    decreases n
  {
    hide Step;
    if n > 0 { StepsSplit(Step(r, x, i), x, i + 1, n - 1, k); }
  }

  lemma {:induction false} FoldSplit(r: Regs, s: octets, t: octets)
    requires |s| % 64 == 0 && |t| % 64 == 0
    ensures Fold(r, s + t) == Fold(Fold(r, s), t)
    decreases |s|
  {
    hide Block;
    if s == [] {
      assert s + t == t;
    } else {
      assert (s + t)[..64] == s[..64] && (s + t)[64..] == s[64..] + t;
      FoldSplit(Block(r, s[..64]), s[64..], t);
    }
  }

  lemma FoldOne(r: Regs, s: octets)
    requires |s| == 64
    ensures Fold(r, s) == Block(r, s)
  {
    hide Block;
    assert s[..64] == s && Fold(Block(r, s), []) == Block(r, s);
  }

  // ---------------------------------------------------------------- a message that arrives in parts

  // The whole blocks of a message, and the bytes after them.
  function Blocks(m: octets): (s: octets)
    ensures |s| % 64 == 0
  {
    m[..|m| - |m| % 64]
  }

  function Rest(m: octets): (s: octets)
    ensures |s| == |m| % 64
  {
    m[|m| - |m| % 64..]
  }

  lemma BlocksAndRest(x: octets, y: octets)
    requires |x| % 64 == 0 && |y| < 64
    ensures Blocks(x + y) == x && Rest(x + y) == y
  {
    assert |x + y| % 64 == |y|;
  }

  lemma More(n: nat)
    ensures (n + 64) % 64 == n % 64
  {
  }

  lemma PushBlock(r: Regs, x: octets, block: octets)
    requires |x| % 64 == 0 && |block| == 64
    ensures |x + block| % 64 == 0
    ensures Fold(r, x + block) == Block(Fold(r, x), block)
  {
    hide Block;
    More(|x|);
    FoldSplit(r, x, block);
    FoldOne(Fold(r, x), block);
  }

  // The length of n bytes in bits, as two words.
  predicate Counts(low: nat, high: nat, n: nat) {
    low == 8 * n % TWO32 && high == 8 * n / TWO32 % TWO32
  }

  lemma CountMore(low: nat, high: nat, n: nat, k: nat)
    requires Counts(low, high, n)
    ensures
      var sum := (low + 8 * k % TWO32) % TWO32;
      var carry := if sum < 8 * k % TWO32 then 1 else 0;
      Counts(sum, (high + k / 0x2000_0000 + carry) % TWO32, n + k)
  {
    var (a, b) := (8 * n, 8 * k);
    assert k / 0x2000_0000 == b / TWO32;
    var sum := a % TWO32 + b % TWO32;
    var carry := if sum >= TWO32 then 1 else 0;
    assert a + b == (a / TWO32 + b / TWO32 + carry) * TWO32 + (sum - carry * TWO32);
    DivMod(a + b, a / TWO32 + b / TWO32 + carry, sum - carry * TWO32);
  }

  lemma WrapTwice(h: nat, p: nat, q: nat)
    ensures ((h + p) % TWO32 + q) % TWO32 == (h + p + q) % TWO32
  {
  }

  lemma DivMod(x: nat, q: nat, r: nat)
    requires x == q * TWO32 + r && r < TWO32
    ensures x / TWO32 == q && x % TWO32 == r
  {
  }

  lemma Offset(low: nat, high: nat, n: nat)
    requires Counts(low, high, n)
    ensures low / 8 % 64 == n % 64
  {
  }

  // Both ways to compute the number of padding bytes.
  lemma PadLength(low: nat, high: nat, m: octets)
    requires Counts(low, high, |m|)
    ensures (55 - low / 8) % 64 + 1 == 1 + (55 - |m|) % 64
    ensures var index := low / 8 % 64;
      (if index < 56 then 56 - index else 120 - index) == 1 + (55 - |m|) % 64
  {
    Offset(low, high, |m|);
    Below55(low / 8);
    Below55(|m|);
  }

  lemma PadWhole(n: nat)
    ensures (n + 1 + (55 - n) % 64 + 8) % 64 == 0
  {
    Below55(n);
    var (q, r) := (n / 64, n % 64);
    assert n + 9 + (if r < 56 then 55 - r else 119 - r) == (if r < 56 then q + 1 else q + 2) * 64;
  }

  lemma Below55(n: nat)
    ensures (55 - n) % 64 == if n % 64 < 56 then 55 - n % 64 else 119 - n % 64
  {
    var (q, r) := (n / 64, n % 64);
    assert 55 - n == (if r < 56 then -q else -q - 1) * 64 + (if r < 56 then 55 - r else 119 - r);
  }

  lemma Splits(m: octets)
    ensures m == Blocks(m) + Rest(m) && |Blocks(m)| % 64 == 0 && |Rest(m)| == |m| % 64
  {
  }

  lemma Regroup(done: octets, rest: octets, data: octets, at: nat, n: nat)
    requires at <= n <= |data|
    ensures done + rest + data[..n] == done + (rest + data[..at]) + data[at..n]
    ensures at == n ==> done + rest + data[..n] == done + (rest + data[..n])
    ensures rest == [] ==> done + rest + data[..n] == done + data[..n] && data[0..n] == data[..n]
  {
  }

  lemma PadIs(m: octets, p: octets)
    requires p == m + ([0x80] + Zeros((55 - |m|) % 64)) + LengthBytes(8 * |m|)
    ensures p == Pad(m)
  {
    hide LengthBytes;
  }

  lemma WholeBlocks(p: octets)
    requires |p| % 64 == 0
    ensures Blocks(p) == p
  {
  }

  lemma ZerosPrefix(k: nat)
    requires k < 64
    ensures ([0x80] + Zeros(63))[..k + 1] == [0x80] + Zeros(k)
  {
  }

  // ---------------------------------------------------------------- bytes of words

  // The word shifted right by k bytes, cut to one.
  function ByteAt(w: word, k: nat): octet
    requires k < 4
  {
    if k == 0 then (w & 0xff) as octet
    else if k == 1 then ((w >> 8) & 0xff) as octet
    else if k == 2 then ((w >> 16) & 0xff) as octet
    else ((w >> 24) & 0xff) as octet
  }

  function AllBytes(ws: seq<word>): (s: octets)
    ensures |s| == 4 * |ws|
  {
    if ws == [] then [] else WordBytes(ws[0]) + AllBytes(ws[1..])
  }

  lemma ByteOf(w: word, k: nat)
    requires k < 4
    ensures WordBytes(w)[k] == ByteAt(w, k)
  {
  }

  lemma {:induction false} BytesAt(ws: seq<word>, s: octets)
    requires |s| == 4 * |ws| && forall k :: 0 <= k < |s| ==> s[k] == ByteAt(ws[k / 4], k % 4)
    ensures s == AllBytes(ws)
  {
    hide ByteAt, WordBytes;
    if ws != [] {
      forall k | 0 <= k < |s[4..]| ensures s[4..][k] == ByteAt(ws[1..][k / 4], k % 4) {
        assert s[4..][k] == s[k + 4] && (k + 4) / 4 == k / 4 + 1;
      }
      BytesAt(ws[1..], s[4..]);
      forall k | 0 <= k < 4 ensures s[k] == WordBytes(ws[0])[k] {
        ByteOf(ws[0], k);
      }
      assert s == s[..4] + s[4..] && s[..4] == WordBytes(ws[0]);
    }
  }

  lemma LengthIs(low: nat, high: nat, n: nat)
    requires Counts(low, high, n)
    ensures low < TWO32 && high < TWO32
    ensures AllBytes([low as word, high as word]) == LengthBytes(8 * n)
  {
    hide WordBytes;
    assert [low as word, high as word][1..] == [high as word];
  }

  lemma OutputIs(r: Regs)
    ensures AllBytes([r.a, r.b, r.c, r.d]) == Output(r)
  {
    hide WordBytes;
    assert [r.a, r.b, r.c, r.d][1..] == [r.b, r.c, r.d];
    assert [r.b, r.c, r.d][1..] == [r.c, r.d];
    assert [r.c, r.d][1..] == [r.d];
    assert [r.d][1..] == [] && AllBytes([]) == [];
    var (a, b, c, d) := (WordBytes(r.a), WordBytes(r.b), WordBytes(r.c), WordBytes(r.d));
    assert AllBytes([r.d]) == d + [];
    assert AllBytes([r.c, r.d]) == c + (d + []);
    assert AllBytes([r.b, r.c, r.d]) == b + (c + (d + []));
    assert a + (b + (c + (d + []))) == a + b + c + d;
  }
}
