/** Byte strings and decimal numerals. */
module Bytes {
  import opened Powers

  type byte = b: int | 0 <= b < 256
  type bytes = seq<byte>

  // How a step leaves the process: running, ended, or without defined behaviour.
  datatype Fate = Runs | Exits | Breaks

  datatype Option<+T> = None | Some(value: T)

  const ZERO: byte := 48    // '0'
  const MINUS: byte := 45   // '-'
  const PLUS: byte := 43    // '+'
  const STAR: byte := 42    // '*'
  const DOLLAR: byte := 36  // '$'
  const COLON: byte := 58   // ':'
  const CR: byte := 13
  const LF: byte := 10
  const CRLF: bytes := [CR, LF]

  function Decimal(n: nat): (s: bytes)
    ensures |s| >= 1 && forall i :: 0 <= i < |s| ==> ZERO <= s[i] <= ZERO + 9
  {
    if n < 10 then [ZERO + n] else Decimal(n / 10) + [ZERO + n % 10]
  }

  // The number a digit string denotes, read the way the parsers read it.
  function Value(s: bytes): int {
    if s == [] then 0 else Value(s[..|s| - 1]) * 10 + (s[|s| - 1] - ZERO)
  }

  lemma {:induction false} DecimalValue(n: nat)
    ensures Value(Decimal(n)) == n
  {
    if n >= 10 {
      DecimalValue(n / 10);
      assert Decimal(n)[..|Decimal(n)| - 1] == Decimal(n / 10);
    }
  }

  lemma {:induction false} DecimalStarts(n: nat)
    requires n > 0
    ensures Decimal(n)[0] != ZERO
  {
    if n >= 10 { DecimalStarts(n / 10); }
  }

  lemma {:induction false} DecimalLength(n: nat, k: nat)
    requires n < Pow10(k) && k > 0
    ensures |Decimal(n)| <= k
  {
    if n >= 10 { DecimalLength(n / 10, k - 1); }
  }

  predicate IsDigit(b: byte) {
    ZERO <= b <= ZERO + 9
  }

  // White space in the C locale.
  predicate IsSpace(b: byte) {
    b == 32 || 9 <= b <= 13
  }

  lemma Spaces(b: byte)
    ensures IsSpace(b) <==> b in {32, 9, 10, 11, 12, 13}
  {
  }

  // s padded on the left with zeros to width w, as printf's %0wd prints a non-negative number.
  function PadZeros(s: bytes, w: nat): (p: bytes)
    ensures |p| == if |s| < w then w else |s|
    decreases w - |s|
  {
    if |s| < w then PadZeros([ZERO] + s, w) else s
  }

  predicate AllDigits(s: bytes) {
    forall i :: 0 <= i < |s| ==> IsDigit(s[i])
  }

  lemma {:induction false} ValueFirst(d: byte, s: bytes)
    ensures Value([d] + s) == (d - ZERO) * Pow10(|s|) + Value(s)
    decreases |s|
  {
    if s == [] {
      assert ([d] + s)[..0] == [];
    } else {
      var init := s[..|s| - 1];
      assert ([d] + s)[..|s|] == [d] + init;
      ValueFirst(d, init);
    }
  }

  lemma {:induction false} PadValue(s: bytes, w: nat)
    requires AllDigits(s)
    ensures AllDigits(PadZeros(s, w)) && Value(PadZeros(s, w)) == Value(s)
    decreases w - |s|
  {
    if |s| < w {
      ValueFirst(ZERO, s);
      PadValue([ZERO] + s, w);
    }
  }

  // A C string ends at its first NUL.
  function Text(s: bytes): bytes {
    if s == [] || s[0] == 0 then [] else [s[0]] + Text(s[1..])
  }

  lemma {:induction false} TextShort(s: bytes)
    ensures |Text(s)| <= |s|
  {
    if s != [] && s[0] != 0 { TextShort(s[1..]); }
  }

  lemma {:induction false} TextWhole(s: bytes)
    requires 0 !in s
    ensures Text(s) == s
  {
    if s != [] {
      assert 0 !in s[1..];
      TextWhole(s[1..]);
    }
  }
}
