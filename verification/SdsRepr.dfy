/** Printing a byte string with escapes, and splitting a line into arguments. */
module SdsRepr {
  import opened Bytes
  import opened Sds

  const QUOTE: byte := 34       // '"'
  const APOSTROPHE: byte := 39  // '\''
  const BACKSLASH: byte := 92   // '\\'
  const SPACE: byte := 32
  const TAB: byte := 9
  const BELL: byte := 7
  const BACKSPACE: byte := 8
  const LETTER_A: byte := 97
  const LETTER_B: byte := 98
  const LETTER_N: byte := 110
  const LETTER_R: byte := 114
  const LETTER_T: byte := 116
  const LETTER_X: byte := 120

  // isprint in the C locale.
  predicate IsPrint(b: byte) {
    32 <= b < 127
  }

  function HexDigit(n: nat): byte
    requires n < 16
  {
    if n < 10 then ZERO + n else LETTER_A + n - 10
  }

  predicate IsHexDigit(b: byte) {
    ZERO <= b <= ZERO + 9 || LETTER_A <= b <= LETTER_A + 5 || 65 <= b <= 70
  }

  function HexValue(b: byte): (n: nat)
    ensures n < 16
  {
    if ZERO <= b <= ZERO + 9 then b - ZERO
    else if LETTER_A <= b <= LETTER_A + 5 then b - LETTER_A + 10
    else if 65 <= b <= 70 then b - 55
    else 0
  }

  // How a byte is printed between quotes.
  function Escape(b: byte): bytes {
    if b == BACKSLASH || b == QUOTE then [BACKSLASH, b]
    else if b == LF then [BACKSLASH, LETTER_N]
    else if b == CR then [BACKSLASH, LETTER_R]
    else if b == TAB then [BACKSLASH, LETTER_T]
    else if b == BELL then [BACKSLASH, LETTER_A]
    else if b == BACKSPACE then [BACKSLASH, LETTER_B]
    else if IsPrint(b) then [b]
    else [BACKSLASH, LETTER_X, HexDigit(b / 16), HexDigit(b % 16)]
  }

  function Escaped(x: bytes): (e: bytes)
    ensures |x| <= |e| <= 4 * |x|
  {
    if x == [] then [] else Escaped(x[..|x| - 1]) + Escape(x[|x| - 1])
  }

  function Repr(x: bytes): bytes {
    [QUOTE] + Escaped(x) + [QUOTE]
  }

  // What a backslash makes of the byte after it.
  function Unescape(b: byte): byte {
    if b == LETTER_N then LF
    else if b == LETTER_R then CR
    else if b == LETTER_T then TAB
    else if b == LETTER_B then BACKSPACE
    else if b == LETTER_A then BELL
    else b
  }

  datatype Mode = Bare | Quoted | Single

  // What the next bytes of a token mean: bytes of the token, a change of mode, its end, or an error.
  datatype Piece = Byte(b: byte, used: nat) | Enter(mode: Mode) | End | Bad

  // What the quote at the front of s makes of an open quotation: it ends there, but the next token may not touch it.
  function Closing(s: bytes): Piece {
    if |s| > 1 && !IsSpace(s[1]) then Bad else End
  }

  function NextPiece(s: bytes, mode: Mode): (p: Piece)
    ensures p.Byte? ==> 1 <= p.used <= |s|
    ensures p.Enter? ==> s != [] && mode == Bare && p.mode != Bare
  {
    match mode
    case Quoted =>
      if |s| >= 4 && s[0] == BACKSLASH && s[1] == LETTER_X && IsHexDigit(s[2]) && IsHexDigit(s[3]) then
        Byte(HexValue(s[2]) * 16 + HexValue(s[3]), 4)
      else if |s| >= 2 && s[0] == BACKSLASH then Byte(Unescape(s[1]), 2)
      else if s == [] then Bad
      else if s[0] == QUOTE then Closing(s)
      else Byte(s[0], 1)
    case Single =>
      if |s| >= 2 && s[0] == BACKSLASH && s[1] == APOSTROPHE then Byte(APOSTROPHE, 2)
      else if s == [] then Bad
      else if s[0] == APOSTROPHE then Closing(s)
      else Byte(s[0], 1)
    case Bare =>
      if s == [] || s[0] == SPACE || s[0] == LF || s[0] == CR || s[0] == TAB then End
      else if s[0] == QUOTE then Enter(Quoted)
      else if s[0] == APOSTROPHE then Enter(Single)
      else Byte(s[0], 1)
  }

  // The rest of a token that has cur so far, and what follows it.
  function TakeToken(s: bytes, mode: Mode, cur: bytes): (r: Option<(bytes, bytes)>)
    ensures r.Some? ==> |r.value.1| <= |s| && (s != [] ==> |r.value.1| < |s|)
    decreases |s|
  {
    match NextPiece(s, mode)
    case Byte(b, used) => TakeToken(s[used..], mode, cur + [b])
    case Enter(m) => TakeToken(s[1..], m, cur)
    case End => Some((cur, if s == [] then [] else s[1..]))
    case Bad => None
  }

  function SkipSpace(s: bytes): (t: bytes)
    ensures |t| <= |s|
  {
    if s != [] && IsSpace(s[0]) then SkipSpace(s[1..]) else s
  }

  // The arguments of a line, after those already split off.
  function SplitArgs(s: bytes, before: seq<bytes>): Option<seq<bytes>>
    decreases |s|
  {
    var t := SkipSpace(s);
    if t == [] then Some(before)
    else match TakeToken(t, Bare, [])
      case None => None
      case Some((token, rest)) => SplitArgs(rest, before + [token])
  }

  // ---------------------------------------------------------------- round trip

  lemma EscapeIsPiece(b: byte, t: bytes)
    ensures NextPiece(Escape(b) + t, Quoted) == Byte(b, |Escape(b)|)
  {
    var s := Escape(b) + t;
    assert s[0] == Escape(b)[0];
    if |Escape(b)| >= 2 { assert s[1] == Escape(b)[1]; }
    if |Escape(b)| == 4 {
      assert s[2] == HexDigit(b / 16) && s[3] == HexDigit(b % 16);
      assert HexValue(HexDigit(b / 16)) == b / 16 && HexValue(HexDigit(b % 16)) == b % 16;
    }
  }

  lemma QuoteEnds(cur: bytes, t: bytes)
    requires t == [] || IsSpace(t[0])
    ensures TakeToken([QUOTE] + t, Quoted, cur) == Some((cur, t))
  {
    assert ([QUOTE] + t)[1..] == t;
  }

  lemma {:induction false} QuotedRoundTrip(x: bytes, cur: bytes, t: bytes)
    requires t == [] || IsSpace(t[0])
    ensures TakeToken(Escaped(x) + ([QUOTE] + t), Quoted, cur) == Some((cur + x, t))
    decreases |x|
  {
    hide NextPiece, Escape;
    var end := [QUOTE] + t;
    if x == [] {
      QuoteEnds(cur, t);
      assert Escaped(x) + end == end && cur + x == cur;
    } else {
      hide Escaped;
      var (b, y) := (x[0], x[1..]);
      EscapedFirst(x);
      var rest := Escaped(y) + end;
      var s := Escape(b) + rest;
      assert Escaped(x) + end == s && s[|Escape(b)|..] == rest;
      EscapeIsPiece(b, rest);
      QuotedRoundTrip(y, cur + [b], t);
      assert cur + [b] + y == cur + x;
    }
  }

  lemma EscapedLast(x: bytes)
    requires x != []
    ensures Escaped(x) == Escaped(x[..|x| - 1]) + Escape(x[|x| - 1])
  {
  }

  lemma {:induction false} EscapedFirst(x: bytes)
    requires x != []
    ensures Escaped(x) == Escape(x[0]) + Escaped(x[1..])
    decreases |x|
  {
    hide Escape, Escaped;
    var (n, init) := (|x| - 1, x[..|x| - 1]);
    EscapedLast(x);
    if n == 0 {
      assert x[1..] == [] && init == [] && x[n] == x[0];
      EscapedNothing();
    } else {
      EscapedFirst(init);
      EscapedLast(x[1..]);
      assert init[1..] == x[1..][..n - 1] && init[0] == x[0];
      Regroup(Escape(x[0]), Escaped(init[1..]), Escape(x[n]));
    }
  }

  lemma EscapedNothing()
    ensures Escaped([]) == []
  {
  }

  lemma Regroup(a: bytes, b: bytes, c: bytes)
    ensures (a + b) + c == a + (b + c) && [] + c == c + []
  {
  }

  // The printed forms of several strings with one space between them.
  function Line(xs: seq<bytes>): bytes {
    if xs == [] then [] else if |xs| == 1 then Repr(xs[0]) else Repr(xs[0]) + [SPACE] + Line(xs[1..])
  }

  lemma ReprRoundTrip(x: bytes, t: bytes)
    requires t == [] || IsSpace(t[0])
    ensures TakeToken(Repr(x) + t, Bare, []) == Some((x, t))
    ensures Repr(x) + t != [] && SkipSpace(Repr(x) + t) == Repr(x) + t
  {
    hide Escaped;
    var s := Repr(x) + t;
    assert s[1..] == Escaped(x) + ([QUOTE] + t);
    QuotedRoundTrip(x, [], t);
    assert [] + x == x;
  }

  lemma OneArg(x: bytes, t: bytes, before: seq<bytes>)
    requires t == [] || IsSpace(t[0])
    ensures SplitArgs(Repr(x) + t, before) == SplitArgs(t, before + [x])
  {
    hide Repr, TakeToken, SkipSpace;
    ReprRoundTrip(x, t);
  }

  lemma {:induction false} SplitLine(xs: seq<bytes>, before: seq<bytes>)
    ensures SplitArgs(Line(xs), before) == Some(before + xs)
    decreases |xs|
  {
    hide Repr, SplitArgs;
    if xs == [] {
      assert before + xs == before;
      NoArgs(before);
    } else if |xs| == 1 {
      assert Line(xs) == Repr(xs[0]) + [] && before + [xs[0]] == before + xs;
      OneArg(xs[0], [], before);
      NoArgs(before + xs);
    } else {
      var (x, t) := (xs[0], Line(xs[1..]));
      assert Line(xs) == Repr(x) + ([SPACE] + t);
      OneArg(x, [SPACE] + t, before);
      SpaceFirst(t, before + [x]);
      SplitLine(xs[1..], before + [x]);
      assert before + [x] + xs[1..] == before + xs;
    }
  }

  lemma NoArgs(before: seq<bytes>)
    ensures SplitArgs([], before) == Some(before)
  {
  }

  lemma SpaceFirst(s: bytes, before: seq<bytes>)
    ensures SplitArgs([SPACE] + s, before) == SplitArgs(s, before)
  {
    assert ([SPACE] + s)[1..] == s;
  }

  lemma {:induction false} EscapedClean(x: bytes)
    ensures 0 !in Escaped(x)
  {
    if x != [] { EscapedClean(x[..|x| - 1]); }
  }

  lemma {:induction false} LineClean(xs: seq<bytes>)
    ensures 0 !in Line(xs)
  {
    if xs != [] {
      EscapedClean(xs[0]);
      LineClean(xs[1..]);
    }
  }

  // Splitting undoes printing, for any byte strings, and the line is a C string.
  lemma RoundTrip(xs: seq<bytes>)
    ensures 0 !in Line(xs) && SplitArgs(Line(xs), []) == Some(xs)
  {
    LineClean(xs);
    SplitLine(xs, []);
    assert [] + xs == xs;
  }

  // ---------------------------------------------------------------- what is printed, and what is read besides

  // Only printable bytes are printed, and a byte is printed as itself if and only if it is printable and needs no
  // backslash.
  lemma EscapePrints(b: byte)
    ensures forall c <- Escape(b) :: 32 <= c <= 126
    ensures Escape(b) == [b] <==> 32 <= b <= 126 && b != 34 && b != 92
  {
  }

  // The escapes: \n \r \t \a \b, a backslash before a quote or a backslash, and \xff for the last byte.
  lemma EscapeLetters()
    ensures Escape(10) == [92, 110] && Escape(13) == [92, 114] && Escape(9) == [92, 116]
    ensures Escape(7) == [92, 97] && Escape(8) == [92, 98] && Escape(34) == [92, 34] && Escape(92) == [92, 92]
    ensures Escape(255) == [92, 120, 102, 102] && Escape(1) == [92, 120, 48, 49]
  {
  }

  // The digits of hexadecimal numbers: those that are printed, and the capital letters 32 below.
  lemma HexDigits(b: byte)
    ensures IsHexDigit(b) <==> exists d: nat :: d < 16 && (b == HexDigit(d) || (d >= 10 && b == HexDigit(d) - 32))
    ensures forall d: nat :: d < 16 && (b == HexDigit(d) || (d >= 10 && b == HexDigit(d) - 32)) ==> HexValue(b) == d
  {
    if IsHexDigit(b) {
      var d := HexValue(b);
      assert d < 16 && (b == HexDigit(d) || (d >= 10 && b == HexDigit(d) - 32));
    }
  }

  // What an escape in quotes reads as: two hexadecimal digits of either case, a letter, or the byte itself.
  lemma EscapesRead(t: bytes)
    ensures NextPiece([92, 120, 70, 102] + t, Quoted) == Byte(255, 4) && NextPiece([92, 120, 97, 57] + t, Quoted) == Byte(169, 4)
    ensures NextPiece([92, 110] + t, Quoted) == Byte(10, 2) && NextPiece([92, 114] + t, Quoted) == Byte(13, 2)
    ensures NextPiece([92, 116] + t, Quoted) == Byte(9, 2) && NextPiece([92, 97] + t, Quoted) == Byte(7, 2)
    ensures NextPiece([92, 98] + t, Quoted) == Byte(8, 2)
    ensures forall b: byte :: b !in {110, 114, 116, 97, 98, 120} ==> NextPiece([92, b] + t, Quoted) == Byte(b, 2)
    ensures t == [] || !IsHexDigit(t[0]) ==> NextPiece([92, 120] + t, Quoted) == Byte(120, 2)
  {
    assert t != [] ==> ([92, 120] + t)[2] == t[0];
  }

  // A byte that belongs to a token without quotes.
  predicate IsBare(b: byte) {
    b != 32 && b != 10 && b != 13 && b != 9 && b != 34 && b != 39
  }

  // A token without quotes is taken as it is, up to the next space, line end or tab.
  lemma {:induction false} BareToken(x: bytes, cur: bytes, t: bytes)
    requires (forall b <- x :: IsBare(b)) && (t == [] || t[0] in {32, 10, 13, 9})
    ensures TakeToken(x + t, Bare, cur) == Some((cur + x, if t == [] then [] else t[1..]))
    decreases |x|
  {
    if x == [] {
      assert x + t == t && cur + x == cur;
    } else {
      assert x[0] in x && IsBare(x[0]);
      assert (x + t)[1..] == x[1..] + t && cur + [x[0]] + x[1..] == cur + x;
      BareToken(x[1..], cur + [x[0]], t);
    }
  }

  // Between apostrophes only these take a backslash.
  function SingleEscaped(x: bytes): bytes {
    if x == [] then [] else (if x[0] == 39 then [92, 39] else [x[0]]) + SingleEscaped(x[1..])
  }

  // Any bytes that do not end in a backslash can be written between apostrophes.
  lemma {:induction false} SingleRoundTrip(x: bytes, cur: bytes, t: bytes)
    requires (t == [] || IsSpace(t[0])) && (x != [] ==> x[|x| - 1] != 92)
    ensures TakeToken(SingleEscaped(x) + ([39] + t), Single, cur) == Some((cur + x, t))
    decreases |x|
  {
    hide NextPiece;
    var end := [39] + t;
    if x == [] {
      SingleEnds(cur, t);
      assert SingleEscaped(x) + end == end && cur + x == cur;
    } else {
      var (b, y) := (x[0], x[1..]);
      var rest := SingleEscaped(y) + end;
      var first := if b == 39 then [92, 39] else [b];
      assert SingleEscaped(x) + end == first + rest && (first + rest)[|first|..] == rest;
      SingleFirst(y, end);
      SingleStep(b, rest);
      SingleRoundTrip(y, cur + [b], t);
      assert cur + [b] + y == cur + x;
    }
  }

  lemma SingleEnds(cur: bytes, t: bytes)
    requires t == [] || IsSpace(t[0])
    ensures TakeToken([39] + t, Single, cur) == Some((cur, t))
  {
    assert ([39] + t)[1..] == t;
  }

  // No apostrophe comes first but the one at the end.
  lemma SingleFirst(y: bytes, end: bytes)
    requires end != []
    ensures var rest := SingleEscaped(y) + end; rest != [] && (y != [] ==> rest[0] != 39)
  {
  }

  lemma SingleStep(b: byte, rest: bytes)
    requires rest != [] && (b == 92 ==> rest[0] != 39)
    ensures var first := if b == 39 then [92, 39] else [b]; NextPiece(first + rest, Single) == Byte(b, |first|)
  {
    var first := if b == 39 then [92, 39] else [b];
    assert b != 39 ==> (first + rest)[1] == rest[0];
  }

  // Quotes that do not close, or close before something else than a space, are an error.
  lemma {:induction false} OpenQuote(s: bytes, cur: bytes)
    requires 34 !in s
    ensures TakeToken(s, Quoted, cur) == None
    decreases |s|
  {
    var p := NextPiece(s, Quoted);
    if p.Byte? {
      assert 34 !in s[p.used..] by { assert forall b <- s[p.used..] :: b in s; }
      OpenQuote(s[p.used..], cur + [p.b]);
    }
  }

  lemma {:induction false} OpenApostrophe(s: bytes, cur: bytes)
    requires 39 !in s
    ensures TakeToken(s, Single, cur) == None
    decreases |s|
  {
    var p := NextPiece(s, Single);
    if p.Byte? {
      assert 39 !in s[p.used..] by { assert forall b <- s[p.used..] :: b in s; }
      OpenApostrophe(s[p.used..], cur + [p.b]);
    }
  }

  lemma {:induction false} TouchingQuote(x: bytes, cur: bytes, t: bytes)
    requires t != [] && !IsSpace(t[0])
    ensures TakeToken(Escaped(x) + ([QUOTE] + t), Quoted, cur) == None
    decreases |x|
  {
    hide NextPiece, Escape;
    var end := [QUOTE] + t;
    if x == [] {
      assert Escaped(x) + end == end;
      QuoteTouches(t, cur);
    } else {
      hide Escaped;
      var (b, y) := (x[0], x[1..]);
      EscapedFirst(x);
      var rest := Escaped(y) + end;
      var s := Escape(b) + rest;
      assert Escaped(x) + end == s && s[|Escape(b)|..] == rest;
      EscapeIsPiece(b, rest);
      TouchingQuote(y, cur + [b], t);
    }
  }

  lemma QuoteTouches(t: bytes, cur: bytes)
    requires t != [] && !IsSpace(t[0])
    ensures TakeToken([QUOTE] + t, Quoted, cur) == None
  {
    assert ([QUOTE] + t)[1] == t[0];
  }

  // ---------------------------------------------------------------- the loops

  method CatRepr(s: Sds, p: bytes)
    requires s.Valid() && Fits(s.len + 4 * |p| + 2)
    modifies s, s.buf
    ensures s.Valid() && s.Contents() == old(s.Contents()) + Repr(p)
    ensures s.buf == old(s.buf) || fresh(s.buf)
  {
    hide Escape, Begun;
    ghost var was := s.Contents();
    s.CatLen([QUOTE]);
    var i := 0;
    BegunSteps(was, p, 0);
    while i < |p|
      invariant 0 <= i <= |p| && s.Valid() && (s.buf == old(s.buf) || fresh(s.buf))
      invariant s.Contents() == Begun(was, p[..i]) && s.len <= |was| + 1 + 4 * i
    {
      BegunSteps(was, p, i);
      var e := Printed(p[i]);
      s.CatLen(e);
      i := i + 1;
    }
    BegunSteps(was, p, i);
    s.CatLen([QUOTE]);
  }

  // The output before the closing quote.
  function Begun(was: bytes, x: bytes): bytes {
    was + ([QUOTE] + Escaped(x))
  }

  lemma BegunSteps(was: bytes, p: bytes, i: nat)
    requires i <= |p|
    ensures i == 0 ==> was + [QUOTE] == Begun(was, p[..i])
    ensures i < |p| ==> Begun(was, p[..i]) + Escape(p[i]) == Begun(was, p[..i + 1])
    ensures i == |p| ==> Begun(was, p[..i]) + [QUOTE] == was + Repr(p)
  {
    hide Escape;
    if i < |p| {
      assert p[..i + 1][..i] == p[..i];
    } else {
      assert p[..i] == p;
    }
  }

  method Printed(b: byte) returns (e: bytes)
    ensures e == Escape(b) && |e| <= 4
  {
    if b == BACKSLASH || b == QUOTE {
      e := [BACKSLASH, b];
    } else if b == LF {
      e := [BACKSLASH, LETTER_N];
    } else if b == CR {
      e := [BACKSLASH, LETTER_R];
    } else if b == TAB {
      e := [BACKSLASH, LETTER_T];
    } else if b == BELL {
      e := [BACKSLASH, LETTER_A];
    } else if b == BACKSPACE {
      e := [BACKSLASH, LETTER_B];
    } else if IsPrint(b) {
      e := [b];
    } else {
      e := [BACKSLASH, LETTER_X, HexDigit(b / 16), HexDigit(b % 16)];
    }
  }

  // line holds a string of length n, ended by a NUL.
  ghost predicate Terminated(line: array<byte>, n: nat)
    reads line
  {
    n < line.Length && line[n] == 0 && forall i :: 0 <= i < n ==> line[i] != 0
  }

  // One piece of a token, at p: the byte it adds if any, and where to go on.
  method ReadPiece(line: array<byte>, ghost n: nat, p: nat, inq: bool, insq: bool)
    returns (piece: Piece)
    requires p <= n && Terminated(line, n) && !(inq && insq)
    ensures piece == NextPiece(line[p..n], if inq then Quoted else if insq then Single else Bare)
  {
    ghost var s := line[p..n];
    if inq {
      if line[p] == BACKSLASH && line[p + 1] == LETTER_X && IsHexDigit(line[p + 2]) && IsHexDigit(line[p + 3]) {
        piece := Byte(HexValue(line[p + 2]) * 16 + HexValue(line[p + 3]), 4);
      } else if line[p] == BACKSLASH && line[p + 1] != 0 {
        piece := Byte(Unescape(line[p + 1]), 2);
      } else if line[p] == QUOTE {
        piece := if line[p + 1] != 0 && !IsSpace(line[p + 1]) then Bad else End;
      } else if line[p] == 0 {
        piece := Bad;
      } else {
        piece := Byte(line[p], 1);
      }
    } else if insq {
      if line[p] == BACKSLASH && line[p + 1] == APOSTROPHE {
        piece := Byte(APOSTROPHE, 2);
      } else if line[p] == APOSTROPHE {
        piece := if line[p + 1] != 0 && !IsSpace(line[p + 1]) then Bad else End;
      } else if line[p] == 0 {
        piece := Bad;
      } else {
        piece := Byte(line[p], 1);
      }
    } else {
      if line[p] == SPACE || line[p] == LF || line[p] == CR || line[p] == TAB || line[p] == 0 {
        piece := End;
      } else if line[p] == QUOTE {
        piece := Enter(Quoted);
      } else if line[p] == APOSTROPHE {
        piece := Enter(Single);
      } else {
        piece := Byte(line[p], 1);
      }
    }
  }

  lemma TakeStep(s: bytes, mode: Mode, cur: bytes)
    ensures var (p, r) := (NextPiece(s, mode), TakeToken(s, mode, cur));
      && (p.Byte? ==> r == TakeToken(s[p.used..], mode, cur + [p.b]))
      && (p.Enter? ==> r == TakeToken(s[1..], p.mode, cur))
      && (p.End? ==> r == Some((cur, if s == [] then [] else s[1..])))
      && (p.Bad? ==> r == None)
  {
  }

  // A token from position start, or nothing when its quotes do not match.
  method ReadToken(line: array<byte>, ghost n: nat, start: nat) returns (token: Option<bytes>, p: nat)
    requires start < n && Terminated(line, n) && Fits(n)
    ensures p <= n
    ensures TakeToken(line[start..n], Bare, []) == if token == None then None else Some((token.value, line[p..n]))
    ensures token != None ==> start < p
  {
    hide NextPiece, TakeToken;
    var current := new Sds.Empty();
    p := start;
    var inq, insq, done := false, false, false;
    ghost var (s, mode) := (line[start..n], Bare);
    while !done
      invariant start <= p <= n && !(inq && insq) && current.Valid() && fresh(current) && fresh(current.buf)
      invariant Terminated(line, n) && line != current.buf && current.len <= p
      invariant mode == if inq then Quoted else if insq then Single else Bare
      invariant TakeToken(s, Bare, []) == if done then Some((current.Contents(), line[p..n]))
                                          else TakeToken(line[p..n], mode, current.Contents())
      decreases n - p, !done
    {
      TakeStep(line[p..n], mode, current.Contents());
      var piece := ReadPiece(line, n, p, inq, insq);
      match piece
      case Bad =>
        return None, p;
      case Byte(b, used) =>
        assert line[p..n][used..] == line[p + used..n];
        current.CatLen([b]);
        p := p + used;
      case Enter(m) =>
        assert line[p..n][1..] == line[p + 1..n];
        inq, insq := m == Quoted, m == Single;
        mode := m;
        p := p + 1;
      case End =>
        done := true;
        if line[p] != 0 {
          assert line[p..n][1..] == line[p + 1..n];
          p := p + 1;
        }
    }
    return Some(current.Contents()), p;
  }

  method SplitLineArgs(line: array<byte>, ghost n: nat) returns (vector: Option<seq<bytes>>)
    requires Terminated(line, n) && Fits(n)
    ensures vector == SplitArgs(line[..n], [])
  {
    hide TakeToken;
    var p := 0;
    var tokens: seq<bytes> := [];
    assert line[0..n] == line[..n];
    while true
      invariant 0 <= p <= n && SplitArgs(line[..n], []) == SplitArgs(line[p..n], tokens)
      decreases n - p
    {
      ghost var start := p;
      while line[p] != 0 && IsSpace(line[p])
        invariant start <= p <= n && SkipSpace(line[start..n]) == SkipSpace(line[p..n])
        decreases n - p
      {
        assert line[p..n][1..] == line[p + 1..n];
        p := p + 1;
      }
      if line[p] == 0 {
        return Some(tokens);
      }
      var token;
      token, p := ReadToken(line, n, p);
      if token == None {
        return None;
      }
      tokens := tokens + [token.value];
    }
  }
}
