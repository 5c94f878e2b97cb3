/** The small formatter over dynamic strings. */
module SdsFormat {
  import opened Bytes
  import opened Powers
  import opened Sds

  datatype Arg = Str(text: bytes) | Num(value: int)

  const PERCENT: byte := 37   // '%'
  const LOWER_S: byte := 115
  const UPPER_S: byte := 83
  const LOWER_I: byte := 105
  const UPPER_I: byte := 73
  const LOWER_U: byte := 117
  const UPPER_U: byte := 85

  // The argument a directive takes, in the range of its C type.
  predicate Takes(directive: byte, arg: Arg) {
    match arg
    case Str(_) => directive == LOWER_S || directive == UPPER_S
    case Num(v) =>
      || (directive == LOWER_I && -0x8000_0000 <= v < 0x8000_0000)
      || (directive == UPPER_I && -0x8000_0000_0000_0000 <= v < 0x8000_0000_0000_0000)
      || (directive == LOWER_U && 0 <= v < TWO32)
      || (directive == UPPER_U && 0 <= v < TWO64)
  }

  predicate IsDirective(b: byte) {
    b == LOWER_S || b == UPPER_S || b == LOWER_I || b == UPPER_I || b == LOWER_U || b == UPPER_U
  }

  // The format has no trailing lone percent sign and each directive finds its argument.
  predicate Matches(f: bytes, args: seq<Arg>)
    decreases |f|
  {
    if f == [] then true
    else if f[0] != PERCENT then Matches(f[1..], args)
    else if |f| == 1 then false
    else if IsDirective(f[1]) then args != [] && Takes(f[1], args[0]) && Matches(f[2..], args[1..])
    else Matches(f[2..], args)
  }

  function Shown(directive: byte, arg: Arg): bytes
    requires Takes(directive, arg)
  {
    match arg
    case Str(text) => if directive == LOWER_S then Text(text) else text
    case Num(v) => Signed(v)
  }

  // A directive shows its argument, any other byte after a percent sign stands for itself.
  function Render(f: bytes, args: seq<Arg>): bytes
    requires Matches(f, args)
    decreases |f|
  {
    if f == [] then []
    else if f[0] != PERCENT then [f[0]] + Render(f[1..], args)
    else if IsDirective(f[1]) then Shown(f[1], args[0]) + Render(f[2..], args[1..])
    else [f[1]] + Render(f[2..], args)
  }

  // Any text with its percent signs doubled.
  function Quoted(t: bytes): bytes {
    if t == [] then []
    else (if t[0] == PERCENT then [PERCENT, PERCENT] else [t[0]]) + Quoted(t[1..])
  }

  lemma {:induction false} QuotedRenders(t: bytes)
    ensures Matches(Quoted(t), []) && Render(Quoted(t), []) == t
  {
    if t != [] {
      QuotedRenders(t[1..]);
      var q := Quoted(t);
      assert q[if t[0] == PERCENT then 2 else 1..] == Quoted(t[1..]);
      assert t == [t[0]] + t[1..];
    }
  }

  // A number shown by a directive reads back as itself, whatever its size.
  lemma NumberReadsBack(directive: byte, v: int)
    requires Takes(directive, Num(v))
    ensures Matches([PERCENT, directive], [Num(v)])
    ensures SignedValue(Render([PERCENT, directive], [Num(v)])) == v
  {
    var f := [PERCENT, directive];
    assert f[2..] == [] && [Num(v)][1..] == [];
    assert Render(f, [Num(v)]) == Signed(v) + Render([], []) == Signed(v);
    SignedRoundTrip(v);
  }

  // %s shows a C string, %S all the bytes.
  lemma StringsShown(text: bytes)
    ensures Matches([37, 115], [Str(text)]) && Matches([37, 83], [Str(text)])
    ensures 0 !in text ==> Render([37, 115], [Str(text)]) == text
    ensures Render([37, 83], [Str(text)]) == text
  {
    var f: bytes, g: bytes := [37, 115], [37, 83];
    assert f[2..] == [] && g[2..] == [] && [Str(text)][1..] == [];
    assert Render(f, [Str(text)]) == Text(text) + Render([], []);
    assert Render(g, [Str(text)]) == text + Render([], []);
    if 0 !in text { TextWhole(text); }
  }

  // %i and %I, %u and %U take the numbers of a signed or unsigned type of 32 or 64 bits.
  lemma NumbersTaken(v: int)
    ensures Takes(105, Num(v)) <==> -0x8000_0000 <= v <= 0x7fff_ffff
    ensures Takes(73, Num(v)) <==> -0x8000_0000_0000_0000 <= v <= 0x7fff_ffff_ffff_ffff
    ensures Takes(117, Num(v)) <==> 0 <= v <= 0xffff_ffff
    ensures Takes(85, Num(v)) <==> 0 <= v <= 0xffff_ffff_ffff_ffff
    ensures forall b: byte :: IsDirective(b) <==> b in {115, 83, 105, 73, 117, 85}
  {
  }

  // Writes t at position i, the end of the string, making room when it does not fit.
  method Put(s: Sds, i: nat, t: bytes) returns (next: nat)
    requires s.Sized() && i == s.len && Fits(s.len + |t|)
    modifies s, s.buf
    ensures s.Sized() && next == s.len && s.Contents() == old(s.Contents()) + t
    ensures s.buf == old(s.buf) || fresh(s.buf)
  {
    if s.free < |t| {
      s.MakeRoomFor(|t|);
    }
    ghost var was := s.buf[..i];
    assert was == old(s.Contents());
    forall k | 0 <= k < |t| {
      s.buf[i + k] := t[k];
    }
    s.len := s.len + |t|;
    s.free := s.free - |t|;
    next := i + |t|;
    assert s.buf[..s.len] == was + t;
  }

  // Writes one byte; there is room for it.
  method PutByte(s: Sds, i: nat, b: byte)
    requires s.Sized() && i == s.len && s.free > 0
    modifies s`len, s`free, s.buf
    ensures s.Sized() && s.Contents() == old(s.Contents()) + [b] && s.len == i + 1
  {
    ghost var was := s.buf[..i];
    s.buf[i] := b;
    s.len, s.free := s.len + 1, s.free - 1;
    assert s.buf[..s.len] == was + [b];
  }

  // The text of a number, made in a scratch buffer.
  method Number(directive: byte, v: int) returns (t: bytes)
    requires Takes(directive, Num(v))
    ensures t == Signed(v) && |t| <= 20
  {
    var buf := new byte[SDS_LLSTR_SIZE];
    var l;
    if directive == LOWER_I || directive == UPPER_I {
      l := LongToStr(buf, v);
    } else {
      l := ULongToStr(buf, v);
    }
    t := buf[..l];
  }

  // One directive or byte of the format: what it shows, and where the format and the arguments go on.
  method Directive(fmt: array<byte>, ghost n: nat, f: nat, args: seq<Arg>, a: nat)
    returns (t: bytes, single: bool, nextF: nat, nextA: nat)
    requires f < n < fmt.Length && fmt[n] == 0 && a <= |args| && Matches(fmt[f..n], args[a..])
    ensures (single ==> |t| == 1) && f < nextF <= n && nextA <= |args| && Matches(fmt[nextF..n], args[nextA..])
    ensures Render(fmt[f..n], args[a..]) == t + Render(fmt[nextF..n], args[nextA..])
  {
    ghost var rest := fmt[f..n];
    if fmt[f] == PERCENT {
      var next := fmt[f + 1];
      assert rest[2..] == fmt[f + 2..n];
      if next == LOWER_S || next == UPPER_S {
        assert IsDirective(next) && args[a..][1..] == args[a + 1..];
        t := if next == LOWER_S then Text(args[a].text) else args[a].text;
        return t, false, f + 2, a + 1;
      } else if next == LOWER_I || next == UPPER_I || next == LOWER_U || next == UPPER_U {
        assert IsDirective(next) && args[a..][1..] == args[a + 1..];
        t := Number(next, args[a].value);
        return t, false, f + 2, a + 1;
      } else {
        return [next], true, f + 2, a;
      }
    } else {
      assert rest[1..] == fmt[f + 1..n];
      return [fmt[f]], true, f + 1, a;
    }
  }

  // Formats up to the next directive, with room for at least one byte.
  method Step(s: Sds, fmt: array<byte>, ghost n: nat, f: nat, i: nat, args: seq<Arg>, a: nat)
    returns (nextF: nat, nextI: nat, nextA: nat)
    requires f < n < fmt.Length && fmt[n] == 0 && a <= |args| && Matches(fmt[f..n], args[a..])
    requires s.Sized() && i == s.len && fmt != s.buf && Fits(s.len + |Render(fmt[f..n], args[a..])| + 1)
    modifies s, s.buf
    ensures s.Sized() && nextI == s.len && (s.buf == old(s.buf) || fresh(s.buf))
    ensures f < nextF <= n && nextA <= |args| && Matches(fmt[nextF..n], args[nextA..])
    ensures s.Contents() + Render(fmt[nextF..n], args[nextA..])
         == old(s.Contents()) + Render(fmt[f..n], args[a..])
  {
    hide Matches, Render;
    var t, single;
    t, single, nextF, nextA := Directive(fmt, n, f, args, a);
    ghost var (done, rest) := (s.Contents(), Render(fmt[nextF..n], args[nextA..]));
    if s.free == 0 {
      s.MakeRoomFor(1);
      assert s.Contents() == done;
    }
    if single {
      PutByte(s, i, t[0]);
      assert t == [t[0]];
      nextI := i + 1;
    } else {
      nextI := Put(s, i, t);
    }
    assert (done + t) + rest == done + (t + rest);
  }

  // The position in the result is an int, so the result must stay below 2^31 bytes.
  method CatFmt(s: Sds, fmt: array<byte>, ghost n: nat, args: seq<Arg>)
    requires s.Valid() && fmt != s.buf && n < fmt.Length && fmt[n] == 0 && 0 !in fmt[..n]
    requires Matches(fmt[..n], args) && s.len + |Render(fmt[..n], args)| < 0x8000_0000
    modifies s, s.buf
    ensures s.Valid() && s.Contents() == old(s.Contents()) + Render(fmt[..n], args)
    ensures s.buf == old(s.buf) || fresh(s.buf)
  {
    hide Matches, Render;
    var f, i, a := 0, s.len, 0;
    ghost var (text, all) := (fmt[..n], s.Contents() + Render(fmt[..n], args));
    assert forall k :: 0 <= k < n ==> fmt[k] != 0 by { assert forall k :: 0 <= k < n ==> text[k] in text; }
    assert fmt[0..n] == fmt[..n] && args[0..] == args;
    while fmt[f] != 0
      invariant 0 <= f <= n && 0 <= a <= |args| && s.Sized() && i == s.len
      invariant s.buf == old(s.buf) || fresh(s.buf)
      invariant fmt[..n] == text && fmt[n] == 0 && forall k :: 0 <= k < n ==> fmt[k] != 0
      invariant Matches(fmt[f..n], args[a..]) && s.Contents() + Render(fmt[f..n], args[a..]) == all
      decreases n - f
    {
      assert f < n;
      f, i, a := Step(s, fmt, n, f, i, args, a);
    }
    assert fmt[f..n] == [];
    RenderEmpty(args[a..]);
    s.buf[i] := 0;
  }

  lemma RenderEmpty(args: seq<Arg>)
    ensures Matches([], args) && Render([], args) == []
  {
  }
}
