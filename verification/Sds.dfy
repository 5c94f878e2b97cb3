/** Dynamic strings: a buffer that knows its length and its spare room, and grows by doubling. */
module Sds {
  import opened Bytes
  import opened Powers

  const SDS_MAX_PREALLOC: nat := 1024 * 1024

  // The capacity asked for when n bytes no longer fit.
  function Room(n: nat): nat {
    if n < SDS_MAX_PREALLOC then 2 * n else n + SDS_MAX_PREALLOC
  }

  // The header's 32-bit fields can describe a string of n bytes and the room reserved for it.
  predicate Fits(n: nat) {
    n + SDS_MAX_PREALLOC < TWO32
  }

  class Sds {
    var len: nat
    var free: nat
    var buf: array<byte>
    ghost var moved: nat      // bytes copied from one allocation to the next
    ghost var reallocs: nat

    // The allocation is the string, its spare room and the terminator.
    ghost predicate Sized()
      reads this
    {
      len + free + 1 == buf.Length <= TWO32
    }

    ghost predicate Valid()
      reads this, buf
    {
      Sized() && buf[len] == 0
    }

    function Contents(): bytes
      requires len <= buf.Length
      reads this, buf
    {
      buf[..len]
    }

    ghost function Size(): Growth
      reads this
    {
      Growth(len, len + free, moved, reallocs)
    }

    constructor Empty()
      ensures Valid() && fresh(buf) && Contents() == [] && Size() == Growth(0, 0, 0, 0)
    {
      len, free, buf := 0, 0, new byte[1](_ => 0);
      moved, reallocs := 0, 0;
    }

    method MakeRoomFor(addlen: nat)
      requires Sized() && Fits(len + addlen)
      modifies `free, `buf, `moved, `reallocs
      ensures Sized() && free >= addlen
      ensures buf == old(buf) || fresh(buf)
      ensures buf.Length >= old(buf.Length) && buf[..old(buf.Length)] == old(buf[..])
      ensures Size() == Reserve(old(Size()), addlen)
    {
      if free >= addlen {
        return;
      }
      var newlen := len + addlen;
      if newlen < SDS_MAX_PREALLOC {
        newlen := newlen * 2;
      } else {
        newlen := newlen + SDS_MAX_PREALLOC;
      }
      var old_ := buf;
      buf := new byte[newlen + 1];
      forall i | 0 <= i < old_.Length {
        buf[i] := old_[i];
      }
      moved, reallocs := moved + old_.Length, reallocs + 1;
      free := newlen - len;
    }

    method CatLen(t: bytes)
      requires Valid() && Fits(len + |t|)
      modifies this, buf
      ensures Valid() && Contents() == old(Contents()) + t
      ensures buf == old(buf) || fresh(buf)
      ensures Size() == Grow(old(Size()), |t|)
    {
      var curlen := len;
      MakeRoomFor(|t|);
      ghost var was := buf[..curlen];
      forall i | 0 <= i < |t| {
        buf[curlen + i] := t[i];
      }
      len := curlen + |t|;
      free := free - |t|;
      buf[curlen + |t|] := 0;
      assert buf[..len] == was + t;
    }
  }

  // ---------------------------------------------------------------- growth

  // Length, capacity, bytes moved so far and reallocations so far.
  datatype Growth = Growth(len: nat, cap: nat, moved: nat, reallocs: nat)

  function Reserve(g: Growth, addlen: nat): Growth {
    if g.cap - g.len >= addlen then g
    else Growth(g.len, Room(g.len + addlen), g.moved + g.cap + 1, g.reallocs + 1)
  }

  function Grow(g: Growth, n: nat): Growth {
    Reserve(g, n).(len := g.len + n)
  }

  function GrowAll(g: Growth, ns: seq<nat>): Growth
    decreases |ns|
  {
    if ns == [] then g else GrowAll(Grow(g, ns[0]), ns[1..])
  }

  // Below the limit the capacity is twice a length the string has had, and each such length more than
  // doubles the one before.
  predicate Doubling(g: Growth) {
    && g.cap % 2 == 0 && g.cap / 2 <= g.len <= g.cap
    && g.moved <= g.cap && Pow2(g.reallocs) <= g.cap / 2 + 1
  }

  lemma GrowDoubles(g: Growth, n: nat)
    requires Doubling(g) && g.len + n < SDS_MAX_PREALLOC
    ensures Doubling(Grow(g, n))
  {
    assert Pow2(g.reallocs + 1) == 2 * Pow2(g.reallocs);
  }

  lemma {:induction false} GrowLonger(g: Growth, ns: seq<nat>)
    ensures GrowAll(g, ns).len >= g.len
    decreases |ns|
  {
    if ns != [] { GrowLonger(Grow(g, ns[0]), ns[1..]); }
  }

  lemma {:induction false} RunDoubles(g: Growth, ns: seq<nat>)
    requires Doubling(g) && GrowAll(g, ns).len < SDS_MAX_PREALLOC
    ensures Doubling(GrowAll(g, ns))
    decreases |ns|
  {
    if ns != [] {
      GrowLonger(Grow(g, ns[0]), ns[1..]);
      GrowDoubles(g, ns[0]);
      RunDoubles(Grow(g, ns[0]), ns[1..]);
    }
  }

  // Any sequence of appends to an empty string moves at most twice its final length, in logarithmically
  // many reallocations.
  lemma AmortisedGrowth(ns: seq<nat>)
    requires GrowAll(Growth(0, 0, 0, 0), ns).len < SDS_MAX_PREALLOC
    ensures var g := GrowAll(Growth(0, 0, 0, 0), ns); g.moved <= 2 * g.len && Pow2(g.reallocs) <= g.len + 1
  {
    RunDoubles(Growth(0, 0, 0, 0), ns);
  }

  lemma {:induction false} GrowLast(g: Growth, ns: seq<nat>, n: nat)
    ensures GrowAll(g, ns + [n]) == Grow(GrowAll(g, ns), n)
    decreases |ns|
  {
    if ns == [] {
      assert [n][1..] == [];
    } else {
      assert (ns + [n])[1..] == ns[1..] + [n];
      GrowLast(Grow(g, ns[0]), ns[1..], n);
    }
  }

  // 2 * j appends of SDS_MAX_PREALLOC bytes; every other one reallocates.
  function Megabytes(j: nat): seq<nat> {
    if j == 0 then [] else Megabytes(j - 1) + [SDS_MAX_PREALLOC] + [SDS_MAX_PREALLOC]
  }

  lemma {:induction false} MegabytesGrow(j: nat)
    ensures var full := 2 * j * SDS_MAX_PREALLOC;
      j * (j - 1) >= 0 && GrowAll(Growth(0, 0, 0, 0), Megabytes(j)) == Growth(full, full, j * (j - 1) * SDS_MAX_PREALLOC + j, j)
  {
    if j > 0 {
      var i := j - 1;
      MegabytesGrow(i);
      assert j * i == i * (i - 1) + 2 * i;
      GrowLast(Growth(0, 0, 0, 0), Megabytes(i), SDS_MAX_PREALLOC);
      GrowLast(Growth(0, 0, 0, 0), Megabytes(i) + [SDS_MAX_PREALLOC], SDS_MAX_PREALLOC);
    }
  }

  lemma TimesOdd(c: nat, m: nat)
    ensures var j := 2 * c + 1; c * (2 * j * m) == j * (j - 1) * m
  {
    var j := 2 * c + 1;
    assert j * (j - 1) == c * (2 * j);
    assert c * (2 * j * m) == c * (2 * j) * m;
  }

  // Past the limit the capacity grows by a fixed amount, and no multiple of the final length bounds the
  // bytes moved.
  lemma BoundFails(c: nat)
    ensures var g := GrowAll(Growth(0, 0, 0, 0), Megabytes(2 * c + 1)); g.moved > c * g.len
  {
    hide GrowAll;
    var j := 2 * c + 1;
    MegabytesGrow(j);
    TimesOdd(c, SDS_MAX_PREALLOC);
  }

  // What growth costs there: one reallocation more for each SDS_MAX_PREALLOC bytes of length.
  predicate FewReallocs(g: Growth) {
    && g.len <= g.cap
    && if g.cap < 2 * SDS_MAX_PREALLOC then Pow2(g.reallocs) <= g.cap / 2 + 1
       else g.cap <= g.len + SDS_MAX_PREALLOC && SDS_MAX_PREALLOC * (g.reallocs - 20) <= g.cap - SDS_MAX_PREALLOC
  }

  // A reallocation moves no more than the string is about to be long.
  predicate FewMoves(g: Growth) {
    g.len <= g.cap && g.moved <= g.reallocs * g.len
  }

  lemma {:induction false} TwentyDoublings(r: nat)
    requires Pow2(r) <= SDS_MAX_PREALLOC
    ensures r <= 20
  {
    assert Pow2(5) == 32;
    assert Pow2(10) == 1024;
    assert Pow2(15) == 32768;
    assert Pow2(20) == SDS_MAX_PREALLOC;
    if r > 20 { PowerGrows(20, r); }
  }

  lemma {:induction false} PowerGrows(k: nat, r: nat)
    requires k < r
    ensures Pow2(k) < Pow2(r)
  {
    if k + 1 < r { PowerGrows(k, r - 1); }
  }

  lemma GrowReallocs(g: Growth, n: nat)
    requires FewReallocs(g)
    ensures FewReallocs(Grow(g, n))
  {
    hide Pow2;
    if g.cap < g.len + n {
      if g.cap < 2 * SDS_MAX_PREALLOC {
        TwentyDoublings(g.reallocs);
        DoublePower(g.reallocs, g.cap, g.len + n);
      }
    }
  }

  lemma DoublePower(r: nat, cap: nat, now: nat)
    requires Pow2(r) <= cap / 2 + 1 && cap < now
    ensures Pow2(r + 1) <= 2 * now / 2 + 1
  {
    assert Pow2(r + 1) == 2 * Pow2(r);
  }

  lemma GrowMoves(g: Growth, n: nat)
    requires FewMoves(g)
    ensures FewMoves(Grow(g, n))
  {
    var now := g.len + n;
    assert g.reallocs * g.len <= g.reallocs * now;
    assert (g.reallocs + 1) * now == g.reallocs * now + now;
  }

  lemma {:induction false} RunCosts(g: Growth, ns: seq<nat>)
    requires FewReallocs(g) && FewMoves(g)
    ensures FewReallocs(GrowAll(g, ns)) && FewMoves(GrowAll(g, ns))
    decreases |ns|
  {
    hide FewReallocs, FewMoves, Grow;
    if ns != [] {
      GrowReallocs(g, ns[0]);
      GrowMoves(g, ns[0]);
      RunCosts(Grow(g, ns[0]), ns[1..]);
    }
  }

  lemma ReallocBound(g: Growth)
    requires FewReallocs(g)
    ensures g.reallocs <= 20 + g.len / SDS_MAX_PREALLOC
  {
    if g.cap < 2 * SDS_MAX_PREALLOC { TwentyDoublings(g.reallocs); }
  }

  // Any sequence of appends to an empty string, however long it gets.
  lemma GrowthBound(ns: seq<nat>)
    ensures var g := GrowAll(Growth(0, 0, 0, 0), ns);
      g.reallocs <= 20 + g.len / SDS_MAX_PREALLOC && g.moved <= g.reallocs * g.len
  {
    hide GrowAll;
    var start := Growth(0, 0, 0, 0);
    RunCosts(start, ns);
    ReallocBound(GrowAll(start, ns));
  }

  // ---------------------------------------------------------------- integers

  const SDS_LLSTR_SIZE: nat := 21

  // The decimal form of a signed number.
  function Signed(v: int): bytes {
    if v < 0 then [MINUS] + Decimal(-v) else Decimal(v)
  }

  function SignedValue(s: bytes): int {
    if s != [] && s[0] == MINUS then -Value(s[1..]) else Value(s)
  }

  lemma SignedRoundTrip(v: int)
    ensures SignedValue(Signed(v)) == v
  {
    DecimalValue(if v < 0 then -v else v);
    assert v < 0 ==> Signed(v)[1..] == Decimal(-v);
  }

  lemma TwentyDigits()
    ensures Pow10(19) == 10_000_000_000_000_000_000 && Pow10(20) == 100_000_000_000_000_000_000
  {
    assert Pow10(3) == 1_000;
    assert Pow10(6) == 1_000_000;
    assert Pow10(9) == 1_000_000_000;
    assert Pow10(12) == 1_000_000_000_000;
    assert Pow10(15) == 1_000_000_000_000_000;
    assert Pow10(18) == 1_000_000_000_000_000_000;
  }

  function Reversed(s: bytes): (r: bytes)
    ensures |r| == |s| && forall i :: 0 <= i < |s| ==> r[i] == s[|s| - 1 - i]
  {
    if s == [] then [] else Reversed(s[1..]) + [s[0]]
  }

  // Turns the n bytes from the start of a around.
  method Reverse(a: array<byte>, n: nat)
    requires 0 < n <= a.Length
    modifies a
    ensures a[..n] == Reversed(old(a[..n])) && a[n..] == old(a[n..])
  {
    hide Reversed;
    var s, p := 0, n - 1;
    while s < p
      invariant 0 <= s <= p + 1 && s + p == n - 1
      invariant forall k :: 0 <= k < s ==> a[k] == old(a[n - 1 - k])
      invariant forall k :: p < k < n ==> a[k] == old(a[n - 1 - k])
      invariant forall k :: s <= k <= p || n <= k < a.Length ==> a[k] == old(a[k])
    {
      a[s], a[p] := a[p], a[s];
      s, p := s + 1, p - 1;
    }
    forall k | 0 <= k < n ensures a[..n][k] == old(a[..n])[n - 1 - k] {
      assert a[k] == old(a[n - 1 - k]);
    }
    ReversedIs(old(a[..n]), a[..n]);
  }

  lemma ReversedIs(s: bytes, r: bytes)
    requires |r| == |s| && forall i :: 0 <= i < |s| ==> r[i] == s[|s| - 1 - i]
    ensures r == Reversed(s)
  {
  }

  // The digits above the ones already written.
  function High(v: nat): bytes {
    if v == 0 then [] else Decimal(v)
  }

  // The digits of v, last first, from position 0.
  method PutDigits(a: array<byte>, v: nat) returns (n: nat)
    requires |Decimal(v)| <= a.Length
    modifies a
    ensures n == |Decimal(v)| && Reversed(a[..n]) == Decimal(v)
  {
    hide Decimal, Reversed, High;
    n := 1;
    a[0] := ZERO + v % 10;
    var rest: nat := v / 10;
    LastDigit(v);
    assert a[..1] == [] + [a[0]];
    ReversedPush([], a[0]);
    assert Reversed([]) == [] && High(rest) + ([a[0]] + []) == High(rest) + [a[0]];
    while rest != 0
      invariant 1 <= n <= |Decimal(v)|
      invariant Decimal(v) == High(rest) + Reversed(a[..n])
    {
      LastDigit(rest);
      ghost var (d, low) := (ZERO + rest % 10, a[..n]);
      assert n + 1 <= |Decimal(v)|;
      a[n] := ZERO + rest % 10;
      assert a[..n + 1] == low + [d];
      ReversedPush(low, d);
      assert High(rest / 10) + [d] + Reversed(low) == High(rest / 10) + ([d] + Reversed(low));
      rest := rest / 10;
      n := n + 1;
    }
  }

  lemma LastDigit(v: nat)
    ensures Decimal(v) == High(v / 10) + [ZERO + v % 10]
    ensures High(0) == [] && (v > 0 ==> High(v) == Decimal(v))
  {
  }

  lemma {:induction false} ReversedPush(s: bytes, b: byte)
    ensures Reversed(s + [b]) == [b] + Reversed(s)
  {
  }

  method LongToStr(a: array<byte>, value: int) returns (l: nat)
    requires -0x8000_0000_0000_0000 <= value < 0x8000_0000_0000_0000 && a.Length >= SDS_LLSTR_SIZE
    modifies a
    ensures l <= 20 && a[..l] == Signed(value) && a[l] == 0
  {
    var v := if value < 0 then -value else value;
    TwentyDigits();
    DecimalLength(v, 19);
    l := PutDigits(a, v);
    if value < 0 {
      a[l] := MINUS;
      ReversedPush(a[..l], MINUS);
      assert a[..l + 1] == a[..l] + [MINUS];
      l := l + 1;
    }
    a[l] := 0;
    Reverse(a, l);
    assert a[l..][0] == 0;
  }

  method ULongToStr(a: array<byte>, v: nat) returns (l: nat)
    requires v < TWO64 && a.Length >= SDS_LLSTR_SIZE
    modifies a
    ensures l <= 20 && a[..l] == Decimal(v) && a[l] == 0
  {
    TwentyDigits();
    DecimalLength(v, 20);
    l := PutDigits(a, v);
    a[l] := 0;
    Reverse(a, l);
    assert a[l..][0] == 0;
  }
}
