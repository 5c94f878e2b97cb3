/** Splitting a string at a separator, and joining the pieces. */
module SdsSplit {
  import opened Bytes
  import opened Sds

  predicate OccursAt(s: bytes, sep: bytes, k: nat) {
    k + |sep| <= |s| && s[k..k + |sep|] == sep
  }

  predicate Contains(s: bytes, sep: bytes) {
    exists k: nat :: k <= |s| && OccursAt(s, sep, k)
  }

  // The first occurrence from position j on, or none.
  function First(s: bytes, sep: bytes, j: nat): (k: Option<nat>)
    ensures k.Some? ==> j <= k.value && OccursAt(s, sep, k.value)
    ensures forall i: nat :: j <= i < (if k.Some? then k.value else |s| + 1) ==> !OccursAt(s, sep, i)
    decreases |s| - j
  {
    if j + |sep| > |s| then None
    else if OccursAt(s, sep, j) then Some(j)
    else First(s, sep, j + 1)
  }

  // The pieces between the leftmost occurrences.
  function Split(s: bytes, sep: bytes): (t: seq<bytes>)
    requires sep != []
    ensures t != []
    decreases |s|
  {
    match First(s, sep, 0)
    case None => [s]
    case Some(k) => [s[..k]] + Split(s[k + |sep|..], sep)
  }

  function Join(ts: seq<bytes>, sep: bytes): bytes {
    if ts == [] then []
    else if |ts| == 1 then ts[0]
    else ts[0] + sep + Join(ts[1..], sep)
  }

  lemma {:induction false} JoinSplit(s: bytes, sep: bytes)
    requires sep != []
    ensures Join(Split(s, sep), sep) == s
    decreases |s|
  {
    match First(s, sep, 0)
    case None =>
    case Some(k) =>
      JoinSplit(s[k + |sep|..], sep);
      assert s == s[..k] + sep + s[k + |sep|..];
  }

  lemma OccursInPrefix(s: bytes, sep: bytes, k: nat, i: nat)
    requires k <= |s| && OccursAt(s[..k], sep, i)
    ensures OccursAt(s, sep, i) && i + |sep| <= k
  {
    assert s[..k][i..i + |sep|] == s[i..i + |sep|];
  }

  // Nothing occurs before the first occurrence, even in part.
  lemma BeforeFirst(s: bytes, sep: bytes, k: nat)
    requires sep != [] && k <= |s| && forall i: nat :: i < k ==> !OccursAt(s, sep, i)
    ensures !Contains(s[..k], sep)
  {
    forall i: nat ensures !OccursAt(s[..k], sep, i) {
      if OccursAt(s[..k], sep, i) { OccursInPrefix(s, sep, k, i); }
    }
  }

  lemma {:induction false} TokensAreClean(s: bytes, sep: bytes)
    requires sep != []
    ensures forall t <- Split(s, sep) :: !Contains(t, sep)
    decreases |s|
  {
    hide OccursAt, Contains;
    var ts := Split(s, sep);
    match First(s, sep, 0)
    case None =>
      assert s[..|s|] == s;
      BeforeFirst(s, sep, |s|);
      assert ts == [s];
    case Some(k) =>
      OccursFits(s, sep, k);
      BeforeFirst(s, sep, k);
      TokensAreClean(s[k + |sep|..], sep);
      assert forall t <- ts :: t == s[..k] || t in Split(s[k + |sep|..], sep);
  }

  lemma OccursFits(s: bytes, sep: bytes, k: nat)
    requires OccursAt(s, sep, k)
    ensures k + |sep| <= |s|
  {
  }

  // With a one-byte separator, splitting also undoes joining.
  lemma {:induction false} SplitJoin(ts: seq<bytes>, c: byte)
    requires ts != [] && forall t <- ts :: c !in t
    ensures Split(Join(ts, [c]), [c]) == ts
    decreases |ts|
  {
    var s := Join(ts, [c]);
    if |ts| == 1 {
      forall i: nat | i < |s| ensures !OccursAt(s, [c], i) {
        assert s[i] in s;
      }
    } else {
      var k := |ts[0]|;
      assert s == ts[0] + [c] + Join(ts[1..], [c]);
      assert OccursAt(s, [c], k);
      forall i: nat | i < k ensures !OccursAt(s, [c], i) {
        assert s[i] == ts[0][i] && ts[0][i] in ts[0];
      }
      assert First(s, [c], 0) == Some(k);
      assert s[..k] == ts[0] && s[k + 1..] == Join(ts[1..], [c]);
      SplitJoin(ts[1..], c);
    }
  }

  lemma FirstIs(s: bytes, sep: bytes, k: nat)
    requires OccursAt(s, sep, k) && forall i: nat :: i < k ==> !OccursAt(s, sep, i)
    ensures First(s, sep, 0) == Some(k)
  {
    OccursFits(s, sep, k);
    hide OccursAt;
  }

  lemma ShiftOccurs(s: bytes, sep: bytes, start: nat, i: nat)
    requires start <= |s|
    ensures OccursAt(s[start..], sep, i) == OccursAt(s, sep, start + i)
  {
    if start + i + |sep| <= |s| {
      assert s[start..][i..i + |sep|] == s[start + i..start + i + |sep|];
    }
  }

  lemma FirstShifts(s: bytes, sep: bytes, start: nat, j: nat)
    requires start <= j <= |s| && OccursAt(s, sep, j)
    requires forall i: nat :: start <= i < j ==> !OccursAt(s, sep, i)
    ensures First(s[start..], sep, 0) == Some(j - start)
  {
    hide OccursAt, First;
    ShiftOccurs(s, sep, start, j - start);
    forall i: nat | i < j - start ensures !OccursAt(s[start..], sep, i) {
      ShiftOccurs(s, sep, start, i);
    }
    FirstIs(s[start..], sep, j - start);
  }

  // The first occurrence of sep in the part from start on is at j.
  lemma SplitAt(s: bytes, sep: bytes, start: nat, j: nat)
    requires sep != [] && start <= j && OccursAt(s, sep, j)
    requires forall i: nat :: start <= i < j ==> !OccursAt(s, sep, i)
    ensures Split(s[start..], sep) == [s[start..j]] + Split(s[j + |sep|..], sep)
  {
    hide OccursAt, First, Split;
    OccursFits(s, sep, j);
    FirstShifts(s, sep, start, j);
    CutOut(s, sep, start, j);
    SplitStep(s[start..], sep, s[start..j], s[j + |sep|..]);
  }

  lemma CutOut(s: bytes, sep: bytes, start: nat, j: nat)
    requires start <= j && OccursAt(s, sep, j)
    ensures s[start..] == s[start..j] + sep + s[j + |sep|..]
  {
  }

  lemma SplitStep(t: bytes, sep: bytes, head: bytes, tail: bytes)
    requires sep != [] && t == head + sep + tail && First(t, sep, 0) == Some(|head|)
    ensures Split(t, sep) == [head] + Split(tail, sep)
  {
    assert t[..|head|] == head && t[|head| + |sep|..] == tail;
  }

  lemma SplitLast(s: bytes, sep: bytes, start: nat)
    requires sep != [] && start <= |s|
    requires forall i: nat :: start <= i <= |s| ==> !OccursAt(s, sep, i)
    ensures Split(s[start..], sep) == [s[start..]]
  {
    hide OccursAt;
    if k: nat :| First(s[start..], sep, 0) == Some(k) {
      OccursFits(s[start..], sep, k);
      ShiftOccurs(s, sep, start, k);
    }
  }

  // Copies the tokens into an array of twice the size.
  method Enlarge(tokens: array<bytes>, slots: nat) returns (more: array<bytes>)
    requires slots == 2 * tokens.Length
    ensures fresh(more) && more.Length == slots && more[..tokens.Length] == tokens[..]
  {
    more := new bytes[slots];
    forall i | 0 <= i < tokens.Length {
      more[i] := tokens[i];
    }
  }

  // No result without a separator, no tokens for an empty string.
  method SplitLen(s: bytes, sep: bytes) returns (result: Option<(array<bytes>, nat)>)
    ensures sep == [] <==> result == None
    ensures result.Some? ==> result.value.1 <= result.value.0.Length
    ensures result.Some? ==> result.value.0.Length == 5 || result.value.0.Length <= 2 * result.value.1
    ensures result.Some? ==> result.value.0[..result.value.1] == if s == [] then [] else Split(s, sep)
  {
    hide Split, OccursAt;
    if |sep| < 1 {
      return None;
    }
    var elements, slots, start, j := 0, 5, 0, 0;
    var tokens := new bytes[slots];
    if |s| == 0 {
      return Some((tokens, 0));
    }
    assert s[0..] == s;
    while j < |s| - (|sep| - 1)
      invariant 0 <= start <= j && start <= |s| && elements < slots == tokens.Length && fresh(tokens)
      invariant slots == 5 || slots <= 2 * elements + 2
      invariant forall i: nat :: start <= i < j ==> !OccursAt(s, sep, i)
      invariant Split(s, sep) == tokens[..elements] + Split(s[start..], sep)
      decreases |s| - j
    {
      // One token may be added in this round and another one after the loop.
      if slots < elements + 2 {
        slots := slots * 2;
        var more := Enlarge(tokens, slots);
        assert more[..elements] == tokens[..elements];
        tokens := more;
      }
      Compare(s, sep, j);
      if s[j..j + |sep|] == sep {
        SplitAt(s, sep, start, j);
        AddToken(tokens, elements, s[start..j], Split(s[j + |sep|..], sep));
        elements := elements + 1;
        start := j + |sep|;
        j := j + |sep| - 1;
      }
      j := j + 1;
    }
    NoMore(s, sep, j);
    SplitLast(s, sep, start);
    AddToken(tokens, elements, s[start..], []);
    elements := elements + 1;
    return Some((tokens, elements));
  }

  lemma Compare(s: bytes, sep: bytes, j: nat)
    requires j + |sep| <= |s|
    ensures OccursAt(s, sep, j) == (s[j..j + |sep|] == sep)
  {
  }

  lemma NoMore(s: bytes, sep: bytes, j: nat)
    requires j + |sep| > |s|
    ensures forall i: nat :: j <= i ==> !OccursAt(s, sep, i)
  {
  }

  method AddToken(tokens: array<bytes>, n: nat, t: bytes, ghost rest: seq<bytes>)
    requires n < tokens.Length
    modifies tokens
    ensures tokens[..n + 1] == old(tokens[..n]) + [t]
    ensures tokens[..n + 1] + rest == old(tokens[..n]) + ([t] + rest)
  {
    tokens[n] := t;
    assert tokens[..n + 1] == tokens[..n] + [t];
  }

  // The pieces are C strings.
  function Texts(argv: seq<bytes>): seq<bytes> {
    seq(|argv|, i requires 0 <= i < |argv| => Text(argv[i]))
  }

  lemma JoinNext(ts: seq<bytes>, sep: bytes, j: nat, done: bytes)
    requires j < |ts|
    ensures done + Join(ts[j..], sep)
         == (if j == |ts| - 1 then done + ts[j] else done + ts[j] + sep) + Join(ts[j + 1..], sep)
  {
    assert ts[j..][1..] == ts[j + 1..];
    var rest := Join(ts[j + 1..], sep);
    if j < |ts| - 1 {
      assert done + (ts[j] + sep + rest) == done + ts[j] + sep + rest;
    } else {
      assert rest == [] && done + ts[j] + rest == done + ts[j];
    }
  }

  method JoinArgs(argv: seq<bytes>, sep: bytes) returns (join: Sds)
    requires Fits(|Join(Texts(argv), Text(sep))|)
    ensures fresh(join) && fresh(join.buf) && join.Valid() && join.Contents() == Join(Texts(argv), Text(sep))
  {
    hide Join;
    join := new Sds.Empty();
    ghost var (ts, all) := (Texts(argv), Join(Texts(argv), Text(sep)));
    var j := 0;
    assert ts[0..] == ts && [] + all == all;
    while j < |argv|
      invariant 0 <= j <= |argv| && join.Valid() && fresh(join) && fresh(join.buf)
      invariant all == join.Contents() + Join(ts[j..], Text(sep))
    {
      JoinNext(ts, Text(sep), j, join.Contents());
      join.CatLen(Text(argv[j]));
      if j != |argv| - 1 {
        join.CatLen(Text(sep));
      }
      j := j + 1;
    }
    JoinNone(Text(sep));
    assert ts[j..] == [] && join.Contents() + [] == join.Contents();
  }

  lemma JoinNone(sep: bytes)
    ensures Join([], sep) == []
  {
  }

  // Joining what was split gives the string back, also through C strings when it has no NUL.
  lemma SplitThenJoin(s: bytes, sep: bytes)
    requires sep != [] && 0 !in s && 0 !in sep
    ensures Join(Texts(Split(s, sep)), Text(sep)) == s
  {
    JoinSplit(s, sep);
    PiecesClean(s, sep);
    var ts := Split(s, sep);
    TextWhole(sep);
    forall i | 0 <= i < |ts| ensures Text(ts[i]) == ts[i] {
      assert ts[i] in ts;
      TextWhole(ts[i]);
    }
    assert Texts(ts) == ts;
  }

  lemma {:induction false} PiecesClean(s: bytes, sep: bytes)
    requires sep != [] && 0 !in s
    ensures forall t <- Split(s, sep) :: 0 !in t
    decreases |s|
  {
    match First(s, sep, 0)
    case None =>
    case Some(k) => PiecesClean(s[k + |sep|..], sep);
  }
}
